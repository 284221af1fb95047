/** The two stored entity classes, `Note` and `User`, as immutable values.
    A Java mutator that assigns one field becomes a function returning the
    updated record; a field Java leaves `null` until the store assigns it
    (`id`, and a user's `role` before registration) is an `Option`. */
module Entities {

  import opened Wrappers
  import opened JavaInt

  /** The account roles. Only `Registered` is ever assigned by the services;
      `OtherRole` stands for any other constant a client may send. */
  datatype Role = Registered | OtherRole(name: string)

  /** A text note with a like counter. The getters of the Java class are the
      datatype's destructors `id`, `text` and `likes`. */
  datatype Note = Note(id: Option<string>, text: string, likes: Int32)
  {
    /** `setText`: replaces the text, keeps everything else. */
    function SetText(t: string): (n: Note)
      ensures n.text == t
      ensures n.id == id && n.likes == likes
    {
      this.(text := t)
    }

    /** `incrementLikes`: `likes++` on a Java `int`. */
    function IncrementLikes(): (n: Note)
      ensures likes < MAX_INT ==> n.likes == likes + 1
      ensures likes == MAX_INT ==> n.likes == MIN_INT
      ensures n.id == id && n.text == text
    {
      this.(likes := Increment(likes))
    }

    /** `decrementLikes`: `likes--` on a Java `int`; there is no floor at zero. */
    function DecrementLikes(): (n: Note)
      ensures likes > MIN_INT ==> n.likes == likes - 1
      ensures likes == MIN_INT ==> n.likes == MAX_INT
      ensures n.id == id && n.text == text
    {
      this.(likes := Decrement(likes))
    }
  }

  /** `new Note(text)`: a note not yet saved, so without an id, with no likes. */
  function NewNote(text: string): (n: Note)
    ensures n.id.None?
    ensures n.text == text && n.likes == 0
  {
    Note(None, text, 0)
  }

  /** An account. The getters of the Java class are the destructors. */
  datatype User = User(id: Option<string>, username: string, password: string, role: Option<Role>)
  {
    /** `setPassword`: replaces the password, keeps everything else. */
    function SetPassword(p: string): (u: User)
      ensures u.password == p
      ensures u.id == id && u.username == username && u.role == role
    {
      this.(password := p)
    }

    /** `setRole`: replaces the role, keeps everything else. */
    function SetRole(r: Option<Role>): (u: User)
      ensures u.role == r
      ensures u.id == id && u.username == username && u.password == password
    {
      this.(role := r)
    }
  }

  /** `new User(username, password, role)`: fields as given, no id yet. */
  function NewUser(username: string, password: string, role: Option<Role>): (u: User)
    ensures u.id.None?
    ensures u.username == username && u.password == password && u.role == role
  {
    User(None, username, password, role)
  }

  /** Calls of the public mutators of `Note`, in order. */
  datatype NoteEdit = ChangeText(text: string) | Like | Unlike

  function ApplyNoteEdits(n: Note, edits: seq<NoteEdit>): Note
    decreases |edits|
  {
    if |edits| == 0 then n
    else
      var n' := match edits[0]
        case ChangeText(t) => n.SetText(t)
        case Like => n.IncrementLikes()
        case Unlike => n.DecrementLikes();
      ApplyNoteEdits(n', edits[1..])
  }

  /** Net effect of a run of edits on the like counter: likes minus unlikes. */
  function NetLikes(edits: seq<NoteEdit>): int
    decreases |edits|
  {
    if |edits| == 0 then 0
    else (match edits[0] case Like => 1 case Unlike => -1 case ChangeText(_) => 0) + NetLikes(edits[1..])
  }

  /** The text after a run of edits: the last `setText` wins, else the old text. */
  function LastText(current: string, edits: seq<NoteEdit>): string
    decreases |edits|
  {
    if |edits| == 0 then current
    else LastText(if edits[0].ChangeText? then edits[0].text else current, edits[1..])
  }

  /** No mutator of `Note` touches its id; the counter ends at the initial value
      plus the net number of likes (as Java `int`), and the text is the last one set. */
  lemma {:induction false} NoteEditsEffect(n: Note, edits: seq<NoteEdit>)
    ensures ApplyNoteEdits(n, edits).id == n.id
    ensures ApplyNoteEdits(n, edits).likes == Wrap(n.likes + NetLikes(edits))
    ensures ApplyNoteEdits(n, edits).text == LastText(n.text, edits)
    decreases |edits|
  {
    if |edits| > 0 {
      var n' := match edits[0]
        case ChangeText(t) => n.SetText(t)
        case Like => n.IncrementLikes()
        case Unlike => n.DecrementLikes();
      NoteEditsEffect(n', edits[1..]);
      var rest := NetLikes(edits[1..]);
      match edits[0]
      case ChangeText(t) =>
      case Like =>
        IncrementWrap(n.likes);
        WrapShift(n.likes + 1, rest);
      case Unlike =>
        DecrementWrap(n.likes);
        WrapShift(n.likes - 1, rest);
    }
  }

  /** A like followed by an unlike, or the reverse, leaves the note as it was. */
  lemma LikeUnlikeRestoresNote(n: Note)
    ensures n.IncrementLikes().DecrementLikes() == n
    ensures n.DecrementLikes().IncrementLikes() == n
  {
    IncrementDecrementInverse(n.likes);
  }

  /** Calls of the public mutators of `User`, in order. */
  datatype UserEdit = ChangePassword(password: string) | ChangeRole(role: Option<Role>)

  function ApplyUserEdits(u: User, edits: seq<UserEdit>): User
    decreases |edits|
  {
    if |edits| == 0 then u
    else
      var u' := match edits[0]
        case ChangePassword(p) => u.SetPassword(p)
        case ChangeRole(r) => u.SetRole(r);
      ApplyUserEdits(u', edits[1..])
  }

  /** No mutator of `User` changes its username or its id after construction. */
  lemma {:induction false} UserEditsKeepIdentity(u: User, edits: seq<UserEdit>)
    ensures ApplyUserEdits(u, edits).username == u.username
    ensures ApplyUserEdits(u, edits).id == u.id
    decreases |edits|
  {
    if |edits| > 0 {
      var u' := match edits[0]
        case ChangePassword(p) => u.SetPassword(p)
        case ChangeRole(r) => u.SetRole(r);
      UserEditsKeepIdentity(u', edits[1..]);
    }
  }
}
