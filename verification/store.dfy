/** The in-memory stand-in for the two document repositories, and the HTTP
    reply shape the services return. */
module Store {

  import opened Wrappers
  import opened Entities

  /** The HTTP statuses the services produce. */
  datatype Status = OK | CREATED | NO_CONTENT | NOT_FOUND | UNAUTHORIZED

  /** A `ResponseEntity`: a status and, for some replies, a body. */
  datatype Reply<T> = Reply(status: Status, body: Option<T>)

  /** Notes by id; users in insertion order (saving a user inserts a document,
      so nothing at this level keeps usernames unique). */
  datatype Store = Store(notes: map<string, Note>, users: seq<User>)

  /** The result of one service call: the reply and the store afterwards. */
  datatype Step<T> = Step(reply: Reply<T>, store: Store)

  /** Every stored note carries the id it is stored under. */
  predicate NotesKeyedById(notes: map<string, Note>)
  {
    forall k :: k in notes ==> notes[k].id == Some(k)
  }

  predicate UniqueUsernames(users: seq<User>)
  {
    forall i, j :: 0 <= i < j < |users| ==> users[i].username != users[j].username
  }

  /** `b` is `a` with at most the note under `id` replaced. */
  predicate OnlyNoteChanged(a: map<string, Note>, b: map<string, Note>, id: string)
  {
    && b.Keys == a.Keys
    && forall k :: k in a && k != id ==> b[k] == a[k]
  }

  /** `userRepository.findByUsername`: the first stored user with that name. */
  function FindByUsername(users: seq<User>, name: string): (r: Option<User>)
    ensures r.None? <==> forall i :: 0 <= i < |users| ==> users[i].username != name
    ensures r.Some? ==> exists i :: 0 <= i < |users| && users[i] == r.value
                                    && forall j :: 0 <= j < i ==> users[j].username != name
    ensures r.Some? ==> r.value.username == name
    decreases |users|
  {
    if |users| == 0 then None
    else if users[0].username == name then Some(users[0])
    else
      var r := FindByUsername(users[1..], name);
      if r.Some? then FirstMatchShift(users, name, r.value); r else r
  }

  /** A first match in the tail is a first match in the whole sequence when the
      head has another name. */
  lemma FirstMatchShift(users: seq<User>, name: string, v: User)
    requires |users| > 0 && users[0].username != name
    requires exists i :: 0 <= i < |users[1..]| && users[1..][i] == v
                         && forall j :: 0 <= j < i ==> users[1..][j].username != name
    ensures exists i :: 0 <= i < |users| && users[i] == v
                        && forall j :: 0 <= j < i ==> users[j].username != name
  {
    var i :| 0 <= i < |users[1..]| && users[1..][i] == v
             && forall j :: 0 <= j < i ==> users[1..][j].username != name;
    assert users[i + 1] == v;
  }

  /** With unique usernames the first match is the only match. */
  lemma FindByUsernameUnique(users: seq<User>, name: string, i: nat)
    requires UniqueUsernames(users)
    requires i < |users| && users[i].username == name
    ensures FindByUsername(users, name) == Some(users[i])
  {
    var r := FindByUsername(users, name);
    var k :| 0 <= k < |users| && users[k] == r.value
             && forall j :: 0 <= j < k ==> users[j].username != name;
    assert k == i;
  }

  /** Appending a user with a new name makes it the one found under that name. */
  lemma FindByUsernameAppend(users: seq<User>, u: User)
    requires forall i :: 0 <= i < |users| ==> users[i].username != u.username
    ensures FindByUsername(users + [u], u.username) == Some(u)
    decreases |users|
  {
    if |users| > 0 {
      assert (users + [u])[1..] == users[1..] + [u];
      FindByUsernameAppend(users[1..], u);
    }
  }

  /** Appending a user, whatever its name, leaves the lookup of every other
      name unchanged. */
  lemma FindByUsernameAppendOther(users: seq<User>, u: User, name: string)
    requires name != u.username
    ensures FindByUsername(users + [u], name) == FindByUsername(users, name)
    decreases |users|
  {
    if |users| > 0 {
      assert (users + [u])[1..] == users[1..] + [u];
      FindByUsernameAppendOther(users[1..], u, name);
    }
  }
}
