/** `NoteService`: lookup, creation, text update, deletion and the like
    counter of notes. Each operation either answers with an error status and
    leaves the store as it was, or makes one local change to the notes. */
module NoteService {

  import opened Wrappers
  import opened JavaInt
  import opened Entities
  import opened Store

  /** `findById`: the stored note with OK, or NOT_FOUND without a body. */
  function FindById(s: Store, id: string): (r: Reply<Note>)
    ensures r.status == OK <==> id in s.notes
    ensures r.status == OK || r.status == NOT_FOUND
    ensures r.body.Some? <==> r.status == OK
    ensures r.body.Some? ==> r.body.value == s.notes[id]
  {
    if id in s.notes then Reply(OK, Some(s.notes[id])) else Reply(NOT_FOUND, None)
  }

  /** `createNote`: saves `new Note(text)`; the repository assigns it the fresh
      id `newId`, and the saved note is the reply's body. */
  function CreateNote(s: Store, text: string, newId: string): (r: Step<Note>)
    requires newId !in s.notes
    ensures r.reply.status == CREATED && r.reply.body.Some?
    ensures r.reply.body.value.text == text && r.reply.body.value.likes == 0
    ensures r.reply.body.value.id == Some(newId)
    ensures r.store.notes.Keys == s.notes.Keys + {newId}
    ensures r.store.notes[newId] == r.reply.body.value
    ensures forall k :: k in s.notes ==> r.store.notes[k] == s.notes[k]
    ensures r.store.users == s.users
    ensures NotesKeyedById(s.notes) ==> NotesKeyedById(r.store.notes)
  {
    var saved := NewNote(text).(id := Some(newId));
    Step(Reply(CREATED, Some(saved)), s.(notes := s.notes[newId := saved]))
  }

  /** `updateNote`: NOT_FOUND and no change for an absent id; otherwise only
      that note's text is replaced and the updated note is returned with OK. */
  function UpdateNote(s: Store, id: string, text: string): (r: Step<Note>)
    ensures id !in s.notes ==> r.reply == Reply(NOT_FOUND, None) && r.store == s
    ensures id in s.notes ==>
      && r.reply.status == OK
      && id in r.store.notes
      && r.reply.body == Some(r.store.notes[id])
      && r.store.notes[id].text == text
      && r.store.notes[id].likes == s.notes[id].likes
      && r.store.notes[id].id == s.notes[id].id
      && OnlyNoteChanged(s.notes, r.store.notes, id)
      && r.store.users == s.users
    ensures NotesKeyedById(s.notes) ==> NotesKeyedById(r.store.notes)
  {
    if id !in s.notes then Step(Reply(NOT_FOUND, None), s)
    else
      var note := s.notes[id].SetText(text);
      Step(Reply(OK, Some(note)), s.(notes := s.notes[id := note]))
  }

  /** `deleteNote`: removes a present note with NO_CONTENT; NOT_FOUND otherwise.
      Neither reply has a body. */
  function DeleteNote(s: Store, id: string): (r: Step<()>)
    ensures r.reply.body.None?
    ensures id !in s.notes ==> r.reply.status == NOT_FOUND && r.store == s
    ensures id in s.notes ==>
      && r.reply.status == NO_CONTENT
      && r.store.notes.Keys == s.notes.Keys - {id}
      && (forall k :: k in r.store.notes ==> r.store.notes[k] == s.notes[k])
      && r.store.users == s.users
    ensures NotesKeyedById(s.notes) ==> NotesKeyedById(r.store.notes)
  {
    if id !in s.notes then Step(Reply(NOT_FOUND, None), s)
    else Step(Reply(NO_CONTENT, None), s.(notes := s.notes - {id}))
  }

  /** The one step shared by `addLike` and `removeLike`: a username check
      (existence only, the password is never looked at), then a note lookup,
      then one change to that note's counter. */
  function ChangeLikes(s: Store, id: string, user: User, like: bool): (r: Step<()>)
    ensures r.reply.body.None?
    ensures FindByUsername(s.users, user.username).None? ==>
      r.reply.status == UNAUTHORIZED && r.store == s
    ensures FindByUsername(s.users, user.username).Some? && id !in s.notes ==>
      r.reply.status == NOT_FOUND && r.store == s
    ensures FindByUsername(s.users, user.username).Some? && id in s.notes ==>
      && r.reply.status == OK
      && OnlyNoteChanged(s.notes, r.store.notes, id)
      && r.store.notes[id].likes == (if like then Increment(s.notes[id].likes) else Decrement(s.notes[id].likes))
      && r.store.notes[id].text == s.notes[id].text
      && r.store.notes[id].id == s.notes[id].id
      && r.store.users == s.users
    ensures NotesKeyedById(s.notes) ==> NotesKeyedById(r.store.notes)
  {
    if FindByUsername(s.users, user.username).None? then Step(Reply(UNAUTHORIZED, None), s)
    else if id !in s.notes then Step(Reply(NOT_FOUND, None), s)
    else
      var note := s.notes[id];
      var note' := if like then note.IncrementLikes() else note.DecrementLikes();
      Step(Reply(OK, None), s.(notes := s.notes[id := note']))
  }

  /** `addLike`: UNAUTHORIZED for an unknown username (whatever the id), then
      NOT_FOUND for an absent note, else OK with that note's likes one higher. */
  function AddLike(s: Store, id: string, user: User): (r: Step<()>)
    ensures r.reply.body.None?
    ensures FindByUsername(s.users, user.username).None? ==>
      r.reply.status == UNAUTHORIZED && r.store == s
    ensures FindByUsername(s.users, user.username).Some? && id !in s.notes ==>
      r.reply.status == NOT_FOUND && r.store == s
    ensures FindByUsername(s.users, user.username).Some? && id in s.notes ==>
      && r.reply.status == OK
      && OnlyNoteChanged(s.notes, r.store.notes, id)
      && r.store.notes[id].likes == Increment(s.notes[id].likes)
      && r.store.notes[id].text == s.notes[id].text
      && r.store.notes[id].id == s.notes[id].id
      && r.store.users == s.users
    ensures NotesKeyedById(s.notes) ==> NotesKeyedById(r.store.notes)
  {
    ChangeLikes(s, id, user, true)
  }

  /** `removeLike`: the same checks in the same order as `addLike`; on success
      the likes go one lower, below zero if need be. */
  function RemoveLike(s: Store, id: string, user: User): (r: Step<()>)
    ensures r.reply.body.None?
    ensures FindByUsername(s.users, user.username).None? ==>
      r.reply.status == UNAUTHORIZED && r.store == s
    ensures FindByUsername(s.users, user.username).Some? && id !in s.notes ==>
      r.reply.status == NOT_FOUND && r.store == s
    ensures FindByUsername(s.users, user.username).Some? && id in s.notes ==>
      && r.reply.status == OK
      && OnlyNoteChanged(s.notes, r.store.notes, id)
      && r.store.notes[id].likes == Decrement(s.notes[id].likes)
      && r.store.notes[id].text == s.notes[id].text
      && r.store.notes[id].id == s.notes[id].id
      && r.store.users == s.users
    ensures NotesKeyedById(s.notes) ==> NotesKeyedById(r.store.notes)
  {
    ChangeLikes(s, id, user, false)
  }

  /** Creating a note and then looking up its new id finds exactly that note. */
  lemma CreateThenFind(s: Store, text: string, newId: string)
    requires newId !in s.notes
    ensures FindById(CreateNote(s, text, newId).store, newId)
         == Reply(OK, Some(Note(Some(newId), text, 0)))
  {
  }

  /** Deleting twice: the second delete answers NOT_FOUND and changes nothing. */
  lemma DeleteTwice(s: Store, id: string)
    ensures var s' := DeleteNote(s, id).store;
      DeleteNote(s', id).reply.status == NOT_FOUND && DeleteNote(s', id).store == s'
  {
  }

  /** The like outcome depends on the supplied user only through the username:
      password, role and id of the request's user are never consulted. */
  lemma LikeIgnoresCredentials(s: Store, id: string, u1: User, u2: User)
    requires u1.username == u2.username
    ensures AddLike(s, id, u1) == AddLike(s, id, u2)
    ensures RemoveLike(s, id, u1) == RemoveLike(s, id, u2)
  {
  }

  /** A like followed by an unlike on the same note, by known users (not
      necessarily the same one), restores the store; so does the reverse order. */
  lemma LikeUnlikeRoundTrip(s: Store, id: string, u1: User, u2: User)
    requires FindByUsername(s.users, u1.username).Some?
    requires FindByUsername(s.users, u2.username).Some?
    ensures RemoveLike(AddLike(s, id, u1).store, id, u2).store == s
    ensures AddLike(RemoveLike(s, id, u1).store, id, u2).store == s
  {
    if id in s.notes {
      ChangeLikesRoundTrip(s, id, u1, u2, true);
      ChangeLikesRoundTrip(s, id, u1, u2, false);
    }
  }

  /** One counter change undone by the opposite one. */
  lemma ChangeLikesRoundTrip(s: Store, id: string, u1: User, u2: User, like: bool)
    requires FindByUsername(s.users, u1.username).Some?
    requires FindByUsername(s.users, u2.username).Some?
    requires id in s.notes
    ensures ChangeLikes(ChangeLikes(s, id, u1, like).store, id, u2, !like).store == s
  {
    var n := s.notes[id];
    var n1 := if like then n.IncrementLikes() else n.DecrementLikes();
    var s1 := s.(notes := s.notes[id := n1]);
    assert ChangeLikes(s, id, u1, like).store == s1;
    assert s1.users == s.users;
    ChangeLikesUndo(s1, id, u2, !like, n);
  }

  /** Applying the counter change opposite to the one that produced note `id`
      from `n` puts `n` back. */
  lemma ChangeLikesUndo(s1: Store, id: string, u: User, like: bool, n: Note)
    requires FindByUsername(s1.users, u.username).Some?
    requires id in s1.notes
    requires s1.notes[id] == (if like then n.DecrementLikes() else n.IncrementLikes())
    ensures ChangeLikes(s1, id, u, like).store == s1.(notes := s1.notes[id := n])
  {
    LikeUnlikeRestoresNote(n);
  }

  /** A like or unlike request on one note by a given user. */
  datatype LikeRequest = LikeBy(user: User) | UnlikeBy(user: User)

  /** Serves a run of like/unlike requests on note `id`, one after another. */
  function ServeLikes(s: Store, id: string, reqs: seq<LikeRequest>): Store
    decreases |reqs|
  {
    if |reqs| == 0 then s
    else
      var s' := match reqs[0]
        case LikeBy(u) => AddLike(s, id, u).store
        case UnlikeBy(u) => RemoveLike(s, id, u).store;
      ServeLikes(s', id, reqs[1..])
  }

  /** The note edits a run of requests amounts to: requests by unknown users
      are dropped (they are answered UNAUTHORIZED). */
  function AcceptedEdits(users: seq<User>, reqs: seq<LikeRequest>): seq<NoteEdit>
    decreases |reqs|
  {
    if |reqs| == 0 then []
    else if FindByUsername(users, reqs[0].user.username).None? then AcceptedEdits(users, reqs[1..])
    else [if reqs[0].LikeBy? then Like else Unlike] + AcceptedEdits(users, reqs[1..])
  }

  /** Serving a run of requests applies exactly the accepted edits to note
      `id` and nothing else: the other notes and the users are untouched, and
      a run on an absent note changes nothing. */
  lemma {:induction false} ServeLikesEdits(s: Store, id: string, reqs: seq<LikeRequest>)
    ensures ServeLikes(s, id, reqs).users == s.users
    ensures id !in s.notes ==> ServeLikes(s, id, reqs) == s
    ensures id in s.notes ==>
      && OnlyNoteChanged(s.notes, ServeLikes(s, id, reqs).notes, id)
      && ServeLikes(s, id, reqs).notes[id] == ApplyNoteEdits(s.notes[id], AcceptedEdits(s.users, reqs))
    decreases |reqs|
  {
    if |reqs| > 0 {
      var s' := match reqs[0]
        case LikeBy(u) => AddLike(s, id, u).store
        case UnlikeBy(u) => RemoveLike(s, id, u).store;
      ServeLikesEdits(s', id, reqs[1..]);
      if id in s.notes && FindByUsername(s.users, reqs[0].user.username).Some? {
        var edits := AcceptedEdits(s.users, reqs);
        var e := if reqs[0].LikeBy? then Like else Unlike;
        assert edits == [e] + AcceptedEdits(s.users, reqs[1..]);
        assert edits[1..] == AcceptedEdits(s.users, reqs[1..]);
        assert s'.notes[id] == ApplyNoteEdits(s.notes[id], [e]);
      }
    }
  }

  /** Likes are cumulative and never de-duplicated per user: after a run of
      requests on a present note its counter is the old one plus accepted
      likes minus accepted unlikes (as a Java `int`), and its text is kept. */
  lemma ServeLikesCounts(s: Store, id: string, reqs: seq<LikeRequest>)
    requires id in s.notes
    ensures id in ServeLikes(s, id, reqs).notes
    ensures ServeLikes(s, id, reqs).notes[id].likes
         == Wrap(s.notes[id].likes + NetLikes(AcceptedEdits(s.users, reqs)))
    ensures ServeLikes(s, id, reqs).notes[id].text == s.notes[id].text
  {
    ServeLikesEdits(s, id, reqs);
    AcceptedEditsEffect(s.notes[id], s.users, reqs);
  }

  /** The accepted edits of a run of like requests move only the counter. */
  lemma AcceptedEditsEffect(n: Note, users: seq<User>, reqs: seq<LikeRequest>)
    ensures ApplyNoteEdits(n, AcceptedEdits(users, reqs)).likes
         == Wrap(n.likes + NetLikes(AcceptedEdits(users, reqs)))
    ensures ApplyNoteEdits(n, AcceptedEdits(users, reqs)).text == n.text
    ensures ApplyNoteEdits(n, AcceptedEdits(users, reqs)).id == n.id
  {
    NoteEditsEffect(n, AcceptedEdits(users, reqs));
    AcceptedEditsKeepText(n.text, users, reqs);
  }

  /** Like requests never set a text. */
  lemma {:induction false} AcceptedEditsKeepText(t: string, users: seq<User>, reqs: seq<LikeRequest>)
    ensures LastText(t, AcceptedEdits(users, reqs)) == t
    decreases |reqs|
  {
    if |reqs| > 0 {
      AcceptedEditsKeepText(t, users, reqs[1..]);
      if FindByUsername(users, reqs[0].user.username).Some? {
        var edits := AcceptedEdits(users, reqs);
        assert edits[1..] == AcceptedEdits(users, reqs[1..]);
      }
    }
  }
}
