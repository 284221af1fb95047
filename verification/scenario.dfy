/** The two services together: a note can be liked only once its liker has
    registered, whatever password the like request carries. */
module Scenario {

  import opened Wrappers
  import opened Entities
  import opened Store
  import NoteService
  import UserService

  /** Create a note "hello"; a like by an unregistered "alice" is refused and
      the count stays 0; after "alice" registers, the same like request is
      accepted and the count is 1. */
  lemma LikeNeedsRegistration(s: Store, enc: UserService.Encoder, noteId: string, userId: string, request: User)
    requires noteId !in s.notes
    requires UserService.FreshUserId(s.users, userId)
    requires request.username == "alice"
    requires FindByUsername(s.users, "alice").None?
    ensures var s1 := NoteService.CreateNote(s, "hello", noteId).store;
      && NoteService.AddLike(s1, noteId, request).reply.status == UNAUTHORIZED
      && NoteService.AddLike(s1, noteId, request).store.notes[noteId].likes == 0
    ensures var s1 := NoteService.CreateNote(s, "hello", noteId).store;
      var s2 := UserService.RegisterUser(s1, request, enc, userId).store;
      && NoteService.AddLike(s2, noteId, request).reply.status == OK
      && NoteService.AddLike(s2, noteId, request).store.notes[noteId] == Note(Some(noteId), "hello", 1)
  {
    var s1 := NoteService.CreateNote(s, "hello", noteId).store;
    var r := UserService.RegisterUser(s1, request, enc, userId);
    FindByUsernameAppend(s1.users, r.reply.body.value);
  }
}
