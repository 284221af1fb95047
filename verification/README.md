# Notes-and-accounts service: a Dafny model

This project models the domain core of a small notes-and-accounts backend written in Java with Spring. The core has two services and two entity classes:

- `NoteService`: find a note by id, create, update its text, delete, like and unlike.
- `UserService`: register a user and check a login.
- `Note` and `User`: the stored records and their mutators.

Each Java method becomes a pure Dafny function. The service methods that write (`createNote`, `updateNote`, `deleteNote`, `addLike`, `removeLike`, `registerUser`) take an in-memory `Store` and return a `Step`: the reply (`Status` plus an optional body, standing for `ResponseEntity`) and the store afterwards. The read-only ones (`findById`, `checkUserLogin`, `checkUserLoginWithStatus`) return only their reply, so they cannot change the store. The entity mutators take no store and return the updated record. The store holds notes in a map keyed by id and users in a sequence in insertion order. Lookup by username returns the first match.

Modules, leaf first:

- `Wrappers` (`wrappers.dfy`): `Option`, standing for a nullable reference or a missed lookup.
- `JavaInt` (`java_int.dfy`): Java's 32-bit `int` with two's-complement wrap-around. The like counter is a Java `int`, so `likes++` at `Integer.MAX_VALUE` wraps to `Integer.MIN_VALUE`. The model keeps this wrap-around. As a result, like-then-unlike restores the counter for every value, with no range precondition.
- `Entities` (`entities.dfy`): `Note`, `User`, `Role` and their mutators. A mutator returns an updated value instead of assigning a field. The Java getters are the datatype destructors (`id`, `text`, `likes`, `username`, `password`, `role`), which return the stored fields exactly. `NoteEdit`/`UserEdit` sequences stand for any series of mutator calls. They are used to state that no mutator touches an id or a username.
- `Store` (`store.dfy`): statuses, replies, the store, the username lookup and two store predicates. `NotesKeyedById` (every note is stored under its own id) is kept by every note operation. `UniqueUsernames` is not an invariant: registration never checks the name, so a duplicate can be appended. It is only an assumption taken by `FindByUsernameUnique`, `LoginIffCredentials` and `RegisterKeepsUnique`.
- `NoteService` (`note_service.dfy`) and `UserService` (`user_service.dfy`): the two services.
- `Scenario` (`scenario.dfy`): the two services together. A like is refused until the liker registers, then accepted.

Abstract parameters:

- Id generation: `CreateNote` and `RegisterUser` receive the id the repository assigns, and require it to be fresh.
- The password encoder: `UserService.Encoder` holds two total functions, `encode` and `matches`. The one assumed law is `Sound`: `matches(p, encode(p))`. Only the registration-then-login round trip needs it.

## Model

| member | source | states |
|---|---|---|
| JavaInt.Increment | src/main/java/com/proxy/seller/data/Note.java:37-39 | `x++` on an `int`: one more below the maximum, wraps to the minimum at the maximum |
| JavaInt.Decrement | src/main/java/com/proxy/seller/data/Note.java:41-43 | `x--` on an `int`: one less above the minimum, wraps to the maximum at the minimum; no floor at zero |
| JavaInt.Wrap | src/main/java/com/proxy/seller/data/Note.java:11 | the `int` value of a mathematical sum is congruent to it modulo 2^32 and equals it when it fits |
| JavaInt.StepsAreNarrowedSums | src/main/java/com/proxy/seller/data/Note.java:37-43 | `++` and `--` equal the mathematical successor and predecessor reduced to 32-bit two's complement, as Java integer arithmetic prescribes |
| JavaInt.IncrementDecrementInverse | src/main/java/com/proxy/seller/data/Note.java:37-43 | increment then decrement, or the reverse, gives back every `int`, overflow included |
| Entities.NewNote | src/main/java/com/proxy/seller/data/Note.java:16-19 | `new Note(text)` has exactly the given text, 0 likes and no id yet |
| Entities.Note.SetText | src/main/java/com/proxy/seller/data/Note.java:33-35 | `setText` sets the text and keeps id and likes |
| Entities.Note.IncrementLikes | src/main/java/com/proxy/seller/data/Note.java:37-39 | `incrementLikes` moves likes up by one (Java `int`) and keeps id and text |
| Entities.Note.DecrementLikes | src/main/java/com/proxy/seller/data/Note.java:41-43 | `decrementLikes` moves likes down by one, possibly below zero, and keeps id and text |
| Entities.LikeUnlikeRestoresNote | src/main/java/com/proxy/seller/data/Note.java:37-43 | a like then an unlike, in either order, gives back the same note |
| Entities.NoteEditsEffect | src/main/java/com/proxy/seller/data/Note.java:8-43 | after any series of `Note` mutator calls, the id is unchanged, the likes are the start value plus likes minus unlikes (as `int`), and the text is the last one set |
| Entities.NewUser | src/main/java/com/proxy/seller/data/User.java:17-21 | `new User(username, password, role)` stores the three values exactly as given and has no id |
| Entities.User.SetPassword | src/main/java/com/proxy/seller/data/User.java:39-41 | `setPassword` sets the password and keeps id, username and role |
| Entities.User.SetRole | src/main/java/com/proxy/seller/data/User.java:43-45 | `setRole` sets the role and keeps id, username and password |
| Entities.UserEditsKeepIdentity | src/main/java/com/proxy/seller/data/User.java:8-46 | no series of `User` mutator calls changes the username or the id |
| Store.FindByUsername | src/main/java/com/proxy/seller/service/UserService.java:68 | the lookup misses exactly when no stored user has the name; a hit has that name and is the first such stored user |
| Store.FindByUsernameUnique | src/main/java/com/proxy/seller/service/UserService.java:68 | when usernames are unique, the lookup returns the one user with that name |
| Store.FindByUsernameAppend | src/main/java/com/proxy/seller/service/UserService.java:43 | saving a user under a name no stored user has makes the lookup of that name find it |
| Store.FindByUsernameAppendOther | src/main/java/com/proxy/seller/service/UserService.java:43 | saving any user, even under a taken name, leaves the lookup of every other name unchanged |
| NoteService.FindById | src/main/java/com/proxy/seller/service/NoteService.java:62-68 | OK with the stored note exactly when the id is present; otherwise NOT_FOUND with no body |
| NoteService.CreateNote | src/main/java/com/proxy/seller/service/NoteService.java:76-80 | CREATED with a note that has the given text, 0 likes and the fresh id; the store gains exactly that note; nothing else changes |
| NoteService.UpdateNote | src/main/java/com/proxy/seller/service/NoteService.java:89-97 | absent id: NOT_FOUND and the store unchanged; present id: OK with the updated note, where only that note's text changed (its likes, its id, the other notes and the users are kept) |
| NoteService.DeleteNote | src/main/java/com/proxy/seller/service/NoteService.java:105-112 | present id: NO_CONTENT and only that note removed; absent id: NOT_FOUND and nothing changed; no body either way |
| NoteService.AddLike | src/main/java/com/proxy/seller/service/NoteService.java:122-138 | unknown username: UNAUTHORIZED and no change, whatever the id; known username and absent note: NOT_FOUND and no change; otherwise OK, and only that note's likes move up by one |
| NoteService.RemoveLike | src/main/java/com/proxy/seller/service/NoteService.java:148-164 | same guards in the same order as AddLike; on success only that note's likes move down by one, with no floor |
| NoteService.CreateThenFind | src/main/java/com/proxy/seller/service/NoteService.java:62-80 | looking up a just-created note's id finds that note: the given text, 0 likes |
| NoteService.DeleteTwice | src/main/java/com/proxy/seller/service/NoteService.java:105-112 | a second delete of the same id answers NOT_FOUND and changes nothing |
| NoteService.LikeIgnoresCredentials | src/main/java/com/proxy/seller/service/NoteService.java:122-164 | like and unlike depend only on the supplied username, never on its password, role or id |
| NoteService.LikeUnlikeRoundTrip | src/main/java/com/proxy/seller/service/NoteService.java:122-164 | like then unlike by known users (either order) gives back the whole store |
| NoteService.ServeLikesEdits | src/main/java/com/proxy/seller/service/NoteService.java:122-164 | any run of like/unlike requests on one note changes that note by exactly the accepted requests (known usernames only); other notes and the users are unchanged; on an absent note nothing changes |
| NoteService.ServeLikesCounts | src/main/java/com/proxy/seller/service/NoteService.java:128-137 | likes are cumulative and not de-duplicated per user: the final count is the start value plus accepted likes minus accepted unlikes (as `int`), and the text is kept |
| UserService.RegisterUser | src/main/java/com/proxy/seller/service/UserService.java:39-45 | CREATED with the stored user: password is `encode` of the supplied one, role REGISTERED whatever was sent, username kept, fresh id; the user is appended and the notes are unchanged |
| UserService.CheckUserLogin | src/main/java/com/proxy/seller/service/UserService.java:67-70 | false when no stored user has the name; true only if a stored user with that name has a password the supplied one matches |
| UserService.CheckUserLoginWithStatus | src/main/java/com/proxy/seller/service/UserService.java:53-59 | OK exactly when the login check holds, UNAUTHORIZED otherwise, no body |
| UserService.LoginIffCredentials | src/main/java/com/proxy/seller/service/UserService.java:67-70 | with unique usernames, login holds if and only if some stored user has the name and a matching password |
| UserService.RegisterKeepsUnique | src/main/java/com/proxy/seller/service/UserService.java:39-45 | registering a name not yet taken keeps usernames unique |
| UserService.RegisterThenLogin | src/main/java/com/proxy/seller/service/UserService.java:39-70 | after registering a new username with a raw password, logging in with them succeeds (OK), given a sound encoder |
| UserService.RegisterKeepsOtherLogins | src/main/java/com/proxy/seller/service/UserService.java:39-70 | registering any username, taken or not, changes no login answer for any other username |
| Scenario.LikeNeedsRegistration | src/main/java/com/proxy/seller/service/NoteService.java:122-137 | for a new note "hello", a like by unregistered "alice" is UNAUTHORIZED and the count stays 0; after "alice" registers, the same request is OK and the count is 1 |

## Left out

- `getAll` and `getAllNotesSortedByDate`: these pass straight through to the repository. The sort key `createdAt` is not a field of `Note`, so the order is defined by the store and cannot be stated from this code.
- HTTP controllers and request binding: `NoteController` and `UserController` forward to the services unchanged.
- `SecurityConfig` and bcrypt: the encoder is a parameter. Salting and randomness amount to choosing the encoder for each call. The constant-time comparison inside `matches` is not modelled.
- "A registered password is never stored in plain text": this depends on the encoder, which is abstract. Only `stored == encode(raw)` is stated.
- The no-argument constructors `Note()` and `User()`: `Note()` leaves id and text `null` and likes 0; `User()` leaves every field `null`. Only persistence and request binding use them (the like and unlike handlers bind their `User` from request parameters through `User()`).
- Null strings: text, username and password are modelled as non-null strings. A `null` username sent to the lookup is not modelled.
- UserRole.java is not part of this model. `Role` has `Registered`, the one constant the services use, and `OtherRole` for any other value a client may send.
- Persistence failures, the MongoDB driver and id generation: the store is a value, and fresh ids are parameters.
- Store.FindByUsername: with duplicate usernames, the real repository query fails instead of picking one user. The model returns the first match. The unique-username lemmas assume `UniqueUsernames`.
- UserService.RegisterUser: the model gives every registered user a fresh id. If a client sends an existing `id` in the request body, the real `save` would overwrite that stored user. The model does not show this.
- NoteService.CreateNote: the generated id is only required to be fresh. That it is non-empty is not stated.
- NoteService.UpdateNote: the note is written back under the key it was found under, while the real `save(note)` writes under the note's own `id` field. The two agree whenever `NotesKeyedById` holds, and every note operation preserves it; on a store where a note's `id` differs from its key, the model's answer is not the repository's.
- NoteService.AddLike: the same write-back under the lookup key as `UpdateNote`, with the same `NotesKeyedById` caveat.
- NoteService.RemoveLike: the same write-back under the lookup key as `UpdateNote`, with the same `NotesKeyedById` caveat.
- NoteService.DeleteNote: removes the lookup key, while the real `delete(note)` removes by the note's own `id` field; they agree under `NotesKeyedById`.
- Concurrency: lost updates between concurrent like and unlike calls are a store concern. Every call here is one atomic step.
