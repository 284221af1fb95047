/** `UserService`: registration and the stateless login check. */
module UserService {

  import opened Wrappers
  import opened Entities
  import opened Store

  /** The password encoder, taken as given: a one-way `encode` and a
      `matches(raw, encoded)` check. A salted, randomised encoder is one
      particular choice of these two functions for the call at hand. */
  datatype Encoder = Encoder(encode: string -> string, matches: (string, string) -> bool)

  /** The one property relied on: an encoded password matches its source. */
  ghost predicate Sound(enc: Encoder)
  {
    forall p :: enc.matches(p, enc.encode(p))
  }

  /** No stored user already carries the id the repository hands out. */
  predicate FreshUserId(users: seq<User>, newId: string)
  {
    forall i :: 0 <= i < |users| ==> users[i].id != Some(newId)
  }

  /** `registerUser`: replaces the password by its encoding, forces the role to
      REGISTERED whatever was sent, saves (the repository assigns `newId`) and
      answers CREATED with the stored user. The username is kept, nothing is
      checked, and the notes are untouched. */
  function RegisterUser(s: Store, user: User, enc: Encoder, newId: string): (r: Step<User>)
    requires FreshUserId(s.users, newId)
    ensures r.reply.status == CREATED && r.reply.body.Some?
    ensures r.reply.body.value.password == enc.encode(user.password)
    ensures r.reply.body.value.role == Some(Registered)
    ensures r.reply.body.value.username == user.username
    ensures r.reply.body.value.id == Some(newId)
    ensures r.store.users == s.users + [r.reply.body.value]
    ensures r.store.notes == s.notes
  {
    var prepared := user.SetPassword(enc.encode(user.password)).SetRole(Some(Registered));
    var saved := prepared.(id := Some(newId));
    Step(Reply(CREATED, Some(saved)), s.(users := s.users + [saved]))
  }

  /** `checkUserLogin`: the user found under the supplied username must exist
      and its stored encoded password must match the supplied raw one. */
  function CheckUserLogin(s: Store, user: User, enc: Encoder): (r: bool)
    ensures FindByUsername(s.users, user.username).None? ==> !r
    ensures r ==> exists i :: 0 <= i < |s.users| && s.users[i].username == user.username
                              && enc.matches(user.password, s.users[i].password)
  {
    var stored := FindByUsername(s.users, user.username);
    stored.Some? && enc.matches(user.password, stored.value.password)
  }

  /** `checkUserLoginWithStatus`: OK exactly when the login check passes,
      UNAUTHORIZED otherwise; no body. */
  function CheckUserLoginWithStatus(s: Store, user: User, enc: Encoder): (r: Reply<()>)
    ensures r.status == OK || r.status == UNAUTHORIZED
    ensures r.status == OK <==> CheckUserLogin(s, user, enc)
    ensures r.body.None?
  {
    if !CheckUserLogin(s, user, enc) then Reply(UNAUTHORIZED, None) else Reply(OK, None)
  }

  /** With unique usernames, login succeeds exactly when some stored user has
      the supplied name and a password the supplied one matches. */
  lemma LoginIffCredentials(s: Store, user: User, enc: Encoder)
    requires UniqueUsernames(s.users)
    ensures CheckUserLogin(s, user, enc) <==>
      exists i :: 0 <= i < |s.users| && s.users[i].username == user.username
                  && enc.matches(user.password, s.users[i].password)
  {
    if i :| 0 <= i < |s.users| && s.users[i].username == user.username
            && enc.matches(user.password, s.users[i].password) {
      FindByUsernameUnique(s.users, user.username, i);
    }
  }

  /** Registering a new username keeps usernames unique. */
  lemma RegisterKeepsUnique(s: Store, user: User, enc: Encoder, newId: string)
    requires FreshUserId(s.users, newId)
    requires UniqueUsernames(s.users)
    requires FindByUsername(s.users, user.username).None?
    ensures UniqueUsernames(RegisterUser(s, user, enc, newId).store.users)
  {
  }

  /** Round trip: after registering a new username with a raw password, a login
      with that username and raw password succeeds, provided the encoder is
      sound. */
  lemma RegisterThenLogin(s: Store, user: User, enc: Encoder, newId: string)
    requires Sound(enc)
    requires FreshUserId(s.users, newId)
    requires FindByUsername(s.users, user.username).None?
    ensures CheckUserLogin(RegisterUser(s, user, enc, newId).store, user, enc)
    ensures CheckUserLoginWithStatus(RegisterUser(s, user, enc, newId).store, user, enc).status == OK
  {
    var r := RegisterUser(s, user, enc, newId);
    FindByUsernameAppend(s.users, r.reply.body.value);
  }

  /** Registration changes no login answer for any other username, even when
      the registered name is already taken. */
  lemma RegisterKeepsOtherLogins(s: Store, user: User, enc: Encoder, newId: string, other: User)
    requires FreshUserId(s.users, newId)
    requires other.username != user.username
    ensures CheckUserLogin(RegisterUser(s, user, enc, newId).store, other, enc)
         == CheckUserLogin(s, other, enc)
  {
    var r := RegisterUser(s, user, enc, newId);
    FindByUsernameAppendOther(s.users, r.reply.body.value, other.username);
  }
}
