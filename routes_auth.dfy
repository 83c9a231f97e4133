/** `server/routes_auth.py`: the password-reset token of a user, issued by
    `forgot_password` and spent by `reset_password`. The token drawn from
    `secrets.token_urlsafe(32)` and the clock are parameters; sending the
    e-mail is I/O. */
module RoutesAuth {
  import opened Wrappers
  import opened RequestBody
  import opened Models

  /** `PASSWORD_RESET_EXPIRATION`: ten minutes, in seconds. */
  const PasswordResetExpiration: int := 600

  datatype ForgotReply = EmailRequired | UnknownEmail | LinkSent
  datatype ResetReply = TokenAndPasswordRequired | InvalidOrExpiredToken | PasswordReset

  function ForgotStatus(r: ForgotReply): int {
    if r == EmailRequired then 400 else 200
  }

  function ResetStatus(r: ResetReply): int {
    if r == PasswordReset then 200 else 400
  }

  /** The user row after `forgot_password` issued `token` at `now`. */
  function Issue(u: User, token: string, now: int): (v: User)
    ensures v.resetToken == Some(token) && v.resetExpires == Some(now + PasswordResetExpiration)
    ensures v.(resetToken := u.resetToken, resetExpires := u.resetExpires) == u
  {
    u.(resetToken := Some(token), resetExpires := Some(now + PasswordResetExpiration))
  }

  /** Whether `reset_password` accepts `token` for `u` at `now`: `u` holds
      it and `reset_token_expires < now` is false. */
  predicate Accepts(u: User, token: string, now: int) {
    u.resetToken == Some(token) && u.resetExpires.Some? && !(u.resetExpires.value < now)
  }

  /** The user row after a successful `reset_password`. */
  function Redeem(u: User, newPassword: string): (v: User)
    ensures CheckPassword(v.password, newPassword)
    ensures v.resetToken.None? && v.resetExpires.None?
    ensures v.(password := u.password, resetToken := u.resetToken, resetExpires := u.resetExpires) == u
  {
    u.(password := Hashed(newPassword), resetToken := None, resetExpires := None)
  }

  /** An issued token is accepted up to and including its expiry instant,
      and refused afterwards. */
  lemma IssuedTokenWindow(u: User, token: string, issuedAt: int, now: int)
    ensures Accepts(Issue(u, token, issuedAt), token, now) <==> now <= issuedAt + PasswordResetExpiration
  {
  }

  /** Issuing a new token overwrites the old one, which no longer resets. */
  lemma ReissueInvalidates(u: User, t1: string, t2: string, n1: int, n2: int, now: int)
    requires t1 != t2
    ensures !Accepts(Issue(Issue(u, t1, n1), t2, n2), t1, now)
  {
  }

  /** A token is spent by the reset: at no later instant is it accepted again. */
  lemma TokenSingleUse(u: User, newPassword: string, token: string, now: int)
    ensures !Accepts(Redeem(u, newPassword), token, now)
  {
  }

  /** `forgot_password`. */
  method ForgotPassword(db: Database, body: Json, freshToken: string, now: int) returns (r: ForgotReply)
    requires db.Valid()
    modifies db`users
    ensures db.Valid()
    ensures !Truthy(Get(body, "email")) ==> r == EmailRequired && db.users == old(db.users)
    ensures Truthy(Get(body, "email")) && (forall id :: id in old(db.users) ==> old(db.users)[id].email != Get(body, "email").s) ==>
              r == UnknownEmail && db.users == old(db.users)
    ensures forall id :: Truthy(Get(body, "email")) && id in old(db.users) && old(db.users)[id].email == Get(body, "email").s ==>
              r == LinkSent && db.users == old(db.users)[id := Issue(old(db.users)[id], freshToken, now)]
  {
    var email := Get(body, "email");
    if !Truthy(email) {
      return EmailRequired;
    }
    if id :| id in db.users && db.users[id].email == email.s {
      db.users := db.users[id := Issue(db.users[id], freshToken, now)];
      r := LinkSent;
    } else {
      r := UnknownEmail;
    }
  }

  predicate Holds(users: map<string, User>, id: string, token: string) {
    id in users && users[id].resetToken == Some(token)
  }

  /** `reset_password`: `.first()` of the users holding the token is one of
      them, chosen by the database. No password policy applies. */
  method ResetPassword(db: Database, body: Json, now: int) returns (r: ResetReply)
    requires db.Valid()
    modifies db`users
    ensures db.Valid()
    ensures r != PasswordReset ==> db.users == old(db.users)
    ensures !Truthy(Get(body, "token")) || !Truthy(Get(body, "new_password")) ==> r == TokenAndPasswordRequired
    ensures Truthy(Get(body, "token")) && Truthy(Get(body, "new_password")) ==>
              ((forall id :: Holds(old(db.users), id, Get(body, "token").s) ==>
                  !Accepts(old(db.users)[id], Get(body, "token").s, now)) ==> r == InvalidOrExpiredToken)
    ensures r == PasswordReset <==>
              Truthy(Get(body, "token")) && Truthy(Get(body, "new_password"))
              && exists id :: Holds(old(db.users), id, Get(body, "token").s) && Accepts(old(db.users)[id], Get(body, "token").s, now)
                              && db.users == old(db.users)[id := Redeem(old(db.users)[id], Get(body, "new_password").s)]
  {
    var token := Get(body, "token");
    var newPassword := Get(body, "new_password");
    if !Truthy(token) || !Truthy(newPassword) {
      return TokenAndPasswordRequired;
    }
    if id :| id in db.users && db.users[id].resetToken == Some(token.s) {
      var u := db.users[id];
      if !Accepts(u, token.s, now) {
        return InvalidOrExpiredToken;
      }
      db.users := db.users[id := Redeem(u, newPassword.s)];
      r := PasswordReset;
    } else {
      r := InvalidOrExpiredToken;
    }
  }
}
