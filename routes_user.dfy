/** `server/routes_user.py`: the checks of `register` and `change_password`,
    the field merge of `update_user_profile`, the JWT blocklist written by
    `logout` and read by `check_if_token_revoked`, and the table effects of
    `delete_account`. The logged-in username (`get_jwt_identity()`), the
    token's `jti`, the clock and the new row's generated id are parameters. */
module RoutesUser {
  import opened Wrappers
  import opened Strings
  import opened RequestBody
  import opened Models
  import opened DateFormat

  /** The handlers' error replies. */
  datatype UserError =
    | MissingFields | InvalidEmail | WeakPassword | AlreadyRegistered | InvalidBirthDate
    | PasswordMismatch | PasswordRequired | UserNotFound | WrongPassword | Forbidden
    | SaveFailed | ServerError

  function StatusCode(e: UserError): int {
    match e
    case UserNotFound => 404
    case WrongPassword => 401
    case Forbidden => 403
    case SaveFailed => 500
    case ServerError => 500
    case _ => 400
  }

  /** The string under `key`, `""` when there is none. */
  function Text(body: Json, key: string): string {
    match Get(body, key)
    case Str(s) => s
    case Null => ""
  }

  /** `all([data.get(k) for k in keys])`. */
  predicate AllTruthy(body: Json, keys: seq<string>) {
    forall i :: 0 <= i < |keys| ==> Truthy(Get(body, keys[i]))
  }

  // ---------------------------------------------------------------------------
  // The e-mail pattern and the password rule.

  /** A match of `[^@]+@[^@]+\.[^@]+` starting at the beginning of `s`, with
      its `@` at `i` and its `.` at `j`; the last `[^@]+` needs one character. */
  predicate EmailMatchAt(s: string, i: int, j: int) {
    1 <= i && i + 1 < j && j + 1 < |s| && s[i] == '@' && s[j] == '.'
    && '@' !in s[..i] && '@' !in s[i + 1..j] && s[j + 1] != '@'
  }

  /** `re.match(r"[^@]+@[^@]+\.[^@]+", email)`: anchored at the start only. */
  predicate EmailMatches(s: string) {
    exists i, j | 0 <= i < |s| && 0 <= j < |s| :: EmailMatchAt(s, i, j)
  }

  /** Anything may follow a matching prefix, another `@` included. */
  lemma EmailSuffixIgnored(s: string, t: string)
    requires EmailMatches(s)
    ensures EmailMatches(s + t)
  {
    var i, j :| 0 <= i < |s| && 0 <= j < |s| && EmailMatchAt(s, i, j);
    var u := s + t;
    assert u[..i] == s[..i];
    assert u[i + 1..j] == s[i + 1..j];
    assert EmailMatchAt(u, i, j);
  }

  /** `local@domain.tld` matches whenever the three parts are non-empty and
      free of `@`, even if the domain holds further dots. */
  lemma EmailOfParts(local: string, domain: string, tld: string)
    requires local != [] && domain != [] && tld != []
    requires '@' !in local && '@' !in domain && '@' !in tld
    ensures EmailMatches(local + "@" + domain + "." + tld)
  {
    var s := local + "@" + domain + "." + tld;
    var i := |local|;
    var j := |local| + 1 + |domain|;
    assert s[..i] == local;
    assert s[i + 1..j] == domain;
    assert s[j + 1] == tld[0];
    assert EmailMatchAt(s, i, j);
  }

  /** An address must not start with `@`, and needs a `.` after its first `@`. */
  lemma EmailRejections(s: string)
    ensures s != [] && s[0] == '@' ==> !EmailMatches(s)
    ensures (forall k :: 0 <= k < |s| ==> s[k] != '.') ==> !EmailMatches(s)
  {
  }

  predicate HasAsciiUpper(p: string) {
    exists i | 0 <= i < |p| :: 'A' <= p[i] <= 'Z'
  }

  predicate HasDigit(p: string) {
    exists i | 0 <= i < |p| :: IsDecimalDigit(p[i])
  }

  /** `len(p) >= 8`, `re.search(r"[A-Z]", p)` and `re.search(r"\d", p)`. */
  predicate PasswordOk(p: string) {
    |p| >= 8 && HasAsciiUpper(p) && HasDigit(p)
  }

  /** Lengthening an accepted password keeps it accepted. */
  lemma PasswordExtension(p: string, q: string)
    requires PasswordOk(p)
    ensures PasswordOk(p + q)
  {
    var i :| 0 <= i < |p| && 'A' <= p[i] <= 'Z';
    assert (p + q)[i] == p[i];
    var k :| 0 <= k < |p| && IsDecimalDigit(p[k]);
    assert (p + q)[k] == p[k];
  }

  /** A password without an upper-case ASCII letter is refused, so no
      lowercased password is ever accepted. */
  lemma LowercasePasswordRefused(p: string)
    ensures !PasswordOk(Lower(p))
  {
  }

  // ---------------------------------------------------------------------------
  // `register`.

  const RegisterFields: seq<string> := ["username", "email", "password", "gender", "birth_date"]

  datatype Registration = Registration(username: string, email: string, password: string,
                                       gender: string, birthDate: Date)

  /** `User.query.filter((User.username == username) | (User.email == email)).first()`. */
  predicate Taken(users: map<string, User>, username: string, email: string) {
    exists id :: id in users && (users[id].username == username || users[id].email == email)
  }

  /** The checks of `register`, in the order the handler makes them. */
  function RegisterCheck(users: map<string, User>, body: Json): (r: Result<Registration, UserError>)
    ensures r == Failure(MissingFields) <==> !AllTruthy(body, RegisterFields)
    ensures r == Failure(InvalidEmail) <==> AllTruthy(body, RegisterFields) && !EmailMatches(Text(body, "email"))
    ensures r == Failure(WeakPassword) <==>
              AllTruthy(body, RegisterFields) && EmailMatches(Text(body, "email")) && !PasswordOk(Text(body, "password"))
    ensures r == Failure(AlreadyRegistered) <==>
              AllTruthy(body, RegisterFields) && EmailMatches(Text(body, "email")) && PasswordOk(Text(body, "password"))
              && Taken(users, Text(body, "username"), Text(body, "email"))
    ensures r == Failure(InvalidBirthDate) <==>
              AllTruthy(body, RegisterFields) && EmailMatches(Text(body, "email")) && PasswordOk(Text(body, "password"))
              && !Taken(users, Text(body, "username"), Text(body, "email"))
              && ParseDate(Text(body, "birth_date")).None?
    ensures r.Success? ==>
              AllTruthy(body, RegisterFields) && EmailMatches(r.value.email) && PasswordOk(r.value.password)
              && !Taken(users, r.value.username, r.value.email)
              && r.value == Registration(Text(body, "username"), Text(body, "email"), Text(body, "password"),
                                         Text(body, "gender"), ParseDate(Text(body, "birth_date")).value)
  {
    var username := Text(body, "username");
    var email := Text(body, "email");
    var password := Text(body, "password");
    if !AllTruthy(body, RegisterFields) then Failure(MissingFields)
    else if !EmailMatches(email) then Failure(InvalidEmail)
    else if !PasswordOk(password) then Failure(WeakPassword)
    else if Taken(users, username, email) then Failure(AlreadyRegistered)
    else
      match ParseDate(Text(body, "birth_date"))
      case None => Failure(InvalidBirthDate)
      case Some(d) => Success(Registration(username, email, password, Text(body, "gender"), d))
  }

  /** The row `register` adds: active, with the password hashed. */
  function NewUser(id: string, reg: Registration): (u: User)
    ensures u.userId == id && CheckPassword(u.password, reg.password) && u.isActive
  {
    User(id, reg.username, reg.email, Hashed(reg.password), reg.gender, Some(reg.birthDate), true, None, None)
  }

  /** The profile `register` creates next to the user, all columns empty. */
  const EmptyProfile: Profile := Profile(Some(""), Some(""), Some(""), Some(""), Some(""))

  /** `register`: the checks, then the user and its profile in one commit;
      the generated id `freshId` colliding with a stored key makes the commit
      fail. */
  method Register(db: Database, body: Json, freshId: string) returns (r: Result<string, UserError>)
    requires db.Valid()
    modifies db`users, db`profiles
    ensures db.Valid()
    ensures RegisterCheck(old(db.users), body).Failure? ==>
              r == Failure(RegisterCheck(old(db.users), body).error)
              && db.users == old(db.users) && db.profiles == old(db.profiles)
    ensures RegisterCheck(old(db.users), body).Success? && (freshId in old(db.users) || freshId in old(db.profiles)) ==>
              r == Failure(SaveFailed) && db.users == old(db.users) && db.profiles == old(db.profiles)
    ensures RegisterCheck(old(db.users), body).Success? && freshId !in old(db.users) && freshId !in old(db.profiles) ==>
              r == Success(freshId)
              && db.users == old(db.users)[freshId := NewUser(freshId, RegisterCheck(old(db.users), body).value)]
              && db.profiles == old(db.profiles)[freshId := EmptyProfile]
  {
    var check := RegisterCheck(db.users, body);
    if check.Failure? {
      return Failure(check.error);
    }
    if freshId in db.users || freshId in db.profiles {
      return Failure(SaveFailed);
    }
    var u := NewUser(freshId, check.value);
    db.users := db.users[freshId := u];
    db.profiles := db.profiles[freshId := EmptyProfile];
    r := Success(freshId);
  }

  /** A registered user can log in with the password given at registration,
      and a second registration with the same username or e-mail is refused. */
  lemma RegisteredThenTaken(users: map<string, User>, body: Json, freshId: string)
    requires RegisterCheck(users, body).Success?
    ensures CheckPassword(NewUser(freshId, RegisterCheck(users, body).value).password, Text(body, "password"))
    ensures RegisterCheck(users[freshId := NewUser(freshId, RegisterCheck(users, body).value)], body)
            == Failure(AlreadyRegistered)
  {
    var users2 := users[freshId := NewUser(freshId, RegisterCheck(users, body).value)];
    assert users2[freshId].username == Text(body, "username");
    assert Taken(users2, Text(body, "username"), Text(body, "email"));
  }

  // ---------------------------------------------------------------------------
  // `change_password`.

  const ChangePasswordFields: seq<string> := ["current_password", "new_password", "confirm_password"]

  /** The checks of `change_password`, in order: all three fields, the
      confirmation, the policy, the user, the current password. The result is
      the new password. */
  function ChangePasswordCheck(body: Json, user: Option<User>): (r: Result<string, UserError>)
    ensures r == Failure(MissingFields) <==> !AllTruthy(body, ChangePasswordFields)
    ensures r == Failure(PasswordMismatch) <==>
              AllTruthy(body, ChangePasswordFields) && Text(body, "new_password") != Text(body, "confirm_password")
    ensures r == Failure(WeakPassword) <==>
              AllTruthy(body, ChangePasswordFields) && Text(body, "new_password") == Text(body, "confirm_password")
              && !PasswordOk(Text(body, "new_password"))
    ensures r == Failure(UserNotFound) <==>
              AllTruthy(body, ChangePasswordFields) && Text(body, "new_password") == Text(body, "confirm_password")
              && PasswordOk(Text(body, "new_password")) && user.None?
    ensures r == Failure(WrongPassword) <==>
              AllTruthy(body, ChangePasswordFields) && Text(body, "new_password") == Text(body, "confirm_password")
              && PasswordOk(Text(body, "new_password")) && user.Some?
              && !CheckPassword(user.value.password, Text(body, "current_password"))
    ensures r.Success? ==>
              r.value == Text(body, "new_password") && PasswordOk(r.value) && user.Some?
              && CheckPassword(user.value.password, Text(body, "current_password"))
  {
    var newPassword := Text(body, "new_password");
    if !AllTruthy(body, ChangePasswordFields) then Failure(MissingFields)
    else if newPassword != Text(body, "confirm_password") then Failure(PasswordMismatch)
    else if !PasswordOk(newPassword) then Failure(WeakPassword)
    else if user.None? then Failure(UserNotFound)
    else if !CheckPassword(user.value.password, Text(body, "current_password")) then Failure(WrongPassword)
    else Success(newPassword)
  }

  /** The field checks come before the user is looked at: a request they
      refuse is refused the same way for every user, or for none. */
  lemma FieldChecksIgnoreUser(body: Json, u1: Option<User>, u2: Option<User>)
    requires ChangePasswordCheck(body, u1) in {Failure(MissingFields), Failure(PasswordMismatch), Failure(WeakPassword)}
    ensures ChangePasswordCheck(body, u2) == ChangePasswordCheck(body, u1)
  {
  }

  /** `change_password` for the logged-in `currentUsername`. */
  method ChangePassword(db: Database, currentUsername: string, body: Json) returns (r: Result<(), UserError>)
    requires db.Valid()
    modifies db`users
    ensures db.Valid()
    ensures forall id :: id in old(db.users) && old(db.users)[id].username == currentUsername ==>
              (ChangePasswordCheck(body, Some(old(db.users)[id])).Failure? ==>
                 r == Failure(ChangePasswordCheck(body, Some(old(db.users)[id])).error) && db.users == old(db.users))
              && (ChangePasswordCheck(body, Some(old(db.users)[id])).Success? ==>
                 r == Success(()) &&
                 db.users == old(db.users)[id := old(db.users)[id].(password := Hashed(Text(body, "new_password")))])
    ensures (forall id :: id in old(db.users) ==> old(db.users)[id].username != currentUsername) ==>
              r == Failure(ChangePasswordCheck(body, None).error) && db.users == old(db.users)
  {
    var user: Option<User> := None;
    var userId := "";
    if id :| id in db.users && db.users[id].username == currentUsername {
      user, userId := Some(db.users[id]), id;
    }
    var check := ChangePasswordCheck(body, user);
    if check.Failure? {
      return Failure(check.error);
    }
    db.users := db.users[userId := user.value.(password := Hashed(check.value))];
    r := Success(());
  }

  /** After a successful change the new password logs in and a different old
      one no longer does. */
  lemma ChangedPasswordChecks(u: User, body: Json)
    requires ChangePasswordCheck(body, Some(u)).Success?
    ensures CheckPassword(u.(password := Hashed(Text(body, "new_password"))).password, Text(body, "new_password"))
    ensures Text(body, "current_password") != Text(body, "new_password") ==>
              !CheckPassword(u.(password := Hashed(Text(body, "new_password"))).password, Text(body, "current_password"))
  {
  }

  // ---------------------------------------------------------------------------
  // `update_user_profile`.

  /** The `profile` key of the body: absent (read as `{}`), JSON `null`, or an object. */
  datatype ProfilePart = ProfileAbsent | ProfileNull | ProfileFields(fields: Json)

  /** `profile_data.get(key, current)`. */
  function PatchColumn(fields: Json, key: string, current: Option<string>): (v: Option<string>)
    ensures key !in fields ==> v == current
    ensures key in fields ==> v == (if fields[key].Str? then Some(fields[key].s) else None)
  {
    if key !in fields then current
    else match fields[key]
      case Null => None
      case Str(s) => Some(s)
  }

  /** The five profile assignments. */
  function PatchProfile(p: Profile, fields: Json): (q: Profile)
    ensures "firstname" !in fields ==> q.firstname == p.firstname
    ensures "lastname" !in fields ==> q.lastname == p.lastname
    ensures "country" !in fields ==> q.country == p.country
    ensures "state" !in fields ==> q.state == p.state
    ensures "phone_number" !in fields ==> q.phoneNumber == p.phoneNumber
  {
    Profile(PatchColumn(fields, "firstname", p.firstname),
            PatchColumn(fields, "lastname", p.lastname),
            PatchColumn(fields, "country", p.country),
            PatchColumn(fields, "state", p.state),
            PatchColumn(fields, "phone_number", p.phoneNumber))
  }

  /** A column named in the body takes the body's value, `null` included. */
  lemma PatchProfileSets(p: Profile, fields: Json)
    ensures "firstname" in fields ==> PatchProfile(p, fields).firstname == PatchColumn(fields, "firstname", p.firstname)
    ensures "lastname" in fields ==> PatchProfile(p, fields).lastname == PatchColumn(fields, "lastname", p.lastname)
    ensures "country" in fields ==> PatchProfile(p, fields).country == PatchColumn(fields, "country", p.country)
    ensures "state" in fields ==> PatchProfile(p, fields).state == PatchColumn(fields, "state", p.state)
    ensures "phone_number" in fields ==>
              PatchProfile(p, fields).phoneNumber == PatchColumn(fields, "phone_number", p.phoneNumber)
  {
  }

  /** A body that names no profile column leaves the profile as it was. */
  lemma PatchProfileEmpty(p: Profile)
    ensures PatchProfile(p, map[]) == p
  {
  }

  /** The body's birth date is absent or a string `strptime` accepts. */
  predicate BirthDateParses(top: Json) {
    "birth_date" !in top || (top["birth_date"].Str? && ParseDate(top["birth_date"].s).Some?)
  }

  /** The body sets a NOT NULL column of `users` to `null`. */
  predicate NullColumn(top: Json, key: string) {
    key in top && top[key].Null?
  }

  /** Another user row already holds the e-mail the update would store. */
  predicate EmailTaken(users: map<string, User>, u: User, top: Json) {
    var email := if "email" in top && top["email"].Str? then top["email"].s else u.email;
    exists id :: id in users && id != u.userId && users[id].email == email
  }

  /** What `update_user_profile` does to the user row `u` and the profile `p`
      (the stored one, or a new empty one), or the error it replies with.
      `email` and `gender` are replaced only when their keys are present; a
      birth date that does not parse is refused; a `null` profile or birth
      date raises inside the handler; and the commit refuses a NULL e-mail or
      gender and an e-mail another user already has. */
  function UpdateDecision(users: map<string, User>, u: User, p: Profile, top: Json, profile: ProfilePart)
    : (r: Result<(User, Profile), UserError>)
    ensures r.Success? ==>
              r.value.0 == u.(email := r.value.0.email, gender := r.value.0.gender, birthDate := r.value.0.birthDate)
    ensures r.Success? && "email" !in top ==> r.value.0.email == u.email
    ensures r.Success? && "email" in top ==> top["email"] == Str(r.value.0.email)
    ensures r.Success? && "gender" !in top ==> r.value.0.gender == u.gender
    ensures r.Success? && "gender" in top ==> top["gender"] == Str(r.value.0.gender)
    ensures r.Success? && "birth_date" !in top ==> r.value.0.birthDate == u.birthDate
    ensures r.Success? && "birth_date" in top ==> r.value.0.birthDate == ParseDate(Text(top, "birth_date"))
    ensures r.Success? ==> r.value.1 == (if profile.ProfileFields? then PatchProfile(p, profile.fields) else p)
    ensures r.Success? ==> forall id :: id in users && id != u.userId ==> users[id].email != r.value.0.email
    ensures r == Failure(InvalidBirthDate) <==>
              "birth_date" in top && top["birth_date"].Str? && ParseDate(top["birth_date"].s).None?
    ensures r == Failure(ServerError) <==>
              ("birth_date" in top && top["birth_date"].Null?) || (BirthDateParses(top) && profile.ProfileNull?)
    ensures r == Failure(SaveFailed) <==>
              BirthDateParses(top) && !profile.ProfileNull?
              && (NullColumn(top, "email") || NullColumn(top, "gender") || EmailTaken(users, u, top))
    ensures r.Success? <==>
              BirthDateParses(top) && !profile.ProfileNull?
              && !NullColumn(top, "email") && !NullColumn(top, "gender") && !EmailTaken(users, u, top)
  {
    if "birth_date" in top && top["birth_date"].Null? then Failure(ServerError)
    else if "birth_date" in top && ParseDate(top["birth_date"].s).None? then Failure(InvalidBirthDate)
    else if profile.ProfileNull? then Failure(ServerError)
    else if ("email" in top && top["email"].Null?) || ("gender" in top && top["gender"].Null?) then Failure(SaveFailed)
    else
      var email := if "email" in top then top["email"].s else u.email;
      var gender := if "gender" in top then top["gender"].s else u.gender;
      var birth := if "birth_date" in top then ParseDate(top["birth_date"].s) else u.birthDate;
      if exists id :: id in users && id != u.userId && users[id].email == email then Failure(SaveFailed)
      else
        var q := if profile.ProfileFields? then PatchProfile(p, profile.fields) else p;
        Success((u.(email := email, gender := gender, birthDate := birth), q))
  }

  /** The profile `update_user_profile` starts from when the user has none. */
  const NewProfile: Profile := Profile(None, None, None, None, None)

  /** Replacing the editable columns of one user row, with an e-mail no
      other row has, keeps the constraints on the `users` table. */
  lemma EditKeepsUserTable(users: map<string, User>, id: string, v: User, after: map<string, User>)
    requires forall i :: i in users ==> users[i].userId == i
    requires forall a, b :: a in users && b in users && a != b ==>
               users[a].username != users[b].username && users[a].email != users[b].email
    requires forall i :: i in users ==> (users[i].resetToken.Some? <==> users[i].resetExpires.Some?)
    requires id in users && v == users[id].(email := v.email, gender := v.gender, birthDate := v.birthDate)
    requires forall i :: i in users && i != id ==> users[i].email != v.email
    requires after == users[id := v]
    ensures forall i :: i in after ==> after[i].userId == i
    ensures forall a, b :: a in after && b in after && a != b ==>
              after[a].username != after[b].username && after[a].email != after[b].email
    ensures forall i :: i in after ==> (after[i].resetToken.Some? <==> after[i].resetExpires.Some?)
  {
  }

  /** `update_user_profile(username)` called by `currentUsername`. */
  method UpdateUserProfile(db: Database, currentUsername: string, username: string, top: Json, profile: ProfilePart)
    returns (r: Result<(), UserError>)
    requires db.Valid()
    modifies db`users, db`profiles
    ensures db.Valid()
    ensures currentUsername != username ==>
              r == Failure(Forbidden) && db.users == old(db.users) && db.profiles == old(db.profiles)
    ensures currentUsername == username && (forall id :: id in old(db.users) ==> old(db.users)[id].username != username) ==>
              r == Failure(UserNotFound) && db.users == old(db.users) && db.profiles == old(db.profiles)
    ensures r.Failure? ==> db.users == old(db.users) && db.profiles == old(db.profiles)
    ensures forall id :: currentUsername == username && id in old(db.users) && old(db.users)[id].username == username ==>
              var d := UpdateDecision(old(db.users), old(db.users)[id],
                                      if id in old(db.profiles) then old(db.profiles)[id] else NewProfile, top, profile);
              (d.Failure? ==> r == Failure(d.error))
              && (d.Success? ==> r == Success(()) && db.users == old(db.users)[id := d.value.0]
                                 && db.profiles == old(db.profiles)[id := d.value.1])
  {
    if currentUsername != username {
      return Failure(Forbidden);
    }
    if id :| id in db.users && db.users[id].username == username {
      var p := if id in db.profiles then db.profiles[id] else NewProfile;
      var d := UpdateDecision(db.users, db.users[id], p, top, profile);
      if d.Failure? {
        return Failure(d.error);
      }
      EditKeepsUserTable(db.users, id, d.value.0, db.users[id := d.value.0]);
      db.users := db.users[id := d.value.0];
      db.profiles := db.profiles[id := d.value.1];
      r := Success(());
    } else {
      r := Failure(UserNotFound);
    }
  }

  // ---------------------------------------------------------------------------
  // `logout` and `check_if_token_revoked`.

  /** `check_if_token_revoked`: some blocklist row carries the `jti`. */
  predicate IsRevoked(blocklist: seq<BlockedToken>, jti: string) {
    exists i :: 0 <= i < |blocklist| && blocklist[i].jti == jti
  }

  /** `logout`: the token's `jti` is added to the blocklist. */
  method Logout(db: Database, jti: string, now: int)
    requires db.Valid()
    modifies db`blocklist
    ensures db.Valid()
    ensures db.blocklist == old(db.blocklist) + [BlockedToken(jti, now)]
  {
    db.blocklist := db.blocklist + [BlockedToken(jti, now)];
  }

  /** After `logout` the token is revoked, and any other token is revoked
      exactly when it was before. */
  lemma LogoutRevokes(blocklist: seq<BlockedToken>, jti: string, now: int, other: string)
    ensures IsRevoked(blocklist + [BlockedToken(jti, now)], jti)
    ensures other != jti ==> (IsRevoked(blocklist + [BlockedToken(jti, now)], other) <==> IsRevoked(blocklist, other))
  {
    var b := blocklist + [BlockedToken(jti, now)];
    assert b[|blocklist|].jti == jti;
    if other != jti && IsRevoked(b, other) {
      var i :| 0 <= i < |b| && b[i].jti == other;
      assert i < |blocklist| && blocklist[i] == b[i];
    }
    if IsRevoked(blocklist, other) {
      var i :| 0 <= i < |blocklist| && blocklist[i].jti == other;
      assert b[i] == blocklist[i];
    }
  }

  /** Nothing is revoked before any logout. */
  lemma NothingRevokedInitially(jti: string)
    ensures !IsRevoked([], jti)
  {
  }

  // ---------------------------------------------------------------------------
  // `delete_account`.

  /** The audio table after `filter_by(user_id=id).update({'user_id': None})`. */
  function Detach(audio: map<nat, AudioRecord>, id: string): (r: map<nat, AudioRecord>)
    ensures r.Keys == audio.Keys
    ensures forall k :: k in audio ==> r[k] == (if audio[k].userId == Some(id) then audio[k].(userId := None) else audio[k])
  {
    map k | k in audio :: if audio[k].userId == Some(id) then audio[k].(userId := None) else audio[k]
  }

  /** Detaching keeps every record, leaves no record pointing at the deleted
      user, and changes neither other users' records nor any column but
      `user_id`. */
  lemma DetachKeepsRecords(audio: map<nat, AudioRecord>, id: string)
    ensures forall k :: k in Detach(audio, id) ==> Detach(audio, id)[k].userId != Some(id)
    ensures forall k :: k in audio && audio[k].userId != Some(id) ==> Detach(audio, id)[k] == audio[k]
    ensures forall k :: k in audio ==> Detach(audio, id)[k].(userId := audio[k].userId) == audio[k]
  {
  }

  /** `delete_account` for the logged-in `currentUsername`: 404, then 400 for
      a missing password, then 401 for a wrong one; otherwise the user's
      recordings are kept without owner and the profile and the user go. */
  method DeleteAccount(db: Database, currentUsername: string, body: Json) returns (r: Result<(), UserError>)
    requires db.Valid()
    modifies db`users, db`profiles, db`audio
    ensures db.Valid()
    ensures r.Failure? ==> db.users == old(db.users) && db.profiles == old(db.profiles) && db.audio == old(db.audio)
    ensures (forall id :: id in old(db.users) ==> old(db.users)[id].username != currentUsername) ==>
              r == Failure(UserNotFound)
    ensures forall id :: id in old(db.users) && old(db.users)[id].username == currentUsername ==>
              (!Truthy(Get(body, "password")) ==> r == Failure(PasswordRequired))
              && (Truthy(Get(body, "password")) && !CheckPassword(old(db.users)[id].password, Text(body, "password")) ==>
                    r == Failure(WrongPassword))
              && (Truthy(Get(body, "password")) && CheckPassword(old(db.users)[id].password, Text(body, "password")) ==>
                    r == Success(()) && db.audio == Detach(old(db.audio), id)
                    && db.profiles == old(db.profiles) - {id} && db.users == old(db.users) - {id})
  {
    if id :| id in db.users && db.users[id].username == currentUsername {
      var password := Get(body, "password");
      if !Truthy(password) {
        return Failure(PasswordRequired);
      }
      if !CheckPassword(db.users[id].password, password.s) {
        return Failure(WrongPassword);
      }
      db.audio := Detach(db.audio, id);
      db.profiles := db.profiles - {id};
      db.users := db.users - {id};
      r := Success(());
    } else {
      r := Failure(UserNotFound);
    }
  }
}
