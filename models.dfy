/** The server's tables (`server/models.py` and the columns its callers use)
    and the `User.age` member. `User.get_id` returns the key column
    `userid`, which is `userId` here. Dates are (year, month, day) triples;
    instants are whole seconds. */
module Models {
  import opened Wrappers

  // ---------------------------------------------------------------------------
  // Dates and `User.age`.

  datatype Date = Date(year: int, month: int, day: int)

  predicate IsLeapYear(y: int) {
    y % 4 == 0 && (y % 100 != 0 || y % 400 == 0)
  }

  function DaysInMonth(y: int, m: int): int {
    if m == 2 then (if IsLeapYear(y) then 29 else 28)
    else if m == 4 || m == 6 || m == 9 || m == 11 then 30
    else 31
  }

  /** A calendar date `datetime.date` accepts: years 1 to 9999. */
  predicate ValidDate(d: Date) {
    1 <= d.year <= 9999 && 1 <= d.month <= 12 && 1 <= d.day <= DaysInMonth(d.year, d.month)
  }

  /** Python's tuple order on `(month, day)`. */
  predicate MonthDayBefore(a: Date, b: Date) {
    a.month < b.month || (a.month == b.month && a.day < b.day)
  }

  /** Chronological order, i.e. tuple order on `(year, month, day)`. */
  predicate DateLe(a: Date, b: Date) {
    a.year < b.year || (a.year == b.year && !MonthDayBefore(b, a))
  }

  /** The `n`-th anniversary of `birth`, as a triple (a 29 February birthday
      keeps its day in every year). */
  function Anniversary(birth: Date, n: int): Date {
    Date(birth.year + n, birth.month, birth.day)
  }

  /** `User.age`: `None` without a birth date, otherwise the year difference
      less one when today's (month, day) comes before the birthday's. */
  function Age(birth: Option<Date>, today: Date): (r: Option<int>)
    ensures r.None? <==> birth.None?
  {
    match birth
    case None => None
    case Some(b) => Some(today.year - b.year - (if MonthDayBefore(today, b) then 1 else 0))
  }

  /** The age is the number of completed years: the `age`-th anniversary has
      been reached and the next one has not. */
  lemma AgeIsCompletedYears(b: Date, today: Date)
    ensures DateLe(Anniversary(b, Age(Some(b), today).value), today)
    ensures !DateLe(Anniversary(b, Age(Some(b), today).value + 1), today)
  {
  }

  /** The characterisation above pins the age down: no other count of years
      has the same property. */
  lemma AgeUnique(b: Date, today: Date, n: int)
    requires DateLe(Anniversary(b, n), today) && !DateLe(Anniversary(b, n + 1), today)
    ensures Age(Some(b), today) == Some(n)
  {
  }

  /** On a birthday the age is the year difference; on the day of birth it is 0. */
  lemma AgeOnBirthday(b: Date, n: int)
    ensures Age(Some(b), Anniversary(b, n)) == Some(n)
    ensures Age(Some(b), b) == Some(0)
  {
  }

  /** For a fixed birth date, the age never decreases as the day advances. */
  lemma AgeMonotone(b: Date, today1: Date, today2: Date)
    requires DateLe(today1, today2)
    ensures Age(Some(b), today1).value <= Age(Some(b), today2).value
  {
  }

  // ---------------------------------------------------------------------------
  // Rows.

  /** A stored password. bcrypt is abstract: `Hashed(p)` stands for the hash
      of `p`, and `check_password(q)` holds exactly when the hash is `Hashed(q)`. */
  datatype Credential = Hashed(plain: string)

  predicate CheckPassword(c: Credential, attempt: string) {
    c == Hashed(attempt)
  }

  /** A `user` row; `resetToken`/`resetExpires` are the password-reset
      columns, both set or both `None`. */
  datatype User = User(
    userId: string,
    username: string,
    email: string,
    password: Credential,
    gender: string,
    birthDate: Option<Date>,
    isActive: bool,
    resetToken: Option<string>,
    resetExpires: Option<int>)

  /** A `profile` row, keyed by its `user_id`; columns may be NULL. */
  datatype Profile = Profile(
    firstname: Option<string>,
    lastname: Option<string>,
    country: Option<string>,
    state: Option<string>,
    phoneNumber: Option<string>)

  datatype Source = Microphone | Upload | OtherSource
  datatype Rating = Unknown | Like | Dislike

  /** An `audio_record` row. `expiration` is the `expiration_date` column. */
  datatype AudioRecord = AudioRecord(
    userId: Option<string>,
    audioUrl: string,
    transcription: Option<string>,
    time: int,
    language: string,
    audioHash: string,
    source: Source,
    rating: Rating,
    expiration: Option<int>)

  /** A `token_blacklist` row. */
  datatype BlockedToken = BlockedToken(jti: string, createdAt: int)

  /** The database as the session sees it after a commit: a map from primary
      key to row for the user, profile and audio tables, and the token
      blocklist as the sequence of its rows. */
  class Database {
    var users: map<string, User>
    var profiles: map<string, Profile>
    var blocklist: seq<BlockedToken>
    var audio: map<nat, AudioRecord>
    var nextAudioId: nat

    /** The table constraints: primary keys, the `unique` username and email
        columns, the reset columns set together, unique audio hashes (kept by
        deduplication) and audio ids below the next autoincrement value. */
    ghost predicate Valid()
      reads this
    {
      (forall id :: id in users ==> users[id].userId == id)
      && (forall a, b :: a in users && b in users && a != b ==>
            users[a].username != users[b].username && users[a].email != users[b].email)
      && (forall id :: id in users ==> (users[id].resetToken.Some? <==> users[id].resetExpires.Some?))
      && (forall id :: id in audio ==> id < nextAudioId)
      && (forall a, b :: a in audio && b in audio && a != b ==> audio[a].audioHash != audio[b].audioHash)
    }

    constructor ()
      ensures Valid()
      ensures users == map[] && profiles == map[] && blocklist == [] && audio == map[] && nextAudioId == 1
    {
      users := map[];
      profiles := map[];
      blocklist := [];
      audio := map[];
      nextAudioId := 1;
    }
  }
}
