/** `datetime.strptime(s, '%Y-%m-%d').date()` and `date.strftime('%Y-%m-%d')`,
    the two conversions the user routes apply to birth dates. */
module DateFormat {
  import opened Wrappers
  import opened Models

  /** A character Python's `\d` accepts, restricted to the ASCII and Thai
      digits, with its value. */
  predicate IsDecimalDigit(c: char) {
    ('0' <= c <= '9') || ('๐' <= c <= '๙')
  }

  function DigitValue(c: char): (v: nat)
    requires IsDecimalDigit(c)
    ensures v <= 9
  {
    if '0' <= c <= '9' then (c - '0') as nat else (c - '๐') as nat
  }

  predicate InRange(c: char, lo: char, hi: char) {
    lo <= c <= hi
  }

  /** The `%m` directive `1[0-2]|0[1-9]|[1-9]`, which must be followed by
      the `-` of the format: the month and what follows that `-`. */
  function ParseMonth(t: string): (r: Option<(int, string)>)
    ensures r.Some? ==> 1 <= r.value.0 <= 12 && |r.value.1| < |t|
  {
    if |t| >= 3 && t[0] == '1' && InRange(t[1], '0', '2') && t[2] == '-' then
      Some((10 + (t[1] - '0') as int, t[3..]))
    else if |t| >= 3 && t[0] == '0' && InRange(t[1], '1', '9') && t[2] == '-' then
      Some(((t[1] - '0') as int, t[3..]))
    else if |t| >= 2 && InRange(t[0], '1', '9') && t[1] == '-' then
      Some(((t[0] - '0') as int, t[2..]))
    else None
  }

  /** The `%d` directive `3[01]|[12]\d|0[1-9]|[1-9]| [1-9]`, taking the first
      alternative that matches at the start of `t`: the day and how many
      characters it used. */
  function ParseDayPrefix(t: string): (r: Option<(int, nat)>)
    ensures r.Some? ==> 1 <= r.value.0 <= 31 && 1 <= r.value.1 <= |t|
  {
    if |t| >= 2 && t[0] == '3' && InRange(t[1], '0', '1') then Some((30 + (t[1] - '0') as int, 2))
    else if |t| >= 2 && InRange(t[0], '1', '2') && IsDecimalDigit(t[1]) then
      Some((10 * (t[0] - '0') as int + DigitValue(t[1]), 2))
    else if |t| >= 2 && t[0] == '0' && InRange(t[1], '1', '9') then Some(((t[1] - '0') as int, 2))
    else if |t| >= 1 && InRange(t[0], '1', '9') then Some(((t[0] - '0') as int, 1))
    else if |t| >= 2 && t[0] == ' ' && InRange(t[1], '1', '9') then Some(((t[1] - '0') as int, 2))
    else None
  }

  /** `%Y`: four `\d` characters. */
  function ParseYear(y: string): (r: Option<int>)
    ensures r.Some? ==> 0 <= r.value <= 9999
  {
    if |y| == 4 && IsDecimalDigit(y[0]) && IsDecimalDigit(y[1]) && IsDecimalDigit(y[2]) && IsDecimalDigit(y[3]) then
      Some(1000 * DigitValue(y[0]) + 100 * DigitValue(y[1]) + 10 * DigitValue(y[2]) + DigitValue(y[3]))
    else None
  }

  /** `strptime(s, '%Y-%m-%d')`: `None` where Python raises `ValueError` — the
      pattern does not match, data is left over after the day, or the triple
      is not a calendar date. */
  function ParseDate(s: string): (r: Option<Date>)
    ensures r.Some? ==> ValidDate(r.value)
  {
    if |s| < 5 || s[4] != '-' then None
    else
      match ParseYear(s[..4])
      case None => None
      case Some(year) =>
        match ParseMonth(s[5..])
        case None => None
        case Some((month, rest)) =>
          match ParseDayPrefix(rest)
          case None => None
          case Some((day, used)) =>
            if used == |rest| && ValidDate(Date(year, month, day)) then Some(Date(year, month, day))
            else None
  }

  // ---------------------------------------------------------------------------
  // `strftime('%Y-%m-%d')`.

  function DigitChar(n: nat): (c: char)
    requires n <= 9
    ensures IsDecimalDigit(c) && DigitValue(c) == n && '0' <= c <= '9'
  {
    ('0' as int + n) as char
  }

  /** `n` in exactly `width` decimal digits, zero-padded. */
  function Padded(n: nat, width: nat): (s: string)
    decreases width
  {
    if width == 0 then [] else Padded(n / 10, width - 1) + [DigitChar(n % 10)]
  }

  /** `strftime('%Y-%m-%d')` for four-digit years. */
  function FormatDate(d: Date): (s: string)
    requires ValidDate(d) && d.year >= 1000
    ensures |s| == 10 && s[4] == '-' && s[7] == '-'
  {
    Padded(d.year, 4) + "-" + Padded(d.month, 2) + "-" + Padded(d.day, 2)
  }

  lemma Padded2(n: nat)
    requires n <= 99
    ensures Padded(n, 2) == [DigitChar(n / 10), DigitChar(n % 10)]
  {
    assert Padded(n / 10 / 10, 0) == [];
    assert n / 10 / 10 == 0;
    assert (n / 10) % 10 == n / 10;
  }

  lemma Padded4(n: nat)
    requires n <= 9999
    ensures Padded(n, 4) == [DigitChar(n / 1000), DigitChar(n / 100 % 10), DigitChar(n / 10 % 10), DigitChar(n % 10)]
  {
    var q := n / 10;
    DecimalDigits(n);
    PaddedStep(n, 4);
    PaddedStep(q, 3);
    Padded2(q / 10);
  }

  lemma PaddedStep(n: nat, width: nat)
    requires width > 0
    ensures Padded(n, width) == Padded(n / 10, width - 1) + [DigitChar(n % 10)]
  {
  }

  /** The four decimal digits of a number below 10000. */
  lemma DecimalDigits(n: nat)
    requires n <= 9999
    ensures n / 10 <= 999 && n / 10 / 10 == n / 100 && n / 100 / 10 == n / 1000 && n / 100 <= 99
    ensures n == 1000 * (n / 1000) + 100 * (n / 100 % 10) + 10 * (n / 10 % 10) + n % 10
  {
  }

  lemma ParseYearPadded(n: nat)
    requires n <= 9999
    ensures ParseYear(Padded(n, 4)) == Some(n)
  {
    Padded4(n);
    DecimalDigits(n);
  }

  lemma ParseMonthPadded(m: int, rest: string)
    requires 1 <= m <= 12
    ensures ParseMonth(Padded(m, 2) + "-" + rest) == Some((m, rest))
  {
    Padded2(m);
    var t := Padded(m, 2) + "-" + rest;
    assert t[3..] == rest;
  }

  lemma ParseDayPadded(d: int)
    requires 1 <= d <= 31
    ensures ParseDayPrefix(Padded(d, 2)) == Some((d, 2))
  {
    Padded2(d);
  }

  /** Parsing undoes formatting: a birth date written out with `strftime`
      (as the profile read at `routes_user.py:207` does) is read back by
      `strptime` as the same date. */
  lemma ParseFormat(d: Date)
    requires ValidDate(d) && d.year >= 1000
    ensures ParseDate(FormatDate(d)) == Some(d)
  {
    var s := FormatDate(d);
    var y := Padded(d.year, 4);
    var t := Padded(d.month, 2) + "-" + Padded(d.day, 2);
    assert |y| == 4;
    assert s == y + "-" + t;
    assert s[..4] == y;
    assert s[5..] == t;
    ParseYearPadded(d.year);
    ParseMonthPadded(d.month, Padded(d.day, 2));
    ParseDayPadded(d.day);
  }

  /** Python also accepts unpadded and space-padded fields. */
  lemma LooseForms(y: string)
    requires ParseYear(y) == Some(2000)
    ensures ParseDate(y + "-1-5") == Some(Date(2000, 1, 5))
    ensures ParseDate(y + "-01- 5") == Some(Date(2000, 1, 5))
  {
    assert (y + "-1-5")[..4] == y;
    assert (y + "-1-5")[5..] == "1-5";
    assert ParseMonth("1-5") == Some((1, "5"));
    assert (y + "-01- 5")[..4] == y;
    assert (y + "-01- 5")[5..] == "01- 5";
    assert ParseMonth("01- 5") == Some((1, " 5"));
  }

  /** Calendar checks and leftovers: 29 February only in leap years, and a
      third day digit is unconverted data. */
  lemma RejectedForms(y: string)
    requires ParseYear(y) == Some(2021)
    ensures ParseDate(y + "-02-29") == None
    ensures ParseDate(y + "-12-311") == None
  {
    assert (y + "-02-29")[..4] == y;
    assert (y + "-02-29")[5..] == "02-29";
    assert ParseMonth("02-29") == Some((2, "29"));
    assert (y + "-12-311")[..4] == y;
    assert (y + "-12-311")[5..] == "12-311";
    assert ParseMonth("12-311") == Some((12, "311"));
  }
}
