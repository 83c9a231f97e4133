/** The JavaScript values and built-ins the client code relies on: JSON-like
    values and truthiness, `Number` results with `NaN`, `parseInt(s, 10)` and
    `Array.prototype.slice`. Numbers are integers here. */
module JsValues {
  import opened Strings

  /** A number that may be `NaN`. */
  datatype Number = Num(n: int) | NaN

  /** A JSON-like JavaScript value. */
  datatype JsValue =
    | JNull
    | JBool(b: bool)
    | JNum(x: Number)
    | JStr(s: string)
    | JObj(fields: map<string, JsValue>)

  /** JavaScript truthiness (`if (v)`). */
  predicate Truthy(v: JsValue) {
    match v
    case JNull => false
    case JBool(b) => b
    case JNum(x) => x.Num? && x.n != 0
    case JStr(s) => s != []
    case JObj(_) => true
  }

  // ---------------------------------------------------------------------------
  // `parseInt(s, 10)`.

  predicate IsAsciiDigit(c: char) {
    '0' <= c <= '9'
  }

  /** Length of the run of ASCII digits at the start of `s`. */
  function DigitRun(s: string): (k: nat)
    ensures k <= |s|
    ensures forall i :: 0 <= i < k ==> IsAsciiDigit(s[i])
    ensures k == |s| || !IsAsciiDigit(s[k])
  {
    if s != [] && IsAsciiDigit(s[0]) then 1 + DigitRun(s[1..]) else 0
  }

  /** The value of a string of ASCII digits. */
  function DigitsValue(d: string): nat
    requires forall i :: 0 <= i < |d| ==> IsAsciiDigit(d[i])
    decreases |d|
  {
    if d == [] then 0
    else
      assert IsAsciiDigit(d[|d| - 1]);
      10 * DigitsValue(d[..|d| - 1]) + (d[|d| - 1] as int - '0' as int)
  }

  /** `parseInt(s, 10)`: leading whitespace, an optional sign, then the
      longest run of decimal digits; `NaN` when there is none. */
  function ParseInt(s: string): Number {
    var t := TrimStart(JavaScript, s);
    var negative := t != [] && t[0] == '-';
    var d := LeadingDigits(if t != [] && (t[0] == '-' || t[0] == '+') then t[1..] else t);
    if d == [] then NaN
    else
      var v: int := DigitsValue(d);
      Num(if negative then -v else v)
  }

  /** The run of ASCII digits at the start of `u`. */
  function LeadingDigits(u: string): (d: string)
    ensures forall i :: 0 <= i < |d| ==> IsAsciiDigit(d[i])
    ensures |d| == DigitRun(u) && d == u[..|d|]
  {
    u[..DigitRun(u)]
  }

  /** The shortest decimal form of `n`, as `String(n)` writes it. */
  function Decimal(n: nat): (s: string)
    ensures s != [] && forall i :: 0 <= i < |s| ==> IsAsciiDigit(s[i])
  {
    if n < 10 then [('0' as int + n) as char] else Decimal(n / 10) + [('0' as int + n % 10) as char]
  }

  lemma {:induction false} DecimalValue(n: nat)
    ensures DigitsValue(Decimal(n)) == n
  {
    if n >= 10 {
      var d := Decimal(n);
      assert d[..|d| - 1] == Decimal(n / 10);
      DecimalValue(n / 10);
    }
  }

  lemma {:induction false} DigitRunAll(d: string, t: string)
    requires forall i :: 0 <= i < |d| ==> IsAsciiDigit(d[i])
    requires t == [] || !IsAsciiDigit(t[0])
    ensures DigitRun(d + t) == |d|
  {
    if d != [] {
      assert (d + t)[1..] == d[1..] + t;
      DigitRunAll(d[1..], t);
    } else {
      assert d + t == t;
    }
  }

  /** `parseInt` reads back what `String(n)` writes, and ignores whatever
      follows the digits (`parseInt("10px", 10)` is 10). */
  lemma ParseIntDecimal(n: nat, t: string)
    requires t == [] || !IsAsciiDigit(t[0])
    ensures ParseInt(Decimal(n) + t) == Num(n)
  {
    ParseIntPrefix(Decimal(n), t);
    DecimalValue(n);
  }

  /** A run of digits followed by a non-digit is read as that run. */
  lemma ParseIntPrefix(d: string, t: string)
    requires d != [] && forall i :: 0 <= i < |d| ==> IsAsciiDigit(d[i])
    requires t == [] || !IsAsciiDigit(t[0])
    ensures ParseInt(d + t) == Num(DigitsValue(d))
  {
    var s := d + t;
    assert s[0] == d[0];
    ParseIntDigits(s);
    DigitRunAll(d, t);
    assert s[..|d|] == d;
  }

  lemma ParseIntDigits(s: string)
    requires s != [] && IsAsciiDigit(s[0])
    ensures ParseInt(s) == Num(DigitsValue(LeadingDigits(s)))
  {
    DigitNotSpace(s[0]);
    TrimStartKeeps(JavaScript, s);
  }

  lemma DigitNotSpace(c: char)
    requires IsAsciiDigit(c)
    ensures !IsSpace(JavaScript, c)
  {
  }

  /** A string without any digit is `NaN`. */
  lemma ParseIntNaN(s: string)
    requires forall i :: 0 <= i < |s| ==> !IsAsciiDigit(s[i])
    ensures ParseInt(s) == NaN
  {
    var t := TrimStart(JavaScript, s);
    assert forall i :: 0 <= i < |t| ==> t[i] == s[|s| - |t| + i];
  }

  /** Distinct indices have distinct decimal forms. */
  lemma DecimalInjective()
    ensures forall i: nat, j: nat :: Decimal(i) == Decimal(j) ==> i == j
  {
    forall i: nat, j: nat | Decimal(i) == Decimal(j) ensures i == j {
      DecimalValue(i);
      DecimalValue(j);
    }
  }

  // ---------------------------------------------------------------------------
  // Object spread `{...v}`.

  /** The own enumerable properties `{...v}` copies: those of an object, one
      per character of a string (under its index), and none of `null`, a
      boolean or a number. */
  function SpreadFields(v: JsValue): (m: map<string, JsValue>)
    ensures v.JObj? ==> m == v.fields
    ensures v.JStr? ==> forall i :: 0 <= i < |v.s| ==> Decimal(i) in m && m[Decimal(i)] == JStr([v.s[i]])
    ensures v.JStr? ==> forall k :: k in m ==> exists i :: 0 <= i < |v.s| && k == Decimal(i)
    ensures !v.JObj? && !v.JStr? ==> m == map[]
  {
    match v
    case JObj(fields) => fields
    case JStr(s) =>
      DecimalInjective();
      map i | 0 <= i < |s| :: Decimal(i) := JStr([s[i]])
    case _ => map[]
  }

  // ---------------------------------------------------------------------------
  // `Array.prototype.slice(start, end)`.

  /** A relative index of `slice`, resolved against length `len`. */
  function SliceIndex(i: int, len: nat): (k: nat)
    ensures k <= len
  {
    if i < 0 then (if len + i > 0 then len + i else 0)
    else if i < len then i else len
  }

  /** `s.slice(start, end)`. */
  function Slice<T>(s: seq<T>, start: int, end: int): seq<T> {
    var a := SliceIndex(start, |s|);
    var b := SliceIndex(end, |s|);
    if a < b then s[a..b] else []
  }

  /** `r` is the run of `s` that starts at `k`. */
  ghost predicate RunAt<T>(r: seq<T>, s: seq<T>, k: int) {
    0 <= k && k + |r| <= |s| && r == s[k..k + |r|]
  }

  /** A slice is a contiguous run of the array, of at most `end - start`
      elements when both bounds are non-negative. */
  lemma SliceRun<T>(s: seq<T>, start: int, end: int)
    ensures exists k :: RunAt(Slice(s, start, end), s, k)
    ensures 0 <= start <= end ==> |Slice(s, start, end)| <= end - start
  {
    var a := SliceIndex(start, |s|);
    var b := SliceIndex(end, |s|);
    if a < b {
      assert RunAt(Slice(s, start, end), s, a);
    } else {
      assert RunAt(Slice(s, start, end), s, 0);
    }
  }
}
