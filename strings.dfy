/** String primitives the Python server and the JavaScript client rely on:
    their whitespace tables, lowercasing, `strip`/`trim`, `split` on one
    separator character, `join`, Python's argument-less `str.split()`, and the
    way Python iterates over the lines of a text file. */
module Strings {

  /** Whose notion of whitespace a trim or split uses: Python's, JavaScript's,
      or the WSP (space and horizontal tab) that section 5.2 of RFC 6265 has a
      browser strip from the ends of a cookie's value. */
  datatype Dialect = Python | JavaScript | Wsp

  /** Python's `str.isspace` table (used by `str.split()` and `str.strip()`),
      and the WhiteSpace and LineTerminator characters of `String.prototype.trim`. */
  predicate IsSpace(d: Dialect, c: char) {
    match d
    case Python =>
      ('\t' <= c <= '\r') || ('\U{1C}' <= c <= ' ') || c == '\U{85}' || c == '\U{A0}'
      || c == '\U{1680}' || ('\U{2000}' <= c <= '\U{200A}') || c == '\U{2028}'
      || c == '\U{2029}' || c == '\U{202F}' || c == '\U{205F}' || c == '\U{3000}'
    case JavaScript =>
      ('\t' <= c <= '\r') || c == ' ' || c == '\U{A0}' || c == '\U{1680}'
      || ('\U{2000}' <= c <= '\U{200A}') || c == '\U{2028}' || c == '\U{2029}'
      || c == '\U{202F}' || c == '\U{205F}' || c == '\U{3000}' || c == '\U{FEFF}'
    case Wsp =>
      c == ' ' || c == '\t'
  }

  predicate NoSpace(d: Dialect, s: string) {
    forall i :: 0 <= i < |s| ==> !IsSpace(d, s[i])
  }

  predicate AllSpace(d: Dialect, s: string) {
    forall i :: 0 <= i < |s| ==> IsSpace(d, s[i])
  }

  // ---------------------------------------------------------------------------
  // Lowercasing (`str.lower`, `String.prototype.toLowerCase`) on ASCII letters.

  function LowerChar(c: char): char {
    if 'A' <= c <= 'Z' then (c as int + 32) as char else c
  }

  function Lower(s: string): (r: string)
    ensures |r| == |s|
    ensures forall i :: 0 <= i < |s| ==> r[i] == LowerChar(s[i])
  {
    seq(|s|, i requires 0 <= i < |s| => LowerChar(s[i]))
  }

  lemma LowerAppend(a: string, b: string)
    ensures Lower(a + b) == Lower(a) + Lower(b)
  {
  }

  /** Lowercasing never turns a non-space into a space or back. */
  lemma LowerKeepsSpace(d: Dialect, c: char)
    ensures IsSpace(d, LowerChar(c)) == IsSpace(d, c)
  {
  }

  // ---------------------------------------------------------------------------
  // `strip()` / `trim()`.

  function TrimStart(d: Dialect, s: string): (r: string)
    ensures |r| <= |s| && r == s[|s| - |r|..]
    ensures AllSpace(d, s[..|s| - |r|])
    ensures r == [] || !IsSpace(d, r[0])
  {
    if s != [] && IsSpace(d, s[0]) then
      var r := TrimStart(d, s[1..]);
      TrimStartStep(d, s, r);
      r
    else s
  }

  function TrimEnd(d: Dialect, s: string): (r: string)
    ensures |r| <= |s| && r == s[..|r|]
    ensures AllSpace(d, s[|r|..])
    ensures r == [] || !IsSpace(d, r[|r| - 1])
  {
    if s != [] && IsSpace(d, s[|s| - 1]) then
      var r := TrimEnd(d, s[..|s| - 1]);
      TrimEndStep(d, s, r);
      r
    else s
  }

  /** Nothing is trimmed from a string that does not start with whitespace. */
  lemma TrimStartKeeps(d: Dialect, s: string)
    requires s == [] || !IsSpace(d, s[0])
    ensures TrimStart(d, s) == s
  {
  }

  /** Text after a non-space is untouched by trimming the start. */
  lemma {:induction false} TrimStartAppend(d: Dialect, a: string, t: string)
    requires t != [] && !IsSpace(d, t[0])
    ensures TrimStart(d, a + t) == TrimStart(d, a) + t
  {
    if a == [] {
      assert a + t == t;
      TrimStartKeeps(d, t);
    } else {
      assert (a + t)[0] == a[0] && (a + t)[1..] == a[1..] + t;
      TrimStartAppend(d, a[1..], t);
    }
  }

  /** Trimming the end keeps everything up to a non-space. */
  lemma TrimEndKeeps(d: Dialect, x: string, n: nat)
    requires n < |x| && !IsSpace(d, x[n])
    ensures |TrimEnd(d, x)| > n
    ensures TrimEnd(d, x)[..n + 1] == x[..n + 1]
  {
  }

  /** Trimming `a + t`, where `t` starts with a non-space, leaves the
      trimmed start of `a` and that first character of `t` in front. */
  lemma TrimBeforeNonSpace(d: Dialect, a: string, t: string)
    requires t != [] && !IsSpace(d, t[0])
    ensures TrimStart(d, a) + [t[0]] <= Trim(d, a + t)
  {
    TrimEndAfter(d, a, t, TrimStart(d, a), Trim(d, a + t));
  }

  lemma TrimEndAfter(d: Dialect, a: string, t: string, x: string, r: string)
    requires t != [] && !IsSpace(d, t[0])
    requires x == TrimStart(d, a) && r == Trim(d, a + t)
    ensures x + [t[0]] <= r
  {
    TrimStartAppend(d, a, t);
    TrimEndBeforeNonSpace(d, x, t);
  }

  lemma TrimEndBeforeNonSpace(d: Dialect, x: string, t: string)
    requires t != [] && !IsSpace(d, t[0])
    ensures x + [t[0]] <= TrimEnd(d, x + t)
  {
    assert (x + t)[|x|] == t[0];
    TrimEndKeeps(d, x + t, |x|);
    assert (x + t)[..|x| + 1] == x + [t[0]];
  }

  /** A leading space dropped before the rest is trimmed is one more space
      of the trimmed prefix. */
  lemma TrimStartStep(d: Dialect, s: string, r: string)
    requires s != [] && IsSpace(d, s[0])
    requires |r| <= |s| - 1 && r == s[1..][|s| - 1 - |r|..] && AllSpace(d, s[1..][..|s| - 1 - |r|])
    ensures r == s[|s| - |r|..] && AllSpace(d, s[..|s| - |r|])
  {
    assert s[..|s| - |r|] == [s[0]] + s[1..][..|s| - 1 - |r|];
    AllSpaceCons(d, s[0], s[1..][..|s| - 1 - |r|]);
  }

  /** A trailing space dropped before the rest is trimmed is one more space
      of the trimmed suffix. */
  lemma TrimEndStep(d: Dialect, s: string, r: string)
    requires s != [] && IsSpace(d, s[|s| - 1])
    requires |r| <= |s| - 1 && r == s[..|s| - 1][..|r|] && AllSpace(d, s[..|s| - 1][|r|..])
    ensures r == s[..|r|] && AllSpace(d, s[|r|..])
  {
    assert s[|r|..] == s[..|s| - 1][|r|..] + [s[|s| - 1]];
    AllSpaceSnoc(d, s[..|s| - 1][|r|..], s[|s| - 1]);
  }

  lemma AllSpaceCons(d: Dialect, c: char, a: string)
    requires IsSpace(d, c) && AllSpace(d, a)
    ensures AllSpace(d, [c] + a)
  {
    assert forall i :: 0 < i <= |a| ==> ([c] + a)[i] == a[i - 1];
  }

  lemma AllSpaceSnoc(d: Dialect, a: string, c: char)
    requires AllSpace(d, a) && IsSpace(d, c)
    ensures AllSpace(d, a + [c])
  {
    assert forall i :: 0 <= i < |a| ==> (a + [c])[i] == a[i];
  }

  /** Number of leading whitespace characters `Trim` drops. */
  function TrimOffset(d: Dialect, s: string): nat
    ensures TrimOffset(d, s) <= |s|
  {
    |s| - |TrimStart(d, s)|
  }

  /** `s.strip()` in Python, `s.trim()` in JavaScript. */
  function Trim(d: Dialect, s: string): (r: string)
    ensures r == [] || (!IsSpace(d, r[0]) && !IsSpace(d, r[|r| - 1]))
  {
    TrimEnd(d, TrimStart(d, s))
  }

  /** What `Trim` keeps: the infix of `s` between two all-whitespace ends; it
      is empty exactly when `s` is all whitespace. */
  lemma TrimShape(d: Dialect, s: string)
    ensures TrimOffset(d, s) + |Trim(d, s)| <= |s|
    ensures Trim(d, s) == s[TrimOffset(d, s)..TrimOffset(d, s) + |Trim(d, s)|]
    ensures AllSpace(d, s[..TrimOffset(d, s)])
    ensures AllSpace(d, s[TrimOffset(d, s) + |Trim(d, s)|..])
    ensures Trim(d, s) == [] <==> AllSpace(d, s)
  {
    TrimmedInfix(d, s, TrimStart(d, s), TrimOffset(d, s), Trim(d, s));
  }

  /** A prefix `r` of the suffix `t` of `s` at `j`, with whitespace cut away
      on both sides and none left at the ends of `r`, is the infix of `s` at
      `j`, empty exactly when `s` is all whitespace. */
  lemma TrimmedInfix(d: Dialect, s: string, t: string, j: nat, r: string)
    requires j + |t| == |s| && t == s[j..] && AllSpace(d, s[..j])
    requires |r| <= |t| && r == t[..|r|] && AllSpace(d, t[|r|..])
    requires r == [] || !IsSpace(d, r[0])
    ensures j + |r| <= |s|
    ensures r == s[j..j + |r|]
    ensures AllSpace(d, s[..j])
    ensures AllSpace(d, s[j + |r|..])
    ensures r == [] <==> AllSpace(d, s)
  {
    assert s[j + |r|..] == t[|r|..];
    if r == [] {
      AllSpaceJoin(d, s, j, j);
    } else {
      assert r[0] == s[j];
    }
  }

  lemma AllSpaceJoin(d: Dialect, s: string, k: nat, j: nat)
    requires j <= k <= |s|
    requires AllSpace(d, s[..j]) && AllSpace(d, s[k..])
    ensures AllSpace(d, s[j..k]) ==> AllSpace(d, s)
  {
    if AllSpace(d, s[j..k]) {
      forall i | 0 <= i < |s| ensures IsSpace(d, s[i]) {
        if i < j { assert s[..j][i] == s[i]; }
        else if i < k { assert s[j..k][i - j] == s[i]; }
        else { assert s[k..][i - k] == s[i]; }
      }
    }
  }

  lemma {:induction false} TrimIdempotent(d: Dialect, s: string)
    ensures Trim(d, Trim(d, s)) == Trim(d, s)
  {
    var r := Trim(d, s);
    if r != [] {
      assert TrimStart(d, r) == r;
      assert TrimEnd(d, r) == r;
    }
  }

  // ---------------------------------------------------------------------------
  // `sep.join(pieces)` and `s.split(c)` for a one-character separator; the
  // two languages agree on both.

  function JoinWith(pieces: seq<string>, sep: string): (r: string)
  {
    if |pieces| == 0 then []
    else if |pieces| == 1 then pieces[0]
    else pieces[0] + sep + JoinWith(pieces[1..], sep)
  }

  function SplitOn(s: string, sep: char): (pieces: seq<string>)
    ensures |pieces| >= 1
    ensures forall i :: 0 <= i < |pieces| ==> sep !in pieces[i]
    ensures JoinWith(pieces, [sep]) == s
  {
    if s == [] then [[]]
    else
      var rest := SplitOn(s[1..], sep);
      if s[0] == sep then
        [[]] + rest
      else
        var pieces := [[s[0]] + rest[0]] + rest[1..];
        assert pieces[1..] == rest[1..];
        pieces
  }

  /** The separator occurs in `s` exactly when `split` yields two pieces or more. */
  lemma SplitOnPieces(s: string, sep: char)
    ensures sep in s <==> |SplitOn(s, sep)| >= 2
  {
    var pieces := SplitOn(s, sep);
    if |pieces| >= 2 {
      assert s == pieces[0] + [sep] + JoinWith(pieces[1..], [sep]);
      assert s[|pieces[0]|] == sep;
    }
  }

  /** `s.split(c)` has one piece more than `s` has separators. */
  lemma {:induction false} SplitOnCount(s: string, sep: char)
    ensures |SplitOn(s, sep)| == CountChar(s, sep) + 1
  {
    if s != [] {
      SplitOnCount(s[1..], sep);
    }
  }

  lemma {:induction false} SplitOnNoSep(p: string, sep: char)
    requires sep !in p
    ensures SplitOn(p, sep) == [p]
  {
    if p != [] {
      SplitOnNoSep(p[1..], sep);
    }
  }

  lemma {:induction false} SplitOnAfterPiece(p: string, t: string, sep: char)
    requires sep !in p
    ensures SplitOn(p + [sep] + t, sep) == [p] + SplitOn(t, sep)
  {
    if p == [] {
      assert (p + [sep] + t)[1..] == t;
    } else {
      assert (p + [sep] + t)[1..] == p[1..] + [sep] + t;
      SplitOnAfterPiece(p[1..], t, sep);
      assert [p[0]] + p[1..] == p;
    }
  }

  /** `split` undoes `join` when no piece contains the separator. */
  lemma {:induction false} SplitOnJoinWith(pieces: seq<string>, sep: char)
    requires |pieces| >= 1
    requires forall i :: 0 <= i < |pieces| ==> sep !in pieces[i]
    ensures SplitOn(JoinWith(pieces, [sep]), sep) == pieces
  {
    if |pieces| == 1 {
      SplitOnNoSep(pieces[0], sep);
    } else {
      SplitOnJoinWith(pieces[1..], sep);
      SplitOnAfterPiece(pieces[0], JoinWith(pieces[1..], [sep]), sep);
      assert [pieces[0]] + pieces[1..] == pieces;
    }
  }

  /** The last piece of `s.split(c)` (Python's `s.rsplit(c, 1)[-1]`) is the
      whole string when `c` is absent, and otherwise the text after the last
      `c`. */
  lemma {:induction false} SplitOnLast(s: string, sep: char)
    ensures sep !in s ==> SplitOn(s, sep)[|SplitOn(s, sep)| - 1] == s
    ensures sep in s ==> exists i :: 0 <= i < |s| && s[i] == sep && sep !in s[i + 1..]
                                   && SplitOn(s, sep)[|SplitOn(s, sep)| - 1] == s[i + 1..]
  {
    if sep !in s {
      SplitOnNoSep(s, sep);
    } else {
      var i := LastSeparator(s, sep);
      assert 0 <= i < |s| && s[i] == sep && sep !in s[i + 1..]
             && SplitOn(s, sep)[|SplitOn(s, sep)| - 1] == s[i + 1..];
    }
  }

  /** The position of the last separator, after which the last piece starts. */
  lemma {:induction false} LastSeparator(s: string, sep: char) returns (i: nat)
    requires sep in s
    ensures i < |s| && s[i] == sep && sep !in s[i + 1..]
    ensures SplitOn(s, sep)[|SplitOn(s, sep)| - 1] == s[i + 1..]
  {
    SepHeadOrTail(s, sep);
    if sep in s[1..] {
      var k := LastSeparator(s[1..], sep);
      LastSeparatorInTail(s, sep, k);
      i := k + 1;
    } else {
      LastSeparatorAtHead(s, sep);
      i := 0;
    }
  }

  lemma LastSeparatorInTail(s: string, sep: char, k: nat)
    requires s != [] && k < |s[1..]| && s[1..][k] == sep && sep !in s[1..][k + 1..]
    requires SplitOn(s[1..], sep)[|SplitOn(s[1..], sep)| - 1] == s[1..][k + 1..]
    ensures k + 1 < |s| && s[k + 1] == sep && sep !in s[k + 2..]
    ensures SplitOn(s, sep)[|SplitOn(s, sep)| - 1] == s[k + 2..]
  {
    LastPieceTail(s, sep);
    TailShift(s, k);
  }

  lemma LastSeparatorAtHead(s: string, sep: char)
    requires s != [] && s[0] == sep && sep !in s[1..]
    ensures SplitOn(s, sep)[|SplitOn(s, sep)| - 1] == s[1..]
  {
    LastPieceTail(s, sep);
    SplitOnNoSep(s[1..], sep);
  }

  lemma SepHeadOrTail(s: string, sep: char)
    requires sep in s
    ensures s[0] == sep || sep in s[1..]
  {
    var j :| 0 <= j < |s| && s[j] == sep;
    if j > 0 {
      assert s[1..][j - 1] == sep;
    }
  }

  /** Dropping a first character that is, or precedes, a separator keeps the
      last piece. */
  lemma LastPieceTail(s: string, sep: char)
    requires s != [] && (s[0] == sep || sep in s[1..])
    ensures SplitOn(s, sep)[|SplitOn(s, sep)| - 1] == SplitOn(s[1..], sep)[|SplitOn(s[1..], sep)| - 1]
  {
    var rest := SplitOn(s[1..], sep);
    if s[0] != sep {
      SplitOnPieces(s[1..], sep);
      assert SplitOn(s, sep) == [[s[0]] + rest[0]] + rest[1..];
      LastOfAppend([[s[0]] + rest[0]], rest[1..]);
      assert rest[1..][|rest[1..]| - 1] == rest[|rest| - 1];
    } else {
      assert SplitOn(s, sep) == [[]] + rest;
      LastOfAppend([[]], rest);
    }
  }

  lemma LastOfAppend<T>(a: seq<T>, b: seq<T>)
    requires b != []
    ensures (a + b)[|a + b| - 1] == b[|b| - 1]
  {
  }

  lemma TailShift(s: string, i: nat)
    requires s != [] && i < |s[1..]|
    ensures s[1..][i] == s[i + 1] && s[1..][i + 1..] == s[i + 2..]
  {
  }

  /** Whatever precedes the last separator, the last piece is what follows it. */
  lemma {:induction false} SplitOnLastAfter(s: string, sep: char, t: string)
    requires sep !in t
    ensures SplitOn(s + [sep] + t, sep)[|SplitOn(s + [sep] + t, sep)| - 1] == t
  {
    var x := s + [sep] + t;
    if s == [] {
      assert x[1..] == t;
      SplitOnNoSep(t, sep);
    } else {
      assert x[1..] == s[1..] + [sep] + t;
      SplitOnLastAfter(s[1..], sep, t);
      assert x[1..][|s| - 1] == sep;
      SplitOnPieces(x[1..], sep);
    }
  }

  // ---------------------------------------------------------------------------
  // Python's argument-less `str.split()`: maximal runs of non-whitespace.

  predicate IsWord(w: string) {
    w != [] && NoSpace(Python, w)
  }

  predicate AllWords(ws: seq<string>) {
    forall i :: 0 <= i < |ws| ==> IsWord(ws[i])
  }

  /** Length of the run of non-whitespace characters at the start of `s`. */
  function WordLen(s: string): (n: nat)
    ensures n <= |s|
    ensures NoSpace(Python, s[..n])
    ensures n == |s| || IsSpace(Python, s[n])
  {
    if s == [] || IsSpace(Python, s[0]) then 0 else 1 + WordLen(s[1..])
  }

  function Words(s: string): (ws: seq<string>)
    ensures AllWords(ws)
    decreases |s|
  {
    if s == [] then []
    else if IsSpace(Python, s[0]) then Words(s[1..])
    else
      var n := WordLen(s);
      [s[..n]] + Words(s[n..])
  }

  /** `s.split()` is empty exactly when `s` is empty or all whitespace. */
  lemma {:induction false} WordsEmpty(s: string)
    ensures Words(s) == [] <==> AllSpace(Python, s)
    decreases |s|
  {
    if s != [] && IsSpace(Python, s[0]) {
      WordsEmpty(s[1..]);
      assert forall i :: 1 <= i < |s| ==> s[i] == s[1..][i - 1];
    }
  }

  lemma {:induction false} WordLenOfWordThenSpace(w: string, t: string)
    requires NoSpace(Python, w)
    requires t == [] || IsSpace(Python, t[0])
    ensures WordLen(w + t) == |w|
  {
    if w != [] {
      assert (w + t)[1..] == w[1..] + t;
      WordLenOfWordThenSpace(w[1..], t);
    }
  }

  /** Text after a whitespace character does not lengthen the first word. */
  lemma {:induction false} WordLenConcat(a: string, t: string)
    requires t == [] || IsSpace(Python, t[0])
    ensures WordLen(a + t) == WordLen(a)
  {
    if a == [] {
      assert a + t == t;
    } else {
      assert (a + t)[0] == a[0];
      if !IsSpace(Python, a[0]) {
        assert (a + t)[1..] == a[1..] + t;
        WordLenConcat(a[1..], t);
      }
    }
  }

  /** The first word of `a + t` is that of `a` when `a` starts with one. */
  lemma WordsConcatWord(a: string, t: string)
    requires a != [] && !IsSpace(Python, a[0])
    requires t == [] || IsSpace(Python, t[0])
    ensures Words(a + t) == [a[..WordLen(a)]] + Words(a[WordLen(a)..] + t)
  {
    WordLenConcat(a, t);
    var n := WordLen(a);
    SliceConcat(a, t, n);
    WordsFirst(a + t, n);
  }

  lemma WordsFirst(s: string, n: nat)
    requires s != [] && !IsSpace(Python, s[0]) && n == WordLen(s)
    ensures Words(s) == [s[..n]] + Words(s[n..])
  {
  }

  lemma WordsSkipSpace(s: string)
    requires s != [] && IsSpace(Python, s[0])
    ensures Words(s) == Words(s[1..])
  {
  }

  lemma SliceConcat(a: string, t: string, n: nat)
    requires a != [] && n <= |a|
    ensures (a + t)[0] == a[0] && (a + t)[..n] == a[..n] && (a + t)[n..] == a[n..] + t
  {
  }

  /** Splitting never joins text across a whitespace character. */
  lemma {:induction false} WordsConcat(a: string, t: string)
    requires t == [] || IsSpace(Python, t[0])
    ensures Words(a + t) == Words(a) + Words(t)
    decreases |a|
  {
    if a == [] {
      assert a + t == t;
    } else if IsSpace(Python, a[0]) {
      WordsConcat(a[1..], t);
      WordsConcatSpace(a, t);
    } else {
      var n := WordLen(a);
      WordsConcat(a[n..], t);
      WordsConcatStep(a, t, n);
    }
  }

  lemma WordsConcatSpace(a: string, t: string)
    requires a != [] && IsSpace(Python, a[0])
    requires Words(a[1..] + t) == Words(a[1..]) + Words(t)
    ensures Words(a + t) == Words(a) + Words(t)
  {
    SliceConcat(a, t, 1);
    WordsSkipSpace(a + t);
    WordsSkipSpace(a);
  }

  lemma WordsConcatStep(a: string, t: string, n: nat)
    requires a != [] && !IsSpace(Python, a[0]) && n == WordLen(a)
    requires t == [] || IsSpace(Python, t[0])
    requires Words(a[n..] + t) == Words(a[n..]) + Words(t)
    ensures Words(a + t) == Words(a) + Words(t)
  {
    WordsConcatWord(a, t);
    WordsFirst(a, n);
    ConsAppend(Words(a + t), Words(a), a[..n], Words(a[n..]), Words(a[n..] + t), Words(t));
  }

  /** `[x] + r` followed by `u` is `x` followed by `r + u`. */
  lemma ConsAppend<T>(whole: seq<T>, left: seq<T>, x: T, r: seq<T>, ru: seq<T>, u: seq<T>)
    requires whole == [x] + ru && left == [x] + r && ru == r + u
    ensures whole == left + u
  {
  }

  lemma {:induction false} WordsOfWord(w: string)
    requires IsWord(w)
    ensures Words(w) == [w]
  {
    WordLenOfWordThenSpace(w, []);
    assert w + [] == w;
  }

  /** `' '.join(ws).split() == ws` for a list of words. */
  lemma {:induction false} WordsOfJoined(ws: seq<string>)
    requires AllWords(ws)
    ensures Words(JoinWith(ws, " ")) == ws
  {
    if |ws| == 1 {
      WordsOfWord(ws[0]);
    } else if |ws| > 1 {
      var rest := JoinWith(ws[1..], " ");
      WordsOfJoined(ws[1..]);
      WordsOfWord(ws[0]);
      assert (" " + rest)[1..] == rest;
      WordsConcat(ws[0], " " + rest);
      assert ws[0] + " " + rest == ws[0] + (" " + rest);
      assert [ws[0]] + ws[1..] == ws;
    }
  }

  /** Text in the form `' '.join(...)` gives for words: no whitespace at either
      end, and every whitespace character is a single space between two
      non-space characters. */
  predicate SingleSpaced(s: string) {
    && (s != [] ==> !IsSpace(Python, s[0]) && !IsSpace(Python, s[|s| - 1]))
    && (forall i :: 0 <= i < |s| && IsSpace(Python, s[i]) ==>
          s[i] == ' ' && 0 < i < |s| - 1 && !IsSpace(Python, s[i + 1]))
  }

  lemma {:induction false} JoinedIsSingleSpaced(ws: seq<string>)
    requires AllWords(ws)
    ensures SingleSpaced(JoinWith(ws, " "))
  {
    if |ws| > 1 {
      JoinedIsSingleSpaced(ws[1..]);
      var rest := JoinWith(ws[1..], " ");
      var s := ws[0] + " " + rest;
      assert rest != [] && !IsSpace(Python, rest[0]) by {
        assert rest[..|ws[1]|] == ws[1] by {
          if |ws[1..]| > 1 {
            assert rest == ws[1] + " " + JoinWith(ws[2..], " ");
          }
        }
        assert rest[0] == ws[1][0];
      }
      forall i | 0 <= i < |s| && IsSpace(Python, s[i])
        ensures s[i] == ' ' && 0 < i < |s| - 1 && !IsSpace(Python, s[i + 1])
      {
        if i > |ws[0]| {
          assert s[i] == rest[i - |ws[0]| - 1];
        }
      }
      assert s[|s| - 1] == rest[|rest| - 1];
    }
  }

  // ---------------------------------------------------------------------------
  // Concatenation, counting and line iteration.

  function Concat(pieces: seq<string>): string {
    if pieces == [] then [] else pieces[0] + Concat(pieces[1..])
  }

  function CountChar(s: string, c: char): nat {
    if s == [] then 0 else (if s[0] == c then 1 else 0) + CountChar(s[1..], c)
  }

  /** Length of the first line of `t`, its `'\n'` included when it has one. */
  function LineLen(t: string): (n: nat)
    requires t != []
    ensures 1 <= n <= |t|
    ensures '\n' !in t[..n - 1]
    ensures n < |t| ==> t[n - 1] == '\n'
    ensures n == |t| || t[n - 1] == '\n'
  {
    if t[0] == '\n' || |t| == 1 then 1
    else
      var m := LineLen(t[1..]);
      assert t[..m] == [t[0]] + t[1..][..m - 1];
      1 + m
  }

  /** The lines `for line in f` yields for a file with text `t`: each line
      keeps its `'\n'`; the last one may lack it; an empty file has none. */
  function FileLines(t: string): (lines: seq<string>)
    ensures Concat(lines) == t
    ensures forall i :: 0 <= i < |lines| ==> lines[i] != [] && '\n' !in lines[i][..|lines[i]| - 1]
    ensures forall i :: 0 <= i < |lines| - 1 ==> lines[i][|lines[i]| - 1] == '\n'
    decreases |t|
  {
    if t == [] then []
    else
      var n := LineLen(t);
      var rest := FileLines(t[n..]);
      var lines := [t[..n]] + rest;
      assert lines[1..] == rest;
      assert t == t[..n] + t[n..];
      lines
  }

  lemma {:induction false} CountCharAppend(a: string, b: string, c: char)
    ensures CountChar(a + b, c) == CountChar(a, c) + CountChar(b, c)
  {
    if a == [] {
      assert a + b == b;
    } else {
      assert (a + b)[0] == a[0];
      assert (a + b)[1..] == a[1..] + b;
      CountCharAppend(a[1..], b, c);
    }
  }

  lemma {:induction false} CountCharAbsent(s: string, c: char)
    requires c !in s
    ensures CountChar(s, c) == 0
  {
    if s != [] {
      CountCharAbsent(s[1..], c);
    }
  }

  /** A line without an inner `'\n'` contributes only its last character's
      `'\n'` to the count. */
  lemma CountAfterLine(a: string, c: char, b: string)
    requires '\n' !in a
    ensures CountChar(a + [c] + b, '\n') == (if c == '\n' then 1 else 0) + CountChar(b, '\n')
  {
    CountCharAppend(a + [c], b, '\n');
    CountCharAppend(a, [c], '\n');
    CountCharAbsent(a, '\n');
    assert [c][1..] == [];
  }

  lemma FirstLineCount(t: string, n: nat)
    requires 1 <= n <= |t| && '\n' !in t[..n - 1]
    ensures CountChar(t, '\n') == (if t[n - 1] == '\n' then 1 else 0) + CountChar(t[n..], '\n')
  {
    assert t == t[..n - 1] + [t[n - 1]] + t[n..];
    CountAfterLine(t[..n - 1], t[n - 1], t[n..]);
  }

  /** One line per `'\n'`, plus one for text after the last `'\n'`. */
  lemma {:induction false} FileLinesCount(t: string)
    ensures |FileLines(t)| == CountChar(t, '\n') + (if t != [] && t[|t| - 1] != '\n' then 1 else 0)
    decreases |t|
  {
    if t != [] {
      var n := LineLen(t);
      FileLinesCount(t[n..]);
      FirstLineCount(t, n);
      assert |FileLines(t)| == 1 + |FileLines(t[n..])|;
      if n < |t| {
        assert t[|t| - 1] == t[n..][|t[n..]| - 1];
      }
    }
  }

  // ---------------------------------------------------------------------------
  // Prefix and substring tests (`startsWith`, `includes`).

  predicate StartsWith(s: string, p: string) {
    |p| <= |s| && s[..|p|] == p
  }

  predicate OccursAt(s: string, t: string, i: int) {
    0 <= i <= |s| - |t| && s[i..i + |t|] == t
  }

  predicate Contains(s: string, t: string) {
    exists i :: 0 <= i <= |s| - |t| && OccursAt(s, t, i)
  }

  lemma ContainsEmpty(s: string)
    ensures Contains(s, [])
  {
    assert OccursAt(s, [], 0);
  }
}
