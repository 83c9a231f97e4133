/** The word-frequency part of `get_content_analysis` and the size guard of
    `get_user_segmentation` in `server/admin_analytics.py`. The SQL query
    that selects the recent rows is left to the caller: the input is the
    `transcription` column of those rows. */
module AdminAnalytics {
  import opened Wrappers
  import opened Strings
  import opened Seqs

  // ---------------------------------------------------------------------------
  // Selecting and splitting the transcriptions.

  predicate Present(t: Option<string>) {
    t.Some? && t.value != []
  }

  /** `[record.transcription for record in query if record.transcription]`. */
  function Transcriptions(rows: seq<Option<string>>): (ts: seq<string>)
    ensures |ts| <= |rows|
    ensures forall i :: 0 <= i < |ts| ==> ts[i] != []
    ensures ts == [] <==> forall i :: 0 <= i < |rows| ==> !Present(rows[i])
  {
    if rows == [] then []
    else
      var rest := Transcriptions(rows[1..]);
      assert forall i :: 1 <= i < |rows| ==> rows[i] == rows[1..][i - 1];
      if Present(rows[0]) then [rows[0].value] + rest else rest
  }

  /** The transcriptions are the values of the present rows, in row order:
      the `i`-th is the value of the `i`-th row the filter keeps. */
  lemma {:induction false} TranscriptionsExactly(rows: seq<Option<string>>)
    ensures |Transcriptions(rows)| == |Filter(rows, Present)|
    ensures forall i :: 0 <= i < |Transcriptions(rows)| ==> Filter(rows, Present)[i] == Some(Transcriptions(rows)[i])
  {
    if rows != [] {
      TranscriptionsExactly(rows[1..]);
    }
  }

  /** `' '.join(transcriptions).lower().split()`. */
  function WordsOf(ts: seq<string>): seq<string> {
    Words(Lower(JoinWith(ts, " ")))
  }

  /** The words of each transcription, one transcription after another. */
  function EachWords(ts: seq<string>): seq<string> {
    if ts == [] then [] else Words(Lower(ts[0])) + EachWords(ts[1..])
  }

  /** Joining with a space before splitting keeps the transcriptions apart:
      no word is made of the end of one and the start of the next. */
  lemma {:induction false} WordsDoNotMerge(ts: seq<string>)
    ensures WordsOf(ts) == EachWords(ts)
  {
    if |ts| == 1 {
      assert EachWords(ts[1..]) == [];
    } else if |ts| >= 2 {
      var rest := JoinWith(ts[1..], " ");
      assert JoinWith(ts, " ") == ts[0] + (" " + rest);
      LowerAppend(ts[0], " " + rest);
      LowerAppend(" ", rest);
      var t := Lower(" ") + Lower(rest);
      assert t[0] == ' ';
      WordsConcat(Lower(ts[0]), t);
      assert t[1..] == Lower(rest);
      WordsDoNotMerge(ts[1..]);
    }
  }

  // ---------------------------------------------------------------------------
  // `Counter(words)`.

  datatype WordCount = WordCount(word: string, count: nat)

  /** How often `w` occurs in `ws`. */
  function Count(ws: seq<string>, w: string): nat
    decreases |ws|
  {
    if ws == [] then 0
    else Count(ws[..|ws| - 1], w) + (if ws[|ws| - 1] == w then 1 else 0)
  }

  /** The position of the first occurrence of `w` in `ws`, or `|ws|`. */
  function FirstIndex(ws: seq<string>, w: string): (n: nat)
    ensures n <= |ws|
    ensures n < |ws| <==> w in ws
    ensures n < |ws| ==> ws[n] == w && w !in ws[..n]
    decreases |ws|
  {
    if ws == [] then 0
    else
      var p := ws[..|ws| - 1];
      assert ws == p + [ws[|ws| - 1]];
      if w in p then FirstIndex(p, w)
      else if ws[|ws| - 1] == w then |p|
      else |ws|
  }

  /** The position of `w` in the tally `t`, or `|t|`. */
  function IndexOf(t: seq<WordCount>, w: string): (i: nat)
    ensures i <= |t|
    ensures i < |t| ==> t[i].word == w
    ensures i == |t| ==> forall k :: 0 <= k < |t| ==> t[k].word != w
  {
    if t == [] then 0
    else if t[0].word == w then 0
    else 1 + IndexOf(t[1..], w)
  }

  /** One step of `Counter.update`: count `w` once more. */
  function Add(t: seq<WordCount>, w: string): seq<WordCount> {
    var i := IndexOf(t, w);
    if i < |t| then t[i := t[i].(count := t[i].count + 1)] else t + [WordCount(w, 1)]
  }

  /** `Counter(words)`, its entries in the order the words first appear. */
  function Tally(ws: seq<string>): seq<WordCount>
    decreases |ws|
  {
    if ws == [] then [] else Add(Tally(ws[..|ws| - 1]), ws[|ws| - 1])
  }

  predicate DistinctWords(t: seq<WordCount>) {
    forall i, j :: 0 <= i < j < |t| ==> t[i].word != t[j].word
  }

  /** The tally has one entry per distinct word, and nothing else. */
  lemma {:induction false} TallyKeys(ws: seq<string>)
    ensures DistinctWords(Tally(ws))
    ensures forall i :: 0 <= i < |Tally(ws)| ==> Tally(ws)[i].word in ws
    ensures forall k :: 0 <= k < |ws| ==> IndexOf(Tally(ws), ws[k]) < |Tally(ws)|
    decreases |ws|
  {
    if ws != [] {
      var p := ws[..|ws| - 1];
      var w := ws[|ws| - 1];
      TallyKeys(p);
      var t := Tally(p);
      var u := Tally(ws);
      AddKeys(t, w);
      forall k | 0 <= k < |ws|
        ensures IndexOf(u, ws[k]) < |u|
      {
        if k < |p| {
          assert ws[k] == p[k];
        }
      }
      forall i | 0 <= i < |u|
        ensures u[i].word in ws
      {
        if u[i].word != w {
          var m :| 0 <= m < |p| && p[m] == t[i].word;
          assert ws[m] == p[m];
        }
      }
    }
  }

  lemma AddKeys(t: seq<WordCount>, w: string)
    requires DistinctWords(t)
    ensures DistinctWords(Add(t, w))
    ensures IndexOf(Add(t, w), w) < |Add(t, w)|
    ensures forall x :: IndexOf(t, x) < |t| ==> IndexOf(Add(t, w), x) < |Add(t, w)|
    ensures forall i :: 0 <= i < |Add(t, w)| ==> Add(t, w)[i].word == w || (i < |t| && Add(t, w)[i].word == t[i].word)
  {
    var u := Add(t, w);
    assert forall i :: 0 <= i < |t| ==> u[i].word == t[i].word;
    if IndexOf(t, w) == |t| {
      assert u[|t|].word == w;
    } else {
      assert u[IndexOf(t, w)].word == w;
    }
    forall x | IndexOf(t, x) < |t|
      ensures IndexOf(u, x) < |u|
    {
      assert u[IndexOf(t, x)].word == x;
    }
  }

  /** Each entry counts exactly the occurrences of its word, at least one. */
  lemma {:induction false} TallyCounts(ws: seq<string>)
    ensures forall i :: 0 <= i < |Tally(ws)| ==> Tally(ws)[i].count == Count(ws, Tally(ws)[i].word) >= 1
    decreases |ws|
  {
    if ws != [] {
      var p := ws[..|ws| - 1];
      var w := ws[|ws| - 1];
      TallyCounts(p);
      TallyKeys(p);
      var t := Tally(p);
      forall i | 0 <= i < |Tally(ws)|
        ensures Tally(ws)[i].count == Count(ws, Tally(ws)[i].word) >= 1
      {
        if i < |t| {
          assert Count(ws, t[i].word) == Count(p, t[i].word) + (if w == t[i].word then 1 else 0);
        } else {
          assert Count(p, w) == 0 by { CountAbsent(p, w); }
        }
      }
    }
  }

  lemma {:induction false} CountAbsent(ws: seq<string>, w: string)
    requires w !in ws
    ensures Count(ws, w) == 0
    decreases |ws|
  {
    if ws != [] {
      assert ws == ws[..|ws| - 1] + [ws[|ws| - 1]];
      CountAbsent(ws[..|ws| - 1], w);
    }
  }

  /** The entries come in the order their words first appear. */
  predicate FirstSeenOrder(t: seq<WordCount>, ws: seq<string>) {
    forall i, j :: 0 <= i < j < |t| ==> FirstIndex(ws, t[i].word) < FirstIndex(ws, t[j].word)
  }

  lemma FirstIndexExtend(p: seq<string>, w: string, x: string)
    requires x in p
    ensures FirstIndex(p + [w], x) == FirstIndex(p, x)
  {
    assert (p + [w])[..|p|] == p;
  }

  lemma {:induction false} TallyOrder(ws: seq<string>)
    ensures FirstSeenOrder(Tally(ws), ws)
    decreases |ws|
  {
    if ws != [] {
      var p := ws[..|ws| - 1];
      var w := ws[|ws| - 1];
      assert ws == p + [w];
      TallyOrder(p);
      TallyKeys(p);
      AddOrder(Tally(p), p, w);
    }
  }

  /** Counting `w` after `p` keeps the entries in first-appearance order. */
  lemma AddOrder(t: seq<WordCount>, p: seq<string>, w: string)
    requires FirstSeenOrder(t, p)
    requires forall i :: 0 <= i < |t| ==> t[i].word in p
    requires forall k :: 0 <= k < |p| ==> IndexOf(t, p[k]) < |t|
    ensures FirstSeenOrder(Add(t, w), p + [w])
  {
    if IndexOf(t, w) < |t| {
      OrderSameWords(t, Add(t, w), p, w);
    } else {
      assert w !in p;
      OrderAppendWord(t, p, WordCount(w, 1));
    }
  }

  /** Entries with the same words in the same places keep the order when one
      more word is read. */
  lemma OrderSameWords(t: seq<WordCount>, u: seq<WordCount>, p: seq<string>, w: string)
    requires FirstSeenOrder(t, p)
    requires forall i :: 0 <= i < |t| ==> t[i].word in p
    requires |u| == |t| && forall i :: 0 <= i < |t| ==> u[i].word == t[i].word
    ensures FirstSeenOrder(u, p + [w])
  {
    forall i | 0 <= i < |t|
      ensures FirstIndex(p + [w], u[i].word) == FirstIndex(p, t[i].word)
    {
      FirstIndexExtend(p, w, t[i].word);
    }
  }

  /** A word read for the first time goes last in first-appearance order. */
  lemma OrderAppendWord(t: seq<WordCount>, p: seq<string>, e: WordCount)
    requires FirstSeenOrder(t, p)
    requires forall i :: 0 <= i < |t| ==> t[i].word in p
    requires e.word !in p
    ensures FirstSeenOrder(t + [e], p + [e.word])
  {
    var u := t + [e];
    FirstIndexAppended(p, e.word);
    forall i | 0 <= i < |t|
      ensures FirstIndex(p + [e.word], u[i].word) == FirstIndex(p, t[i].word) < |p|
    {
      FirstIndexExtend(p, e.word, t[i].word);
    }
  }

  lemma FirstIndexAppended(p: seq<string>, w: string)
    requires w !in p
    ensures FirstIndex(p + [w], w) == |p|
  {
    assert (p + [w])[..|p|] == p;
  }

  function Sum(t: seq<WordCount>): nat {
    if t == [] then 0 else t[0].count + Sum(t[1..])
  }

  lemma {:induction false} SumAppend(a: seq<WordCount>, b: seq<WordCount>)
    ensures Sum(a + b) == Sum(a) + Sum(b)
  {
    if a == [] {
      assert a + b == b;
    } else {
      assert (a + b)[1..] == a[1..] + b;
      SumAppend(a[1..], b);
    }
  }

  lemma {:induction false} SumUpdate(t: seq<WordCount>, i: nat, e: WordCount)
    requires i < |t|
    ensures Sum(t[i := e]) + t[i].count == Sum(t) + e.count
  {
    if i > 0 {
      assert t[i := e][1..] == t[1..][i - 1 := e];
      SumUpdate(t[1..], i - 1, e);
    }
  }

  /** The counts add up to the number of words. */
  lemma {:induction false} TallySum(ws: seq<string>)
    ensures Sum(Tally(ws)) == |ws|
    decreases |ws|
  {
    if ws != [] {
      var p := ws[..|ws| - 1];
      var w := ws[|ws| - 1];
      TallySum(p);
      var t := Tally(p);
      var i := IndexOf(t, w);
      if i < |t| {
        SumUpdate(t, i, t[i].(count := t[i].count + 1));
      } else {
        SumAppend(t, [WordCount(w, 1)]);
      }
    }
  }

  // ---------------------------------------------------------------------------
  // `most_common(20)`: a stable sort by count, largest first, then the first 20.

  /** Inserts `x` after every entry whose count is at least its own. */
  function Insert(s: seq<WordCount>, x: WordCount): (r: seq<WordCount>)
    ensures multiset(r) == multiset(s) + multiset{x}
    ensures Sum(r) == Sum(s) + x.count
  {
    if s == [] then [x]
    else if s[0].count < x.count then [x] + s
    else
      var r := [s[0]] + Insert(s[1..], x);
      assert s == [s[0]] + s[1..];
      r
  }

  function SortByCount(t: seq<WordCount>): (s: seq<WordCount>)
    ensures multiset(s) == multiset(t)
    ensures Sum(s) == Sum(t)
    decreases |t|
  {
    if t == [] then []
    else
      var init, last := t[..|t| - 1], t[|t| - 1];
      assert t == init + [last];
      SumAppend(init, [last]);
      Insert(SortByCount(init), last)
  }

  /** Largest count first; equal counts in first-appearance order. */
  predicate RankOrder(s: seq<WordCount>, ws: seq<string>) {
    forall i, j :: 0 <= i < j < |s| ==>
      s[i].count > s[j].count
      || (s[i].count == s[j].count && FirstIndex(ws, s[i].word) < FirstIndex(ws, s[j].word))
  }

  /** `y` may go in front of a ranked list it ranks before every entry of. */
  lemma RankOrderCons(y: WordCount, q: seq<WordCount>, ws: seq<string>)
    requires RankOrder(q, ws)
    requires forall k :: 0 <= k < |q| ==>
               y.count > q[k].count || (y.count == q[k].count && FirstIndex(ws, y.word) < FirstIndex(ws, q[k].word))
    ensures RankOrder([y] + q, ws)
  {
    var r := [y] + q;
    forall i, j | 0 <= i < j < |r|
      ensures r[i].count > r[j].count
              || (r[i].count == r[j].count && FirstIndex(ws, r[i].word) < FirstIndex(ws, r[j].word))
    {
      assert r[j] == q[j - 1];
      if i > 0 {
        assert r[i] == q[i - 1];
      }
    }
  }

  lemma {:induction false} InsertRankOrder(s: seq<WordCount>, x: WordCount, ws: seq<string>)
    requires RankOrder(s, ws)
    requires forall e :: e in s ==> FirstIndex(ws, e.word) < FirstIndex(ws, x.word)
    ensures RankOrder(Insert(s, x), ws)
  {
    if s == [] {
    } else if s[0].count < x.count {
      forall k | 0 <= k < |s|
        ensures x.count > s[k].count
      {
        assert k == 0 || s[0].count >= s[k].count;
      }
      RankOrderCons(x, s, ws);
    } else {
      RankOrderTail(s, ws);
      InsertRankOrder(s[1..], x, ws);
      HeadBeatsInsert(s, x, ws);
      RankOrderCons(s[0], Insert(s[1..], x), ws);
    }
  }

  lemma RankOrderTail(s: seq<WordCount>, ws: seq<string>)
    requires s != [] && RankOrder(s, ws)
    ensures RankOrder(s[1..], ws)
  {
    forall i, j | 0 <= i < j < |s[1..]|
      ensures s[1..][i].count > s[1..][j].count
              || (s[1..][i].count == s[1..][j].count && FirstIndex(ws, s[1..][i].word) < FirstIndex(ws, s[1..][j].word))
    {
      assert s[1..][i] == s[i + 1] && s[1..][j] == s[j + 1];
    }
  }

  /** The head of a ranked list ranks before each later entry. */
  lemma HeadBeats(s: seq<WordCount>, e: WordCount, ws: seq<string>)
    requires s != [] && RankOrder(s, ws) && e in s[1..]
    ensures s[0].count > e.count || (s[0].count == e.count && FirstIndex(ws, s[0].word) < FirstIndex(ws, e.word))
  {
    var m :| 0 <= m < |s[1..]| && s[1..][m] == e;
    assert s[m + 1] == e;
  }

  /** The head ranks before everything once `x`, seen later and counted no
      more, goes into the tail. */
  lemma HeadBeatsInsert(s: seq<WordCount>, x: WordCount, ws: seq<string>)
    requires s != [] && RankOrder(s, ws) && s[0].count >= x.count
    requires forall e :: e in s ==> FirstIndex(ws, e.word) < FirstIndex(ws, x.word)
    ensures forall k :: 0 <= k < |Insert(s[1..], x)| ==>
              s[0].count > Insert(s[1..], x)[k].count
              || (s[0].count == Insert(s[1..], x)[k].count
                  && FirstIndex(ws, s[0].word) < FirstIndex(ws, Insert(s[1..], x)[k].word))
  {
    var q := Insert(s[1..], x);
    forall k | 0 <= k < |q|
      ensures s[0].count > q[k].count
              || (s[0].count == q[k].count && FirstIndex(ws, s[0].word) < FirstIndex(ws, q[k].word))
    {
      var e := q[k];
      assert e in multiset(q);
      if e != x {
        assert e in multiset(s[1..]);
        HeadBeats(s, e, ws);
      } else {
        assert s[0] in s;
      }
    }
  }

  lemma {:induction false} SortRankOrder(t: seq<WordCount>, ws: seq<string>)
    requires FirstSeenOrder(t, ws)
    ensures RankOrder(SortByCount(t), ws)
    decreases |t|
  {
    if t != [] {
      var p := t[..|t| - 1];
      var x := t[|t| - 1];
      SortRankOrder(p, ws);
      var s := SortByCount(p);
      forall e | e in s
        ensures FirstIndex(ws, e.word) < FirstIndex(ws, x.word)
      {
        assert e in multiset(p);
        var k :| 0 <= k < |p| && p[k] == e;
        assert t[k] == e;
      }
      InsertRankOrder(s, x, ws);
    }
  }

  /** `Counter(ws).most_common(n)`. */
  function MostCommon(ws: seq<string>, n: nat): (r: seq<WordCount>)
    ensures |r| <= n
    ensures |r| == if |Tally(ws)| <= n then |Tally(ws)| else n
  {
    var s := SortByCount(Tally(ws));
    assert |s| == |multiset(s)| == |Tally(ws)|;
    if |s| <= n then s else s[..n]
  }

  /** The distinct words of `ws`. */
  function WordSet(ws: seq<string>): set<string> {
    set w | w in ws
  }

  /** The tally has one entry per distinct word. */
  lemma {:induction false} TallySize(ws: seq<string>)
    ensures |Tally(ws)| == |WordSet(ws)|
    decreases |ws|
  {
    if ws == [] {
      assert WordSet(ws) == {};
    } else {
      var p := ws[..|ws| - 1];
      var w := ws[|ws| - 1];
      assert ws == p + [w];
      TallySize(p);
      TallyKeys(p);
      var t := Tally(p);
      assert WordSet(ws) == WordSet(p) + {w};
      if w in p {
        var k :| 0 <= k < |p| && p[k] == w;
        assert IndexOf(t, w) < |t|;
      } else {
        assert w !in WordSet(p);
        assert IndexOf(t, w) == |t|;
      }
    }
  }

  /** `most_common(n)` has `n` entries, or one per distinct word when there
      are fewer. */
  lemma MostCommonSize(ws: seq<string>, n: nat)
    ensures |MostCommon(ws, n)| == if |WordSet(ws)| <= n then |WordSet(ws)| else n
  {
    TallySize(ws);
  }

  /** When fewer than `n` entries come back, every word has one. */
  lemma MostCommonAll(ws: seq<string>, n: nat, w: string)
    requires |MostCommon(ws, n)| < n && w in ws
    ensures exists i :: 0 <= i < |MostCommon(ws, n)| && MostCommon(ws, n)[i].word == w
  {
    var e := TallyEntry(ws, w);
    var j := SortedIndex(Tally(ws), e);
    MostCommonPrefix(ws, n);
    assert MostCommon(ws, n)[j] == e;
  }

  lemma SortedEntriesFromTally(ws: seq<string>)
    ensures forall i :: 0 <= i < |SortByCount(Tally(ws))| ==> SortByCount(Tally(ws))[i] in Tally(ws)
  {
    var s := SortByCount(Tally(ws));
    forall i | 0 <= i < |s|
      ensures s[i] in Tally(ws)
    {
      assert s[i] in multiset(Tally(ws));
    }
  }

  lemma DistinctCons(y: WordCount, q: seq<WordCount>)
    requires DistinctWords(q)
    requires forall k :: 0 <= k < |q| ==> y.word != q[k].word
    ensures DistinctWords([y] + q)
  {
    var r := [y] + q;
    forall i, j | 0 <= i < j < |r|
      ensures r[i].word != r[j].word
    {
      assert r[j] == q[j - 1];
      if i > 0 {
        assert r[i] == q[i - 1];
      }
    }
  }

  lemma {:induction false} InsertDistinct(s: seq<WordCount>, x: WordCount)
    requires DistinctWords(s)
    requires forall e :: e in s ==> e.word != x.word
    ensures DistinctWords(Insert(s, x))
    decreases |s|
  {
    if s == [] {
    } else if s[0].count < x.count {
      DistinctCons(x, s);
    } else {
      assert forall e :: e in s[1..] ==> e in s;
      assert DistinctWords(s[1..]);
      InsertDistinct(s[1..], x);
      HeadNotInserted(s, x, Insert(s[1..], x));
      DistinctCons(s[0], Insert(s[1..], x));
    }
  }

  /** The words of the tail and of `x` all differ from the head's word. */
  lemma HeadNotInserted(s: seq<WordCount>, x: WordCount, q: seq<WordCount>)
    requires DistinctWords(s) && s != []
    requires forall e :: e in s ==> e.word != x.word
    requires multiset(q) == multiset(s[1..]) + multiset{x}
    ensures forall k :: 0 <= k < |q| ==> s[0].word != q[k].word
  {
    forall k | 0 <= k < |q|
      ensures s[0].word != q[k].word
    {
      var e := q[k];
      assert e in multiset(q);
      if e != x {
        assert e in multiset(s[1..]);
        var m :| 0 <= m < |s[1..]| && s[1..][m] == e;
        assert s[m + 1] == e;
      }
    }
  }

  lemma {:induction false} SortDistinct(t: seq<WordCount>)
    requires DistinctWords(t)
    ensures DistinctWords(SortByCount(t))
    decreases |t|
  {
    if t != [] {
      var p := t[..|t| - 1];
      var x := t[|t| - 1];
      SortDistinct(p);
      var s := SortByCount(p);
      forall e | e in s
        ensures e.word != x.word
      {
        assert e in multiset(p);
        var k :| 0 <= k < |p| && p[k] == e;
        assert t[k] == e;
      }
      InsertDistinct(s, x);
    }
  }

  /** Each word appears once, with its true count, at least 1. */
  lemma MostCommonCounts(ws: seq<string>, n: nat)
    ensures DistinctWords(MostCommon(ws, n))
    ensures forall i :: 0 <= i < |MostCommon(ws, n)| ==> MostCommon(ws, n)[i].count == Count(ws, MostCommon(ws, n)[i].word) >= 1
  {
    var t := Tally(ws);
    var s := SortByCount(t);
    var r := MostCommon(ws, n);
    TallyKeys(ws);
    TallyCounts(ws);
    SortDistinct(t);
    SortedEntriesFromTally(ws);
    forall i | 0 <= i < |r|
      ensures r[i].count == Count(ws, r[i].word) >= 1
    {
      assert r[i] == s[i];
      var a :| 0 <= a < |t| && t[a] == s[i];
    }
    assert forall i :: 0 <= i < |r| ==> r[i] == s[i];
  }

  /** Largest count first, ties in the order the words first appear. */
  lemma MostCommonOrder(ws: seq<string>, n: nat)
    ensures RankOrder(MostCommon(ws, n), ws)
  {
    TallyOrder(ws);
    SortRankOrder(Tally(ws), ws);
  }

  /** No word left out occurs more often than a word kept, and a word kept
      with the same count as one left out occurs first in the text. */
  lemma MostCommonIsTop(ws: seq<string>, n: nat, w: string)
    requires w in ws
    requires forall i :: 0 <= i < |MostCommon(ws, n)| ==> MostCommon(ws, n)[i].word != w
    ensures forall i :: 0 <= i < |MostCommon(ws, n)| ==> Count(ws, w) <= MostCommon(ws, n)[i].count
    ensures forall i :: 0 <= i < |MostCommon(ws, n)| && MostCommon(ws, n)[i].count == Count(ws, w) ==>
              FirstIndex(ws, MostCommon(ws, n)[i].word) < FirstIndex(ws, w)
  {
    var s := SortByCount(Tally(ws));
    var r := MostCommon(ws, n);
    var e := TallyEntry(ws, w);
    TallyOrder(ws);
    SortRankOrder(Tally(ws), ws);
    var j := SortedIndex(Tally(ws), e);
    MostCommonPrefix(ws, n);
    PastKept(s, r, j, w);
    RankedBefore(s, ws, j);
  }

  /** `MostCommonIsTop` for every word left out. */
  lemma MostCommonCut(ws: seq<string>, n: nat)
    ensures forall w :: w in ws && (forall i :: 0 <= i < |MostCommon(ws, n)| ==> MostCommon(ws, n)[i].word != w) ==>
              forall i :: 0 <= i < |MostCommon(ws, n)| ==> Count(ws, w) <= MostCommon(ws, n)[i].count
    ensures forall w :: w in ws && (forall i :: 0 <= i < |MostCommon(ws, n)| ==> MostCommon(ws, n)[i].word != w) ==>
              forall i :: 0 <= i < |MostCommon(ws, n)| && MostCommon(ws, n)[i].count == Count(ws, w) ==>
                FirstIndex(ws, MostCommon(ws, n)[i].word) < FirstIndex(ws, w)
  {
    forall w | w in ws && (forall i :: 0 <= i < |MostCommon(ws, n)| ==> MostCommon(ws, n)[i].word != w)
      ensures forall i :: 0 <= i < |MostCommon(ws, n)| ==> Count(ws, w) <= MostCommon(ws, n)[i].count
      ensures forall i :: 0 <= i < |MostCommon(ws, n)| && MostCommon(ws, n)[i].count == Count(ws, w) ==>
                FirstIndex(ws, MostCommon(ws, n)[i].word) < FirstIndex(ws, w)
    {
      MostCommonIsTop(ws, n, w);
    }
  }

  /** `most_common(n)` is the first `n` entries of the sorted tally. */
  lemma MostCommonPrefix(ws: seq<string>, n: nat)
    ensures |MostCommon(ws, n)| <= |SortByCount(Tally(ws))|
    ensures forall i :: 0 <= i < |MostCommon(ws, n)| ==> MostCommon(ws, n)[i] == SortByCount(Tally(ws))[i]
  {
  }

  /** Where an entry of the tally ends up once sorted. */
  lemma SortedIndex(t: seq<WordCount>, e: WordCount) returns (j: nat)
    requires e in t
    ensures j < |SortByCount(t)| && SortByCount(t)[j] == e
  {
    assert e in multiset(SortByCount(t));
    j :| 0 <= j < |SortByCount(t)| && SortByCount(t)[j] == e;
  }

  /** An entry for a word the prefix leaves out sits past the prefix. */
  lemma PastKept(s: seq<WordCount>, r: seq<WordCount>, j: nat, w: string)
    requires j < |s| && s[j].word == w
    requires |r| <= |s| && forall i :: 0 <= i < |r| ==> r[i] == s[i] && r[i].word != w
    ensures |r| <= j
  {
  }

  /** The tally entry of a word that occurs, with its true count. */
  lemma TallyEntry(ws: seq<string>, w: string) returns (e: WordCount)
    requires w in ws
    ensures e in Tally(ws) && e.word == w && e.count == Count(ws, w)
  {
    TallyKeys(ws);
    TallyCounts(ws);
    var k :| 0 <= k < |ws| && ws[k] == w;
    e := Tally(ws)[IndexOf(Tally(ws), w)];
  }

  /** In a ranked list every entry counts at least as much as any later one,
      and an earlier entry with the same count has the earlier word. */
  lemma RankedBefore(s: seq<WordCount>, ws: seq<string>, j: nat)
    requires RankOrder(s, ws) && j < |s|
    ensures forall i :: 0 <= i < j ==> s[j].count <= s[i].count
    ensures forall i :: 0 <= i < j && s[i].count == s[j].count ==>
              FirstIndex(ws, s[i].word) < FirstIndex(ws, s[j].word)
  {
  }

  /** The counts kept add up to at most the number of words. */
  lemma MostCommonSum(ws: seq<string>, n: nat)
    ensures Sum(MostCommon(ws, n)) <= |ws|
  {
    var s := SortByCount(Tally(ws));
    TallySum(ws);
    var r := MostCommon(ws, n);
    assert s == s[..|r|] + s[|r|..];
    SumAppend(s[..|r|], s[|r|..]);
  }

  const TopCount: nat := 20

  /** `{'word_frequency': [...]}` of `get_content_analysis`. */
  function WordFrequency(rows: seq<Option<string>>): seq<WordCount> {
    var ts := Transcriptions(rows);
    if ts == [] then [] else MostCommon(WordsOf(ts), TopCount)
  }

  /** Without any non-empty transcription there is no frequency. */
  lemma NoTranscriptions(rows: seq<Option<string>>)
    requires forall i :: 0 <= i < |rows| ==> !Present(rows[i])
    ensures WordFrequency(rows) == []
  {
  }

  /** Rows whose transcription is `None` or empty do not change the result. */
  lemma AbsentRowsIgnored(rows: seq<Option<string>>, t: Option<string>)
    requires !Present(t)
    ensures WordFrequency([t] + rows) == WordFrequency(rows)
  {
    assert ([t] + rows)[1..] == rows;
  }

  /** What `most_common(20)` promises: 20 distinct entries, or one per
      distinct word when there are fewer; each with the true count of its
      (lowercased) word, at least 1; largest count first with ties in
      first-appearance order; no word left out occurs more often than one
      kept, and of the words tied at the cut the ones that appear first are
      kept; and the counts sum to at most the number of words. */
  lemma WordFrequencyProperties(rows: seq<Option<string>>)
    ensures var r := WordFrequency(rows);
      var ws := WordsOf(Transcriptions(rows));
      |r| <= TopCount
      && DistinctWords(r)
      && (forall i :: 0 <= i < |r| ==> r[i].count == Count(ws, r[i].word) >= 1)
      && RankOrder(r, ws)
      && (forall w :: w in ws && (forall i :: 0 <= i < |r| ==> r[i].word != w) ==>
            forall i :: 0 <= i < |r| ==> Count(ws, w) <= r[i].count)
      && (forall w :: w in ws && (forall i :: 0 <= i < |r| ==> r[i].word != w) ==>
            forall i :: 0 <= i < |r| && r[i].count == Count(ws, w) ==> FirstIndex(ws, r[i].word) < FirstIndex(ws, w))
      && Sum(r) <= |ws|
      && |r| == (if |WordSet(ws)| <= TopCount then |WordSet(ws)| else TopCount)
      && (|r| < TopCount ==> forall w :: w in ws ==> exists i :: 0 <= i < |r| && r[i].word == w)
  {
    var ts := Transcriptions(rows);
    var ws := WordsOf(ts);
    if ts == [] {
      assert ws == [];
      assert WordSet(ws) == {};
    } else {
      MostCommonSize(ws, TopCount);
      forall w | |MostCommon(ws, TopCount)| < TopCount && w in ws
        ensures exists i :: 0 <= i < |MostCommon(ws, TopCount)| && MostCommon(ws, TopCount)[i].word == w
      {
        MostCommonAll(ws, TopCount, w);
      }
      MostCommonCounts(ws, TopCount);
      MostCommonOrder(ws, TopCount);
      MostCommonSum(ws, TopCount);
      MostCommonCut(ws, TopCount);
    }
  }

  // ---------------------------------------------------------------------------
  // Case.

  /** The rows with every transcription lowercased. */
  function LowerRows(rows: seq<Option<string>>): (r: seq<Option<string>>)
    ensures |r| == |rows|
    ensures forall i :: 0 <= i < |rows| ==> r[i] == (if rows[i].Some? then Some(Lower(rows[i].value)) else None)
  {
    seq(|rows|, i requires 0 <= i < |rows| => if rows[i].Some? then Some(Lower(rows[i].value)) else None)
  }

  function LowerEach(ts: seq<string>): (r: seq<string>)
    ensures |r| == |ts|
    ensures forall i :: 0 <= i < |ts| ==> r[i] == Lower(ts[i])
  {
    seq(|ts|, i requires 0 <= i < |ts| => Lower(ts[i]))
  }

  lemma {:induction false} TranscriptionsLower(rows: seq<Option<string>>)
    ensures Transcriptions(LowerRows(rows)) == LowerEach(Transcriptions(rows))
  {
    if rows != [] {
      assert LowerRows(rows)[1..] == LowerRows(rows[1..]);
      TranscriptionsLower(rows[1..]);
      assert Present(LowerRows(rows)[0]) == Present(rows[0]);
      if Present(rows[0]) {
        assert LowerEach([rows[0].value] + Transcriptions(rows[1..]))
               == [Lower(rows[0].value)] + LowerEach(Transcriptions(rows[1..]));
      }
    }
  }

  /** Lowercasing the joined text is joining the lowercased pieces. */
  lemma {:induction false} LowerJoin(ts: seq<string>)
    ensures Lower(JoinWith(ts, " ")) == JoinWith(LowerEach(ts), " ")
  {
    if |ts| > 1 {
      LowerJoin(ts[1..]);
      LowerAppend(ts[0] + " ", JoinWith(ts[1..], " "));
      LowerAppend(ts[0], " ");
      assert LowerEach(ts)[1..] == LowerEach(ts[1..]);
    }
  }

  /** Counting ignores case: lowercasing every transcription beforehand
      changes nothing in the result. */
  lemma CaseInsensitive(rows: seq<Option<string>>)
    ensures WordFrequency(LowerRows(rows)) == WordFrequency(rows)
  {
    var ts := Transcriptions(rows);
    TranscriptionsLower(rows);
    LowerJoin(ts);
    LowerJoin(LowerEach(ts));
    assert Lower(Lower(JoinWith(ts, " "))) == Lower(JoinWith(ts, " "));
    assert forall i :: 0 <= i < |ts| ==> Lower(Lower(ts[i])) == Lower(ts[i]);
    assert LowerEach(LowerEach(ts)) == LowerEach(ts);
    assert WordsOf(LowerEach(ts)) == WordsOf(ts);
  }

  /** The words of a lowercase text are lowercase. */
  lemma {:induction false} WordsOfLowercase(s: string)
    requires Lower(s) == s
    ensures forall k :: 0 <= k < |Words(s)| ==> Lower(Words(s)[k]) == Words(s)[k]
    decreases |s|
  {
    if s != [] {
      if IsSpace(Python, s[0]) {
        assert Lower(s[1..]) == s[1..];
        WordsOfLowercase(s[1..]);
      } else {
        var n := WordLen(s);
        assert Lower(s[..n]) == s[..n];
        assert Lower(s[n..]) == s[n..];
        WordsOfLowercase(s[n..]);
      }
    }
  }

  /** Every word reported is in lower case. */
  lemma EntriesLowercase(rows: seq<Option<string>>)
    ensures forall i :: 0 <= i < |WordFrequency(rows)| ==>
              Lower(WordFrequency(rows)[i].word) == WordFrequency(rows)[i].word
  {
    var ts := Transcriptions(rows);
    if ts != [] {
      var ws := WordsOf(ts);
      assert Lower(Lower(JoinWith(ts, " "))) == Lower(JoinWith(ts, " "));
      WordsOfLowercase(Lower(JoinWith(ts, " ")));
      TallyKeys(ws);
      SortedEntriesFromTally(ws);
      var r := MostCommon(ws, TopCount);
      var s := SortByCount(Tally(ws));
      forall i | 0 <= i < |r|
        ensures Lower(r[i].word) == r[i].word
      {
        assert r[i] == s[i];
        var a :| 0 <= a < |Tally(ws)| && Tally(ws)[a] == s[i];
        var k :| 0 <= k < |ws| && ws[k] == r[i].word;
      }
    }
  }

  // ---------------------------------------------------------------------------
  // `get_user_segmentation`.

  /** Either the early `jsonify([])`, or KMeans called with this many clusters. */
  datatype Segmentation = NotEnoughData | Clusters(k: nat)

  /** `if len(df) < 3: return jsonify([])`, then `KMeans(n_clusters=min(3, len(df)))`. */
  function SegmentationPlan(users: nat): (r: Segmentation)
    ensures r == NotEnoughData <==> users < 3
  {
    if users < 3 then NotEnoughData else Clusters(if users < 3 then users else 3)
  }

  /** Past the guard, `min(3, len(df))` is always 3: clustering never sees
      fewer rows than clusters. */
  lemma ClusterCount(users: nat)
    requires users >= 3
    ensures SegmentationPlan(users) == Clusters(3)
  {
  }
}
