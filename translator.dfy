/** The dictionary-based word translator of `server/ModelASR/Translator.py`: a
    vocabulary loader, a `source,target` dictionary loader, and a sentence
    translator that looks every whitespace-separated word up by its lowercased
    form. Files are given by their text; opening and reading them is I/O. */
module Translator {
  import opened Wrappers
  import opened Strings

  /** The `ValueError` that `a, b = line.strip().split(',')` raises when the
      stripped line does not have exactly two comma-separated fields. */
  datatype LoadError = ValueError(fieldCount: nat)

  /** An instance: the vocabulary list and the word dictionary, both fixed
      once the constructor has loaded them. */
  datatype Translator = Translator(vocab: seq<string>, wordTranslation: map<string, string>) {

    /** `word_translation.get(word.lower(), word)`. */
    function TranslateWord(word: string): string {
      if Lower(word) in wordTranslation then wordTranslation[Lower(word)] else word
    }

    function TranslateWords(words: seq<string>): (out: seq<string>)
      ensures |out| == |words|
      ensures forall i :: 0 <= i < |words| ==> out[i] == TranslateWord(words[i])
    {
      seq(|words|, i requires 0 <= i < |words| => TranslateWord(words[i]))
    }

    /** `' '.join(translated word for word in sentence.split())`. */
    function TranslateSentence(sentence: string): string {
      JoinWith(TranslateWords(Words(sentence)), " ")
    }
  }

  // ---------------------------------------------------------------------------
  // Loaders.

  /** `[line.strip() for line in f.readlines()]`. */
  function LoadVocabulary(fileText: string): (vocab: seq<string>)
  {
    var lines := FileLines(fileText);
    seq(|lines|, i requires 0 <= i < |lines| => Trim(Python, lines[i]))
  }

  /** The comma-separated fields of one stripped dictionary line. */
  function Fields(line: string): seq<string> {
    SplitOn(Trim(Python, line), ',')
  }

  predicate WellFormed(line: string) {
    |Fields(line)| == 2
  }

  /** Dictionary key of a well-formed line: its first field, lowercased. */
  function KeyOf(line: string): string
    requires WellFormed(line)
  {
    Lower(Fields(line)[0])
  }

  function ValueOf(line: string): string
    requires WellFormed(line)
  {
    Fields(line)[1]
  }

  /** One line of the dictionary file: its entry, or the unpacking error. */
  function ParseLine(line: string): (r: Result<(string, string), LoadError>)
    ensures r.Success? <==> WellFormed(line)
    ensures r.Success? ==> r.value == (KeyOf(line), ValueOf(line))
    ensures r.Failure? ==> r.error == ValueError(|Fields(line)|)
  {
    var fields := Fields(line);
    if |fields| == 2 then Success((Lower(fields[0]), fields[1]))
    else Failure(ValueError(|fields|))
  }

  function ParseLines(lines: seq<string>): (rs: seq<Result<(string, string), LoadError>>)
    ensures |rs| == |lines|
    ensures forall i :: 0 <= i < |lines| ==> rs[i] == ParseLine(lines[i])
  {
    seq(|lines|, i requires 0 <= i < |lines| => ParseLine(lines[i]))
  }

  /** The loop over already parsed lines: insert entry after entry, stop at
      the first error. */
  function Load(rs: seq<Result<(string, string), LoadError>>): Result<map<string, string>, LoadError>
    decreases |rs|
  {
    if rs == [] then Success(map[])
    else
      match Load(rs[..|rs| - 1])
      case Failure(e) => Failure(e)
      case Success(d) =>
        match rs[|rs| - 1]
        case Failure(e) => Failure(e)
        case Success(entry) => Success(d[entry.0 := entry.1])
  }

  /** What loading the given lines produces: the loop's dictionary after the
      last line, or the error of the first malformed line. */
  function DictionaryOf(lines: seq<string>): Result<map<string, string>, LoadError> {
    Load(ParseLines(lines))
  }

  /** `load_dictionary`: one pass over the file's lines, inserting entries
      into the dictionary as it goes; the first malformed line aborts the load. */
  method LoadDictionary(fileText: string) returns (r: Result<map<string, string>, LoadError>)
    ensures r == DictionaryOf(FileLines(fileText))
  {
    r := LoadLines(FileLines(fileText));
  }

  /** The loop of `load_dictionary` over the lines `for line in file` yields. */
  method LoadLines(lines: seq<string>) returns (r: Result<map<string, string>, LoadError>)
    ensures r == DictionaryOf(lines)
  {
    ghost var rs := ParseLines(lines);
    var wordTranslation: map<string, string> := map[];
    var i := 0;
    while i < |lines|
      invariant 0 <= i <= |lines|
      invariant Load(rs[..i]) == Success(wordTranslation)
    {
      var fields := SplitOn(Trim(Python, lines[i]), ',');
      LoadStep(rs, i, wordTranslation);
      if |fields| != 2 {
        LoadFailurePersists(rs, i + 1);
        return Failure(ValueError(|fields|));
      }
      wordTranslation := wordTranslation[Lower(fields[0]) := fields[1]];
      i := i + 1;
    }
    assert rs[..|lines|] == rs;
    r := Success(wordTranslation);
  }

  /** One turn of the loop: the next parsed line either aborts the load or
      adds its entry. */
  lemma LoadStep(rs: seq<Result<(string, string), LoadError>>, i: nat, d: map<string, string>)
    requires i < |rs| && Load(rs[..i]) == Success(d)
    ensures rs[i].Failure? ==> Load(rs[..i + 1]) == Failure(rs[i].error)
    ensures rs[i].Success? ==> Load(rs[..i + 1]) == Success(d[rs[i].value.0 := rs[i].value.1])
  {
    assert rs[..i + 1][..i] == rs[..i];
  }

  /** `Translator(vocab_path, dictionary_path)`: the vocabulary first, then the
      dictionary, whose `ValueError` escapes the constructor. */
  method NewTranslator(vocabText: string, dictionaryText: string) returns (r: Result<Translator, LoadError>)
    ensures DictionaryOf(FileLines(dictionaryText)).Failure? ==>
              r == Failure(DictionaryOf(FileLines(dictionaryText)).error)
    ensures DictionaryOf(FileLines(dictionaryText)).Success? ==>
              r == Success(Translator(LoadVocabulary(vocabText), DictionaryOf(FileLines(dictionaryText)).value))
  {
    var vocab := LoadVocabulary(vocabText);
    var d := LoadDictionary(dictionaryText);
    match d
    case Failure(e) => r := Failure(e);
    case Success(m) => r := Success(Translator(vocab, m));
  }

  // ---------------------------------------------------------------------------
  // Properties of the loaders.

  lemma {:induction false} LoadFailurePersists(rs: seq<Result<(string, string), LoadError>>, k: nat)
    requires k <= |rs|
    requires Load(rs[..k]).Failure?
    ensures Load(rs) == Load(rs[..k])
    decreases |rs| - k
  {
    if k < |rs| {
      assert rs[..k + 1][..k] == rs[..k];
      LoadFailurePersists(rs, k + 1);
    } else {
      assert rs[..k] == rs;
    }
  }

  /** The vocabulary has one entry per line of the file, in file order, each
      with its surrounding whitespace removed; blank lines give `""`. */
  lemma VocabularyEntries(fileText: string)
    ensures |LoadVocabulary(fileText)| ==
              CountChar(fileText, '\n') + (if fileText != [] && fileText[|fileText| - 1] != '\n' then 1 else 0)
    ensures forall i :: 0 <= i < |LoadVocabulary(fileText)| ==>
              LoadVocabulary(fileText)[i] == Trim(Python, FileLines(fileText)[i])
    ensures forall i :: 0 <= i < |LoadVocabulary(fileText)| ==>
              (LoadVocabulary(fileText)[i] == [] <==> AllSpace(Python, FileLines(fileText)[i]))
  {
    FileLinesCount(fileText);
    forall i | 0 <= i < |FileLines(fileText)|
      ensures Trim(Python, FileLines(fileText)[i]) == [] <==> AllSpace(Python, FileLines(fileText)[i])
    {
      TrimShape(Python, FileLines(fileText)[i]);
    }
  }

  /** A dictionary line is well formed exactly when its stripped form has one
      comma; in particular a blank line is not. */
  lemma WellFormedIff(line: string)
    ensures WellFormed(line) <==> CountChar(Trim(Python, line), ',') == 1
    ensures AllSpace(Python, line) ==> !WellFormed(line)
  {
    SplitOnCount(Trim(Python, line), ',');
    TrimShape(Python, line);
  }

  /** What one dictionary line yields, stated on the stripped line itself: an
      entry exactly when it holds one comma, namely the lowercased text before
      that comma and the text after it; otherwise `ValueError` with one field
      more than there are commas. */
  lemma ParseLineMeaning(line: string)
    ensures ParseLine(line).Success? <==> CountChar(Trim(Python, line), ',') == 1
    ensures ParseLine(line).Failure? ==> ParseLine(line).error == ValueError(CountChar(Trim(Python, line), ',') + 1)
    ensures forall k :: 0 <= k < |Trim(Python, line)| && Trim(Python, line)[k] == ','
                        && ',' !in Trim(Python, line)[..k] && ',' !in Trim(Python, line)[k + 1..] ==>
              ParseLine(line) == Success((Lower(Trim(Python, line)[..k]), Trim(Python, line)[k + 1..]))
  {
    var s := Trim(Python, line);
    SplitOnCount(s, ',');
    forall k | 0 <= k < |s| && s[k] == ',' && ',' !in s[..k] && ',' !in s[k + 1..]
      ensures SplitOn(s, ',') == [s[..k], s[k + 1..]]
    {
      SplitAtOnlyComma(s, k);
    }
  }

  lemma SplitAtOnlyComma(s: string, k: nat)
    requires k < |s| && s[k] == ',' && ',' !in s[..k] && ',' !in s[k + 1..]
    ensures SplitOn(s, ',') == [s[..k], s[k + 1..]]
  {
    assert s == s[..k] + [','] + s[k + 1..];
    SplitOnAfterPiece(s[..k], s[k + 1..], ',');
    SplitOnNoSep(s[k + 1..], ',');
  }

  /** Loading parsed lines fails exactly when one of them is an error, and
      then with the first error. */
  lemma {:induction false} LoadFailsIff(rs: seq<Result<(string, string), LoadError>>)
    ensures Load(rs).Failure? <==> exists i :: 0 <= i < |rs| && rs[i].Failure?
    ensures Load(rs).Failure? ==>
              exists i :: 0 <= i < |rs| && rs[i].Failure?
                && (forall j :: 0 <= j < i ==> rs[j].Success?)
                && Load(rs).error == rs[i].error
    decreases |rs|
  {
    if rs != [] {
      var n := |rs| - 1;
      var init := rs[..n];
      LoadFailsIff(init);
      assert forall i :: 0 <= i < n ==> init[i] == rs[i];
      if Load(init).Failure? {
        var i :| 0 <= i < n && init[i].Failure?
                 && (forall j :: 0 <= j < i ==> init[j].Success?)
                 && Load(init).error == init[i].error;
        assert rs[i].Failure?;
      } else if rs[n].Failure? {
        assert forall j :: 0 <= j < n ==> rs[j].Success?;
      } else {
        forall i | 0 <= i < |rs| ensures rs[i].Success? {
          if i < n { assert init[i] == rs[i]; }
        }
      }
    }
  }

  /** Loading fails exactly when some line is malformed, and then with the
      error of the first malformed line: nothing is skipped. */
  lemma DictionaryFailsIff(lines: seq<string>)
    ensures DictionaryOf(lines).Failure? <==> exists i :: 0 <= i < |lines| && !WellFormed(lines[i])
    ensures DictionaryOf(lines).Failure? ==>
              exists i :: 0 <= i < |lines| && !WellFormed(lines[i])
                && (forall j :: 0 <= j < i ==> WellFormed(lines[j]))
                && DictionaryOf(lines).error == ValueError(|Fields(lines[i])|)
  {
    var rs := ParseLines(lines);
    LoadFailsIff(rs);
    if DictionaryOf(lines).Failure? {
      var i :| 0 <= i < |rs| && rs[i].Failure?
               && (forall j :: 0 <= j < i ==> rs[j].Success?)
               && Load(rs).error == rs[i].error;
      assert rs[i] == ParseLine(lines[i]);
      assert forall j :: 0 <= j < i ==> WellFormed(lines[j]) by {
        forall j | 0 <= j < i ensures WellFormed(lines[j]) {
          assert rs[j] == ParseLine(lines[j]);
        }
      }
    } else {
      forall i | 0 <= i < |lines| ensures WellFormed(lines[i]) {
        assert rs[i].Success?;
      }
    }
  }

  /** After a successful load of parsed lines, the keys are exactly the
      entries' keys. */
  lemma {:induction false} LoadKeys(rs: seq<Result<(string, string), LoadError>>)
    requires Load(rs).Success?
    ensures forall i :: 0 <= i < |rs| ==> rs[i].Success? && rs[i].value.0 in Load(rs).value
    ensures forall k :: k in Load(rs).value ==> exists i :: 0 <= i < |rs| && rs[i].Success? && rs[i].value.0 == k
    decreases |rs|
  {
    if rs != [] {
      var n := |rs| - 1;
      var init := rs[..n];
      assert forall i :: 0 <= i < n ==> init[i] == rs[i];
      LoadKeys(init);
    }
  }

  /** After a successful load of parsed lines, each key holds the value of
      the last entry with that key. */
  lemma {:induction false} LoadLastWins(rs: seq<Result<(string, string), LoadError>>)
    requires Load(rs).Success?
    ensures forall i :: 0 <= i < |rs| && rs[i].Success? && LastWithKey(rs, i) ==>
              rs[i].value.0 in Load(rs).value && Load(rs).value[rs[i].value.0] == rs[i].value.1
    decreases |rs|
  {
    if rs != [] {
      var n := |rs| - 1;
      var init := rs[..n];
      assert forall i :: 0 <= i < n ==> init[i] == rs[i];
      LoadLastWins(init);
      forall i | 0 <= i < |rs| && rs[i].Success? && LastWithKey(rs, i)
        ensures rs[i].value.0 in Load(rs).value && Load(rs).value[rs[i].value.0] == rs[i].value.1
      {
        if i < n {
          assert rs[n].value.0 != rs[i].value.0;
          assert LastWithKey(init, i);
        }
      }
    }
  }

  /** No entry after the `i`-th carries the same key. */
  predicate LastWithKey(rs: seq<Result<(string, string), LoadError>>, i: nat)
    requires i < |rs| && rs[i].Success?
  {
    forall j :: i < j < |rs| && rs[j].Success? ==> rs[j].value.0 != rs[i].value.0
  }

  /** After a successful load, the keys are exactly the lowercased first
      fields of the lines, and each key holds the value of the LAST line with
      that key: a later line overwrites an earlier one. */
  lemma DictionaryEntries(lines: seq<string>)
    requires DictionaryOf(lines).Success?
    ensures forall i :: 0 <= i < |lines| ==> WellFormed(lines[i])
    ensures forall i :: 0 <= i < |lines| ==> KeyOf(lines[i]) in DictionaryOf(lines).value
    ensures forall k :: k in DictionaryOf(lines).value ==>
              exists i :: 0 <= i < |lines| && KeyOf(lines[i]) == k
    ensures forall i :: 0 <= i < |lines| && (forall j :: i < j < |lines| ==> KeyOf(lines[j]) != KeyOf(lines[i])) ==>
              DictionaryOf(lines).value[KeyOf(lines[i])] == ValueOf(lines[i])
  {
    DictionaryKeys(lines);
    DictionaryLastWins(lines);
  }

  lemma DictionaryKeys(lines: seq<string>)
    requires DictionaryOf(lines).Success?
    ensures forall i :: 0 <= i < |lines| ==> WellFormed(lines[i]) && KeyOf(lines[i]) in DictionaryOf(lines).value
    ensures forall k :: k in DictionaryOf(lines).value ==>
              exists i :: 0 <= i < |lines| && WellFormed(lines[i]) && KeyOf(lines[i]) == k
  {
    var rs := ParseLines(lines);
    var d := DictionaryOf(lines).value;
    LoadKeys(rs);
    forall i | 0 <= i < |lines|
      ensures WellFormed(lines[i]) && KeyOf(lines[i]) in d
    {
      assert rs[i].Success? && rs[i].value.0 in d;
    }
    forall k | k in d
      ensures exists i :: 0 <= i < |lines| && WellFormed(lines[i]) && KeyOf(lines[i]) == k
    {
      var i :| 0 <= i < |rs| && rs[i].Success? && rs[i].value.0 == k;
      assert KeyOf(lines[i]) == k;
    }
  }

  lemma DictionaryLastWins(lines: seq<string>)
    requires DictionaryOf(lines).Success?
    requires forall i :: 0 <= i < |lines| ==> WellFormed(lines[i])
    ensures forall i :: 0 <= i < |lines| && (forall j :: i < j < |lines| ==> KeyOf(lines[j]) != KeyOf(lines[i])) ==>
              KeyOf(lines[i]) in DictionaryOf(lines).value && DictionaryOf(lines).value[KeyOf(lines[i])] == ValueOf(lines[i])
  {
    var rs := ParseLines(lines);
    var d := DictionaryOf(lines).value;
    LoadLastWins(rs);
    forall i | 0 <= i < |lines| && (forall j :: i < j < |lines| ==> KeyOf(lines[j]) != KeyOf(lines[i]))
      ensures KeyOf(lines[i]) in d && d[KeyOf(lines[i])] == ValueOf(lines[i])
    {
      LastLineWithKey(lines, i);
    }
  }

  lemma LastLineWithKey(lines: seq<string>, i: nat)
    requires i < |lines| && forall j :: 0 <= j < |lines| ==> WellFormed(lines[j])
    requires forall j :: i < j < |lines| ==> KeyOf(lines[j]) != KeyOf(lines[i])
    ensures ParseLines(lines)[i] == Success((KeyOf(lines[i]), ValueOf(lines[i])))
    ensures LastWithKey(ParseLines(lines), i)
  {
    var rs := ParseLines(lines);
    forall j | i < j < |rs| && rs[j].Success?
      ensures rs[j].value.0 != rs[i].value.0
    {
      assert rs[j].value.0 == KeyOf(lines[j]);
    }
  }

  // ---------------------------------------------------------------------------
  // Properties of `translate_sentence`.

  /** When no dictionary value contains whitespace (nor is empty), splitting
      the output gives back exactly one word per input word, in order, each
      translated by itself. */
  predicate ValuesAreWords(t: Translator) {
    forall k :: k in t.wordTranslation ==> IsWord(t.wordTranslation[k])
  }

  lemma TranslatedWordsAreWords(t: Translator, words: seq<string>)
    requires ValuesAreWords(t) && AllWords(words)
    ensures AllWords(t.TranslateWords(words))
  {
  }

  lemma OneOutputWordPerInputWord(t: Translator, sentence: string)
    requires ValuesAreWords(t)
    ensures Words(t.TranslateSentence(sentence)) == t.TranslateWords(Words(sentence))
    ensures |Words(t.TranslateSentence(sentence))| == |Words(sentence)|
  {
    TranslatedWordsAreWords(t, Words(sentence));
    WordsOfJoined(t.TranslateWords(Words(sentence)));
  }

  /** Words absent from the dictionary pass through: a sentence made only of
      them comes back with its whitespace normalised and nothing else changed. */
  lemma {:induction false} UnknownWordsPassThrough(t: Translator, sentence: string)
    requires forall i :: 0 <= i < |Words(sentence)| ==> Lower(Words(sentence)[i]) !in t.wordTranslation
    ensures t.TranslateSentence(sentence) == JoinWith(Words(sentence), " ")
  {
    assert t.TranslateWords(Words(sentence)) == Words(sentence);
  }

  /** The output is joined with single spaces: no whitespace at the ends, no
      runs of whitespace, and blank input gives `""`. */
  lemma OutputSingleSpaced(t: Translator, sentence: string)
    requires ValuesAreWords(t)
    ensures SingleSpaced(t.TranslateSentence(sentence))
    ensures t.TranslateSentence(sentence) == [] <==> AllSpace(Python, sentence)
  {
    TranslatedWordsAreWords(t, Words(sentence));
    JoinedIsSingleSpaced(t.TranslateWords(Words(sentence)));
    WordsEmpty(sentence);
    var out := t.TranslateWords(Words(sentence));
    if |out| > 0 {
      JoinNonEmpty(out);
    }
  }

  lemma {:induction false} JoinNonEmpty(ws: seq<string>)
    requires |ws| > 0 && AllWords(ws)
    ensures JoinWith(ws, " ") != []
  {
    if |ws| > 1 {
      JoinNonEmpty(ws[1..]);
    }
  }

  /** Whatever the dictionary, blank input translates to `""`. */
  lemma BlankSentence(t: Translator, sentence: string)
    requires AllSpace(Python, sentence)
    ensures t.TranslateSentence(sentence) == []
  {
    WordsEmpty(sentence);
  }

  /** With an empty dictionary the translator only normalises whitespace, so
      translating its own output changes nothing. */
  lemma EmptyDictionary(vocab: seq<string>, sentence: string)
    ensures Translator(vocab, map[]).TranslateSentence(sentence) == JoinWith(Words(sentence), " ")
    ensures Translator(vocab, map[]).TranslateSentence(Translator(vocab, map[]).TranslateSentence(sentence))
            == Translator(vocab, map[]).TranslateSentence(sentence)
  {
    var t := Translator(vocab, map[]);
    UnknownWordsPassThrough(t, sentence);
    WordsOfJoined(Words(sentence));
    UnknownWordsPassThrough(t, JoinWith(Words(sentence), " "));
  }

  /** Two translators with the same dictionary translate alike: the loaded
      vocabulary plays no part in translation. */
  lemma VocabularyIrrelevant(t1: Translator, t2: Translator, sentence: string)
    requires t1.wordTranslation == t2.wordTranslation
    ensures t1.TranslateSentence(sentence) == t2.TranslateSentence(sentence)
  {
    assert t1.TranslateWords(Words(sentence)) == t2.TranslateWords(Words(sentence));
  }
}
