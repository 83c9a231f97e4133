/** `client/src/components/FileSpeech/GuideModal.jsx`: the search box over
    the list of words the speech model knows. */
module GuideModal {
  import opened Strings
  import opened Seqs

  /** `word.toLowerCase().includes(searchTerm.toLowerCase())`. */
  predicate Matches(word: string, searchTerm: string) {
    Contains(Lower(word), Lower(searchTerm))
  }

  /** `filteredWords`. */
  function FilteredWords(supportedWords: seq<string>, searchTerm: string): seq<string> {
    Filter(supportedWords, (w: string) => Matches(w, searchTerm))
  }

  /** The filter keeps exactly the matching words, each as often as it is
      listed, in their order. */
  lemma FilteredExactly(supportedWords: seq<string>, searchTerm: string, w: string)
    ensures w in FilteredWords(supportedWords, searchTerm) <==> w in supportedWords && Matches(w, searchTerm)
    ensures IsSubsequence(FilteredWords(supportedWords, searchTerm), supportedWords)
    ensures multiset(FilteredWords(supportedWords, searchTerm))[w]
            == if Matches(w, searchTerm) then multiset(supportedWords)[w] else 0
  {
    FilterIsSubsequence(supportedWords, (w: string) => Matches(w, searchTerm));
    FilterCounts(supportedWords, (w: string) => Matches(w, searchTerm));
    var r := FilteredWords(supportedWords, searchTerm);
    if w in r {
      var i :| 0 <= i < |r| && r[i] == w;
    }
    if w in supportedWords && Matches(w, searchTerm) {
      var i :| 0 <= i < |supportedWords| && supportedWords[i] == w;
    }
  }

  /** An empty search shows every word. */
  lemma EmptySearchShowsAll(supportedWords: seq<string>)
    ensures FilteredWords(supportedWords, "") == supportedWords
  {
    forall i | 0 <= i < |supportedWords|
      ensures Matches(supportedWords[i], "")
    {
      ContainsEmpty(Lower(supportedWords[i]));
    }
    FilterAll(supportedWords, (w: string) => Matches(w, ""));
  }

  /** The search ignores ASCII case on both sides. */
  lemma SearchIgnoresCase(supportedWords: seq<string>, searchTerm: string)
    ensures FilteredWords(supportedWords, Lower(searchTerm)) == FilteredWords(supportedWords, searchTerm)
  {
    assert Lower(Lower(searchTerm)) == Lower(searchTerm);
    FilterSame(supportedWords, (w: string) => Matches(w, Lower(searchTerm)), (w: string) => Matches(w, searchTerm));
  }

  /** What the modal shows: the word count of the whole list, whatever the
      search, and one chip per listed word that matches the search. */
  datatype Guide = Guide(count: nat, chips: seq<string>)

  function Show(supportedWords: seq<string>, searchTerm: string): (g: Guide)
    ensures g.count == |supportedWords|
    ensures |g.chips| <= g.count
    ensures forall w :: w in g.chips <==> w in supportedWords && Matches(w, searchTerm)
    ensures forall w :: multiset(g.chips)[w] == if Matches(w, searchTerm) then multiset(supportedWords)[w] else 0
  {
    var chips := FilteredWords(supportedWords, searchTerm);
    FilterIsSubsequence(supportedWords, (w: string) => Matches(w, searchTerm));
    forall w ensures (w in chips <==> w in supportedWords && Matches(w, searchTerm))
                     && multiset(chips)[w] == if Matches(w, searchTerm) then multiset(supportedWords)[w] else 0 {
      FilteredExactly(supportedWords, searchTerm, w);
    }
    Guide(|supportedWords|, chips)
  }

  /** The count does not follow the search. */
  lemma CountIgnoresSearch(supportedWords: seq<string>, t1: string, t2: string)
    ensures Show(supportedWords, t1).count == Show(supportedWords, t2).count
  {
  }
}
