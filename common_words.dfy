/**
 * `find_common_words` (FileSorter.py:50-59): the words two labels share,
 * compared case-insensitively, as one capitalised name.
 */
module CommonWords {
  import opened Wrappers
  import opened Text

  /** `s.lower().split()`. */
  function Words(s: string): (ws: seq<string>)
    ensures forall w <- ws :: IsWord(w) && Lowered(w)
  {
    LowerIsLowered(s);
    Split(Lower(s))
  }

  /** `set(s.lower().split())`. */
  function WordSet(s: string): set<string> {
    Elems(Words(s))
  }

  /** The elements of `ws` that lie in `other`, in order. */
  function KeepIn(ws: seq<string>, other: set<string>): (r: seq<string>)
    ensures Elems(r) == Elems(ws) * other
    ensures forall w <- r :: w in ws
  {
    if ws == [] then []
    else
      var rest := KeepIn(ws[1..], other);
      assert Elems(ws) == {ws[0]} + Elems(ws[1..]);
      if ws[0] in other then
        assert Elems([ws[0]] + rest) == {ws[0]} + Elems(rest);
        [ws[0]] + rest
      else rest
  }

  /** `ws` lists the set `s` in ascending order. */
  ghost predicate Listing(ws: seq<string>, s: set<string>) {
    StrictlySorted(ws) && Elems(ws) == s
  }

  /** `sorted(words1.intersection(words2))`. */
  function SharedSorted(a: string, b: string): (ws: seq<string>)
    ensures Listing(ws, WordSet(a) * WordSet(b))
    ensures forall w <- ws :: IsWord(w) && Lowered(w)
  {
    var ws := SortUnique(KeepIn(Words(a), WordSet(b)));
    assert forall w <- ws :: w in Words(a) by {
      forall w <- ws ensures w in Words(a) {
        assert w in Elems(ws);
      }
    }
    ws
  }

  /**
   * `find_common_words(a, b)`: `None` when the lower-cased word sets of `a`
   * and `b` are disjoint, and otherwise their common words in ascending
   * order, joined by single spaces, with the first letter capitalised.
   */
  function FindCommonWords(a: string, b: string): (r: Option<string>)
    ensures r.None? <==> WordSet(a) * WordSet(b) == {}
  {
    var common := SharedSorted(a, b);
    if common == [] then None
    else
      assert common[0] in Elems(common);
      Some(Capitalize(JoinWords(common)))
  }

  /** `k` already has the form `find_common_words` gives a name: it is its own common name with itself. */
  predicate Canonical(k: string) {
    FindCommonWords(k, k) == Some(k)
  }

  // ---------------------------------------------------------------------------
  // Properties

  /** A common name is the shared words, in ascending order, joined by spaces and capitalised. */
  lemma CommonNameListing(a: string, b: string)
    requires FindCommonWords(a, b).Some?
    ensures exists ws :: Listing(ws, WordSet(a) * WordSet(b)) && FindCommonWords(a, b).value == Capitalize(JoinWords(ws))
  {
    assert Listing(SharedSorted(a, b), WordSet(a) * WordSet(b));
  }

  /** The result depends only on the set of shared words. */
  lemma CommonWordsDetermined(a: string, b: string, c: string, d: string)
    requires WordSet(a) * WordSet(b) == WordSet(c) * WordSet(d)
    ensures FindCommonWords(a, b) == FindCommonWords(c, d)
  {
    SortedListingUnique(SharedSorted(a, b), SharedSorted(c, d));
  }

  /** `find_common_words` is symmetric. */
  lemma CommonWordsSymmetric(a: string, b: string)
    ensures FindCommonWords(a, b) == FindCommonWords(b, a)
  {
    CommonWordsDetermined(a, b, b, a);
  }

  /** A label with at least one word shares a name with itself. */
  lemma CommonWordsSelf(k: string)
    ensures FindCommonWords(k, k).Some? <==> WordSet(k) != {}
  {
  }

  /** The words of a common name are exactly the words the two labels share. */
  lemma CommonNameWords(a: string, b: string)
    requires FindCommonWords(a, b).Some?
    ensures WordSet(FindCommonWords(a, b).value) == WordSet(a) * WordSet(b)
  {
    var ws := SharedSorted(a, b);
    var j := JoinWords(ws);
    var c := FindCommonWords(a, b).value;
    assert c == Capitalize(j);
    LowerCapitalize(j);
    JoinLowered(ws);
    LowerOfLowered(j);
    SplitJoin(ws);
    assert Words(c) == ws;
  }

  /** Every common name is canonical, and is not empty. */
  lemma CommonNameCanonical(a: string, b: string)
    requires FindCommonWords(a, b).Some?
    ensures Canonical(FindCommonWords(a, b).value)
    ensures FindCommonWords(a, b).value != []
  {
    var c := FindCommonWords(a, b).value;
    CommonNameWords(a, b);
    CommonWordsDetermined(c, c, a, b);
  }
}
