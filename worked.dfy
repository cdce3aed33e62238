/**
 * The example in the doc comment of `unify_context_groups`, worked out on
 * the model: `{"Red X": [r], "Blue X": [b]}` becomes `{"Red X": [r], "X": [b]}`
 * after one pass, and the loop of `process_pdf_folder` ends with `{"X": [b, r]}`.
 */
module Worked {
  import opened Wrappers
  import opened Text
  import opened CommonWords
  import opened Groups
  import opened Unify
  import opened Organize

  /** Two words separated by one space split into those two words. */
  lemma SplitTwo(w1: string, w2: string)
    requires IsWord(w1) && IsWord(w2)
    ensures Split(w1 + " " + w2) == [w1, w2]
  {
    assert w1 + " " + w2 == w1 + (" " + w2);
    SplitWordThen(w1, " " + w2);
    SplitSpace(w2);
    assert w2 + [] == w2;
    SplitWordThen(w2, []);
  }

  /** A label that lower-cases to two words separated by a space holds those two words. */
  lemma WordsOfTwo(s: string, w1: string, w2: string)
    requires IsWord(w1) && IsWord(w2) && Lower(s) == w1 + " " + w2
    ensures WordSet(s) == {w1, w2}
  {
    SplitTwo(w1, w2);
  }

  /** A label that lower-cases to one word holds that word. */
  lemma WordsOfOne(s: string, w: string)
    requires IsWord(w) && Lower(s) == w
    ensures WordSet(s) == {w}
  {
    assert w + [] == w;
    SplitWordThen(w, []);
  }

  lemma LowerConcat(a: string, b: string)
    ensures Lower(a + b) == Lower(a) + Lower(b)
  {
  }

  /** A word followed by " X" holds that word, lower-cased, and "x". */
  lemma WordsOfColoured(colour: string, w: string)
    requires IsWord(w) && Lower(colour) == w
    ensures WordSet(colour + " X") == {w, "x"}
  {
    LowerConcat(colour, " X");
    assert Lower(" X") == " " + "x";
    assert w + (" " + "x") == w + " " + "x";
    WordsOfTwo(colour + " X", w, "x");
  }

  /** The words of the two labels of the doc-comment example. */
  lemma WordsOfLabels()
    ensures WordSet("Red X") == {"red", "x"}
    ensures WordSet("Blue X") == {"blue", "x"}
  {
    assert Lower("Red") == "red" && "Red" + " X" == "Red X";
    WordsOfColoured("Red", "red");
    assert Lower("Blue") == "blue" && "Blue" + " X" == "Blue X";
    WordsOfColoured("Blue", "blue");
  }

  /** "X" and "x" both hold the single word "x". */
  lemma WordsOfNames()
    ensures WordSet("X") == {"x"} && WordSet("x") == {"x"}
  {
    assert Lower("X") == "x";
    WordsOfOne("X", "x");
    WordsOfOne("x", "x");
  }

  lemma NameX()
    ensures FindCommonWords("X", "X") == Some("X")
  {
    WordsOfNames();
    SortedListingUnique(SharedSorted("X", "X"), ["x"]);
    assert Capitalize("x") == "X";
  }

  lemma CommonNames()
    ensures SharesWord("Blue X", "Red X") && FindCommonWords("Blue X", "Red X") == Some("X")
    ensures SharesWord("Red X", "X") && FindCommonWords("Red X", "X") == Some("X")
  {
    WordsOfLabels();
    WordsOfNames();
    NameX();
    assert "x" in WordSet("Blue X") * WordSet("Red X");
    assert "x" in WordSet("Red X") * WordSet("X");
    CommonWordsDetermined("Blue X", "Red X", "X", "X");
    CommonWordsDetermined("Red X", "X", "X", "X");
  }

  // ---------------------------------------------------------------------------
  // Single steps of a pass

  lemma SortTwo(e1: Entry, e2: Entry)
    ensures |e1.0| <= |e2.0| ==> SortByLength([e1, e2]) == [e1, e2]
    ensures |e1.0| > |e2.0| ==> SortByLength([e1, e2]) == [e2, e1]
  {
    assert [e1, e2][1..] == [e2];
    assert [e2][1..] == [];
    assert SortByLength([e2]) == [e2];
  }

  lemma PlaceAllTwo(e1: Entry, e2: Entry)
    ensures PlaceAll([], [e1, e2]) == Place(Place([], e1), e2)
  {
    assert [e1, e2][1..] == [e2];
    assert [e2][1..] == [];
    var u := Place([], e1);
    assert PlaceAll(u, [e2]) == PlaceAll(Place(u, e2), []);
  }

  lemma PlaceFirst(e: Entry)
    ensures Place([], e) == [e]
  {
    assert FirstSharing([], e.0) == None;
    assert e.0 !in Keys([]);
  }

  /** Extending the list of a present key appends to that list in place. */
  lemma ExtendAt(g: Groups, i: nat, v: seq<Path>)
    requires UniqueKeys(g) && i < |g|
    ensures Extend(g, g[i].0, v) == g[i := (g[i].0, g[i].1 + v)]
  {
    LookupAt(g, i);
  }

  lemma ExtendSingle(k: Label, x: Path, y: Path)
    ensures Extend([(k, [x])], k, [y]) == [(k, [x, y])]
  {
    ExtendAt([(k, [x])], 0, [y]);
    assert [x] + [y] == [x, y];
  }

  lemma PlaceMerges(u: Groups, e: Entry, name: Label)
    requires |u| == 1 && SharesWord(e.0, u[0].0)
    requires FindCommonWords(e.0, u[0].0) == Some(name)
    ensures Place(u, e) == Extend(u, name, e.1)
  {
    assert FirstSharing(u, e.0) == Some(0);
  }

  /** A pass over two items, the second of which shares a word with the first. */
  lemma PassMerging(g: Groups, e1: Entry, e2: Entry, name: Label)
    requires SortByLength(g) == [e1, e2]
    requires SharesWord(e2.0, e1.0) && FindCommonWords(e2.0, e1.0) == Some(name)
    ensures Pass(g) == Extend([e1], name, e2.1)
  {
    PlaceAllTwo(e1, e2);
    PlaceFirst(e1);
    PlaceMerges([e1], e2, name);
  }

  /**
   * The shape of the example, for any labels: `p` and `q` share a word whose
   * name `n` is shorter than both, and `p` is placed first.
   */
  predicate ExampleLabels(p: Label, q: Label, n: Label) {
    |n| < |p| <= |q| && p != q
    && SharesWord(q, p) && FindCommonWords(q, p) == Some(n)
    && SharesWord(p, n) && FindCommonWords(p, n) == Some(n)
  }

  /** A single pass only merges `q` into a new `n`, because `p` is placed first. */
  lemma FirstPass(p: Label, q: Label, n: Label, r: Path, b: Path)
    requires ExampleLabels(p, q, n)
    ensures Pass([(p, [r]), (q, [b])]) == [(p, [r]), (n, [b])]
  {
    SortTwo((p, [r]), (q, [b]));
    PassMerging([(p, [r]), (q, [b])], (p, [r]), (q, [b]), n);
    assert n !in Keys([(p, [r])]);
  }

  /** The second pass merges `p` into `n`. */
  lemma SecondPass(p: Label, q: Label, n: Label, r: Path, b: Path)
    requires ExampleLabels(p, q, n)
    ensures Pass([(p, [r]), (n, [b])]) == [(n, [b, r])]
  {
    SortTwo((p, [r]), (n, [b]));
    PassMerging([(p, [r]), (n, [b])], (n, [b]), (p, [r]), n);
    ExtendSingle(n, b, r);
  }

  /** A one-item dictionary is left as it is. */
  lemma SinglePass(e: Entry)
    ensures Pass([e]) == [e]
  {
    assert [e][1..] == [];
    assert SortByLength([e]) == [e];
    PlaceFirst(e);
    assert PlaceAll([], [e]) == PlaceAll([e], []);
  }

  lemma KeysOfTwo(e1: Entry, e2: Entry)
    ensures Keys([e1, e2]) == [e1.0, e2.0]
  {
  }

  /** A dictionary holding a key that `g` lacks is not equal to `g`. */
  lemma NewKeyChanges(g: Groups, h: Groups, i: nat)
    requires i < |h| && h[i].0 !in Keys(g)
    ensures !DictEqual(h, g)
  {
    assert Lookup(g, h[i].0) == None;
  }

  /** A pass that changes the dictionary is followed by another. */
  lemma UnifiedMoves(g: Groups)
    requires UniqueKeys(g) && !DictEqual(Pass(g), g)
    ensures UniqueKeys(Pass(g)) && Unified(g) == Unified(Pass(g))
  {
    PassKeepsFiles(g);
  }

  /** A one-item dictionary is where the loop stops. */
  lemma UnifiedSingle(e: Entry)
    ensures Unified([e]) == [e]
  {
    SinglePass(e);
    LookupAt([e], 0);
    assert DictEqual(Pass([e]), [e]);
  }

  /** A first pass that changes the dictionary and a second that leaves one item: the loop ends there. */
  lemma UnifiedTwoPasses(g0: Groups, g1: Groups, e: Entry)
    requires UniqueKeys(g0) && Pass(g0) == g1 && !DictEqual(g1, g0)
    requires |g1| == 2 && Pass(g1) == [e]
    ensures Unified(g0) == [e]
  {
    UnifiedMoves(g0);
    UnifiedMoves(g1);
    UnifiedSingle(e);
  }

  /** The first pass of the example adds a key, so the loop goes on. */
  lemma FirstPassMoves(p: Label, q: Label, n: Label, r: Path, b: Path)
    requires p != q && n != p && n != q
    ensures UniqueKeys([(p, [r]), (q, [b])])
    ensures !DictEqual([(p, [r]), (n, [b])], [(p, [r]), (q, [b])])
  {
    KeysOfTwo((p, [r]), (q, [b]));
    NewKeyChanges([(p, [r]), (q, [b])], [(p, [r]), (n, [b])], 1);
  }

  /** The loop runs three passes and ends with both files under `n`, `q`'s file first. */
  lemma UnifiedExample(p: Label, q: Label, n: Label, r: Path, b: Path)
    requires ExampleLabels(p, q, n)
    ensures Unified([(p, [r]), (q, [b])]) == [(n, [b, r])]
  {
    FirstPass(p, q, n, r, b);
    SecondPass(p, q, n, r, b);
    FirstPassMoves(p, q, n, r, b);
    UnifiedTwoPasses([(p, [r]), (q, [b])], [(p, [r]), (n, [b])], (n, [b, r]));
  }

  /** The example itself: one pass gives `{"Red X": [r], "X": [b]}`, the loop `{"X": [b, r]}`. */
  lemma DocExample(r: Path, b: Path)
    ensures Pass([("Red X", [r]), ("Blue X", [b])]) == [("Red X", [r]), ("X", [b])]
    ensures Unified([("Red X", [r]), ("Blue X", [b])]) == [("X", [b, r])]
  {
    CommonNames();
    FirstPass("Red X", "Blue X", "X", r, b);
    UnifiedExample("Red X", "Blue X", "X", r, b);
  }

  // ---------------------------------------------------------------------------
  // A fixpoint in which two labels still share a word

  /** Every dictionary is equal to itself. */
  lemma DictEqualSelf(g: Groups)
    requires UniqueKeys(g)
    ensures DictEqual(g, g)
  {
    forall i | 0 <= i < |g|
      ensures Lookup(g, g[i].0) == Some(g[i].1)
    {
      LookupAt(g, i);
    }
  }

  /**
   * When the common name of `c` with `a` is `c` itself and `a` is placed
   * first, a pass re-creates the dictionary, so the loop stops with two
   * labels that share a word.
   */
  lemma StableSharing(a: Label, c: Label, p: Path, q: Path)
    requires |a| <= |c| && a != c
    requires SharesWord(c, a) && FindCommonWords(c, a) == Some(c)
    ensures Pass([(a, [p]), (c, [q])]) == [(a, [p]), (c, [q])]
    ensures Unified([(a, [p]), (c, [q])]) == [(a, [p]), (c, [q])]
  {
    var g := [(a, [p]), (c, [q])];
    SortTwo((a, [p]), (c, [q]));
    PassMerging(g, (a, [p]), (c, [q]), c);
    assert c !in Keys([(a, [p])]);
    KeysOfTwo((a, [p]), (c, [q]));
    DictEqualSelf(g);
  }

  /** `{"x": [p], "X": [q]}` is where the loop stops, though both labels hold the word "x". */
  lemma StableSharingExample(p: Path, q: Path)
    ensures SharesWord("X", "x")
    ensures Unified([("x", [p]), ("X", [q])]) == [("x", [p]), ("X", [q])]
  {
    WordsOfNames();
    NameX();
    assert "x" in WordSet("X") * WordSet("x");
    CommonWordsDetermined("X", "x", "X", "X");
    StableSharing("x", "X", p, q);
  }
}
