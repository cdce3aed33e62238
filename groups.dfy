/**
 * The label-to-files dictionary of `process_pdf_folder` and
 * `unify_context_groups`. A Python dict keeps its keys in insertion order, and
 * that order decides which key is "first" during unification, so a dictionary
 * is an association list with unique keys rather than a `map`.
 */
module Groups {
  import opened Wrappers
  import opened Text

  type Label = string

  /** A file, known only by its path. */
  type Path = string

  /** One dictionary item: a label and its files in the order they were added. */
  type Entry = (Label, seq<Path>)

  /** A dictionary from labels to file lists, in insertion order. */
  type Groups = seq<Entry>

  function Keys(g: Groups): seq<Label> {
    seq(|g|, i requires 0 <= i < |g| => g[i].0)
  }

  /** The invariant of every Python dict: no key occurs twice. */
  predicate UniqueKeys(g: Groups) {
    forall i, j :: 0 <= i < j < |g| ==> g[i].0 != g[j].0
  }

  /** The first position of `k` in `ks`, if any. */
  function IndexIn(ks: seq<Label>, k: Label): (r: Option<nat>)
    ensures r.Some? ==> r.value < |ks| && ks[r.value] == k && k !in ks[..r.value]
    ensures r.None? <==> k !in ks
  {
    if ks == [] then None
    else if ks[0] == k then Some(0)
    else match IndexIn(ks[1..], k)
      case Some(i) =>
        assert ks[..i + 1] == [ks[0]] + ks[1..][..i];
        Some(i + 1)
      case None => None
  }

  lemma IndexInIs(ks: seq<Label>, k: Label, i: nat)
    requires i < |ks| && ks[i] == k && k !in ks[..i]
    ensures IndexIn(ks, k) == Some(i)
  {
  }

  lemma IndexInAppend(ks: seq<Label>, k: Label, k': Label)
    requires k !in ks && k' != k
    ensures IndexIn(ks + [k], k') == IndexIn(ks, k')
  {
    match IndexIn(ks, k')
    case Some(i) =>
      assert (ks + [k])[..i] == ks[..i];
      IndexInIs(ks + [k], k', i);
    case None =>
  }

  /** The position of key `k`, if present. */
  function IndexOf(g: Groups, k: Label): (r: Option<nat>)
    ensures r.Some? ==> r.value < |g| && g[r.value].0 == k
    ensures r.None? <==> k !in Keys(g)
  {
    IndexIn(Keys(g), k)
  }

  /** `d.get(k)`. */
  function Lookup(g: Groups, k: Label): Option<seq<Path>> {
    match IndexOf(g, k)
    case Some(i) => Some(g[i].1)
    case None => None
  }

  /** `d.get(k, [])`. */
  function ListOrEmpty(g: Groups, k: Label): seq<Path> {
    match Lookup(g, k)
    case Some(files) => files
    case None => []
  }

  /** Every file of every list, list after list. */
  function AllFiles(g: Groups): seq<Path> {
    if g == [] then [] else g[0].1 + AllFiles(g[1..])
  }

  // ---------------------------------------------------------------------------
  // The two updates the source makes

  /** `d[k] = v`: an existing key keeps its place and gets the new list; a new key is appended. */
  function Put(g: Groups, k: Label, v: seq<Path>): (r: Groups)
    ensures k !in Keys(g) ==> r == g + [(k, v)]
    ensures k in Keys(g) ==> Keys(r) == Keys(g)
    ensures Lookup(r, k) == Some(v)
    ensures forall k' :: k' != k ==> Lookup(r, k') == Lookup(g, k')
    ensures UniqueKeys(g) ==> UniqueKeys(r)
  {
    match IndexOf(g, k)
    case Some(i) =>
      var r := g[i := (k, v)];
      assert Keys(r) == Keys(g);
      UniqueUpdate(g, i, v);
      r
    case None =>
      var r := g + [(k, v)];
      assert Keys(r) == Keys(g) + [k];
      assert Keys(r)[..|g|] == Keys(g);
      IndexInIs(Keys(r), k, |g|);
      forall k' | k' != k ensures IndexOf(r, k') == IndexOf(g, k') {
        IndexInAppend(Keys(g), k, k');
      }
      UniqueAppend(g, (k, v));
      r
  }

  /** `d.setdefault(k, []).extend(v)`: appends `v` to the list of `k`, creating it at the end if absent. */
  function Extend(g: Groups, k: Label, v: seq<Path>): (r: Groups)
    ensures k !in Keys(g) ==> r == g + [(k, v)]
    ensures k in Keys(g) ==> Keys(r) == Keys(g)
    ensures Lookup(r, k) == Some(ListOrEmpty(g, k) + v)
    ensures forall k' :: k' != k ==> Lookup(r, k') == Lookup(g, k')
    ensures UniqueKeys(g) ==> UniqueKeys(r)
  {
    match IndexOf(g, k)
    case Some(i) =>
      var r := g[i := (k, g[i].1 + v)];
      assert Keys(r) == Keys(g);
      assert IndexOf(r, k) == Some(i);
      assert ListOrEmpty(g, k) == g[i].1;
      UniqueUpdate(g, i, g[i].1 + v);
      r
    case None =>
      var r := g + [(k, v)];
      assert Keys(r) == Keys(g) + [k];
      assert Keys(r)[..|g|] == Keys(g);
      IndexInIs(Keys(r), k, |g|);
      assert ListOrEmpty(g, k) + v == v;
      forall k' | k' != k ensures IndexOf(r, k') == IndexOf(g, k') {
        IndexInAppend(Keys(g), k, k');
      }
      UniqueAppend(g, (k, v));
      r
  }

  /** Extending a list adds exactly the new files. */
  lemma ExtendFiles(g: Groups, k: Label, v: seq<Path>)
    ensures multiset(AllFiles(Extend(g, k, v))) == multiset(AllFiles(g)) + multiset(v)
  {
    match IndexOf(g, k)
    case Some(i) =>
      AllFilesUpdate(g, i, v);
    case None =>
      AllFilesAppend(g, (k, v));
  }

  lemma UniqueUpdate(g: Groups, i: nat, v: seq<Path>)
    requires i < |g|
    ensures UniqueKeys(g) ==> UniqueKeys(g[i := (g[i].0, v)])
  {
    assert forall j :: 0 <= j < |g| ==> g[i := (g[i].0, v)][j].0 == g[j].0;
  }

  lemma UniqueAppend(g: Groups, e: Entry)
    requires e.0 !in Keys(g)
    ensures UniqueKeys(g) ==> UniqueKeys(g + [e])
  {
    assert forall j :: 0 <= j < |g| ==> Keys(g)[j] == g[j].0;
  }

  lemma UniqueCons(e: Entry, g: Groups)
    requires e.0 !in Keys(g)
    ensures UniqueKeys(g) ==> UniqueKeys([e] + g)
  {
    assert forall j :: 0 <= j < |g| ==> Keys(g)[j] == g[j].0;
  }

  lemma UniqueTail(g: Groups)
    requires g != [] && UniqueKeys(g)
    ensures UniqueKeys(g[1..]) && g[0].0 !in Keys(g[1..])
  {
    assert forall j :: 0 <= j < |g| - 1 ==> Keys(g[1..])[j] == g[j + 1].0;
  }

  lemma {:induction false} AllFilesAppend(g: Groups, e: Entry)
    ensures AllFiles(g + [e]) == AllFiles(g) + e.1
  {
    if g != [] {
      assert (g + [e])[1..] == g[1..] + [e];
      AllFilesAppend(g[1..], e);
    }
  }

  lemma {:induction false} AllFilesUpdate(g: Groups, i: nat, v: seq<Path>)
    requires i < |g|
    ensures multiset(AllFiles(g[i := (g[i].0, g[i].1 + v)])) == multiset(AllFiles(g)) + multiset(v)
  {
    if i > 0 {
      UpdateTail(g, i, (g[i].0, g[i].1 + v));
      AllFilesUpdate(g[1..], i - 1, v);
    }
  }

  lemma UpdateTail(g: Groups, i: nat, x: Entry)
    requires 0 < i < |g|
    ensures g[i := x][1..] == g[1..][i - 1 := x]
  {
  }

  /** No list is empty: every bucket is created together with its first file. */
  predicate NonEmptyLists(g: Groups) {
    forall i :: 0 <= i < |g| ==> g[i].1 != []
  }

  lemma PutNonEmpty(g: Groups, k: Label, v: seq<Path>)
    requires NonEmptyLists(g) && v != []
    ensures NonEmptyLists(Put(g, k, v))
  {
  }

  lemma ExtendNonEmpty(g: Groups, k: Label, v: seq<Path>)
    requires NonEmptyLists(g) && v != []
    ensures NonEmptyLists(Extend(g, k, v))
  {
  }

  // ---------------------------------------------------------------------------
  // Dictionary equality

  /** Python's `a == b` on two dicts: the same keys, each with the same list, in any key order. */
  ghost predicate SameMapping(a: Groups, b: Groups) {
    forall k :: Lookup(a, k) == Lookup(b, k)
  }

  /** The comparison `new_groups == context_groups` as it can be computed. */
  predicate DictEqual(a: Groups, b: Groups) {
    |a| == |b| && forall i :: 0 <= i < |a| ==> Lookup(b, a[i].0) == Some(a[i].1)
  }

  lemma LookupAt(g: Groups, i: nat)
    requires UniqueKeys(g) && i < |g|
    ensures Lookup(g, g[i].0) == Some(g[i].1)
  {
    assert g[i].0 !in Keys(g)[..i];
    IndexInIs(Keys(g), g[i].0, i);
  }

  lemma LookupSomeIffKey(g: Groups, k: Label)
    ensures Lookup(g, k).Some? <==> k in Keys(g)
  {
  }

  lemma {:induction false} KeySetSize(g: Groups)
    requires UniqueKeys(g)
    ensures |Elems(Keys(g))| == |g|
  {
    if g != [] {
      assert Keys(g) == [g[0].0] + Keys(g[1..]);
      assert Elems(Keys(g)) == {g[0].0} + Elems(Keys(g[1..]));
      KeySetSize(g[1..]);
    }
  }

  /** The computed comparison is dictionary equality, in both directions. */
  lemma DictEqualIsSameMapping(a: Groups, b: Groups)
    requires UniqueKeys(a) && UniqueKeys(b)
    ensures DictEqual(a, b) <==> SameMapping(a, b)
  {
    if DictEqual(a, b) {
      DictEqualSameKeys(a, b);
      forall k ensures Lookup(a, k) == Lookup(b, k) {
        LookupSomeIffKey(a, k);
        LookupSomeIffKey(b, k);
        if k in Keys(a) {
          var i :| 0 <= i < |a| && Keys(a)[i] == k;
          assert a[i].0 == k;
          LookupAt(a, i);
        } else {
          assert k !in Elems(Keys(a));
        }
      }
    }
    if SameMapping(a, b) {
      SameMappingSameSize(a, b);
      forall i | 0 <= i < |a| ensures Lookup(b, a[i].0) == Some(a[i].1) {
        LookupAt(a, i);
      }
    }
  }

  /** Equal by the computed comparison: the same key set. */
  lemma DictEqualSameKeys(a: Groups, b: Groups)
    requires UniqueKeys(a) && UniqueKeys(b) && DictEqual(a, b)
    ensures Elems(Keys(a)) == Elems(Keys(b))
  {
    KeySetSize(a);
    KeySetSize(b);
    assert Elems(Keys(a)) <= Elems(Keys(b)) by {
      forall k | k in Elems(Keys(a)) ensures k in Elems(Keys(b)) {
        var i :| 0 <= i < |a| && Keys(a)[i] == k;
        LookupSomeIffKey(b, k);
      }
    }
    assert |Elems(Keys(b)) - Elems(Keys(a))| == 0;
  }

  /** Equal as dictionaries: as many entries on each side. */
  lemma SameMappingSameSize(a: Groups, b: Groups)
    requires UniqueKeys(a) && UniqueKeys(b) && SameMapping(a, b)
    ensures |a| == |b|
  {
    forall k ensures k in Elems(Keys(a)) <==> k in Elems(Keys(b)) {
      LookupSomeIffKey(a, k);
      LookupSomeIffKey(b, k);
      assert Lookup(a, k) == Lookup(b, k);
    }
    assert Elems(Keys(a)) == Elems(Keys(b));
    KeySetSize(a);
    KeySetSize(b);
  }

  // ---------------------------------------------------------------------------
  // sorted(keys, key=len)

  /** Label lengths never decrease along `g`. */
  predicate ByLength(g: Groups) {
    forall i, j :: 0 <= i < j < |g| ==> |g[i].0| <= |g[j].0|
  }

  /** The items whose label has `n` characters, in order. */
  function OfLength(g: Groups, n: nat): Groups {
    if g == [] then []
    else (if |g[0].0| == n then [g[0]] else []) + OfLength(g[1..], n)
  }

  lemma ByLengthCons(x: Entry, t: Groups)
    requires ByLength(t)
    requires forall j :: 0 <= j < |t| ==> |x.0| <= |t[j].0|
    ensures ByLength([x] + t)
  {
    forall i, j | 0 <= i < j < |t| + 1 ensures |([x] + t)[i].0| <= |([x] + t)[j].0| {
      assert ([x] + t)[j] == t[j - 1];
      if i > 0 {
        assert ([x] + t)[i] == t[i - 1];
      }
    }
  }

  /** Puts `e` before the first item whose label is at least as long. */
  function InsertByLength(e: Entry, s: Groups): (r: Groups)
    requires ByLength(s)
    ensures ByLength(r)
    ensures multiset(r) == multiset(s) + multiset{e}
  {
    if s == [] || |e.0| <= |s[0].0| then
      ByLengthCons(e, s);
      [e] + s
    else
      var t := InsertByLength(e, s[1..]);
      InsertedAfter(e, s, t);
      ByLengthCons(s[0], t);
      MultisetCons(s);
      MultisetCons([s[0]] + t);
      [s[0]] + t
  }

  /** A group splits into its first item and the rest. */
  lemma MultisetCons(s: Groups)
    requires s != []
    ensures multiset(s) == multiset{s[0]} + multiset(s[1..])
  {
    assert s == [s[0]] + s[1..];
  }

  /** What is inserted into the tail of a sorted list comes after its head. */
  lemma InsertedAfter(e: Entry, s: Groups, t: Groups)
    requires ByLength(s) && s != [] && |e.0| > |s[0].0|
    requires multiset(t) == multiset(s[1..]) + multiset{e}
    ensures forall j :: 0 <= j < |t| ==> |s[0].0| <= |t[j].0|
  {
    forall j | 0 <= j < |t| ensures |s[0].0| <= |t[j].0| {
      assert t[j] in multiset(t);
      if t[j] != e {
        assert t[j] in multiset(s[1..]);
        var k :| 0 <= k < |s[1..]| && s[1..][k] == t[j];
        assert s[k + 1] == t[j];
      }
    }
  }

  /**
   * `sorted(d.keys(), key=len)` with each key's list alongside: ascending
   * label length, and a permutation of the items.
   */
  function SortByLength(g: Groups): (r: Groups)
    ensures ByLength(r)
    ensures multiset(r) == multiset(g)
  {
    if g == [] then []
    else
      assert g == [g[0]] + g[1..];
      InsertByLength(g[0], SortByLength(g[1..]))
  }

  lemma {:induction false} InsertByLengthStable(e: Entry, s: Groups, n: nat)
    requires ByLength(s)
    ensures OfLength(InsertByLength(e, s), n) == (if |e.0| == n then [e] else []) + OfLength(s, n)
  {
    if s != [] && |e.0| > |s[0].0| {
      InsertByLengthStable(e, s[1..], n);
    }
  }

  /** The sort is stable: the items of any one label length keep their dictionary order. */
  lemma {:induction false} SortByLengthStable(g: Groups, n: nat)
    ensures OfLength(SortByLength(g), n) == OfLength(g, n)
  {
    if g != [] {
      SortByLengthStable(g[1..], n);
      InsertByLengthStable(g[0], SortByLength(g[1..]), n);
    }
  }

  lemma KeysAppend(g: Groups, e: Entry)
    ensures Keys(g + [e]) == Keys(g) + [e.0]
  {
  }

  lemma KeysCons(e: Entry, g: Groups)
    ensures Keys([e] + g) == [e.0] + Keys(g)
    ensures Elems(Keys([e] + g)) == {e.0} + Elems(Keys(g))
  {
    assert Keys([e] + g) == [e.0] + Keys(g);
  }

  lemma KeysSplit(s: Groups)
    requires s != []
    ensures Elems(Keys(s)) == {s[0].0} + Elems(Keys(s[1..]))
  {
    assert s == [s[0]] + s[1..];
    KeysCons(s[0], s[1..]);
  }

  lemma {:induction false} InsertByLengthKeys(e: Entry, s: Groups)
    requires ByLength(s)
    ensures Elems(Keys(InsertByLength(e, s))) == Elems(Keys(s)) + {e.0}
    ensures UniqueKeys(s) && e.0 !in Keys(s) ==> UniqueKeys(InsertByLength(e, s))
  {
    if s == [] || |e.0| <= |s[0].0| {
      KeysCons(e, s);
      if UniqueKeys(s) && e.0 !in Keys(s) {
        UniqueCons(e, s);
      }
    } else {
      var t := InsertByLength(e, s[1..]);
      InsertByLengthKeys(e, s[1..]);
      KeysCons(s[0], t);
      KeysSplit(s);
      if UniqueKeys(s) && e.0 !in Keys(s) {
        UniqueTail(s);
        assert s[0].0 !in Elems(Keys(t));
        UniqueCons(s[0], t);
      }
    }
  }

  lemma {:induction false} InsertByLengthFiles(e: Entry, s: Groups)
    requires ByLength(s)
    ensures multiset(AllFiles(InsertByLength(e, s))) == multiset(e.1) + multiset(AllFiles(s))
  {
    if s != [] && |e.0| > |s[0].0| {
      InsertByLengthFiles(e, s[1..]);
    }
  }

  /** Two lists holding the same items have the same keys. */
  lemma SameItemsSameKeys(r: Groups, g: Groups)
    requires multiset(r) == multiset(g)
    ensures Elems(Keys(r)) == Elems(Keys(g))
  {
    forall k | k in Keys(r) ensures k in Keys(g) {
      var i :| 0 <= i < |r| && r[i].0 == k;
      assert r[i] in multiset(g);
      var j :| 0 <= j < |g| && g[j] == r[i];
      assert Keys(g)[j] == k;
    }
    forall k | k in Keys(g) ensures k in Keys(r) {
      var i :| 0 <= i < |g| && g[i].0 == k;
      assert g[i] in multiset(r);
      var j :| 0 <= j < |r| && r[j] == g[i];
      assert Keys(r)[j] == k;
    }
  }

  /** Sorting keeps the set of keys. */
  lemma SortByLengthKeys(g: Groups)
    ensures Elems(Keys(SortByLength(g))) == Elems(Keys(g))
  {
    SameItemsSameKeys(SortByLength(g), g);
  }

  /** Sorting keeps the keys unique. */
  lemma {:induction false} SortByLengthUnique(g: Groups)
    requires UniqueKeys(g)
    ensures UniqueKeys(SortByLength(g))
  {
    if g != [] {
      var t := SortByLength(g[1..]);
      assert SortByLength(g) == InsertByLength(g[0], t);
      UniqueTail(g);
      SortByLengthUnique(g[1..]);
      SortByLengthKeys(g[1..]);
      assert g[0].0 !in Elems(Keys(g[1..]));
      assert g[0].0 !in Keys(t);
      InsertByLengthKeys(g[0], t);
    }
  }

  /** Sorting keeps every file. */
  lemma {:induction false} SortByLengthFiles(g: Groups)
    ensures multiset(AllFiles(SortByLength(g))) == multiset(AllFiles(g))
  {
    if g != [] {
      SortByLengthFiles(g[1..]);
      InsertByLengthFiles(g[0], SortByLength(g[1..]));
    }
  }

  /** Sorting a dictionary's items by label length leaves it the same dictionary. */
  lemma SortByLengthSameDict(g: Groups)
    requires UniqueKeys(g)
    ensures DictEqual(SortByLength(g), g)
  {
    var r := SortByLength(g);
    assert |r| == |multiset(r)| == |multiset(g)| == |g|;
    forall i | 0 <= i < |r| ensures Lookup(g, r[i].0) == Some(r[i].1) {
      assert r[i] in multiset(g);
      var j :| 0 <= j < |g| && g[j] == r[i];
      LookupAt(g, j);
    }
  }
}
