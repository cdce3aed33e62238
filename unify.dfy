/**
 * `unify_context_groups` (FileSorter.py:61-82): one pass that merges labels
 * sharing a word. `Pass` is the pass as a function over the ordered
 * dictionary; `UnifyContextGroups` is the loop the source runs, proved to
 * compute it.
 */
module Unify {
  import opened Wrappers
  import opened Text
  import opened CommonWords
  import opened Groups

  /** The labels `a` and `b` have a word in common, compared case-insensitively. */
  predicate SharesWord(a: Label, b: Label) {
    WordSet(a) * WordSet(b) != {}
  }

  /**
   * The inner loop's choice: the first item of `u`, in dictionary order and
   * from position `from` on, whose label shares a word with `key`.
   */
  function FirstSharing(u: Groups, key: Label, from: nat := 0): (r: Option<nat>)
    requires from <= |u|
    ensures r.Some? ==> from <= r.value < |u| && SharesWord(key, u[r.value].0)
    ensures forall i :: from <= i < |u| && (r.None? || i < r.value) ==> !SharesWord(key, u[i].0)
    decreases |u| - from
  {
    if from == |u| then None
    else if SharesWord(key, u[from].0) then Some(from)
    else FirstSharing(u, key, from + 1)
  }

  /**
   * One turn of the outer loop for the item `e`: its files are appended to
   * the list of the common name it has with the first sharing label
   * (created at the end if absent), or else it is installed under its own label.
   */
  function Place(u: Groups, e: Entry): Groups {
    match FirstSharing(u, e.0)
    case Some(j) => Extend(u, FindCommonWords(e.0, u[j].0).value, e.1)
    case None => Put(u, e.0, e.1)
  }

  /** The outer loop over the items of `order`, starting from `u`. */
  function PlaceAll(u: Groups, order: Groups): Groups
    decreases |order|
  {
    if order == [] then u else PlaceAll(Place(u, order[0]), order[1..])
  }

  /** One unification pass: the items taken by ascending label length, starting from an empty dictionary. */
  function Pass(g: Groups): Groups {
    PlaceAll([], SortByLength(g))
  }

  /** `unify_context_groups`, loop for loop. */
  method UnifyContextGroups(contextGroups: Groups) returns (unified: Groups)
    requires UniqueKeys(contextGroups)
    ensures unified == Pass(contextGroups)
    ensures UniqueKeys(unified)
    ensures multiset(AllFiles(unified)) == multiset(AllFiles(contextGroups))
    ensures |unified| <= |contextGroups|
  {
    unified := [];
    var keysSorted := SortByLength(contextGroups);
    var i := 0;
    assert keysSorted[i..] == keysSorted;
    while i < |keysSorted|
      invariant 0 <= i <= |keysSorted|
      invariant PlaceAll(unified, keysSorted[i..]) == Pass(contextGroups)
    {
      PlaceAllStep(unified, keysSorted, i);
      unified := PlaceItem(unified, keysSorted[i]);
      i := i + 1;
    }
    assert keysSorted[i..] == [];
    PassKeepsFiles(contextGroups);
    PassShrinks(contextGroups);
  }

  /**
   * The body of the outer loop for one item: the scan of the unified labels
   * in dictionary order that stops at the first one sharing a word.
   */
  method PlaceItem(unified: Groups, item: Entry) returns (updated: Groups)
    ensures updated == Place(unified, item)
  {
    var (key, files) := item;
    var placed := false;
    var ukeys := Keys(unified);
    updated := unified;
    var j := 0;
    while j < |ukeys|
      invariant 0 <= j <= |ukeys| == |unified|
      invariant updated == unified
      invariant forall l :: 0 <= l < j ==> FindCommonWords(key, ukeys[l]).None?
    {
      var commonName := FindCommonWords(key, ukeys[j]);
      if commonName.Some? {
        PlaceShared(unified, item, j);
        updated := Extend(unified, commonName.value, files);
        placed := true;
        break;
      }
      j := j + 1;
    }
    if !placed {
      PlaceUnshared(unified, item);
      updated := Put(unified, key, files);
    }
  }

  /** The inner loop's `break`: the item goes to the first label it shares a word with. */
  lemma PlaceShared(u: Groups, e: Entry, j: nat)
    requires j < |u| && FindCommonWords(e.0, Keys(u)[j]).Some?
    requires forall l :: 0 <= l < j ==> FindCommonWords(e.0, Keys(u)[l]).None?
    ensures Place(u, e) == Extend(u, FindCommonWords(e.0, Keys(u)[j]).value, e.1)
  {
    assert forall l :: 0 <= l < |u| ==> Keys(u)[l] == u[l].0;
    assert FirstSharing(u, e.0) == Some(j);
  }

  /** The inner loop's exit without a match: the item is installed under its own label. */
  lemma PlaceUnshared(u: Groups, e: Entry)
    requires forall l :: 0 <= l < |u| ==> FindCommonWords(e.0, Keys(u)[l]).None?
    ensures Place(u, e) == Put(u, e.0, e.1)
  {
    assert forall l :: 0 <= l < |u| ==> Keys(u)[l] == u[l].0;
    assert FirstSharing(u, e.0).None?;
  }

  lemma PlaceAllStep(u: Groups, order: Groups, i: nat)
    requires i < |order|
    ensures PlaceAll(u, order[i..]) == PlaceAll(Place(u, order[i]), order[i + 1..])
  {
    assert order[i..][1..] == order[i + 1..];
  }

  // ---------------------------------------------------------------------------
  // Files are neither lost nor duplicated

  /** A label without words can only be installed under its own name, once. */
  ghost predicate PlaceInvariant(u: Groups, order: Groups) {
    UniqueKeys(u) && UniqueKeys(order)
    && forall k :: k in Keys(u) && WordSet(k) == {} ==> k !in Keys(order)
  }

  /** `k` is the common name of `a` with some string. */
  ghost predicate NamedFrom(k: Label, a: Label) {
    exists b :: FindCommonWords(a, b) == Some(k)
  }

  /** A key `Place` adds is the item's own label or a common name it has with something. */
  lemma PlaceKeys(u: Groups, e: Entry)
    ensures forall k :: k in Keys(Place(u, e)) ==> k in Keys(u) || k == e.0 || NamedFrom(k, e.0)
    ensures |Place(u, e)| <= |u| + 1
  {
    match FirstSharing(u, e.0)
    case Some(j) =>
      var c := FindCommonWords(e.0, u[j].0).value;
      var r := Extend(u, c, e.1);
      assert Place(u, e) == r;
      assert NamedFrom(c, e.0);
      if c !in Keys(u) {
        KeysAppend(u, (c, e.1));
      }
    case None =>
      var r := Put(u, e.0, e.1);
      assert Place(u, e) == r;
      if e.0 !in Keys(u) {
        KeysAppend(u, e);
      }
  }

  lemma PlaceStep(u: Groups, e: Entry)
    requires UniqueKeys(u)
    requires e.0 in Keys(u) ==> WordSet(e.0) != {}
    ensures UniqueKeys(Place(u, e))
    ensures multiset(AllFiles(Place(u, e))) == multiset(AllFiles(u)) + multiset(e.1)
  {
    match FirstSharing(u, e.0)
    case Some(j) =>
      ExtendFiles(u, FindCommonWords(e.0, u[j].0).value, e.1);
    case None =>
      AllFilesAppend(u, (e.0, e.1));
  }

  lemma {:induction false} PlaceAllKeepsFiles(u: Groups, order: Groups)
    requires PlaceInvariant(u, order)
    ensures UniqueKeys(PlaceAll(u, order))
    ensures multiset(AllFiles(PlaceAll(u, order))) == multiset(AllFiles(u)) + multiset(AllFiles(order))
    decreases |order|
  {
    if order != [] {
      var e, rest := order[0], order[1..];
      assert order == [e] + rest;
      KeysCons(e, rest);
      UniqueTail(order);
      PlaceStep(u, e);
      PlaceKeys(u, e);
      var u1 := Place(u, e);
      forall k | k in Keys(u1) && k !in Keys(u) && k != e.0 ensures WordSet(k) != {} {
        var b :| FindCommonWords(e.0, b) == Some(k);
        CommonNameWords(e.0, b);
      }
      PlaceAllKeepsFiles(u1, rest);
    }
  }

  /** A unification pass keeps every file exactly once, and the keys unique. */
  lemma PassKeepsFiles(g: Groups)
    requires UniqueKeys(g)
    ensures UniqueKeys(Pass(g))
    ensures multiset(AllFiles(Pass(g))) == multiset(AllFiles(g))
  {
    SortByLengthUnique(g);
    SortByLengthFiles(g);
    PlaceAllKeepsFiles([], SortByLength(g));
  }

  // ---------------------------------------------------------------------------
  // No group is left empty

  lemma PlaceNonEmpty(u: Groups, e: Entry)
    requires NonEmptyLists(u) && e.1 != []
    ensures NonEmptyLists(Place(u, e))
  {
    match FirstSharing(u, e.0)
    case Some(j) => ExtendNonEmpty(u, FindCommonWords(e.0, u[j].0).value, e.1);
    case None => PutNonEmpty(u, e.0, e.1);
  }

  lemma {:induction false} PlaceAllNonEmpty(u: Groups, order: Groups)
    requires NonEmptyLists(u) && NonEmptyLists(order)
    ensures NonEmptyLists(PlaceAll(u, order))
    decreases |order|
  {
    if order != [] {
      var rest := order[1..];
      assert forall i :: 0 <= i < |rest| ==> rest[i] == order[i + 1];
      PlaceNonEmpty(u, order[0]);
      PlaceAllNonEmpty(Place(u, order[0]), rest);
    }
  }

  /** A pass given only non-empty lists returns only non-empty lists. */
  lemma PassNonEmpty(g: Groups)
    requires NonEmptyLists(g)
    ensures NonEmptyLists(Pass(g))
  {
    var s := SortByLength(g);
    forall i | 0 <= i < |s| ensures s[i].1 != [] {
      assert s[i] in multiset(g);
    }
    PlaceAllNonEmpty([], s);
  }

  // ---------------------------------------------------------------------------
  // The number of groups never grows

  lemma {:induction false} PlaceAllSize(u: Groups, order: Groups)
    ensures |PlaceAll(u, order)| <= |u| + |order|
    decreases |order|
  {
    if order != [] {
      PlaceKeys(u, order[0]);
      PlaceAllSize(Place(u, order[0]), order[1..]);
    }
  }

  /** A pass never yields more groups than it was given. */
  lemma PassShrinks(g: Groups)
    ensures |Pass(g)| <= |g|
  {
    PlaceAllSize([], SortByLength(g));
    assert |SortByLength(g)| == |multiset(SortByLength(g))| == |g|;
  }

  // ---------------------------------------------------------------------------
  // Where the output keys come from

  /** `k` is the common name of some label of `g` with some string. */
  ghost predicate CommonNameOf(k: Label, g: Groups) {
    exists a, b :: a in Keys(g) && FindCommonWords(a, b) == Some(k)
  }

  lemma {:induction false} PlaceAllNames(u: Groups, order: Groups)
    ensures forall k :: k in Keys(PlaceAll(u, order)) ==>
              k in Keys(u) || k in Keys(order) || CommonNameOf(k, order)
    decreases |order|
  {
    if order != [] {
      var e, rest := order[0], order[1..];
      assert order == [e] + rest;
      KeysCons(e, rest);
      var u1 := Place(u, e);
      PlaceKeys(u, e);
      PlaceAllNames(u1, rest);
      forall k | k in Keys(PlaceAll(u, order))
        ensures k in Keys(u) || k in Keys(order) || CommonNameOf(k, order)
      {
        if CommonNameOf(k, rest) {
          var a, b :| a in Keys(rest) && FindCommonWords(a, b) == Some(k);
          assert a in Keys(order);
        } else if k in Keys(u1) && k !in Keys(u) && k != e.0 {
          var b :| FindCommonWords(e.0, b) == Some(k);
          assert e.0 in Keys(order);
          assert CommonNameOf(k, order);
        }
      }
    }
  }

  /** Every label a pass outputs is an input label or a common-word name of an input label. */
  lemma PassNames(g: Groups)
    ensures forall k :: k in Keys(Pass(g)) ==> k in Keys(g) || CommonNameOf(k, g)
  {
    var s := SortByLength(g);
    PlaceAllNames([], s);
    SortByLengthKeys(g);
    forall k | k in Keys(Pass(g)) ensures k in Keys(g) || CommonNameOf(k, g) {
      if k in Keys(s) {
        assert k in Elems(Keys(s));
      } else {
        var a, b :| a in Keys(s) && FindCommonWords(a, b) == Some(k);
        assert a in Elems(Keys(s));
      }
    }
  }

  // ---------------------------------------------------------------------------
  // A label that shares no word keeps its group ("Keep as-is", FileSorter.py:80)

  /** No key of `u` other than `a` itself shares a word with `a`. */
  predicate Apart(u: Groups, a: Label) {
    forall k <- Keys(u) :: k != a ==> !SharesWord(a, k)
  }

  /**
   * Placing an item keeps every other key apart from `a`: the item's own
   * label is apart from `a`, and so is any common name of it, whose words
   * are among the item's. Placing `a` itself installs it under its own label.
   */
  lemma PlaceKeepsApart(u: Groups, e: Entry, a: Label, v: seq<Path>)
    requires Apart(u, a)
    requires e.0 != a ==> !SharesWord(a, e.0)
    requires e.0 == a ==> e.1 == v && a !in Keys(u)
    ensures Apart(Place(u, e), a)
    ensures Lookup(Place(u, e), a) == if e.0 == a then Some(v) else Lookup(u, a)
  {
    if e.0 == a {
      forall r | 0 <= r < |u| ensures !SharesWord(a, u[r].0) {
        assert Keys(u)[r] == u[r].0;
      }
      assert FirstSharing(u, a).None?;
      KeysAppend(u, (a, v));
    } else {
      match FirstSharing(u, e.0)
      case Some(j) =>
        var c := FindCommonWords(e.0, u[j].0).value;
        CommonNameWords(e.0, u[j].0);
        assert !SharesWord(a, c);
        assert c != a;
        if c !in Keys(u) {
          KeysAppend(u, (c, e.1));
        }
      case None =>
        if e.0 !in Keys(u) {
          KeysAppend(u, e);
        }
    }
  }

  lemma {:induction false} PlaceAllKeepsApart(u: Groups, order: Groups, a: Label, v: seq<Path>)
    requires UniqueKeys(order)
    requires forall e <- order :: if e.0 == a then e.1 == v else !SharesWord(a, e.0)
    requires Apart(u, a)
    requires a in Keys(u) <==> a !in Keys(order)
    requires a in Keys(u) ==> Lookup(u, a) == Some(v)
    ensures Apart(PlaceAll(u, order), a)
    ensures Lookup(PlaceAll(u, order), a) == Some(v)
    decreases |order|
  {
    if order != [] {
      var e, rest := order[0], order[1..];
      assert order == [e] + rest;
      KeysCons(e, rest);
      UniqueTail(order);
      PlaceKeepsApart(u, e, a, v);
      var u1 := Place(u, e);
      LookupSomeIffKey(u, a);
      LookupSomeIffKey(u1, a);
      PlaceAllKeepsApart(u1, rest, a, v);
    } else {
      LookupSomeIffKey(u, a);
    }
  }

  /**
   * An item whose label shares no word with any other label comes out of a
   * pass under its own label with its own files, and no other key of the
   * result shares a word with it.
   */
  lemma PassKeepsUnshared(g: Groups, i: nat)
    requires UniqueKeys(g) && i < |g|
    requires forall j :: 0 <= j < |g| && j != i ==> !SharesWord(g[i].0, g[j].0)
    ensures Lookup(Pass(g), g[i].0) == Some(g[i].1)
    ensures forall k :: k in Keys(Pass(g)) && k != g[i].0 ==> !SharesWord(g[i].0, k)
  {
    var (a, v) := g[i];
    var s := SortByLength(g);
    SortByLengthUnique(g);
    forall e <- s ensures if e.0 == a then e.1 == v else !SharesWord(a, e.0) {
      assert e in multiset(g);
      var j :| 0 <= j < |g| && g[j] == e;
    }
    assert g[i] in multiset(s);
    var t :| 0 <= t < |s| && s[t] == g[i];
    assert Keys(s)[t] == a;
    PlaceAllKeepsApart([], s, a, v);
  }

  // ---------------------------------------------------------------------------
  // A potential that every pass that changes the dictionary lowers

  /**
   * The weight of one label: two per word plus two, plus one when the label
   * is not already in the form of a common name.
   */
  ghost function KeyPot(k: Label): nat {
    2 * |WordSet(k)| + 2 + (if Canonical(k) then 0 else 1)
  }

  ghost function KeysPot(ks: seq<Label>): nat {
    if ks == [] then 0 else KeyPot(ks[0]) + KeysPot(ks[1..])
  }

  ghost function Pot(g: Groups): nat {
    KeysPot(Keys(g))
  }

  lemma {:induction false} KeysPotAppend(ks: seq<Label>, k: Label)
    ensures KeysPot(ks + [k]) == KeysPot(ks) + KeyPot(k)
  {
    if ks != [] {
      assert (ks + [k])[1..] == ks[1..] + [k];
      KeysPotAppend(ks[1..], k);
    }
  }

  lemma PotAppend(u: Groups, e: Entry)
    ensures Pot(u + [e]) == Pot(u) + KeyPot(e.0)
  {
    KeysAppend(u, e);
    KeysPotAppend(Keys(u), e.0);
  }

  lemma ProperSubsetSmaller(a: set<string>, b: set<string>)
    requires a < b
    ensures |a| < |b|
  {
    assert b == a + (b - a);
    assert a * (b - a) == {};
  }

  lemma CanonicalPot(k: Label)
    ensures KeyPot(k) == 2 * |WordSet(k)| + (if Canonical(k) then 2 else 3)
  {
  }

  /** A common name never weighs more than the label that produced it, and weighs the same only when it is that label. */
  lemma CommonNamePot(k: Label, other: Label)
    requires FindCommonWords(k, other).Some?
    ensures KeyPot(FindCommonWords(k, other).value) <= KeyPot(k)
    ensures KeyPot(FindCommonWords(k, other).value) == KeyPot(k) ==> FindCommonWords(k, other).value == k
  {
    var c := FindCommonWords(k, other).value;
    CommonNameCanonical(k, other);
    CommonNameWords(k, other);
    CanonicalPot(c);
    CanonicalPot(k);
    assert WordSet(c) <= WordSet(k);
    if WordSet(c) == WordSet(k) {
      assert WordSet(k) * WordSet(k) == WordSet(k) * WordSet(other);
      CommonWordsDetermined(k, k, k, other);
    } else {
      ProperSubsetSmaller(WordSet(c), WordSet(k));
    }
  }

  lemma PlacePotential(u: Groups, e: Entry)
    ensures Pot(Place(u, e)) <= Pot(u) + KeyPot(e.0)
    ensures Pot(Place(u, e)) == Pot(u) + KeyPot(e.0) ==> Place(u, e) == u + [e]
  {
    match FirstSharing(u, e.0)
    case Some(j) =>
      var c := FindCommonWords(e.0, u[j].0).value;
      if c !in Keys(u) {
        PotAppend(u, (c, e.1));
        CommonNamePot(e.0, u[j].0);
      }
    case None =>
      if e.0 !in Keys(u) {
        PotAppend(u, e);
      }
  }

  lemma KeysPotCons(e: Entry, g: Groups)
    ensures Pot([e] + g) == KeyPot(e.0) + Pot(g)
  {
    KeysCons(e, g);
    assert ([e.0] + Keys(g))[1..] == Keys(g);
  }

  lemma {:induction false} PlaceAllPotential(u: Groups, order: Groups)
    ensures Pot(PlaceAll(u, order)) <= Pot(u) + Pot(order)
    ensures Pot(PlaceAll(u, order)) == Pot(u) + Pot(order) ==> PlaceAll(u, order) == u + order
    decreases |order|
  {
    if order == [] {
      assert u + order == u;
    } else {
      var e, rest := order[0], order[1..];
      var u1 := Place(u, e);
      var r := PlaceAll(u1, rest);
      assert PlaceAll(u, order) == r;
      assert order == [e] + rest;
      KeysPotCons(e, rest);
      PlacePotential(u, e);
      PlaceAllPotential(u1, rest);
      PotentialChain(Pot(r), Pot(u1), Pot(u), KeyPot(e.0), Pot(rest));
      if Pot(r) == Pot(u) + Pot(order) {
        assert u1 == u + [e];
        assert r == u1 + rest;
        SeqAssoc(u, e, rest);
      }
    }
  }

  lemma SeqAssoc(u: Groups, e: Entry, rest: Groups)
    ensures u + [e] + rest == u + ([e] + rest)
  {
  }

  lemma PotentialChain(r: int, u1: int, u: int, e: int, rest: int)
    requires r <= u1 + rest && u1 <= u + e
    ensures r <= u + e + rest
    ensures r == u + e + rest ==> r == u1 + rest && u1 == u + e
  {
  }

  lemma {:induction false} InsertByLengthPot(e: Entry, s: Groups)
    requires ByLength(s)
    ensures Pot(InsertByLength(e, s)) == KeyPot(e.0) + Pot(s)
  {
    if s == [] || |e.0| <= |s[0].0| {
      KeysCons(e, s);
    } else {
      InsertByLengthPot(e, s[1..]);
      KeysCons(s[0], InsertByLength(e, s[1..]));
      assert s == [s[0]] + s[1..];
      KeysCons(s[0], s[1..]);
    }
  }

  lemma {:induction false} SortByLengthPot(g: Groups)
    ensures Pot(SortByLength(g)) == Pot(g)
  {
    if g != [] {
      SortByLengthPot(g[1..]);
      InsertByLengthPot(g[0], SortByLength(g[1..]));
      assert g == [g[0]] + g[1..];
      KeysCons(g[0], g[1..]);
    }
  }

  /**
   * Progress: a pass that does not return an equal dictionary strictly
   * lowers the potential, so repeating passes until nothing changes stops.
   */
  lemma PassProgress(g: Groups)
    requires UniqueKeys(g)
    ensures Pot(Pass(g)) <= Pot(g)
    ensures !DictEqual(Pass(g), g) ==> Pot(Pass(g)) < Pot(g)
  {
    var s := SortByLength(g);
    PlaceAllPotential([], s);
    SortByLengthPot(g);
    assert Pot([]) == 0;
    assert [] + s == s;
    SortByLengthSameDict(g);
  }
}
