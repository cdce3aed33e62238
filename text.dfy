/**
 * The string primitives the file sorter relies on: Python's `str.isspace`,
 * `lower`, `capitalize`, `isalnum`, `strip`, `split`, `" ".join` and the
 * code-point order that `sorted` uses on strings.
 *
 * Whitespace is Python's full `isspace` set. Case mapping and `isalnum` are
 * modelled on ASCII only: every other character is left unchanged by the case
 * mappings and is not alphanumeric.
 */
module Text {

  /** Python's `str.isspace()` for one character (its complete list of code points). */
  predicate IsSpace(c: char) {
    var n := c as int;
    n == 0x20 || 0x09 <= n <= 0x0D || 0x1C <= n <= 0x1F || n == 0x85 || n == 0xA0
    || n == 0x1680 || 0x2000 <= n <= 0x200A || n == 0x2028 || n == 0x2029
    || n == 0x202F || n == 0x205F || n == 0x3000
  }

  predicate IsUpper(c: char) { 'A' <= c <= 'Z' }

  predicate IsLower(c: char) { 'a' <= c <= 'z' }

  predicate IsDigit(c: char) { '0' <= c <= '9' }

  /** `str.isalnum()` for one character. */
  predicate IsAlnum(c: char) { IsUpper(c) || IsLower(c) || IsDigit(c) }

  function LowerChar(c: char): (d: char)
  {
    if IsUpper(c) then (c as int + 32) as char else c
  }

  function UpperChar(c: char): (d: char)
  {
    if IsLower(c) then (c as int - 32) as char else c
  }

  /** `str.lower()`. */
  function Lower(s: string): string {
    seq(|s|, i requires 0 <= i < |s| => LowerChar(s[i]))
  }

  /** `str.capitalize()`: the first character upper-cased, the rest lower-cased. */
  function Capitalize(s: string): string {
    if |s| == 0 then [] else [UpperChar(s[0])] + Lower(s[1..])
  }

  /** No upper-case letter occurs in `s`. */
  predicate Lowered(s: string) {
    forall i :: 0 <= i < |s| ==> !IsUpper(s[i])
  }

  lemma LowerIsLowered(s: string)
    ensures Lowered(Lower(s))
  {
  }

  lemma LowerOfLowered(s: string)
    requires Lowered(s)
    ensures Lower(s) == s
  {
  }

  /** Lower-casing a capitalised string undoes the capitalisation. */
  lemma LowerCapitalize(s: string)
    ensures Lower(Capitalize(s)) == Lower(s)
  {
    if s != [] {
      var c := Capitalize(s);
      assert |c| == |s|;
      forall i | 0 <= i < |s|
        ensures Lower(c)[i] == Lower(s)[i]
      {
        if i > 0 {
          assert c[i] == Lower(s[1..])[i - 1] == LowerChar(s[i]);
        } else {
          assert c[0] == UpperChar(s[0]);
        }
      }
    }
  }

  // ---------------------------------------------------------------------------
  // strip

  /** Neither the first nor the last character is whitespace. */
  predicate Trimmed(s: string) {
    s == [] || (!IsSpace(s[0]) && !IsSpace(s[|s| - 1]))
  }

  predicate AllSpace(s: string) {
    forall i :: 0 <= i < |s| ==> IsSpace(s[i])
  }

  /** `r` sits at offset `a` in `s` with only whitespace around it. */
  ghost predicate StripsTo(s: string, a: nat, r: string) {
    a + |r| <= |s| && s[a..a + |r|] == r && AllSpace(s[..a]) && AllSpace(s[a + |r|..])
  }

  /** The number of whitespace characters `str.lstrip()` removes. */
  function LeadingSpaces(s: string): (n: nat)
    ensures n <= |s| && AllSpace(s[..n])
    ensures n < |s| ==> !IsSpace(s[n])
  {
    if s != [] && IsSpace(s[0]) then
      var n := LeadingSpaces(s[1..]);
      assert s[..n + 1] == [s[0]] + s[1..][..n];
      n + 1
    else 0
  }

  /** The number of whitespace characters `str.rstrip()` removes. */
  function TrailingSpaces(s: string): (n: nat)
    ensures n <= |s| && AllSpace(s[|s| - n..])
    ensures n < |s| ==> !IsSpace(s[|s| - n - 1])
  {
    if s != [] && IsSpace(s[|s| - 1]) then
      var p := s[..|s| - 1];
      var n := TrailingSpaces(p);
      forall i | |s| - (n + 1) <= i < |s| ensures IsSpace(s[i]) {
        if i < |s| - 1 {
          assert s[i] == p[|p| - n..][i - (|p| - n)];
        }
      }
      n + 1
    else 0
  }

  /** `str.strip()`: drops the leading and trailing whitespace and nothing else. */
  function Strip(s: string): (r: string)
    ensures exists a: nat :: StripsTo(s, a, r)
  {
    var a := LeadingSpaces(s);
    var t := s[a..];
    var b := TrailingSpaces(t);
    var r := t[..|t| - b];
    assert r == s[a..a + |r|];
    assert s[a + |r|..] == t[|t| - b..];
    assert StripsTo(s, a, r);
    r
  }

  /** What `strip` returns has no whitespace at either end. */
  lemma StripIsTrimmed(s: string)
    ensures Trimmed(Strip(s))
  {
    var a := LeadingSpaces(s);
    var t := s[a..];
    var b := TrailingSpaces(t);
    var r := t[..|t| - b];
    assert Strip(s) == r;
    if r != [] {
      assert r[0] == s[a];
      assert r[|r| - 1] == t[|t| - b - 1];
    }
  }

  /** Stripping a string that is already trimmed changes nothing. */
  lemma StripTrimmed(s: string)
    requires Trimmed(s)
    ensures Strip(s) == s
  {
  }

  /** `strip` leaves nothing exactly when the string is all whitespace. */
  lemma StripEmpty(s: string)
    ensures Strip(s) == [] <==> AllSpace(s)
  {
    var r := Strip(s);
    var a: nat :| StripsTo(s, a, r);
    if r == [] {
      forall i | 0 <= i < |s| ensures IsSpace(s[i]) {
        if i < a {
          assert s[i] == s[..a][i];
        } else {
          assert s[i] == s[a..][i - a];
        }
      }
    } else {
      assert r[0] == s[a];
    }
  }

  /** `strip` keeps only characters of its input. */
  lemma StripChars(s: string)
    ensures forall c <- Strip(s) :: c in s
  {
    var a: nat :| StripsTo(s, a, Strip(s));
    assert forall i :: 0 <= i < |Strip(s)| ==> Strip(s)[i] == s[a + i];
  }

  /** `strip` is idempotent. */
  lemma StripIdempotent(s: string)
    ensures Strip(Strip(s)) == Strip(s)
  {
    StripIsTrimmed(s);
    StripTrimmed(Strip(s));
  }

  // ---------------------------------------------------------------------------
  // split and join

  /** A word of `str.split()`: a non-empty run of non-whitespace characters. */
  predicate IsWord(w: string) {
    w != [] && forall i :: 0 <= i < |w| ==> !IsSpace(w[i])
  }

  /** The length of the longest prefix of `s` that holds no whitespace. */
  function WordLength(s: string): (n: nat)
    ensures n <= |s|
    ensures forall i :: 0 <= i < n ==> !IsSpace(s[i])
    ensures n < |s| ==> IsSpace(s[n])
  {
    if s == [] || IsSpace(s[0]) then 0 else 1 + WordLength(s[1..])
  }

  /** `str.split()` with no separator: the maximal runs of non-whitespace, in order. */
  function Split(s: string): (ws: seq<string>)
    ensures forall w <- ws :: IsWord(w)
    ensures Lowered(s) ==> forall w <- ws :: Lowered(w)
    decreases |s|
  {
    if s == [] then []
    else if IsSpace(s[0]) then Split(s[1..])
    else
      var n := WordLength(s);
      [s[..n]] + Split(s[n..])
  }

  /** `" ".join(ws)`. */
  function JoinWords(ws: seq<string>): string {
    if ws == [] then ""
    else if |ws| == 1 then ws[0]
    else ws[0] + " " + JoinWords(ws[1..])
  }

  lemma LoweredConcat(a: string, b: string)
    requires Lowered(a) && Lowered(b)
    ensures Lowered(a + b)
  {
    forall i | 0 <= i < |a + b| ensures !IsUpper((a + b)[i]) {
      if i >= |a| {
        assert (a + b)[i] == b[i - |a|];
      }
    }
  }

  lemma JoinLowered(ws: seq<string>)
    requires forall w <- ws :: Lowered(w)
    ensures Lowered(JoinWords(ws))
  {
    if |ws| > 1 {
      JoinLowered(ws[1..]);
      var j := JoinWords(ws[1..]);
      LoweredConcat(" ", j);
      LoweredConcat(ws[0], " " + j);
      assert JoinWords(ws) == ws[0] + (" " + j);
    }
  }

  /** A word followed by whitespace (or by nothing) is split off as one word. */
  lemma SplitWordThen(w: string, rest: string)
    requires IsWord(w)
    requires rest == [] || IsSpace(rest[0])
    ensures Split(w + rest) == [w] + Split(rest)
  {
    var s := w + rest;
    var n := WordLength(s);
    assert forall i :: 0 <= i < |w| ==> s[i] == w[i];
    assert |w| < |s| ==> s[|w|] == rest[0];
    assert n == |w|;
    assert s[..n] == w && s[n..] == rest;
  }

  /** Splitting words joined by single spaces gives the words back. */
  lemma {:induction false} SplitJoin(ws: seq<string>)
    requires forall w <- ws :: IsWord(w)
    ensures Split(JoinWords(ws)) == ws
  {
    if ws == [] {
    } else if |ws| == 1 {
      SplitWordThen(ws[0], "");
      assert ws[0] + "" == ws[0];
    } else {
      var j := JoinWords(ws[1..]);
      assert JoinWords(ws) == ws[0] + (" " + j);
      SplitWordThen(ws[0], " " + j);
      SplitSpace(j);
      SplitJoin(ws[1..]);
      assert [ws[0]] + ws[1..] == ws;
    }
  }

  lemma SplitSpace(s: string)
    ensures Split(" " + s) == Split(s)
  {
    assert (" " + s)[1..] == s;
  }

  // ---------------------------------------------------------------------------
  // The code-point order on strings used by `sorted`

  /** Python's `a < b` on strings: lexicographic by code point, a proper prefix first. */
  predicate Below(a: string, b: string) {
    if a == [] then b != []
    else if b == [] then false
    else a[0] < b[0] || (a[0] == b[0] && Below(a[1..], b[1..]))
  }

  lemma BelowIrreflexive(a: string)
    ensures !Below(a, a)
  {
  }

  lemma {:induction false} BelowTransitive(a: string, b: string, c: string)
    requires Below(a, b) && Below(b, c)
    ensures Below(a, c)
  {
    if a != [] && b != [] && c != [] && a[0] == b[0] == c[0] {
      BelowTransitive(a[1..], b[1..], c[1..]);
    }
  }

  lemma {:induction false} BelowTotal(a: string, b: string)
    requires a != b
    ensures Below(a, b) || Below(b, a)
  {
    if a != [] && b != [] && a[0] == b[0] {
      assert a == [a[0]] + a[1..] && b == [b[0]] + b[1..];
      BelowTotal(a[1..], b[1..]);
    }
  }

  lemma {:induction false} BelowAsymmetric(a: string, b: string)
    requires Below(a, b)
    ensures !Below(b, a)
  {
    if a != [] && b != [] && a[0] == b[0] {
      BelowAsymmetric(a[1..], b[1..]);
    }
  }

  /** Strictly ascending, hence without repetitions. */
  predicate StrictlySorted(ws: seq<string>) {
    forall i, j :: 0 <= i < j < |ws| ==> Below(ws[i], ws[j])
  }

  function Elems(ws: seq<string>): set<string> {
    set w | w in ws
  }

  /** Inserts `x` into a strictly sorted sequence unless it is already there. */
  function InsertWord(x: string, ws: seq<string>): (r: seq<string>)
    requires StrictlySorted(ws)
    ensures StrictlySorted(r)
    ensures Elems(r) == Elems(ws) + {x}
  {
    if ws == [] then [x]
    else if x == ws[0] then ws
    else if Below(x, ws[0]) then
      assert forall j :: 0 < j < |ws| ==> Below(x, ws[j]) by {
        forall j | 0 < j < |ws| ensures Below(x, ws[j]) {
          BelowTransitive(x, ws[0], ws[j]);
        }
      }
      [x] + ws
    else
      BelowTotal(x, ws[0]);
      var t := InsertWord(x, ws[1..]);
      assert Elems(ws) == {ws[0]} + Elems(ws[1..]);
      forall j | 0 <= j < |t| ensures Below(ws[0], t[j]) {
        assert t[j] in Elems(t);
      }
      var r := [ws[0]] + t;
      assert Elems(r) == {ws[0]} + Elems(t);
      r
  }

  /** `sorted(set(xs))`: the distinct elements of `xs` in ascending order. */
  function SortUnique(xs: seq<string>): (r: seq<string>)
    ensures StrictlySorted(r)
    ensures Elems(r) == Elems(xs)
  {
    if xs == [] then []
    else
      assert Elems(xs) == {xs[0]} + Elems(xs[1..]);
      InsertWord(xs[0], SortUnique(xs[1..]))
  }

  /** A finite set has exactly one strictly ascending listing. */
  lemma {:induction false} SortedListingUnique(a: seq<string>, b: seq<string>)
    requires StrictlySorted(a) && StrictlySorted(b)
    requires Elems(a) == Elems(b)
    ensures a == b
  {
    if a == [] {
      assert forall i :: 0 <= i < |b| ==> b[i] in Elems(b);
    } else {
      assert a[0] in Elems(b);
      assert b != [];
      assert b[0] in Elems(a);
      if a[0] != b[0] {
        var k :| 0 <= k < |b| && b[k] == a[0];
        var m :| 0 <= m < |a| && a[m] == b[0];
        assert Below(b[0], a[0]);
        assert Below(a[0], b[0]);
        BelowAsymmetric(a[0], b[0]);
      }
      forall i | 0 < i < |a| ensures a[i] != a[0] { BelowAsymmetric(a[0], a[i]); }
      forall i | 0 < i < |b| ensures b[i] != b[0] { BelowAsymmetric(b[0], b[i]); }
      assert Elems(a[1..]) == Elems(a) - {a[0]};
      assert Elems(b[1..]) == Elems(b) - {b[0]};
      SortedListingUnique(a[1..], b[1..]);
      assert a == [a[0]] + a[1..] && b == [b[0]] + b[1..];
    }
  }
}
