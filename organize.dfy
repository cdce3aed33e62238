/**
 * `process_pdf_folder` (FileSorter.py:84-141) without its input and output:
 * the listing of the PDF files, their bucketing by label, the passes of
 * unification repeated until nothing changes, and the archive plan.
 *
 * The directory listing, the document parser and the chat model are
 * parameters: `names` is what `os.listdir` returned, `parse` gives the text
 * of a file (`None` when the parser found none) and `chat(pdf)` the model's
 * reply to the prompt sent for that file. The replies are independent per
 * file, so two files with the same text may get different labels.
 */
module Organize {
  import opened Wrappers
  import opened Text
  import opened Labels
  import opened CommonWords
  import opened Groups
  import opened Unify
  import opened Archive

  // ---------------------------------------------------------------------------
  // The listing (FileSorter.py:91-95)

  /** `f.lower().endswith(".pdf")`. */
  predicate IsPdfName(f: string) {
    var l := Lower(f);
    |l| >= 4 && l[|l| - 4..] == ".pdf"
  }

  /** `os.path.join(folder, f)` on a POSIX system. */
  function Join(folder: string, f: string): (p: Path)
    ensures |f| <= |p| && p[|p| - |f|..] == f
    ensures f != [] && f[0] == '/' ==> p == f
  {
    if f != [] && f[0] == '/' then f
    else if folder == [] || folder[|folder| - 1] == '/' then folder + f
    else folder + "/" + f
  }

  /** Two entry names of one folder that are not absolute paths give different paths. */
  lemma JoinInjective(folder: string, f: string, f': string)
    requires (f == [] || f[0] != '/') && (f' == [] || f'[0] != '/')
    requires Join(folder, f) == Join(folder, f')
    ensures f == f'
  {
    var p, p' := Join(folder, f), Join(folder, f');
    var n := |p| - |f|;
    assert p[..n] == p'[..n];
    assert f == p[n..] == p'[n..] == f';
  }

  /** `[os.path.join(folder, f) for f in names if f.lower().endswith(".pdf")]`. */
  function PdfFiles(folder: string, names: seq<string>): (pdfs: seq<Path>)
    ensures |pdfs| <= |names|
    ensures forall p <- pdfs :: exists f <- names :: IsPdfName(f) && p == Join(folder, f)
    ensures forall f <- names :: IsPdfName(f) ==> Join(folder, f) in pdfs
  {
    if names == [] then []
    else (if IsPdfName(names[0]) then [Join(folder, names[0])] else []) + PdfFiles(folder, names[1..])
  }

  /** The entries of a directory are distinct names without a `/`, so the paths are distinct. */
  lemma {:induction false} PdfFilesDistinct(folder: string, names: seq<string>)
    requires forall i, j :: 0 <= i < j < |names| ==> names[i] != names[j]
    requires forall f <- names :: f == [] || f[0] != '/'
    ensures Distinct(PdfFiles(folder, names))
  {
    if names != [] {
      var rest := names[1..];
      PdfFilesDistinct(folder, rest);
      if IsPdfName(names[0]) {
        JoinedOnce(folder, names);
        DistinctCons(Join(folder, names[0]), PdfFiles(folder, rest));
      }
    }
  }

  /** The path of the first entry is not the path of a later one. */
  lemma JoinedOnce(folder: string, names: seq<string>)
    requires names != []
    requires forall i, j :: 0 <= i < j < |names| ==> names[i] != names[j]
    requires forall f <- names :: f == [] || f[0] != '/'
    ensures Join(folder, names[0]) !in PdfFiles(folder, names[1..])
  {
    var rest := names[1..];
    forall q <- PdfFiles(folder, rest) ensures q != Join(folder, names[0]) {
      var k := PdfFileSource(folder, rest, q);
      assert rest[k] == names[k + 1] != names[0];
      if q == Join(folder, names[0]) {
        JoinInjective(folder, rest[k], names[0]);
      }
    }
  }

  /** The entry a listed path was joined from. */
  lemma {:induction false} PdfFileSource(folder: string, names: seq<string>, q: Path) returns (k: nat)
    requires q in PdfFiles(folder, names)
    ensures k < |names| && q == Join(folder, names[k])
  {
    var rest := names[1..];
    if IsPdfName(names[0]) && q == Join(folder, names[0]) {
      k := 0;
    } else {
      assert q in PdfFiles(folder, rest);
      var k' := PdfFileSource(folder, rest, q);
      k := k' + 1;
    }
  }

  /** No path occurs twice. */
  predicate Distinct(ps: seq<Path>) {
    forall i, j :: 0 <= i < j < |ps| ==> ps[i] != ps[j]
  }

  lemma DistinctCons(p: Path, ps: seq<Path>)
    requires p !in ps && Distinct(ps)
    ensures Distinct([p] + ps)
  {
    var r := [p] + ps;
    forall i, j | 0 <= i < j < |r| ensures r[i] != r[j] {
      assert r[j] == ps[j - 1];
      if i > 0 {
        assert r[i] == ps[i - 1];
      }
    }
  }

  // ---------------------------------------------------------------------------
  // Labelling and bucketing (FileSorter.py:98-103)

  /** `extract_context_from_response(get_pdf_context(pdf))`. */
  function LabelOf(pdf: Path, parse: Path -> Option<string>, chat: Path -> string -> string): (context: Label)
    ensures Trimmed(context)
  {
    ExtractContext(PdfContext(parse(pdf), chat(pdf)))
  }

  /** The labelling of FileSorter.py:99-100 as a function of the file. */
  function Labeller(parse: Path -> Option<string>, chat: Path -> string -> string): Path -> Label {
    pdf => LabelOf(pdf, parse, chat)
  }

  /** The label of every file, in listing order. */
  function LabelsBy(pdfs: seq<Path>, labelOf: Path -> Label): (labels: seq<Label>)
    ensures |labels| == |pdfs|
  {
    seq(|pdfs|, i requires 0 <= i < |pdfs| => labelOf(pdfs[i]))
  }

  /**
   * The dictionary after `context_groups.setdefault(labels[i], []).append(pdfs[i])`
   * for each `i` in turn, starting from `{}`.
   */
  function Buckets(pdfs: seq<Path>, labels: seq<Label>): (g: Groups)
    requires |pdfs| == |labels|
    ensures UniqueKeys(g)
  {
    if |pdfs| == 0 then []
    else
      var n := |pdfs| - 1;
      Extend(Buckets(pdfs[..n], labels[..n]), labels[n], [pdfs[n]])
  }

  /**
   * The distinct elements of `ls` in order of first appearance: each element
   * of `ls` once, and an element before another exactly when it occurs in
   * `ls` before the other's first occurrence.
   */
  function FirstAppearances(ls: seq<Label>): (r: seq<Label>)
    ensures forall k :: k in r <==> k in ls
    ensures forall i, j :: 0 <= i < j < |r| ==> r[i] != r[j]
    ensures forall i, j :: 0 <= i < j < |r| ==> r[i] in ls[..IndexIn(ls, r[j]).value]
  {
    if ls == [] then []
    else
      var n := |ls| - 1;
      var p := FirstAppearances(ls[..n]);
      assert ls == ls[..n] + [ls[n]];
      forall k | k in ls[..n] ensures IndexIn(ls, k) == IndexIn(ls[..n], k) {
        var m := IndexIn(ls[..n], k).value;
        assert ls[..m] == ls[..n][..m];
        IndexInIs(ls, k, m);
      }
      if ls[n] in p then p
      else
        IndexInIs(ls, ls[n], n);
        p + [ls[n]]
  }

  /** The files labelled `k`, in listing order. */
  function FilesLabelled(pdfs: seq<Path>, labels: seq<Label>, k: Label): (files: seq<Path>)
    requires |pdfs| == |labels|
    ensures forall p <- files :: exists i :: 0 <= i < |pdfs| && pdfs[i] == p && labels[i] == k
    ensures forall i :: 0 <= i < |pdfs| && labels[i] == k ==> pdfs[i] in files
    ensures k !in labels ==> files == []
  {
    if pdfs == [] then []
    else
      var n := |pdfs| - 1;
      var before := FilesLabelled(pdfs[..n], labels[..n], k);
      assert forall i :: 0 <= i < n ==> pdfs[..n][i] == pdfs[i] && labels[..n][i] == labels[i];
      before + (if labels[n] == k then [pdfs[n]] else [])
  }

  /** Filing one more file. */
  lemma BucketsStep(pdfs: seq<Path>, labels: seq<Label>, i: nat)
    requires |pdfs| == |labels| && i < |pdfs|
    ensures Buckets(pdfs[..i + 1], labels[..i + 1]) == Extend(Buckets(pdfs[..i], labels[..i]), labels[i], [pdfs[i]])
  {
    assert pdfs[..i + 1][..i] == pdfs[..i] && labels[..i + 1][..i] == labels[..i];
  }

  /** One key per distinct label, in order of first appearance. */
  lemma {:induction false} BucketsKeys(pdfs: seq<Path>, labels: seq<Label>)
    requires |pdfs| == |labels|
    ensures Keys(Buckets(pdfs, labels)) == FirstAppearances(labels)
  {
    if pdfs != [] {
      var n := |pdfs| - 1;
      var g := Buckets(pdfs[..n], labels[..n]);
      var k := labels[n];
      BucketsKeys(pdfs[..n], labels[..n]);
      var before := FirstAppearances(labels[..n]);
      assert Keys(g) == before;
      assert FirstAppearances(labels) == if k in before then before else before + [k];
      assert Buckets(pdfs, labels) == Extend(g, k, [pdfs[n]]);
      if k !in before {
        KeysAppend(g, (k, [pdfs[n]]));
      }
    }
  }

  /** The key `k` holds the files labelled `k`, in listing order, and is absent when no file has that label. */
  lemma {:induction false} BucketsLists(pdfs: seq<Path>, labels: seq<Label>, k: Label)
    requires |pdfs| == |labels|
    ensures Lookup(Buckets(pdfs, labels), k) == if k in labels then Some(FilesLabelled(pdfs, labels, k)) else None
  {
    if pdfs != [] {
      var n := |pdfs| - 1;
      var g := Buckets(pdfs[..n], labels[..n]);
      var r := Extend(g, labels[n], [pdfs[n]]);
      assert Buckets(pdfs, labels) == r;
      BucketsLists(pdfs[..n], labels[..n], k);
      InPrefixOrLast(labels, k);
      var f := FilesLabelled(pdfs[..n], labels[..n], k);
      if k == labels[n] {
        if k in labels[..n] {
          assert Lookup(g, k) == Some(f);
        } else {
          assert f == [] && Lookup(g, k) == None;
        }
        assert ListOrEmpty(g, k) == f;
        assert FilesLabelled(pdfs, labels, k) == f + [pdfs[n]];
      } else {
        assert FilesLabelled(pdfs, labels, k) == f;
        assert k in labels <==> k in labels[..n];
      }
    }
  }

  /** A label occurs in a sequence exactly when it occurs before the last place or at it. */
  lemma InPrefixOrLast(ls: seq<Label>, k: Label)
    requires ls != []
    ensures k in ls <==> k in ls[..|ls| - 1] || k == ls[|ls| - 1]
  {
    assert ls == ls[..|ls| - 1] + [ls[|ls| - 1]];
  }

  /** The buckets hold non-empty lists. */
  lemma {:induction false} BucketsNonEmpty(pdfs: seq<Path>, labels: seq<Label>)
    requires |pdfs| == |labels|
    ensures NonEmptyLists(Buckets(pdfs, labels))
  {
    if |pdfs| != 0 {
      var n := |pdfs| - 1;
      var g := Buckets(pdfs[..n], labels[..n]);
      BucketsNonEmpty(pdfs[..n], labels[..n]);
      ExtendNonEmpty(g, labels[n], [pdfs[n]]);
    }
  }

  /** The buckets hold every file once. */
  lemma {:induction false} BucketsFiles(pdfs: seq<Path>, labels: seq<Label>)
    requires |pdfs| == |labels|
    ensures multiset(AllFiles(Buckets(pdfs, labels))) == multiset(pdfs)
  {
    if |pdfs| != 0 {
      var n := |pdfs| - 1;
      BucketsFiles(pdfs[..n], labels[..n]);
      ExtendFiles(Buckets(pdfs[..n], labels[..n]), labels[n], [pdfs[n]]);
      MultisetOfLast(pdfs);
    }
  }

  /** A sequence holds its prefix and its last element. */
  lemma MultisetOfLast(s: seq<Path>)
    requires |s| != 0
    ensures multiset(s) == multiset(s[..|s| - 1]) + multiset([s[|s| - 1]])
  {
    var n := |s| - 1;
    assert s[..n] + s[n..] == s;
    assert s[n..] == [s[n]];
  }

  /** With distinct paths, a file lies in the bucket of its own label and in no other. */
  lemma EachFileOneBucket(pdfs: seq<Path>, labels: seq<Label>, i: nat, k: Label)
    requires |pdfs| == |labels| && i < |pdfs| && Distinct(pdfs)
    ensures pdfs[i] in ListOrEmpty(Buckets(pdfs, labels), k) <==> k == labels[i]
  {
    BucketsLists(pdfs, labels, k);
    BucketsLists(pdfs, labels, labels[i]);
    assert labels[i] in labels;
  }

  /**
   * The bucketing loop of FileSorter.py:98-103; `labelOf` stands for
   * `extract_context_from_response(get_pdf_context(pdf))`.
   */
  method GroupByLabel(pdfs: seq<Path>, labelOf: Path -> Label) returns (contextGroups: Groups)
    ensures contextGroups == Buckets(pdfs, LabelsBy(pdfs, labelOf))
  {
    ghost var labels := LabelsBy(pdfs, labelOf);
    contextGroups := [];
    var i := 0;
    while i < |pdfs|
      invariant 0 <= i <= |pdfs|
      invariant contextGroups == Buckets(pdfs[..i], labels[..i])
    {
      var pdf := pdfs[i];
      var extractedContext := labelOf(pdf);
      BucketsStep(pdfs, labels, i);
      contextGroups := Extend(contextGroups, extractedContext, [pdf]);
      i := i + 1;
    }
    assert pdfs[..i] == pdfs && labels[..i] == labels;
  }

  // ---------------------------------------------------------------------------
  // Unification until nothing changes (FileSorter.py:106-110)

  /**
   * The dictionary the loop ends with: passes are applied until one returns
   * a dictionary equal to its input, and that input is the result.
   */
  function Unified(g: Groups): (r: Groups)
    requires UniqueKeys(g)
    ensures UniqueKeys(r) && DictEqual(Pass(r), r)
    ensures multiset(AllFiles(r)) == multiset(AllFiles(g))
    ensures |r| <= |g|
    decreases Pot(g)
  {
    PassProgress(g);
    PassKeepsFiles(g);
    PassShrinks(g);
    var next := Pass(g);
    if DictEqual(next, g) then g else Unified(next)
  }

  /** The loop keeps every list non-empty. */
  lemma {:induction false} UnifiedNonEmpty(g: Groups)
    requires UniqueKeys(g) && NonEmptyLists(g)
    ensures NonEmptyLists(Unified(g))
    decreases Pot(g)
  {
    PassProgress(g);
    PassKeepsFiles(g);
    if !DictEqual(Pass(g), g) {
      PassNonEmpty(g);
      UnifiedNonEmpty(Pass(g));
    }
  }

  /** A common name of a key that itself descends from `g` is a common name of a label of `g`. */
  lemma CommonNameOfDescendant(k: Label, h: Groups, g: Groups)
    requires forall a :: a in Keys(h) ==> a in Keys(g) || CommonNameOf(a, g)
    requires CommonNameOf(k, h)
    ensures CommonNameOf(k, g)
  {
    var a, b :| a in Keys(h) && FindCommonWords(a, b) == Some(k);
    if a !in Keys(g) {
      var a0, b0 :| a0 in Keys(g) && FindCommonWords(a0, b0) == Some(a);
      CommonNameWords(a, b);
      CommonNameWords(a0, b0);
      CommonNameCanonical(a, b);
      MeetOfSubset(WordSet(a0), WordSet(k));
      CommonWordsDetermined(a0, k, k, k);
    }
  }

  lemma MeetOfSubset(a: set<string>, k: set<string>)
    requires k <= a
    ensures a * k == k * k
  {
  }

  /** Every final label is a bucket label or a common-word name of one. */
  lemma {:induction false} UnifiedNames(g: Groups)
    requires UniqueKeys(g)
    ensures forall k :: k in Keys(Unified(g)) ==> k in Keys(g) || CommonNameOf(k, g)
    decreases Pot(g)
  {
    PassProgress(g);
    PassKeepsFiles(g);
    if !DictEqual(Pass(g), g) {
      var h := Pass(g);
      PassNames(g);
      UnifiedNames(h);
      forall k | k in Keys(Unified(g)) ensures k in Keys(g) || CommonNameOf(k, g) {
        assert k in Keys(Unified(h));
        if k !in Keys(h) {
          CommonNameOfDescendant(k, h, g);
        }
      }
    }
  }

  /**
   * A label that shares no word with any other label keeps its own group,
   * with its own files, until the loop ends; no final key shares a word with it.
   */
  lemma {:induction false} UnifiedKeepsUnshared(g: Groups, i: nat)
    requires UniqueKeys(g) && i < |g|
    requires forall j :: 0 <= j < |g| && j != i ==> !SharesWord(g[i].0, g[j].0)
    ensures Lookup(Unified(g), g[i].0) == Some(g[i].1)
    ensures forall k :: k in Keys(Unified(g)) && k != g[i].0 ==> !SharesWord(g[i].0, k)
    decreases Pot(g)
  {
    var (a, v) := g[i];
    PassProgress(g);
    PassKeepsFiles(g);
    PassKeepsUnshared(g, i);
    var h := Pass(g);
    if DictEqual(h, g) {
      LookupAt(g, i);
      forall k | k in Keys(g) && k != a ensures !SharesWord(a, k) {
        var j :| 0 <= j < |g| && Keys(g)[j] == k;
      }
    } else {
      var t := IndexOf(h, a).value;
      forall j | 0 <= j < |h| && j != t ensures !SharesWord(a, h[j].0) {
        assert Keys(h)[j] == h[j].0;
      }
      UnifiedKeepsUnshared(h, t);
    }
  }

  /** The `while True` loop of FileSorter.py:106-110. */
  method UnifyUntilStable(contextGroups: Groups) returns (stable: Groups)
    requires UniqueKeys(contextGroups)
    ensures stable == Unified(contextGroups)
  {
    stable := contextGroups;
    while true
      invariant UniqueKeys(stable) && Unified(stable) == Unified(contextGroups)
      decreases Pot(stable)
    {
      var newGroups := UnifyContextGroups(stable);
      if DictEqual(newGroups, stable) {
        break;
      }
      PassProgress(stable);
      stable := newGroups;
    }
  }

  // ---------------------------------------------------------------------------
  // The whole run

  /**
   * `process_pdf_folder` up to the copies: the final dictionary, the copies
   * made into the staging directory and the folders created there.
   */
  method ProcessPdfFolder(folder: string, names: seq<string>, parse: Path -> Option<string>, chat: Path -> string -> string)
    returns (contextGroups: Groups, copies: seq<Copy>, folders: seq<string>)
    ensures var pdfs := PdfFiles(folder, names);
            contextGroups == Unified(Buckets(pdfs, LabelsBy(pdfs, Labeller(parse, chat))))
    ensures copies == Plan(contextGroups, SafeName) && folders == Folders(contextGroups, SafeName)
    ensures DictEqual(Pass(contextGroups), contextGroups) && NonEmptyLists(contextGroups)
    ensures multiset(Sources(copies)) == multiset(PdfFiles(folder, names))
  {
    var pdfFiles := PdfFiles(folder, names);
    contextGroups := GroupByLabel(pdfFiles, Labeller(parse, chat));
    ghost var buckets := contextGroups;
    BucketsNonEmpty(pdfFiles, LabelsBy(pdfFiles, Labeller(parse, chat)));
    BucketsFiles(pdfFiles, LabelsBy(pdfFiles, Labeller(parse, chat)));
    contextGroups := UnifyUntilStable(contextGroups);
    UnifiedNonEmpty(buckets);
    copies, folders := PlanArchive(contextGroups);
  }
}
