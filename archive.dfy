/**
 * The layout of the archive (FileSorter.py:116-134): the folder-name
 * sanitiser and the plan saying where each file is copied. The copies
 * themselves, the staging directory and the zip file are not modelled.
 */
module Archive {
  import opened Text
  import opened Groups

  // ---------------------------------------------------------------------------
  // The sanitiser (FileSorter.py:121)

  /** A character that may appear in a folder name: alphanumeric, space, `_` or `-`. */
  predicate IsSafeChar(c: char) {
    IsAlnum(c) || c == ' ' || c == '_' || c == '-'
  }

  predicate AllSafe(s: string) {
    forall i :: 0 <= i < |s| ==> IsSafeChar(s[i])
  }

  /** The safe characters of `s`, in order. */
  function KeepSafe(s: string): (r: string)
    ensures |r| <= |s| && AllSafe(r)
  {
    if s == [] then []
    else (if IsSafeChar(s[0]) then [s[0]] else []) + KeepSafe(s[1..])
  }

  lemma {:induction false} KeepSafeOfSafe(s: string)
    requires AllSafe(s)
    ensures KeepSafe(s) == s
  {
    if s != [] {
      KeepSafeOfSafe(s[1..]);
    }
  }

  /** The fallback name for a label with no usable character. */
  const UNKNOWN: string := "Unknown"

  /** Stripping the safe characters leaves safe characters with no space at either end. */
  lemma StrippedSafe(s: string)
    ensures AllSafe(Strip(KeepSafe(s)))
    ensures Strip(KeepSafe(s)) != [] ==> Strip(KeepSafe(s))[0] != ' ' && Strip(KeepSafe(s))[|Strip(KeepSafe(s))| - 1] != ' '
  {
    var t := Strip(KeepSafe(s));
    StripChars(KeepSafe(s));
    StripIsTrimmed(KeepSafe(s));
    assert forall c <- KeepSafe(s) :: IsSafeChar(c);
  }

  lemma UnknownSafe()
    ensures AllSafe(UNKNOWN) && UNKNOWN[0] != ' ' && UNKNOWN[|UNKNOWN| - 1] != ' '
  {
  }

  /**
   * The folder name for a label: its safe characters with the surrounding
   * spaces removed, or `Unknown` when nothing but spaces is left.
   */
  function SafeName(context: string): (r: string)
    ensures r != [] && AllSafe(r)
    ensures r[0] != ' ' && r[|r| - 1] != ' '
  {
    var t := Strip(KeepSafe(context));
    StrippedSafe(context);
    UnknownSafe();
    if t == [] then UNKNOWN else t
  }

  /**
   * The folder name is the safe characters of the label without surrounding
   * spaces, or `Unknown` exactly when those are all spaces.
   */
  lemma SafeNameCases(context: string)
    ensures AllSpace(KeepSafe(context)) ==> SafeName(context) == UNKNOWN
    ensures !AllSpace(KeepSafe(context)) ==> exists a: nat :: StripsTo(KeepSafe(context), a, SafeName(context))
  {
    var kept := KeepSafe(context);
    StripEmpty(kept);
    if !AllSpace(kept) {
      assert SafeName(context) == Strip(kept);
      var a: nat :| StripsTo(kept, a, Strip(kept));
    }
  }

  /** A safe, nonempty name with no space at either end is trimmed. */
  lemma SafeTrimmed(n: string)
    requires n != [] && AllSafe(n) && n[0] != ' ' && n[|n| - 1] != ' '
    ensures Trimmed(n)
  {
    assert IsSafeChar(n[0]) && IsSafeChar(n[|n| - 1]);
  }

  /** A name that is already safe, trimmed and nonempty is its own folder name. */
  lemma SafeNameOfSafe(n: string)
    requires n != [] && AllSafe(n) && n[0] != ' ' && n[|n| - 1] != ' '
    ensures SafeName(n) == n
  {
    KeepSafeOfSafe(n);
    SafeTrimmed(n);
    StripTrimmed(n);
  }

  /** Sanitising a folder name again changes nothing. */
  lemma SafeNameIdempotent(context: string)
    ensures SafeName(SafeName(context)) == SafeName(context)
  {
    SafeNameOfSafe(SafeName(context));
  }

  /** The folder name depends only on the safe characters of the label. */
  lemma SafeNameOfKept(context: string)
    ensures SafeName(context) == SafeName(KeepSafe(context))
  {
    KeepSafeOfSafe(KeepSafe(context));
  }

  /** A label whose safe characters already form a folder name gets that name. */
  lemma SafeNameWhenKept(context: string, n: string)
    requires KeepSafe(context) == n && n != [] && n[0] != ' ' && n[|n| - 1] != ' '
    ensures SafeName(context) == n
  {
    SafeNameOfKept(context);
    SafeNameOfSafe(n);
  }

  /** A label with nothing but spaces among its safe characters gets the fallback name. */
  lemma SafeNameWhenBlank(context: string, n: string)
    requires KeepSafe(context) == n && AllSpace(n)
    ensures SafeName(context) == UNKNOWN
  {
    SafeNameCases(context);
  }

  lemma {:induction false} KeepSafeConcat(s: string, t: string)
    ensures KeepSafe(s + t) == KeepSafe(s) + KeepSafe(t)
  {
    if s == [] {
      assert s + t == t;
    } else {
      var x := if IsSafeChar(s[0]) then [s[0]] else [];
      assert (s + t)[0] == s[0];
      assert (s + t)[1..] == s[1..] + t;
      KeepSafeConcat(s[1..], t);
      calc {
        KeepSafe(s + t);
        x + KeepSafe(s[1..] + t);
        x + (KeepSafe(s[1..]) + KeepSafe(t));
        (x + KeepSafe(s[1..])) + KeepSafe(t);
        KeepSafe(s) + KeepSafe(t);
      }
    }
  }

  /** Filtering one more character: it is kept exactly when it is safe. */
  lemma KeepSafeSnoc(s: string, c: char)
    ensures KeepSafe(s + [c]) == KeepSafe(s) + (if IsSafeChar(c) then [c] else [])
  {
    KeepSafeConcat(s, [c]);
    assert [c][1..] == [];
  }

  /** A single unsafe character is dropped. */
  lemma KeepSafeUnsafe(b: string)
    requires |b| == 1 && !IsSafeChar(b[0])
    ensures KeepSafe(b) == []
  {
    assert b[1..] == [];
  }

  /** Two safe runs, each followed by one unsafe character, keep only the runs. */
  lemma KeepSafeDrops(a: string, b: string, c: string, d: string)
    requires AllSafe(a) && AllSafe(c) && |b| == 1 && |d| == 1 && !IsSafeChar(b[0]) && !IsSafeChar(d[0])
    ensures KeepSafe(a + b + c + d) == a + c
  {
    var ab := a + b;
    var abc := ab + c;
    KeepSafeOfSafe(a);
    KeepSafeOfSafe(c);
    KeepSafeUnsafe(b);
    KeepSafeUnsafe(d);
    KeepSafeConcat(a, b);
    assert KeepSafe(ab) == a;
    KeepSafeConcat(ab, c);
    assert KeepSafe(abc) == a + c;
    KeepSafeConcat(abc, d);
    assert KeepSafe(abc + d) == a + c;
  }

  lemma KeepSafeFinance()
    ensures KeepSafe("Finance/Q3!") == "FinanceQ3"
  {
    KeepSafeDrops("Finance", "/", "Q3", "!");
    assert "Finance" + "/" + "Q3" + "!" == "Finance/Q3!";
    assert "Finance" + "Q3" == "FinanceQ3";
  }

  lemma KeepSafeBlank()
    ensures KeepSafe(" /!? ") == "  " && AllSpace("  ")
  {
  }

  /** The worked example: `Finance/Q3!` becomes `FinanceQ3`. */
  lemma SafeNameExample()
    ensures SafeName("Finance/Q3!") == "FinanceQ3"
  {
    KeepSafeFinance();
    SafeNameWhenKept("Finance/Q3!", "FinanceQ3");
  }

  /** A label made only of unsafe characters and spaces gets the fallback name. */
  lemma SafeNameFallback()
    ensures SafeName(" /!? ") == UNKNOWN
  {
    KeepSafeBlank();
    SafeNameWhenBlank(" /!? ", "  ");
  }

  // ---------------------------------------------------------------------------
  // The placement plan (FileSorter.py:119-134)

  /** The archive root or a named subfolder of it. */
  datatype Dest = Root | Subfolder(name: string)

  /** One `copy2` call: the file and the directory it is copied into. */
  datatype Copy = Copy(source: Path, dest: Dest)

  /**
   * Where the files of one group go when folders are named by `name`: a
   * group of more than one file gets a subfolder, a single file stays at the
   * root. The program names folders with `SafeName`; the properties of the
   * plan hold for any naming function.
   */
  function DestOf(e: Entry, name: Label -> string): Dest {
    if |e.1| > 1 then Subfolder(name(e.0)) else Root
  }

  function GroupCopies(e: Entry, name: Label -> string): seq<Copy> {
    seq(|e.1|, j requires 0 <= j < |e.1| => Copy(e.1[j], DestOf(e, name)))
  }

  /** The copies, group after group in dictionary order. */
  function Plan(g: Groups, name: Label -> string): seq<Copy> {
    if g == [] then [] else Plan(g[..|g| - 1], name) + GroupCopies(g[|g| - 1], name)
  }

  /** The folders created, one per group sent to a subfolder, in dictionary order. */
  function Folders(g: Groups, name: Label -> string): seq<string> {
    if g == [] then []
    else
      var d := DestOf(g[|g| - 1], name);
      Folders(g[..|g| - 1], name) + (if d.Subfolder? then [d.name] else [])
  }

  function Sources(cs: seq<Copy>): seq<Path> {
    seq(|cs|, i requires 0 <= i < |cs| => cs[i].source)
  }

  /** The files copied are exactly the files of the groups, each once, in dictionary order. */
  lemma {:induction false} PlanSources(g: Groups, name: Label -> string)
    ensures Sources(Plan(g, name)) == AllFiles(g)
  {
    if g != [] {
      var n := |g| - 1;
      PlanSources(g[..n], name);
      assert g == g[..n] + [g[n]];
      AllFilesAppend(g[..n], g[n]);
      assert Sources(Plan(g, name)) == Sources(Plan(g[..n], name)) + Sources(GroupCopies(g[n], name));
    }
  }

  /**
   * Every file of every group is copied to its group's destination, and every
   * copy is of a file of a group going to that group's destination.
   */
  lemma {:induction false} PlanDestinations(g: Groups, name: Label -> string)
    ensures forall i, j :: 0 <= i < |g| && 0 <= j < |g[i].1| ==> Copy(g[i].1[j], DestOf(g[i], name)) in Plan(g, name)
    ensures forall c <- Plan(g, name) :: exists i :: 0 <= i < |g| && c.source in g[i].1 && c.dest == DestOf(g[i], name)
  {
    if g != [] {
      var n := |g| - 1;
      PlanDestinations(g[..n], name);
      forall i, j | 0 <= i < |g| && 0 <= j < |g[i].1| ensures Copy(g[i].1[j], DestOf(g[i], name)) in Plan(g, name) {
        if i < n {
          assert g[..n][i] == g[i];
        } else {
          assert GroupCopies(g[n], name)[j] == Copy(g[i].1[j], DestOf(g[i], name));
        }
      }
      forall c <- Plan(g, name) ensures exists i :: 0 <= i < |g| && c.source in g[i].1 && c.dest == DestOf(g[i], name) {
        if c in Plan(g[..n], name) {
          var i :| 0 <= i < n && c.source in g[..n][i].1 && c.dest == DestOf(g[..n][i], name);
          assert g[..n][i] == g[i];
        } else {
          var j :| 0 <= j < |g[n].1| && GroupCopies(g[n], name)[j] == c;
          assert c.source in g[n].1;
        }
      }
    }
  }

  /** A folder is created exactly for the subfolders the groups are sent to. */
  lemma {:induction false} FoldersOfGroups(g: Groups, name: Label -> string)
    ensures forall n <- Folders(g, name) :: exists i :: 0 <= i < |g| && DestOf(g[i], name) == Subfolder(n)
    ensures forall i :: 0 <= i < |g| && DestOf(g[i], name).Subfolder? ==> DestOf(g[i], name).name in Folders(g, name)
  {
    if g != [] {
      var m := |g| - 1;
      var p := g[..m];
      FoldersOfGroups(p, name);
      assert forall i :: 0 <= i < m ==> p[i] == g[i];
    }
  }

  /** Every subfolder a file is copied into is one of the folders created. */
  lemma PlanFolders(g: Groups, name: Label -> string)
    ensures forall c <- Plan(g, name) :: c.dest.Subfolder? ==> c.dest.name in Folders(g, name)
  {
    PlanDestinations(g, name);
    FoldersOfGroups(g, name);
  }

  lemma PlanPrefix(g: Groups, i: nat, name: Label -> string)
    requires i < |g|
    ensures Plan(g[..i + 1], name) == Plan(g[..i], name) + GroupCopies(g[i], name)
    ensures Folders(g[..i + 1], name) == Folders(g[..i], name) + (if DestOf(g[i], name).Subfolder? then [DestOf(g[i], name).name] else [])
  {
    assert g[..i + 1][..i] == g[..i];
  }

  /** The loop of FileSorter.py:119-134, recording the copies and folder creations it makes. */
  method PlanArchive(contextGroups: Groups) returns (copies: seq<Copy>, folders: seq<string>)
    ensures copies == Plan(contextGroups, SafeName) && folders == Folders(contextGroups, SafeName)
    ensures Sources(copies) == AllFiles(contextGroups)
  {
    copies, folders := [], [];
    var i := 0;
    while i < |contextGroups|
      invariant 0 <= i <= |contextGroups|
      invariant copies == Plan(contextGroups[..i], SafeName) && folders == Folders(contextGroups[..i], SafeName)
    {
      PlanPrefix(contextGroups, i, SafeName);
      copies, folders := PlaceGroup(contextGroups[i], copies, folders);
      i := i + 1;
    }
    assert contextGroups[..i] == contextGroups;
    PlanSources(contextGroups, SafeName);
  }

  /** One turn of the loop: the folder for a group of several files, then the copy of each file. */
  method PlaceGroup(e: Entry, copies: seq<Copy>, folders: seq<string>) returns (copies': seq<Copy>, folders': seq<string>)
    ensures copies' == copies + GroupCopies(e, SafeName)
    ensures folders' == folders + (if DestOf(e, SafeName).Subfolder? then [DestOf(e, SafeName).name] else [])
  {
    var (context, files) := e;
    var dest := Root;
    folders' := folders;
    if |files| > 1 {
      var safeContext := SafeName(context);
      folders' := folders + [safeContext];
      dest := Subfolder(safeContext);
    }
    assert dest == DestOf(e, SafeName);
    copies' := copies;
    var j := 0;
    while j < |files|
      invariant 0 <= j <= |files|
      invariant copies' == copies + GroupCopies(e, SafeName)[..j]
    {
      copies' := copies' + [Copy(files[j], dest)];
      assert GroupCopies(e, SafeName)[..j + 1] == GroupCopies(e, SafeName)[..j] + [Copy(files[j], dest)];
      j := j + 1;
    }
    assert GroupCopies(e, SafeName)[..j] == GroupCopies(e, SafeName);
  }
}
