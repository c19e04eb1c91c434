/**
  The tree differ: the comparison section of `RunTest`. A forward pass walks
  the reference output (tree A), records every relative path it sees, and
  checks each entry's presence, kind and (for files) bytes in the candidate
  output (tree B). A reverse pass walks tree B and reports every path the
  forward pass never saw as extra. Neither pass stops at a mismatch, and the
  test passes exactly when no difference was reported.

  A difference message is modelled as its kind and path rather than as text.
*/
module TreeDiff {
  import opened Wrappers
  import opened FileTree
  import opened TreeWalk
  import opened ByteCompare

  datatype DiffKind =
    | DirectoryWasFile        // "Directory <path> was a file instead"
    | DirectoryMissing        // "Directory <path> did not exist"
    | FileWasDirectory        // "File <path> was a directory instead"
    | FileMissing             // "File <path> did not exist"
    | FileTooLong             // "File <path> was too long"
    | FileTooShort            // "File <path> was too short"
    | FileContentsDiffer      // "File <path> had different contents"
    | Extra(kind: FileKind)   // "Extra <kind> <path>"

  datatype Difference = Difference(kind: DiffKind, path: Path)

  /** The difference the byte comparison reports, if any. */
  function ContentDiff(v: Verdict): Option<DiffKind> {
    match v
    case Identical => None
    case TooLong => Some(FileTooLong)
    case TooShort => Some(FileTooShort)
    case DifferentContents => Some(FileContentsDiffer)
  }

  /** The difference "did not exist" reports for a missing entry of this kind. */
  function MissingKind(k: FileKind): DiffKind {
    if k == Directory then DirectoryMissing else FileMissing
  }

  /** The difference "... instead" reports for an entry of this kind found with the other kind. */
  function WrongKind(k: FileKind): DiffKind {
    if k == Directory then DirectoryWasFile else FileWasDirectory
  }

  /** What the forward pass reports for one entry of tree A's walk: at most one difference. */
  function ForwardDiff(a: Tree, b: Tree, e: Entry): (r: Option<Difference>)
    requires ValidEntry(a, e)
    ensures r.Some? ==> r.value.path == e.path
  {
    if e.kind == Directory then
      if DirectoryExists(b, e.path) then None
      else if FileExists(b, e.path) then Some(Difference(DirectoryWasFile, e.path))
      else Some(Difference(DirectoryMissing, e.path))
    else if !FileExists(b, e.path) then
      if DirectoryExists(b, e.path) then Some(Difference(FileWasDirectory, e.path))
      else Some(Difference(FileMissing, e.path))
    else
      match ContentDiff(CompareBytes(a[e.path].contents, b[e.path].contents))
      case None => None
      case Some(k) => Some(Difference(k, e.path))
  }

  /** The forward pass over a prefix of tree A's walk. */
  ghost function ForwardDiffs(a: Tree, b: Tree, s: seq<Entry>): seq<Difference>
    requires forall i :: 0 <= i < |s| ==> ValidEntry(a, s[i])
  {
    if s == [] then []
    else ForwardDiffs(a, b, s[..|s| - 1]) + OptionToSeq(ForwardDiff(a, b, s[|s| - 1]))
  }

  /** The reverse pass over a prefix of tree B's walk, given the paths the forward pass saw. */
  ghost function ExtraDiffs(s: seq<Entry>, seen: set<Path>): seq<Difference> {
    if s == [] then []
    else
      var e := s[|s| - 1];
      ExtraDiffs(s[..|s| - 1], seen) + if e.path in seen then [] else [Difference(Extra(e.kind), e.path)]
  }

  /**
    Every difference `RunTest` reports, in order: the forward pass in tree
    A's walk order, then the extras in tree B's walk order.
  */
  ghost function Diffs(a: Tree, b: Tree): (r: seq<Difference>)
    requires WellFormed(a) && WellFormed(b)
    ensures |r| <= |Walk(a)| + |Walk(b)|
  {
    WalkIsSnapshot(a);
    ForwardDiffsLength(a, b, Walk(a));
    ExtraDiffsLength(Walk(b), PathSet(Walk(a)));
    ForwardDiffs(a, b, Walk(a)) + ExtraDiffs(Walk(b), PathSet(Walk(a)))
  }

  /** The forward pass reports at most one difference per entry. */
  lemma {:induction false} ForwardDiffsLength(a: Tree, b: Tree, s: seq<Entry>)
    requires forall i :: 0 <= i < |s| ==> ValidEntry(a, s[i])
    ensures |ForwardDiffs(a, b, s)| <= |s|
  {
    if s != [] {
      ForwardDiffsLength(a, b, s[..|s| - 1]);
    }
  }

  /** The reverse pass reports at most one difference per entry. */
  lemma {:induction false} ExtraDiffsLength(s: seq<Entry>, seen: set<Path>)
    ensures |ExtraDiffs(s, seen)| <= |s|
  {
    if s != [] {
      ExtraDiffsLength(s[..|s| - 1], seen);
    }
  }

  /** Path `p` holds the same kind of entry in both trees and, for a file, the same bytes. */
  ghost predicate SameEntry(a: Tree, b: Tree, p: Path) {
    && p in a && p in b
    && KindOf(a[p]) == KindOf(b[p])
    && (a[p].FileNode? && b[p].FileNode? ==> a[p].contents == b[p].contents)
  }

  /** Same paths, same kinds, same bytes; the listing order of directories is not compared. */
  ghost predicate Equivalent(a: Tree, b: Tree) {
    && (forall p :: p in a ==> SameEntry(a, b, p))
    && (forall p :: p in b ==> p in a)
  }

  /** The differences that name path `p`, in order. */
  ghost function DiffsAt(ds: seq<Difference>, p: Path): seq<Difference> {
    if ds == [] then []
    else DiffsAt(ds[..|ds| - 1], p) + if ds[|ds| - 1].path == p then [ds[|ds| - 1]] else []
  }

  /** Forward-pass classification: an entry of A causes no difference exactly when B has the same entry. */
  lemma {:induction false} ForwardDiffNone(a: Tree, b: Tree, e: Entry)
    requires ValidEntry(a, e)
    ensures ForwardDiff(a, b, e).None? <==> SameEntry(a, b, e.path)
  {
    if e.path in b && a[e.path].FileNode? && b[e.path].FileNode? {
      CompareBytesMeaning(a[e.path].contents, b[e.path].contents);
    }
  }

  lemma {:induction false} ForwardDiffsEmpty(a: Tree, b: Tree, s: seq<Entry>)
    requires forall i :: 0 <= i < |s| ==> ValidEntry(a, s[i])
    ensures ForwardDiffs(a, b, s) == [] <==> forall i :: 0 <= i < |s| ==> ForwardDiff(a, b, s[i]).None?
  {
    if s != [] {
      var init := s[..|s| - 1];
      ForwardDiffsEmpty(a, b, init);
      assert forall i :: 0 <= i < |init| ==> init[i] == s[i];
    }
  }

  lemma {:induction false} ExtraDiffsEmpty(s: seq<Entry>, seen: set<Path>)
    ensures ExtraDiffs(s, seen) == [] <==> forall i :: 0 <= i < |s| ==> s[i].path in seen
  {
    if s != [] {
      var init := s[..|s| - 1];
      ExtraDiffsEmpty(init, seen);
      assert forall i :: 0 <= i < |init| ==> init[i] == s[i];
    }
  }

  /**
    Pass iff no differences, and no differences iff the trees agree: the
    diff of A against B is empty exactly when B has the same paths as A,
    with the same kinds and the same file bytes.
  */
  lemma {:induction false} PassIffEquivalent(a: Tree, b: Tree)
    requires WellFormed(a) && WellFormed(b)
    ensures Diffs(a, b) == [] <==> Equivalent(a, b)
  {
    WalkIsSnapshot(a);
    WalkIsSnapshot(b);
    var wa := Walk(a);
    var wb := Walk(b);
    var forward := ForwardDiffs(a, b, wa);
    var extra := ExtraDiffs(wb, PathSet(wa));
    assert Diffs(a, b) == forward + extra;
    assert forward + extra == [] <==> forward == [] && extra == [] by {
      assert |forward + extra| == |forward| + |extra|;
    }
    ForwardDiffsEmpty(a, b, wa);
    ExtraDiffsEmpty(wb, PathSet(wa));
    ForwardClean(a, b, wa);
    ExtraClean(a, b, wa, wb);
    EquivalentBelowRoot(a, b);
  }

  /** The forward pass over a snapshot of A is clean exactly when B agrees with A on every path below the root. */
  lemma {:induction false} ForwardClean(a: Tree, b: Tree, wa: seq<Entry>)
    requires IsSnapshot(a, wa)
    ensures (forall i :: 0 <= i < |wa| ==> ForwardDiff(a, b, wa[i]).None?) <==>
      (forall p :: p in a && p != [] ==> SameEntry(a, b, p))
  {
    forall i | 0 <= i < |wa| ensures ForwardDiff(a, b, wa[i]).None? <==> SameEntry(a, b, wa[i].path) {
      ForwardDiffNone(a, b, wa[i]);
    }
    if forall i :: 0 <= i < |wa| ==> ForwardDiff(a, b, wa[i]).None? {
      forall p | p in a && p != [] ensures SameEntry(a, b, p) {
        SnapshotEntryAt(a, wa, p);
        var i :| 0 <= i < |wa| && wa[i] == Entry(KindOf(a[p]), p);
      }
    }
  }

  /** The reverse pass over a snapshot of B is clean exactly when every path of B below the root is in A. */
  lemma {:induction false} ExtraClean(a: Tree, b: Tree, wa: seq<Entry>, wb: seq<Entry>)
    requires IsSnapshot(a, wa) && IsSnapshot(b, wb)
    ensures (forall j :: 0 <= j < |wb| ==> wb[j].path in PathSet(wa)) <==>
      (forall p :: p in b && p != [] ==> p in a)
  {
    if forall j :: 0 <= j < |wb| ==> wb[j].path in PathSet(wa) {
      forall p | p in b && p != [] ensures p in a {
        SnapshotEntryAt(b, wb, p);
        var j :| 0 <= j < |wb| && wb[j] == Entry(KindOf(b[p]), p);
        assert p in PathSet(wa);
        var e :| e in wa && e.path == p;
      }
    }
    if forall p :: p in b && p != [] ==> p in a {
      forall j | 0 <= j < |wb| ensures wb[j].path in PathSet(wa) {
        assert wb[j].path in a;
      }
    }
  }

  /** Both roots are directories, so equivalence is decided below the root. */
  lemma {:induction false} EquivalentBelowRoot(a: Tree, b: Tree)
    requires DirectoryExists(a, []) && DirectoryExists(b, [])
    ensures Equivalent(a, b) <==>
      (forall p :: p in a && p != [] ==> SameEntry(a, b, p)) && (forall p :: p in b && p != [] ==> p in a)
  {
    assert SameEntry(a, b, []);
  }

  /** The first `|s| - 1` entries of a snapshot without duplicates have no duplicates and do not repeat the last path. */
  lemma {:induction false} DistinctInit(s: seq<Entry>)
    requires s != [] && DistinctPaths(s)
    ensures DistinctPaths(s[..|s| - 1])
    ensures forall k :: 0 <= k < |s| - 1 ==> s[k].path != s[|s| - 1].path
  {
    var init := s[..|s| - 1];
    forall i, j | 0 <= i < j < |init| ensures init[i].path != init[j].path {
      assert init[i] == s[i] && init[j] == s[j];
    }
  }

  /** Reflexivity: a tree compared with itself yields no difference. */
  lemma {:induction false} DiffsOfSelf(a: Tree)
    requires WellFormed(a)
    ensures Diffs(a, a) == []
  {
    PassIffEquivalent(a, a);
  }

  lemma {:induction false} DiffsAtAppend(x: seq<Difference>, y: seq<Difference>, p: Path)
    ensures DiffsAt(x + y, p) == DiffsAt(x, p) + DiffsAt(y, p)
    decreases |y|
  {
    if y == [] {
      assert x + y == x;
    } else {
      assert (x + y)[..|x + y| - 1] == x + y[..|y| - 1];
      DiffsAtAppend(x, y[..|y| - 1], p);
    }
  }

  /** Filtering a sequence of at most one difference by path. */
  lemma {:induction false} DiffsAtOne(ds: seq<Difference>, p: Path)
    requires |ds| <= 1
    ensures DiffsAt(ds, p) == if ds != [] && ds[0].path == p then ds else []
  {
    if ds != [] {
      assert ds[..0] == [];
    }
  }

  /** No entry of `s` has path `p`. */
  lemma {:induction false} NotInPathSet(s: seq<Entry>, p: Path)
    requires forall i :: 0 <= i < |s| ==> s[i].path != p
    ensures p !in PathSet(s)
  {
    forall e | e in s ensures e.path != p {
    }
  }

  lemma {:induction false} ForwardDiffsAbsent(a: Tree, b: Tree, s: seq<Entry>, p: Path)
    requires forall i :: 0 <= i < |s| ==> ValidEntry(a, s[i])
    requires forall i :: 0 <= i < |s| ==> s[i].path != p
    ensures DiffsAt(ForwardDiffs(a, b, s), p) == []
  {
    if s != [] {
      var init := s[..|s| - 1];
      ForwardDiffsAbsent(a, b, init, p);
      var tail := OptionToSeq(ForwardDiff(a, b, s[|s| - 1]));
      DiffsAtAppend(ForwardDiffs(a, b, init), tail, p);
      DiffsAtOne(tail, p);
    }
  }

  lemma {:induction false} ForwardDiffsAt(a: Tree, b: Tree, s: seq<Entry>, i: nat)
    requires forall i :: 0 <= i < |s| ==> ValidEntry(a, s[i])
    requires DistinctPaths(s) && i < |s|
    ensures DiffsAt(ForwardDiffs(a, b, s), s[i].path) == OptionToSeq(ForwardDiff(a, b, s[i]))
  {
    var p := s[i].path;
    var init := s[..|s| - 1];
    DistinctInit(s);
    var tail := OptionToSeq(ForwardDiff(a, b, s[|s| - 1]));
    DiffsAtAppend(ForwardDiffs(a, b, init), tail, p);
    DiffsAtOne(tail, p);
    if i == |s| - 1 {
      ForwardDiffsAbsent(a, b, init, p);
    } else {
      ForwardDiffsAt(a, b, init, i);
    }
  }

  lemma {:induction false} ExtraDiffsAbsent(s: seq<Entry>, seen: set<Path>, p: Path)
    requires p in seen || forall i :: 0 <= i < |s| ==> s[i].path != p
    ensures DiffsAt(ExtraDiffs(s, seen), p) == []
  {
    if s != [] {
      var init := s[..|s| - 1];
      var last := s[|s| - 1];
      ExtraDiffsAbsent(init, seen, p);
      var tail := if last.path in seen then [] else [Difference(Extra(last.kind), last.path)];
      DiffsAtAppend(ExtraDiffs(init, seen), tail, p);
      DiffsAtOne(tail, p);
    }
  }

  lemma {:induction false} ExtraDiffsAt(s: seq<Entry>, seen: set<Path>, i: nat)
    requires DistinctPaths(s) && i < |s| && s[i].path !in seen
    ensures DiffsAt(ExtraDiffs(s, seen), s[i].path) == [Difference(Extra(s[i].kind), s[i].path)]
  {
    var p := s[i].path;
    var init := s[..|s| - 1];
    var last := s[|s| - 1];
    DistinctInit(s);
    var tail := if last.path in seen then [] else [Difference(Extra(last.kind), last.path)];
    DiffsAtAppend(ExtraDiffs(init, seen), tail, p);
    DiffsAtOne(tail, p);
    if i == |s| - 1 {
      ExtraDiffsAbsent(init, seen, p);
    } else {
      ExtraDiffsAt(init, seen, i);
    }
  }

  /**
    Exhaustiveness, per path: the differences that name `p` are exactly the
    forward-pass verdict for `p` when A has `p`, one "Extra" when only B has
    it, and none otherwise. In particular every path is reported at most
    once, and the root never.
  */
  lemma {:induction false} DifferencesAt(a: Tree, b: Tree, p: Path)
    requires WellFormed(a) && WellFormed(b)
    ensures DiffsAt(Diffs(a, b), p) ==
      if p == [] then []
      else if p in a then OptionToSeq(ForwardDiff(a, b, Entry(KindOf(a[p]), p)))
      else if p in b then [Difference(Extra(KindOf(b[p])), p)]
      else []
  {
    WalkIsSnapshot(a);
    WalkIsSnapshot(b);
    SnapshotDiffsAt(a, b, Walk(a), Walk(b), p);
  }

  /** `DifferencesAt` for any two snapshots of the trees, whatever their order. */
  lemma {:induction false} SnapshotDiffsAt(a: Tree, b: Tree, wa: seq<Entry>, wb: seq<Entry>, p: Path)
    requires IsSnapshot(a, wa) && IsSnapshot(b, wb)
    ensures DiffsAt(ForwardDiffs(a, b, wa) + ExtraDiffs(wb, PathSet(wa)), p) ==
      if p == [] then []
      else if p in a then OptionToSeq(ForwardDiff(a, b, Entry(KindOf(a[p]), p)))
      else if p in b then [Difference(Extra(KindOf(b[p])), p)]
      else []
  {
    var seen := PathSet(wa);
    DiffsAtAppend(ForwardDiffs(a, b, wa), ExtraDiffs(wb, seen), p);
    if p != [] && p in a {
      SnapshotEntryAt(a, wa, p);
      var i :| 0 <= i < |wa| && wa[i] == Entry(KindOf(a[p]), p);
      ForwardDiffsAt(a, b, wa, i);
      assert p in seen;
      ExtraDiffsAbsent(wb, seen, p);
    } else {
      ForwardDiffsAbsent(a, b, wa, p);
      NotInPathSet(wa, p);
      if p != [] && p in b {
        SnapshotEntryAt(b, wb, p);
        var j :| 0 <= j < |wb| && wb[j] == Entry(KindOf(b[p]), p);
        ExtraDiffsAt(wb, seen, j);
      } else {
        ExtraDiffsAbsent(wb, seen, p);
      }
    }
  }

  /** A path whose kind differs between the trees is reported once, as a kind mismatch, never as extra. */
  lemma {:induction false} KindMismatchReportedOnce(a: Tree, b: Tree, p: Path)
    requires WellFormed(a) && WellFormed(b)
    requires p in a && p in b && KindOf(a[p]) != KindOf(b[p])
    ensures DiffsAt(Diffs(a, b), p) == [Difference(WrongKind(KindOf(a[p])), p)]
  {
    DifferencesAt(a, b, p);
    assert p != [] by {
      assert DirectoryExists(a, []) && DirectoryExists(b, []);
    }
  }

  /**
    Symmetry of detection, asymmetry of labelling: a path only A has is
    "did not exist" when A is the reference and "Extra" when B is.
  */
  lemma {:induction false} MissingVersusExtra(a: Tree, b: Tree, p: Path)
    requires WellFormed(a) && WellFormed(b)
    requires p in a && p !in b
    ensures DiffsAt(Diffs(a, b), p) == [Difference(MissingKind(KindOf(a[p])), p)]
    ensures DiffsAt(Diffs(b, a), p) == [Difference(Extra(KindOf(a[p])), p)]
  {
    DifferencesAt(a, b, p);
    DifferencesAt(b, a, p);
    assert p != [] by {
      assert DirectoryExists(b, []);
    }
  }

  /**
    The forward pass's check of one entry of the reference tree: a directory
    must be a directory in the candidate tree, a file must be a file there
    with the same bytes, compared by streaming both files.
  */
  method CheckEntry(a: Tree, b: Tree, e: Entry) returns (d: Option<Difference>)
    requires ValidEntry(a, e)
    ensures d == ForwardDiff(a, b, e)
  {
    var path := e.path;
    d := None;
    if e.kind == Directory {
      if !DirectoryExists(b, path) {
        if FileExists(b, path) {
          d := Some(Difference(DirectoryWasFile, path));
        } else {
          d := Some(Difference(DirectoryMissing, path));
        }
      }
    } else {
      if !FileExists(b, path) {
        if DirectoryExists(b, path) {
          d := Some(Difference(FileWasDirectory, path));
        } else {
          d := Some(Difference(FileMissing, path));
        }
      } else {
        var f1 := new ByteStream(a[path].contents);
        var f2 := new ByteStream(b[path].contents);
        var verdict := CompareStreams(f1, f2);
        if verdict == TooLong {
          d := Some(Difference(FileTooLong, path));
        } else if verdict == TooShort {
          d := Some(Difference(FileTooShort, path));
        } else if verdict == DifferentContents {
          d := Some(Difference(FileContentsDiffer, path));
        }
        f1.Close();
        f2.Close();
      }
    }
  }

  /** One step of the forward pass over a walk. */
  lemma {:induction false} ForwardDiffsStep(a: Tree, b: Tree, s: seq<Entry>, i: nat)
    requires forall i :: 0 <= i < |s| ==> ValidEntry(a, s[i])
    requires i < |s|
    ensures ForwardDiffs(a, b, s[..i + 1]) == ForwardDiffs(a, b, s[..i]) + OptionToSeq(ForwardDiff(a, b, s[i]))
  {
    assert s[..i + 1][..i] == s[..i];
  }

  /** One step of collecting the paths of a walk. */
  lemma {:induction false} PathSetStep(s: seq<Entry>, i: nat)
    requires i < |s|
    ensures PathSet(s[..i + 1]) == PathSet(s[..i]) + {s[i].path}
  {
    assert s[..i + 1] == s[..i] + [s[i]];
    PathSetAppend(s[..i], [s[i]]);
  }

  lemma {:induction false} SeqAppendAssoc(x: seq<Difference>, y: seq<Difference>, d: Difference)
    ensures (x + y) + [d] == x + (y + [d])
  {
  }

  /** One step of the reverse pass over a walk. */
  lemma {:induction false} ExtraDiffsStep(s: seq<Entry>, seen: set<Path>, j: nat)
    requires j < |s|
    ensures ExtraDiffs(s[..j + 1], seen) ==
      ExtraDiffs(s[..j], seen) + if s[j].path in seen then [] else [Difference(Extra(s[j].kind), s[j].path)]
  {
    assert s[..j + 1][..j] == s[..j];
  }

  /**
    `RunTest`'s comparison section. `a` and `b` are the trees found in the
    old and new binder tools' output directories once both tools have run or
    been skipped. Returns the `ok` flag and the differences in the order
    they were reported.
  */
  method RunTest(a: Tree, b: Tree) returns (ok: bool, diffs: seq<Difference>)
    requires WellFormed(a) && WellFormed(b)
    ensures diffs == Diffs(a, b)
    ensures ok == (diffs == [])
    ensures ok <==> Equivalent(a, b)
  {
    var extantPaths: set<Path> := {};
    var paths := IterateDirRecursive(a);
    ok := true;
    diffs := [];
    for i := 0 to |paths|
      invariant extantPaths == PathSet(paths[..i])
      invariant diffs == ForwardDiffs(a, b, paths[..i])
      invariant ok == (diffs == [])
    {
      var path := paths[i].path;
      ForwardDiffsStep(a, b, paths, i);
      PathSetStep(paths, i);
      extantPaths := extantPaths + {path};
      var d := CheckEntry(a, b, paths[i]);
      if d.Some? {
        ok := false;
        diffs := diffs + [d.value];
      }
    }
    assert paths[..|paths|] == paths;
    ghost var forward := diffs;
    ghost var extra: seq<Difference> := [];
    var pathsB := IterateDirRecursive(b);
    for j := 0 to |pathsB|
      invariant extra == ExtraDiffs(pathsB[..j], extantPaths)
      invariant diffs == forward + extra
      invariant ok == (diffs == [])
    {
      ExtraDiffsStep(pathsB, extantPaths, j);
      if pathsB[j].path !in extantPaths {
        ghost var x := Difference(Extra(pathsB[j].kind), pathsB[j].path);
        SeqAppendAssoc(forward, extra, x);
        diffs := diffs + [Difference(Extra(pathsB[j].kind), pathsB[j].path)];
        extra := extra + [x];
        ok := false;
      }
    }
    assert pathsB[..|pathsB|] == pathsB;
    assert diffs == Diffs(a, b);
    PassIffEquivalent(a, b);
  }
}
