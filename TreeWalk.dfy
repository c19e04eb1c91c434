/**
  The tree walker (`IterateDirRecursive`): it flattens one output directory
  into a snapshot, a sequence of (kind, relative path) entries, with one
  explicit stack. The stack holds entries still to be reported; popping a
  directory pushes its subdirectories and then its files before the directory
  itself is appended to the answer.

  `Walk` is an independent, recursive description of the order this produces:
  a depth-first pre-order that visits the children of each directory from the
  last pushed to the first. The lemmas prove what a snapshot promises: every
  entry strictly below the root exactly once, with its kind, and every
  directory before all of its descendants.
*/
module TreeWalk {
  import opened FileTree

  /** Every entry of `s` is valid and lies strictly below `p`. */
  ghost predicate AllBelow(t: Tree, s: seq<Entry>, p: Path) {
    forall i :: 0 <= i < |s| ==> ValidEntry(t, s[i]) && p < s[i].path
  }

  /** Every entry of `s` is valid and is `p` itself or lies below it. */
  ghost predicate AllAtOrBelow(t: Tree, s: seq<Entry>, p: Path) {
    forall i :: 0 <= i < |s| ==> ValidEntry(t, s[i]) && p <= s[i].path
  }

  /** No entry is listed before a directory that contains it. */
  ghost predicate DirectoriesFirst(s: seq<Entry>) {
    forall i, j :: 0 <= i < |s| && 0 <= j < |s| && s[i].path < s[j].path ==> i < j
  }

  /**
    What a snapshot of tree `t` promises: only real entries of the tree with
    their kinds, never the root; every path strictly below the root; no path
    twice; and every directory before all of its descendants.
  */
  ghost predicate IsSnapshot(t: Tree, s: seq<Entry>) {
    && (forall i :: 0 <= i < |s| ==> ValidEntry(t, s[i]) && s[i].path != [])
    && (forall q :: q in t && q != [] ==> q in PathSet(s))
    && DistinctPaths(s)
    && DirectoriesFirst(s)
  }

  /** The entries strictly below directory `p`, in the order the walker reports them. */
  ghost function Expand(t: Tree, p: Path): seq<Entry>
    requires WellFormed(t) && DirectoryExists(t, p)
    decreases Below(t, p), 1, 0
  {
    ExpandFirst(t, p, |Children(t, p)|)
  }

  /** The expansion of the first `k` children pushed for `p`; the last pushed comes out first. */
  ghost function ExpandFirst(t: Tree, p: Path, k: nat): seq<Entry>
    requires WellFormed(t) && DirectoryExists(t, p) && k <= |Children(t, p)|
    decreases Below(t, p), 0, k
  {
    if k == 0 then []
    else
      ChildAt(t, p, k - 1);
      Visit(t, Children(t, p)[k - 1]) + ExpandFirst(t, p, k - 1)
  }

  /** Popping `e`: it is reported, then everything below it (if it names a directory). */
  ghost function Visit(t: Tree, e: Entry): seq<Entry>
    requires WellFormed(t)
    decreases Below(t, e.path), 2, 0
  {
    [e] + if e.kind == Directory && DirectoryExists(t, e.path) then Expand(t, e.path) else []
  }

  /** The snapshot of a whole tree. */
  ghost function Walk(t: Tree): seq<Entry>
    requires WellFormed(t)
  {
    Expand(t, [])
  }

  /** What is still to be reported for a stack whose top is its last element. */
  ghost function Pending(t: Tree, stack: seq<Entry>): seq<Entry>
    requires WellFormed(t)
  {
    if stack == [] then []
    else Visit(t, stack[|stack| - 1]) + Pending(t, stack[..|stack| - 1])
  }

  lemma {:induction false} PendingAppend(t: Tree, s1: seq<Entry>, s2: seq<Entry>)
    requires WellFormed(t)
    ensures Pending(t, s1 + s2) == Pending(t, s2) + Pending(t, s1)
    decreases |s2|
  {
    if s2 == [] {
      assert s1 + s2 == s1;
    } else {
      var init := s2[..|s2| - 1];
      assert (s1 + s2)[..|s1 + s2| - 1] == s1 + init;
      assert (s1 + s2)[|s1 + s2| - 1] == s2[|s2| - 1];
      PendingAppend(t, s1, init);
    }
  }

  lemma {:induction false} PendingChildren(t: Tree, p: Path, k: nat)
    requires WellFormed(t) && DirectoryExists(t, p) && k <= |Children(t, p)|
    ensures Pending(t, Children(t, p)[..k]) == ExpandFirst(t, p, k)
  {
    if k > 0 {
      var cs := Children(t, p);
      assert cs[..k][..k - 1] == cs[..k - 1];
      assert cs[..k][k - 1] == cs[k - 1];
      PendingChildren(t, p, k - 1);
    }
  }

  /**
    One iteration of the walker's loop: popping `e` from `rest + [e]` and,
    for a directory, pushing its subdirectories and files moves `e` from what
    is still pending to the answer.
  */
  lemma {:induction false} PopStep(t: Tree, ans: seq<Entry>, rest: seq<Entry>, e: Entry, next: seq<Entry>)
    requires WellFormed(t) && ValidEntry(t, e)
    requires next == if e.kind == Directory then rest + Children(t, e.path) else rest
    ensures (ans + [e]) + Pending(t, next) == ans + Pending(t, rest + [e])
  {
    PendingTop(t, rest, e);
    if e.kind == Directory {
      VisitDirectory(t, e);
      PendingAppend(t, rest, Children(t, e.path));
      Regroup(ans, [e], Pending(t, Children(t, e.path)), Pending(t, rest));
    } else {
      Regroup(ans, [e], [], Pending(t, rest));
    }
  }

  /** The top of the stack is visited first. */
  lemma {:induction false} PendingTop(t: Tree, rest: seq<Entry>, e: Entry)
    requires WellFormed(t)
    ensures Pending(t, rest + [e]) == Visit(t, e) + Pending(t, rest)
  {
    var stack := rest + [e];
    assert stack[|stack| - 1] == e && stack[..|stack| - 1] == rest;
  }

  /** Visiting a directory reports it, then everything its pushed children will report. */
  lemma {:induction false} VisitDirectory(t: Tree, e: Entry)
    requires WellFormed(t) && ValidEntry(t, e) && e.kind == Directory
    ensures Visit(t, e) == [e] + Pending(t, Children(t, e.path))
  {
    var kids := Children(t, e.path);
    PendingChildren(t, e.path, |kids|);
    assert kids[..|kids|] == kids;
  }

  lemma {:induction false} Regroup(w: seq<Entry>, x: seq<Entry>, y: seq<Entry>, z: seq<Entry>)
    ensures (w + x) + (y + z) == w + ((x + y) + z)
  {
  }

  /** A path that extends `x` agrees with `x` on its first `L` components. */
  lemma {:induction false} PrefixHead(x: Path, y: Path, L: nat)
    ensures |x| >= L && x <= y ==> y[..L] == x[..L]
  {
    if |x| >= L && x <= y {
      assert y[..|x|] == x;
      assert y[..L] == y[..|x|][..L];
    }
  }

  /** Two snapshots that live under different first `L` components can be concatenated. */
  lemma {:induction false} JoinDisjoint(s1: seq<Entry>, s2: seq<Entry>, L: nat)
    requires forall i :: 0 <= i < |s1| ==> |s1[i].path| >= L
    requires forall j :: 0 <= j < |s2| ==> |s2[j].path| >= L
    requires forall i, j :: 0 <= i < |s1| && 0 <= j < |s2| ==> s1[i].path[..L] != s2[j].path[..L]
    requires DistinctPaths(s1) && DistinctPaths(s2)
    requires DirectoriesFirst(s1) && DirectoriesFirst(s2)
    ensures DistinctPaths(s1 + s2) && DirectoriesFirst(s1 + s2)
  {
    var s := s1 + s2;
    forall i, j | 0 <= i < |s| && 0 <= j < |s| && i != j
      ensures s[i].path != s[j].path && (s[i].path < s[j].path ==> i < j)
    {
      if i < |s1| && j < |s1| {
        assert s[i] == s1[i] && s[j] == s1[j];
      } else if i >= |s1| && j >= |s1| {
        assert s[i] == s2[i - |s1|] && s[j] == s2[j - |s1|];
      } else if i < |s1| {
        assert s[i] == s1[i] && s[j] == s2[j - |s1|];
        assert s[i].path[..L] != s[j].path[..L];
      } else {
        assert s[i] == s2[i - |s1|] && s[j] == s1[j];
        assert s[i].path[..L] != s[j].path[..L];
        PrefixHead(s[i].path, s[j].path, L);
      }
    }
  }

  /** Every entry of `s` is at least `L` components long and starts with one of the paths in `heads`. */
  ghost predicate HeadsAmong(s: seq<Entry>, L: nat, heads: set<Path>) {
    forall i :: 0 <= i < |s| ==> |s[i].path| >= L && s[i].path[..L] in heads
  }

  lemma {:induction false} ExpandUnder(t: Tree, p: Path)
    requires WellFormed(t) && DirectoryExists(t, p)
    ensures AllBelow(t, Expand(t, p), p)
    decreases Below(t, p), 1, 0
  {
    ExpandFirstUnder(t, p, |Children(t, p)|);
  }

  lemma {:induction false} ExpandFirstUnder(t: Tree, p: Path, k: nat)
    requires WellFormed(t) && DirectoryExists(t, p) && k <= |Children(t, p)|
    ensures AllBelow(t, ExpandFirst(t, p, k), p)
    ensures HeadsAmong(ExpandFirst(t, p, k), |p| + 1, PathSet(Children(t, p)[..k]))
    decreases Below(t, p), 0, k
  {
    if k > 0 {
      var cs := Children(t, p);
      var c := cs[k - 1];
      ChildAt(t, p, k - 1);
      VisitUnder(t, c);
      ExpandFirstUnder(t, p, k - 1);
      var v := Visit(t, c);
      var rest := ExpandFirst(t, p, k - 1);
      var s := ExpandFirst(t, p, k);
      var L := |p| + 1;
      assert s == v + rest;
      assert c in cs[..k];
      assert PathSet(cs[..k - 1]) <= PathSet(cs[..k]) by {
        assert forall e :: e in cs[..k - 1] ==> e in cs[..k];
      }
      forall i | 0 <= i < |s|
        ensures ValidEntry(t, s[i]) && p < s[i].path
        ensures |s[i].path| >= L && s[i].path[..L] in PathSet(cs[..k])
      {
        if i < |v| {
          assert s[i] == v[i];
          assert s[i].path[..|c.path|] == c.path;
          assert s[i].path[..|p|] == c.path[..|p|];
        } else {
          assert s[i] == rest[i - |v|];
        }
      }
    }
  }

  lemma {:induction false} VisitUnder(t: Tree, e: Entry)
    requires WellFormed(t) && ValidEntry(t, e)
    ensures AllAtOrBelow(t, Visit(t, e), e.path)
    decreases Below(t, e.path), 2, 0
  {
    if e.kind == Directory {
      ExpandUnder(t, e.path);
      var below := Expand(t, e.path);
      var s := Visit(t, e);
      assert s == [e] + below;
      forall i | 0 <= i < |s| ensures ValidEntry(t, s[i]) && e.path <= s[i].path {
        if i > 0 { assert s[i] == below[i - 1]; }
      }
    }
  }

  lemma {:induction false} ExpandOrdered(t: Tree, p: Path)
    requires WellFormed(t) && DirectoryExists(t, p)
    ensures DistinctPaths(Expand(t, p)) && DirectoriesFirst(Expand(t, p))
    decreases Below(t, p), 1, 0
  {
    ExpandFirstOrdered(t, p, |Children(t, p)|);
  }

  lemma {:induction false} ExpandFirstOrdered(t: Tree, p: Path, k: nat)
    requires WellFormed(t) && DirectoryExists(t, p) && k <= |Children(t, p)|
    ensures DistinctPaths(ExpandFirst(t, p, k)) && DirectoriesFirst(ExpandFirst(t, p, k))
    decreases Below(t, p), 0, k
  {
    if k > 0 {
      var cs := Children(t, p);
      var c := cs[k - 1];
      var L := |p| + 1;
      ChildAt(t, p, k - 1);
      ChildFacts(t, p);
      VisitUnder(t, c);
      VisitOrdered(t, c);
      ExpandFirstUnder(t, p, k - 1);
      ExpandFirstOrdered(t, p, k - 1);
      var v := Visit(t, c);
      var rest := ExpandFirst(t, p, k - 1);
      assert c.path !in PathSet(cs[..k - 1]) by {
        forall e | e in cs[..k - 1] ensures e.path != c.path {
          var m :| 0 <= m < k - 1 && cs[..k - 1][m] == e;
          assert cs[m] == e;
        }
      }
      forall i | 0 <= i < |v| ensures |v[i].path| >= L && v[i].path[..L] == c.path {
        assert v[i].path[..|c.path|] == c.path;
      }
      JoinDisjoint(v, rest, L);
    }
  }

  lemma {:induction false} VisitOrdered(t: Tree, e: Entry)
    requires WellFormed(t) && ValidEntry(t, e)
    ensures DistinctPaths(Visit(t, e)) && DirectoriesFirst(Visit(t, e))
    decreases Below(t, e.path), 2, 0
  {
    if e.kind == Directory {
      ExpandUnder(t, e.path);
      ExpandOrdered(t, e.path);
      var below := Expand(t, e.path);
      var s := Visit(t, e);
      assert s == [e] + below;
      forall i, j | 0 <= i < |s| && 0 <= j < |s| && i != j
        ensures s[i].path != s[j].path && (s[i].path < s[j].path ==> i < j)
      {
        if i > 0 && j > 0 {
          assert s[i] == below[i - 1] && s[j] == below[j - 1];
        } else if i > 0 {
          assert s[i] == below[i - 1];
        } else {
          assert s[j] == below[j - 1];
        }
      }
    }
  }

  lemma {:induction false} VisitInExpandFirst(t: Tree, p: Path, k: nat, m: nat)
    requires WellFormed(t) && DirectoryExists(t, p) && m < k <= |Children(t, p)|
    requires ValidEntry(t, Children(t, p)[m])
    ensures PathSet(Visit(t, Children(t, p)[m])) <= PathSet(ExpandFirst(t, p, k))
  {
    var cs := Children(t, p);
    ChildAt(t, p, k - 1);
    PathSetAppend(Visit(t, cs[k - 1]), ExpandFirst(t, p, k - 1));
    if m < k - 1 {
      VisitInExpandFirst(t, p, k - 1, m);
    }
  }

  /** Every path strictly below directory `p` is reported by its expansion. */
  lemma {:induction false} ExpandCovers(t: Tree, p: Path, q: Path)
    requires WellFormed(t) && DirectoryExists(t, p) && q in t && p < q
    ensures q in PathSet(Expand(t, p))
    decreases Below(t, p)
  {
    var L := |p| + 1;
    PrefixInTree(t, q, L);
    var c := q[..L];
    assert c[..|p|] == p;
    ChildFacts(t, p);
    var cs := Children(t, p);
    assert c in PathSet(cs);
    var e :| e in cs && e.path == c;
    var m :| 0 <= m < |cs| && cs[m] == e;
    VisitInExpandFirst(t, p, |cs|, m);
    var v := Visit(t, e);
    assert v[0] == e;
    if q != c {
      BelowShrinks(t, p, c);
      assert e.kind == Directory;
      assert c < q;
      ExpandCovers(t, c, q);
      PathSetAppend([e], Expand(t, c));
    }
  }

  /** Walk coverage: the reference walk is a snapshot of the tree. */
  lemma {:induction false} WalkIsSnapshot(t: Tree)
    requires WellFormed(t)
    ensures IsSnapshot(t, Walk(t))
  {
    ExpandUnder(t, []);
    ExpandOrdered(t, []);
    forall q | q in t && q != [] ensures q in PathSet(Walk(t)) {
      ExpandCovers(t, [], q);
    }
  }

  /** Each path of a snapshot names the entry of that path, with the kind the tree gives it. */
  lemma {:induction false} SnapshotEntryAt(t: Tree, s: seq<Entry>, q: Path)
    requires IsSnapshot(t, s) && q in t && q != []
    ensures Entry(KindOf(t[q]), q) in s
  {
    assert q in PathSet(s);
    var e :| e in s && e.path == q;
  }

  /** Pushes the subdirectories of directory `p`, then its files, onto `stack`. */
  method PushChildren(t: Tree, p: Path, stack: seq<Entry>) returns (s: seq<Entry>)
    requires DirectoryExists(t, p)
    ensures s == stack + Children(t, p)
  {
    s := stack + GetDirectories(t, p);
    s := s + GetFiles(t, p);
  }

  lemma {:induction false} SplitTop(s: seq<Entry>)
    requires s != []
    ensures s == s[..|s| - 1] + [s[|s| - 1]]
  {
  }

  /** Pushing a directory's children keeps every stacked entry a real entry of the tree. */
  lemma {:induction false} PushValid(t: Tree, rest: seq<Entry>, e: Entry, next: seq<Entry>)
    requires forall i :: 0 <= i < |rest| ==> ValidEntry(t, rest[i])
    requires ValidEntry(t, e)
    requires next == if e.kind == Directory then rest + Children(t, e.path) else rest
    ensures forall i :: 0 <= i < |next| ==> ValidEntry(t, next[i])
  {
    if e.kind == Directory {
      ChildrenValid(t, e.path);
      forall i | |rest| <= i < |next| ensures ValidEntry(t, next[i]) {
        assert next[i] == Children(t, e.path)[i - |rest|];
      }
    }
  }

  /**
    `IterateDirRecursive`: walks the tree with one explicit stack of entries
    whose top is the last element. The result is the reference walk, hence a
    snapshot of the tree.
  */
  method IterateDirRecursive(t: Tree) returns (ans: seq<Entry>)
    requires WellFormed(t)
    ensures ans == Walk(t)
    ensures IsSnapshot(t, ans)
  {
    ans := [];
    var stack: seq<Entry> := [];
    stack := stack + GetDirectories(t, []);
    stack := stack + GetFiles(t, []);
    assert stack == Children(t, []);
    ChildrenValid(t, []);
    PendingChildren(t, [], |stack|);
    assert stack[..|stack|] == stack;
    while |stack| > 0
      invariant forall i :: 0 <= i < |stack| ==> ValidEntry(t, stack[i])
      invariant ans + Pending(t, stack) == Walk(t)
      decreases |Walk(t)| - |ans|
    {
      SplitTop(stack);
      var entry := stack[|stack| - 1];
      stack := stack[..|stack| - 1];
      ghost var rest := stack;
      if entry.kind == Directory {
        stack := PushChildren(t, entry.path, stack);
      }
      PushValid(t, rest, entry, stack);
      PopStep(t, ans, rest, entry, stack);
      ans := ans + [entry];
    }
    WalkIsSnapshot(t);
  }
}
