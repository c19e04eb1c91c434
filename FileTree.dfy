/** Small wrapper types shared by the other modules. */
module Wrappers {

  datatype Option<+T> = None | Some(value: T)

  /** The zero- or one-element sequence holding the value of `o`. */
  function OptionToSeq<T>(o: Option<T>): seq<T> {
    if o.Some? then [o.value] else []
  }
}

/**
  The file-system abstraction the tree differ works on. One output directory
  of one binder tool is a `Tree`: a finite map from a path, relative to that
  output directory and written as its sequence of components, to the node
  found there. The root of the output directory is the empty path.

  A directory node carries the names of its entries in the order in which the
  operating system lists them; that order is part of the tree's state, so
  enumerating a directory is a function of the tree.
*/
module FileTree {

  /** A byte as `FileStream.ReadByte` returns it when the stream has not ended. */
  type byte = b: int | 0 <= b < 256

  type Name = string

  type Path = seq<Name>

  /** The two kinds of file-system entry the walker reports. */
  datatype FileKind = Directory | File

  datatype Node = DirNode(listing: seq<Name>) | FileNode(contents: seq<byte>)

  type Tree = map<Path, Node>

  /** One element of a tree snapshot: the kind of an entry and its relative path. */
  datatype Entry = Entry(kind: FileKind, path: Path)

  function Parent(p: Path): Path
    requires p != []
  {
    p[..|p| - 1]
  }

  function KindOf(n: Node): FileKind {
    if n.DirNode? then Directory else File
  }

  /** `Directory.Exists` on the path `p` below the tree's root. */
  predicate DirectoryExists(t: Tree, p: Path) {
    p in t && t[p].DirNode?
  }

  /** `File.Exists` on the path `p` below the tree's root. */
  predicate FileExists(t: Tree, p: Path) {
    p in t && t[p].FileNode?
  }

  /** The entry names a real path to a node of that kind. */
  ghost predicate ValidEntry(t: Tree, e: Entry) {
    e.path in t && KindOf(t[e.path]) == e.kind
  }

  ghost predicate DistinctNames(names: seq<Name>) {
    forall i, j :: 0 <= i < j < |names| ==> names[i] != names[j]
  }

  ghost predicate ListedInParent(t: Tree, p: Path)
    requires p != []
  {
    DirectoryExists(t, Parent(p)) && p[|p| - 1] in t[Parent(p)].listing
  }

  /**
    A directory tree: the root exists and is a directory, every other path is
    listed by its parent directory, and no directory lists a name twice.
  */
  ghost predicate WellFormed(t: Tree) {
    && DirectoryExists(t, [])
    && (forall p {:trigger Parent(p)} :: p in t && p != [] ==> ListedInParent(t, p))
    && (forall p :: p in t && t[p].DirNode? ==> DistinctNames(t[p].listing))
  }

  /** The set of relative paths a snapshot mentions. */
  ghost function PathSet(s: seq<Entry>): set<Path> {
    set e | e in s :: e.path
  }

  ghost predicate DistinctPaths(s: seq<Entry>) {
    forall i, j :: 0 <= i < j < |s| ==> s[i].path != s[j].path
  }

  /**
    The entries of directory `p` among `names` whose node has kind `kind`, in
    listing order: `Directory.GetDirectories` when `kind` is `Directory` and
    `Directory.GetFiles` when it is `File`.
  */
  function ListEntries(t: Tree, p: Path, names: seq<Name>, kind: FileKind): seq<Entry> {
    if names == [] then []
    else
      var c := p + [names[0]];
      (if c in t && KindOf(t[c]) == kind then [Entry(kind, c)] else []) + ListEntries(t, p, names[1..], kind)
  }

  /**
    `Directory.GetDirectories`: the subdirectories of directory `p`, in
    listing order. `ListEntriesValid`, `ListEntriesDistinct` and
    `ListEntriesComplete` state what it returns.
  */
  function GetDirectories(t: Tree, p: Path): seq<Entry>
    requires DirectoryExists(t, p)
  {
    ListEntries(t, p, t[p].listing, Directory)
  }

  /**
    `Directory.GetFiles`: the files of directory `p`, in listing order.
    `ListEntriesValid`, `ListEntriesDistinct` and `ListEntriesComplete`
    state what it returns.
  */
  function GetFiles(t: Tree, p: Path): seq<Entry>
    requires DirectoryExists(t, p)
  {
    ListEntries(t, p, t[p].listing, File)
  }

  /**
    What the walker pushes for directory `p`: its subdirectories, then its
    files, so the last file ends up on top of the stack.
  */
  function Children(t: Tree, p: Path): seq<Entry>
    requires DirectoryExists(t, p)
  {
    GetDirectories(t, p) + GetFiles(t, p)
  }

  ghost predicate IsChild(t: Tree, p: Path, e: Entry) {
    ValidEntry(t, e) && |e.path| == |p| + 1 && p < e.path
  }

  lemma {:induction false} PathSetAppend(s1: seq<Entry>, s2: seq<Entry>)
    ensures PathSet(s1 + s2) == PathSet(s1) + PathSet(s2)
  {
  }

  /** `e` is an entry of directory `p`, of kind `kind`, named by one of `names`. */
  ghost predicate ListedEntry(t: Tree, p: Path, names: seq<Name>, kind: FileKind, e: Entry) {
    && e.kind == kind
    && ValidEntry(t, e)
    && |e.path| == |p| + 1
    && e.path[..|p|] == p
    && e.path[|p|] in names
  }

  lemma {:induction false} ListEntriesValid(t: Tree, p: Path, names: seq<Name>, kind: FileKind)
    ensures forall e :: e in ListEntries(t, p, names, kind) ==> ListedEntry(t, p, names, kind, e)
  {
    if names != [] {
      ListEntriesValid(t, p, names[1..], kind);
      var c := p + [names[0]];
      assert c[..|p|] == p && c[|p|] == names[0];
      forall e | e in ListEntries(t, p, names[1..], kind) ensures ListedEntry(t, p, names, kind, e) {
        assert e.path[|p|] in names[1..];
      }
    }
  }

  lemma {:induction false} ListEntriesDistinct(t: Tree, p: Path, names: seq<Name>, kind: FileKind)
    requires DistinctNames(names)
    ensures DistinctPaths(ListEntries(t, p, names, kind))
  {
    if names != [] {
      var rest := ListEntries(t, p, names[1..], kind);
      assert DistinctNames(names[1..]);
      ListEntriesDistinct(t, p, names[1..], kind);
      ListEntriesValid(t, p, names[1..], kind);
      var c := p + [names[0]];
      var head := if c in t && KindOf(t[c]) == kind then [Entry(kind, c)] else [];
      var s := ListEntries(t, p, names, kind);
      assert s == head + rest;
      forall i, j | 0 <= i < j < |s| ensures s[i].path != s[j].path {
        if i < |head| {
          assert s[j] == rest[j - |head|];
          assert ListedEntry(t, p, names[1..], kind, rest[j - |head|]);
          assert names[0] !in names[1..];
          assert c[|p|] == names[0];
        } else {
          assert s[i] == rest[i - |head|] && s[j] == rest[j - |head|];
        }
      }
    }
  }

  lemma {:induction false} ListEntriesComplete(t: Tree, p: Path, names: seq<Name>, kind: FileKind, n: Name)
    requires n in names && p + [n] in t && KindOf(t[p + [n]]) == kind
    ensures Entry(kind, p + [n]) in ListEntries(t, p, names, kind)
  {
    if n != names[0] {
      assert n in names[1..];
      ListEntriesComplete(t, p, names[1..], kind, n);
    }
  }

  /** The children of a directory are exactly its entries one level down, each listed once. */
  lemma {:induction false} ChildFacts(t: Tree, p: Path)
    requires WellFormed(t) && DirectoryExists(t, p)
    ensures forall i :: 0 <= i < |Children(t, p)| ==> IsChild(t, p, Children(t, p)[i])
    ensures DistinctPaths(Children(t, p))
    ensures forall q :: q in t && |q| == |p| + 1 && p < q ==> q in PathSet(Children(t, p))
  {
    ChildrenValid(t, p);
    ChildrenDistinct(t, p);
    ChildrenComplete(t, p);
  }

  lemma {:induction false} ChildrenValid(t: Tree, p: Path)
    requires DirectoryExists(t, p)
    ensures forall i :: 0 <= i < |Children(t, p)| ==> IsChild(t, p, Children(t, p)[i])
  {
    var names := t[p].listing;
    var ds := GetDirectories(t, p);
    var fs := GetFiles(t, p);
    ListEntriesValid(t, p, names, Directory);
    ListEntriesValid(t, p, names, File);
    var s := Children(t, p);
    forall i | 0 <= i < |s| ensures IsChild(t, p, s[i]) {
      if i < |ds| {
        assert s[i] == ds[i];
        assert ListedEntry(t, p, names, Directory, ds[i]);
      } else {
        assert s[i] == fs[i - |ds|];
        assert ListedEntry(t, p, names, File, fs[i - |ds|]);
      }
    }
  }

  lemma {:induction false} ChildrenDistinct(t: Tree, p: Path)
    requires WellFormed(t) && DirectoryExists(t, p)
    ensures DistinctPaths(Children(t, p))
  {
    var names := t[p].listing;
    var ds := GetDirectories(t, p);
    var fs := GetFiles(t, p);
    ListEntriesValid(t, p, names, Directory);
    ListEntriesValid(t, p, names, File);
    ListEntriesDistinct(t, p, names, Directory);
    ListEntriesDistinct(t, p, names, File);
    var s := Children(t, p);
    forall i, j | 0 <= i < j < |s| ensures s[i].path != s[j].path {
      if i < |ds| && j >= |ds| {
        assert s[i] == ds[i] && s[j] == fs[j - |ds|];
        assert ListedEntry(t, p, names, Directory, ds[i]);
        assert ListedEntry(t, p, names, File, fs[j - |ds|]);
      } else if i < |ds| {
        assert s[i] == ds[i] && s[j] == ds[j];
      } else {
        assert s[i] == fs[i - |ds|] && s[j] == fs[j - |ds|];
      }
    }
  }

  lemma {:induction false} ChildrenComplete(t: Tree, p: Path)
    requires WellFormed(t) && DirectoryExists(t, p)
    ensures forall q :: q in t && |q| == |p| + 1 && p < q ==> q in PathSet(Children(t, p))
  {
    var names := t[p].listing;
    var s := Children(t, p);
    forall q | q in t && |q| == |p| + 1 && p < q ensures q in PathSet(s) {
      assert Parent(q) == p;
      assert ListedInParent(t, q);
      var n := q[|p|];
      assert q == p + [n];
      ListEntriesComplete(t, p, names, KindOf(t[q]), n);
      var e := Entry(KindOf(t[q]), q);
      assert e in GetDirectories(t, p) || e in GetFiles(t, p);
      assert e in s;
    }
  }

  /** One child of a directory: a valid entry one level below it, whose subtree is smaller. */
  lemma {:induction false} ChildAt(t: Tree, p: Path, i: nat)
    requires WellFormed(t) && DirectoryExists(t, p) && i < |Children(t, p)|
    ensures IsChild(t, p, Children(t, p)[i])
    ensures Below(t, Children(t, p)[i].path) < Below(t, p)
  {
    ChildFacts(t, p);
    BelowShrinks(t, p, Children(t, p)[i].path);
  }

  /** The paths strictly below `p` that the tree holds. */
  ghost function Below(t: Tree, p: Path): set<Path> {
    set q | q in t && p < q
  }

  lemma {:induction false} BelowShrinks(t: Tree, p: Path, c: Path)
    requires c in t && p < c
    ensures Below(t, c) < Below(t, p)
  {
    forall q | q in Below(t, c) ensures q in Below(t, p) {
      assert q[..|c|] == c;
      assert q[..|p|] == c[..|p|];
    }
    assert c in Below(t, p);
    assert c !in Below(t, c);
  }

  /** Every prefix of a path in the tree is in the tree, and every proper prefix is a directory. */
  lemma {:induction false} PrefixInTree(t: Tree, q: Path, n: nat)
    requires WellFormed(t) && q in t && n <= |q|
    ensures q[..n] in t
    ensures n < |q| ==> DirectoryExists(t, q[..n])
    decreases |q|
  {
    if n == |q| {
      assert q[..n] == q;
    } else {
      var up := Parent(q);
      assert ListedInParent(t, q);
      PrefixInTree(t, up, n);
      assert up[..n] == q[..n];
      if n == |q| - 1 {
        assert q[..n] == up;
      }
    }
  }
}
