/** The part of the file system the store lives in: which paths are
    directories and which are regular files. */
module FileTree {
  import opened Errors

  /** A path as its segments from the file-system root; no segment holds a separator. */
  type Path = seq<string>

  /** A snapshot of the file system. */
  datatype Tree = Tree(dirs: set<Path>, files: set<Path>)

  /** os.path.isdir */
  predicate IsDir(t: Tree, p: Path) {
    p in t.dirs
  }

  /** os.path.isfile */
  predicate IsFile(t: Tree, p: Path) {
    p in t.files
  }

  /** A well-formed tree: the file-system root is a directory, nothing is both a
      directory and a file, and every ancestor of an entry is a directory. */
  ghost predicate Valid(t: Tree) {
    && [] in t.dirs
    && t.dirs !! t.files
    && (forall p, i | p in t.dirs && 0 <= i < |p| :: p[..i] in t.dirs)
    && (forall p, i | p in t.files && 0 <= i < |p| :: p[..i] in t.dirs)
  }

  /** The names directly inside directory d. */
  function Children(t: Tree, d: Path): set<string> {
    set p | p in t.dirs + t.files && |p| == |d| + 1 && p[..|d|] == d :: p[|d|]
  }

  lemma ChildMember(t: Tree, d: Path, x: string)
    ensures x in Children(t, d) <==> d + [x] in t.dirs + t.files
  {
    if d + [x] in t.dirs + t.files {
      var p := d + [x];
      assert p in t.dirs + t.files && |p| == |d| + 1 && p[..|d|] == d && p[|d|] == x;
    }
    if x in Children(t, d) {
      var p :| p in t.dirs + t.files && |p| == |d| + 1 && p[..|d|] == d && p[|d|] == x;
      assert p == d + [x];
    }
  }

  /** l is what os.listdir(d) may return: every name inside d once, in an order the OS picks. */
  predicate IsListing(t: Tree, d: Path, l: seq<string>) {
    && (forall i, j | 0 <= i < j < |l| :: l[i] != l[j])
    && (forall i | 0 <= i < |l| :: l[i] in Children(t, d))
    && (forall x | x in Children(t, d) :: x in l)
  }

  /** Two listings of one directory hold the same names. */
  lemma ListingsAgree(t: Tree, d: Path, l: seq<string>, m: seq<string>, x: string)
    requires IsListing(t, d, l) && IsListing(t, d, m)
    ensures x in l <==> x in m
  {
  }

  /** Inside a directory that does not exist there is nothing to list. */
  lemma {:induction false} MissingDirIsEmpty(t: Tree, d: Path, l: seq<string>)
    requires Valid(t) && d !in t.dirs && IsListing(t, d, l)
    ensures l == []
  {
    if l != [] {
      ChildMember(t, d, l[0]);
      assert false;
    }
  }

  /** Every directory from the first segment of p down to p itself. */
  function Ancestors(p: Path): (a: set<Path>)
    ensures p != [] ==> p in a
    ensures forall q :: q in a ==> 1 <= |q| <= |p| && q == p[..|q|]
  {
    assert p != [] ==> p[..|p|] == p;
    set i | 1 <= i <= |p| :: p[..i]
  }

  /** What stops os.makedirs(p): p already exists, or one of its ancestors is a regular file. */
  predicate MakeDirsBlocked(t: Tree, p: Path) {
    p in t.dirs || p in t.files || exists i :: 0 <= i < |p| && p[..i] in t.files
  }

  /** The file system as an object the writer changes in place. */
  class Disk {
    var tree: Tree

    constructor (t: Tree)
      ensures tree == t
    {
      tree := t;
    }

    /** os.makedirs(p): creates p and every missing ancestor; raises OSError,
        creating nothing, if p exists or an ancestor is a regular file. */
    method MakeDirs(p: Path) returns (r: Outcome)
      modifies this
      ensures MakeDirsBlocked(old(tree), p) ==> r == Fail(OSError(p)) && tree == old(tree)
      ensures !MakeDirsBlocked(old(tree), p) ==>
                r == Pass && tree == Tree(old(tree).dirs + Ancestors(p), old(tree).files)
      ensures Valid(old(tree)) ==> Valid(tree)
    {
      if MakeDirsBlocked(tree, p) {
        return Fail(OSError(p));
      }
      ghost var before := tree;
      tree := Tree(tree.dirs + Ancestors(p), tree.files);
      MakeDirsKeepsValid(before, p);
      r := Pass;
    }
  }

  lemma MakeDirsKeepsValid(t: Tree, p: Path)
    requires !MakeDirsBlocked(t, p)
    ensures Valid(t) ==> Valid(Tree(t.dirs + Ancestors(p), t.files))
  {
    if Valid(t) {
      var u := Tree(t.dirs + Ancestors(p), t.files);
      forall q, i | q in u.dirs && 0 <= i < |q|
        ensures q[..i] in u.dirs
      {
        if q in Ancestors(p) {
          assert q == p[..|q|];
          assert q[..i] == p[..i];
          if i > 0 {
            assert q[..i] in Ancestors(p);
          }
        }
      }
      forall q | q in Ancestors(p)
        ensures q !in t.files
      {
        if |q| < |p| {
          assert p[..|q|] in t.files ==> MakeDirsBlocked(t, p);
        } else {
          assert q == p;
        }
      }
    }
  }
}
