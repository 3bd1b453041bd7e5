/**
 * The part of the file system the tool touches, and the std::fs calls it
 * makes on it.
 *
 * A tree maps absolute paths (sequences of path components; [] is the root)
 * to directories and files. Each std::fs call is a function from the tree
 * before to the tree after, or None for the io::Error it returns; class Disk
 * holds the one tree the program mutates and performs those calls on it.
 */
module FileSystem {
  import opened Wrappers

  newtype byte = x: int | 0 <= x < 0x100

  type Path = seq<string>

  datatype Node = Dir | File(data: seq<byte>)

  type Tree = map<Path, Node>

  function Parent(p: Path): Path
    requires p != []
  {
    p[..|p| - 1]
  }

  /** The root is always a directory. */
  predicate IsDir(t: Tree, p: Path)
  {
    p == [] || (p in t && t[p].Dir?)
  }

  predicate IsFile(t: Tree, p: Path)
  {
    p in t && t[p].File?
  }

  /** Path::exists. */
  predicate Exists(t: Tree, p: Path)
  {
    p == [] || p in t
  }

  /** A tree: every entry sits in a directory. */
  ghost predicate Valid(t: Tree)
  {
    forall p {:trigger Parent(p)} | p in t :: p != [] && IsDir(t, Parent(p))
  }

  /** What validity says about one entry. */
  lemma ValidAt(t: Tree, p: Path)
    requires Valid(t) && p in t
    ensures p != [] && IsDir(t, Parent(p))
  {
  }

  /** Nothing at or below `p`. */
  ghost predicate NothingUnder(t: Tree, p: Path)
  {
    forall x | x in t :: !(p <= x)
  }

  /** Below `r1` in `t1` lies exactly what lies below `r2` in `t2`. */
  ghost predicate SameSubtree(t1: Tree, r1: Path, t2: Tree, r2: Path)
  {
    forall q :: (r1 + q in t1 <==> r2 + q in t2) && (r1 + q in t1 ==> t1[r1 + q] == t2[r2 + q])
  }

  /** Outside `r1` and `r2`, `t1` and `t2` agree. */
  ghost predicate SameOutside(t1: Tree, t2: Tree, r1: Path, r2: Path)
  {
    && (forall x | x in t1 && !(r1 <= x) && !(r2 <= x) :: x in t2 && t2[x] == t1[x])
    && (forall x | x in t2 && !(r1 <= x) && !(r2 <= x) :: x in t1)
  }

  // ---------------------------------------------------------------------
  // The std::fs calls
  // ---------------------------------------------------------------------

  /** fs::create_dir_all: creates `p` and its missing ancestors; fails when one of them is a file. */
  function AfterCreateDirAll(t: Tree, p: Path): Option<Tree>
  {
    if exists k :: 0 < k <= |p| && IsFile(t, p[..k]) then None
    else Some(t + map k | 0 < k <= |p| :: p[..k] := Dir)
  }

  /**
   * fs::File::create followed by writing `data`: fails for the root, for a
   * directory, and when the parent is not a directory.
   */
  function AfterCreateFile(t: Tree, p: Path, data: seq<byte>): Option<Tree>
  {
    if p == [] || IsDir(t, p) || !IsDir(t, Parent(p)) then None
    else Some(t[p := File(data)])
  }

  /** fs::remove_dir_all: removes a directory and everything below it; fails when `p` is not a directory. */
  function AfterRemoveDirAll(t: Tree, p: Path): Option<Tree>
  {
    if p == [] || !IsDir(t, p) then None
    else Some(map x | x in t && !(p <= x) :: t[x])
  }

  /**
   * fs::rename: moves `from` and everything below it to `to`. Fails when
   * `from` does not exist, when `to` exists or its parent is not a
   * directory, and when `to` lies below `from`.
   */
  function AfterRename(t: Tree, from: Path, to: Path): Option<Tree>
  {
    if from == [] || from !in t || to == [] || Exists(t, to) || !IsDir(t, Parent(to)) || from <= to then None
    else Some(Kept(t, from) + Moved(t, from, to))
  }

  /** The entries a rename leaves where they are. */
  function Kept(t: Tree, from: Path): Tree
  {
    map x | x in t && !(from <= x) :: t[x]
  }

  /** The entries a rename moves, at their new paths. */
  function Moved(t: Tree, from: Path, to: Path): Tree
  {
    GraftInverse(from, to);
    map x | x in t && from <= x :: to + x[|from|..] := t[x]
  }

  lemma GraftInverse(from: Path, to: Path)
    ensures forall x :: from <= x ==> from + (to + x[|from|..])[|to|..] == x
  {
    forall x | from <= x ensures from + (to + x[|from|..])[|to|..] == x {
      assert (to + x[|from|..])[|to|..] == x[|from|..];
    }
  }

  // ---------------------------------------------------------------------
  // What each call does, and that it keeps a tree a tree
  // ---------------------------------------------------------------------

  /** Every ancestor of an entry is a directory. */
  lemma {:induction false} AncestorIsDir(t: Tree, p: Path, k: nat)
    requires Valid(t) && p in t && k < |p|
    ensures IsDir(t, p[..k])
    decreases |p|
  {
    if k < |p| - 1 {
      var q := Parent(p);
      assert q[..k] == p[..k];
      AncestorIsDir(t, q, k);
    } else {
      ValidAt(t, p);
    }
  }

  /** In a tree, nothing lies below a path that does not exist. */
  lemma NothingUnderAbsent(t: Tree, p: Path)
    requires Valid(t) && !Exists(t, p)
    ensures NothingUnder(t, p)
  {
    forall x | x in t ensures !(p <= x) {
      if |p| < |x| {
        AncestorIsDir(t, x, |p|);
        assert x[..|p|] != p;
      } else if |p| == |x| {
        assert x != p;
      }
    }
  }

  /**
   * create_dir_all succeeds exactly when no ancestor-or-self of `p` is a file;
   * it then adds `p` and its ancestors as directories and changes nothing else.
   */
  lemma CreateDirAllEffect(t: Tree, p: Path)
    ensures AfterCreateDirAll(t, p).Some? <==> forall k :: 0 < k <= |p| ==> !IsFile(t, p[..k])
    ensures AfterCreateDirAll(t, p).Some? ==>
              var t' := AfterCreateDirAll(t, p).value;
              && IsDir(t', p)
              && (forall x | x in t :: x in t' && t'[x] == t[x])
              && (forall x | x in t' :: x in t || (0 < |x| <= |p| && x == p[..|x|]))
  {
    if AfterCreateDirAll(t, p).Some? {
      var t' := AfterCreateDirAll(t, p).value;
      if p != [] {
        assert p[..|p|] == p;
      }
      forall x | x in t ensures x in t' && t'[x] == t[x] {
        if 0 < |x| <= |p| && x == p[..|x|] {
          assert !IsFile(t, p[..|x|]);
        }
      }
    }
  }

  lemma CreateDirAllValid(t: Tree, p: Path)
    requires Valid(t) && AfterCreateDirAll(t, p).Some?
    ensures Valid(AfterCreateDirAll(t, p).value)
  {
    var t' := AfterCreateDirAll(t, p).value;
    CreateDirAllEffect(t, p);
    forall x | x in t' ensures x != [] && IsDir(t', Parent(x)) {
      if x !in t {
        assert 0 < |x| <= |p| && x == p[..|x|];
        if |x| > 1 {
          assert Parent(x) == p[..|x| - 1];
        }
      } else {
        ValidAt(t, x);
      }
    }
  }

  /** create_dir_all of a path below an existing directory `d` changes nothing outside `d`. */
  lemma CreateDirAllInside(t: Tree, d: Path, p: Path)
    requires Valid(t) && IsDir(t, d) && d <= p && AfterCreateDirAll(t, p).Some?
    ensures SameOutside(t, AfterCreateDirAll(t, p).value, d, d)
  {
    var t' := AfterCreateDirAll(t, p).value;
    CreateDirAllEffect(t, p);
    forall x | x in t' && !(d <= x) ensures x in t {
      if x !in t {
        assert 0 < |x| <= |p| && x == p[..|x|];
        if |x| < |d| {
          assert x == d[..|x|];
          AncestorIsDir(t, d, |x|);
        }
      }
    }
  }

  /** File::create writes `p` and nothing else, and keeps a tree a tree. */
  lemma CreateFileEffect(t: Tree, p: Path, data: seq<byte>)
    requires AfterCreateFile(t, p, data).Some?
    ensures AfterCreateFile(t, p, data).value == t[p := File(data)]
    ensures IsDir(t, Parent(p))
    ensures Valid(t) ==> Valid(AfterCreateFile(t, p, data).value)
  {
    var t' := AfterCreateFile(t, p, data).value;
    if Valid(t) {
      forall x | x in t' ensures x != [] && IsDir(t', Parent(x)) {
        if x != p {
          ValidAt(t, x);
        }
      }
    }
  }

  /** remove_dir_all leaves nothing below `p`, keeps everything else, and keeps a tree a tree. */
  lemma RemoveDirAllEffect(t: Tree, p: Path)
    requires AfterRemoveDirAll(t, p).Some?
    ensures NothingUnder(AfterRemoveDirAll(t, p).value, p)
    ensures forall x | x in t && !(p <= x) :: x in AfterRemoveDirAll(t, p).value && AfterRemoveDirAll(t, p).value[x] == t[x]
    ensures forall x | x in AfterRemoveDirAll(t, p).value :: x in t
    ensures Valid(t) ==> Valid(AfterRemoveDirAll(t, p).value)
  {
    var t' := AfterRemoveDirAll(t, p).value;
    if Valid(t) {
      forall x | x in t' ensures x != [] && IsDir(t', Parent(x)) {
        ValidAt(t, x);
      }
    }
  }

  /** Every moved entry comes from the corresponding path below `from`. */
  lemma MovedFrom(t: Tree, from: Path, to: Path, x: Path)
    requires x in Moved(t, from, to)
    ensures to <= x && from + x[|to|..] in t && Moved(t, from, to)[x] == t[from + x[|to|..]]
  {
    GraftInverse(from, to);
    var y :| y in t && from <= y && x == to + y[|from|..];
    assert from + x[|to|..] == y;
  }

  /** Every entry below `from` is moved to the corresponding path below `to`. */
  lemma MovedTo(t: Tree, from: Path, to: Path, q: Path)
    requires from + q in t
    ensures to + q in Moved(t, from, to) && Moved(t, from, to)[to + q] == t[from + q]
  {
    GraftInverse(from, to);
    assert (from + q)[|from|..] == q;
    assert from <= from + q;
  }

  /**
   * A rename onto a path with nothing below it: the tree below `to` is the
   * old tree below `from`, and everything outside both is unchanged.
   */
  lemma RenameEffect(t: Tree, from: Path, to: Path)
    requires AfterRename(t, from, to).Some? && NothingUnder(t, to)
    ensures SameSubtree(AfterRename(t, from, to).value, to, t, from)
    ensures NothingUnder(AfterRename(t, from, to).value, from)
    ensures SameOutside(t, AfterRename(t, from, to).value, from, to)
  {
    var t' := AfterRename(t, from, to).value;
    var kept, moved := Kept(t, from), Moved(t, from, to);
    forall q ensures (to + q in t' <==> from + q in t) && (to + q in t' ==> t'[to + q] == t[from + q]) {
      assert to <= to + q;
      if from + q in t {
        MovedTo(t, from, to, q);
      }
      if to + q in moved {
        MovedFrom(t, from, to, to + q);
        assert (to + q)[|to|..] == q;
      }
    }
    forall x | x in moved ensures !(from <= x) {
      MovedFrom(t, from, to, x);
    }
    forall x | x in t' && !(from <= x) && !(to <= x) ensures x in t {
      if x in moved {
        MovedFrom(t, from, to, x);
      }
    }
  }

  /** rename keeps a tree a tree. */
  lemma RenameValid(t: Tree, from: Path, to: Path)
    requires Valid(t) && AfterRename(t, from, to).Some?
    ensures Valid(AfterRename(t, from, to).value)
  {
    var t' := AfterRename(t, from, to).value;
    forall x | x in t' ensures x != [] && IsDir(t', Parent(x)) {
      if x in Moved(t, from, to) {
        MovedFrom(t, from, to, x);
        assert x == to + x[|to|..];
        MovedParent(t, from, to, x[|to|..]);
      } else {
        KeptParent(t, from, to, x);
      }
    }
  }

  lemma PrefixTrans(a: Path, b: Path, c: Path)
    ensures a <= b && b <= c ==> a <= c
  {
    if a <= b && b <= c {
      assert c[..|a|] == b[..|a|];
    }
  }

  lemma MovedUnder(t: Tree, from: Path, to: Path)
    ensures forall x | x in Moved(t, from, to) :: to <= x
  {
    forall x | x in Moved(t, from, to) ensures to <= x {
      MovedFrom(t, from, to, x);
    }
  }

  /** The directory a rename moves into is left in place. */
  lemma TargetParentKept(t: Tree, from: Path, to: Path)
    requires AfterRename(t, from, to).Some?
    ensures IsDir(AfterRename(t, from, to).value, Parent(to))
  {
    var p := Parent(to);
    if p != [] {
      MovedUnder(t, from, to);
      assert !(to <= p);
      PrefixTrans(from, p, to);
      assert p in Kept(t, from);
    }
  }

  /** Each moved entry's parent is a directory after the rename. */
  lemma MovedParent(t: Tree, from: Path, to: Path, q: Path)
    requires Valid(t) && AfterRename(t, from, to).Some? && from + q in t
    ensures IsDir(AfterRename(t, from, to).value, Parent(to + q))
  {
    if q == [] {
      assert to + q == to;
      TargetParentKept(t, from, to);
    } else {
      var pq := q[..|q| - 1];
      assert Parent(from + q) == from + pq;
      assert Parent(to + q) == to + pq;
      MovedTo(t, from, to, pq);
    }
  }

  lemma KeptParent(t: Tree, from: Path, to: Path, x: Path)
    requires Valid(t) && AfterRename(t, from, to).Some?
    requires x in AfterRename(t, from, to).value && x !in Moved(t, from, to)
    ensures x != [] && IsDir(AfterRename(t, from, to).value, Parent(x))
  {
    assert x in Kept(t, from);
    ValidAt(t, x);
    var p := Parent(x);
    assert IsDir(t, p);
    if p != [] {
      MovedUnder(t, from, to);
      NothingUnderAbsent(t, to);
      PrefixTrans(to, p, x);
      PrefixTrans(from, p, x);
      assert p in Kept(t, from);
    }
  }

  // ---------------------------------------------------------------------
  // The file system the program runs against
  // ---------------------------------------------------------------------

  class Disk {
    var tree: Tree

    constructor (t: Tree)
      ensures tree == t
    {
      tree := t;
    }

    /** fs::create_dir_all(p).is_ok(), with its effect. */
    method CreateDirAll(p: Path) returns (ok: bool)
      modifies this
      ensures ok == AfterCreateDirAll(old(tree), p).Some?
      ensures tree == if ok then AfterCreateDirAll(old(tree), p).value else old(tree)
    {
      var r := AfterCreateDirAll(tree, p);
      ok := r.Some?;
      if ok {
        tree := r.value;
      }
    }

    /** fs::File::create(p) and io::copy of `data` into it. */
    method CreateFile(p: Path, data: seq<byte>) returns (ok: bool)
      modifies this
      ensures ok == AfterCreateFile(old(tree), p, data).Some?
      ensures tree == if ok then AfterCreateFile(old(tree), p, data).value else old(tree)
    {
      var r := AfterCreateFile(tree, p, data);
      ok := r.Some?;
      if ok {
        tree := r.value;
      }
    }

    /** fs::remove_dir_all(p).is_ok(), with its effect. */
    method RemoveDirAll(p: Path) returns (ok: bool)
      modifies this
      ensures ok == AfterRemoveDirAll(old(tree), p).Some?
      ensures tree == if ok then AfterRemoveDirAll(old(tree), p).value else old(tree)
    {
      var r := AfterRemoveDirAll(tree, p);
      ok := r.Some?;
      if ok {
        tree := r.value;
      }
    }

    /** fs::rename(from, to).is_ok(), with its effect. */
    method Rename(from: Path, to: Path) returns (ok: bool)
      modifies this
      ensures ok == AfterRename(old(tree), from, to).Some?
      ensures tree == if ok then AfterRename(old(tree), from, to).value else old(tree)
    {
      var r := AfterRename(tree, from, to);
      ok := r.Some?;
      if ok {
        tree := r.value;
      }
    }

    /** Path::exists. */
    method PathExists(p: Path) returns (b: bool)
      ensures b == Exists(tree, p)
    {
      b := Exists(tree, p);
    }
  }
}
