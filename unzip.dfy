/**
 * unzip: extracts the downloaded archive below the working directory and
 * returns the name of its first member, the folder GitHub wraps a branch
 * archive in.
 *
 * Reading the zip format is not modelled: a `decode` function turns the
 * archive's bytes into the members the reader can open, or fails. Every `unwrap` and `assert!`
 * of the source becomes a Fault, and the tree is left as it was when the
 * panic happened.
 */
module Unzip {
  import opened Wrappers
  import opened FileSystem

  /**
   * One archive member: its stored name, the relative path the zip reader
   * allows it to be written to (None when the name would escape the
   * extraction directory), and its contents.
   */
  datatype Entry = Entry(name: string, enclosed: Option<Path>, data: seq<byte>)

  /**
   * What the zip reader makes of an archive: the members it opens, in
   * order, and whether opening the member after them fails (`broken`).
   */
  datatype Archive = Archive(members: seq<Entry>, broken: bool)

  /** ZipArchive::new and by_index: the archive's bytes read as members, or None when they are no archive. */
  type Decoder = seq<byte> -> Option<Archive>

  /** A member whose stored name ends in '/' is a directory. */
  predicate IsDirEntry(e: Entry)
  {
    |e.name| > 0 && e.name[|e.name| - 1] == '/'
  }

  /** Where a member is written, relative paths being taken from `cwd`. */
  function OutPath(cwd: Path, e: Entry): Path
    requires e.enclosed.Some?
  {
    cwd + e.enclosed.value
  }

  datatype Fault =
    | OpenFailed               // fs::File::open of the archive
    | NotAnArchive             // ZipArchive::new
    | MemberUnreadable         // archive.by_index(i)
    | FirstEntryNotDirectory   // the sanity check on member 0
    | CreateDirFailed          // fs::create_dir_all
    | CreateFileFailed         // fs::File::create of a member

  /** The tree when unzip returns or panics, with the folder name it returns or the panic. */
  datatype Unzipped = Unzipped(tree: Tree, folder: Result<Path, Fault>)

  /** The tree after writing one member, and the panic that stopped it, if any. */
  datatype Step = Step(tree: Tree, fault: Option<Fault>)

  /**
   * Writing one member. A directory is created with all its ancestors. A
   * file first gets its parent created when that does not exist: a
   * single-component path has the empty relative path as parent, which
   * never exists and whose create_dir_all does nothing, so no call is
   * modelled for it.
   */
  function WriteEntry(t: Tree, e: Entry, cwd: Path): Step
    requires e.enclosed.Some?
  {
    var out := OutPath(cwd, e);
    var rel := e.enclosed.value;
    if IsDirEntry(e) then
      match AfterCreateDirAll(t, out)
      case None => Step(t, Some(CreateDirFailed))
      case Some(t') => Step(t', None)
    else
      var made :=
        if rel != [] && Parent(rel) != [] && !Exists(t, cwd + Parent(rel))
        then AfterCreateDirAll(t, cwd + Parent(rel))
        else Some(t);
      match made
      case None => Step(t, Some(CreateDirFailed))
      case Some(t1) =>
        match AfterCreateFile(t1, out, e.data)
        case None => Step(t1, Some(CreateFileFailed))
        case Some(t') => Step(t', None)
  }

  /**
   * The extraction loop from member `i` on, with `tree` and `folder` the
   * state it has reached.
   */
  function ExtractFrom(t: Tree, es: seq<Entry>, i: nat, cwd: Path, folder: Path): Unzipped
    requires i <= |es|
    decreases |es| - i
  {
    if i == |es| then Unzipped(t, Ok(folder))
    else if es[i].enclosed.None? then ExtractFrom(t, es, i + 1, cwd, folder)
    else if i == 0 && !IsDirEntry(es[i]) then Unzipped(t, Err(FirstEntryNotDirectory))
    else
      var folder' := if i == 0 then es[i].enclosed.value else folder;
      var s := WriteEntry(t, es[i], cwd);
      if s.fault.Some? then Unzipped(s.tree, Err(s.fault.value))
      else ExtractFrom(s.tree, es, i + 1, cwd, folder')
  }

  /** unzip(zip): open the archive at `zip`, read its members and extract them all. */
  function Extract(t: Tree, zip: Path, decode: Decoder, cwd: Path): Unzipped
  {
    if !Exists(t, zip) then Unzipped(t, Err(OpenFailed))
    else if !IsFile(t, zip) then Unzipped(t, Err(NotAnArchive))
    else
      match decode(t[zip].data)
      case None => Unzipped(t, Err(NotAnArchive))
      case Some(a) =>
        var u := ExtractFrom(t, a.members, 0, cwd, []);
        if u.folder.Ok? && a.broken then Unzipped(u.tree, Err(MemberUnreadable)) else u
  }

  /** The folder unzip names: member 0's path, or "" when member 0 has none. */
  function FirstFolder(es: seq<Entry>): Path
  {
    if |es| > 0 && es[0].enclosed.Some? then es[0].enclosed.value else []
  }

  // ---------------------------------------------------------------------
  // The loop
  // ---------------------------------------------------------------------

  /** unzip(zip_file_name), on the disk, with `zipName` taken relative to `cwd`. */
  method Unzip(disk: Disk, zipName: string, decode: Decoder, cwd: Path)
    returns (folder: Result<Path, Fault>)
    modifies disk
    ensures Unzipped(disk.tree, folder) == Extract(old(disk.tree), cwd + [zipName], decode, cwd)
  {
    var zip := cwd + [zipName];
    var present := disk.PathExists(zip);
    if !present {
      return Err(OpenFailed);
    }
    if !IsFile(disk.tree, zip) {
      return Err(NotAnArchive);
    }
    var archive := decode(disk.tree[zip].data);
    if archive.None? {
      return Err(NotAnArchive);
    }
    var es := archive.value.members;
    ghost var t0 := disk.tree;
    var name: Path := [];
    for i := 0 to |es|
      invariant ExtractFrom(t0, es, 0, cwd, []) == ExtractFrom(disk.tree, es, i, cwd, name)
    {
      var e := es[i];
      if e.enclosed.None? {
        continue;
      }
      if i == 0 {
        if !IsDirEntry(e) {
          return Err(FirstEntryNotDirectory);
        }
        name := e.enclosed.value;
      }
      var rel := e.enclosed.value;
      if IsDirEntry(e) {
        var ok := disk.CreateDirAll(cwd + rel);
        if !ok {
          return Err(CreateDirFailed);
        }
      } else {
        if rel != [] && Parent(rel) != [] {
          var there := disk.PathExists(cwd + Parent(rel));
          if !there {
            var ok := disk.CreateDirAll(cwd + Parent(rel));
            if !ok {
              return Err(CreateDirFailed);
            }
          }
        }
        var ok := disk.CreateFile(cwd + rel, e.data);
        if !ok {
          return Err(CreateFileFailed);
        }
      }
    }
    if archive.value.broken {
      // by_index fails for the member after the ones read
      return Err(MemberUnreadable);
    }
    return Ok(name);
  }

  // ---------------------------------------------------------------------
  // What one member does to the tree
  // ---------------------------------------------------------------------

  /** Nothing that was a directory stops being one, nothing that was a file stops being one. */
  ghost predicate KindsKept(t: Tree, t': Tree)
  {
    forall x | x in t :: x in t' && t'[x].Dir? == t[x].Dir?
  }

  /** Every entry other than `p` keeps its node. */
  ghost predicate KeptExcept(t: Tree, t': Tree, p: Path)
  {
    forall x | x in t && x != p :: x in t' && t'[x] == t[x]
  }

  /** `x` is `p` or one of its ancestors, the root excluded. */
  predicate PrefixOf(x: Path, p: Path)
  {
    0 < |x| <= |p| && x == p[..|x|]
  }

  /** Every entry of `t'` was in `t`, or is `p` or one of its ancestors. */
  ghost predicate AddsOnly(t: Tree, t': Tree, p: Path)
  {
    forall x | x in t' :: x in t || PrefixOf(x, p)
  }

  /** `x` is the output path of a member from `i` on, or one of its ancestors. */
  ghost predicate FromMembers(es: seq<Entry>, i: nat, cwd: Path, x: Path)
  {
    exists j | i <= j < |es| && es[j].enclosed.Some? :: PrefixOf(x, OutPath(cwd, es[j]))
  }

  /**
   * A member written without a panic is in place, as a directory or as a
   * file holding its data. Whether or not it panics, nothing else that
   * existed changes, and the only entries it adds are its path and that
   * path's ancestors.
   */
  lemma WriteEntryEffect(t: Tree, e: Entry, cwd: Path)
    requires e.enclosed.Some?
    ensures KindsKept(t, WriteEntry(t, e, cwd).tree)
    ensures AddsOnly(t, WriteEntry(t, e, cwd).tree, OutPath(cwd, e))
    ensures KeptExcept(t, WriteEntry(t, e, cwd).tree, OutPath(cwd, e))
    ensures var s := WriteEntry(t, e, cwd);
      s.fault.None? ==>
        && (IsDirEntry(e) ==> IsDir(s.tree, OutPath(cwd, e)))
        && (!IsDirEntry(e) ==> OutPath(cwd, e) in s.tree && s.tree[OutPath(cwd, e)] == File(e.data))
  {
    WriteEntryKeeps(t, e, cwd);
    WriteEntryAddsOnly(t, e, cwd);
  }

  /** What one member keeps, however it ends, and where it lands. */
  lemma WriteEntryKeeps(t: Tree, e: Entry, cwd: Path)
    requires e.enclosed.Some?
    ensures KindsKept(t, WriteEntry(t, e, cwd).tree)
    ensures KeptExcept(t, WriteEntry(t, e, cwd).tree, OutPath(cwd, e))
    ensures var s := WriteEntry(t, e, cwd);
      s.fault.None? ==>
        && (IsDirEntry(e) ==> IsDir(s.tree, OutPath(cwd, e)))
        && (!IsDirEntry(e) ==> OutPath(cwd, e) in s.tree && s.tree[OutPath(cwd, e)] == File(e.data))
  {
    var out, rel := OutPath(cwd, e), e.enclosed.value;
    if IsDirEntry(e) {
      CreateDirAllEffect(t, out);
    } else {
      var t1 := t;
      if rel != [] && Parent(rel) != [] && !Exists(t, cwd + Parent(rel)) {
        CreateDirAllEffect(t, cwd + Parent(rel));
        if AfterCreateDirAll(t, cwd + Parent(rel)).Some? {
          t1 := AfterCreateDirAll(t, cwd + Parent(rel)).value;
        }
      }
      if AfterCreateFile(t1, out, e.data).Some? {
        CreateFileEffect(t1, out, e.data);
      }
    }
  }

  /** The only entries one member adds are its path and that path's ancestors. */
  lemma WriteEntryAddsOnly(t: Tree, e: Entry, cwd: Path)
    requires e.enclosed.Some?
    ensures AddsOnly(t, WriteEntry(t, e, cwd).tree, OutPath(cwd, e))
  {
    var out, rel := OutPath(cwd, e), e.enclosed.value;
    if IsDirEntry(e) {
      CreateDirAllEffect(t, out);
    } else {
      var t1 := t;
      if rel != [] && Parent(rel) != [] && !Exists(t, cwd + Parent(rel)) {
        var p := cwd + Parent(rel);
        CreateDirAllEffect(t, p);
        assert p == out[..|p|];
        if AfterCreateDirAll(t, p).Some? {
          t1 := AfterCreateDirAll(t, p).value;
          forall x | x in t1 ensures x in t || PrefixOf(x, out) {
            if x !in t {
              assert x == p[..|x|];
            }
          }
        }
      }
      if AfterCreateFile(t1, out, e.data).Some? {
        assert out == out[..|out|];
      }
    }
  }

  /** Writing a member keeps a tree a tree, and `cwd` a directory. */
  lemma WriteEntryValid(t: Tree, e: Entry, cwd: Path)
    requires e.enclosed.Some? && Valid(t) && IsDir(t, cwd)
    ensures var s := WriteEntry(t, e, cwd);
      Valid(s.tree) && IsDir(s.tree, cwd)
  {
    var out, rel := OutPath(cwd, e), e.enclosed.value;
    WriteEntryEffect(t, e, cwd);
    if IsDirEntry(e) {
      if AfterCreateDirAll(t, out).Some? {
        CreateDirAllValid(t, out);
      }
    } else {
      var t1 := t;
      if rel != [] && Parent(rel) != [] && !Exists(t, cwd + Parent(rel)) {
        if AfterCreateDirAll(t, cwd + Parent(rel)).Some? {
          CreateDirAllEffect(t, cwd + Parent(rel));
          CreateDirAllValid(t, cwd + Parent(rel));
          t1 := AfterCreateDirAll(t, cwd + Parent(rel)).value;
        }
      }
      if AfterCreateFile(t1, out, e.data).Some? {
        CreateFileEffect(t1, out, e.data);
      }
    }
  }

  /** Writing a member below an existing directory `cwd` changes nothing outside it. */
  lemma WriteEntryOutside(t: Tree, e: Entry, cwd: Path)
    requires e.enclosed.Some? && Valid(t) && IsDir(t, cwd)
    ensures SameOutside(t, WriteEntry(t, e, cwd).tree, cwd, cwd)
  {
    var out, rel := OutPath(cwd, e), e.enclosed.value;
    if IsDirEntry(e) {
      if AfterCreateDirAll(t, out).Some? {
        CreateDirAllInside(t, cwd, out);
      }
    } else {
      var t1 := t;
      if rel != [] && Parent(rel) != [] && !Exists(t, cwd + Parent(rel)) {
        if AfterCreateDirAll(t, cwd + Parent(rel)).Some? {
          CreateDirAllInside(t, cwd, cwd + Parent(rel));
          t1 := AfterCreateDirAll(t, cwd + Parent(rel)).value;
        }
      }
      if AfterCreateFile(t1, out, e.data).Some? {
        CreateFileEffect(t1, out, e.data);
        assert rel == [] ==> out == cwd;
        assert cwd <= out;
      }
    }
  }

  lemma SameOutsideTrans(t1: Tree, t2: Tree, t3: Tree, r: Path)
    requires SameOutside(t1, t2, r, r) && SameOutside(t2, t3, r, r)
    ensures SameOutside(t1, t3, r, r)
  {
  }

  // ---------------------------------------------------------------------
  // What the whole loop does
  // ---------------------------------------------------------------------

  /** After member 0, the folder name the loop carries is the one it returns. */
  lemma {:induction false} FolderKept(t: Tree, es: seq<Entry>, i: nat, cwd: Path, folder: Path)
    requires 0 < i <= |es|
    ensures ExtractFrom(t, es, i, cwd, folder).folder.Ok? ==> ExtractFrom(t, es, i, cwd, folder).folder.value == folder
    ensures ExtractFrom(t, es, i, cwd, folder).folder != Err(FirstEntryNotDirectory)
    decreases |es| - i
  {
    if i < |es| {
      if es[i].enclosed.None? {
        FolderKept(t, es, i + 1, cwd, folder);
      } else {
        var s := WriteEntry(t, es[i], cwd);
        if s.fault.None? {
          FolderKept(s.tree, es, i + 1, cwd, folder);
        }
      }
    }
  }

  /**
   * unzip returns member 0's path, and member 0 is then a directory; when
   * member 0 has no usable path it returns the empty name.
   */
  lemma ExtractFolder(t: Tree, es: seq<Entry>, cwd: Path)
    ensures var u := ExtractFrom(t, es, 0, cwd, []);
      u.folder.Ok? ==>
        && u.folder.value == FirstFolder(es)
        && (|es| > 0 && es[0].enclosed.Some? ==> IsDirEntry(es[0]))
  {
    if |es| > 0 {
      if es[0].enclosed.None? {
        FolderKept(t, es, 1, cwd, []);
      } else if IsDirEntry(es[0]) {
        var s := WriteEntry(t, es[0], cwd);
        if s.fault.None? {
          FolderKept(s.tree, es, 1, cwd, es[0].enclosed.value);
        }
      }
    }
  }

  /**
   * The sanity check: unzip panics on it exactly when member 0 has a
   * usable path but is not a directory, and then nothing has been written.
   */
  lemma FirstEntryCheck(t: Tree, es: seq<Entry>, cwd: Path)
    ensures var u := ExtractFrom(t, es, 0, cwd, []);
      && (u.folder == Err(FirstEntryNotDirectory) <==> |es| > 0 && es[0].enclosed.Some? && !IsDirEntry(es[0]))
      && (u.folder == Err(FirstEntryNotDirectory) ==> u.tree == t)
  {
    if |es| > 0 {
      if es[0].enclosed.None? {
        FolderKept(t, es, 1, cwd, []);
      } else if IsDirEntry(es[0]) {
        var s := WriteEntry(t, es[0], cwd);
        if s.fault.None? {
          FolderKept(s.tree, es, 1, cwd, es[0].enclosed.value);
        }
      }
    }
  }

  /** Extraction only adds: what was a directory stays one, what was a file stays one. */
  lemma {:induction false} ExtractKindsKept(t: Tree, es: seq<Entry>, i: nat, cwd: Path, folder: Path)
    requires i <= |es|
    ensures KindsKept(t, ExtractFrom(t, es, i, cwd, folder).tree)
    decreases |es| - i
  {
    if i < |es| {
      if es[i].enclosed.None? {
        ExtractKindsKept(t, es, i + 1, cwd, folder);
      } else if !(i == 0 && !IsDirEntry(es[i])) {
        var folder' := if i == 0 then es[i].enclosed.value else folder;
        var s := WriteEntry(t, es[i], cwd);
        WriteEntryEffect(t, es[i], cwd);
        if s.fault.None? {
          ExtractKindsKept(s.tree, es, i + 1, cwd, folder');
        }
      }
    }
  }

  /** Extraction keeps a tree a tree, and `cwd` a directory. */
  lemma {:induction false} ExtractValid(t: Tree, es: seq<Entry>, i: nat, cwd: Path, folder: Path)
    requires i <= |es| && Valid(t) && IsDir(t, cwd)
    ensures var u := ExtractFrom(t, es, i, cwd, folder);
      Valid(u.tree) && IsDir(u.tree, cwd)
    decreases |es| - i
  {
    if i < |es| {
      if es[i].enclosed.None? {
        ExtractValid(t, es, i + 1, cwd, folder);
      } else if !(i == 0 && !IsDirEntry(es[i])) {
        var folder' := if i == 0 then es[i].enclosed.value else folder;
        var s := WriteEntry(t, es[i], cwd);
        WriteEntryValid(t, es[i], cwd);
        if s.fault.None? {
          ExtractValid(s.tree, es, i + 1, cwd, folder');
        }
      }
    }
  }

  /** Extraction below an existing directory `cwd` leaves everything outside it as it was. */
  lemma {:induction false} ExtractOutside(t: Tree, es: seq<Entry>, i: nat, cwd: Path, folder: Path)
    requires i <= |es| && Valid(t) && IsDir(t, cwd)
    ensures SameOutside(t, ExtractFrom(t, es, i, cwd, folder).tree, cwd, cwd)
    decreases |es| - i
  {
    if i < |es| {
      if es[i].enclosed.None? {
        ExtractOutside(t, es, i + 1, cwd, folder);
      } else if !(i == 0 && !IsDirEntry(es[i])) {
        var folder' := if i == 0 then es[i].enclosed.value else folder;
        var s := WriteEntry(t, es[i], cwd);
        WriteEntryOutside(t, es[i], cwd);
        if s.fault.None? {
          WriteEntryValid(t, es[i], cwd);
          var u := ExtractFrom(s.tree, es, i + 1, cwd, folder');
          assert ExtractFrom(t, es, i, cwd, folder) == u;
          ExtractOutside(s.tree, es, i + 1, cwd, folder');
          SameOutsideTrans(t, s.tree, u.tree, cwd);
        }
      }
    }
  }

  /** Extraction keeps a tree a tree and leaves everything outside `cwd` as it was. */
  lemma ExtractInside(t: Tree, es: seq<Entry>, cwd: Path)
    requires Valid(t) && IsDir(t, cwd)
    ensures var u := ExtractFrom(t, es, 0, cwd, []);
      Valid(u.tree) && SameOutside(t, u.tree, cwd, cwd)
  {
    ExtractValid(t, es, 0, cwd, []);
    ExtractOutside(t, es, 0, cwd, []);
  }

  /** An entry that no later member writes to keeps its node to the end, however extraction ends. */
  lemma {:induction false} ExtractUntouched(t: Tree, es: seq<Entry>, i: nat, cwd: Path, folder: Path, x: Path)
    requires i <= |es| && x in t
    requires forall j | i <= j < |es| && es[j].enclosed.Some? :: OutPath(cwd, es[j]) != x
    ensures var u := ExtractFrom(t, es, i, cwd, folder);
      x in u.tree && u.tree[x] == t[x]
    decreases |es| - i
  {
    if i < |es| {
      if es[i].enclosed.None? {
        ExtractUntouched(t, es, i + 1, cwd, folder, x);
      } else if !(i == 0 && !IsDirEntry(es[i])) {
        var folder' := if i == 0 then es[i].enclosed.value else folder;
        var s := WriteEntry(t, es[i], cwd);
        WriteEntryEffect(t, es[i], cwd);
        if s.fault.None? {
          ExtractUntouched(s.tree, es, i + 1, cwd, folder', x);
        }
      }
    }
  }

  /**
   * Extraction adds nothing but the output paths of the members and their
   * ancestors, however it ends.
   */
  lemma {:induction false} ExtractAddsOnly(t: Tree, es: seq<Entry>, i: nat, cwd: Path, folder: Path)
    requires i <= |es|
    ensures forall x | x in ExtractFrom(t, es, i, cwd, folder).tree :: x in t || FromMembers(es, i, cwd, x)
    decreases |es| - i
  {
    if i < |es| {
      if es[i].enclosed.None? {
        ExtractAddsOnly(t, es, i + 1, cwd, folder);
        forall x | x in ExtractFrom(t, es, i, cwd, folder).tree && FromMembers(es, i + 1, cwd, x)
          ensures FromMembers(es, i, cwd, x)
        {
          var j :| i + 1 <= j < |es| && es[j].enclosed.Some? && PrefixOf(x, OutPath(cwd, es[j]));
        }
      } else if !(i == 0 && !IsDirEntry(es[i])) {
        var folder' := if i == 0 then es[i].enclosed.value else folder;
        var s := WriteEntry(t, es[i], cwd);
        WriteEntryEffect(t, es[i], cwd);
        var u := ExtractFrom(t, es, i, cwd, folder);
        if s.fault.None? {
          ExtractAddsOnly(s.tree, es, i + 1, cwd, folder');
          assert u == ExtractFrom(s.tree, es, i + 1, cwd, folder');
        }
        forall x | x in u.tree ensures x in t || FromMembers(es, i, cwd, x) {
          if x in s.tree {
            if x !in t {
              assert PrefixOf(x, OutPath(cwd, es[i]));
            }
          } else {
            assert FromMembers(es, i + 1, cwd, x);
            var j :| i + 1 <= j < |es| && es[j].enclosed.Some? && PrefixOf(x, OutPath(cwd, es[j]));
          }
        }
      }
    }
  }

  /**
   * unzip returns a folder only when the archive opens, every member is
   * read and the loop over them succeeds. When reading stops at a broken
   * member it panics, with the members before it written.
   */
  lemma ExtractReadsAll(t: Tree, zip: Path, decode: Decoder, cwd: Path)
    ensures var u := Extract(t, zip, decode, cwd);
      u.folder.Ok? ==>
        && IsFile(t, zip) && decode(t[zip].data).Some? && !decode(t[zip].data).value.broken
        && u == ExtractFrom(t, decode(t[zip].data).value.members, 0, cwd, [])
    ensures IsFile(t, zip) && decode(t[zip].data).Some? && decode(t[zip].data).value.broken ==>
      var u := Extract(t, zip, decode, cwd);
      && u.folder.Err?
      && u.tree == ExtractFrom(t, decode(t[zip].data).value.members, 0, cwd, []).tree
  {
  }

  /** No member after `k` is written to member `k`'s path. */
  ghost predicate LastWriter(es: seq<Entry>, k: nat, cwd: Path)
    requires k < |es| && es[k].enclosed.Some?
  {
    forall j | k < j < |es| && es[j].enclosed.Some? :: OutPath(cwd, es[j]) != OutPath(cwd, es[k])
  }

  /** Every member with a usable path is in place after an extraction without a panic. */
  lemma {:induction false} ExtractedInPlace(t: Tree, es: seq<Entry>, i: nat, cwd: Path, folder: Path, k: nat)
    requires i <= k < |es| && es[k].enclosed.Some?
    ensures var u := ExtractFrom(t, es, i, cwd, folder);
      u.folder.Ok? ==>
        && (IsDirEntry(es[k]) ==> IsDir(u.tree, OutPath(cwd, es[k])))
        && (!IsDirEntry(es[k]) ==>
              IsFile(u.tree, OutPath(cwd, es[k])) && (LastWriter(es, k, cwd) ==> u.tree[OutPath(cwd, es[k])] == File(es[k].data)))
    decreases |es| - i
  {
    if es[i].enclosed.None? {
      ExtractedInPlace(t, es, i + 1, cwd, folder, k);
    } else if !(i == 0 && !IsDirEntry(es[i])) {
      var folder' := if i == 0 then es[i].enclosed.value else folder;
      var s := WriteEntry(t, es[i], cwd);
      WriteEntryEffect(t, es[i], cwd);
      if s.fault.None? {
        if i < k {
          ExtractedInPlace(s.tree, es, i + 1, cwd, folder', k);
        } else {
          var out := OutPath(cwd, es[k]);
          var u := ExtractFrom(s.tree, es, i + 1, cwd, folder');
          ExtractKindsKept(s.tree, es, i + 1, cwd, folder');
          if out != [] {
            assert out in s.tree;
          }
          if !IsDirEntry(es[k]) && LastWriter(es, k, cwd) {
            ExtractUntouched(s.tree, es, i + 1, cwd, folder', out);
          }
        }
      }
    }
  }

  /**
   * After an extraction without a panic, every member with a usable path
   * is in place: a directory member as a directory, a file member as a
   * file, holding that member's data when no later member has the same
   * path. Beyond the entries that were there, the tree holds only the
   * members' paths and their ancestors.
   */
  lemma ExtractedPresent(t: Tree, es: seq<Entry>, i: nat, cwd: Path, folder: Path, k: nat)
    requires i <= k < |es| && es[k].enclosed.Some?
    ensures forall x | x in ExtractFrom(t, es, i, cwd, folder).tree :: x in t || FromMembers(es, i, cwd, x)
    ensures var u := ExtractFrom(t, es, i, cwd, folder);
      u.folder.Ok? ==>
        && (IsDirEntry(es[k]) ==> IsDir(u.tree, OutPath(cwd, es[k])))
        && (!IsDirEntry(es[k]) ==>
              IsFile(u.tree, OutPath(cwd, es[k])) && (LastWriter(es, k, cwd) ==> u.tree[OutPath(cwd, es[k])] == File(es[k].data)))
  {
    ExtractAddsOnly(t, es, i, cwd, folder);
    ExtractedInPlace(t, es, i, cwd, folder, k);
  }
}
