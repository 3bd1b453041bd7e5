/**
 * apply_mods_pr: checks that the given directory is a game install, finds
 * the pull request's branch archive, downloads it next to the program,
 * extracts it, deletes the managed folder in the game directory and moves
 * the extracted folder into its place.
 *
 * The program's working directory is `cwd`; the relative paths the source
 * uses (the temporary archive, the extracted folder) are taken from it.
 * The HTTP GET is the `fetch` parameter and zip reading is the `decode`
 * parameter. A panic ends the run with the tree as it was at that moment.
 */
module ApplyMods {
  import opened Wrappers
  import opened FileSystem
  import JsonValue
  import DownloadLink
  import Unzip

  /** The file whose presence marks a game install directory. */
  const GameExecutable := "Titanfall2.exe"
  /** The folder inside the game directory that the tool replaces on every apply. */
  const ManagedFolder := "R2Northstar-PR-test-managed-folder"
  /** The name the archive is downloaded to, in the working directory. */
  const TempZipName := "ns-dev-test-helper-temp-pr-files.zip"

  /** Why a run panics. */
  datatype Panic =
    | LinkPanic(link: DownloadLink.Fault)   // an unwrap in get_download_link
    | RequestFailed                         // reqwest::blocking::get
    | ZipCreateFailed                       // File::create of the archive
    | CopyFailed                            // io::copy of the response into the archive
    | UnzipPanic(unzip: Unzip.Fault)        // an unwrap or assert! in unzip
    | RemoveFailed                          // remove_dir_all of the managed folder
    | RenameFailed                          // rename of the extracted folder

  /** How apply_mods_pr ends: it returns a bool, or it panics. */
  datatype Exit = Returned(ok: bool) | Panicked(reason: Panic)

  /** The tree when apply_mods_pr ends, and how it ends. */
  datatype Applied = Applied(tree: Tree, exit: Exit)

  /**
   * A response as io::copy sees it: the bytes that reach the archive, and
   * whether the copy ends cleanly (false: reading the response or writing
   * the file fails after those bytes).
   */
  datatype Body = Body(data: seq<byte>, complete: bool)

  /** The HTTP GET: a response for a URL, or None when the request fails. */
  type Fetcher = string -> Option<Body>

  /** A stage's resulting tree, and the panic that ended the run there, if any. */
  datatype Stage = Stage(tree: Tree, fault: Option<Panic>)

  function MarkerPath(game: Path): Path
  {
    game + [GameExecutable]
  }

  function ManagedPath(game: Path): Path
  {
    game + [ManagedFolder]
  }

  /**
   * download_zip(url, "."): the GET fails on the empty URL and whenever
   * `fetch` does; otherwise File::create makes the temporary archive and
   * io::copy fills it. A copy that fails panics with the bytes copied so far
   * in the archive. The response status is not looked at.
   */
  function Download(t: Tree, url: string, fetch: Fetcher, cwd: Path): Stage
  {
    if url == "" then Stage(t, Some(RequestFailed))
    else
      match fetch(url)
      case None => Stage(t, Some(RequestFailed))
      case Some(body) =>
        match AfterCreateFile(t, cwd + [TempZipName], body.data)
        case None => Stage(t, Some(ZipCreateFailed))
        case Some(t') => Stage(t', if body.complete then None else Some(CopyFailed))
  }

  /**
   * Everything up to and including the extraction, once the marker has been
   * found: the tree then, and the extracted folder's name or the panic.
   */
  function Staged(t: Tree, pr: JsonValue.i64, response: JsonValue.Json,
                  fetch: Fetcher, decode: Unzip.Decoder,
                  cwd: Path): Result<Unzip.Unzipped, Stage>
  {
    match DownloadLink.DownloadLink(pr, response)
    case Err(f) => Err(Stage(t, Some(LinkPanic(f))))
    case Ok(url) =>
      var d := Download(t, url, fetch, cwd);
      if d.fault.Some? then Err(d)
      else
        var u := Unzip.Extract(d.tree, cwd + [TempZipName], decode, cwd);
        if u.folder.Err? then Err(Stage(u.tree, Some(UnzipPanic(u.folder.error))))
        else Ok(u)
  }

  /**
   * Replacing the managed folder: remove_dir_all, whose failure panics, then
   * rename of the extracted folder; the empty name cannot be renamed.
   */
  function Install(t: Tree, cwd: Path, folder: Path, managed: Path): Applied
  {
    match AfterRemoveDirAll(t, managed)
    case None => Applied(t, Panicked(RemoveFailed))
    case Some(t1) =>
      if folder == [] then Applied(t1, Panicked(RenameFailed))
      else
        match AfterRename(t1, cwd + folder, managed)
        case None => Applied(t1, Panicked(RenameFailed))
        case Some(t2) => Applied(t2, Returned(true))
  }

  /** apply_mods_pr(pr_number, game_install_path, json_response). */
  function Apply(t: Tree, pr: JsonValue.i64, game: Path, response: JsonValue.Json,
                 fetch: Fetcher, decode: Unzip.Decoder,
                 cwd: Path): Applied
  {
    if !Exists(t, MarkerPath(game)) then Applied(t, Returned(false))
    else
      match Staged(t, pr, response, fetch, decode, cwd)
      case Err(s) => Applied(s.tree, Panicked(s.fault.value))
      case Ok(u) => Install(u.tree, cwd, u.folder.value, ManagedPath(game))
  }

  // ---------------------------------------------------------------------
  // The program
  // ---------------------------------------------------------------------

  /** download_zip, on the disk. */
  method DownloadZip(disk: Disk, url: string, fetch: Fetcher, cwd: Path)
    returns (fault: Option<Panic>)
    modifies disk
    ensures Stage(disk.tree, fault) == Download(old(disk.tree), url, fetch, cwd)
  {
    if url == "" {
      return Some(RequestFailed);
    }
    var resp := fetch(url);
    if resp.None? {
      return Some(RequestFailed);
    }
    var ok := disk.CreateFile(cwd + [TempZipName], resp.value.data);
    if !ok {
      return Some(ZipCreateFailed);
    }
    if !resp.value.complete {
      return Some(CopyFailed);
    }
    return None;
  }

  /** apply_mods_pr, on the disk. */
  method ApplyModsPr(disk: Disk, pr: JsonValue.i64, game: Path, response: JsonValue.Json,
                     fetch: Fetcher, decode: Unzip.Decoder,
                     cwd: Path)
    returns (exit: Exit)
    modifies disk
    ensures Applied(disk.tree, exit) == Apply(old(disk.tree), pr, game, response, fetch, decode, cwd)
  {
    var isGamePath := disk.PathExists(MarkerPath(game));
    if !isGamePath {
      return Returned(false);
    }
    var link := DownloadLink.GetDownloadLink(pr, response);
    if link.Err? {
      return Panicked(LinkPanic(link.error));
    }
    var fault := DownloadZip(disk, link.value, fetch, cwd);
    if fault.Some? {
      return Panicked(fault.value);
    }
    var folder := Unzip.Unzip(disk, TempZipName, decode, cwd);
    if folder.Err? {
      return Panicked(UnzipPanic(folder.error));
    }
    var removed := disk.RemoveDirAll(ManagedPath(game));
    if !removed {
      return Panicked(RemoveFailed);
    }
    if folder.value == [] {
      return Panicked(RenameFailed);
    }
    var moved := disk.Rename(cwd + folder.value, ManagedPath(game));
    if !moved {
      return Panicked(RenameFailed);
    }
    return Returned(true);
  }

  // ---------------------------------------------------------------------
  // What a run does
  // ---------------------------------------------------------------------

  /**
   * apply_mods_pr returns false exactly when the game executable is not in
   * the given directory, and then it has changed nothing; otherwise it
   * returns true or panics.
   */
  lemma WrongGamePath(t: Tree, pr: JsonValue.i64, game: Path, response: JsonValue.Json,
                      fetch: Fetcher, decode: Unzip.Decoder,
                      cwd: Path)
    ensures var a := Apply(t, pr, game, response, fetch, decode, cwd);
      && (a.exit == Returned(false) <==> !Exists(t, MarkerPath(game)))
      && (a.exit == Returned(false) ==> a.tree == t)
      && (a.exit.Returned? ==> a.exit.ok == Exists(t, MarkerPath(game)))
  {
    if Exists(t, MarkerPath(game)) {
      var s := Staged(t, pr, response, fetch, decode, cwd);
      if s.Err? {
        match DownloadLink.DownloadLink(pr, response)
        case Err(f) =>
        case Ok(url) =>
          var d := Download(t, url, fetch, cwd);
          if d.fault.None? {
            var u := Unzip.Extract(d.tree, cwd + [TempZipName], decode, cwd);
            assert s.error.fault == Some(UnzipPanic(u.folder.error));
          }
      }
    }
  }

  /**
   * Deleting the managed folder: when it is not a directory, in particular
   * when it does not exist yet, the run panics with the extracted files in
   * the working directory and before anything is renamed.
   */
  lemma RemoveFailurePanics(t: Tree, pr: JsonValue.i64, game: Path, response: JsonValue.Json,
                            fetch: Fetcher, decode: Unzip.Decoder,
                            cwd: Path)
    requires Exists(t, MarkerPath(game))
    requires Staged(t, pr, response, fetch, decode, cwd).Ok?
    requires !IsDir(Staged(t, pr, response, fetch, decode, cwd).value.tree, ManagedPath(game))
    ensures Apply(t, pr, game, response, fetch, decode, cwd)
         == Applied(Staged(t, pr, response, fetch, decode, cwd).value.tree, Panicked(RemoveFailed))
  {
  }

  /**
   * A copy that fails part-way ends the run with the partial archive left in
   * the working directory, before anything is extracted or removed.
   */
  lemma CopyFailurePanics(t: Tree, pr: JsonValue.i64, game: Path, response: JsonValue.Json,
                          fetch: Fetcher, decode: Unzip.Decoder,
                          cwd: Path)
    requires Exists(t, MarkerPath(game))
    requires DownloadLink.DownloadLink(pr, response).Ok?
    requires var url := DownloadLink.DownloadLink(pr, response).value;
      && url != "" && fetch(url).Some? && !fetch(url).value.complete
      && AfterCreateFile(t, cwd + [TempZipName], fetch(url).value.data).Some?
    ensures var url := DownloadLink.DownloadLink(pr, response).value;
      Apply(t, pr, game, response, fetch, decode, cwd)
        == Applied(t[cwd + [TempZipName] := File(fetch(url).value.data)], Panicked(CopyFailed))
  {
  }

  /**
   * A successful replace: below the managed folder lies exactly what lay
   * below the extracted folder, the extracted folder is gone, and nothing
   * outside the two has changed.
   */
  lemma {:induction false} InstallEffect(t: Tree, cwd: Path, folder: Path, managed: Path)
    requires Install(t, cwd, folder, managed).exit == Returned(true)
    ensures var t' := Install(t, cwd, folder, managed).tree;
      && SameSubtree(t', managed, t, cwd + folder)
      && NothingUnder(t', cwd + folder)
      && SameOutside(t, t', cwd + folder, managed)
  {
    var t1 := AfterRemoveDirAll(t, managed).value;
    var from := cwd + folder;
    RemoveDirAllEffect(t, managed);
    RenameEffect(t1, from, managed);
    var t2 := AfterRename(t1, from, managed).value;
    forall q ensures (from + q in t1 <==> from + q in t) && (from + q in t1 ==> t1[from + q] == t[from + q]) {
      PrefixTrans(managed, from, from + q);
    }
  }

  /**
   * On success the managed folder holds exactly the extracted folder's
   * contents, as they were after unzip.
   */
  lemma InstalledTree(t: Tree, pr: JsonValue.i64, game: Path, response: JsonValue.Json,
                      fetch: Fetcher, decode: Unzip.Decoder,
                      cwd: Path)
    ensures var a := Apply(t, pr, game, response, fetch, decode, cwd);
      a.exit == Returned(true) ==>
        var s := Staged(t, pr, response, fetch, decode, cwd);
        && s.Ok?
        && s.value.folder.value != []
        && SameSubtree(a.tree, ManagedPath(game), s.value.tree, cwd + s.value.folder.value)
  {
    var a := Apply(t, pr, game, response, fetch, decode, cwd);
    if a.exit == Returned(true) {
      var u := Staged(t, pr, response, fetch, decode, cwd).value;
      InstallEffect(u.tree, cwd, u.folder.value, ManagedPath(game));
    }
  }

  /**
   * Each archive member below the extracted folder ends up at the same
   * relative path below the managed folder: directories as directories,
   * files as files holding the member's data when no later member has the
   * same path.
   */
  lemma MemberInstalled(t: Tree, es: seq<Unzip.Entry>, cwd: Path, managed: Path, k: nat, q: Path)
    requires Unzip.ExtractFrom(t, es, 0, cwd, []).folder.Ok?
    requires var u := Unzip.ExtractFrom(t, es, 0, cwd, []);
      Install(u.tree, cwd, u.folder.value, managed).exit == Returned(true)
    requires k < |es| && es[k].enclosed == Some(Unzip.FirstFolder(es) + q)
    ensures var u := Unzip.ExtractFrom(t, es, 0, cwd, []);
      var t' := Install(u.tree, cwd, u.folder.value, managed).tree;
      && (Unzip.IsDirEntry(es[k]) ==> IsDir(t', managed + q))
      && (!Unzip.IsDirEntry(es[k]) ==>
            IsFile(t', managed + q) && (Unzip.LastWriter(es, k, cwd) ==> t'[managed + q] == File(es[k].data)))
  {
    var u := Unzip.ExtractFrom(t, es, 0, cwd, []);
    Unzip.ExtractFolder(t, es, cwd);
    Unzip.ExtractedPresent(t, es, 0, cwd, [], k);
    assert Unzip.OutPath(cwd, es[k]) == cwd + u.folder.value + q;
    InstalledAt(u.tree, cwd, u.folder.value, managed, q);
  }

  /**
   * The other direction: whatever lies below the managed folder after a
   * successful run was below the extracted folder before unzip, or is the
   * path of an archive member or one of its ancestors.
   */
  lemma InstalledFrom(t: Tree, es: seq<Unzip.Entry>, cwd: Path, managed: Path, q: Path)
    requires Unzip.ExtractFrom(t, es, 0, cwd, []).folder.Ok?
    requires var u := Unzip.ExtractFrom(t, es, 0, cwd, []);
      Install(u.tree, cwd, u.folder.value, managed).exit == Returned(true)
    requires var u := Unzip.ExtractFrom(t, es, 0, cwd, []);
      managed + q in Install(u.tree, cwd, u.folder.value, managed).tree
    ensures var p := cwd + Unzip.FirstFolder(es) + q;
      p in t || Unzip.FromMembers(es, 0, cwd, p)
  {
    var u := Unzip.ExtractFrom(t, es, 0, cwd, []);
    Unzip.ExtractFolder(t, es, cwd);
    InstallEffect(u.tree, cwd, u.folder.value, managed);
    Unzip.ExtractAddsOnly(t, es, 0, cwd, []);
    assert cwd + u.folder.value + q in u.tree;
  }

  /** What lay at `q` below the extracted folder lies at `q` below the managed folder. */
  lemma InstalledAt(t: Tree, cwd: Path, folder: Path, managed: Path, q: Path)
    requires Install(t, cwd, folder, managed).exit == Returned(true)
    ensures var t' := Install(t, cwd, folder, managed).tree;
      && (IsDir(t, cwd + folder + q) ==> IsDir(t', managed + q))
      && (IsFile(t, cwd + folder + q) ==> IsFile(t', managed + q) && t'[managed + q] == t[cwd + folder + q])
  {
    InstallEffect(t, cwd, folder, managed);
    var t' := Install(t, cwd, folder, managed).tree;
    assert folder != [];
    assert managed + q in t' <==> cwd + folder + q in t;
  }

  /**
   * The download's outcomes: a failed request or a failed File::create
   * leaves the tree alone; otherwise the archive holds the bytes copied, and
   * the run goes on exactly when the copy completed.
   */
  lemma DownloadEffect(t: Tree, url: string, fetch: Fetcher, cwd: Path)
    ensures var d := Download(t, url, fetch, cwd);
      && (d.fault == Some(RequestFailed) <==> url == "" || fetch(url).None?)
      && (d.fault == Some(RequestFailed) || d.fault == Some(ZipCreateFailed) ==> d.tree == t)
      && (d.fault.None? || d.fault == Some(CopyFailed) ==>
            && url != "" && fetch(url).Some?
            && d.tree == t[cwd + [TempZipName] := File(fetch(url).value.data)]
            && (d.fault.None? <==> fetch(url).value.complete))
  {
  }

  /** Valid(t) for every stage's tree. */
  lemma DownloadValid(t: Tree, url: string, fetch: Fetcher, cwd: Path)
    requires Valid(t)
    ensures var d := Download(t, url, fetch, cwd);
      && Valid(d.tree)
      && SameOutside(t, d.tree, cwd, cwd)
      && (d.fault.None? ==> IsDir(d.tree, cwd))
  {
    var d := Download(t, url, fetch, cwd);
    var zip := cwd + [TempZipName];
    if d.tree != t {
      var body := fetch(url).value.data;
      CreateFileEffect(t, zip, body);
      assert Parent(zip) == cwd;
      var t' := t[zip := File(body)];
      assert d.tree == t';
      assert cwd <= zip;
      assert SameOutside(t, t', cwd, cwd);
    }
  }

  /** Outside `a` and `b`, two steps that each stay inside `a` or `b` change nothing. */
  lemma OutsideCompose(t1: Tree, t2: Tree, t3: Tree, a: Path, b: Path, c: Path, d: Path)
    requires SameOutside(t1, t2, a, b) && SameOutside(t2, t3, c, d)
    requires (a <= c || b <= c) && (a <= d || b <= d)
    ensures SameOutside(t1, t3, a, b)
  {
    forall x | x in t1 && !(a <= x) && !(b <= x) ensures x in t3 && t3[x] == t1[x] {
      PrefixTrans(a, c, x);
      PrefixTrans(b, c, x);
      PrefixTrans(a, d, x);
      PrefixTrans(b, d, x);
    }
    forall x | x in t3 && !(a <= x) && !(b <= x) ensures x in t1 {
      PrefixTrans(a, c, x);
      PrefixTrans(b, c, x);
      PrefixTrans(a, d, x);
      PrefixTrans(b, d, x);
    }
  }

  /**
   * A run keeps a tree a tree, and touches nothing outside the working
   * directory and the managed folder, however it ends.
   */
  lemma ApplyInside(t: Tree, pr: JsonValue.i64, game: Path, response: JsonValue.Json,
                    fetch: Fetcher, decode: Unzip.Decoder,
                    cwd: Path)
    requires Valid(t)
    ensures var a := Apply(t, pr, game, response, fetch, decode, cwd);
      Valid(a.tree) && SameOutside(t, a.tree, cwd, ManagedPath(game))
  {
    var managed := ManagedPath(game);
    if Exists(t, MarkerPath(game)) {
      match DownloadLink.DownloadLink(pr, response)
      case Err(f) =>
      case Ok(url) =>
        var d := Download(t, url, fetch, cwd);
        DownloadValid(t, url, fetch, cwd);
        OutsideCompose(t, t, d.tree, cwd, managed, cwd, cwd);
        if d.fault.None? {
          ExtractInstallInside(t, d.tree, decode, cwd, managed);
        }
    }
  }

  /** The steps after the download: extraction and the replace stay inside as well. */
  lemma ExtractInstallInside(t: Tree, t1: Tree, decode: Unzip.Decoder, cwd: Path, managed: Path)
    requires Valid(t1) && IsDir(t1, cwd) && SameOutside(t, t1, cwd, managed)
    ensures var u := Unzip.Extract(t1, cwd + [TempZipName], decode, cwd);
      && Valid(u.tree) && SameOutside(t, u.tree, cwd, managed)
      && (u.folder.Ok? ==>
            var t' := Install(u.tree, cwd, u.folder.value, managed).tree;
            Valid(t') && SameOutside(t, t', cwd, managed))
  {
    var zip := cwd + [TempZipName];
    if IsFile(t1, zip) && decode(t1[zip].data).Some? {
      var es := decode(t1[zip].data).value.members;
      Unzip.ExtractInside(t1, es, cwd);
      var u := Unzip.ExtractFrom(t1, es, 0, cwd, []);
      OutsideCompose(t, t1, u.tree, cwd, managed, cwd, cwd);
      if u.folder.Ok? {
        InstallInside(u.tree, cwd, u.folder.value, managed);
        OutsideCompose(t, u.tree, Install(u.tree, cwd, u.folder.value, managed).tree, cwd, managed, cwd, managed);
      }
    }
  }

  /** The replace step keeps a tree a tree and stays inside `cwd` and `managed`. */
  lemma InstallInside(t: Tree, cwd: Path, folder: Path, managed: Path)
    requires Valid(t)
    ensures var t' := Install(t, cwd, folder, managed).tree;
      Valid(t') && SameOutside(t, t', cwd, managed)
  {
    match AfterRemoveDirAll(t, managed)
    case None =>
    case Some(t1) =>
      RemoveDirAllEffect(t, managed);
      OutsideCompose(t, t, t1, cwd, managed, managed, managed);
      if folder != [] && AfterRename(t1, cwd + folder, managed).Some? {
        RenameValid(t1, cwd + folder, managed);
        RenameEffect(t1, cwd + folder, managed);
        PrefixTrans(cwd, cwd, cwd + folder);
        OutsideCompose(t, t1, AfterRename(t1, cwd + folder, managed).value, cwd, managed, cwd + folder, managed);
      }
  }
}
