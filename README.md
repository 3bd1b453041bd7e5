# Northstar dev testing helper tool — a verified model of its core

The tool is a small desktop program. It lists the open pull requests of the
Northstar mods and launcher repositories and lets a tester install the
branch of a mods pull request into a Titanfall 2 game directory. This
project models the parts of that program that are logic rather than GUI
drawing or network I/O, and proves properties of them:

- **Resolving a pull request to its archive URL** (`get_download_link`). The
  nested member loops, the early return and every panicking `unwrap` are
  modelled. A declarative reading of the same JSON is proved to agree with
  them: the first pull request whose number matches and that has a head
  decides the URL, and "" is returned when there is none.
- **Extracting the archive** (`unzip`), over an abstract list of archive
  members and an in-memory file tree. Members without a safe path are
  skipped. A name ending in `/` makes a directory; any other member becomes a
  file after its missing parent directories are created. Member 0 must be a
  directory, and its path is the result.
- **Applying a mods pull request** (`apply_mods_pr`): the game-directory
  check, resolve, download, extract, removal of the managed folder, then the
  rename of the extracted folder into its place. The file-system calls it
  makes (`create_dir_all`, `File::create`, `remove_dir_all`, `rename`,
  `Path::exists`) are modelled on a tree `map<Path, Node>`, where a path is a
  sequence of components. They are wrapped in a `Disk` class whose methods
  update the tree in place.
- **The window's state and its selection rules** (`TemplateApp::update`):
  - the case-insensitive filter on `"<number>: <title>"`;
  - the Launcher/Mods choice made from a pull request's URL;
  - the "needs testing" flag loop;
  - the list drawn from the stored response;
  - the updates to `json_response`, `label` and `error_indicator`;
  - the default state.

A panic in the Rust code is an explicit value in the model (`Err(..)`,
`Panicked(..)`), so each cause the model covers is stated and proved. The
file-system calls fail only for reasons visible in the tree; the I/O errors
that are not are listed under "## Left out".

Files: `wrappers.dfy` (Option, Result), `json.dfy` (serde_json values),
`text.dfy` (lower-casing, substring search, decimal rendering),
`download_link.dfy`, `file_system.dfy`, `unzip.dfy`, `apply_mods.dfy`,
`app.dfy`.

Three behaviours of the code worth knowing, all modelled as written:

- The HTTP status of the download is not checked. The body is written to
  the archive whatever the status.
- A failing `remove_dir_all` of the managed folder panics; it is not a soft
  failure. This includes the first run, when the folder does not exist yet
  (`ApplyMods.RemoveFailurePanics`).
- Installing is one `rename` of the extracted folder into the managed
  folder. Nothing is copied into a `mods` directory and no helper script is
  written.

## Model

| member | source | states |
|---|---|---|
| DownloadLink.RepoScan | src/app/util.rs:104-111 | the loop over `repo`'s members: keeps the last `full_name`; its only panic is a non-string `full_name`; read declaratively by `RepoScanReads` |
| DownloadLink.HeadScan | src/app/util.rs:97-113 | the loop over `head`'s members, carrying `json_key_ref` and `json_key_fullname`; it panics only for a non-string `ref`, a non-object `repo` or a non-string `full_name`; read declaratively by `HeadScanReads` |
| DownloadLink.ElementScan | src/app/util.rs:87-125 | the outer loop over the list from position `i`: the first URL or panic, "" at the end; its reading is `ElementReads`, `FirstSelectedPull`, `NoSelectedPull` |
| DownloadLink.DownloadLink | src/app/util.rs:86-126 | get_download_link: a non-array response panics, otherwise the outer loop from position 0; computed by `GetDownloadLink` |
| DownloadLink.ArchiveUrl | src/app/util.rs:114-117 | the archive URL starts with `https://github.com/` and is longer than that prefix |
| DownloadLink.HeadUrl | src/app/util.rs:94-118 | once the head is found, a successful read yields a non-empty URL, and a failed one panics for one of the four head causes (head, `ref`, `repo`, `full_name` of the wrong type) |
| DownloadLink.HeadSearch | src/app/util.rs:92-121 | an early return from the head search carries a non-empty URL |
| DownloadLink.MemberScan | src/app/util.rs:88-123 | a URL returned from an element's member loop is non-empty, so it never looks like "no match" |
| DownloadLink.ReadFullName | src/app/util.rs:104-111 | the loop over `repo`'s members computes the repo-scan function: the last `full_name` string, or a panic on a non-string |
| DownloadLink.ReadHead | src/app/util.rs:95-118 | the loop over `head`'s members computes the `ref`/`full_name` read and the formatted URL, or the panic |
| DownloadLink.GetDownloadLink | src/app/util.rs:86-126 | the nested-loop program with its early return computes `DownloadLink(pr, response)`: the URL, "" or the panic |
| DownloadLink.ScanStopsAtFirstResult | src/app/util.rs:87-118 | once an element yields a URL or panics, elements after it never change the result |
| DownloadLink.ScanSkipsUnmatchedPrefix | src/app/util.rs:87-125 | a prefix with no match is passed over entirely; the result is that of the rest of the list |
| DownloadLink.ScanShift | src/app/util.rs:87-124 | scanning from position `|pre| + i` of `pre + post` is scanning `post` from `i` |
| DownloadLink.RepoScanReads | src/app/util.rs:104-111 | with distinct member names, the repo loop yields the one `full_name` string, keeps the prior name when it is absent, and panics iff it is not a string |
| DownloadLink.HeadScanReads | src/app/util.rs:95-113 | with distinct names, the head loop succeeds iff `ref` and `repo` each read, whatever their order, and yields exactly those values |
| DownloadLink.HeadUrlReads | src/app/util.rs:95-118 | the head read succeeds iff `ref`/`full_name` are strings and `repo` an object where present; a missing `ref` or `full_name` leaves "" in its place in the URL |
| DownloadLink.HeadSearchReads | src/app/util.rs:92-121 | with distinct names, the search finds the one `head` member, or none |
| DownloadLink.ReadableHeadReads | src/app/util.rs:95-118 | a well-formed head never panics and gives the URL of its repository and branch |
| DownloadLink.MemberScanReads | src/app/util.rs:88-123 | for an object with distinct names and an i64 `number` whose head is readable if it is the selected one, the member loops return its URL iff its number equals `pr` and it has a head; the head of any other element is never read |
| DownloadLink.ElementReads | src/app/util.rs:87-123 | such an element either decides the result (the selected pull's URL) or is passed over |
| DownloadLink.FirstSelectedPull | src/app/util.rs:86-118 | the URL is built from the head of the FIRST element with the number and a head; earlier elements may have any head (a deleted fork's `repo: null`), later elements need not even be well-formed |
| DownloadLink.NoSelectedPull | src/app/util.rs:87-125 | when no element carries the number with a head, the result is "", whatever the other elements' heads hold |
| DownloadLink.MatchWithoutHeadIsSkipped | src/app/util.rs:91-123 | an element with the matching number but no head is passed over |
| DownloadLink.PanicsOnUnreadablePull | src/app/util.rs:87-91 | a non-object element, or one whose `number` is not an i64, reached before any match, panics with that cause |
| DownloadLink.SelectedHeadPanics | src/app/util.rs:87-118 | when the first pull request that carries the number and a head has a head that cannot be read, get_download_link panics with that head's cause: the head is not an object, `ref` is not a string, `repo` is not an object, or `full_name` is not a string |
| DownloadLink.SelectedHeadScan | src/app/util.rs:88-121 | the member loops of the selected pull request end in its head's panic |
| DownloadLink.NumberFaultPanics | src/app/util.rs:88-91 | a `number` member that is not an i64 panics whatever `pr` is |
| DownloadLink.ExampleResolution | src/app/util.rs:86-118 | PR 42 on branch `fix` of `foo/bar` resolves to `https://github.com/foo/bar/archive/refs/heads/fix.zip` |
| DownloadLink.DeletedForkSkipped | src/app/util.rs:87-125 | with an earlier PR 7 whose `head.repo` is null (its head read would panic), PR 42 still resolves to the `foo/bar` URL and PR 99 to "" |
| JsonValue.Get | src/app.rs:223-226 | `Value::get` with a string key: the lookup among an object's members, None for any other value; characterised by `LookupFrom` and `LookupUnique` |
| JsonValue.AsStr | src/app.rs:225-226 | `Value::as_str`: the string of a JSON string, None otherwise |
| JsonValue.AsI64 | src/app.rs:223-224 | `as_i64` gives a value iff the JSON is an integer within the i64 range, and then that integer |
| JsonValue.LookupFrom | src/app.rs:224-226 | `get` finds nothing iff no member has the key, and otherwise the value of a member with that key |
| JsonValue.LookupUnique | src/app.rs:224-226 | with distinct member names, `get` finds the one member with the key |
| FileSystem.Exists | src/app/util.rs:144-145 | `Path::exists`: the root, or a path in the tree; answered by `Disk.PathExists` |
| FileSystem.AfterCreateDirAll | src/app/util.rs:40 | `create_dir_all` on the tree: fails when an ancestor-or-self is a file, else adds the path and its ancestors as directories; characterised by `CreateDirAllEffect` |
| FileSystem.AfterCreateFile | src/app/util.rs:53-54 | `File::create` then writing the bytes: fails for the root, a directory or a parent that is not a directory; characterised by `CreateFileEffect` |
| FileSystem.AfterRemoveDirAll | src/app/util.rs:165-171 | `remove_dir_all`: fails unless the path is a directory, else drops it and everything below; characterised by `RemoveDirAllEffect` |
| FileSystem.AfterRename | src/app/util.rs:174-178 | `rename`: the entries outside the source (`Kept`) plus the source subtree moved below the target (`Moved`); fails for a missing source, an existing target, a target parent that is not a directory, or a target below the source; characterised by `RenameEffect` |
| FileSystem.CreateDirAllEffect | src/app/util.rs:40 | `create_dir_all` succeeds iff no ancestor-or-self is a file; it then makes the path a directory, keeps every entry and adds only ancestors of the path |
| FileSystem.CreateDirAllValid | src/app/util.rs:50 | `create_dir_all` keeps every entry's parent a directory |
| FileSystem.CreateDirAllInside | src/app/util.rs:40-50 | `create_dir_all` below an existing directory changes nothing outside it |
| FileSystem.CreateFileEffect | src/app/util.rs:53 | `File::create` writes exactly that path, needs its parent to be a directory and keeps every entry's parent a directory |
| FileSystem.RemoveDirAllEffect | src/app/util.rs:165-171 | `remove_dir_all` leaves nothing at or below the path, keeps everything else and keeps parents directories |
| FileSystem.RenameEffect | src/app/util.rs:174-178 | `rename` puts below the target exactly what was below the source, leaves nothing below the source, and changes nothing outside the two |
| FileSystem.RenameValid | src/app/util.rs:174-178 | `rename` keeps every entry's parent a directory |
| FileSystem.NothingUnderAbsent | src/app/util.rs:165-171 | in a tree, nothing lies below a path that does not exist |
| FileSystem.Disk.CreateDirAll | src/app/util.rs:40 | the call reports success exactly when the tree-level operation does, and the new tree is its result |
| FileSystem.Disk.CreateFile | src/app/util.rs:53-54 | the same, for creating a file and writing its bytes |
| FileSystem.Disk.RemoveDirAll | src/app/util.rs:165-171 | the same, for removing a directory tree |
| FileSystem.Disk.Rename | src/app/util.rs:174-178 | the same, for renaming |
| FileSystem.Disk.PathExists | src/app/util.rs:144-145 | `Path::exists` answers whether the path is in the tree (the root always is) |
| Unzip.IsDirEntry | src/app/util.rs:32 | a member is a directory iff its stored name ends in `/`, the test of the sanity assert and of the branch at line 38 |
| Unzip.FirstFolder | src/app/util.rs:30-35 | the folder name unzip returns: member 0's path, "" when member 0 has none; `ExtractFolder` proves the loop returns it |
| Unzip.WriteEntry | src/app/util.rs:38-55 | one member, written at its output path `OutPath` (the working directory plus its enclosed name): `create_dir_all` for a name ending in `/`, else the missing parent then `File::create`; each failure panics; characterised by `WriteEntryEffect` |
| Unzip.ExtractFrom | src/app/util.rs:16-66 | the member loop from position `i`: members without a safe path are skipped, member 0 must be a directory and names the folder; its properties are the `Extract*` lemmas |
| Unzip.Extract | src/app/util.rs:8-68 | unzip: a failed open or ZipArchive::new panics with the tree unchanged; then the member loop from 0 with folder "" over the members read, and a by_index failure on the member after them panics with those members written; computed by `Unzip.Unzip` |
| Unzip.Unzip | src/app/util.rs:8-68 | the loop over the archive computes `Extract`: the new tree and entry 0's path, or the panic (open, archive, unreadable member, sanity assert, directory or file creation) |
| Unzip.ExtractReadsAll | src/app/util.rs:10-17 | unzip returns a folder only when the archive opens and every member is read, and is then the member loop; when a member cannot be read it panics, with the members before it written |
| Unzip.WriteEntryEffect | src/app/util.rs:38-55 | a member written without a panic is a directory iff its name ends in `/`, else a file holding its data; whether or not it panics, nothing existing changes except at its path, nothing changes kind, and the only new entries are its path and that path's ancestors |
| Unzip.WriteEntryKeeps | src/app/util.rs:38-55 | whether or not it panics, no existing entry changes except at the member's path and none changes kind; without a panic the member is in place, as a directory iff its name ends in `/`, else as a file holding its data |
| Unzip.WriteEntryAddsOnly | src/app/util.rs:38-55 | whether or not writing a member panics, every new entry is the member's output path or one of its ancestors |
| Unzip.WriteEntryValid | src/app/util.rs:38-55 | writing one member keeps the tree well formed and the working directory a directory |
| Unzip.WriteEntryOutside | src/app/util.rs:38-55 | writing one member changes nothing outside the working directory |
| Unzip.FolderKept | src/app/util.rs:30-36 | after member 0, the folder name is never changed and the sanity assert never fires |
| Unzip.ExtractFolder | src/app/util.rs:14-36 | a successful extraction returns entry 0's path ("" when entry 0 has none), and a present entry 0 is a directory |
| Unzip.FirstEntryCheck | src/app/util.rs:30-32 | the sanity assert fires iff entry 0 has a path and is not a directory, and then nothing has been written |
| Unzip.ExtractKindsKept | src/app/util.rs:16-66 | extraction only adds: directories stay directories and files stay files |
| Unzip.ExtractValid | src/app/util.rs:16-66 | extraction keeps the tree well formed and the working directory a directory |
| Unzip.ExtractOutside | src/app/util.rs:16-66 | extraction changes nothing outside the working directory |
| Unzip.ExtractInside | src/app/util.rs:8-68 | the two together, for the whole archive |
| Unzip.ExtractUntouched | src/app/util.rs:16-66 | however extraction ends, an existing entry that no member writes to keeps its node |
| Unzip.ExtractAddsOnly | src/app/util.rs:16-66 | however extraction ends, every entry of the new tree was there before or is a member's output path or one of its ancestors |
| Unzip.ExtractedPresent | src/app/util.rs:16-66 | after extraction without a panic every member with a path is in place, as a directory or a file, with its data when no later member has the same path; and the tree holds nothing beyond the old entries, the members' paths and their ancestors |
| Unzip.ExtractedInPlace | src/app/util.rs:16-66 | after extraction without a panic every member with a path is in place, as a directory or a file, with its data when no later member has the same path |
| ApplyMods.Staged | src/app/util.rs:154-160 | resolve, download and unzip in order, the first panic ending the run with the tree as it was then; on success the tree after unzip and the folder |
| ApplyMods.Download | src/app/util.rs:128-135 | download_zip on the tree: a failed request or File::create panics with the tree unchanged; otherwise the archive holds the bytes io::copy wrote, and a copy that fails panics after that; characterised by `DownloadEffect` |
| ApplyMods.Install | src/app/util.rs:164-178 | remove_dir_all of the managed folder, whose failure panics, then rename of the extracted folder, whose failure panics; characterised by `InstallEffect` |
| ApplyMods.Apply | src/app/util.rs:137-181 | apply_mods_pr: false without the game executable at `MarkerPath` (util.rs:144-145), else resolve, download, unzip, then install into `ManagedPath` (util.rs:165-167), each panic ending the run with the tree as it was then; computed by `ApplyModsPr` |
| ApplyMods.DownloadZip | src/app/util.rs:128-135 | the download computes `Download`: the tree after File::create and io::copy and the panic, if any, of the request, the file creation or the copy |
| ApplyMods.DownloadEffect | src/app/util.rs:128-135 | a failed request or file creation leaves the tree unchanged; otherwise the archive holds the copied bytes, and the run goes on iff the copy completed |
| ApplyMods.CopyFailurePanics | src/app/util.rs:131-133 | a copy that fails part-way panics with the partial archive in the working directory, before any extraction |
| ApplyMods.ApplyModsPr | src/app/util.rs:137-181 | the step sequence computes `Apply`: the final tree and `true`, `false` or the panic with its cause |
| ApplyMods.WrongGamePath | src/app/util.rs:144-152 | it returns false iff `Titanfall2.exe` is missing from the game directory, and then changes nothing; any returned value is the marker check |
| ApplyMods.RemoveFailurePanics | src/app/util.rs:164-171 | when the managed folder is not a directory after extraction (on a first run it does not exist), the run panics before the rename, with the extracted files left in place |
| ApplyMods.InstallEffect | src/app/util.rs:164-180 | after a successful replace, the managed folder holds exactly what the extracted folder held, the extracted folder is gone, and nothing else changed |
| ApplyMods.InstalledTree | src/app/util.rs:154-180 | on `true`, the managed folder holds exactly what lay below the extracted folder after unzip: the archive's members plus whatever was below that folder in the working directory before |
| ApplyMods.InstalledFrom | src/app/util.rs:158-178 | on `true`, every entry below the managed folder was below the extracted folder before unzip, or is an archive member's path or one of its ancestors |
| ApplyMods.InstalledAt | src/app/util.rs:173-178 | after a successful replace, what lay at a relative path below the extracted folder lies at that path below the managed folder: a directory as a directory, a file as a file with the same data |
| ApplyMods.MemberInstalled | src/app/util.rs:160-180 | on a successful install, every archive member below the root folder ends up at its relative path below the managed folder, as a directory or a file, holding its data when no later member has the same path |
| ApplyMods.DownloadValid | src/app/util.rs:128-135 | the download, however it ends, keeps the tree well formed and changes nothing outside the working directory |
| ApplyMods.OutsideCompose | src/app/util.rs:158-178 | steps confined to the working directory and the managed folder compose to a run confined to them |
| ApplyMods.InstallInside | src/app/util.rs:164-178 | the replace keeps the tree well formed and stays inside the working directory and the managed folder |
| ApplyMods.ExtractInstallInside | src/app/util.rs:158-178 | after a confined download, extraction and the replace keep the tree well formed and confined to the working directory and the managed folder |
| ApplyMods.ApplyInside | src/app/util.rs:137-181 | however a run ends, the tree stays well formed and nothing outside the working directory and the managed folder changed |
| Text.Lower | src/app.rs:229-231 | lower-casing keeps the length and maps each ASCII capital to its small letter |
| Text.LowerChar | src/app.rs:229-231 | one character lower-cased: an ASCII capital becomes its small letter, 32 code points on, any other character is kept, and no ASCII capital is left |
| Text.LowerIdempotent | src/app.rs:229-231 | lower-casing twice is lower-casing once |
| Text.LowerAppend | src/app.rs:229-231 | lower-casing distributes over concatenation |
| Text.ContainsFrom | src/app.rs:231 | the search from position `i` succeeds iff the needle occurs at some position at or after `i` |
| Text.Contains | src/app.rs:231 | `contains` holds iff the needle occurs at some position |
| Text.ContainsEmpty | src/app.rs:231 | the empty string occurs in every string |
| Text.ContainsEnds | src/app.rs:231 | a string contains each of its two halves |
| Text.ContainsLowerParts | src/app.rs:229-231 | the lower-cased concatenation contains each lower-cased part |
| Text.ContainsTrans | src/app.rs:231 | a substring of a substring is a substring |
| Text.Digits | src/app.rs:229 | the decimal digits are non-empty, all digits, without a leading zero |
| Text.DecimalString | src/app.rs:229 | `Display` of an integer: digits with a leading `-` exactly for negative numbers |
| Text.DigitsRoundTrip | src/app.rs:229 | reading the rendered digits back gives the number |
| Text.LowerDecimal | src/app.rs:229-231 | lower-casing leaves a rendered number unchanged |
| App.RowText | src/app.rs:229 | the text `format!("{}: {}", pr_number, pr_title)`: the decimal number, `": "`, the title |
| App.Shown | src/app.rs:228-234 | the filter: shown iff the lower-cased `"<number>: <title>"` contains the lower-cased filter text; its properties are the four lemmas below |
| App.EmptyFilterShowsAll | src/app.rs:228-234 | the empty filter shows every pull request |
| App.FilterIgnoresCase | src/app.rs:228-234 | the filter's case and the title's case do not matter |
| App.NumberShows | src/app.rs:228-234 | typing a pull request's number shows it |
| App.TitleShows | src/app.rs:228-234 | typing a pull request's title shows it |
| App.Dispatch | src/app.rs:239-243 | "Apply PR" calls the launcher applier iff the URL contains `NorthstarLauncher`, the mods applier otherwise |
| App.NumberOf | src/app.rs:223-224 | `get("number").and_then(as_i64)`: the member's i64, None when absent or not an i64 |
| App.StrMember | src/app.rs:225-226 | `get(key).and_then(as_str)`: the member's string, None when absent or not a string |
| App.LabelName | src/app.rs:269-270 | a label's `name` as a string, None when it cannot be read |
| App.LabelFlag | src/app.rs:263-275 | the row's flag over all its labels: a fault when some label has no string name, else whether some name is exactly `needs testing`; computed by `NeedsTesting` |
| App.NeedsTesting | src/app.rs:263-275 | the label loop panics iff some label has no string name; otherwise the flag, starting false and never reset, is true iff some label is named exactly `needs testing` |
| App.RowOf | src/app.rs:222-286 | one element: number, title and URL unwrapped, then the filter, then the labels of a shown row; characterised by `RowOfMeaning` |
| App.RowsFrom | src/app.rs:222-289 | the loop over the list from position `i` after the rows `acc`: the first fault stops it, a filtered element adds nothing, any other adds its row; computed by `Render` |
| App.RowOfMeaning | src/app.rs:222-286 | an element panics iff its number, title or URL cannot be read, or it passes the filter and its labels cannot be read; one that fails the filter gives no row; one that does not panic yields a row iff it passes the filter, and that row is the one drawn for it (number, title, URL, label flag) |
| App.DrawnIsRead | src/app.rs:222-286 | a row drawn for an element is the row it yields |
| App.RowsKeepAcc | src/app.rs:222-289 | rows already drawn are never changed by the rest of the loop |
| App.ListedRowsRead | src/app.rs:222-289 | every row the loop draws comes from one of the elements |
| App.ReadElementsListed | src/app.rs:222-289 | every element that yields a row has it in the list |
| App.AllReadListsAll | src/app.rs:222-289 | when nothing is filtered out, the list holds one row per element, in order |
| App.ViewOf | src/app.rs:217-220 | the list shows "No data" iff the stored response is not an array |
| App.Render | src/app.rs:217-289 | the drawing loop computes `ViewOf`: the rows, "No data", or the panic of an `unwrap` |
| App.Passing | src/app.rs:222-234 | the positions of the elements that give a row, strictly increasing, each in range and giving a row, and every such position included |
| App.RowsReadAll | src/app.rs:222-286 | the list is drawn without a panic iff every element is read without a fault |
| App.ViewListed | src/app.rs:217-289 | an array response is drawn as a list iff no element panics, and otherwise the frame panics |
| App.RowsOfPassing | src/app.rs:222-289 | after the rows already drawn come the rows of the passing elements, one each, in the order of the elements |
| App.PassingHead | src/app.rs:222-289 | an element that gives a row puts that row right after the rows already drawn, ahead of the rows of the later passing elements |
| App.PassingDrawn | src/app.rs:222-286 | rows given by the elements at given positions are the rows drawn for them |
| App.PassingComplete | src/app.rs:222-234 | when no element faults, every element that passes the filter is among the passing positions |
| App.ListedInOrder | src/app.rs:222-289 | rows drawn without a panic: one per passing element, each drawn for its element, every passing element present |
| App.ViewInOrder | src/app.rs:217-289 | for any filter, the drawn list is exactly one row per passing element, in list order: positions strictly increasing, each row drawn for its element, every passing element present |
| App.ViewSound | src/app.rs:222-286 | every drawn row belongs to an element that passes the filter, with its number, title, URL and label flag |
| App.ViewComplete | src/app.rs:222-286 | every element that passes the filter has its row drawn |
| App.EmptyFilterReadsAll | src/app.rs:228-234 | with the empty filter no element is filtered out |
| App.ReadRowsDrawn | src/app.rs:222-286 | rows read one for one from the elements are the rows drawn for them |
| App.EmptyFilterView | src/app.rs:217-289 | with the empty filter the list has one row per pull request, in order |
| App.TemplateApp.constructor | src/app.rs:30-40 | the default state: label `/path/to/titanfall2`, empty filter, indicator 0, response Null |
| App.TemplateApp.BeginUpdate | src/app.rs:76-81 | at the start of a frame a raised indicator is cleared and nothing else changes |
| App.TemplateApp.DetectInstallPath | src/app.rs:112-130 | a found path replaces the label; a failure raises the indicator to 1 and keeps the label |
| App.TemplateApp.RefreshPulls | src/app.rs:134-177 | a successful refresh replaces the stored response; a failed one keeps it and raises the indicator to 1 |
| App.TemplateApp.ApplyPr | src/app.rs:236-258 | the applier called is the dispatch's choice; an error from it raises the indicator to 1, and nothing else changes |
| App.TemplateApp.ShownRows | src/app.rs:217-291 | the list a frame draws is `ViewOf` of the stored response and filter |

## Left out

- HTTP: `check_github_api` and the GET in `download_zip` are not modelled as network calls. A fetched list arrives as a parameter of `RefreshPulls`. The response is the `fetch` parameter of `Download`: the bytes io::copy gets into the archive and whether the copy completes. The empty URL counts as a failed request.
- `check_github_api` is called with a URL argument in src/app.rs but defined without one in src/app/util.rs. The two are not reconciled; the call is an abstract success or failure.
- `apply_launcher_pr` and `find_game_install_path` are imported by src/app.rs, but their code is not part of this model. They appear only as abstract outcomes: `ApplyPr`'s `outcome` and `DetectInstallPath`'s `found`.
- App.TemplateApp.ApplyPr: the Rust code matches the applier's result as `Ok`/`Err`, while `apply_mods_pr` returns a bool. The outcome is therefore an abstract `Result` and is not tied to `ApplyMods.Apply`.
- Zip decoding and `set_permissions` (Unix mode bits) are library and OS calls. Decoding is the `decode` parameter: the members the reader opens and whether it fails on the next one. Permissions are not modelled.
- Unzip.WriteEntry: a member's bytes are written whole. An `io::copy` of a member that fails part-way, leaving a partial file before the panic, is not modelled, because reading a member's compressed data is part of the zip decoding left out above.
- The `println!` output, egui drawing, popups, the 3-second `sleep`, `scale_factor` (a float) and persistence are left out, as is src/main.rs. They are UI, timing or floating point.
- Text.Lower: `to_lowercase` is modelled over ASCII letters only. Unicode case mapping, which can change a string's length, is not modelled.
- FileSystem.AfterRename: fails whenever the destination exists. POSIX `rename` would replace an empty directory, but in `apply_mods_pr` the destination has just been removed. It never fails for moving across file systems or drives (EXDEV on Linux, ERROR_NOT_SAME_DEVICE on Windows). With the tool on a different drive from the game, the real rename fails and the run panics at src/app/util.rs:174-178, where the model succeeds.
- FileSystem: the std::fs calls fail only for reasons visible in the tree's shape. Permission errors, a full disk, open-file locks and other I/O errors are not modelled. Each of them is a panic at the call that meets it.
- Paths are sequences of components. `Path::display`, separators, `..` and absolute paths are not modelled; `enclosed_name` is given as an already-safe relative path or none.
- App.Render: in the frame where "Apply PR" is clicked, the Rust code does not read that row's labels. The list is modelled for frames without a click, and the click is `ApplyPr`.
- Text editing of the label and filter fields happens in the GUI. It is modelled only as the fields holding whatever text they hold.
- Concurrency: none; the program is single-threaded.
