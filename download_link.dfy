/**
 * Resolving a mods pull request to the source archive of its head branch
 * (get_download_link in src/app/util.rs).
 *
 * The Rust function walks the pull-request list with nested loops and
 * `unwrap`s every type conversion. The recursive functions below follow
 * those loops one by one (each takes the loop index and the loop's mutable
 * variables), and `GetDownloadLink` is the loop program itself, proved equal
 * to them. The second half of the module reads the same list declaratively
 * (the first pull request whose number matches and that has a head) and
 * proves the two readings agree on well-formed input.
 */
module DownloadLink {
  import opened Wrappers
  import opened JsonValue

  const ArchivePrefix := "https://github.com/"
  const ArchiveMiddle := "/archive/refs/heads/"
  const ArchiveSuffix := ".zip"

  /** The `unwrap` that panics. */
  datatype Fault =
    | ResponseNotArray    // json_response.as_array().unwrap()
    | ElementNotObject    // elem.as_object().unwrap()
    | NumberNotI64        // v.as_i64().unwrap() on the "number" member
    | HeadNotObject       // v.as_object().unwrap() on the "head" member
    | RefNotString        // v.as_str().unwrap() on "ref"
    | RepoNotObject       // v.as_object().unwrap() on "repo"
    | FullNameNotString   // v.as_str().unwrap() on "full_name"

  /** The download URL of a branch as a zip archive. */
  function ArchiveUrl(fullName: string, ref: string): (url: string)
    ensures |url| > |ArchivePrefix| && url[..|ArchivePrefix|] == ArchivePrefix
  {
    ArchivePrefix + fullName + ArchiveMiddle + ref + ArchiveSuffix
  }

  // ---------------------------------------------------------------------
  // The loops of get_download_link, one function per loop
  // ---------------------------------------------------------------------

  /** The loop over the members of `repo`: `name` is json_key_fullname. */
  function RepoScan(fields: seq<(string, Json)>, j: nat, name: string): (r: Result<string, Fault>)
    requires j <= |fields|
    decreases |fields| - j
    ensures r.Err? ==> r.error == FullNameNotString
  {
    if j == |fields| then Ok(name)
    else if fields[j].0 == "full_name" then
      match AsStr(fields[j].1)
      case None => Err(FullNameNotString)
      case Some(s) => RepoScan(fields, j + 1, s)
    else RepoScan(fields, j + 1, name)
  }

  /** The loop over the members of `head`: `ref` and `name` are json_key_ref and json_key_fullname. */
  function HeadScan(fields: seq<(string, Json)>, j: nat, ref: string, name: string): (r: Result<(string, string), Fault>)
    requires j <= |fields|
    decreases |fields| - j
    ensures r.Err? ==> r.error in {RefNotString, RepoNotObject, FullNameNotString}
  {
    if j == |fields| then Ok((ref, name))
    else
      var (key, v) := fields[j];
      if key == "ref" then
        match AsStr(v)
        case None => Err(RefNotString)
        case Some(s) => HeadScan(fields, j + 1, s, name)
      else if key == "repo" then
        if !v.Obj? then Err(RepoNotObject)
        else
          match RepoScan(v.fields, 0, name)
          case Err(f) => Err(f)
          case Ok(n) => HeadScan(fields, j + 1, ref, n)
      else HeadScan(fields, j + 1, ref, name)
  }

  /** What the function returns once it has found the `head` member. */
  function HeadUrl(head: Json): (r: Result<string, Fault>)
    ensures r.Ok? ==> r.value != ""
    ensures r.Err? ==> r.error in {HeadNotObject, RefNotString, RepoNotObject, FullNameNotString}
  {
    if !head.Obj? then Err(HeadNotObject)
    else
      match HeadScan(head.fields, 0, "", "")
      case Err(f) => Err(f)
      case Ok((ref, name)) => Ok(ArchiveUrl(name, ref))
  }

  /** The second loop over an element's members, looking for `head`; Some(url) is the early return. */
  function HeadSearch(fields: seq<(string, Json)>, j: nat): (r: Result<Option<string>, Fault>)
    requires j <= |fields|
    decreases |fields| - j
    ensures r.Ok? && r.value.Some? ==> r.value.value != ""
  {
    if j == |fields| then Ok(None)
    else if fields[j].0 == "head" then
      match HeadUrl(fields[j].1)
      case Err(f) => Err(f)
      case Ok(u) => Ok(Some(u))
    else HeadSearch(fields, j + 1)
  }

  /** The first loop over an element's members, looking for a `number` equal to `pr`. */
  function MemberScan(fields: seq<(string, Json)>, j: nat, pr: i64): (r: Result<Option<string>, Fault>)
    requires j <= |fields|
    decreases |fields| - j
    ensures r.Ok? && r.value.Some? ==> r.value.value != ""
  {
    if j == |fields| then Ok(None)
    else if fields[j].0 == "number" then
      match AsI64(fields[j].1)
      case None => Err(NumberNotI64)
      case Some(n) =>
        if n != pr then MemberScan(fields, j + 1, pr)
        else
          match HeadSearch(fields, 0)
          case Err(f) => Err(f)
          case Ok(Some(u)) => Ok(Some(u))
          case Ok(None) => MemberScan(fields, j + 1, pr)
    else MemberScan(fields, j + 1, pr)
  }

  /** The outer loop over the array elements; "" when it runs to the end. */
  function ElementScan(elems: seq<Json>, i: nat, pr: i64): (r: Result<string, Fault>)
    requires i <= |elems|
    decreases |elems| - i
  {
    if i == |elems| then Ok("")
    else if !elems[i].Obj? then Err(ElementNotObject)
    else
      match MemberScan(elems[i].fields, 0, pr)
      case Err(f) => Err(f)
      case Ok(Some(u)) => Ok(u)
      case Ok(None) => ElementScan(elems, i + 1, pr)
  }

  /** get_download_link(pr_number, json_response): the URL, "" when nothing matched, or the panic. */
  function DownloadLink(pr: i64, response: Json): Result<string, Fault>
  {
    if !response.Arr? then Err(ResponseNotArray) else ElementScan(response.items, 0, pr)
  }

  // ---------------------------------------------------------------------
  // The loop program
  // ---------------------------------------------------------------------

  /** The loop over the members of `repo`, starting from the current json_key_fullname. */
  method ReadFullName(fields: seq<(string, Json)>, name0: string) returns (r: Result<string, Fault>)
    ensures r == RepoScan(fields, 0, name0)
  {
    var name := name0;
    var j := 0;
    while j < |fields|
      invariant j <= |fields|
      invariant RepoScan(fields, 0, name0) == RepoScan(fields, j, name)
    {
      var (key, v) := fields[j];
      if key == "full_name" {
        if !v.Str? {
          return Err(FullNameNotString);
        }
        name := v.s;
      }
      j := j + 1;
    }
    return Ok(name);
  }

  /** The body that runs once `head` is found: read `ref` and `repo.full_name`, format the URL. */
  method ReadHead(head: Json) returns (r: Result<string, Fault>)
    ensures r == HeadUrl(head)
  {
    if !head.Obj? {
      return Err(HeadNotObject);
    }
    var fields := head.fields;
    var ref, name := "", "";
    var j := 0;
    while j < |fields|
      invariant j <= |fields|
      invariant HeadScan(fields, 0, "", "") == HeadScan(fields, j, ref, name)
    {
      var (key, v) := fields[j];
      if key == "ref" {
        if !v.Str? {
          return Err(RefNotString);
        }
        ref := v.s;
      }
      if key == "repo" {
        if !v.Obj? {
          return Err(RepoNotObject);
        }
        var n := ReadFullName(v.fields, name);
        if n.Err? {
          return Err(n.error);
        }
        name := n.value;
      }
      j := j + 1;
    }
    return Ok(ArchiveUrl(name, ref));
  }

  /** get_download_link as a loop program: it computes `DownloadLink`. */
  method GetDownloadLink(pr: i64, response: Json) returns (r: Result<string, Fault>)
    ensures r == DownloadLink(pr, response)
  {
    if !response.Arr? {
      return Err(ResponseNotArray);
    }
    var elems := response.items;
    var i := 0;
    while i < |elems|
      invariant i <= |elems|
      invariant DownloadLink(pr, response) == ElementScan(elems, i, pr)
    {
      if !elems[i].Obj? {
        return Err(ElementNotObject);
      }
      var fields := elems[i].fields;
      var j := 0;
      while j < |fields|
        invariant j <= |fields|
        invariant MemberScan(fields, 0, pr) == MemberScan(fields, j, pr)
      {
        var (key, v) := fields[j];
        if key == "number" {
          var n := AsI64(v);
          if n.None? {
            return Err(NumberNotI64);
          }
          if n.value == pr {
            var k := 0;
            while k < |fields|
              invariant k <= |fields|
              invariant HeadSearch(fields, 0) == HeadSearch(fields, k)
            {
              if fields[k].0 == "head" {
                r := ReadHead(fields[k].1);
                return;
              }
              k := k + 1;
            }
          }
        }
        j := j + 1;
      }
      i := i + 1;
    }
    return Ok("");
  }

  // ---------------------------------------------------------------------
  // Once the scan stops, nothing after it is read
  // ---------------------------------------------------------------------

  /**
   * Elements are scanned in array order and the scan stops at the first
   * element that yields a URL (or panics): whatever follows is never read.
   */
  lemma {:induction false} ScanStopsAtFirstResult(pre: seq<Json>, post: seq<Json>, i: nat, pr: i64)
    requires i <= |pre|
    requires ElementScan(pre, i, pr) != Ok("")
    ensures ElementScan(pre + post, i, pr) == ElementScan(pre, i, pr)
    decreases |pre| - i
  {
    assert (pre + post)[i] == pre[i];
    if pre[i].Obj? && MemberScan(pre[i].fields, 0, pr) == Ok(None) {
      ScanStopsAtFirstResult(pre, post, i + 1, pr);
    }
  }

  /** When the list holds no match, a longer list is scanned as its tail alone. */
  lemma {:induction false} ScanSkipsUnmatchedPrefix(pre: seq<Json>, post: seq<Json>, i: nat, pr: i64)
    requires i <= |pre|
    requires ElementScan(pre, i, pr) == Ok("")
    ensures ElementScan(pre + post, i, pr) == ElementScan(post, 0, pr)
    decreases |pre| - i
  {
    if i == |pre| {
      ScanShift(pre, post, 0, pr);
    } else {
      assert (pre + post)[i] == pre[i];
      ScanSkipsUnmatchedPrefix(pre, post, i + 1, pr);
    }
  }

  lemma {:induction false} ScanShift(pre: seq<Json>, post: seq<Json>, i: nat, pr: i64)
    requires i <= |post|
    ensures ElementScan(pre + post, |pre| + i, pr) == ElementScan(post, i, pr)
    decreases |post| - i
  {
    if i < |post| {
      assert (pre + post)[|pre| + i] == post[i];
      ScanShift(pre, post, i + 1, pr);
    }
  }

  // ---------------------------------------------------------------------
  // The list as the API documents it: a reference reading
  // ---------------------------------------------------------------------

  /** The string stored in an optional member, "" when it is absent (the initial accumulator). */
  function StrOrEmpty(v: Option<Json>): string
  {
    if v.Some? && v.value.Str? then v.value.s else ""
  }

  /** `head.repo.full_name`, "" when `repo` or `full_name` is absent. */
  function HeadFullName(head: Json): string
  {
    var repo := Get(head, "repo");
    if repo.Some? then StrOrEmpty(Get(repo.value, "full_name")) else ""
  }

  /** The URL the API data asks for: the head's repository and branch. */
  function PullArchiveUrl(pull: Json): string
  {
    var head := Get(pull, "head");
    if head.Some? then ArchiveUrl(HeadFullName(head.value), StrOrEmpty(Get(head.value, "ref"))) else ""
  }

  /** `pull` carries the number `pr` and a head. */
  predicate Selects(pull: Json, pr: i64)
  {
    var number := Get(pull, "number");
    number.Some? && AsI64(number.value) == Some(pr) && Get(pull, "head").Some?
  }

  /** A string member, or absent. */
  predicate StrOrAbsent(v: Option<Json>)
  {
    v.None? || v.value.Str?
  }

  /** An object with distinct member names whose `full_name`, if any, is a string. */
  predicate ReadableRepo(repo: Json)
  {
    repo.Obj? && DistinctKeys(repo.fields) && StrOrAbsent(Get(repo, "full_name"))
  }

  /** An object with distinct member names whose `ref` is a string and `repo` readable, when present. */
  predicate ReadableHead(head: Json)
  {
    && head.Obj? && DistinctKeys(head.fields)
    && StrOrAbsent(Get(head, "ref"))
    && (Get(head, "repo").None? || ReadableRepo(Get(head, "repo").value))
  }

  /**
   * What the loops need of an element they pass through: an object with
   * distinct member names whose `number`, if any, is an i64, and whose head
   * is readable when it is the selected pull request. The head of any other
   * element is never read, so it may be anything (`repo: null` for a pull
   * request from a deleted fork, say).
   */
  predicate Passable(pull: Json, pr: i64)
  {
    && pull.Obj? && DistinctKeys(pull.fields)
    && (Get(pull, "number").None? || AsI64(Get(pull, "number").value).Some?)
    && (Selects(pull, pr) ==> ReadableHead(Get(pull, "head").value))
  }

  /** With distinct names the repo loop keeps the one `full_name`, or the name it started with. */
  lemma {:induction false} RepoScanReads(fields: seq<(string, Json)>, j: nat, name: string)
    requires DistinctKeys(fields) && j <= |fields|
    ensures var v := LookupFrom(fields, j, "full_name");
            RepoScan(fields, j, name) ==
              if v.None? then Ok(name) else if v.value.Str? then Ok(v.value.s) else Err(FullNameNotString)
    decreases |fields| - j
  {
    if j < |fields| {
      RepoScanReads(fields, j + 1, if fields[j].0 == "full_name" && fields[j].1.Str? then fields[j].1.s else name);
      if fields[j].0 == "full_name" {
        assert LookupFrom(fields, j + 1, "full_name").None? by {
          forall a | j + 1 <= a < |fields| ensures fields[a].0 != "full_name" {
            assert fields[j].0 != fields[a].0;
          }
        }
      }
    }
  }

  /** The head loop's `ref`: the one `ref` member, or the accumulator. */
  function RefFrom(fields: seq<(string, Json)>, j: nat, ref: string): Result<string, Fault>
    requires j <= |fields|
  {
    var v := LookupFrom(fields, j, "ref");
    if v.None? then Ok(ref) else if v.value.Str? then Ok(v.value.s) else Err(RefNotString)
  }

  /** The head loop's full name: read from the one `repo` member, or the accumulator. */
  function NameFrom(fields: seq<(string, Json)>, j: nat, name: string): Result<string, Fault>
    requires j <= |fields|
  {
    var v := LookupFrom(fields, j, "repo");
    if v.None? then Ok(name) else if v.value.Obj? then RepoScan(v.value.fields, 0, name) else Err(RepoNotObject)
  }

  /** With distinct names the head loop reads `ref` and `repo` independently of their order. */
  lemma {:induction false} HeadScanReads(fields: seq<(string, Json)>, j: nat, ref: string, name: string)
    requires DistinctKeys(fields) && j <= |fields|
    ensures HeadScan(fields, j, ref, name).Ok? <==> RefFrom(fields, j, ref).Ok? && NameFrom(fields, j, name).Ok?
    ensures HeadScan(fields, j, ref, name).Ok? ==>
              HeadScan(fields, j, ref, name).value == (RefFrom(fields, j, ref).value, NameFrom(fields, j, name).value)
    decreases |fields| - j
  {
    if j < |fields| {
      var (key, v) := fields[j];
      if key == "ref" || key == "repo" {
        assert LookupFrom(fields, j + 1, key).None? by {
          forall a | j + 1 <= a < |fields| ensures fields[a].0 != key {
            assert fields[j].0 != fields[a].0;
          }
        }
      }
      if key == "ref" {
        if v.Str? {
          HeadScanReads(fields, j + 1, v.s, name);
        }
      } else if key == "repo" {
        if v.Obj? && RepoScan(v.fields, 0, name).Ok? {
          HeadScanReads(fields, j + 1, ref, RepoScan(v.fields, 0, name).value);
        }
      } else {
        HeadScanReads(fields, j + 1, ref, name);
      }
    }
  }

  /**
   * The head read succeeds exactly when `ref` and `repo.full_name` are
   * strings where present and `repo` is an object where present; a missing
   * `ref` or `full_name` leaves its part of the URL empty.
   */
  lemma HeadUrlReads(head: Json)
    requires head.Obj? && DistinctKeys(head.fields)
    requires Get(head, "repo").Some? && Get(head, "repo").value.Obj? ==> DistinctKeys(Get(head, "repo").value.fields)
    ensures HeadUrl(head).Ok? <==>
              StrOrAbsent(Get(head, "ref")) &&
              (Get(head, "repo").None? || (Get(head, "repo").value.Obj? && StrOrAbsent(Get(Get(head, "repo").value, "full_name"))))
    ensures HeadUrl(head).Ok? ==> HeadUrl(head).value == ArchiveUrl(HeadFullName(head), StrOrEmpty(Get(head, "ref")))
  {
    HeadScanReads(head.fields, 0, "", "");
    var repo := Get(head, "repo");
    if repo.Some? && repo.value.Obj? {
      RepoScanReads(repo.value.fields, 0, "");
    }
  }

  /** With distinct names the search for `head` finds the one `head` member. */
  lemma {:induction false} HeadSearchReads(fields: seq<(string, Json)>, j: nat)
    requires DistinctKeys(fields) && j <= |fields|
    ensures var h := LookupFrom(fields, j, "head");
            HeadSearch(fields, j) ==
              if h.None? then Ok(None)
              else if HeadUrl(h.value).Ok? then Ok(Some(HeadUrl(h.value).value))
              else Err(HeadUrl(h.value).error)
    decreases |fields| - j
  {
    if j < |fields| && fields[j].0 != "head" {
      HeadSearchReads(fields, j + 1);
    }
  }

  /** A readable pull request has a readable head: the head read cannot panic. */
  lemma ReadableHeadReads(head: Json)
    requires ReadableHead(head)
    ensures HeadUrl(head) == Ok(ArchiveUrl(HeadFullName(head), StrOrEmpty(Get(head, "ref"))))
  {
    HeadUrlReads(head);
  }

  /** What the member loops give for one pull request they can pass through. */
  lemma {:induction false} MemberScanReads(fields: seq<(string, Json)>, j: nat, pr: i64)
    requires Passable(Obj(fields), pr) && j <= |fields|
    ensures var n := LookupFrom(fields, j, "number");
            MemberScan(fields, j, pr) ==
              if n.Some? && Selects(Obj(fields), pr) then Ok(Some(PullArchiveUrl(Obj(fields)))) else Ok(None)
    decreases |fields| - j
  {
    if j < |fields| {
      if fields[j].0 == "number" {
        assert LookupFrom(fields, j + 1, "number").None? by {
          forall a | j + 1 <= a < |fields| ensures fields[a].0 != "number" {
            assert fields[j].0 != fields[a].0;
          }
        }
        LookupUnique(fields, 0, j, "number");
        HeadSearchReads(fields, 0);
        if Selects(Obj(fields), pr) {
          ReadableHeadReads(Get(Obj(fields), "head").value);
        }
      }
      MemberScanReads(fields, j + 1, pr);
    }
  }

  /** What the outer loop does with one element it can pass through. */
  lemma ElementReads(elems: seq<Json>, i: nat, pr: i64)
    requires i < |elems| && Passable(elems[i], pr)
    ensures Selects(elems[i], pr) ==> ElementScan(elems, i, pr) == Ok(PullArchiveUrl(elems[i]))
    ensures !Selects(elems[i], pr) ==> ElementScan(elems, i, pr) == ElementScan(elems, i + 1, pr)
  {
    MemberScanReads(elems[i].fields, 0, pr);
  }

  /**
   * The resolved URL is built from `head.repo.full_name` and `head.ref` of the
   * FIRST element that carries the number and a head; elements after it are
   * never looked at, so they need not even be well-formed.
   */
  lemma FirstSelectedPull(pr: i64, elems: seq<Json>, k: nat)
    requires k < |elems| && Selects(elems[k], pr)
    requires forall a :: 0 <= a <= k ==> Passable(elems[a], pr)
    requires forall a :: 0 <= a < k ==> !Selects(elems[a], pr)
    ensures DownloadLink(pr, Arr(elems)) == Ok(PullArchiveUrl(elems[k]))
  {
    var i := k;
    ElementReads(elems, k, pr);
    while i > 0
      invariant 0 <= i <= k
      invariant ElementScan(elems, i, pr) == Ok(PullArchiveUrl(elems[k]))
    {
      i := i - 1;
      ElementReads(elems, i, pr);
    }
  }

  /** No element carries the number (with a head): the result is the empty string. */
  lemma {:induction false} NoSelectedPull(pr: i64, elems: seq<Json>, i: nat)
    requires i <= |elems|
    requires forall a :: i <= a < |elems| ==> Passable(elems[a], pr) && !Selects(elems[a], pr)
    ensures ElementScan(elems, i, pr) == Ok("")
    decreases |elems| - i
  {
    if i < |elems| {
      ElementReads(elems, i, pr);
      NoSelectedPull(pr, elems, i + 1);
    }
  }

  /** An element with the number but without a head is passed over. */
  lemma MatchWithoutHeadIsSkipped(pr: i64, elems: seq<Json>, i: nat)
    requires i < |elems| && Passable(elems[i], pr)
    requires Get(elems[i], "head").None?
    ensures ElementScan(elems, i, pr) == ElementScan(elems, i + 1, pr)
  {
    ElementReads(elems, i, pr);
  }

  /**
   * The panics: an element reached before any match that is not an object, or
   * whose `number` is not an i64, aborts the resolution.
   */
  lemma PanicsOnUnreadablePull(pr: i64, elems: seq<Json>, k: nat)
    requires k < |elems|
    requires forall a :: 0 <= a < k ==> Passable(elems[a], pr) && !Selects(elems[a], pr)
    requires !elems[k].Obj? || (DistinctKeys(elems[k].fields) && Get(elems[k], "number").Some? && AsI64(Get(elems[k], "number").value).None?)
    ensures DownloadLink(pr, Arr(elems)) == Err(if elems[k].Obj? then NumberNotI64 else ElementNotObject)
  {
    var i := k;
    if elems[k].Obj? {
      NumberFaultPanics(elems[k].fields, 0, pr);
    }
    while i > 0
      invariant 0 <= i <= k
      invariant ElementScan(elems, i, pr) == Err(if elems[k].Obj? then NumberNotI64 else ElementNotObject)
    {
      i := i - 1;
      ElementReads(elems, i, pr);
    }
  }

  /**
   * The selected pull request's head is read, so a head that cannot be read
   * panics: it is not an object, or `ref` is not a string, or `repo` is not
   * an object, or `repo.full_name` is not a string.
   */
  lemma SelectedHeadPanics(pr: i64, elems: seq<Json>, k: nat)
    requires k < |elems| && elems[k].Obj? && DistinctKeys(elems[k].fields)
    requires Selects(elems[k], pr) && HeadUrl(Get(elems[k], "head").value).Err?
    requires forall a :: 0 <= a < k ==> Passable(elems[a], pr) && !Selects(elems[a], pr)
    ensures DownloadLink(pr, Arr(elems)) == Err(HeadUrl(Get(elems[k], "head").value).error)
    ensures DownloadLink(pr, Arr(elems)).error in {HeadNotObject, RefNotString, RepoNotObject, FullNameNotString}
  {
    var f := HeadUrl(Get(elems[k], "head").value).error;
    SelectedHeadScan(elems[k].fields, 0, pr);
    var i := k;
    while i > 0
      invariant 0 <= i <= k
      invariant ElementScan(elems, i, pr) == Err(f)
    {
      i := i - 1;
      ElementReads(elems, i, pr);
    }
  }

  /** The member loop of the selected pull request ends in its head's panic. */
  lemma {:induction false} SelectedHeadScan(fields: seq<(string, Json)>, j: nat, pr: i64)
    requires DistinctKeys(fields) && j <= |fields|
    requires Selects(Obj(fields), pr) && HeadUrl(Get(Obj(fields), "head").value).Err?
    requires LookupFrom(fields, j, "number").Some?
    ensures MemberScan(fields, j, pr) == Err(HeadUrl(Get(Obj(fields), "head").value).error)
    decreases |fields| - j
  {
    if fields[j].0 != "number" {
      SelectedHeadScan(fields, j + 1, pr);
    } else {
      LookupUnique(fields, 0, j, "number");
      HeadSearchReads(fields, 0);
    }
  }

  lemma {:induction false} NumberFaultPanics(fields: seq<(string, Json)>, j: nat, pr: i64)
    requires DistinctKeys(fields) && j <= |fields|
    requires LookupFrom(fields, j, "number").Some? && AsI64(LookupFrom(fields, j, "number").value).None?
    ensures MemberScan(fields, j, pr) == Err(NumberNotI64)
    decreases |fields| - j
  {
    if fields[j].0 != "number" {
      NumberFaultPanics(fields, j + 1, pr);
    }
  }

  /** The worked example: PR 42 on branch `fix` of `foo/bar`. */
  lemma ExampleResolution()
    ensures DownloadLink(42, Arr([Obj([("number", Int(42)),
                                       ("head", Obj([("ref", Str("fix")), ("repo", Obj([("full_name", Str("foo/bar"))]))]))])]))
            == Ok(ArchiveUrl("foo/bar", "fix"))
  {
    var repo := Obj([("full_name", Str("foo/bar"))]);
    var head := Obj([("ref", Str("fix")), ("repo", repo)]);
    var pull := Obj([("number", Int(42)), ("head", head)]);
    assert Get(pull, "number") == Some(Int(42));
    assert |"number"| != |"head"| && |"ref"| != |"repo"|;
    LookupUnique(pull.fields, 0, 1, "head");
    assert Get(head, "ref") == Some(Str("fix"));
    LookupUnique(head.fields, 0, 1, "repo");
    assert Get(repo, "full_name") == Some(Str("foo/bar"));
    assert Passable(pull, 42);
    assert Selects(pull, 42);
    FirstSelectedPull(42, [pull], 0);
  }

  /** Pull request 7, from a deleted fork: its head has `repo: null`. */
  function ForkedPull(): Json
  {
    Obj([("number", Int(7)), ("head", Obj([("ref", Str("x")), ("repo", Null)]))])
  }

  /** Pull request 42, on branch `fix` of `foo/bar`. */
  function FixPull(): Json
  {
    Obj([("number", Int(42)), ("head", Obj([("ref", Str("fix")), ("repo", Obj([("full_name", Str("foo/bar"))]))]))])
  }

  /** Reading the deleted fork's head would panic, but the loops pass it for any other number. */
  lemma ForkedPullPassed(pr: i64)
    requires pr != 7
    ensures HeadUrl(Get(ForkedPull(), "head").value) == Err(RepoNotObject)
    ensures Passable(ForkedPull(), pr) && !Selects(ForkedPull(), pr)
  {
    var head := Obj([("ref", Str("x")), ("repo", Null)]);
    assert |"number"| != |"head"| && |"ref"| != |"repo"|;
    assert Get(ForkedPull(), "number") == Some(Int(7));
    LookupUnique(ForkedPull().fields, 0, 1, "head");
    LookupUnique(head.fields, 0, 1, "repo");
    assert HeadScan(head.fields, 1, "x", "") == Err(RepoNotObject);
  }

  /** Pull request 42 is selected by its number only, and names the `foo/bar` branch `fix`. */
  lemma FixPullRead(pr: i64)
    ensures Passable(FixPull(), pr)
    ensures Selects(FixPull(), pr) <==> pr == 42
    ensures PullArchiveUrl(FixPull()) == ArchiveUrl("foo/bar", "fix")
  {
    var repo := Obj([("full_name", Str("foo/bar"))]);
    var head := Obj([("ref", Str("fix")), ("repo", repo)]);
    assert |"number"| != |"head"| && |"ref"| != |"repo"|;
    assert Get(FixPull(), "number") == Some(Int(42));
    LookupUnique(FixPull().fields, 0, 1, "head");
    assert Get(head, "ref") == Some(Str("fix"));
    LookupUnique(head.fields, 0, 1, "repo");
    assert Get(repo, "full_name") == Some(Str("foo/bar"));
  }

  /**
   * A pull request from a deleted fork earlier in the list does not disturb
   * the resolution: its head is never read, because its number is not the
   * one asked for.
   */
  lemma DeletedForkSkipped()
    ensures HeadUrl(Get(ForkedPull(), "head").value).Err?
    ensures DownloadLink(42, Arr([ForkedPull(), FixPull()])) == Ok(ArchiveUrl("foo/bar", "fix"))
    ensures DownloadLink(99, Arr([ForkedPull(), FixPull()])) == Ok("")
  {
    var elems := [ForkedPull(), FixPull()];
    ForkedPullPassed(42);
    FixPullRead(42);
    FirstSelectedPull(42, elems, 1);
    ForkedPullPassed(99);
    FixPullRead(99);
    NoSelectedPull(99, elems, 0);
  }
}
