/**
 * The window's state and the rules behind the pull-request list: which rows
 * the filter shows, which applier the "Apply PR" button calls, which rows
 * are drawn strong, and how the error indicator and the stored API response
 * change.
 *
 * Drawing is not modelled: a frame's list is the View it would draw.
 */
module App {
  import opened Wrappers
  import opened JsonValue
  import opened Text

  /** Rust's i32. */
  newtype i32 = x: int | -0x8000_0000 <= x < 0x8000_0000

  /** The install path shown before the user has entered or detected one. */
  const DefaultLabel := "/path/to/titanfall2"
  /** A pull request whose URL contains this is one of the launcher's. */
  const LauncherMarker := "NorthstarLauncher"
  /** The label that marks a pull request as waiting for testers. */
  const NeedsTestingLabel := "needs testing"
  const ModsPullsUrl := "https://api.github.com/repos/R2Northstar/NorthstarMods/pulls"
  const LauncherPullsUrl := "https://api.github.com/repos/R2Northstar/NorthstarLauncher/pulls"

  // ---------------------------------------------------------------------
  // The filter
  // ---------------------------------------------------------------------

  /** The text of a row: "<number>: <title>". */
  function RowText(number: i64, title: string): string
  {
    DecimalString(number as int) + ": " + title
  }

  /** A row is shown when its lower-cased text contains the lower-cased filter. */
  predicate Shown(number: i64, title: string, filter: string)
  {
    Contains(Lower(RowText(number, title)), Lower(filter))
  }

  /** An empty filter shows every pull request. */
  lemma EmptyFilterShowsAll(number: i64, title: string)
    ensures Shown(number, title, "")
  {
    ContainsEmpty(Lower(RowText(number, title)));
  }

  /** The filter ignores case, in the filter and in the title alike. */
  lemma FilterIgnoresCase(number: i64, title: string, filter: string)
    ensures Shown(number, title, filter) == Shown(number, title, Lower(filter))
    ensures Shown(number, title, filter) == Shown(number, Lower(title), filter)
  {
    LowerIdempotent(filter);
    var prefix := DecimalString(number as int) + ": ";
    LowerAppend(prefix, title);
    LowerAppend(prefix, Lower(title));
    LowerIdempotent(title);
  }

  /** Typing a pull request's number shows it. */
  lemma NumberShows(number: i64, title: string)
    ensures Shown(number, title, DecimalString(number as int))
  {
    var num := DecimalString(number as int);
    ContainsLowerParts(num + ": ", title);
    ContainsLowerParts(num, ": ");
    ContainsTrans(Lower(RowText(number, title)), Lower(num + ": "), Lower(num));
  }

  /** Typing a pull request's title shows it. */
  lemma TitleShows(number: i64, title: string)
    ensures Shown(number, title, title)
  {
    ContainsLowerParts(DecimalString(number as int) + ": ", title);
  }

  // ---------------------------------------------------------------------
  // Apply PR
  // ---------------------------------------------------------------------

  /** The two appliers. */
  datatype Target = Launcher | Mods

  /** The applier "Apply PR" calls for a pull request with URL `url`. */
  function Dispatch(url: string): (r: Target)
    ensures r == Launcher <==> exists k :: OccursAt(url, LauncherMarker, k)
  {
    if Contains(url, LauncherMarker) then Launcher else Mods
  }

  // ---------------------------------------------------------------------
  // The list
  // ---------------------------------------------------------------------

  /** Why drawing the list panics: a member that is read with unwrap is missing or of the wrong type. */
  datatype RowFault =
    | NumberMissing
    | TitleMissing
    | UrlMissing
    | LabelsMissing
    | LabelNameMissing

  /** A drawn row: its pull request, and whether it is drawn strong (else grey). */
  datatype Row = Row(number: i64, title: string, url: string, strong: bool)

  /** The list as a frame draws it. */
  datatype View = NoData | Listed(rows: seq<Row>) | Panicked(fault: RowFault)

  function NumberOf(v: Json): Option<i64>
  {
    match Get(v, "number")
    case None => None
    case Some(n) => AsI64(n)
  }

  function StrMember(v: Json, key: string): Option<string>
  {
    match Get(v, key)
    case None => None
    case Some(s) => AsStr(s)
  }

  function LabelName(tag: Json): Option<string>
  {
    StrMember(tag, "name")
  }

  /**
   * The strong flag of a row, stated over all its labels: drawing panics
   * when some label has no string name (every label is read); otherwise the
   * row is strong exactly when some label is named "needs testing".
   */
  function LabelFlag(labels: seq<Json>): Result<bool, RowFault>
  {
    if exists j :: 0 <= j < |labels| && LabelName(labels[j]).None? then Err(LabelNameMissing)
    else Ok(exists j :: 0 <= j < |labels| && LabelName(labels[j]) == Some(NeedsTestingLabel))
  }

  /** The loop over a row's labels that sets the strong flag. */
  method NeedsTesting(labels: seq<Json>) returns (r: Result<bool, RowFault>)
    ensures r == LabelFlag(labels)
  {
    var tempBool := false;
    for i := 0 to |labels|
      invariant forall j :: 0 <= j < i ==> LabelName(labels[j]).Some?
      invariant tempBool <==> exists j :: 0 <= j < i && LabelName(labels[j]) == Some(NeedsTestingLabel)
    {
      var name := LabelName(labels[i]);
      if name.None? {
        return Err(LabelNameMissing);
      }
      if name.value == NeedsTestingLabel {
        tempBool := true;
      }
    }
    return Ok(tempBool);
  }

  /** The filter test for the filter text `filter`. */
  function FilterTest(filter: string): (i64, string) -> bool
  {
    (number: i64, title: string) => Shown(number, title, filter)
  }

  /**
   * What one element of the list gives, `shown` being the filter test: a
   * fault, no row (filtered out), or its row. Number, title and URL are
   * read before the filter is applied; the labels only for a row that is
   * shown.
   */
  function RowOf(e: Json, shown: (i64, string) -> bool): Result<Option<Row>, RowFault>
  {
    if NumberOf(e).None? then Err(NumberMissing)
    else if StrMember(e, "title").None? then Err(TitleMissing)
    else if StrMember(e, "url").None? then Err(UrlMissing)
    else
      var number, title, url := NumberOf(e).value, StrMember(e, "title").value, StrMember(e, "url").value;
      if !shown(number, title) then Ok(None)
      else
        match Get(e, "labels")
        case None => Err(LabelsMissing)
        case Some(ls) =>
          if !ls.Arr? then Err(LabelsMissing)
          else
            match LabelFlag(ls.items)
            case Err(f) => Err(f)
            case Ok(strong) => Ok(Some(Row(number, title, url, strong)))
  }

  /** How a frame with filter text `filter` reads one element. */
  function Reader(filter: string): Json -> Result<Option<Row>, RowFault>
  {
    (e: Json) => RowOf(e, FilterTest(filter))
  }

  /**
   * The rows of `elems` from position `i` on, after the rows `acc` already
   * drawn, `read` saying what each element gives; the first fault stops
   * the drawing.
   */
  function RowsFrom(elems: seq<Json>, i: nat, read: Json -> Result<Option<Row>, RowFault>, acc: seq<Row>): Result<seq<Row>, RowFault>
    requires i <= |elems|
    decreases |elems| - i
  {
    if i == |elems| then Ok(acc)
    else
      match read(elems[i])
      case Err(f) => Err(f)
      case Ok(None) => RowsFrom(elems, i + 1, read, acc)
      case Ok(Some(r)) => RowsFrom(elems, i + 1, read, acc + [r])
  }

  /** The list a frame draws from the stored response and the filter; "No data" when the response is not an array. */
  function ViewOf(response: Json, filter: string): (v: View)
    ensures v == NoData <==> !response.Arr?
  {
    if !response.Arr? then NoData
    else
      match RowsFrom(response.items, 0, Reader(filter), [])
      case Err(f) => Panicked(f)
      case Ok(rows) => Listed(rows)
  }

  /** The loop that draws the list. */
  method Render(response: Json, filter: string) returns (v: View)
    ensures v == ViewOf(response, filter)
  {
    if !response.Arr? {
      return NoData;
    }
    var elems := response.items;
    var rows: seq<Row> := [];
    for i := 0 to |elems|
      invariant RowsFrom(elems, 0, Reader(filter), []) == RowsFrom(elems, i, Reader(filter), rows)
    {
      var e := elems[i];
      var number := NumberOf(e);
      if number.None? {
        return Panicked(NumberMissing);
      }
      var title := StrMember(e, "title");
      if title.None? {
        return Panicked(TitleMissing);
      }
      var url := StrMember(e, "url");
      if url.None? {
        return Panicked(UrlMissing);
      }
      if !Shown(number.value, title.value, filter) {
        continue;
      }
      var labels := Get(e, "labels");
      if labels.None? || !labels.value.Arr? {
        return Panicked(LabelsMissing);
      }
      var strong := NeedsTesting(labels.value.items);
      if strong.Err? {
        return Panicked(strong.error);
      }
      rows := rows + [Row(number.value, title.value, url.value, strong.value)];
    }
    return Listed(rows);
  }

  // ---------------------------------------------------------------------
  // What the list shows
  // ---------------------------------------------------------------------

  /** `r` is the row drawn for element `e`: its number, title and URL, passing the filter test, with the flag its labels give. */
  predicate DrawnFor(e: Json, shown: (i64, string) -> bool, r: Row)
  {
    && NumberOf(e) == Some(r.number)
    && StrMember(e, "title") == Some(r.title)
    && StrMember(e, "url") == Some(r.url)
    && shown(r.number, r.title)
    && Get(e, "labels").Some? && Get(e, "labels").value.Arr?
    && LabelFlag(Get(e, "labels").value.items) == Ok(r.strong)
  }

  /** Element `e` has a readable number and title, and they pass the filter test. */
  predicate PassesFilter(e: Json, shown: (i64, string) -> bool)
  {
    NumberOf(e).Some? && StrMember(e, "title").Some? && shown(NumberOf(e).value, StrMember(e, "title").value)
  }

  /**
   * An element gives a row exactly when its number and title pass the
   * filter test and its labels can be read, and that row is the one drawn
   * for it. It panics exactly when its number, title or URL cannot be read,
   * or it passes the filter and its labels cannot be read; an element that
   * fails the filter gives no row without its labels being looked at.
   */
  lemma RowOfMeaning(e: Json, shown: (i64, string) -> bool)
    ensures RowOf(e, shown).Err? <==>
      || NumberOf(e).None? || StrMember(e, "title").None? || StrMember(e, "url").None?
      || (&& shown(NumberOf(e).value, StrMember(e, "title").value)
          && (|| Get(e, "labels").None? || !Get(e, "labels").value.Arr?
              || LabelFlag(Get(e, "labels").value.items).Err?))
    ensures NumberOf(e).Some? && StrMember(e, "title").Some? && StrMember(e, "url").Some? && !PassesFilter(e, shown) ==>
      RowOf(e, shown) == Ok(None)
    ensures RowOf(e, shown).Ok? ==> NumberOf(e).Some? && StrMember(e, "title").Some?
    ensures RowOf(e, shown).Ok? ==> (RowOf(e, shown).value.Some? <==> PassesFilter(e, shown))
    ensures RowOf(e, shown).Ok? && RowOf(e, shown).value.Some? ==> DrawnFor(e, shown, RowOf(e, shown).value.value)
  {
  }

  /** The row drawn for an element is the row it gives. */
  lemma DrawnIsRead(e: Json, shown: (i64, string) -> bool, r: Row)
    requires DrawnFor(e, shown, r)
    ensures RowOf(e, shown) == Ok(Some(r))
  {
  }

  /** The rows already drawn stay at the head of the list. */
  lemma {:induction false} RowsKeepAcc(elems: seq<Json>, i: nat, read: Json -> Result<Option<Row>, RowFault>, acc: seq<Row>)
    requires i <= |elems|
    ensures RowsFrom(elems, i, read, acc).Ok? ==>
      var rows := RowsFrom(elems, i, read, acc).value;
      |acc| <= |rows| && forall n | 0 <= n < |acc| :: rows[n] == acc[n]
    decreases |elems| - i
  {
    if i < |elems| && RowsFrom(elems, i, read, acc).Ok? {
      match read(elems[i])
      case Ok(None) => RowsKeepAcc(elems, i + 1, read, acc);
      case Ok(Some(r)) => RowsKeepAcc(elems, i + 1, read, acc + [r]);
    }
  }

  /** Every row drawn after `acc` is the row of one of the elements from `i` on. */
  lemma {:induction false} ListedRowsRead(elems: seq<Json>, i: nat, read: Json -> Result<Option<Row>, RowFault>, acc: seq<Row>)
    requires i <= |elems|
    ensures RowsFrom(elems, i, read, acc).Ok? ==>
      var rows := RowsFrom(elems, i, read, acc).value;
      forall n | |acc| <= n < |rows| :: exists j | i <= j < |elems| :: read(elems[j]) == Ok(Some(rows[n]))
    decreases |elems| - i
  {
    if i < |elems| && RowsFrom(elems, i, read, acc).Ok? {
      match read(elems[i])
      case Ok(None) =>
        ListedRowsRead(elems, i + 1, read, acc);
        assert RowsFrom(elems, i, read, acc) == RowsFrom(elems, i + 1, read, acc);
        assert RowsFrom(elems, i + 1, read, acc).Ok?;
        var rows := RowsFrom(elems, i + 1, read, acc).value;
        assert forall n | |acc| <= n < |rows| :: exists j | i + 1 <= j < |elems| :: read(elems[j]) == Ok(Some(rows[n]));
        forall n | |acc| <= n < |rows| ensures exists j | i <= j < |elems| :: read(elems[j]) == Ok(Some(rows[n])) {
          var j :| i + 1 <= j < |elems| && read(elems[j]) == Ok(Some(rows[n]));
        }
      case Ok(Some(r)) =>
        ListedRowsRead(elems, i + 1, read, acc + [r]);
        RowsKeepAcc(elems, i + 1, read, acc + [r]);
        var rows := RowsFrom(elems, i + 1, read, acc + [r]).value;
        assert rows[|acc|] == (acc + [r])[|acc|];
    }
  }

  /** Every element from `i` on that gives a row has its row in the list. */
  lemma {:induction false} ReadElementsListed(elems: seq<Json>, i: nat, read: Json -> Result<Option<Row>, RowFault>, acc: seq<Row>, j: nat)
    requires i <= j < |elems|
    requires read(elems[j]) != Ok(None)
    ensures RowsFrom(elems, i, read, acc).Ok? ==>
      exists n | |acc| <= n < |RowsFrom(elems, i, read, acc).value| ::
        read(elems[j]) == Ok(Some(RowsFrom(elems, i, read, acc).value[n]))
    decreases |elems| - i
  {
    if RowsFrom(elems, i, read, acc).Ok? {
      var acc' := if read(elems[i]).value.Some? then acc + [read(elems[i]).value.value] else acc;
      assert RowsFrom(elems, i, read, acc) == RowsFrom(elems, i + 1, read, acc');
      RowsKeepAcc(elems, i + 1, read, acc');
      if i == j {
        var rows := RowsFrom(elems, i + 1, read, acc').value;
        assert rows[|acc|] == acc'[|acc|];
      } else {
        ReadElementsListed(elems, i + 1, read, acc', j);
      }
    }
  }

  /** When no element is filtered out, every element from `i` on has its row, in order, after `acc`. */
  lemma {:induction false} AllReadListsAll(elems: seq<Json>, i: nat, read: Json -> Result<Option<Row>, RowFault>, acc: seq<Row>)
    requires i <= |elems|
    requires forall e :: read(e) != Ok(None)
    ensures RowsFrom(elems, i, read, acc).Ok? ==>
      var rows := RowsFrom(elems, i, read, acc).value;
      && |rows| == |acc| + |elems| - i
      && forall n | |acc| <= n < |rows| :: read(elems[i + n - |acc|]) == Ok(Some(rows[n]))
    decreases |elems| - i
  {
    if i < |elems| && RowsFrom(elems, i, read, acc).Ok? {
      var r := read(elems[i]).value.value;
      var acc' := acc + [r];
      AllReadListsAll(elems, i + 1, read, acc');
      RowsKeepAcc(elems, i + 1, read, acc');
      var rows := RowsFrom(elems, i + 1, read, acc').value;
      assert rows[|acc|] == acc'[|acc|];
      forall n | |acc| <= n < |rows| ensures read(elems[i + n - |acc|]) == Ok(Some(rows[n])) {
        if n > |acc| {
          assert i + n - |acc| == (i + 1) + n - |acc'|;
        }
      }
    }
  }

  /**
   * The positions, from `i` on and in increasing order, of the elements
   * that give a row.
   */
  function Passing(elems: seq<Json>, i: nat, read: Json -> Result<Option<Row>, RowFault>): (idx: seq<nat>)
    requires i <= |elems|
    decreases |elems| - i
    ensures forall n | 0 <= n < |idx| :: i <= idx[n] < |elems| && read(elems[idx[n]]).Ok? && read(elems[idx[n]]).value.Some?
    ensures forall n, m | 0 <= n < m < |idx| :: idx[n] < idx[m]
    ensures forall j | i <= j < |elems| && read(elems[j]).Ok? && read(elems[j]).value.Some? :: j in idx
  {
    if i == |elems| then []
    else if read(elems[i]).Ok? && read(elems[i]).value.Some? then [i] + Passing(elems, i + 1, read)
    else Passing(elems, i + 1, read)
  }

  /** The list is drawn without a fault exactly when every element from `i` on is read without one. */
  lemma {:induction false} RowsReadAll(elems: seq<Json>, i: nat, read: Json -> Result<Option<Row>, RowFault>, acc: seq<Row>)
    requires i <= |elems|
    ensures RowsFrom(elems, i, read, acc).Ok? <==> forall j | i <= j < |elems| :: read(elems[j]).Ok?
    decreases |elems| - i
  {
    if i < |elems| && read(elems[i]).Ok? {
      RowsReadAll(elems, i + 1, read, if read(elems[i]).value.Some? then acc + [read(elems[i]).value.value] else acc);
    }
  }

  /**
   * After `acc` come the rows of the elements from `i` on that give one,
   * one row each, in the order of the elements.
   */
  lemma {:induction false} RowsOfPassing(elems: seq<Json>, i: nat, read: Json -> Result<Option<Row>, RowFault>, acc: seq<Row>)
    requires i <= |elems|
    ensures RowsFrom(elems, i, read, acc).Ok? ==>
      var rows, idx := RowsFrom(elems, i, read, acc).value, Passing(elems, i, read);
      && |rows| == |acc| + |idx|
      && forall n | 0 <= n < |idx| :: read(elems[idx[n]]) == Ok(Some(rows[|acc| + n]))
    decreases |elems| - i
  {
    if i < |elems| && RowsFrom(elems, i, read, acc).Ok? {
      var rows := RowsFrom(elems, i, read, acc).value;
      var tail := Passing(elems, i + 1, read);
      if read(elems[i]).value.Some? {
        var r := read(elems[i]).value.value;
        assert rows == RowsFrom(elems, i + 1, read, acc + [r]).value;
        RowsOfPassing(elems, i + 1, read, acc + [r]);
        RowsKeepAcc(elems, i + 1, read, acc + [r]);
        assert rows[|acc|] == (acc + [r])[|acc|];
        PassingHead(elems, i, read, acc, rows, tail);
      } else {
        RowsOfPassing(elems, i + 1, read, acc);
      }
    }
  }

  /** The step of `RowsOfPassing` for an element that gives a row. */
  lemma PassingHead(elems: seq<Json>, i: nat, read: Json -> Result<Option<Row>, RowFault>, acc: seq<Row>, rows: seq<Row>, tail: seq<nat>)
    requires i < |elems| && read(elems[i]).Ok? && read(elems[i]).value.Some?
    requires tail == Passing(elems, i + 1, read)
    requires |rows| == |acc| + 1 + |tail| && rows[|acc|] == read(elems[i]).value.value
    requires forall n | 0 <= n < |tail| :: tail[n] < |elems| && read(elems[tail[n]]) == Ok(Some(rows[|acc| + 1 + n]))
    ensures var idx := Passing(elems, i, read);
      && |rows| == |acc| + |idx|
      && forall n | 0 <= n < |idx| :: read(elems[idx[n]]) == Ok(Some(rows[|acc| + n]))
  {
    var idx := Passing(elems, i, read);
    assert idx == [i] + tail;
    forall n | 0 <= n < |idx| ensures read(elems[idx[n]]) == Ok(Some(rows[|acc| + n])) {
      if n > 0 {
        assert idx[n] == tail[n - 1];
      }
    }
  }

  /** Rows given by the elements at `idx` are the rows drawn for them. */
  lemma PassingDrawn(elems: seq<Json>, idx: seq<nat>, rows: seq<Row>, filter: string)
    requires |rows| == |idx|
    requires forall n | 0 <= n < |idx| :: idx[n] < |elems| && Reader(filter)(elems[idx[n]]) == Ok(Some(rows[n]))
    ensures forall n | 0 <= n < |idx| :: DrawnFor(elems[idx[n]], FilterTest(filter), rows[n])
  {
    forall n | 0 <= n < |idx| ensures DrawnFor(elems[idx[n]], FilterTest(filter), rows[n]) {
      RowOfMeaning(elems[idx[n]], FilterTest(filter));
    }
  }

  /** When no element faults, every element that passes the filter gives a row. */
  lemma PassingComplete(elems: seq<Json>, filter: string)
    requires forall j | 0 <= j < |elems| :: Reader(filter)(elems[j]).Ok?
    ensures forall j | 0 <= j < |elems| && PassesFilter(elems[j], FilterTest(filter)) :: j in Passing(elems, 0, Reader(filter))
  {
    forall j | 0 <= j < |elems| && PassesFilter(elems[j], FilterTest(filter)) ensures j in Passing(elems, 0, Reader(filter)) {
      RowOfMeaning(elems[j], FilterTest(filter));
    }
  }

  /** The rows the loop draws from `elems` without a fault, one per passing element, in order. */
  lemma ListedInOrder(elems: seq<Json>, rows: seq<Row>, filter: string)
    requires RowsFrom(elems, 0, Reader(filter), []) == Ok(rows)
    ensures var idx := Passing(elems, 0, Reader(filter));
      && |rows| == |idx|
      && (forall n | 0 <= n < |idx| :: idx[n] < |elems| && DrawnFor(elems[idx[n]], FilterTest(filter), rows[n]))
      && (forall j | 0 <= j < |elems| && PassesFilter(elems[j], FilterTest(filter)) :: j in idx)
  {
    var read := Reader(filter);
    RowsOfPassing(elems, 0, read, []);
    RowsReadAll(elems, 0, read, []);
    PassingDrawn(elems, Passing(elems, 0, read), rows, filter);
    PassingComplete(elems, filter);
  }

  /**
   * A pull-request list is drawn exactly when no element panics; otherwise
   * the frame panics.
   */
  lemma ViewListed(response: Json, filter: string)
    requires response.Arr?
    ensures ViewOf(response, filter).Listed? <==>
      forall k | 0 <= k < |response.items| :: RowOf(response.items[k], FilterTest(filter)).Ok?
    ensures !ViewOf(response, filter).Listed? ==> ViewOf(response, filter).Panicked?
  {
    var read := Reader(filter);
    RowsReadAll(response.items, 0, read, []);
    assert forall k | 0 <= k < |response.items| :: read(response.items[k]) == RowOf(response.items[k], FilterTest(filter));
  }

  /**
   * The drawn list is exactly the rows of the elements that pass the
   * filter, one row for each, in the order of the pull-request list.
   */
  lemma ViewInOrder(response: Json, filter: string)
    ensures ViewOf(response, filter).Listed? ==>
      var rows, elems := ViewOf(response, filter).rows, response.items;
      var idx := Passing(elems, 0, Reader(filter));
      && |rows| == |idx|
      && (forall n, m | 0 <= n < m < |idx| :: idx[n] < idx[m])
      && (forall n | 0 <= n < |idx| :: idx[n] < |elems| && DrawnFor(elems[idx[n]], FilterTest(filter), rows[n]))
      && (forall j | 0 <= j < |elems| && PassesFilter(elems[j], FilterTest(filter)) :: j in idx)
  {
    if ViewOf(response, filter).Listed? {
      ListedInOrder(response.items, ViewOf(response, filter).rows, filter);
    }
  }

  /** Every drawn row belongs to an element that passes the filter, with the flag its labels give. */
  lemma ViewSound(response: Json, filter: string)
    ensures ViewOf(response, filter).Listed? ==>
      var rows, elems := ViewOf(response, filter).rows, response.items;
      forall n | 0 <= n < |rows| :: exists j | 0 <= j < |elems| :: DrawnFor(elems[j], FilterTest(filter), rows[n])
  {
    if ViewOf(response, filter).Listed? {
      var rows, elems := ViewOf(response, filter).rows, response.items;
      assert rows == RowsFrom(elems, 0, Reader(filter), []).value;
      ListedRowsRead(elems, 0, Reader(filter), []);
      forall n | 0 <= n < |rows| ensures exists j | 0 <= j < |elems| :: DrawnFor(elems[j], FilterTest(filter), rows[n]) {
        var j :| 0 <= j < |elems| && Reader(filter)(elems[j]) == Ok(Some(rows[n]));
        RowOfMeaning(elems[j], FilterTest(filter));
      }
    }
  }

  /** Every element that passes the filter has its row. */
  lemma ViewComplete(response: Json, filter: string, j: nat)
    requires response.Arr? && j < |response.items| && PassesFilter(response.items[j], FilterTest(filter))
    ensures ViewOf(response, filter).Listed? ==>
      exists n | 0 <= n < |ViewOf(response, filter).rows| :: DrawnFor(response.items[j], FilterTest(filter), ViewOf(response, filter).rows[n])
  {
    if ViewOf(response, filter).Listed? {
      var elems := response.items;
      RowOfMeaning(elems[j], FilterTest(filter));
      ReadElementsListed(elems, 0, Reader(filter), [], j);
    }
  }

  /** The empty filter filters nothing out. */
  lemma EmptyFilterReadsAll(e: Json)
    ensures RowOf(e, FilterTest("")) != Ok(None)
  {
    RowOfMeaning(e, FilterTest(""));
    if NumberOf(e).Some? && StrMember(e, "title").Some? {
      EmptyFilterShowsAll(NumberOf(e).value, StrMember(e, "title").value);
    }
  }

  /** Rows given one for one by the elements are the rows drawn for them. */
  lemma ReadRowsDrawn(elems: seq<Json>, rows: seq<Row>, filter: string)
    requires |rows| == |elems|
    requires forall n | 0 <= n < |rows| :: Reader(filter)(elems[n]) == Ok(Some(rows[n]))
    ensures forall n | 0 <= n < |rows| :: DrawnFor(elems[n], FilterTest(filter), rows[n])
  {
    forall n | 0 <= n < |rows| ensures DrawnFor(elems[n], FilterTest(filter), rows[n]) {
      RowOfMeaning(elems[n], FilterTest(filter));
    }
  }

  /** With the empty filter every element has its row, in order. */
  lemma EmptyFilterView(response: Json)
    ensures ViewOf(response, "").Listed? ==>
      var rows, elems := ViewOf(response, "").rows, response.items;
      |rows| == |elems| && forall n | 0 <= n < |rows| :: DrawnFor(elems[n], FilterTest(""), rows[n])
  {
    if ViewOf(response, "").Listed? {
      var rows, elems := ViewOf(response, "").rows, response.items;
      assert rows == RowsFrom(elems, 0, Reader(""), []).value;
      forall e ensures Reader("")(e) != Ok(None) {
        EmptyFilterReadsAll(e);
      }
      AllReadListsAll(elems, 0, Reader(""), []);
      ReadRowsDrawn(elems, rows, "");
    }
  }

  // ---------------------------------------------------------------------
  // The window
  // ---------------------------------------------------------------------

  class TemplateApp {
    /** The game install path as typed, detected or defaulted (the `label` field). */
    var gameInstallPath: string
    var filterContent: string
    /** Non-zero while an error popup is up. */
    var errorIndicator: i32
    /** The last pull-request list fetched. */
    var jsonResponse: Json

    /** Default for TemplateApp. */
    constructor ()
      ensures gameInstallPath == DefaultLabel && filterContent == ""
      ensures errorIndicator == 0 && jsonResponse == Null
    {
      gameInstallPath := DefaultLabel;
      filterContent := "";
      errorIndicator := 0;
      jsonResponse := Null;
    }

    /** The start of every frame: a raised error indicator is cleared (after a pause). */
    method BeginUpdate()
      modifies this
      ensures errorIndicator == 0
      ensures gameInstallPath == old(gameInstallPath) && filterContent == old(filterContent) && jsonResponse == old(jsonResponse)
    {
      if errorIndicator != 0 {
        errorIndicator := 0;
      }
    }

    /** "Try detect install path": a found path replaces the label, a failure raises the indicator. */
    method DetectInstallPath(found: Result<string, string>)
      modifies this
      ensures found.Ok? ==> gameInstallPath == found.value && errorIndicator == old(errorIndicator)
      ensures found.Err? ==> gameInstallPath == old(gameInstallPath) && errorIndicator == 1
      ensures filterContent == old(filterContent) && jsonResponse == old(jsonResponse)
    {
      match found
      case Ok(p) =>
        gameInstallPath := p;
      case Err(_) =>
        errorIndicator := 1;
    }

    /**
     * Either "Refresh ... PRs" button: a fetched list replaces the stored
     * one, a failed fetch keeps it and raises the indicator.
     */
    method RefreshPulls(fetched: Result<Json, string>)
      modifies this
      ensures fetched.Ok? ==> jsonResponse == fetched.value && errorIndicator == old(errorIndicator)
      ensures fetched.Err? ==> jsonResponse == old(jsonResponse) && errorIndicator == 1
      ensures gameInstallPath == old(gameInstallPath) && filterContent == old(filterContent)
    {
      match fetched
      case Ok(v) =>
        jsonResponse := v;
      case Err(_) =>
        errorIndicator := 1;
    }

    /**
     * "Apply PR" on the row of a pull request with URL `prUrl`: the applier
     * to call, and the indicator raised when the applier reports an error.
     */
    method ApplyPr(prUrl: string, outcome: Result<(), string>) returns (target: Target)
      modifies this
      ensures target == Dispatch(prUrl)
      ensures outcome.Err? ==> errorIndicator == 1
      ensures outcome.Ok? ==> errorIndicator == old(errorIndicator)
      ensures gameInstallPath == old(gameInstallPath) && filterContent == old(filterContent) && jsonResponse == old(jsonResponse)
    {
      target := if Contains(prUrl, LauncherMarker) then Launcher else Mods;
      if outcome.Err? {
        errorIndicator := 1;
      }
    }

    /** The list this frame draws. */
    method ShownRows() returns (v: View)
      ensures v == ViewOf(jsonResponse, filterContent)
    {
      v := Render(jsonResponse, filterContent);
    }
  }
}
