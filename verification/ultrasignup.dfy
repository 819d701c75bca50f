/**
 * src/ultrasignup.rs: the results table of ultrasignup.com.  Each table row
 * arrives as the texts of its cells; a one-cell row is a status header
 * ("Finishers - 25"), a row of eleven or more cells with a numeric place
 * is a placement, anything else is skipped.  The rows are folded into
 * groups, one per status header, holding the placements that follow it.
 *
 * Durations are read by a parameter, and so is the `f32` rank.
 */
module Ultrasignup {
  import opened Wrappers
  import opened Text
  import Decimal
  import Cli

  // ---------------------------------------------------------------------
  // Status headers

  datatype Status = Finishers | DidNotFinish | DidNotStart | Disqualified | UnofficialFinish

  /** The label each status carries on the page. */
  function StatusLabel(st: Status): string {
    match st
    case Finishers => "Finishers"
    case DidNotFinish => "Did Not Finish"
    case DidNotStart => "Did Not Start"
    case Disqualified => "Disqualified"
    case UnofficialFinish => "Unofficial Finish"
  }

  /** `Status::from_str`; `None` is `UnknownStatus`. */
  function ParseStatus(s: string): Option<Status> {
    if s == "Finishers" then Some(Finishers)
    else if s == "Did Not Finish" then Some(DidNotFinish)
    else if s == "Did Not Start" then Some(DidNotStart)
    else if s == "Disqualified" then Some(Disqualified)
    else if s == "Unofficial Finish" then Some(UnofficialFinish)
    else None
  }

  lemma ParseStatusLabel(st: Status)
    ensures ParseStatus(StatusLabel(st)) == Some(st)
  {
    match st
    case Finishers =>
    case DidNotFinish =>
    case DidNotStart =>
    case Disqualified =>
    case UnofficialFinish =>
  }

  /**
   * `Status::from_str` accepts exactly the five labels, reads each as its
   * own status, and rejects every other text.
   */
  lemma ParseStatusExactly(s: string, st: Status)
    ensures ParseStatus(s) == Some(st) <==> s == StatusLabel(st)
    ensures ParseStatus(s).None? <==> forall st' :: s != StatusLabel(st')
  {
    forall st' ensures ParseStatus(StatusLabel(st')) == Some(st') {
      ParseStatusLabel(st');
    }
  }

  /** No label holds a dash, so none contains the separator of a header. */
  lemma LabelHasNoDash(st: Status)
    ensures '-' !in StatusLabel(st)
  {
    match st
    case Finishers =>
    case DidNotFinish =>
    case DidNotStart =>
    case Disqualified =>
    case UnofficialFinish =>
  }

  /** `struct StatusWithCount`: the count is a `u16`. */
  datatype StatusWithCount = StatusWithCount(status: Status, count: nat)

  /** `ParseStatusWithCountError`, without the payloads of the inner errors. */
  datatype HeaderError = WrongNumberOfPieces | NotStatus | BadCount

  const Dash := " - "

  /** `StatusWithCount::from_str`. */
  function ParseHeader(s: string): (r: Result<StatusWithCount, HeaderError>)
    ensures r.Ok? ==> r.value.count <= Decimal.U16_MAX
  {
    var pieces := Split(s, Dash);
    if |pieces| != 2 then Err(WrongNumberOfPieces)
    else match (ParseStatus(pieces[0]), Decimal.ParseU16(pieces[1]))
      case (None, _) => Err(NotStatus)
      case (_, None) => Err(BadCount)
      case (Some(st), Some(n)) => Ok(StatusWithCount(st, n))
  }

  /**
   * A header with exactly one separator: a bad label is reported before a
   * bad count, and the header parses exactly when both parts do.
   */
  lemma ParseHeaderOfPieces(head: string, count: string)
    requires FirstAt(head, Dash) && !Contains(count, Dash)
    ensures ParseHeader(head + (Dash + count)) ==
      (match (ParseStatus(head), Decimal.ParseU16(count))
       case (None, _) => Err(NotStatus)
       case (_, None) => Err(BadCount)
       case (Some(st), Some(n)) => Ok(StatusWithCount(st, n)))
  {
    SplitInTwo(head, Dash, count);
  }

  /**
   * A header is rejected as having the wrong number of pieces exactly when
   * it is not a head, one separator and a count with no further separator.
   */
  lemma WrongNumberOfPiecesIff(s: string)
    ensures ParseHeader(s) == Err(WrongNumberOfPieces) <==>
      !exists head, count :: s == head + (Dash + count) && FirstAt(head, Dash) && !Contains(count, Dash)
  {
    if |Split(s, Dash)| == 2 {
      SplitTwoPieces(s, Dash);
      var ps := Split(s, Dash);
      assert s == ps[0] + (Dash + ps[1]) && FirstAt(ps[0], Dash) && !Contains(ps[1], Dash);
    } else {
      forall head, count | s == head + (Dash + count) && FirstAt(head, Dash)
        ensures Contains(count, Dash)
      {
        if !Contains(count, Dash) {
          SplitInTwo(head, Dash, count);
        }
      }
    }
  }

  /** A parsed header is a head, the separator and the digits of its count. */
  lemma ParsedHeader(s: string)
    requires ParseHeader(s).Ok?
    ensures exists count ::
      && s == StatusLabel(ParseHeader(s).value.status) + (Dash + count)
      && Decimal.ParseU16(count) == Some(ParseHeader(s).value.count)
  {
    SplitTwoPieces(s, Dash);
    var ps := Split(s, Dash);
    ParseStatusExactly(ps[0], ParseHeader(s).value.status);
    assert s == StatusLabel(ParseHeader(s).value.status) + (Dash + ps[1]);
  }

  /** The header text of a status with its count. */
  function ShowHeader(h: StatusWithCount): string {
    StatusLabel(h.status) + (Dash + Decimal.Show(h.count))
  }

  /** Every header with a `u16` count reads back from its text. */
  lemma HeaderRoundTrip(h: StatusWithCount)
    requires h.count <= Decimal.U16_MAX
    ensures ParseHeader(ShowHeader(h)) == Ok(h)
  {
    LabelHasNoDash(h.status);
    assert Dash[1] == '-' && '-' !in Dash[..1];
    FirstAtByChar(StatusLabel(h.status), Dash, 1);
    Decimal.ShowHasNoMarkup(h.count);
    NotContainsByHead(Decimal.Show(h.count), Dash);
    ParseHeaderOfPieces(StatusLabel(h.status), Decimal.Show(h.count));
    ParseStatusLabel(h.status);
    Decimal.ParseShow(h.count, Decimal.U16_MAX);
  }

  // ---------------------------------------------------------------------
  // Cells

  /** `optional_string`: nothing for a blank cell, otherwise the cell untrimmed. */
  function OptionalString(s: string): (r: Option<string>)
    ensures r.None? <==> Blank(s)
    ensures r.Some? ==> r.value == s
  {
    TrimEmptyIffBlank(s);
    if Trim(s) == "" then None else Some(s)
  }

  /** How a duration, its zero and an `f32` are read. */
  datatype Readers<D, F> = Readers(dur: string -> Option<D>, zero: D, float: string -> Option<F>)

  /** The one time cell of the Moab 240 2019 results that needs a repair, and its repair. */
  const Glitch := "101:46:3"
  const GlitchFixed := "101:46:03"

  /** Why a placement row aborts the collection. */
  datatype RowError = NotAStatus(text: string) | BadTime(time: string) | BadAge(age: string) | ZeroAge | BadGp(gp: string) | BadRank(rank: string)

  /**
   * The time cell: zero when blank; otherwise the duration it reads as,
   * except that the known glitch is read in its repaired form.
   */
  function TimeCell<D, F>(rd: Readers<D, F>, s: string): (r: Result<D, RowError>)
    ensures Blank(s) ==> r == Ok(rd.zero)
    ensures !Blank(s) && rd.dur(s).Some? ==> r == Ok(rd.dur(s).value)
    ensures !Blank(s) && rd.dur(s).None? ==>
      (r.Ok? <==> s == Glitch && rd.dur(GlitchFixed).Some?) &&
      (r.Ok? ==> r.value == rd.dur(GlitchFixed).value)
    ensures r.Err? ==> r.error == BadTime(s)
  {
    TrimEmptyIffBlank(s);
    if Trim(s) == "" then Ok(rd.zero)
    else match rd.dur(s)
      case Some(d) => Ok(d)
      case None =>
        if s == Glitch then
          match rd.dur(GlitchFixed)
          case Some(d) => Ok(d)
          case None => Err(BadTime(s))
        else Err(BadTime(s))
  }

  /** `struct Placement`: the age is a `NonZeroU8`, place and gp are `u16`. */
  datatype Placement<D, F> = Placement(
    place: nat, first: string, last: string, city: Option<string>, state: Option<string>,
    age: nat, gender: string, gp: nat, time: D, rank: F)

  /** `PlacementOrStatus`. */
  datatype Row<D, F> = StatusRow(header: StatusWithCount) | PlacementRow(placement: Placement<D, F>)

  /** `v[6].parse::<u8>()?.try_into()?`: a `u8` that must not be zero. */
  function AgeCell(s: string): (r: Result<nat, RowError>)
    ensures r.Ok? <==> Decimal.ParseNonZeroU8(s).Some?
    ensures r.Ok? ==> r.value == Decimal.ParseNonZeroU8(s).value
    ensures r.Err? ==> (r.error == ZeroAge <==> Decimal.ParseU8(s) == Some(0))
  {
    match Decimal.ParseU8(s)
    case None => Err(BadAge(s))
    case Some(n) => if n == 0 then Err(ZeroAge) else Ok(n)
  }

  /** The placement of a row of eleven or more cells whose place is numeric. */
  function PlacementCells<D, F>(rd: Readers<D, F>, place: nat, v: seq<string>): (r: Result<Placement<D, F>, RowError>)
    requires |v| >= 11
    ensures r.Ok? ==>
      && r.value.place == place
      && r.value.first == v[2] && r.value.last == v[3] && r.value.gender == v[7]
      && r.value.city == OptionalString(v[4]) && r.value.state == OptionalString(v[5])
      && Decimal.ParseNonZeroU8(v[6]) == Some(r.value.age)
      && Decimal.ParseU16(v[8]) == Some(r.value.gp)
      && TimeCell(rd, v[9]) == Ok(r.value.time)
      && rd.float(v[10]) == Some(r.value.rank)
    ensures r.Err? <==>
      TimeCell(rd, v[9]).Err? || AgeCell(v[6]).Err? || Decimal.ParseU16(v[8]).None? || rd.float(v[10]).None?
  {
    var time :- TimeCell(rd, v[9]);
    var age :- AgeCell(v[6]);
    var gp :- match Decimal.ParseU16(v[8]) case Some(n) => Ok(n) case None => Err(BadGp(v[8]));
    var rank :- match rd.float(v[10]) case Some(x) => Ok(x) case None => Err(BadRank(v[10]));
    Ok(Placement(place, v[2], v[3], OptionalString(v[4]), OptionalString(v[5]), age, v[7], gp, time, rank))
  }

  /**
   * `PlacementOrStatus::from_element` on the texts of a row's cells:
   * `Ok(None)` skips the row, an error aborts the collection.  A row with
   * a numeric place is a placement, and a bad time, age, gp or rank on it
   * is such an error, while a non-numeric place only skips the row.
   */
  function FromCells<D, F>(rd: Readers<D, F>, v: seq<string>): (r: Result<Option<Row<D, F>>, RowError>)
    ensures |v| == 1 ==> (r.Ok? <==> ParseHeader(v[0]).Ok?)
    ensures |v| == 1 && r.Ok? ==> r.value == Some(StatusRow(ParseHeader(v[0]).value))
    ensures |v| == 1 && r.Err? ==> r.error == NotAStatus(v[0])
    ensures |v| != 1 && |v| < 11 ==> r == Ok(None)
    ensures |v| >= 11 && Decimal.ParseU16(v[1]).None? ==> r == Ok(None)
    ensures r.Ok? && r.value.Some? && r.value.value.StatusRow? ==> |v| == 1
    ensures r.Ok? && r.value.Some? && r.value.value.PlacementRow? ==>
      |v| >= 11 && Decimal.ParseU16(v[1]) == Some(r.value.value.placement.place)
    ensures |v| >= 11 && Decimal.ParseU16(v[1]).Some? ==>
      var cells := PlacementCells(rd, Decimal.ParseU16(v[1]).value, v);
      && (r.Err? <==> cells.Err?)
      && (r.Err? ==> r.error == cells.error)
      && (r.Ok? ==> r.value == Some(PlacementRow(cells.value)))
  {
    if |v| == 1 then
      match ParseHeader(v[0])
      case Ok(h) => Ok(Some(StatusRow(h)))
      case Err(_) => Err(NotAStatus(v[0]))
    else if |v| < 11 then Ok(None)
    else match Decimal.ParseU16(v[1])
      case None => Ok(None)
      case Some(place) =>
        var p :- PlacementCells(rd, place, v);
        Ok(Some(PlacementRow(p)))
  }

  /** The cell of an optional text: the text itself, or nothing. */
  function OptionalCell(s: Option<string>): string {
    match s
    case Some(t) => t
    case None => ""
  }

  /** A placement's row as the page shows it, with the texts of its time and rank. */
  function PlacementRowCells<D, F>(p: Placement<D, F>, lead: string, time: string, rank: string): seq<string> {
    [lead, Decimal.Show(p.place), p.first, p.last, OptionalCell(p.city), OptionalCell(p.state),
     Decimal.Show(p.age), p.gender, Decimal.Show(p.gp), time, rank]
  }

  /** A placement the page can show: fields in range, present places not blank. */
  ghost predicate Showable<D, F>(rd: Readers<D, F>, p: Placement<D, F>, time: string, rank: string) {
    && p.place <= Decimal.U16_MAX && 1 <= p.age <= Decimal.U8_MAX && p.gp <= Decimal.U16_MAX
    && (p.city.Some? ==> !Blank(p.city.value)) && (p.state.Some? ==> !Blank(p.state.value))
    && !Blank(time) && rd.dur(time) == Some(p.time) && rd.float(rank) == Some(p.rank)
  }

  /** Every showable placement reads back from its row. */
  lemma PlacementRoundTrip<D, F>(rd: Readers<D, F>, p: Placement<D, F>, lead: string, time: string, rank: string)
    requires Showable(rd, p, time, rank)
    ensures FromCells(rd, PlacementRowCells(p, lead, time, rank)) == Ok(Some(PlacementRow(p)))
  {
    var v := PlacementRowCells(p, lead, time, rank);
    Decimal.ParseShow(p.place, Decimal.U16_MAX);
    Decimal.ParseShow(p.age, Decimal.U8_MAX);
    Decimal.ParseShow(p.gp, Decimal.U16_MAX);
    assert Blank("");
    assert OptionalString(v[4]) == p.city;
    assert OptionalString(v[5]) == p.state;
  }

  // ---------------------------------------------------------------------
  // Grouping

  /** One element of `StatusesWithPlacements`: a header and the placements under it. */
  datatype Group<D, F> = Group(header: StatusWithCount, placements: seq<Placement<D, F>>)

  /**
   * `Extend for StatusesWithPlacements`: a header opens a new group, a
   * placement joins the last group.  `None` is the panic "no status".
   */
  function Extend<D, F>(groups: seq<Group<D, F>>, rows: seq<Row<D, F>>): Option<seq<Group<D, F>>>
    decreases |rows|
  {
    if |rows| == 0 then Some(groups)
    else match rows[0]
      case StatusRow(h) => Extend(groups + [Group(h, [])], rows[1..])
      case PlacementRow(p) =>
        if |groups| == 0 then None
        else
          var last := groups[|groups| - 1];
          Extend(groups[..|groups| - 1] + [Group(last.header, last.placements + [p])], rows[1..])
  }

  /** The headers of the rows, in order. */
  function HeadersOf<D, F>(rows: seq<Row<D, F>>): seq<StatusWithCount>
    decreases |rows|
  {
    if |rows| == 0 then []
    else (if rows[0].StatusRow? then [rows[0].header] else []) + HeadersOf(rows[1..])
  }

  /** The placements of the rows, in order. */
  function PlacementsOf<D, F>(rows: seq<Row<D, F>>): seq<Placement<D, F>>
    decreases |rows|
  {
    if |rows| == 0 then []
    else (if rows[0].PlacementRow? then [rows[0].placement] else []) + PlacementsOf(rows[1..])
  }

  /** The groups' headers, in order. */
  function Headers<D, F>(groups: seq<Group<D, F>>): seq<StatusWithCount>
    decreases |groups|
  {
    if |groups| == 0 then [] else Headers(groups[..|groups| - 1]) + [groups[|groups| - 1].header]
  }

  /** The groups' placement lists, concatenated. */
  function Flatten<D, F>(groups: seq<Group<D, F>>): seq<Placement<D, F>>
    decreases |groups|
  {
    if |groups| == 0 then [] else Flatten(groups[..|groups| - 1]) + groups[|groups| - 1].placements
  }

  lemma HeadersSnoc<D, F>(groups: seq<Group<D, F>>, g: Group<D, F>)
    ensures Headers(groups + [g]) == Headers(groups) + [g.header]
    ensures Flatten(groups + [g]) == Flatten(groups) + g.placements
  {
    assert (groups + [g])[..|groups|] == groups;
  }

  /** The grouping panics exactly when a placement comes before any group is open. */
  lemma {:induction false} ExtendPanics<D, F>(groups: seq<Group<D, F>>, rows: seq<Row<D, F>>)
    ensures Extend(groups, rows).None? <==> |groups| == 0 && |rows| > 0 && rows[0].PlacementRow?
    decreases |rows|
  {
    if |rows| > 0 {
      match rows[0]
      case StatusRow(h) => ExtendPanics(groups + [Group(h, [])], rows[1..]);
      case PlacementRow(p) =>
        if |groups| > 0 {
          var last := groups[|groups| - 1];
          ExtendPanics(groups[..|groups| - 1] + [Group(last.header, last.placements + [p])], rows[1..]);
        }
    }
  }

  /**
   * After grouping, there is one more group per header, and the groups'
   * placements are the earlier ones followed by the rows' placements, in order.
   */
  lemma {:induction false} ExtendKeepsOrder<D, F>(groups: seq<Group<D, F>>, rows: seq<Row<D, F>>)
    requires Extend(groups, rows).Some?
    ensures Headers(Extend(groups, rows).value) == Headers(groups) + HeadersOf(rows)
    ensures Flatten(Extend(groups, rows).value) == Flatten(groups) + PlacementsOf(rows)
    decreases |rows|
  {
    if |rows| > 0 {
      match rows[0]
      case StatusRow(h) =>
        OpenGroup(groups, h);
        ExtendKeepsOrder(groups + [Group(h, [])], rows[1..]);
      case PlacementRow(p) =>
        var last := groups[|groups| - 1];
        assert groups == groups[..|groups| - 1] + [last];
        JoinLastGroup(groups[..|groups| - 1], last, p);
        ExtendKeepsOrder(groups[..|groups| - 1] + [Group(last.header, last.placements + [p])], rows[1..]);
    }
  }

  /** Opening a group adds its header and no placement. */
  lemma OpenGroup<D, F>(groups: seq<Group<D, F>>, h: StatusWithCount)
    ensures Headers(groups + [Group(h, [])]) == Headers(groups) + [h]
    ensures Flatten(groups + [Group(h, [])]) == Flatten(groups)
  {
    HeadersSnoc(groups, Group(h, []));
  }

  /** Joining the last group keeps the headers and appends the placement. */
  lemma JoinLastGroup<D, F>(init: seq<Group<D, F>>, last: Group<D, F>, p: Placement<D, F>)
    ensures Headers(init + [Group(last.header, last.placements + [p])]) == Headers(init + [last])
    ensures Flatten(init + [Group(last.header, last.placements + [p])]) == Flatten(init + [last]) + [p]
  {
    HeadersSnoc(init, last);
    HeadersSnoc(init, Group(last.header, last.placements + [p]));
  }

  /** From an empty start: as many groups as headers, all placements in order. */
  lemma GroupsOfRows<D, F>(rows: seq<Row<D, F>>)
    requires Extend([], rows).Some?
    ensures |Extend([], rows).value| == |HeadersOf(rows)|
    ensures Flatten(Extend([], rows).value) == PlacementsOf(rows)
  {
    ExtendKeepsOrder([], rows);
    HeadersLength(Extend([], rows).value);
  }

  lemma {:induction false} HeadersLength<D, F>(groups: seq<Group<D, F>>)
    ensures |Headers(groups)| == |groups|
    decreases |groups|
  {
    if |groups| > 0 {
      HeadersLength(groups[..|groups| - 1]);
    }
  }

  // ---------------------------------------------------------------------
  // Collecting the rows

  /** What collecting the rows ends in: the groups, the first row error, or the panic. */
  datatype Outcome<D, F> = Collected(groups: seq<Group<D, F>>) | Failed(error: RowError) | Panicked

  /**
   * `filter_map(..).try_collect::<StatusesWithPlacements>()`: skipped rows
   * are dropped, each kept row extends the groups, the first error ends it.
   */
  function Collect<D, F>(groups: seq<Group<D, F>>, results: seq<Result<Option<Row<D, F>>, RowError>>): Outcome<D, F>
    decreases |results|
  {
    if |results| == 0 then Collected(groups)
    else match results[0]
      case Err(e) => Failed(e)
      case Ok(None) => Collect(groups, results[1..])
      case Ok(Some(row)) =>
        match Extend(groups, [row])
        case None => Panicked
        case Some(next) => Collect(next, results[1..])
  }

  /** The rows the results keep, in order. */
  function Kept<D, F>(results: seq<Result<Option<Row<D, F>>, RowError>>): seq<Row<D, F>>
    decreases |results|
  {
    if |results| == 0 then []
    else (if results[0].Ok? && results[0].value.Some? then [results[0].value.value] else []) + Kept(results[1..])
  }

  /** The first `k` results are all fine. */
  ghost predicate FineUpTo<D, F>(results: seq<Result<Option<Row<D, F>>, RowError>>, k: nat)
    requires k <= |results|
  {
    forall i :: 0 <= i < k ==> results[i].Ok?
  }

  /** Extending by a row and then by more rows is extending by all of them. */
  lemma ExtendCons<D, F>(groups: seq<Group<D, F>>, row: Row<D, F>, rows: seq<Row<D, F>>)
    ensures Extend(groups, [row] + rows) ==
      (match Extend(groups, [row]) case None => None case Some(next) => Extend(next, rows))
  {
    assert ([row] + rows)[1..] == rows;
    assert [row][1..] == [];
  }

  /**
   * Collecting results with no error groups the kept rows (or panics as
   * that grouping does); the first error otherwise ends the collection,
   * unless the rows kept before it already made the grouping panic.
   */
  lemma {:induction false} CollectSpec<D, F>(groups: seq<Group<D, F>>, results: seq<Result<Option<Row<D, F>>, RowError>>, k: nat)
    requires k <= |results| && FineUpTo(results, k) && (k < |results| ==> results[k].Err?)
    ensures Collect(groups, results) ==
      (match Extend(groups, Kept(results[..k]))
       case None => Panicked
       case Some(next) => if k < |results| then Failed(results[k].error) else Collected(next))
    decreases |results|
  {
    if k == 0 {
      assert results[..k] == [];
    } else {
      var rest := results[1..];
      assert results[..k][1..] == rest[..k - 1];
      assert FineUpTo(rest, k - 1) by {
        forall i | 0 <= i < k - 1 ensures rest[i].Ok? {
          assert rest[i] == results[i + 1];
        }
      }
      CollectSpec(groups, rest, k - 1);
      assert results[0].Ok?;
      match results[0]
      case Ok(None) =>
        assert Kept(results[..k]) == Kept(rest[..k - 1]);
      case Ok(Some(row)) =>
        assert Kept(results[..k]) == [row] + Kept(rest[..k - 1]);
        ExtendCons(groups, row, Kept(rest[..k - 1]));
        ExtendPanics(groups, [row]);
        if Extend(groups, [row]).Some? {
          CollectSpec(Extend(groups, [row]).value, rest, k - 1);
        }
    }
  }

  /** The whole table: each row's cells classified, then collected from no groups. */
  function Scrape<D, F>(rd: Readers<D, F>, table: seq<seq<string>>): Outcome<D, F> {
    Collect([], seq(|table|, i requires 0 <= i < |table| => FromCells(rd, table[i])))
  }

  // ---------------------------------------------------------------------
  // Links and parameters

  /** Why no link could be clicked. */
  datatype LinkError<E> = TextFailed(error: E) | NotFound(value: string)

  /**
   * `find_and_click`: the first link whose text is `value`, where reading
   * a link's text may fail and the first such failure ends the search.
   */
  function FindLink<E>(texts: seq<Result<string, E>>, value: string): (r: Result<nat, LinkError<E>>)
    ensures r.Ok? ==> r.value < |texts| && texts[r.value] == Ok(value)
    ensures r.Err? && r.error.NotFound? ==> r.error.value == value
    decreases |texts|
  {
    if |texts| == 0 then Err(NotFound(value))
    else match texts[0]
      case Err(e) => Err(TextFailed(e))
      case Ok(t) =>
        if t == value then Ok(0)
        else match FindLink(texts[1..], value)
          case Ok(i) => Ok(i + 1)
          case Err(e) => Err(e)
  }

  /**
   * The link found is the first one that is the value or whose text fails;
   * the value is not found exactly when all texts are read and none is it.
   */
  lemma {:induction false} FindLinkFirst<E>(texts: seq<Result<string, E>>, value: string)
    ensures FindLink(texts, value).Err? && FindLink(texts, value).error.NotFound? <==>
      forall i :: 0 <= i < |texts| ==> texts[i].Ok? && texts[i].value != value
    ensures FindLink(texts, value).Ok? ==>
      forall i :: 0 <= i < FindLink(texts, value).value ==> texts[i].Ok? && texts[i].value != value
    decreases |texts|
  {
    if |texts| > 0 {
      FindLinkFirst(texts[1..], value);
      if texts[0].Ok? && texts[0].value != value {
        forall i | 0 <= i < |texts| && i > 0 ensures texts[i] == texts[1..][i - 1] {}
      }
    }
  }

  /** `struct Params`: the event id, the year link's text, the race link's text. */
  datatype Params = Params(did: nat, year: string, race: Option<string>)

  /** `Params::new`, whose only error is an event that is not on ultrasignup. */
  function ParamsNew(opt: Cli.Opt): Result<Params, Cli.Event> {
    var year := Cli.ShowYear(opt.year);
    match opt.event
    case Moab240 => Ok(Params(72701, year, None))
    case JJ100 => Ok(Params(74613, year, if opt.year == 2013 || opt.year == 2018 then Some("100 Miler") else None))
    case DPTR =>
      Ok(Params(74837, year, if opt.year == 2013 then Some("50 Miler") else if opt.year == 2020 then Some("53 Miler") else None))
    case BosqueBigfoot => Ok(Params(67798, year, Some("50K")))
    case _ => Err(opt.event)
  }

  /** The four ultrasignup events and their event ids. */
  function EventId(e: Cli.Event): Option<nat> {
    match e
    case Moab240 => Some(72701)
    case JJ100 => Some(74613)
    case DPTR => Some(74837)
    case BosqueBigfoot => Some(67798)
    case _ => None
  }

  /**
   * `Params::new` accepts exactly the four ultrasignup events, whatever
   * the year; the year link's text reads back as the year; a race link is
   * chosen only for JJ100 in 2013 and 2018 ("100 Miler"), DPTR in 2013
   * ("50 Miler") and 2020 ("53 Miler"), and Bosque Bigfoot ("50K").
   */
  lemma ParamsNewSpec(opt: Cli.Opt)
    ensures ParamsNew(opt).Ok? <==> EventId(opt.event).Some?
    ensures ParamsNew(opt).Err? ==> ParamsNew(opt).error == opt.event
    ensures ParamsNew(opt).Ok? ==>
      var p := ParamsNew(opt).value;
      && Some(p.did) == EventId(opt.event)
      && Cli.ParseYear(p.year) == Some(opt.year)
      && (p.race.Some? <==>
            || (opt.event == Cli.JJ100 && opt.year in {2013, 2018})
            || (opt.event == Cli.DPTR && opt.year in {2013, 2020})
            || opt.event == Cli.BosqueBigfoot)
      && (opt.event == Cli.JJ100 && opt.year in {2013, 2018} ==> p.race == Some("100 Miler"))
      && (opt.event == Cli.DPTR && opt.year == 2013 ==> p.race == Some("50 Miler"))
      && (opt.event == Cli.DPTR && opt.year == 2020 ==> p.race == Some("53 Miler"))
      && (opt.event == Cli.BosqueBigfoot ==> p.race == Some("50K"))
  {
    Cli.YearRoundTrip(opt.year);
  }

  /** Distinct ultrasignup events have distinct event ids. */
  lemma EventIdsDistinct(e1: Cli.Event, e2: Cli.Event)
    requires EventId(e1).Some? && EventId(e1) == EventId(e2)
    ensures e1 == e2
  {
  }

  const RegisterUrl := "https://ultrasignup.com/register.aspx?did="

  /** `url`: the registration page of the event id. */
  function Url(p: Params): (u: string)
    ensures StartsWith(u, RegisterUrl) && Decimal.ParseUnsigned(u[|RegisterUrl|..], p.did) == Some(p.did)
  {
    Decimal.ParseShow(p.did, p.did);
    assert (RegisterUrl + Decimal.Show(p.did))[|RegisterUrl|..] == Decimal.Show(p.did);
    RegisterUrl + Decimal.Show(p.did)
  }
}
