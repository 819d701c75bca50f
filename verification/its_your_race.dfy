/**
 * src/its_your_race.rs: the Bataan Memorial Death March results on
 * itsyourrace.com.  A result row is read from the texts of four cells; a
 * participant row from the texts of its `td`s.  Rows that do not read are
 * dropped, silently when they are a DNF line or a column heading.
 *
 * Durations are read by the parameter `dur`.
 */
module ItsYourRace {
  import opened Wrappers
  import opened Text
  import Decimal
  import Cli
  import Pagination

  // ---------------------------------------------------------------------
  // Result rows

  /** `struct Placement`: the rank is a `NonZeroU16`. */
  datatype Placement<D> = Placement(rank: nat, name: string, bib: string, time: D, pace: D)

  /**
   * The texts of the `.placeOverall`, `.name`, `.chiptime` and `.pace`
   * cells of a row; `None` when the cell is missing or its text cannot be read.
   */
  datatype Cells = Cells(placeOverall: Option<string>, name: Option<string>, chipTime: Option<string>, pace: Option<string>)

  /**
   * Why a row yields no placement.  `Quiet` failures say nothing of their
   * own; the other three print a message naming the text at fault.
   */
  datatype Failure = Quiet | NotTwoPieces(text: string) | NoClosingParen(text: string) | NoMile(text: string)

  const BibOpen := " (# "
  const Mile := "/mile"

  /** The name before ` (# `, and the bib after it up to the first `)`. */
  function NameAndBib(s: string): (r: Result<(string, string), Failure>)
    ensures r.Err? ==> r.error.NotTwoPieces? || r.error.NoClosingParen?
  {
    var pieces := Split(s, BibOpen);
    if |pieces| != 2 then Err(NotTwoPieces(s))
    else match FindFirst(pieces[1], ")")
      case None => Err(NoClosingParen(pieces[1]))
      case Some(n) => Ok((pieces[0], pieces[1][..n]))
  }

  /**
   * A name without `(` followed by ` (# `, a bib without `(` or `)`, and a
   * closing `)` reads as that name and bib, whatever follows without `(`.
   */
  lemma NameAndBibOf(name: string, bib: string, rest: string)
    requires '(' !in name && '(' !in bib && ')' !in bib && '(' !in rest
    ensures NameAndBib(name + (BibOpen + (bib + (")" + rest)))) == Ok((name, bib))
  {
    var after := bib + (")" + rest);
    assert BibOpen[1] == '(' && '(' !in BibOpen[..1];
    FirstAtByChar(name, BibOpen, 1);
    assert '(' !in after;
    NotContainsByChar(after, BibOpen, 1);
    SplitInTwo(name, BibOpen, after);
    FirstAtByHead(bib, ")");
    FindFirstOfConcat(bib, ")", rest);
  }

  /**
   * The name cell is rejected for its pieces exactly when it is not a
   * name, one ` (# ` and a remainder without another.
   */
  lemma NotTwoPiecesIff(s: string)
    ensures NameAndBib(s) == Err(NotTwoPieces(s)) <==>
      !exists name, rest :: s == name + (BibOpen + rest) && FirstAt(name, BibOpen) && !Contains(rest, BibOpen)
  {
    if |Split(s, BibOpen)| == 2 {
      SplitTwoPieces(s, BibOpen);
      var ps := Split(s, BibOpen);
      assert s == ps[0] + (BibOpen + ps[1]) && FirstAt(ps[0], BibOpen) && !Contains(ps[1], BibOpen);
    } else {
      forall name, rest | s == name + (BibOpen + rest) && FirstAt(name, BibOpen)
        ensures Contains(rest, BibOpen)
      {
        if !Contains(rest, BibOpen) {
          SplitInTwo(name, BibOpen, rest);
        }
      }
    }
  }

  /** The pace: the text before the `/mile` it must end in, read as a duration. */
  function PaceOf<D>(dur: string -> Option<D>, s: string): (r: Result<D, Failure>)
    ensures !EndsWith(s, Mile) <==> r == Err(NoMile(s))
    ensures r.Err? ==> r.error.NoMile? || r.error.Quiet?
  {
    match StripSuffix(s, Mile)
    case None => Err(NoMile(s))
    case Some(p) =>
      match dur(p)
      case None => Err(Quiet)
      case Some(d) => Ok(d)
  }

  /** A pace is read from its text followed by `/mile`. */
  lemma PaceOfMile<D>(dur: string -> Option<D>, t: string)
    ensures PaceOf(dur, t + Mile) == match dur(t) case Some(d) => Ok(d) case None => Err(Quiet)
  {
    assert (t + Mile)[..|t|] == t;
  }

  /** The read of a present cell; a missing or unreadable cell fails quietly. */
  function Cell(c: Option<string>): (r: Result<string, Failure>)
    ensures r.Ok? <==> c.Some?
  {
    match c
    case None => Err(Quiet)
    case Some(s) => Ok(s)
  }

  /** The inner `from_element`: rank, name and bib, chip time and pace, in that order. */
  function PlacementOf<D>(dur: string -> Option<D>, c: Cells): (r: Result<Placement<D>, Failure>)
    ensures r.Ok? <==>
      && c.placeOverall.Some? && Decimal.ParseNonZeroU16(c.placeOverall.value).Some?
      && c.name.Some? && NameAndBib(c.name.value).Ok?
      && c.chipTime.Some? && dur(c.chipTime.value).Some?
      && c.pace.Some? && PaceOf(dur, c.pace.value).Ok?
    ensures r.Ok? ==>
      && Some(r.value.rank) == Decimal.ParseNonZeroU16(c.placeOverall.value)
      && NameAndBib(c.name.value) == Ok((r.value.name, r.value.bib))
      && dur(c.chipTime.value) == Some(r.value.time)
      && PaceOf(dur, c.pace.value) == Ok(r.value.pace)
    ensures r.Err? && !r.error.Quiet? ==>
      && c.placeOverall.Some? && Decimal.ParseNonZeroU16(c.placeOverall.value).Some? && c.name.Some?
      && (NameAndBib(c.name.value).Err? ==> r == Err(NameAndBib(c.name.value).error))
  {
    var rankText :- Cell(c.placeOverall);
    var rank :- match Decimal.ParseNonZeroU16(rankText) case Some(n) => Ok(n) case None => Err(Quiet);
    var nameText :- Cell(c.name);
    var nb :- NameAndBib(nameText);
    var timeText :- Cell(c.chipTime);
    var time :- match dur(timeText) case Some(d) => Ok(d) case None => Err(Quiet);
    var paceText :- Cell(c.pace);
    var pace :- PaceOf(dur, paceText);
    Ok(Placement(rank, nb.0, nb.1, time, pace))
  }

  /** The cells of a placement as the page shows them, given the texts of its two durations. */
  function CellsOf<D>(p: Placement<D>, time: string, pace: string): Cells {
    Cells(Some(Decimal.Show(p.rank)), Some(p.name + (BibOpen + (p.bib + ")"))), Some(time), Some(pace + Mile))
  }

  /** Every placement the page can show reads back from its cells. */
  lemma PlacementRoundTrip<D>(dur: string -> Option<D>, p: Placement<D>, time: string, pace: string)
    requires 1 <= p.rank <= Decimal.U16_MAX
    requires '(' !in p.name && '(' !in p.bib && ')' !in p.bib
    requires dur(time) == Some(p.time) && dur(pace) == Some(p.pace)
    ensures PlacementOf(dur, CellsOf(p, time, pace)) == Ok(p)
  {
    Decimal.ParseShow(p.rank, Decimal.U16_MAX);
    NameAndBibOf(p.name, p.bib, "");
    assert p.bib + (")" + "") == p.bib + ")";
    PaceOfMile(dur, pace);
  }

  // ---------------------------------------------------------------------
  // Dropped rows

  /** What becomes of a row: its placement, dropped silently, or dropped with a "discarding" message. */
  datatype Fate<D> = Emitted(placement: Placement<D>) | DroppedSilently | Discarded

  /** The last line of a row's text, as `split('\n').next_back()` gives it. */
  function LastLine(text: string): string {
    Last(Split(text, "\n"))
  }

  /**
   * The outer `from_element`: a row that reads is emitted; otherwise the
   * row's whole text is fetched, and a last line of "DNF" or "TIME" drops
   * it silently.  `rowText` is `None` when that text cannot be read.
   */
  function FateOf<D>(result: Result<Placement<D>, Failure>, rowText: Option<string>): Fate<D> {
    match result
    case Ok(p) => Emitted(p)
    case Err(_) =>
      if rowText.Some? && (LastLine(rowText.value) == "DNF" || LastLine(rowText.value) == "TIME")
      then DroppedSilently
      else Discarded
  }

  /** A text's last line is `x`, a text without newlines, exactly when the text is `x` or ends in a newline and `x`. */
  lemma LastLineIs(text: string, x: string)
    requires '\n' !in x
    ensures LastLine(text) == x <==> text == x || EndsWith(text, "\n" + x)
  {
    LastPieceOnChar(text, '\n', x);
    assert "\n" == ['\n'];
  }

  /**
   * Only a failed row is dropped, silently exactly when its text reads and
   * is "DNF" or "TIME" or ends in a line that is; every other failed row
   * is reported as discarded, and a row that reads is emitted as read.
   */
  lemma FateSpec<D>(result: Result<Placement<D>, Failure>, rowText: Option<string>)
    ensures FateOf(result, rowText).Emitted? <==> result.Ok?
    ensures FateOf(result, rowText).Emitted? ==> FateOf(result, rowText).placement == result.value
    ensures FateOf(result, rowText) == DroppedSilently <==>
      result.Err? && rowText.Some? && QuietText(rowText.value)
    ensures FateOf(result, rowText) == Discarded <==>
      result.Err? && !(rowText.Some? && QuietText(rowText.value))
  {
    if rowText.Some? {
      QuietTextIff(rowText.value);
    }
  }

  /** A row text that is, or ends in a line that is, "DNF" or "TIME". */
  predicate QuietText(text: string) {
    || text == "DNF" || EndsWith(text, "\nDNF")
    || text == "TIME" || EndsWith(text, "\nTIME")
  }

  lemma QuietTextIff(text: string)
    ensures LastLine(text) == "DNF" || LastLine(text) == "TIME" <==> QuietText(text)
  {
    LastLineIs(text, "DNF");
    LastLineIs(text, "TIME");
    assert "\n" + "DNF" == "\nDNF" && "\n" + "TIME" == "\nTIME";
  }

  /** The placements a page prints: the emitted ones, in row order. */
  function PagePlacements<D>(dur: string -> Option<D>, rows: seq<(Cells, Option<string>)>): (ps: seq<Placement<D>>)
    ensures |ps| <= |rows|
    decreases |rows|
  {
    if |rows| == 0 then []
    else
      var rest := PagePlacements(dur, rows[1..]);
      match FateOf(PlacementOf(dur, rows[0].0), rows[0].1)
      case Emitted(p) => [p] + rest
      case _ => rest
  }

  /** The placements of the rows that read, in row order. */
  function ReadRows<D>(dur: string -> Option<D>, rows: seq<(Cells, Option<string>)>): seq<Placement<D>>
    decreases |rows|
  {
    if |rows| == 0 then []
    else (match PlacementOf(dur, rows[0].0) case Ok(p) => [p] case Err(_) => []) + ReadRows(dur, rows[1..])
  }

  /**
   * Dropping rows silently or with a message changes only what is said:
   * the page prints exactly the placements of the rows that read, in order.
   */
  lemma {:induction false} PagePlacementsAreReads<D>(dur: string -> Option<D>, rows: seq<(Cells, Option<string>)>)
    ensures PagePlacements(dur, rows) == ReadRows(dur, rows)
    decreases |rows|
  {
    if |rows| > 0 {
      PagePlacementsAreReads(dur, rows[1..]);
      FateSpec(PlacementOf(dur, rows[0].0), rows[0].1);
    }
  }

  // ---------------------------------------------------------------------
  // Participant rows

  /** `struct Participant`. */
  datatype Participant = Participant(name: string, bib: string, hometown: string, race: string, ageGroup: string)

  /** Why a participant row yields nothing; the last three print a message. */
  datatype ParticipantFailure = Missing | NotOneNewline(text: string) | NoBibClose(text: string) | MultipleBibs(text: string)

  const BibMark := " ( Bib # "
  const BibClose := " )"

  /**
   * The name, bib and hometown cell: two lines, the first being a name
   * optionally followed by ` ( Bib # `, the bib and ` )`.
   */
  function NameBibHometown(s: string): (r: Result<(string, string, string), ParticipantFailure>)
    ensures r == Err(NotOneNewline(s)) <==> CountChar(s, '\n') != 1
    ensures r.Err? ==> !r.error.Missing?
  {
    SplitCharCount(s, '\n');
    assert "\n" == ['\n'];
    var pieces := Split(s, "\n");
    if |pieces| != 2 then Err(NotOneNewline(s))
    else
      var sub := Split(pieces[0], BibMark);
      if |sub| == 1 then Ok((pieces[0], "", pieces[1]))
      else if |sub| == 2 then
        match FindFirst(sub[1], BibClose)
        case None => Err(NoBibClose(s))
        case Some(end) => Ok((sub[0], sub[1][..end], pieces[1]))
      else Err(MultipleBibs(s))
  }

  /** The two lines of a cell with one newline. */
  lemma TwoLines(first: string, second: string)
    requires '\n' !in first && '\n' !in second
    ensures Split(first + ("\n" + second), "\n") == [first, second]
  {
    FirstAtByHead(first, "\n");
    NotContainsByHead(second, "\n");
    SplitInTwo(first, "\n", second);
  }

  /** A cell without a bib reads as the first line's name, an empty bib, and the hometown. */
  lemma WithoutBib(name: string, hometown: string)
    requires '\n' !in name && '\n' !in hometown && '(' !in name
    ensures NameBibHometown(name + ("\n" + hometown)) == Ok((name, "", hometown))
  {
    TwoLines(name, hometown);
    assert BibMark[1] == '(';
    NotContainsByChar(name, BibMark, 1);
    SplitSingle(name, BibMark);
  }

  /** A cell with one bib reads as the name before it, the bib, and the hometown. */
  lemma WithBib(name: string, bib: string, hometown: string)
    requires '\n' !in name && '\n' !in bib && '\n' !in hometown
    requires '(' !in name && '(' !in bib && ')' !in bib
    ensures NameBibHometown(name + BibMark + bib + BibClose + ("\n" + hometown)) == Ok((name, bib, hometown))
  {
    var first := name + (BibMark + (bib + BibClose));
    assert '\n' !in BibMark && '\n' !in BibClose;
    assert name + BibMark + bib + BibClose + ("\n" + hometown) == first + ("\n" + hometown);
    TwoLines(first, hometown);
    assert BibMark[1] == '(' && '(' !in BibMark[..1];
    FirstAtByChar(name, BibMark, 1);
    assert '(' !in bib + BibClose;
    NotContainsByChar(bib + BibClose, BibMark, 1);
    SplitInTwo(name, BibMark, bib + BibClose);
    assert BibClose[1] == ')' && ')' !in BibClose[..1];
    FirstAtByChar(bib, BibClose, 1);
    assert bib + BibClose == bib + (BibClose + "");
    FindFirstOfConcat(bib, BibClose, "");
  }

  /** A first line with two bib marks is rejected. */
  lemma TwoBibs(name: string, a: string, b: string, hometown: string)
    requires '\n' !in name && '\n' !in a && '\n' !in b && '\n' !in hometown
    requires FirstAt(name, BibMark) && FirstAt(a, BibMark)
    ensures NameBibHometown(name + (BibMark + (a + (BibMark + b))) + ("\n" + hometown)).Err?
  {
    var first := name + (BibMark + (a + (BibMark + b)));
    assert '\n' !in BibMark;
    TwoLines(first, hometown);
    SplitOfConcat(name, BibMark, a + (BibMark + b));
    SplitOfConcat(a, BibMark, b);
  }

  /**
   * `Participant::from_element` on the texts of a row's `td`s (`None` for
   * a text that cannot be read): the first is skipped, the second holds
   * name, bib and hometown, the third the race, the fourth the age group.
   */
  function ParticipantOf(tds: seq<Option<string>>): (r: Result<Participant, ParticipantFailure>)
    ensures |tds| < 4 ==> r.Err?
    ensures r.Ok? <==>
      && |tds| >= 4 && tds[1].Some? && tds[2].Some? && tds[3].Some?
      && NameBibHometown(tds[1].value).Ok?
    ensures |tds| >= 2 && tds[1].Some? && NameBibHometown(tds[1].value).Err? ==>
      r == Err(NameBibHometown(tds[1].value).error)
    ensures r.Err? && !(|tds| >= 2 && tds[1].Some? && NameBibHometown(tds[1].value).Err?) ==>
      r == Err(Missing)
    ensures r.Ok? ==>
      && tds[1].Some? && tds[2] == Some(r.value.race) && tds[3] == Some(r.value.ageGroup)
      && NameBibHometown(tds[1].value) == Ok((r.value.name, r.value.bib, r.value.hometown))
  {
    if |tds| < 2 || tds[1].None? then Err(Missing)
    else
      var nbh :- NameBibHometown(tds[1].value);
      if |tds| < 3 || tds[2].None? then Err(Missing)
      else if |tds| < 4 || tds[3].None? then Err(Missing)
      else Ok(Participant(nbh.0, nbh.1, nbh.2, tds[2].value, tds[3].value))
  }

  /** The first `td` is never read: any first cell gives the same participant. */
  lemma FirstCellIgnored(tds: seq<Option<string>>, first: Option<string>)
    requires |tds| > 0
    ensures ParticipantOf([first] + tds[1..]) == ParticipantOf(tds)
  {
    var other := [first] + tds[1..];
    assert forall i :: 0 < i < |tds| ==> other[i] == tds[i];
  }

  // ---------------------------------------------------------------------
  // Menus, the next button and parameters

  /** What `select_by_label` does with one label. */
  datatype Selection = Selected | NoSuchLabel | Surprise

  /** Why `pop_up_select` fails. */
  datatype SelectError = MenuMissing | NoLabelMatched

  /**
   * `pop_up_select`: the menu must appear; then each label is tried in
   * order until one is selected.  Returns the index of that label.
   */
  method PopUpSelect(present: bool, labels: seq<string>, select: string -> Selection) returns (r: Result<nat, SelectError>)
    ensures r.Ok? ==> present && r.value < |labels| && select(labels[r.value]) == Selected
    ensures r.Ok? ==> forall j :: 0 <= j < r.value ==> select(labels[j]) != Selected
    ensures r == Err(MenuMissing) <==> !present
    ensures r == Err(NoLabelMatched) <==> present && forall j :: 0 <= j < |labels| ==> select(labels[j]) != Selected
  {
    if !present {
      return Err(MenuMissing);
    }
    var i := 0;
    while i < |labels|
      invariant 0 <= i <= |labels|
      invariant forall j :: 0 <= j < i ==> select(labels[j]) != Selected
    {
      if select(labels[i]) == Selected {
        return Ok(i);
      }
      i := i + 1;
    }
    return Err(NoLabelMatched);
  }

  /** What looking up `#btnNext` gives. */
  datatype Lookup<E> = Found | NoSuchElement | LookupFailed(error: E)

  /** `next_button`: only a missing element means there is no next page. */
  function NextButton<E>(l: Lookup<E>): (p: Pagination.Probe<E>)
    ensures p.NoNext? <==> l.NoSuchElement?
    ensures p.ProbeFailed? <==> l.LookupFailed?
  {
    match l
    case Found => Pagination.HasNext
    case NoSuchElement => Pagination.NoNext
    case LookupFailed(e) => Pagination.ProbeFailed(e)
  }

  /**
   * The placements loop ends normally only on a missing next button, and
   * any other lookup error ends it with that error.
   */
  lemma LoopEndsOnMissingButton<B, E>(pages: seq<Pagination.Page<B, E>>, lookups: seq<Lookup<E>>)
    requires |lookups| == |pages| && forall i :: 0 <= i < |pages| ==> pages[i].probe == NextButton(lookups[i])
    ensures Pagination.Paginate(pages).end == Pagination.Finished ==>
      var k := Pagination.FirstStop(pages);
      k < |pages| && lookups[k] == NoSuchElement && |Pagination.Paginate(pages).batches| == k + 1
    ensures forall k :: 0 <= k < |pages| && k == Pagination.FirstStop(pages) && pages[k].extract.Ok? && lookups[k].LookupFailed? ==>
      Pagination.Paginate(pages).end == Pagination.Failed(lookups[k].error)
  {
    var k := Pagination.FirstStop(pages);
    Pagination.PaginateSpec(pages, k);
  }

  const SoloMaleHeavies := ["CIVILIAN Male Heavy", "Individual CIVILIAN Male Heavy"]

  /** `struct Params`. */
  datatype Params = Params(eventId: nat, raceMenus: seq<string>, year: Cli.Year, participant: bool)

  datatype ParamsError = NotItsYourRace(event: Cli.Event) | OnlySoloMaleHeavy

  /** `Params::new` and `new_bmdm`. */
  function ParamsNew(opt: Cli.Opt): Result<Params, ParamsError> {
    if opt.event != Cli.BMDM then Err(NotItsYourRace(opt.event))
    else if opt.race != Cli.SoloMaleHeavy then Err(OnlySoloMaleHeavy)
    else Ok(Params(6574, SoloMaleHeavies, opt.year, opt.participant))
  }

  /**
   * Only BMDM is an It's Your Race event, and only its solo male heavy
   * race is scraped, under its two menu labels, the 2016 one tried first
   * ("CIVILIAN Male Heavy", then "Individual CIVILIAN Male Heavy"); the year and the
   * participant switch are kept.  A wrong event is reported before a wrong race.
   */
  lemma ParamsNewSpec(opt: Cli.Opt)
    ensures ParamsNew(opt).Ok? <==> opt.event == Cli.BMDM && opt.race == Cli.SoloMaleHeavy
    ensures opt.event != Cli.BMDM ==> ParamsNew(opt) == Err(NotItsYourRace(opt.event))
    ensures ParamsNew(opt).Ok? ==>
      var p := ParamsNew(opt).value;
      p.eventId == 6574 && p.year == opt.year && p.participant == opt.participant
      && |p.raceMenus| == 2 && "Individual CIVILIAN Male Heavy" in p.raceMenus
      && p.raceMenus == ["CIVILIAN Male Heavy", "Individual CIVILIAN Male Heavy"]
  {
  }

  /** The menu labels the year is chosen by: its decimal text only. */
  function YearLabels(y: Cli.Year): (labels: seq<string>)
    ensures |labels| == 1 && Cli.ParseYear(labels[0]) == Some(y)
  {
    Cli.YearRoundTrip(y);
    [Cli.ShowYear(y)]
  }

  const ResultsUrl := "https://www.itsyourrace.com/Results.aspx?id="

  /** `url`. */
  function Url(p: Params): (u: string)
    ensures StartsWith(u, ResultsUrl) && Decimal.ParseUnsigned(u[|ResultsUrl|..], p.eventId) == Some(p.eventId)
  {
    Decimal.ParseShow(p.eventId, p.eventId);
    assert (ResultsUrl + Decimal.Show(p.eventId))[|ResultsUrl|..] == Decimal.Show(p.eventId);
    ResultsUrl + Decimal.Show(p.eventId)
  }
}
