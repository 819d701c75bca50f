/**
 * The command-line vocabulary of src/main.rs: races, events, the year, and
 * their hand-written `FromStr`/`Display` conversions.  The unit error
 * structs `ParseRaceError` and `ParseEventError` become `None`.  The
 * command line reads the year through `FromStr`, but the race and the
 * event through `clap`'s `ValueEnum` (their kebab-case variant names), so
 * `ParseRace` and `ParseEvent` model conversions the command line does
 * not use.
 */
module Cli {
  import opened Wrappers
  import Decimal

  datatype Race = Full | Half | Relay | TenK | FiveK | Handcycle | TenKRuck | SoloMaleHeavy

  datatype Event =
    | Shiprock | Rftz | Lt100 | Moab240 | JJ100 | DPTR | BosqueBigfoot
    | DukeCityMarathon | CorralesDitchRun | KotH | BMDM | RioGrande

  /** `struct Year(u16)`. */
  type Year = n: int | 0 <= n <= 65535

  /** The parsed command line: `Opt`. */
  datatype Opt = Opt(event: Event, race: Race, year: Year, display: bool, participant: bool)

  /** The text `Race::from_str` accepts for each race. */
  function RaceName(r: Race): string {
    match r
    case Full => "full"
    case Half => "half"
    case Relay => "relay"
    case TenK => "10k"
    case FiveK => "5k"
    case Handcycle => "handcycle"
    case TenKRuck => "10kruck"
    case SoloMaleHeavy => "solo-male-heavy"
  }

  /** `Race::from_str`. */
  function ParseRace(s: string): Option<Race> {
    if s == "full" then Some(Full)
    else if s == "half" then Some(Half)
    else if s == "relay" then Some(Relay)
    else if s == "10k" then Some(TenK)
    else if s == "5k" then Some(FiveK)
    else if s == "handcycle" then Some(Handcycle)
    else if s == "10kruck" then Some(TenKRuck)
    else if s == "solo-male-heavy" then Some(SoloMaleHeavy)
    else None
  }

  /**
   * `Race::from_str` accepts exactly the names of the eight races, reads
   * each name as its own race, and rejects every other text.
   */
  lemma ParseRaceExactly(s: string, r: Race)
    ensures ParseRace(s) == Some(r) <==> s == RaceName(r)
    ensures ParseRace(s).None? <==> forall r' :: s != RaceName(r')
  {
    forall r' ensures ParseRace(RaceName(r')) == Some(r') {
      ParseRaceName(r');
    }
  }

  lemma ParseRaceName(r: Race)
    ensures ParseRace(RaceName(r)) == Some(r)
  {
    match r
    case Full =>
    case Half =>
    case Relay =>
    case TenK =>
    case FiveK =>
    case Handcycle =>
    case TenKRuck =>
    case SoloMaleHeavy =>
  }

  /** Distinct races have distinct names, so the parser never confuses two of them. */
  lemma RaceNamesDistinct(r1: Race, r2: Race)
    ensures RaceName(r1) == RaceName(r2) ==> r1 == r2
  {
    ParseRaceExactly(RaceName(r1), r1);
    ParseRaceExactly(RaceName(r1), r2);
  }

  /** The text `Event::from_str` accepts for each event. */
  function EventName(e: Event): string {
    match e
    case Shiprock => "shiprock"
    case Rftz => "rftz"
    case Lt100 => "lt100"
    case Moab240 => "moab240"
    case JJ100 => "jj100"
    case DPTR => "dptr"
    case BosqueBigfoot => "bosque"
    case DukeCityMarathon => "dcm"
    case CorralesDitchRun => "ditch"
    case KotH => "koth"
    case BMDM => "bmdm"
    case RioGrande => "riogrande"
  }

  /** `Event::from_str`. */
  function ParseEvent(s: string): Option<Event> {
    if s == "shiprock" then Some(Shiprock)
    else if s == "rftz" then Some(Rftz)
    else if s == "lt100" then Some(Lt100)
    else if s == "moab240" then Some(Moab240)
    else if s == "jj100" then Some(JJ100)
    else if s == "dptr" then Some(DPTR)
    else if s == "bosque" then Some(BosqueBigfoot)
    else if s == "dcm" then Some(DukeCityMarathon)
    else if s == "ditch" then Some(CorralesDitchRun)
    else if s == "koth" then Some(KotH)
    else if s == "bmdm" then Some(BMDM)
    else if s == "riogrande" then Some(RioGrande)
    else None
  }

  /**
   * `Event::from_str` accepts exactly the names of the twelve events, reads
   * each name as its own event, and rejects every other text.
   */
  lemma ParseEventExactly(s: string, e: Event)
    ensures ParseEvent(s) == Some(e) <==> s == EventName(e)
    ensures ParseEvent(s).None? <==> forall e' :: s != EventName(e')
  {
    forall e' ensures ParseEvent(EventName(e')) == Some(e') {
      ParseEventName(e');
    }
  }

  lemma ParseEventName(e: Event)
    ensures ParseEvent(EventName(e)) == Some(e)
  {
    match e
    case Shiprock =>
    case Rftz =>
    case Lt100 =>
    case Moab240 =>
    case JJ100 =>
    case DPTR =>
    case BosqueBigfoot =>
    case DukeCityMarathon =>
    case CorralesDitchRun =>
    case KotH =>
    case BMDM =>
    case RioGrande =>
  }

  /** Distinct events have distinct names. */
  lemma EventNamesDistinct(e1: Event, e2: Event)
    ensures EventName(e1) == EventName(e2) ==> e1 == e2
  {
    ParseEventExactly(EventName(e1), e1);
    ParseEventExactly(EventName(e1), e2);
  }

  /** `Display for Year`: the decimal digits of the number. */
  function ShowYear(y: Year): string {
    Decimal.Show(y)
  }

  /** `FromStr for Year`: `u16::from_str`. */
  function ParseYear(s: string): (r: Option<Year>)
    ensures r.Some? <==> Decimal.ParseU16(s).Some?
  {
    match Decimal.ParseU16(s)
    case Some(n) => Some(n)
    case None => None
  }

  /** Every year reads back as itself from its printed form. */
  lemma YearRoundTrip(y: Year)
    ensures ParseYear(ShowYear(y)) == Some(y)
  {
    Decimal.ParseShow(y, Decimal.U16_MAX);
  }

  /** A year read from text without sign or leading zeros prints back as that text. */
  lemma YearTextRoundTrip(s: string)
    requires Decimal.Canonical(s) && ParseYear(s).Some?
    ensures ShowYear(ParseYear(s).value) == s
  {
    Decimal.ShowParse(s, Decimal.U16_MAX);
  }
}
