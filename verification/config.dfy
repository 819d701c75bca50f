/**
 * The choice of scraper in `main` (src/main.rs): each event belongs to one
 * results site, whose `Params::new` then checks the rest of the command
 * line, and whose `url` gives the page the browser opens first.
 */
module Config {
  import opened Wrappers
  import Cli
  import Chronotrack
  import Athlinks
  import Ultrasignup
  import ItsYourRace

  /** The results sites that `main` dispatches to. */
  datatype Family = ChronotrackSite | AthlinksSite | UltrasignupSite | ItsYourRaceSite

  /** The `match opt.event` in `main`. */
  function FamilyOf(e: Cli.Event): Family {
    match e
    case Shiprock => ChronotrackSite
    case Rftz | Lt100 | DukeCityMarathon | CorralesDitchRun | KotH | RioGrande => AthlinksSite
    case Moab240 | JJ100 | DPTR | BosqueBigfoot => UltrasignupSite
    case BMDM => ItsYourRaceSite
  }

  /** The events each site is chosen for. */
  function EventsOf(f: Family): set<Cli.Event> {
    match f
    case ChronotrackSite => {Cli.Shiprock}
    case AthlinksSite => {Cli.Rftz, Cli.Lt100, Cli.DukeCityMarathon, Cli.CorralesDitchRun, Cli.KotH, Cli.RioGrande}
    case UltrasignupSite => {Cli.Moab240, Cli.JJ100, Cli.DPTR, Cli.BosqueBigfoot}
    case ItsYourRaceSite => {Cli.BMDM}
  }

  /** Every event goes to exactly one site: the one whose events it is among. */
  lemma DispatchExhaustive(e: Cli.Event, f: Family)
    ensures FamilyOf(e) == f <==> e in EventsOf(f)
  {
  }

  /** The boxed scraper: the parameters of one site. */
  datatype Scraper =
    | ChronotrackScraper(chronotrack: Chronotrack.Params)
    | AthlinksScraper(athlinks: Athlinks.Params)
    | UltrasignupScraper(ultrasignup: Ultrasignup.Params)
    | ItsYourRaceScraper(itsYourRace: ItsYourRace.Params)

  /** The error of the chosen site's `Params::new`. */
  datatype ConfigError =
    | ChronotrackError(chronotrack: Chronotrack.ParamsError)
    | AthlinksError(athlinks: Athlinks.ParamsError)
    | UltrasignupError(event: Cli.Event)
    | ItsYourRaceError(itsYourRace: ItsYourRace.ParamsError)

  function SiteOf(s: Scraper): Family {
    match s
    case ChronotrackScraper(_) => ChronotrackSite
    case AthlinksScraper(_) => AthlinksSite
    case UltrasignupScraper(_) => UltrasignupSite
    case ItsYourRaceScraper(_) => ItsYourRaceSite
  }

  /** The scraper `main` builds from the command line, or the `?` error. */
  function Configure(opt: Cli.Opt): Result<Scraper, ConfigError> {
    match FamilyOf(opt.event)
    case ChronotrackSite =>
      (match Chronotrack.ParamsNew(opt) case Ok(p) => Ok(ChronotrackScraper(p)) case Err(e) => Err(ChronotrackError(e)))
    case AthlinksSite =>
      (match Athlinks.ParamsNew(opt) case Ok(p) => Ok(AthlinksScraper(p)) case Err(e) => Err(AthlinksError(e)))
    case UltrasignupSite =>
      (match Ultrasignup.ParamsNew(opt) case Ok(p) => Ok(UltrasignupScraper(p)) case Err(e) => Err(UltrasignupError(e)))
    case ItsYourRaceSite =>
      (match ItsYourRace.ParamsNew(opt) case Ok(p) => Ok(ItsYourRaceScraper(p)) case Err(e) => Err(ItsYourRaceError(e)))
  }

  /** `url`, where `None` is the panic of the Chronotrack scraper on a year it has no page for. */
  function ScraperUrl(s: Scraper): Option<string> {
    match s
    case ChronotrackScraper(p) => if 2017 <= p.year <= 2019 then Some(Chronotrack.Url(p)) else None
    case AthlinksScraper(p) => Some(p.url)
    case UltrasignupScraper(p) => Some(Ultrasignup.Url(p))
    case ItsYourRaceScraper(p) => Some(ItsYourRace.Url(p))
  }

  /**
   * The scraper built belongs to the event's site, and its `url` never
   * panics; the command line is accepted exactly when the site's own
   * checks pass.
   */
  lemma ConfigureSpec(opt: Cli.Opt)
    ensures Configure(opt).Ok? ==> SiteOf(Configure(opt).value) == FamilyOf(opt.event)
    ensures Configure(opt).Ok? ==> ScraperUrl(Configure(opt).value).Some?
    ensures Configure(opt).Ok? <==>
      match FamilyOf(opt.event)
      case ChronotrackSite => Chronotrack.UrlForYear(opt.year).Some? && Chronotrack.MenuItemFor(opt.race).Some?
      case AthlinksSite => opt.year == 2019 && (opt.event, opt.race) in Athlinks.RaceIndex
      case UltrasignupSite => true
      case ItsYourRaceSite => opt.race == Cli.SoloMaleHeavy
  {
    match FamilyOf(opt.event)
    case ChronotrackSite => Chronotrack.ParamsNewSpec(opt);
    case AthlinksSite => Athlinks.ParamsNewSpec(opt);
    case UltrasignupSite => Ultrasignup.ParamsNewSpec(opt);
    case ItsYourRaceSite => ItsYourRace.ParamsNewSpec(opt);
  }

  /**
   * Four of the events sent to the Athlinks scraper are ones it does not
   * know, so the command line is always rejected for them.
   */
  lemma AthlinksOnlyKnowsTwo(opt: Cli.Opt)
    requires opt.event in {Cli.DukeCityMarathon, Cli.CorralesDitchRun, Cli.KotH, Cli.RioGrande}
    ensures Configure(opt) == Err(AthlinksError(Athlinks.NotAthlinks(opt.event)))
  {
  }
}
