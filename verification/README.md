# Race results scraper: a verified model of its text-processing core

The scraper drives a browser through the results pages of several timing
sites and prints each runner's placement as JSON. Most of the program
consists of browser commands. Its logic lives in pure functions and a few
small loops:

- **Command line.** `clap` reads the event and the race by their
  kebab-case variant names (`ValueEnum`) and the year by `FromStr` for
  `Year`; `Race` and `Event` also have hand-written `FromStr` impls,
  which the command line does not call. `main` sends each event to one site's
  scraper, whose `Params::new` validates the rest of the command line.
- **Table parsers.** `nom` parser combinators read a row of results out
  of the page source. Chronotrack uses `<td>` cells, Athlinks counts
  closing `>` brackets, and RunSignup uses cell markers and bold tags.
- **Cell classifiers.**
  - Ultrasignup reads a row from its cells' texts: a one-cell status
    header such as `Finishers - 12`, a placement, or a row to skip. It
    then groups the placements under their headers (`Extend`).
  - It's Your Race splits the name and bib cell and strips `/mile` from
    the pace. It drops rows that do not read, telling a DNF or a heading
    apart from a real failure. It chooses menu entries from a list of
    labels (`pop_up_select`) and reads participant rows.
- **Pagination.** "Print this page, look for the next button, click it"
  is one loop shared by three of the sites.

The Dafny project models each of these as functions over `string`
(`seq<char>`), `seq` and algebraic datatypes, and proves properties of
them:

- inverse pairs: reading back a rendered row, cell or header gives the
  value it was rendered from;
- exact characterisations of when each `Params::new`, the command-line
  parsers, the cell classifiers and each `many1`-based `placements`
  succeed; for the row parsers, read-back lemmas for well-formed rows and
  failure lemmas for rows missing or spoiling a field;
- the behaviour of `nom`'s `many1`, `take_until` and the scraper's own
  `take_until_and_consume`;
- order and count facts about grouping and pagination.

Effects become parameters:

- A duration parser `dur: string -> Option<D>` stands for `Duration`'s
  `FromStr`, which belongs to another crate.
- An `f32` reader stands for `f32::from_str`.
- The browser appears only through what it returns: page source, cell
  texts, lookup outcomes and click results.

Modules:

- `Wrappers`: `Option` and `Result`.
- `Text`: Rust's `str::find`, `split`, `replace(t, "")`, `trim` and
  `strip_suffix`.
- `Decimal`: integer `FromStr` and `Display`.
- `Nom`: `tag`, `take_until`, `take`, `multispace0/1`, `opt`, `many1` and
  `take_until_and_consume`.
- `Cli`: the `Race`, `Event` and `Year` parsers.
- One module per site: `Chronotrack`, `Athlinks`, `Runsignup`,
  `Ultrasignup` and `ItsYourRace`.
- `Pagination`: the page loop.
- `Config`: the dispatch in `main`.

## Model

| member | source | states |
|---|---|---|
| Config.DispatchExhaustive | src/main.rs:46-53 | each event is sent to exactly one site, the one whose event set contains it |
| Config.ConfigureSpec | src/main.rs:46-53 | the scraper built belongs to the event's site and its `url` never panics; the command line is accepted exactly when that site's year/race checks pass |
| Config.AthlinksOnlyKnowsTwo | src/athlinks.rs:30-38 | four of the six events `main` sends to Athlinks (dcm, ditch, koth, riogrande) are always rejected as "not athlinks" |
| Cli.ParseRaceExactly | src/main.rs:133-151 | `Race::from_str` accepts exactly the eight race names, each as its own race, and rejects every other text |
| Cli.ParseRaceName | src/main.rs:133-151 | every race's name reads back as that race |
| Cli.RaceNamesDistinct | src/main.rs:139-148 | no two races share a name |
| Cli.ParseEventExactly | src/main.rs:195-217 | `Event::from_str` accepts exactly the twelve event names, each as its own event, and rejects every other text |
| Cli.ParseEventName | src/main.rs:195-217 | every event's name reads back as that event |
| Cli.EventNamesDistinct | src/main.rs:201-214 | no two events share a name |
| Cli.ParseYear | src/main.rs:162-168 | a year parses exactly when the text is a `u16` |
| Cli.YearRoundTrip | src/main.rs:154-168 | every year's `Display` text parses back to that year |
| Cli.YearTextRoundTrip | src/main.rs:154-168 | canonical digits that parse as a year are printed back unchanged |
| Decimal.ParseUnsigned | src/main.rs:165-167 | a successful parse is never above the type's maximum |
| Decimal.ParseU8 | src/ultrasignup.rs:249 | a parsed `u8` is at most 255 |
| Decimal.ParseU16 | src/main.rs:165-167 | a parsed `u16` is at most 65535 |
| Decimal.ParseNonZeroU16 | src/chronotrack.rs:153 | succeeds exactly when the text is a non-zero `u16`, and gives that value |
| Decimal.ParseNonZeroU8 | src/athlinks.rs:195 | succeeds exactly when the text is a non-zero `u8`, and gives that value |
| Decimal.Show | src/main.rs:156-160 | the printed digits have no leading zeros |
| Decimal.ShowValue | src/main.rs:156-160 | the printed digits denote the number printed |
| Decimal.ParseShow | src/main.rs:156-167 | printing a number that fits the type and parsing it gives the number back |
| Decimal.ShowParse | src/main.rs:156-167 | on canonical text, parsing then printing gives the text back |
| Decimal.ShowOfValue | src/main.rs:156-160 | canonical digits are exactly what `Display` prints for their value |
| Decimal.ShowHasNoMarkup | src/chronotrack.rs:191 | printed numbers hold no `<`, `>` or space, so a cell parser stops right after them |
| Nom.Tag | src/chronotrack.rs:171 | `tag(t)` succeeds exactly on input starting with `t` and leaves the rest |
| Nom.TakeUntil | src/chronotrack.rs:143 | a successful `take_until` leaves a suffix of its input |
| Nom.TakeUntilAndConsume | src/main.rs:82-88 | a success leaves a suffix of the input at least as much shorter as the tag |
| Nom.Take | src/main.rs:87 | `take(n)` succeeds exactly when `n` characters remain and splits them off |
| Nom.Multispace0 | src/chronotrack.rs:184 | skips a run of white space and stops before a non-space character |
| Nom.Multispace1 | src/chronotrack.rs:222 | succeeds exactly when the input starts with white space, and then skips like `multispace0` |
| Nom.AsciiByteLen | src/main.rs:85 | `str::len` equals the character count for ASCII tags |
| Nom.TakeUntilSpec | src/chronotrack.rs:143 | `take_until(t)` succeeds exactly when `t` occurs, returning the text before its first occurrence and leaving `t` in place |
| Nom.TakeUntilAndConsumeSpec | src/main.rs:82-88 | for an ASCII tag, succeeds exactly when the tag occurs; the output, the tag and the rest reassemble the input and the tag does not occur earlier |
| Nom.ConsumeOfConcat | src/main.rs:82-88 | on `a + t + b` where `t` does not start inside `a`, returns `a` and leaves `b` |
| Nom.TakeUntilOfConcat | src/chronotrack.rs:143 | on `a + t + b` where `t` does not start inside `a`, returns `a` and leaves `t + b` |
| Nom.Multispace0OfConcat | src/chronotrack.rs:184 | skips exactly a leading white-space run |
| Nom.ManyLoopChain | src/chronotrack.rs:146 | the repetition yields exactly a run of input-shortening successes followed by a failure |
| Nom.Many1Chain | src/chronotrack.rs:146 | `many1` succeeds with `vs` leaving `r` exactly when `p` succeeds once per element, shortening the input each time, and then fails on `r` |
| Nom.Many1OfSteps | src/athlinks.rs:177-179 | successive successes through given segments, then a failure, make `many1` return them all |
| Nom.Many1Fails | src/runsignup.rs:71-73 | for a parser that always consumes, `many1` fails exactly when the first application fails |
| Nom.ManyLoopTotal | src/runsignup.rs:71-73 | a parser that always consumes never trips `many1`'s no-progress guard |
| Text.FindFirstSpec | src/its_your_race.rs:157 | `str::find` returns the first occurrence, and `None` only when there is none |
| Text.FindFirstOfConcat | src/its_your_race.rs:157 | in `a + t + b` the first `t` is right after `a` exactly when `t` does not start inside `a` |
| Text.StripSuffix | src/its_your_race.rs:168 | `strip_suffix` succeeds exactly on texts ending with the suffix, and the result followed by the suffix is the text |
| Text.JoinSplit | src/ultrasignup.rs:193 | joining `split`'s pieces with the separator gives the text back |
| Text.SplitPieces | src/ultrasignup.rs:193 | every piece but the last ends before the first following separator, and the last holds none |
| Text.SplitSingle | src/its_your_race.rs:289-291 | `split` gives one piece exactly when the separator does not occur, and that piece is the whole text |
| Text.SplitOfConcat | src/ultrasignup.rs:193 | splitting `a + sep + b` puts `a` first when the separator does not start inside `a` |
| Text.SplitInTwo | src/ultrasignup.rs:193-196 | a text with exactly one separator splits into the two sides of it |
| Text.SplitTwoPieces | src/ultrasignup.rs:193-200 | a text that splits into two pieces is the first piece, the separator and the second, with only the one separator |
| Text.LastPieceOnChar | src/its_your_race.rs:191 | the last piece of a split on one character is `x` exactly when the text is `x` with no such character, or ends in the character followed by `x` |
| Text.SplitCharCount | src/its_your_race.rs:284-285 | splitting on a character gives one more piece than it has occurrences |
| Text.CountCharConcat | src/its_your_race.rs:284-285 | occurrence counts add up over concatenation |
| Text.CountChar | src/its_your_race.rs:284-285 | the count never exceeds the length, and is zero exactly when the character does not occur |
| Text.RemoveAbsent | src/runsignup.rs:54 | `replace(t, "")` leaves a text without `t` unchanged |
| Text.RemoveOfConcat | src/runsignup.rs:54 | `replace(t, "")` drops the first match and carries on after it |
| Text.RemoveHead | src/runsignup.rs:54 | `replace(t, "")` drops a leading `t` and carries on after it |
| Text.RemoveStep | src/runsignup.rs:54 | a text that does not start with `t` keeps its first character, and the replacement carries on after it |
| Text.RemoveKeepsHead | src/runsignup.rs:54 | a head in which no `t` starts is kept as it is, and the replacement carries on after it |
| Text.RemoveEmpty | src/runsignup.rs:54 | nothing is removed from the empty text |
| Text.TrimEmptyIffBlank | src/ultrasignup.rs:272 | `trim().is_empty()` holds exactly for texts made only of white space |
| Text.TrimEndKeepsFirst | src/ultrasignup.rs:272 | trimming the end keeps a text that starts with a non-space character non-empty, with that first character |
| Chronotrack.Tr | src/chronotrack.rs:168-173 | a successful `tr` shortens the input |
| Chronotrack.Td | src/chronotrack.rs:181-195 | a successful `td` shortens the input |
| Chronotrack.ParsedTd | src/chronotrack.rs:176-178 | a successful `parsed_td` shortens the input |
| Chronotrack.CloseTr | src/chronotrack.rs:197-199 | a successful `close_tr` shortens the input |
| Chronotrack.RowHead | src/chronotrack.rs:151-158 | reading the row tag and the six fixed cells shortens the input |
| Chronotrack.RowTail | src/chronotrack.rs:159-162 | reading the optional and trailing cells and `</tr>` shortens the input |
| Chronotrack.Row | src/chronotrack.rs:150-166 | a successful `placement` shortens the input |
| Chronotrack.RowConsumes | src/chronotrack.rs:146-150 | the row parser always consumes, so `many1` never stops on its guard |
| Chronotrack.TdOfCell | src/chronotrack.rs:181-195 | a rendered cell whose value holds no `<` is read back as that value, leaving what follows the cell |
| Chronotrack.TdOtherName | src/chronotrack.rs:185-186 | a cell for another field is not read as this field's cell |
| Chronotrack.RowHeadOfHtml | src/chronotrack.rs:150-158 | the row tag and the six fixed cells of a rendered row read back as the rank, name, bib, time, pace and hometown |
| Chronotrack.RowTailOfHtml | src/chronotrack.rs:159-162 | the optional age and sex, the division, the division rank and `</tr>` read back, with absent age and sex as `None` |
| Chronotrack.RowOfHtml | src/chronotrack.rs:150-166 | every representable placement, rendered as a row, is read back as itself |
| Chronotrack.PageRowReadsBack | src/chronotrack.rs:150-166 | the page's row layout reads back every representable placement |
| Chronotrack.RowFailsAtTableEnd | src/chronotrack.rs:168-173 | the end of the table body is not a row |
| Chronotrack.TrOfHtml | src/chronotrack.rs:168-173 | a row opening `<tr role="row">` on a new line is read, leaving what follows it |
| Chronotrack.UnreadableAgeSpoilsRow | src/chronotrack.rs:159-161 | an age cell that is present but not a `u8` makes the whole row fail, because `opt` leaves it in place and neither the sex nor the division parser accepts it |
| Chronotrack.UnreadableRankSpoilsRow | src/chronotrack.rs:153 | a rank cell that is not a non-zero `u16` makes the row fail |
| Chronotrack.UnreadableDivisionRankSpoilsRow | src/chronotrack.rs:162 | an `agrank` cell that is not a non-zero `u16` makes the row fail |
| Chronotrack.PlacementsOfRows | src/chronotrack.rs:140-148 | past the results `<tbody>`, `placements` reads the rows one by one and stops at the first text that is not a row |
| Chronotrack.PlacementsSpec | src/chronotrack.rs:140-148 | past the results `<tbody>`, `placements` yields exactly a non-empty run of successive rows after which the row parser fails |
| Chronotrack.PlacementsFailIff | src/chronotrack.rs:140-148 | past the results `<tbody>`, `placements` fails exactly when the first row does |
| Chronotrack.PlacementsOfRendered | src/chronotrack.rs:140-148 | a rendered table of rows that each read back is read back as the list of those rows |
| Chronotrack.PlacementsOfEmptyTable | src/chronotrack.rs:140-148 | a table body without rows yields no placements |
| Chronotrack.PlacementsNeedTable | src/chronotrack.rs:143 | a page without the results `<tbody>` yields no placements |
| Chronotrack.OptionItem | src/chronotrack.rs:216-227 | a successful `option` shortens the input |
| Chronotrack.SelectedOfHtml | src/chronotrack.rs:220-222 | white space then `selected=""` is read exactly when the option carries it |
| Chronotrack.OptionOfHtml | src/chronotrack.rs:216-227 | a rendered `<option>` is read back as its value, its selected flag and its text |
| Chronotrack.OptionsOfHtml | src/chronotrack.rs:204 | a rendered menu's options are read back in order by `many1(option)` |
| Chronotrack.LastWith | src/chronotrack.rs:207-209 | finds the last option with the given text, or reports that none has it |
| Chronotrack.BuildMapSpec | src/chronotrack.rs:203-214 | a text is in the value map exactly when some option has it, and it maps to the last such option's value and flag |
| Chronotrack.ChooseRaceOfMenu | src/chronotrack.rs:29-41 | for a rendered menu: an error when no option has the text, nothing to do when the last such option is selected, otherwise its value |
| Chronotrack.TrailingSpaceSpoilsMenu | src/chronotrack.rs:204 | `all_consuming` rejects a menu with white space after its last option |
| Chronotrack.HasNextPageIff | src/chronotrack.rs:58-69 | there is a next page exactly when the button has a class attribute that does not contain `ui-state-disabled` |
| Chronotrack.MenuItemFor | src/chronotrack.rs:229-240 | exactly the six races with an arm have a menu item |
| Chronotrack.MenuItemsDistinct | src/chronotrack.rs:232-239 | distinct races have distinct menu items |
| Chronotrack.UrlForYear | src/chronotrack.rs:258-265 | only 2017, 2018 and 2019 have an event number, always five digits |
| Chronotrack.ParamsNew | src/chronotrack.rs:248-255 | the year is kept |
| Chronotrack.Url | src/chronotrack.rs:269-278 | the URL is the event prefix followed by the event number `url_for_year` gives the same year, five digits long |
| Chronotrack.ParamsNewSpec | src/chronotrack.rs:248-265 | `new` succeeds exactly for a year with a URL and a race with a menu item; an unknown year is reported whatever the race; the URL built agrees with `url_for_year` |
| Athlinks.CloseElem | src/athlinks.rs:216-218 | `close_elem(n)` leaves a suffix of the input, at least `n` characters shorter |
| Athlinks.CloseElemSucceeds | src/athlinks.rs:216-218 | `close_elem(n)` succeeds exactly when at least `n` `>` remain |
| Athlinks.CloseElemSkips | src/athlinks.rs:216-218 | the text `close_elem(n)` skips holds exactly `n` `>` and ends with one |
| Athlinks.AfterNCloseElements | src/athlinks.rs:220-222 | a success consumes at least `n` characters |
| Athlinks.ParsedAfterN | src/athlinks.rs:224-228 | a success consumes at least `n` characters |
| Athlinks.NameField | src/athlinks.rs:184-191 | a successful name read shortens the input |
| Athlinks.SexField | src/athlinks.rs:192 | a successful sex read shortens the input |
| Athlinks.BibField | src/athlinks.rs:197 | a successful bib read shortens the input |
| Athlinks.TimeField | src/athlinks.rs:203-210 | a successful time read shortens the input |
| Athlinks.AgeField | src/athlinks.rs:193-196 | the optional age consumes input exactly when it yields an age |
| Athlinks.PlacementItem | src/athlinks.rs:181-214 | a successful `placement` shortens the input |
| Athlinks.PlacementsNeedName | src/athlinks.rs:187 | a page without a name element has no placements |
| Athlinks.PlacementsSpec | src/athlinks.rs:177-179 | `placements` yields exactly a non-empty run of successive placements after which `placement` fails |
| Athlinks.UnreadableRankSpoils | src/athlinks.rs:199 | a rank that is not a non-zero `u16` makes the placement fail |
| Athlinks.UnreadableGenderRankSpoils | src/athlinks.rs:200 | a gender rank that is not a non-zero `u16` makes the placement fail |
| Athlinks.UnreadableDivisionRankSpoils | src/athlinks.rs:201 | a division rank that is not a non-zero `u16` makes the placement fail |
| Athlinks.CloseElemOfGaps | src/athlinks.rs:216-218 | `close_elem(n)` skips exactly `n` empty elements |
| Athlinks.AfterNOfHtml | src/athlinks.rs:220-222 | the text after `n` empty elements is read up to the next tag |
| Athlinks.ParsedOfHtml | src/athlinks.rs:224-228 | after `n` empty elements, text without `<` is read by the given parser, leaving the next tag |
| Athlinks.RankOfHtml | src/athlinks.rs:199-202 | a rank printed after `n` empty elements reads back as that non-zero rank |
| Athlinks.NameOfHtml | src/athlinks.rs:184-191 | the name is the text of the first name element |
| Athlinks.SexOfHtml | src/athlinks.rs:192 | the sex is the one character after four closing brackets |
| Athlinks.AgeOfHtml | src/athlinks.rs:193-196 | a rendered age reads back, and an absent age leaves the input untouched |
| Athlinks.BibOfHtml | src/athlinks.rs:197 | the bib is the text after `Bib ` |
| Athlinks.TimeOfHtml | src/athlinks.rs:203-210 | the time is the text after the comment's `-->`, read as a duration |
| Athlinks.RanksOfHtml | src/athlinks.rs:199-202 | the three ranks and the pace read back after 7, 2, 2 and 4 closing brackets |
| Athlinks.PlacementOfHtml | src/athlinks.rs:181-214 | a representable placement laid out after text without a name element reads back as itself |
| Athlinks.PagePlacementReadsBack | src/athlinks.rs:181-214 | the page layout of representable placements reads back |
| Athlinks.SkipLead | src/athlinks.rs:187 | text before the first name element does not change what `placement` reads |
| Athlinks.PlacementsOfPage | src/athlinks.rs:177-179 | `placements` reads back every placement of a page in order, stopping at a tail without a further name element |
| Athlinks.NextButton | src/athlinks.rs:102-107 | the result is missing, a panic on `unwrap`, exactly when there is no button |
| Athlinks.NextButtonIff | src/athlinks.rs:102-107 | paging goes on exactly when the last button reads `&gt;` |
| Athlinks.ParamsNew | src/athlinks.rs:30-38 | an event other than rftz or lt100 is always refused as not athlinks, and an error for any other event names it as not athlinks |
| Athlinks.ParamsNewSpec | src/athlinks.rs:30-72 | `new` succeeds exactly for 2019 and a race the event offers, with that race's index and the event's URL; a wrong event is refused first (`NotAthlinks`), then a wrong year (`UnsupportedYear`), then, in 2019, a race the event does not offer (`UnsupportedRace`) |
| Runsignup.PlacementItem | src/runsignup.rs:77-100 | a successful `placement` shortens the input |
| Runsignup.PlaceField | src/runsignup.rs:80-87 | a successful place read shortens the input |
| Runsignup.NameField | src/runsignup.rs:88-92 | a successful name read leaves a suffix no longer than its input |
| Runsignup.TimeField | src/runsignup.rs:93-96 | a successful time read leaves a suffix no longer than its input |
| Runsignup.PlacementsSpec | src/runsignup.rs:71-73 | `placements` returns exactly a run of input-shortening placements followed by a failing one |
| Runsignup.PlacementsNeedRow | src/runsignup.rs:83 | a page without a result row has no placements |
| Runsignup.StripBoldPart | src/runsignup.rs:54 | a name with one bold part loses exactly the `<b>` and `</b>` around it |
| Runsignup.StripBoldLast | src/runsignup.rs:54 | a name ending in its bold part loses exactly the two tags |
| Runsignup.StripBoldPlain | src/runsignup.rs:54 | a name without tags is kept as it is |
| Runsignup.StripBoldAllTags | src/runsignup.rs:54 | a name whose every `<` opens a `<b>` or a `</b>` comes out with no `<` left |
| Runsignup.DropOpeningTags | src/runsignup.rs:54 | the first `replace` leaves only `</b>` tags in such a name |
| Runsignup.DropClosingTags | src/runsignup.rs:54 | the second `replace` leaves no `<` in a text whose only tags are `</b>` |
| Runsignup.StripBoldCanLeaveTag | src/runsignup.rs:54 | the two passes can join the halves of a split tag: `<b</b>>` comes out as `<b>` |
| Runsignup.PlaceOfRow | src/runsignup.rs:80-87 | the place is the text between the place cell's opening and the next tag |
| Runsignup.NameOfRow | src/runsignup.rs:88-92 | the raw name is the text between the name cell's opening and `</td>` |
| Runsignup.TimeOfRow | src/runsignup.rs:93-96 | the clock time is the duration read from the text after `class="time">` |
| Runsignup.PlacementOfRow | src/runsignup.rs:77-100 | a row reads back as its place, its name without bold tags and its clock time |
| Runsignup.SamplePlacement | src/runsignup.rs:75 | the sample row in the source reads as place `1`, name `Rickey Gates` and the duration of `3:56:44` |
| Runsignup.SampleNameStripped | src/runsignup.rs:54 | the sample name loses its bold tags |
| Runsignup.ParamsNew | src/runsignup.rs:23-29 | The Quad is accepted for 2020 only, and any other year is reported |
| Ultrasignup.ParseStatusExactly | src/ultrasignup.rs:157-172 | `Status::from_str` accepts exactly the five labels, each as its own status |
| Ultrasignup.ParseStatusLabel | src/ultrasignup.rs:163-169 | every status's label reads back as that status |
| Ultrasignup.LabelHasNoDash | src/ultrasignup.rs:163-169 | no label contains a dash, so none contains the header separator |
| Ultrasignup.ParseHeader | src/ultrasignup.rs:187-203 | a parsed count fits a `u16` |
| Ultrasignup.ParseHeaderOfPieces | src/ultrasignup.rs:193-201 | with exactly one separator, a bad label is reported before a bad count, and the header parses exactly when both parts do |
| Ultrasignup.WrongNumberOfPiecesIff | src/ultrasignup.rs:193-196 | a header is rejected for its pieces exactly when it is not a head, one ` - ` and a count without another |
| Ultrasignup.ParsedHeader | src/ultrasignup.rs:187-203 | a parsed header is its status label, the separator and the digits of its count |
| Ultrasignup.HeaderRoundTrip | src/ultrasignup.rs:187-203 | every header with a `u16` count reads back from its text |
| Ultrasignup.OptionalString | src/ultrasignup.rs:271-277 | no value exactly for a blank cell; otherwise the cell untrimmed |
| Ultrasignup.TimeCell | src/ultrasignup.rs:236-246 | a blank time is zero, a readable time is its duration, and only the known glitch is repaired; any other failure names the cell |
| Ultrasignup.AgeCell | src/ultrasignup.rs:249 | the age is a non-zero `u8`; a zero age is told apart from an unreadable one |
| Ultrasignup.PlacementCells | src/ultrasignup.rs:235-263 | the placement is built from the cells in order, and it fails exactly when the time, age, gp or rank fails to read |
| Ultrasignup.FromCells | src/ultrasignup.rs:222-265 | a one-cell row is a status or an error, a row of 2 to 10 cells or with a non-numeric place is skipped; a row of 11 or more cells with a numeric place is the placement its cells give, or their error, which aborts the collection |
| Ultrasignup.PlacementRoundTrip | src/ultrasignup.rs:233-263 | every showable placement reads back from its row's cells |
| Ultrasignup.ExtendPanics | src/ultrasignup.rs:286-291 | grouping panics with "no status" exactly when a placement comes before any header |
| Ultrasignup.ExtendKeepsOrder | src/ultrasignup.rs:282-293 | the groups' headers are the earlier ones then the rows' headers, and their placements are the earlier ones then the rows' placements, in order |
| Ultrasignup.GroupsOfRows | src/ultrasignup.rs:282-293 | starting from nothing, there is one group per header, and all placements are kept in order |
| Ultrasignup.CollectSpec | src/ultrasignup.rs:125-136 | with no error the kept rows are grouped; otherwise the first error ends the collection, unless the grouping already panicked |
| Ultrasignup.FindLink | src/ultrasignup.rs:67-94 | a link found has the wanted text; not-found names the value |
| Ultrasignup.FindLinkFirst | src/ultrasignup.rs:67-94 | the link found is the first whose text is the value or fails; not-found happens exactly when every text reads and none is the value |
| Ultrasignup.ParamsNewSpec | src/ultrasignup.rs:27-58 | exactly the four ultrasignup events are accepted, whatever the year; the year text reads back as the year; a race link is chosen exactly for JJ100 in 2013 and 2018 ("100 Miler"), DPTR in 2013 ("50 Miler") and 2020 ("53 Miler"), and Bosque Bigfoot ("50K") |
| Ultrasignup.EventIdsDistinct | src/ultrasignup.rs:31-51 | distinct events have distinct event ids |
| Ultrasignup.Url | src/ultrasignup.rs:114-116 | the URL is the registration page followed by the event id's digits |
| ItsYourRace.NameAndBib | src/its_your_race.rs:150-164 | the only failures are "not two pieces" and "no closing paren" |
| ItsYourRace.NameAndBibOf | src/its_your_race.rs:150-164 | a name, ` (# `, a bib and `)` read as that name and bib |
| ItsYourRace.NotTwoPiecesIff | src/its_your_race.rs:152-156 | the cell is refused for its pieces exactly when it is not a name, one ` (# ` and a remainder without another |
| ItsYourRace.PaceOf | src/its_your_race.rs:166-175 | a pace not ending in `/mile` is reported, and that is the only reported pace failure |
| ItsYourRace.PaceOfMile | src/its_your_race.rs:166-175 | a pace is read from the text before `/mile` |
| ItsYourRace.Cell | src/its_your_race.rs:133-137 | a cell reads exactly when it is present |
| ItsYourRace.PlacementOf | src/its_your_race.rs:147-183 | a row reads exactly when every cell reads, in rank, name and bib, time, pace order, and the reported failures name the text at fault |
| ItsYourRace.PlacementRoundTrip | src/its_your_race.rs:147-183 | every placement the page can show reads back from its cells |
| ItsYourRace.FateSpec | src/its_your_race.rs:184-199 | a row that reads is emitted; a failed row is dropped silently exactly when its text's last line is `DNF` or `TIME`, and is reported as discarded otherwise |
| ItsYourRace.LastLineIs | src/its_your_race.rs:191 | a text's last line is `x` exactly when the text is `x` or ends in a newline followed by `x` |
| ItsYourRace.QuietTextIff | src/its_your_race.rs:191-193 | the silent drop happens exactly for texts that are, or end in a line that is, `DNF` or `TIME` |
| ItsYourRace.PagePlacements | src/its_your_race.rs:58-67 | a page prints at most one placement per row |
| ItsYourRace.PagePlacementsAreReads | src/its_your_race.rs:58-67 | a page prints exactly the placements of the rows that read, in order |
| ItsYourRace.NameBibHometown | src/its_your_race.rs:282-311 | a cell without exactly one newline is refused for that reason, and that is the only way it is |
| ItsYourRace.TwoLines | src/its_your_race.rs:284-288 | two lines without newlines, joined by one, split back into those two lines |
| ItsYourRace.WithoutBib | src/its_your_race.rs:289-291 | a cell without a bib reads as the name, an empty bib and the hometown |
| ItsYourRace.WithBib | src/its_your_race.rs:292-305 | a cell with one bib reads as the name before it, the bib and the hometown |
| ItsYourRace.TwoBibs | src/its_your_race.rs:306-309 | a first line with two bib marks is refused |
| ItsYourRace.ParticipantOf | src/its_your_race.rs:279-321 | a participant is read exactly when the second to fourth cells are readable and the second splits into name, bib and hometown; it comes from those cells; a failure to split is the row's failure, and any other failure is a missing cell |
| ItsYourRace.FirstCellIgnored | src/its_your_race.rs:281 | the first cell is never read |
| ItsYourRace.PopUpSelect | src/its_your_race.rs:203-230 | the menu must appear; the label selected is the first one that selects; failure happens exactly when none does |
| ItsYourRace.NextButton | src/its_your_race.rs:80-89 | only a missing element ends paging, and any other lookup error is an error |
| ItsYourRace.LoopEndsOnMissingButton | src/its_your_race.rs:91-102 | the placements loop ends normally only on a missing next button, and other lookup errors end it with that error |
| ItsYourRace.ParamsNewSpec | src/its_your_race.rs:30-53 | only BMDM with the solo male heavy race is accepted, with its two menu labels in the order they are tried ("CIVILIAN Male Heavy" for 2016 first, then "Individual CIVILIAN Male Heavy"), and the year and participant switch kept; a wrong event is reported before a wrong race |
| ItsYourRace.YearLabels | src/its_your_race.rs:232-236 | the year is chosen by one label, its decimal text, which reads back as the year |
| ItsYourRace.Url | src/its_your_race.rs:250-255 | the URL is the results page followed by the event id's digits |
| Pagination.PaginateSpec | src/chronotrack.rs:71-82 | the loop clicks through exactly the pages it passes and gets one successful `print_placements` batch per click plus the stopping page's when that call succeeds; the batches are the pages' own, in order; it ends as the stopping page makes it |
| Pagination.PrintedOneMoreThanClicked | src/athlinks.rs:109-120 | when no next button is found, `print_placements` has returned `Ok` once more than the button was clicked (a page is printed only when its placements also parse) |
| Pagination.FirstStop | src/its_your_race.rs:91-102 | the first page not clicked through is where the loop stops |
| Pagination.ExtractPlacements | src/chronotrack.rs:71-82 | the do-while loop computes the same run as the page-by-page definition |

## Left out

- Browser I/O is not modelled, because it happens outside the program's logic:
  - WebDriver sessions, waits, clicks and `really_click`;
  - the `tokio` sleep and the browser set-up in `main`;
  - `print_placements`'s `println!` and the JSON encoding.

  Pages, cell texts, lookup results and click results are parameters.
- Nom.TakeUntilAndConsumeSpec: proved only for ASCII tags. `take_until_and_consume` computes `len()` in bytes but `take` counts characters. `Nom.TakeUntilAndConsume` models this mismatch exactly, and every tag the scrapers use is ASCII.
- Durations and `f32` are parameters (`dur`, `Readers.float`) because they are parsed by other crates. The round-trip lemmas assume `dur` reads back the text they render.
- nom's distinction between `Error` and `Failure` is dropped, because none of the parsers here produces a `Failure`.
- Nom.ManyLoop: merges nom's infinite-loop guard with its "a success returned a longer rest" case. The second cannot happen for a parser that returns a suffix of its input.
- `clap`'s `ValueEnum` parsing of the command line is not modelled, because it is derived code in another crate. Cli.ParseRace and Cli.ParseEvent model the hand-written `FromStr` impls (src/main.rs:133-151 and 195-217), which the command line does not use: `--race` takes variant names such as `ten-k`, so "10k", which `Race::from_str` accepts, is not an accepted `--race` value. Cli.ParseYear is the year's actual command-line parser.
- `menu_item_for` in the Chronotrack scraper has no arms for `TenKRuck` and `SoloMaleHeavy`, so as written the match is not exhaustive. Chronotrack.MenuItemFor gives those two races no menu item, and Chronotrack.ParamsNew reports them as unsupported.
- The site scrapers match on year variants (`Y2013`, `Y2019`, `Y2020`), but `Year` in `main.rs` is a `u16` tuple struct. The model compares the year's number.
- `main.rs` declares no `runsignup` module, so that scraper is modelled but is never dispatched to.
- Athlinks `click_view_all`'s `remove(index)` on the list of links is not modelled. Only the index that `Params::new` chooses is.
- It's Your Race: when the row list cannot be fetched in `print_placements`, the loop just ends with that error, which is already covered by the page's `extract` result.
- The numeric discriminants of `Status` are never read by the program and are not modelled.
- Runsignup.StripBold: models the two `replace` calls as written, which do not remove every bold tag: a `</b>` inside a `<b>` is removed only after the `<b>` pass, so the halves join into a new `<b>` (Runsignup.StripBoldCanLeaveTag). What is proved instead is that no `<` is left when every `<` opens a bold tag (Runsignup.StripBoldAllTags).
- Runsignup.Url is a constant: nothing is stated about it beyond its value.
- Pagination: the sequence of pages is finite, and running out of pages while a next button is still offered is a separate ending (`OutOfPages`) that the real loop never reaches.
