/**
 * src/athlinks.rs: results pages on www.athlinks.com.  A placement is not
 * read from a table but from a run of markup, by skipping to fixed
 * landmarks (`<div class="athName"`, `Bib `, `-->`) and counting closing
 * `>` characters between the fields.
 *
 * Durations are read by the parameter `dur`, as in the Chronotrack model.
 */
module Athlinks {
  import opened Wrappers
  import opened Text
  import opened Nom
  import Decimal
  import Cli

  /** `struct Placement`. */
  datatype Placement<D> = Placement(
    name: string,
    sex: string,
    age: Option<nat>,
    bib: string,
    hometown: string,
    rank: nat,
    genderRank: nat,
    divisionRank: nat,
    pace: D,
    time: D)

  /** The opening of the element that holds a runner's name. */
  const NameTag := "<div class=" + "\"athName\""

  // ---------------------------------------------------------------------
  // Counting closing brackets

  /** `close_elem(n)`: exactly `n` successive runs of text, each up to and through a `>`. */
  function CloseElem(n: nat, s: string): (r: Option<string>)
    ensures r.Some? ==> Rest(r.value, s) && |r.value| + n <= |s|
    decreases n
  {
    if n == 0 then Some(s)
    else
      var m :- TakeUntilAndConsume(">", s);
      CloseElem(n - 1, m.1)
  }

  /** `after_n_close_elements(n)`: the text after the `n`-th `>` up to the next `<`. */
  function AfterNCloseElements(n: nat, s: string): (r: Option<(string, string)>)
    ensures r.Some? ==> |r.value.1| + n <= |s|
  {
    var after :- CloseElem(n, s);
    TakeUntil("<", after)
  }

  /** `parsed_after_n_close_elements(n)`: that text, read by `parse`. */
  function ParsedAfterN<O>(n: nat, parse: string -> Option<O>, s: string): (r: Option<(O, string)>)
    ensures r.Some? ==> |r.value.1| + n <= |s|
  {
    var m :- AfterNCloseElements(n, s);
    var v :- parse(m.0);
    Some((v, m.1))
  }

  /** Without a `>` there is no `>`-terminated run. */
  lemma CloseStepNone(s: string)
    requires TakeUntilAndConsume(">", s).None?
    ensures CountChar(s, '>') == 0
  {
    TakeUntilAndConsumeSpec(">", s);
    CharContains(s, '>');
  }

  /** One `>`-terminated run: what comes before the first `>` holds none, and the count drops by one. */
  lemma CloseStep(s: string, m: (string, string))
    requires TakeUntilAndConsume(">", s) == Some(m)
    ensures '>' !in m.0 && s == m.0 + (">" + m.1) && CountChar(s, '>') == 1 + CountChar(m.1, '>')
  {
    TakeUntilAndConsumeSpec(">", s);
    assert s == m.0 + (">" + m.1);
    NoCharBefore(s, m.0, '>');
    CountCharConcat(m.0, ">" + m.1, '>');
    CountCharConcat(">", m.1, '>');
  }

  /** Past one `>`, one `>` fewer remains. */
  lemma CloseStepCount(s: string, m: (string, string))
    requires TakeUntilAndConsume(">", s) == Some(m)
    ensures CountChar(s, '>') == 1 + CountChar(m.1, '>')
  {
    CloseStep(s, m);
  }

  /** Past one `>`, `close_elem(n)` goes on as `close_elem(n - 1)`. */
  lemma CloseElemStep(n: nat, s: string, m: (string, string))
    requires n > 0 && TakeUntilAndConsume(">", s) == Some(m)
    ensures CloseElem(n, s) == CloseElem(n - 1, m.1)
  {
  }

  /** `close_elem(n)` succeeds exactly when at least `n` `>` remain. */
  lemma CloseElemSucceeds(n: nat, s: string)
    ensures CloseElem(n, s).Some? <==> CountChar(s, '>') >= n
    decreases n
  {
    if n > 0 {
      match TakeUntilAndConsume(">", s)
      case None =>
        CloseStepNone(s);
        assert CloseElem(n, s).None?;
      case Some(m) =>
        CloseStepCount(s, m);
        CloseElemStep(n, s, m);
        CloseElemSucceeds(n - 1, m.1);
    }
  }

  /** The text `close_elem(n)` skips, `p`, holds exactly `n` `>` and ends with one. */
  lemma {:induction false} CloseElemSkips(n: nat, s: string, p: string, v: string)
    requires CloseElem(n, s) == Some(v)
    requires s == p + v
    ensures CountChar(p, '>') == n
    ensures n == 0 ==> p == []
    ensures n > 0 ==> |p| > 0 && p[|p| - 1] == '>'
    decreases n
  {
    if n > 0 {
      var m := TakeUntilAndConsume(">", s).value;
      SkipsFirstRun(n, s, p, v, m);
      var q := m.1[..|m.1| - |v|];
      CloseElemSkips(n - 1, m.1, q, v);
      SkipsCount(m.0, q, p, n - 1);
    } else {
      assert |p| == 0;
    }
  }

  /** The first run `close_elem(n)` skips, and the rest it leaves to `close_elem(n - 1)`. */
  lemma SkipsFirstRun(n: nat, s: string, p: string, v: string, m: (string, string))
    requires n > 0 && CloseElem(n, s) == Some(v) && s == p + v
    requires TakeUntilAndConsume(">", s) == Some(m)
    ensures CloseElem(n - 1, m.1) == Some(v) && |v| <= |m.1|
    ensures m.1 == m.1[..|m.1| - |v|] + v && p == m.0 + (">" + m.1[..|m.1| - |v|]) && '>' !in m.0
  {
    CloseElemStep(n, s, m);
    SkipsSplit(s, m, p, m.1[..|m.1| - |v|], v);
  }

  /** Past the first run, the skipped text is that run and the rest's skipped text. */
  lemma SkipsSplit(s: string, m: (string, string), p: string, q: string, v: string)
    requires TakeUntilAndConsume(">", s) == Some(m) && s == p + v
    requires Rest(v, m.1) && q == m.1[..|m.1| - |v|]
    ensures m.1 == q + v && p == m.0 + (">" + q) && '>' !in m.0
  {
    CloseStep(s, m);
    SuffixSplit(m.1, q, v);
    Regroup(m.0, ">", q, v);
    CancelRight(p, m.0 + (">" + q), v);
  }

  /** A run without `>` closed by one, then text with `k` of them ending in one, holds `k + 1`. */
  lemma SkipsCount(out: string, q: string, p: string, k: nat)
    requires '>' !in out && p == out + (">" + q) && CountChar(q, '>') == k
    requires k == 0 ==> q == []
    requires k > 0 ==> |q| > 0 && q[|q| - 1] == '>'
    ensures CountChar(p, '>') == k + 1 && |p| > 0 && p[|p| - 1] == '>'
  {
    assert ">" == ['>'];
    RunCount(out, '>', q);
  }

  /** No occurrence of a one-character text starts inside `out` means the character is not in `out`. */
  lemma NoCharBefore(s: string, out: string, c: char)
    requires |out| <= |s| && s[..|out|] == out
    requires forall j :: 0 <= j < |out| ==> !OccursAt(s, [c], j)
    ensures c !in out
  {
    forall j | 0 <= j < |out|
      ensures out[j] != c
    {
      assert out[j] == s[j];
      assert !OccursAt(s, [c], j);
      assert s[j..j + 1] == [s[j]];
    }
  }

  // ---------------------------------------------------------------------
  // The fields of a placement

  /** The name: skip to the name element, through its `>`, and take the text up to `<`. */
  function NameField(s: string): (r: Option<(string, string)>)
    ensures r.Some? ==> |r.value.1| < |s|
  {
    var atName :- TakeUntil(NameTag, s);
    var inName :- TakeUntilAndConsume(">", atName.1);
    TakeUntil("<", inName.1)
  }

  /** The sex: one character after four more closing brackets. */
  function SexField(s: string): (r: Option<(string, string)>)
    ensures r.Some? ==> |r.value.1| < |s|
  {
    var after :- CloseElem(4, s);
    Take(1, after)
  }

  /** The age text: a space and the text up to `<`, read as a nonzero `u8`. */
  function AgeText(s: string): (r: Option<(nat, string)>)
    ensures r.Some? ==> |r.value.1| < |s|
  {
    var afterSpace :- Tag(" ", s);
    var m :- TakeUntil("<", afterSpace);
    var age :- Decimal.ParseNonZeroU8(m.0);
    Some((age, m.1))
  }

  /** `opt(...)` around the age: a missing or unreadable age is `None` and consumes nothing. */
  function AgeField(s: string): (r: (Option<nat>, string))
    ensures r.0.None? <==> r.1 == s
  {
    match AgeText(s)
    case Some(m) => (Some(m.0), m.1)
    case None => (None, s)
  }

  /** The bib: the text after the next `Bib ` up to `<`. */
  function BibField(s: string): (r: Option<(string, string)>)
    ensures r.Some? ==> |r.value.1| < |s|
  {
    var afterBib :- TakeUntilAndConsume("Bib ", s);
    TakeUntil("<", afterBib.1)
  }

  /** The time: the text after the next `-->` up to `<`, read by `dur`. */
  function TimeField<D>(dur: string -> Option<D>, s: string): (r: Option<(D, string)>)
    ensures r.Some? ==> |r.value.1| < |s|
  {
    var afterComment :- TakeUntilAndConsume("-->", s);
    var m :- TakeUntil("<", afterComment.1);
    var time :- dur(m.0);
    Some((time, m.1))
  }

  /** `placement`: the name, then the nine fields after it. */
  function PlacementItem<D>(dur: string -> Option<D>, s: string): (r: Option<(Placement<D>, string)>)
    ensures r.Some? ==> |r.value.1| < |s|
  {
    var name :- NameField(s);
    AfterName(dur, name.0, name.1)
  }

  /** The fields of a placement after its name, in order. */
  function AfterName<D>(dur: string -> Option<D>, name: string, s: string): (r: Option<(Placement<D>, string)>)
    ensures r.Some? ==> |r.value.1| < |s|
  {
    var sex :- SexField(s);
    var age := AgeField(sex.1);
    var bib :- BibField(age.1);
    var hometown :- AfterNCloseElements(3, bib.1);
    var rank :- ParsedAfterN(7, Decimal.ParseNonZeroU16, hometown.1);
    var genderRank :- ParsedAfterN(2, Decimal.ParseNonZeroU16, rank.1);
    var divisionRank :- ParsedAfterN(2, Decimal.ParseNonZeroU16, genderRank.1);
    var pace :- ParsedAfterN(4, dur, divisionRank.1);
    var time :- TimeField(dur, pace.1);
    Some((Placement(name, sex.0, age.0, bib.0, hometown.0, rank.0, genderRank.0, divisionRank.0, pace.0, time.0),
          time.1))
  }

  function PlacementParser<D>(dur: string -> Option<D>): Parser<Placement<D>> {
    s => PlacementItem(dur, s)
  }

  /** `placements`: one or more placements. */
  function Placements<D>(dur: string -> Option<D>, page: string): Option<(seq<Placement<D>>, string)> {
    Many1(PlacementParser(dur), page)
  }

  /**
   * `placements` needs at least one placement and stops at the first one
   * that fails: its result is a run of successive placements, each one
   * consuming text, after which `placement` fails.
   */
  lemma PlacementsSpec<D>(dur: string -> Option<D>, page: string, ps: seq<Placement<D>>, r: string)
    ensures Placements(dur, page) == Some((ps, r)) <==>
      && |ps| >= 1
      && Chain(PlacementParser(dur), page, ps, r)
      && PlacementItem(dur, r).None?
  {
    var p := PlacementParser(dur);
    Many1Chain(p, page, ps, r);
    if |ps| >= 1 && p(page).Some? {
      assert Chain(p, page, ps, r) <==>
        p(page).value.0 == ps[0] && Chain(p, p(page).value.1, ps[1..], r);
    }
  }

  /** The text where the ranks start, once the sex, age, bib and hometown have been read. */
  function BeforeRanks(s: string): Option<string> {
    var sex :- SexField(s);
    var bib :- BibField(AgeField(sex.1).1);
    var hometown :- AfterNCloseElements(3, bib.1);
    Some(hometown.1)
  }

  /** A rank that is not a non-zero `u16` spoils the placement. */
  lemma UnreadableRankSpoils<D>(dur: string -> Option<D>, s: string, name: string, s0: string,
                                x: string, t: string, y: string)
    requires NameField(s) == Some((name, s0)) && BeforeRanks(s0) == Some(x)
    requires AfterNCloseElements(7, x) == Some((t, y)) && Decimal.ParseNonZeroU16(t).None?
    ensures PlacementItem(dur, s).None?
  {
    var sex := SexField(s0).value;
    var bib := BibField(AgeField(sex.1).1).value;
    assert AfterNCloseElements(3, bib.1).value.1 == x;
    assert PlacementItem(dur, s) == AfterName(dur, name, s0);
    assert ParsedAfterN(7, Decimal.ParseNonZeroU16, x).None?;
  }

  /** A gender rank that is not a non-zero `u16` spoils the placement. */
  lemma UnreadableGenderRankSpoils<D>(dur: string -> Option<D>, s: string, name: string, s0: string,
                                      x: string, rank: nat, y: string, t: string, z: string)
    requires NameField(s) == Some((name, s0)) && BeforeRanks(s0) == Some(x)
    requires ParsedAfterN(7, Decimal.ParseNonZeroU16, x) == Some((rank, y))
    requires AfterNCloseElements(2, y) == Some((t, z)) && Decimal.ParseNonZeroU16(t).None?
    ensures PlacementItem(dur, s).None?
  {
    var sex := SexField(s0).value;
    var bib := BibField(AgeField(sex.1).1).value;
    assert AfterNCloseElements(3, bib.1).value.1 == x;
    assert PlacementItem(dur, s) == AfterName(dur, name, s0);
    assert ParsedAfterN(2, Decimal.ParseNonZeroU16, y).None?;
  }

  /** A division rank that is not a non-zero `u16` spoils the placement. */
  lemma UnreadableDivisionRankSpoils<D>(dur: string -> Option<D>, s: string, name: string, s0: string,
                                        x: string, rank: nat, y: string, genderRank: nat, z: string,
                                        t: string, w: string)
    requires NameField(s) == Some((name, s0)) && BeforeRanks(s0) == Some(x)
    requires ParsedAfterN(7, Decimal.ParseNonZeroU16, x) == Some((rank, y))
    requires ParsedAfterN(2, Decimal.ParseNonZeroU16, y) == Some((genderRank, z))
    requires AfterNCloseElements(2, z) == Some((t, w)) && Decimal.ParseNonZeroU16(t).None?
    ensures PlacementItem(dur, s).None?
  {
    var sex := SexField(s0).value;
    var bib := BibField(AgeField(sex.1).1).value;
    assert AfterNCloseElements(3, bib.1).value.1 == x;
    assert PlacementItem(dur, s) == AfterName(dur, name, s0);
    assert ParsedAfterN(2, Decimal.ParseNonZeroU16, z).None?;
  }

  /** A page without a name element has no placements. */
  lemma PlacementsNeedName<D>(dur: string -> Option<D>, page: string)
    requires !Contains(page, NameTag)
    ensures Placements(dur, page).None?
  {
    TakeUntilSpec(NameTag, page);
  }

  // ---------------------------------------------------------------------
  // Reading back a rendered placement

  /** `n` empty elements, each contributing one `>`. */
  function Gaps(n: nat): (g: string)
    ensures n > 0 ==> |g| > 0 && g[0] == '<'
  {
    if n == 0 then "" else "<i>" + Gaps(n - 1)
  }

  /** `close_elem(n)` skips exactly `n` empty elements. */
  lemma {:induction false} CloseElemOfGaps(n: nat, x: string)
    ensures CloseElem(n, Gaps(n) + x) == Some(x)
  {
    if n > 0 {
      GapStep(n, x);
      CloseElemStep(n, Gaps(n) + x, ("<i", Gaps(n - 1) + x));
      CloseElemOfGaps(n - 1, x);
    }
  }

  /** The first `>` of `n` empty elements closes the first of them. */
  lemma GapStep(n: nat, x: string)
    requires n > 0
    ensures TakeUntilAndConsume(">", Gaps(n) + x) == Some(("<i", Gaps(n - 1) + x))
  {
    assert Gaps(n) + x == "<i" + (">" + (Gaps(n - 1) + x));
    assert ">" == ['>'];
    ConsumeCharOfConcat("<i", '>', Gaps(n - 1) + x);
  }

  lemma AfterNOfHtml(n: nat, v: string, x: string)
    requires '<' !in v && |x| > 0 && x[0] == '<'
    ensures AfterNCloseElements(n, Gaps(n) + (v + x)) == Some((v, x))
  {
    CloseElemOfGaps(n, v + x);
    TakeUntilToTag(v, x);
  }

  lemma ParsedOfHtml<O>(n: nat, parse: string -> Option<O>, v: string, o: O, x: string)
    requires '<' !in v && |x| > 0 && x[0] == '<' && parse(v) == Some(o)
    ensures ParsedAfterN(n, parse, Gaps(n) + (v + x)) == Some((o, x))
  {
    AfterNOfHtml(n, v, x);
  }

  lemma NameTagOpen()
    ensures '>' !in NameTag
  {
  }

  lemma NameSteps(s: string, atName: (string, string), inName: (string, string), name: (string, string))
    requires TakeUntil(NameTag, s) == Some(atName)
    requires TakeUntilAndConsume(">", atName.1) == Some(inName)
    requires TakeUntil("<", inName.1) == Some(name)
    ensures NameField(s) == Some(name)
  {
  }

  lemma NameOfHtml(lead: string, name: string, x: string)
    requires FirstAt(lead, NameTag) && '<' !in name && |x| > 0 && x[0] == '<'
    ensures NameField(lead + (NameTag + (">" + (name + x)))) == Some((name, x))
  {
    var rest := NameTag + (">" + (name + x));
    TakeUntilOfConcat(lead, NameTag, ">" + (name + x));
    NameTagOpen();
    ConsumeCharOfConcat(NameTag, '>', name + x);
    TakeUntilToTag(name, x);
    NameSteps(lead + rest, (lead, rest), (NameTag, name + x), (name, x));
  }

  lemma SexOfHtml(sex: string, x: string)
    requires |sex| == 1
    ensures SexField(Gaps(4) + (sex + x)) == Some((sex, x))
  {
    CloseElemOfGaps(4, sex + x);
    assert (sex + x)[..1] == sex && (sex + x)[1..] == x;
  }

  /** The age as rendered: a space and its digits, or nothing. */
  function AgeHtml(age: Option<nat>): string {
    match age
    case Some(a) => " " + Decimal.Show(a)
    case None => ""
  }

  lemma AgeOfHtml(age: Option<nat>, x: string)
    requires age.Some? ==> 1 <= age.value <= Decimal.U8_MAX
    requires |x| > 0 && x[0] == '<'
    ensures AgeField(AgeHtml(age) + x) == (age, x)
  {
    match age
    case Some(a) =>
      Decimal.ShowHasNoMarkup(a);
      assert AgeHtml(age) + x == " " + (Decimal.Show(a) + x);
      TagOfConcat(" ", Decimal.Show(a) + x);
      TakeUntilToTag(Decimal.Show(a), x);
      Decimal.ParseShow(a, Decimal.U8_MAX);
    case None =>
      assert AgeHtml(age) + x == x;
  }

  lemma BibOfHtml(bib: string, x: string)
    requires '<' !in bib && |x| > 0 && x[0] == '<'
    ensures BibField("<i>" + ("Bib " + (bib + x))) == Some((bib, x))
  {
    assert IsAscii("Bib ");
    FirstAtByHead("<i>", "Bib ");
    ConsumeOfConcat("<i>", "Bib ", bib + x);
    TakeUntilToTag(bib, x);
  }

  /** The first `-->` in a rendered comment is its end. */
  lemma CommentEnd()
    ensures FirstAt("<!-- ", "-->")
  {
    var s := "<!-- " + "-->";
    forall j | 0 <= j < 5
      ensures !OccursAt(s, "-->", j)
    {
      assert s[j..j + 3][2] == s[j + 2];
      assert s[j + 2] != '>';
    }
  }

  lemma TimeOfHtml<D>(dur: string -> Option<D>, t: string, time: D, rest: string)
    requires '<' !in t && dur(t) == Some(time) && |rest| > 0 && rest[0] == '<'
    ensures TimeField(dur, "<!-- " + ("-->" + (t + rest))) == Some((time, rest))
  {
    assert IsAscii("-->");
    CommentEnd();
    ConsumeOfConcat("<!-- ", "-->", t + rest);
    TakeUntilToTag(t, rest);
  }

  /**
   * The placements a page can carry and still be read back: one character
   * of sex, numbers in the range of their Rust types, no `<` inside a
   * text, and durations that `dur` reads back from their text `show`.
   */
  ghost predicate Representable<D>(p: Placement<D>, dur: string -> Option<D>, show: D -> string) {
    && '<' !in p.name && |p.sex| == 1 && '<' !in p.bib && '<' !in p.hometown
    && (p.age.Some? ==> 1 <= p.age.value <= Decimal.U8_MAX)
    && 1 <= p.rank <= Decimal.U16_MAX
    && 1 <= p.genderRank <= Decimal.U16_MAX
    && 1 <= p.divisionRank <= Decimal.U16_MAX
    && '<' !in show(p.pace) && dur(show(p.pace)) == Some(p.pace)
    && '<' !in show(p.time) && dur(show(p.time)) == Some(p.time)
  }

  /** The markup from the ranks on: three ranks, the pace, and the time after a comment. */
  function RanksHtml<D>(p: Placement<D>, show: D -> string, rest: string): string {
    Gaps(7) + (Decimal.Show(p.rank) +
    (Gaps(2) + (Decimal.Show(p.genderRank) +
    (Gaps(2) + (Decimal.Show(p.divisionRank) +
    (Gaps(4) + (show(p.pace) +
    ("<!-- " + ("-->" + (show(p.time) + rest))))))))))
  }

  /** A placement as the page lays it out, after `lead`. */
  function PlacementHtml<D>(lead: string, p: Placement<D>, show: D -> string, rest: string): string {
    lead + (NameTag + (">" + (p.name +
    (Gaps(4) + (p.sex +
    (AgeHtml(p.age) +
    ("<i>" + ("Bib " + (p.bib +
    (Gaps(3) + (p.hometown + RanksHtml(p, show, rest))))))))))))
  }

  /** `placement` in terms of the results of its field parsers. */
  lemma PlacementSteps<D>(dur: string -> Option<D>, s: string, p: Placement<D>,
                          s1: string, s2: string, s3: string, s4: string, s5: string,
                          s6: string, s7: string, s8: string, s9: string, rest: string)
    requires NameField(s) == Some((p.name, s1))
    requires SexField(s1) == Some((p.sex, s2))
    requires AgeField(s2) == (p.age, s3)
    requires BibField(s3) == Some((p.bib, s4))
    requires AfterNCloseElements(3, s4) == Some((p.hometown, s5))
    requires ParsedAfterN(7, Decimal.ParseNonZeroU16, s5) == Some((p.rank, s6))
    requires ParsedAfterN(2, Decimal.ParseNonZeroU16, s6) == Some((p.genderRank, s7))
    requires ParsedAfterN(2, Decimal.ParseNonZeroU16, s7) == Some((p.divisionRank, s8))
    requires ParsedAfterN(4, dur, s8) == Some((p.pace, s9))
    requires TimeField(dur, s9) == Some((p.time, rest))
    ensures PlacementItem(dur, s) == Some((p, rest))
  {
    assert AfterName(dur, p.name, s1) == Some((p, rest));
  }

  lemma RankOfHtml(n: nat, rank: nat, x: string)
    requires 1 <= rank <= Decimal.U16_MAX && |x| > 0 && x[0] == '<'
    ensures ParsedAfterN(n, Decimal.ParseNonZeroU16, Gaps(n) + (Decimal.Show(rank) + x)) == Some((rank, x))
  {
    Decimal.ShowHasNoMarkup(rank);
    Decimal.ParseShow(rank, Decimal.U16_MAX);
    ParsedOfHtml(n, Decimal.ParseNonZeroU16, Decimal.Show(rank), rank, x);
  }

  /** The ranks, pace and time read back from their markup. */
  lemma RanksOfHtml<D>(p: Placement<D>, dur: string -> Option<D>, show: D -> string, rest: string)
    requires Representable(p, dur, show) && |rest| > 0 && rest[0] == '<'
    ensures var s8 := Gaps(4) + (show(p.pace) + ("<!-- " + ("-->" + (show(p.time) + rest))));
      var s7 := Gaps(2) + (Decimal.Show(p.divisionRank) + s8);
      var s6 := Gaps(2) + (Decimal.Show(p.genderRank) + s7);
      && ParsedAfterN(7, Decimal.ParseNonZeroU16, RanksHtml(p, show, rest)) == Some((p.rank, s6))
      && ParsedAfterN(2, Decimal.ParseNonZeroU16, s6) == Some((p.genderRank, s7))
      && ParsedAfterN(2, Decimal.ParseNonZeroU16, s7) == Some((p.divisionRank, s8))
      && ParsedAfterN(4, dur, s8) == Some((p.pace, "<!-- " + ("-->" + (show(p.time) + rest))))
      && TimeField(dur, "<!-- " + ("-->" + (show(p.time) + rest))) == Some((p.time, rest))
  {
    var s9 := "<!-- " + ("-->" + (show(p.time) + rest));
    var s8 := Gaps(4) + (show(p.pace) + s9);
    var s7 := Gaps(2) + (Decimal.Show(p.divisionRank) + s8);
    var s6 := Gaps(2) + (Decimal.Show(p.genderRank) + s7);
    RankOfHtml(7, p.rank, s6);
    RankOfHtml(2, p.genderRank, s7);
    RankOfHtml(2, p.divisionRank, s8);
    ParsedOfHtml(4, dur, show(p.pace), p.pace, s9);
    TimeOfHtml(dur, show(p.time), p.time, rest);
  }

  /**
   * A representable placement, laid out after any `lead` that holds no
   * name element, reads back as itself and leaves `rest`, which opens
   * with a tag.
   */
  lemma PlacementOfHtml<D>(dur: string -> Option<D>, show: D -> string, lead: string, p: Placement<D>, rest: string)
    requires Representable(p, dur, show) && FirstAt(lead, NameTag) && |rest| > 0 && rest[0] == '<'
    ensures PlacementItem(dur, PlacementHtml(lead, p, show, rest)) == Some((p, rest))
  {
    var s9 := "<!-- " + ("-->" + (show(p.time) + rest));
    var s8 := Gaps(4) + (show(p.pace) + s9);
    var s7 := Gaps(2) + (Decimal.Show(p.divisionRank) + s8);
    var s6 := Gaps(2) + (Decimal.Show(p.genderRank) + s7);
    var s5 := RanksHtml(p, show, rest);
    var s4 := Gaps(3) + (p.hometown + s5);
    var s3 := "<i>" + ("Bib " + (p.bib + s4));
    var s2 := AgeHtml(p.age) + s3;
    var s1 := Gaps(4) + (p.sex + s2);
    NameOfHtml(lead, p.name, s1);
    SexOfHtml(p.sex, s2);
    AgeOfHtml(p.age, s3);
    BibOfHtml(p.bib, s4);
    AfterNOfHtml(3, p.hometown, s5);
    RanksOfHtml(p, dur, show, rest);
    PlacementSteps(dur, PlacementHtml(lead, p, show, rest), p, s1, s2, s3, s4, s5, s6, s7, s8, s9, rest);
  }

  /** The page's layout of a placement, as a function of the placement and what follows it. */
  function PagePlacement<D>(show: D -> string): (Placement<D>, string) -> string {
    (p, rest) => PlacementHtml("", p, show, rest)
  }

  /** Each placement `render` lays out opens with the name element, whatever follows it. */
  ghost predicate OpensWithName<D>(render: (Placement<D>, string) -> string, ps: seq<Placement<D>>) {
    forall i, rest :: 0 <= i < |ps| ==> StartsWith(render(ps[i], rest), NameTag)
  }

  /** `placement` reads back each placement `render` lays out, when a tag follows it. */
  ghost predicate ParsesBack<D>(dur: string -> Option<D>, render: (Placement<D>, string) -> string, ps: seq<Placement<D>>) {
    forall i, rest :: 0 <= i < |ps| && |rest| > 0 && rest[0] == '<' ==>
      PlacementItem(dur, render(ps[i], rest)) == Some((ps[i], rest))
  }

  ghost predicate ReadsBack<D>(dur: string -> Option<D>, render: (Placement<D>, string) -> string, ps: seq<Placement<D>>) {
    OpensWithName(render, ps) && ParsesBack(dur, render, ps)
  }

  /** The page's layout of representable placements is read back. */
  lemma PagePlacementReadsBack<D>(dur: string -> Option<D>, show: D -> string, ps: seq<Placement<D>>)
    requires forall i :: 0 <= i < |ps| ==> Representable(ps[i], dur, show)
    ensures ReadsBack(dur, PagePlacement(show), ps)
  {
    forall i, rest | 0 <= i < |ps|
      ensures StartsWith(PagePlacement(show)(ps[i], rest), NameTag)
    {
      var h := PlacementHtml("", ps[i], show, rest);
      assert h == NameTag + (h[|NameTag|..]);
    }
    forall i, rest | 0 <= i < |ps| && |rest| > 0 && rest[0] == '<'
      ensures PlacementItem(dur, PagePlacement(show)(ps[i], rest)) == Some((ps[i], rest))
    {
      PlacementOfHtml(dur, show, "", ps[i], rest);
    }
  }

  /** Text that opens with the name element opens with a tag. */
  lemma OpensWithTag(x: string)
    requires StartsWith(x, NameTag)
    ensures |x| > 0 && x[0] == '<'
  {
    assert x[0] == x[..|NameTag|][0];
  }

  /** Text before the first name element does not change what `placement` reads. */
  lemma SkipLead<D>(dur: string -> Option<D>, lead: string, x: string)
    requires FirstAt(lead, NameTag) && StartsWith(x, NameTag)
    ensures PlacementItem(dur, lead + x) == PlacementItem(dur, x)
  {
    var b := x[|NameTag|..];
    assert x == NameTag + b;
    TakeUntilOfConcat(lead, NameTag, b);
    TakeUntilOfConcat("", NameTag, b);
    assert "" + x == x;
    assert NameField(lead + x) == NameField(x);
  }

  /** What follows a placement on a rendered page opens with a tag. */
  lemma NextOpensWithTag<D>(render: (Placement<D>, string) -> string,
                            ps: seq<Placement<D>>, tail: string, j: nat)
    requires j <= |ps| && OpensWithName(render, ps) && |tail| > 0 && tail[0] == '<'
    ensures |Rendered(render, ps[j..], tail)| > 0 && Rendered(render, ps[j..], tail)[0] == '<'
    decreases |ps| - j
  {
    if j < |ps| {
      var after := Rendered(render, ps[j + 1..], tail);
      NextOpensWithTag(render, ps, tail, j + 1);
      assert ps[j..][1..] == ps[j + 1..];
      assert Rendered(render, ps[j..], tail) == render(ps[j], after);
      assert StartsWith(render(ps[j], after), NameTag);
      assert render(ps[j], after)[0] == NameTag[0];
    } else {
      assert ps[j..] == [];
    }
  }

  /** `placements` over segments each of which `placement` reads, the last one not. */
  lemma PlacementsOfSteps<D>(dur: string -> Option<D>, ps: seq<Placement<D>>, segs: seq<string>)
    requires |ps| >= 1 && |segs| == |ps| + 1
    requires forall i :: 0 <= i < |ps| ==> PlacementItem(dur, segs[i]) == Some((ps[i], segs[i + 1]))
    requires PlacementItem(dur, segs[|ps|]).None?
    ensures Placements(dur, segs[0]) == Some((ps, segs[|ps|]))
  {
    var p := PlacementParser(dur);
    forall i | 0 <= i < |ps|
      ensures p(segs[i]) == Some((ps[i], segs[i + 1])) && |segs[i + 1]| < |segs[i]|
    {
    }
    Many1OfSteps(p, ps, segs);
  }

  /**
   * The page as a chain of segments: the first is the prefix and a
   * placement, each later one a placement, each followed by the next
   * segment, and the last one the tail.
   */
  ghost predicate PageSegments<D>(render: (Placement<D>, string) -> string, prefix: string,
                                  ps: seq<Placement<D>>, segs: seq<string>) {
    && |ps| >= 1 && |segs| == |ps| + 1
    && segs[0] == prefix + render(ps[0], segs[1])
    && (forall i :: 1 <= i < |ps| ==> segs[i] == render(ps[i], segs[i + 1]))
    && |segs[|ps|]| > 0 && segs[|ps|][0] == '<'
  }

  /** Each segment after the first placement opens with a tag. */
  lemma NextOpens<D>(render: (Placement<D>, string) -> string, prefix: string,
                     ps: seq<Placement<D>>, segs: seq<string>, i: nat)
    requires PageSegments(render, prefix, ps, segs) && OpensWithName(render, ps) && i < |ps|
    ensures |segs[i + 1]| > 0 && segs[i + 1][0] == '<'
  {
    if i + 1 < |ps| {
      assert segs[i + 1] == render(ps[i + 1], segs[i + 2]);
      OpensWithTag(segs[i + 1]);
    }
  }

  lemma SegmentAt<D>(dur: string -> Option<D>, render: (Placement<D>, string) -> string,
                     prefix: string, ps: seq<Placement<D>>, segs: seq<string>, i: nat)
    requires PageSegments(render, prefix, ps, segs) && ReadsBack(dur, render, ps)
    requires FirstAt(prefix, NameTag) && i < |ps|
    ensures PlacementItem(dur, segs[i]) == Some((ps[i], segs[i + 1]))
  {
    NextOpens(render, prefix, ps, segs, i);
    var next := segs[i + 1];
    var x := render(ps[i], next);
    assert PlacementItem(dur, x) == Some((ps[i], next));
    if i == 0 {
      assert StartsWith(x, NameTag);
      SkipLead(dur, prefix, x);
      assert segs[0] == prefix + x;
    } else {
      assert segs[i] == x;
    }
  }

  lemma PlacementsOfSegments<D>(dur: string -> Option<D>, render: (Placement<D>, string) -> string,
                                prefix: string, ps: seq<Placement<D>>, segs: seq<string>)
    requires PageSegments(render, prefix, ps, segs) && ReadsBack(dur, render, ps)
    requires FirstAt(prefix, NameTag) && !Contains(segs[|ps|], NameTag)
    ensures Placements(dur, segs[0]) == Some((ps, segs[|ps|]))
  {
    forall i | 0 <= i < |ps|
      ensures PlacementItem(dur, segs[i]) == Some((ps[i], segs[i + 1]))
    {
      SegmentAt(dur, render, prefix, ps, segs, i);
    }
    TakeUntilSpec(NameTag, segs[|ps|]);
    PlacementsOfSteps(dur, ps, segs);
  }

  /** The segments of `prefix + Rendered(render, ps, tail)`. */
  function RowSegments<D>(render: (Placement<D>, string) -> string, prefix: string,
                          ps: seq<Placement<D>>, tail: string): (segs: seq<string>)
    ensures |segs| == |ps| + 1
  {
    seq(|ps| + 1, i requires 0 <= i <= |ps| =>
      if i == 0 then prefix + Rendered(render, ps, tail) else Rendered(render, ps[i..], tail))
  }

  lemma RowSegmentsChain<D>(render: (Placement<D>, string) -> string, prefix: string,
                            ps: seq<Placement<D>>, tail: string)
    requires |ps| >= 1 && |tail| > 0 && tail[0] == '<'
    ensures PageSegments(render, prefix, ps, RowSegments(render, prefix, ps, tail))
    ensures RowSegments(render, prefix, ps, tail)[0] == prefix + Rendered(render, ps, tail)
    ensures RowSegments(render, prefix, ps, tail)[|ps|] == tail
  {
    var segs := RowSegments(render, prefix, ps, tail);
    forall i | 0 <= i < |ps|
      ensures Rendered(render, ps[i..], tail) == render(ps[i], Rendered(render, ps[i + 1..], tail))
    {
      assert ps[i..][1..] == ps[i + 1..];
    }
    assert ps[0..] == ps;
    assert ps[|ps|..] == [];
  }

  /**
   * `placements` reads back every placement of a page, in order, after a
   * `prefix` without a name element, and stops at a `tail` that opens with
   * a tag and holds no further name element.
   */
  lemma PlacementsOfPage<D>(dur: string -> Option<D>, render: (Placement<D>, string) -> string,
                            prefix: string, ps: seq<Placement<D>>, tail: string)
    requires |ps| >= 1 && ReadsBack(dur, render, ps)
    requires FirstAt(prefix, NameTag)
    requires |tail| > 0 && tail[0] == '<' && !Contains(tail, NameTag)
    ensures Placements(dur, prefix + Rendered(render, ps, tail)) == Some((ps, tail))
  {
    RowSegmentsChain(render, prefix, ps, tail);
    PlacementsOfSegments(dur, render, prefix, ps, RowSegments(render, prefix, ps, tail));
  }

  // ---------------------------------------------------------------------
  // Paging and parameters

  /**
   * `next_button`, on the inner HTML of the pager buttons: there is a next
   * page when the last button reads `&gt;`.  With no button at all the
   * source's `unwrap` panics, which is `None` here.
   */
  function NextButton(buttons: seq<string>): (r: Option<bool>)
    ensures r.None? <==> |buttons| == 0
  {
    if |buttons| == 0 then None else Some(buttons[|buttons| - 1] == "&gt;")
  }

  /** Paging goes on exactly when the last button is the `>` arrow; any other last button ends it. */
  lemma NextButtonIff(buttons: seq<string>, more: seq<string>, last: string)
    ensures NextButton(more + [last]) == Some(last == "&gt;")
    ensures NextButton(buttons) == Some(true) ==> buttons[|buttons| - 1] == "&gt;"
  {
    assert (more + [last])[|more|] == last;
  }

  datatype Params = Params(url: string, raceIndex: nat)

  datatype ParamsError =
    | NotAthlinks(event: Cli.Event)
    | UnsupportedYear(event: Cli.Event, year: Cli.Year)
    | UnsupportedRace(event: Cli.Event, race: Cli.Race)

  const RftzUrl := "https://www.athlinks.com/event/34346/results/Event/729962/Results"
  const Lt100Url := "https://www.athlinks.com/event/33913/results/Event/711340/Results"

  /** `Params::new_rtfz`: only 2019, and only the 10k, the half and the 5k, as the first three races. */
  function NewRftz(opt: Cli.Opt): Result<Params, ParamsError> {
    if opt.year != 2019 then Err(UnsupportedYear(Cli.Rftz, opt.year))
    else match opt.race
      case TenK => Ok(Params(RftzUrl, 0))
      case Half => Ok(Params(RftzUrl, 1))
      case FiveK => Ok(Params(RftzUrl, 2))
      case _ => Err(UnsupportedRace(Cli.Rftz, opt.race))
  }

  /** `Params::new_lt100`: only 2019, and only the full race. */
  function NewLt100(opt: Cli.Opt): Result<Params, ParamsError> {
    if opt.year != 2019 then Err(UnsupportedYear(Cli.Lt100, opt.year))
    else if opt.race != Cli.Full then Err(UnsupportedRace(Cli.Lt100, opt.race))
    else Ok(Params(Lt100Url, 0))
  }

  /** `Params::new`: Run for the Zoo and the Leadville Trail 100 are the only athlinks events it accepts. */
  function ParamsNew(opt: Cli.Opt): (r: Result<Params, ParamsError>)
    ensures r.Err? && opt.event !in {Cli.Rftz, Cli.Lt100} ==> r.error == NotAthlinks(opt.event)
    ensures opt.event !in {Cli.Rftz, Cli.Lt100} ==> r == Err(NotAthlinks(opt.event))
  {
    match opt.event
    case Rftz => NewRftz(opt)
    case Lt100 => NewLt100(opt)
    case _ => Err(NotAthlinks(opt.event))
  }

  /** The races scraped from athlinks, with the index of their "view all" link. */
  const RaceIndex: map<(Cli.Event, Cli.Race), nat> :=
    map[(Cli.Rftz, Cli.TenK) := 0, (Cli.Rftz, Cli.Half) := 1, (Cli.Rftz, Cli.FiveK) := 2,
        (Cli.Lt100, Cli.Full) := 0]

  /**
   * `Params::new` succeeds exactly for 2019 and a race in the table, with
   * that race's index and its event's URL; an event the table does not
   * know is refused first, then a wrong year, then a wrong race.
   */
  lemma ParamsNewSpec(opt: Cli.Opt)
    ensures ParamsNew(opt).Ok? <==> opt.year == 2019 && (opt.event, opt.race) in RaceIndex
    ensures ParamsNew(opt).Ok? ==>
      ParamsNew(opt).value.raceIndex == RaceIndex[(opt.event, opt.race)]
      && ParamsNew(opt).value.url == (if opt.event == Cli.Rftz then RftzUrl else Lt100Url)
    ensures opt.event !in {Cli.Rftz, Cli.Lt100} ==> ParamsNew(opt) == Err(NotAthlinks(opt.event))
    ensures opt.event in {Cli.Rftz, Cli.Lt100} && opt.year != 2019 ==>
      ParamsNew(opt) == Err(UnsupportedYear(opt.event, opt.year))
    ensures opt.event in {Cli.Rftz, Cli.Lt100} && opt.year == 2019 && (opt.event, opt.race) !in RaceIndex ==>
      ParamsNew(opt) == Err(UnsupportedRace(opt.event, opt.race))
  {
  }
}
