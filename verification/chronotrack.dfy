/**
 * src/chronotrack.rs: the Shiprock results on results.chronotrack.com.
 * A page's results table is read with nom parsers, one `<tr>` per
 * placement and one `<td class="ui-widget-content bazu-NAME">` per field;
 * the race is chosen from the `<option>` list of a `<select>`.
 *
 * Durations are read by a parser the model takes as a parameter `dur`
 * (the `FromStr` of `digital_duration_nom::duration::Duration`, which is
 * not part of this model).
 */
module Chronotrack {
  import opened Wrappers
  import opened Text
  import opened Nom
  import Decimal
  import Cli

  /** One row of the results table (`struct Placement`). */
  datatype Placement<D> = Placement(
    rank: nat,
    name: string,
    bib: string,
    time: D,
    pace: D,
    hometown: string,
    age: Option<nat>,
    sex: Option<string>,
    division: string,
    divisionRank: nat)

  /** The fields of a row up to the hometown, which every row has. */
  datatype Head<D> = Head(rank: nat, name: string, bib: string, time: D, pace: D, hometown: string)

  /** The fields of a row from the optional age on. */
  datatype Tail = Tail(age: Option<nat>, sex: Option<string>, division: string, divisionRank: nat)

  const TdPrefix: string := "<td class=\"ui-widget-content bazu-"
  /** The start of the results table's body, up to but not including its closing `>`. */
  const TbodyMarker: string := "<tbody class=" + "\"ui-widget-content\"" + " role=" + "\"alert\""

  // ---------------------------------------------------------------------
  // Cell and row parsers

  /** `tr`: optional white space, `<tr `, and everything up to and including the next `>`. */
  function Tr(s: string): (r: Option<string>)
    ensures r.Some? ==> |r.value| < |s|
  {
    var s1 := Multispace0(s).1;
    var s2 :- Tag("<tr ", s1);
    var c :- TakeUntilAndConsume(">", s2);
    Some(c.1)
  }

  /**
   * `td(name)`: white space, `<td class="ui-widget-content bazu-NAME">`,
   * the opening tag inside the cell, then the text up to the next `<`,
   * which is the cell's value; everything up to and including `</td>` is
   * skipped.
   */
  function Td(name: string, s: string): (r: Option<(string, string)>)
    ensures r.Some? ==> |r.value.1| < |s|
  {
    var s1 := Multispace0(s).1;
    var s2 :- Tag(TdPrefix, s1);
    var s3 :- Tag(name, s2);
    var s4 :- Tag("\">", s3);
    var a :- TakeUntilAndConsume(">", s4);
    var b :- TakeUntilAndConsume("<", a.1);
    var c :- TakeUntil("</td>", b.1);
    var s8 :- Tag("</td>", c.1);
    Some((b.0, s8))
  }

  /** `parsed_td(name)`: a cell whose value must parse with `parse`. */
  function ParsedTd<O>(name: string, parse: string -> Option<O>, s: string): (r: Option<(O, string)>)
    ensures r.Some? ==> |r.value.1| < |s|
  {
    var c :- Td(name, s);
    var v :- parse(c.0);
    Some((v, c.1))
  }

  /** `close_tr`: optional white space and `</tr>`. */
  function CloseTr(s: string): (r: Option<string>)
    ensures r.Some? ==> |r.value| < |s|
  {
    Tag("</tr>", Multispace0(s).1)
  }

  /** The start of `placement`: the row tag and the six cells every row has. */
  function RowHead<D>(dur: string -> Option<D>, s: string): (r: Option<(Head<D>, string)>)
    ensures r.Some? ==> |r.value.1| < |s|
  {
    var s1 :- Tr(s);
    var rank :- ParsedTd("rank", Decimal.ParseNonZeroU16, s1);
    var name :- Td("name", rank.1);
    var bib :- Td("bib", name.1);
    var time :- ParsedTd("time", dur, bib.1);
    var pace :- ParsedTd("pace", dur, time.1);
    var home :- Td("hometown", pace.1);
    Some((Head(rank.0, name.0, bib.0, time.0, pace.0, home.0), home.1))
  }

  /**
   * The end of `placement`: an optional age cell whose value must parse as
   * a `u8`, an optional sex cell, the division, the division rank and `</tr>`.
   */
  function RowTail(s: string): (r: Option<(Tail, string)>)
    ensures r.Some? ==> |r.value.1| < |s|
  {
    var age := Opt(ParsedTd("age", Decimal.ParseU8, s), s);
    var sex := Opt(Td("sex", age.1), age.1);
    var division :- Td("agroup", sex.1);
    var divisionRank :- ParsedTd("agrank", Decimal.ParseNonZeroU16, division.1);
    var rest :- CloseTr(divisionRank.1);
    Some((Tail(age.0, sex.0, division.0, divisionRank.0), rest))
  }

  /** `placement`: one row of the table. */
  function Row<D>(dur: string -> Option<D>, s: string): (r: Option<(Placement<D>, string)>)
    ensures r.Some? ==> |r.value.1| < |s|
  {
    var h :- RowHead(dur, s);
    var t :- RowTail(h.1);
    var head := h.0;
    var tail := t.0;
    Some((Placement(head.rank, head.name, head.bib, head.time, head.pace, head.hometown,
                    tail.age, tail.sex, tail.division, tail.divisionRank), t.1))
  }

  function RowParser<D>(dur: string -> Option<D>): Parser<Placement<D>> {
    s => Row(dur, s)
  }

  /**
   * `placements`: skip to the results `<tbody>`, past its `>`, then read
   * one or more rows.
   */
  function Placements<D>(dur: string -> Option<D>, page: string): Option<(seq<Placement<D>>, string)> {
    var a :- TakeUntil(TbodyMarker, page);
    var b :- TakeUntilAndConsume(">", a.1);
    Many1(RowParser(dur), b.1)
  }

  /** A row parser always consumes input, so `many1` never trips its no-progress guard. */
  lemma RowConsumes<D>(dur: string -> Option<D>)
    ensures Consumes(RowParser(dur))
  {
    forall s ensures RowParser(dur)(s).Some? ==> |RowParser(dur)(s).value.1| < |s| {
    }
  }

  // ---------------------------------------------------------------------
  // Rendering a table, and reading it back

  /** A cell as the results page writes it: `<td ...bazu-NAME"><span>VALUE</span></td>`. */
  function Cell(name: string, v: string, rest: string): string {
    "\n" + (TdPrefix + (name + ("\">" + ("<span" + (">" + (v + ("<" + ("/span>" + ("</td>" + rest)))))))))
  }

  /** A cell is read back as its value, and the input after it is left. */
  lemma TdOfCell(name: string, v: string, rest: string)
    requires '<' !in v
    ensures Td(name, Cell(name, v, rest)) == Some((v, rest))
  {
    var r7 := "</td>" + rest;
    var r6 := "/span>" + r7;
    var r5 := v + ("<" + r6);
    var r4 := "<span" + (">" + r5);
    var r3 := "\">" + r4;
    var r2 := name + r3;
    var r1 := TdPrefix + r2;
    assert r1[0] == '<';
    Multispace0OfConcat("\n", r1);
    TagOfConcat(TdPrefix, r2);
    TagOfConcat(name, r3);
    TagOfConcat("\">", r4);
    ConsumeCharOfConcat("<span", '>', r5);
    ConsumeCharOfConcat(v, '<', r6);
    FirstAtByHead("/span>", "</td>");
    TakeUntilOfConcat("/span>", "</td>", rest);
    TagOfConcat("</td>", rest);
  }

  /**
   * A cell for field `other` is not a cell for field `name` when the two
   * names differ at some position `i`.
   */
  lemma TdOtherName(name: string, other: string, v: string, rest: string, i: nat)
    requires i < |name| && i < |other| && name[i] != other[i]
    ensures Td(name, Cell(other, v, rest)).None?
  {
    var r2 := other + ("\">" + ("<span" + (">" + (v + ("<" + ("/span>" + ("</td>" + rest)))))));
    var r1 := TdPrefix + r2;
    assert r1[0] == '<';
    Multispace0OfConcat("\n", r1);
    TagOfConcat(TdPrefix, r2);
    assert r2[i] == other[i];
  }

  /**
   * The field values a row can carry and still be read back: numbers in
   * the range of their Rust types, no `<` inside a text, and durations
   * that `dur` reads back from their text `show`.
   */
  ghost predicate Representable<D>(p: Placement<D>, dur: string -> Option<D>, show: D -> string) {
    && 1 <= p.rank <= Decimal.U16_MAX
    && 1 <= p.divisionRank <= Decimal.U16_MAX
    && (p.age.Some? ==> p.age.value <= Decimal.U8_MAX)
    && '<' !in p.name && '<' !in p.bib && '<' !in p.hometown && '<' !in p.division
    && (p.sex.Some? ==> '<' !in p.sex.value)
    && dur(show(p.time)) == Some(p.time) && '<' !in show(p.time)
    && dur(show(p.pace)) == Some(p.pace) && '<' !in show(p.pace)
  }

  function OptCell(name: string, v: Option<string>, rest: string): string {
    if v.Some? then Cell(name, v.value, rest) else rest
  }

  function HeadCells<D>(p: Placement<D>, show: D -> string, rest: string): string {
    Cell("rank", Decimal.Show(p.rank),
      Cell("name", p.name,
        Cell("bib", p.bib,
          Cell("time", show(p.time),
            Cell("pace", show(p.pace),
              Cell("hometown", p.hometown, rest))))))
  }

  function TailCells<D>(p: Placement<D>, rest: string): string {
    var age := if p.age.Some? then Some(Decimal.Show(p.age.value)) else None;
    OptCell("age", age,
      OptCell("sex", p.sex,
        Cell("agroup", p.division,
          Cell("agrank", Decimal.Show(p.divisionRank), rest))))
  }

  /** A row as the results page writes it, the age and sex cells present only when known. */
  function RowHtml<D>(p: Placement<D>, show: D -> string, rest: string): string {
    "\n<tr " + ("role=\"row\"" + (">" + HeadCells(p, show, TailCells(p, "\n</tr>" + rest))))
  }

  /** `RowHead` from what each of its parsers returns, with the texts kept abstract. */
  lemma RowHeadSteps<D>(dur: string -> Option<D>, s: string, s1: string,
                        rt: string, s2: string, name: string, s3: string, bib: string, s4: string,
                        tt: string, s5: string, pt: string, s6: string, home: string, s7: string,
                        rank: nat, time: D, pace: D)
    requires Tr(s) == Some(s1)
    requires Td("rank", s1) == Some((rt, s2)) && Decimal.ParseNonZeroU16(rt) == Some(rank)
    requires Td("name", s2) == Some((name, s3)) && Td("bib", s3) == Some((bib, s4))
    requires Td("time", s4) == Some((tt, s5)) && dur(tt) == Some(time)
    requires Td("pace", s5) == Some((pt, s6)) && dur(pt) == Some(pace)
    requires Td("hometown", s6) == Some((home, s7))
    ensures RowHead(dur, s) == Some((Head(rank, name, bib, time, pace, home), s7))
  {
  }

  /** `RowTail` from what each of its parsers returns, with the texts kept abstract. */
  lemma RowTailSteps(s: string, age: Option<nat>, sAge: string, sex: Option<string>, sSex: string,
                     division: string, s3: string, drt: string, s4: string, dr: nat, rest: string)
    requires Opt(ParsedTd("age", Decimal.ParseU8, s), s) == (age, sAge)
    requires Opt(Td("sex", sAge), sAge) == (sex, sSex)
    requires Td("agroup", sSex) == Some((division, s3))
    requires Td("agrank", s3) == Some((drt, s4)) && Decimal.ParseNonZeroU16(drt) == Some(dr)
    requires CloseTr(s4) == Some(rest)
    ensures RowTail(s) == Some((Tail(age, sex, division, dr), rest))
  {
  }

  lemma ParsedTdOfCell<O>(name: string, parse: string -> Option<O>, v: string, rest: string)
    requires '<' !in v
    ensures ParsedTd(name, parse, Cell(name, v, rest))
         == (if parse(v).Some? then Some((parse(v).value, rest)) else None)
  {
    TdOfCell(name, v, rest);
  }

  lemma TrOfHtml(rest: string)
    ensures Tr("\n<tr " + ("role=\"row\"" + (">" + rest))) == Some(rest)
  {
    var t := "<tr " + ("role=\"row\"" + (">" + rest));
    assert "\n<tr " + ("role=\"row\"" + (">" + rest)) == "\n" + t;
    Multispace0OfConcat("\n", t);
    TagOfConcat("<tr ", "role=\"row\"" + (">" + rest));
    ConsumeCharOfConcat("role=\"row\"", '>', rest);
  }

  lemma CloseTrOfHtml(rest: string)
    ensures CloseTr("\n</tr>" + rest) == Some(rest)
  {
    assert "\n</tr>" + rest == "\n" + ("</tr>" + rest);
    Multispace0OfConcat("\n", "</tr>" + rest);
    TagOfConcat("</tr>", rest);
  }

  /** A rank rendered into its cell is read back, as a non-zero 16-bit number. */
  lemma RankOfCell(rank: nat, rest: string)
    requires 1 <= rank <= Decimal.U16_MAX
    ensures Td("rank", Cell("rank", Decimal.Show(rank), rest)) == Some((Decimal.Show(rank), rest))
    ensures Decimal.ParseNonZeroU16(Decimal.Show(rank)) == Some(rank)
  {
    Decimal.ShowHasNoMarkup(rank);
    TdOfCell("rank", Decimal.Show(rank), rest);
    Decimal.ParseShow(rank, Decimal.U16_MAX);
  }

  lemma RowHeadOfHtml<D>(p: Placement<D>, dur: string -> Option<D>, show: D -> string, rest: string)
    requires Representable(p, dur, show)
    ensures RowHead(dur, "\n<tr " + ("role=\"row\"" + (">" + HeadCells(p, show, rest))))
         == Some((Head(p.rank, p.name, p.bib, p.time, p.pace, p.hometown), rest))
  {
    var c6 := Cell("hometown", p.hometown, rest);
    var c5 := Cell("pace", show(p.pace), c6);
    var c4 := Cell("time", show(p.time), c5);
    var c3 := Cell("bib", p.bib, c4);
    var c2 := Cell("name", p.name, c3);
    var rt := Decimal.Show(p.rank);
    var c1 := Cell("rank", rt, c2);
    TrOfHtml(c1);
    RankOfCell(p.rank, c2);
    TdOfCell("name", p.name, c3);
    TdOfCell("bib", p.bib, c4);
    TdOfCell("time", show(p.time), c5);
    TdOfCell("pace", show(p.pace), c6);
    TdOfCell("hometown", p.hometown, rest);
    RowHeadSteps(dur, "\n<tr " + ("role=\"row\"" + (">" + c1)), c1, rt, c2, p.name, c3, p.bib, c4,
                 show(p.time), c5, show(p.pace), c6, p.hometown, rest, p.rank, p.time, p.pace);
  }

  lemma RowTailOfHtml<D>(p: Placement<D>, dur: string -> Option<D>, show: D -> string, rest: string)
    requires Representable(p, dur, show)
    ensures RowTail(TailCells(p, "\n</tr>" + rest))
         == Some((Tail(p.age, p.sex, p.division, p.divisionRank), rest))
  {
    var close := "\n</tr>" + rest;
    var drt := Decimal.Show(p.divisionRank);
    var c4 := Cell("agrank", drt, close);
    var c3 := Cell("agroup", p.division, c4);
    var c2 := OptCell("sex", p.sex, c3);
    var s := TailCells(p, close);
    match p.age {
      case Some(a) =>
        Decimal.ShowHasNoMarkup(a);
        ParsedTdOfCell("age", Decimal.ParseU8, Decimal.Show(a), c2);
        Decimal.ParseShow(a, Decimal.U8_MAX);
        assert Opt(ParsedTd("age", Decimal.ParseU8, s), s) == (p.age, c2);
      case None =>
        assert s == c2;
        if p.sex.Some? {
          TdOtherName("age", "sex", p.sex.value, c3, 0);
        } else {
          TdOtherName("age", "agroup", p.division, c4, 2);
        }
        assert Opt(ParsedTd("age", Decimal.ParseU8, s), s) == (p.age, c2);
    }
    match p.sex {
      case Some(x) =>
        TdOfCell("sex", x, c3);
      case None =>
        TdOtherName("sex", "agroup", p.division, c4, 0);
    }
    assert Opt(Td("sex", c2), c2) == (p.sex, c3);
    TdOfCell("agroup", p.division, c4);
    Decimal.ShowHasNoMarkup(p.divisionRank);
    TdOfCell("agrank", drt, close);
    Decimal.ParseShow(p.divisionRank, Decimal.U16_MAX);
    CloseTrOfHtml(rest);
    RowTailSteps(s, p.age, c2, p.sex, c3, p.division, c4, drt, close, p.divisionRank, rest);
  }

  /** A rendered row is read back as the placement it was rendered from. */
  lemma RowOfHtml<D>(p: Placement<D>, dur: string -> Option<D>, show: D -> string, rest: string)
    requires Representable(p, dur, show)
    ensures Row(dur, RowHtml(p, show, rest)) == Some((p, rest))
  {
    RowHeadOfHtml(p, dur, show, TailCells(p, "\n</tr>" + rest));
    RowTailOfHtml(p, dur, show, rest);
  }

  // ---------------------------------------------------------------------
  // A whole results page

  /** The way the results page renders a row, as a function of the row and what follows it. */
  function PageRow<D>(show: D -> string): (Placement<D>, string) -> string {
    (p, rest) => RowHtml(p, show, rest)
  }

  /** Every representable row the results page renders is read back as itself. */
  lemma PageRowReadsBack<D>(dur: string -> Option<D>, show: D -> string, ps: seq<Placement<D>>)
    requires forall i :: 0 <= i < |ps| ==> Representable(ps[i], dur, show)
    ensures forall i, rest :: 0 <= i < |ps| ==> Row(dur, PageRow(show)(ps[i], rest)) == Some((ps[i], rest))
  {
    forall i, rest | 0 <= i < |ps|
      ensures Row(dur, PageRow(show)(ps[i], rest)) == Some((ps[i], rest))
    {
      RowOfHtml(ps[i], dur, show, rest);
    }
  }

  /** The end of the table body is not a row. */
  lemma RowFailsAtTableEnd<D>(dur: string -> Option<D>, more: string)
    ensures Row(dur, "\n</tbody>" + more).None?
  {
    assert "\n</tbody>" + more == "\n" + ("</tbody>" + more);
    Multispace0OfConcat("\n", "</tbody>" + more);
    assert ("</tbody>" + more)[1] == '/';
  }

  /**
   * An age cell that is present but does not hold a `u8` spoils the whole
   * row: `opt` leaves the cell in place, and neither the sex nor the
   * division cell parser accepts it.
   */
  lemma UnreadableAgeSpoilsRow<D>(dur: string -> Option<D>, s: string, h: Head<D>, a: string, rest: string)
    requires RowHead(dur, s) == Some((h, Cell("age", a, rest)))
    requires '<' !in a && Decimal.ParseU8(a).None?
    ensures Row(dur, s).None?
  {
    UnreadableAgeSpoilsTail(a, rest);
  }

  /** The tail of a row cannot be read past an age cell that is not a number. */
  lemma UnreadableAgeSpoilsTail(a: string, rest: string)
    requires '<' !in a && Decimal.ParseU8(a).None?
    ensures RowTail(Cell("age", a, rest)).None?
  {
    var c := Cell("age", a, rest);
    TdOfCell("age", a, rest);
    TdOtherName("sex", "age", a, rest, 0);
    TdOtherName("agroup", "age", a, rest, 2);
    assert ParsedTd("age", Decimal.ParseU8, c).None?;
    assert Opt(ParsedTd("age", Decimal.ParseU8, c), c) == (None, c);
    assert Opt(Td("sex", c), c) == (None, c);
  }

  /** A rank cell whose value is not a non-zero `u16` spoils the row. */
  lemma UnreadableRankSpoilsRow<D>(dur: string -> Option<D>, s: string, s1: string, t: string, s2: string)
    requires Tr(s) == Some(s1) && Td("rank", s1) == Some((t, s2))
    requires Decimal.ParseNonZeroU16(t).None?
    ensures Row(dur, s).None?
  {
  }

  /** What is left of a row's tail once the optional age and sex cells have been tried. */
  function AfterOptionalCells(s: string): string {
    var age := Opt(ParsedTd("age", Decimal.ParseU8, s), s);
    Opt(Td("sex", age.1), age.1).1
  }

  /** A division-rank cell whose value is not a non-zero `u16` spoils the row. */
  lemma UnreadableDivisionRankSpoilsRow<D>(dur: string -> Option<D>, s: string, h: Head<D>, s0: string,
                                           g: string, s3: string, t: string, s4: string)
    requires RowHead(dur, s) == Some((h, s0))
    requires Td("agroup", AfterOptionalCells(s0)) == Some((g, s3)) && Td("agrank", s3) == Some((t, s4))
    requires Decimal.ParseNonZeroU16(t).None?
    ensures Row(dur, s).None?
  {
  }

  /** The start of `placements`: past the results `<tbody>` tag to the text of its rows. */
  lemma SkipToRows(prefix: string, rows: string)
    requires FirstAt(prefix, TbodyMarker)
    ensures TakeUntil(TbodyMarker, prefix + (TbodyMarker + (">" + rows)))
         == Some((prefix, TbodyMarker + (">" + rows)))
    ensures TakeUntilAndConsume(">", TbodyMarker + (">" + rows)) == Some((TbodyMarker, rows))
  {
    assert '>' !in TbodyMarker;
    TakeUntilOfConcat(prefix, TbodyMarker, ">" + rows);
    ConsumeCharOfConcat(TbodyMarker, '>', rows);
  }

  /**
   * `placements` reads the rows that follow the results `<tbody>` one by
   * one and stops at the first text that is not a row: the texts `segs`
   * are what is left before each row and after the last one.
   */
  lemma PlacementsOfRows<D>(dur: string -> Option<D>, prefix: string, ps: seq<Placement<D>>, segs: seq<string>)
    requires FirstAt(prefix, TbodyMarker)
    requires |ps| >= 1 && |segs| == |ps| + 1
    requires forall i :: 0 <= i < |ps| ==> Row(dur, segs[i]) == Some((ps[i], segs[i + 1]))
    requires Row(dur, segs[|ps|]).None?
    ensures Placements(dur, prefix + (TbodyMarker + (">" + segs[0]))) == Some((ps, segs[|ps|]))
  {
    SkipToRows(prefix, segs[0]);
    var p := RowParser(dur);
    forall i | 0 <= i < |ps|
      ensures p(segs[i]) == Some((ps[i], segs[i + 1])) && |segs[i + 1]| < |segs[i]|
    {
    }
    Many1OfSteps(p, ps, segs);
  }

  /**
   * A page whose table holds rows that are each read back as themselves
   * is read back as the list of those rows, up to `tail`, which is not a
   * row.  With `PageRow` as the renderer, `PageRowReadsBack` supplies the
   * hypothesis about the rows.
   */
  lemma PlacementsOfRendered<D>(dur: string -> Option<D>, render: (Placement<D>, string) -> string,
                                prefix: string, ps: seq<Placement<D>>, tail: string)
    requires FirstAt(prefix, TbodyMarker)
    requires |ps| >= 1
    requires forall i, rest :: 0 <= i < |ps| ==> Row(dur, render(ps[i], rest)) == Some((ps[i], rest))
    requires Row(dur, tail).None?
    ensures Placements(dur, prefix + (TbodyMarker + (">" + Rendered(render, ps, tail)))) == Some((ps, tail))
  {
    var segs := seq(|ps| + 1, i requires 0 <= i <= |ps| => Rendered(render, ps[i..], tail));
    forall i | 0 <= i < |ps|
      ensures Row(dur, segs[i]) == Some((ps[i], segs[i + 1]))
    {
      assert ps[i..][1..] == ps[i + 1..];
      assert segs[i] == render(ps[i], segs[i + 1]);
    }
    assert segs[0] == Rendered(render, ps, tail) by { assert ps[0..] == ps; }
    assert segs[|ps|] == tail by { assert ps[|ps|..] == []; }
    PlacementsOfRows(dur, prefix, ps, segs);
  }

  /** A table whose body holds no row yields no placements at all. */
  lemma PlacementsOfEmptyTable<D>(dur: string -> Option<D>, prefix: string, more: string)
    requires FirstAt(prefix, TbodyMarker)
    ensures Placements(dur, prefix + (TbodyMarker + (">" + ("\n</tbody>" + more)))).None?
  {
    SkipToRows(prefix, "\n</tbody>" + more);
    RowFailsAtTableEnd(dur, more);
  }

  /** `placements` fails on a page without the results `<tbody>`. */
  lemma PlacementsNeedTable<D>(dur: string -> Option<D>, page: string)
    requires !Contains(page, TbodyMarker)
    ensures Placements(dur, page).None?
  {
    TakeUntilSpec(TbodyMarker, page);
  }

  /**
   * On a page whose first results `<tbody>` tag ends after `attrs`,
   * `placements` succeeds with `ps` leaving `r` exactly when the rows
   * after the tag read as the non-empty run `ps`, each row shortening the
   * text, and `r` is not a row.
   */
  lemma PlacementsSpec<D>(dur: string -> Option<D>, prefix: string, attrs: string, rows: string,
                          ps: seq<Placement<D>>, r: string)
    requires FirstAt(prefix, TbodyMarker) && '>' !in attrs
    ensures Placements(dur, prefix + (TbodyMarker + (attrs + (">" + rows)))) == Some((ps, r)) <==>
      && |ps| >= 1
      && Chain(RowParser(dur), rows, ps, r)
      && Row(dur, r).None?
  {
    SkipToRowsPast(prefix, attrs, rows);
    var p := RowParser(dur);
    Many1Chain(p, rows, ps, r);
    if |ps| >= 1 && p(rows).Some? {
      assert Chain(p, rows, ps, r) <==>
        p(rows).value.0 == ps[0] && Chain(p, p(rows).value.1, ps[1..], r);
    }
  }

  /**
   * On a page with the results `<tbody>`, `placements` fails exactly when
   * the text after the tag does not start with a row.
   */
  lemma PlacementsFailIff<D>(dur: string -> Option<D>, prefix: string, attrs: string, rows: string)
    requires FirstAt(prefix, TbodyMarker) && '>' !in attrs
    ensures Placements(dur, prefix + (TbodyMarker + (attrs + (">" + rows)))).None? <==> Row(dur, rows).None?
  {
    SkipToRowsPast(prefix, attrs, rows);
    RowConsumes(dur);
    Many1Fails(RowParser(dur), rows);
  }

  /** Past the results `<tbody>` tag, whatever attributes follow the marker. */
  lemma SkipToRowsPast(prefix: string, attrs: string, rows: string)
    requires FirstAt(prefix, TbodyMarker) && '>' !in attrs
    ensures TakeUntil(TbodyMarker, prefix + (TbodyMarker + (attrs + (">" + rows))))
         == Some((prefix, TbodyMarker + (attrs + (">" + rows))))
    ensures TakeUntilAndConsume(">", TbodyMarker + (attrs + (">" + rows))) == Some((TbodyMarker + attrs, rows))
  {
    TakeUntilOfConcat(prefix, TbodyMarker, attrs + (">" + rows));
    TbodyTagEnd(attrs, rows);
  }

  /** The results `<tbody>` tag ends at the first `>` after its attributes. */
  lemma TbodyTagEnd(attrs: string, rows: string)
    requires '>' !in attrs
    ensures TakeUntilAndConsume(">", TbodyMarker + (attrs + (">" + rows))) == Some((TbodyMarker + attrs, rows))
  {
    var tag := TbodyMarker + attrs;
    assert '>' !in tag;
    assert TbodyMarker + (attrs + (">" + rows)) == tag + (">" + rows);
    assert ">" == ['>'];
    ConsumeCharOfConcat(tag, '>', rows);
  }

  // ---------------------------------------------------------------------
  // The race menu

  /** One `<option>` of the race menu: its value, whether it is selected, and its text. */
  datatype MenuOption = MenuOption(value: string, selected: bool, text: string)

  /** `value_map_from_options`' map from an option's text to its value and whether it is selected. */
  type ValueMap = map<string, (string, bool)>

  /** Optional white space, then `selected=""`, as the option parser looks for it. */
  function SelectedAttr(s: string): (r: Option<string>)
    ensures r.Some? ==> |r.value| < |s|
  {
    var m :- Multispace1(s);
    Tag("selected=\"\"", m.1)
  }

  /**
   * `option`: white space, `<option value="`, the value up to the next
   * `"`, an optional ` selected=""`, `>`, and the text up to `</option>`.
   */
  function OptionItem(s: string): (r: Option<(MenuOption, string)>)
    ensures r.Some? ==> |r.value.1| < |s|
  {
    var s1 := Multispace0(s).1;
    var s2 :- Tag("<option value=\"", s1);
    var v :- TakeUntilAndConsume("\"", s2);
    var sel := match SelectedAttr(v.1)
      case Some(r) => (true, r)
      case None => (false, v.1);
    var s3 :- Tag(">", sel.1);
    var m :- TakeUntilAndConsume("</option>", s3);
    Some((MenuOption(v.0, sel.0, m.0), m.1))
  }

  function OptionParser(): Parser<MenuOption> {
    s => OptionItem(s)
  }

  /** The index of the last option whose text is `item`. */
  function LastWith(items: seq<MenuOption>, item: string): (r: Option<nat>)
    ensures r.Some? ==> r.value < |items| && items[r.value].text == item
    ensures r.Some? ==> forall j :: r.value < j < |items| ==> items[j].text != item
    ensures r.None? <==> forall j :: 0 <= j < |items| ==> items[j].text != item
    decreases |items|
  {
    if |items| == 0 then None
    else if items[|items| - 1].text == item then Some(|items| - 1)
    else LastWith(items[..|items| - 1], item)
  }

  /** The loop of `value_map_from_options`: each option inserted in turn, so a later option with the same text wins. */
  function BuildMap(items: seq<MenuOption>): ValueMap
    decreases |items|
  {
    if |items| == 0 then map[]
    else
      var o := items[|items| - 1];
      BuildMap(items[..|items| - 1])[o.text := (o.value, o.selected)]
  }

  /** A text is in the map exactly when some option carries it, and maps to the last such option. */
  lemma {:induction false} BuildMapSpec(items: seq<MenuOption>, item: string)
    ensures item in BuildMap(items) <==> LastWith(items, item).Some?
    ensures LastWith(items, item).Some? ==>
      var o := items[LastWith(items, item).value];
      BuildMap(items)[item] == (o.value, o.selected)
    decreases |items|
  {
    if |items| > 0 && items[|items| - 1].text != item {
      BuildMapSpec(items[..|items| - 1], item);
      var prefix := items[..|items| - 1];
      if LastWith(prefix, item).Some? {
        assert items[LastWith(prefix, item).value] == prefix[LastWith(prefix, item).value];
      }
    }
  }

  /** `value_map_from_options`: all of the text must be a list of one or more options. */
  function ValueMapFromOptions(html: string): Option<ValueMap> {
    var items :- AllConsuming(Many1(OptionParser(), html));
    Some(BuildMap(items))
  }

  datatype ChooseError = UnreadableMenu | MissingMenuItem

  /**
   * The decision of `choose_the_race`: an error when the menu cannot be
   * read or has no option with the text; nothing to do when the option is already
   * selected; otherwise the value to select.
   */
  function ChooseRace(html: string, menuItem: string): Result<Option<string>, ChooseError> {
    match ValueMapFromOptions(html)
    case None => Err(UnreadableMenu)
    case Some(m) =>
      if menuItem !in m then Err(MissingMenuItem)
      else if m[menuItem].1 then Ok(None)
      else Ok(Some(m[menuItem].0))
  }

  function SelectedText(selected: bool): string {
    if selected then " selected=\"\"" else ""
  }

  /** An option as the menu writes it. */
  function OptionHtml(o: MenuOption, rest: string): string {
    "\n" + ("<option value=\"" + (o.value + ("\"" + (SelectedText(o.selected) + (">" + (o.text + ("</option>" + rest)))))))
  }

  /** The options the menu can hold and still be read back: no `"` in a value, no `<` in its text. */
  predicate Writable(o: MenuOption) {
    '"' !in o.value && '<' !in o.text
  }

  lemma SelectedOfHtml(selected: bool, rest: string)
    ensures SelectedAttr(SelectedText(selected) + (">" + rest))
         == (if selected then Some(">" + rest) else None)
  {
    if selected {
      var t := "selected=\"\"" + (">" + rest);
      assert SelectedText(selected) + (">" + rest) == " " + t;
      Multispace0OfConcat(" ", t);
      TagOfConcat("selected=\"\"", ">" + rest);
    } else {
      assert SelectedText(selected) + (">" + rest) == ">" + rest;
    }
  }

  /** `option` in terms of the results of its steps. */
  lemma OptionItemSteps(s: string, s1: string, s2: string, value: string, afterValue: string,
                        selected: bool, s3: string, s4: string, text: string, rest: string)
    requires Multispace0(s).1 == s1 && Tag("<option value=\"", s1) == Some(s2)
    requires TakeUntilAndConsume("\"", s2) == Some((value, afterValue))
    requires (match SelectedAttr(afterValue)
              case Some(r) => (true, r)
              case None => (false, afterValue)) == (selected, s3)
    requires Tag(">", s3) == Some(s4) && TakeUntilAndConsume("</option>", s4) == Some((text, rest))
    ensures OptionItem(s) == Some((MenuOption(value, selected, text), rest))
  {
  }

  /** An option is read back as itself. */
  lemma OptionOfHtml(o: MenuOption, rest: string)
    requires Writable(o)
    ensures OptionItem(OptionHtml(o, rest)) == Some((o, rest))
  {
    var r4 := o.text + ("</option>" + rest);
    var r3 := SelectedText(o.selected) + (">" + r4);
    var r2 := o.value + ("\"" + r3);
    var r1 := "<option value=\"" + r2;
    Multispace0OfConcat("\n", r1);
    TagOfConcat("<option value=\"", r2);
    ConsumeCharOfConcat(o.value, '"', r3);
    TagOfConcat(">", r4);
    assert IsAscii("</option>");
    FirstAtByHead(o.text, "</option>");
    ConsumeOfConcat(o.text, "</option>", rest);
    var html := OptionHtml(o, rest);
    assert html == "\n" + r1;
    assert Multispace0(html).1 == r1;
    assert TakeUntilAndConsume("\"", r2) == Some((o.value, r3));
    assert (match SelectedAttr(r3)
               case Some(r) => (true, r)
               case None => (false, r3)) == (o.selected, ">" + r4) by {
      SelectedOfHtml(o.selected, r4);
      if !o.selected {
        assert r3 == ">" + r4;
      }
    }
    assert TakeUntilAndConsume("</option>", r4) == Some((o.text, rest));
    OptionItemSteps(html, r1, r2, o.value, r3, o.selected, ">" + r4, r4, o.text, rest);
  }

  /** Options rendered one after another, followed by `rest`. */
  function OptionsHtml(items: seq<MenuOption>, rest: string): string
    decreases |items|
  {
    if |items| == 0 then rest else OptionHtml(items[0], OptionsHtml(items[1..], rest))
  }

  lemma OptionsStep(items: seq<MenuOption>, rest: string, i: nat)
    requires i < |items| && Writable(items[i])
    ensures OptionItem(OptionsHtml(items[i..], rest)) == Some((items[i], OptionsHtml(items[i + 1..], rest)))
  {
    assert items[i..][1..] == items[i + 1..];
    OptionOfHtml(items[i], OptionsHtml(items[i + 1..], rest));
  }

  /** The options of a rendered menu are read back in order, up to `rest`, which is not an option. */
  lemma OptionsOfHtml(items: seq<MenuOption>, rest: string)
    requires |items| >= 1 && forall i :: 0 <= i < |items| ==> Writable(items[i])
    requires OptionItem(rest).None?
    ensures Many1(OptionParser(), OptionsHtml(items, rest)) == Some((items, rest))
  {
    var segs := seq(|items| + 1, i requires 0 <= i <= |items| => OptionsHtml(items[i..], rest));
    forall i | 0 <= i < |items|
      ensures OptionParser()(segs[i]) == Some((items[i], segs[i + 1])) && |segs[i + 1]| < |segs[i]|
    {
      OptionsStep(items, rest, i);
    }
    assert segs[0] == OptionsHtml(items, rest) by { assert items[0..] == items; }
    assert segs[|items|] == rest by { assert items[|items|..] == []; }
    Many1OfSteps(OptionParser(), items, segs);
  }

  /**
   * The race chosen from a rendered menu: an error when no option has the
   * text, nothing to do when the last option with the text is selected,
   * and its value otherwise.
   */
  lemma ChooseRaceOfMenu(items: seq<MenuOption>, menuItem: string)
    requires |items| >= 1 && forall i :: 0 <= i < |items| ==> Writable(items[i])
    ensures ChooseRace(OptionsHtml(items, ""), menuItem) ==
      match LastWith(items, menuItem)
      case None => Err(MissingMenuItem)
      case Some(i) => if items[i].selected then Ok(None) else Ok(Some(items[i].value))
  {
    OptionsOfHtml(items, "");
    BuildMapSpec(items, menuItem);
  }

  /**
   * All of the menu's text must be options: white space after the last
   * `</option>` makes the whole menu unreadable.
   */
  lemma TrailingSpaceSpoilsMenu(items: seq<MenuOption>)
    requires |items| >= 1 && forall i :: 0 <= i < |items| ==> Writable(items[i])
    ensures ValueMapFromOptions(OptionsHtml(items, "\n")).None?
  {
    assert Multispace0("\n") == ("\n", "") by { Multispace0OfConcat("\n", ""); }
    OptionsOfHtml(items, "\n");
  }

  // ---------------------------------------------------------------------
  // Paging and parameters

  /**
   * `next_button`: there is a next page when the button has a `class`
   * attribute that does not mention `ui-state-disabled`.
   */
  function HasNextPage(classAttr: Option<string>): bool {
    classAttr.Some? && FindFirst(classAttr.value, "ui-state-disabled").None?
  }

  /** The next button leads on exactly when it has classes and none of them disables it. */
  lemma HasNextPageIff(classAttr: Option<string>)
    ensures HasNextPage(classAttr) <==> classAttr.Some? && !Contains(classAttr.value, "ui-state-disabled")
  {
    if classAttr.Some? {
      FindFirstSpec(classAttr.value, "ui-state-disabled");
    }
  }

  /**
   * `menu_item_for`: the text of a race's option in the menu.  The source's
   * match has no arm for `TenKRuck` or `SoloMaleHeavy`; those races have no
   * menu item here.
   */
  function MenuItemFor(race: Cli.Race): (r: Option<string>)
    ensures r.Some? <==> race !in {Cli.TenKRuck, Cli.SoloMaleHeavy}
  {
    match race
    case Full => Some("Shiprock Marathon")
    case Half => Some("Shiprock Half Marathon")
    case Relay => Some("Shiprock Marathon Relay")
    case TenK => Some("Shiprock 10k")
    case FiveK => Some("Shiprock 5k")
    case Handcycle => Some("Shiprock Marathon Handcycle")
    case TenKRuck => None
    case SoloMaleHeavy => None
  }

  /** Distinct races are looked up under distinct menu items. */
  lemma MenuItemsDistinct(r1: Cli.Race, r2: Cli.Race)
    requires MenuItemFor(r1).Some? && MenuItemFor(r2).Some?
    ensures MenuItemFor(r1) == MenuItemFor(r2) ==> r1 == r2
  {
  }

  /** `url_for_year`: the event number of each year the scraper knows. */
  function UrlForYear(year: Cli.Year): (r: Option<string>)
    ensures r.Some? <==> 2017 <= year <= 2019
    ensures r.Some? ==> |r.value| == 5 && Decimal.AllDigits(r.value)
  {
    if year == 2017 then Some("24236")
    else if year == 2018 then Some("33304")
    else if year == 2019 then Some("40479")
    else None
  }

  datatype Params = Params(year: Cli.Year, menuItem: string)

  datatype ParamsError = UnsupportedYear(year: Cli.Year) | UnsupportedRace(race: Cli.Race)

  /** `Params::new`: the year is checked first, then the race's menu item is looked up. */
  function ParamsNew(opt: Cli.Opt): (r: Result<Params, ParamsError>)
    ensures r.Ok? ==> r.value.year == opt.year
  {
    if UrlForYear(opt.year).None? then Err(UnsupportedYear(opt.year))
    else match MenuItemFor(opt.race)
      case None => Err(UnsupportedRace(opt.race))
      case Some(item) => Ok(Params(opt.year, item))
  }

  const EventUrlPrefix := "https://results.chronotrack.com/event/results/event/event-"

  /** `Scraper::url`, which panics on any year but 2017, 2018 and 2019. */
  function Url(p: Params): (r: string)
    requires 2017 <= p.year <= 2019
    ensures |r| == |EventUrlPrefix| + 5
    ensures r == EventUrlPrefix + UrlForYear(p.year).value
  {
    EventUrlPrefix + (if p.year == 2017 then "24236" else if p.year == 2018 then "33304" else "40479")
  }

  /**
   * `Params::new` succeeds exactly for a known year and a race with a menu
   * item, keeps that item, and its result's URL names the year's event
   * from `url_for_year`; an unknown year is reported whatever the race.
   */
  lemma ParamsNewSpec(opt: Cli.Opt)
    ensures ParamsNew(opt).Ok? <==> UrlForYear(opt.year).Some? && MenuItemFor(opt.race).Some?
    ensures UrlForYear(opt.year).None? ==> ParamsNew(opt) == Err(UnsupportedYear(opt.year))
    ensures ParamsNew(opt).Ok? ==>
      var p := ParamsNew(opt).value;
      p.menuItem == MenuItemFor(opt.race).value
      && 2017 <= p.year <= 2019
      && Url(p) == EventUrlPrefix + UrlForYear(opt.year).value
  {
  }
}
