/**
 * src/runsignup.rs: The Quad results on runsignup.com.  Each placement
 * starts at the next result row; the place, the name and the clock time
 * are found after fixed cell openings, and the name loses its bold tags.
 *
 * Durations are read by the parameter `dur`, as in the Chronotrack model.
 */
module Runsignup {
  import opened Wrappers
  import opened Text
  import opened Nom
  import Cli

  /** `struct Placement`. */
  datatype Placement<D> = Placement(place: string, name: string, clockTime: D)

  const RowTag := "<tr data-result-url=\""
  const PlaceCell := "<td class=\"place\">"
  const NameCell := "<td class=\"name\">"
  const TimeAttr := "class=\"time\">"

  /** The name without its bold tags: every `<b>` removed, then every `</b>`. */
  function StripBold(name: string): string {
    Remove(Remove(name, "<b>"), "</b>")
  }

  /** `Placement::new`: the place verbatim, the name without bold tags. */
  function NewPlacement<D>(place: string, name: string, clockTime: D): Placement<D> {
    Placement(place, StripBold(name), clockTime)
  }

  /** The place: skip to the next row, through its place cell's opening, and take the text up to `<`. */
  function PlaceField(s: string): (r: Option<(string, string)>)
    ensures r.Some? ==> |r.value.1| < |s|
  {
    var atRow :- TakeUntil(RowTag, s);
    var inPlace :- TakeUntilAndConsume(PlaceCell, atRow.1);
    TakeUntil("<", inPlace.1)
  }

  /** The name: through the next name cell's opening, and the text up to `</td>`. */
  function NameField(s: string): (r: Option<(string, string)>)
    ensures r.Some? ==> |r.value.1| <= |s|
  {
    var inName :- TakeUntilAndConsume(NameCell, s);
    TakeUntil("</td>", inName.1)
  }

  /** The clock time: the text after the next `class="time">` up to `<`, read by `dur`. */
  function TimeField<D>(dur: string -> Option<D>, s: string): (r: Option<(D, string)>)
    ensures r.Some? ==> |r.value.1| <= |s|
  {
    var inTime :- TakeUntilAndConsume(TimeAttr, s);
    var m :- TakeUntil("<", inTime.1);
    var time :- dur(m.0);
    Some((time, m.1))
  }

  /** `placement`. */
  function PlacementItem<D>(dur: string -> Option<D>, s: string): (r: Option<(Placement<D>, string)>)
    ensures r.Some? ==> |r.value.1| < |s|
  {
    var place :- PlaceField(s);
    var name :- NameField(place.1);
    var time :- TimeField(dur, name.1);
    Some((NewPlacement(place.0, name.0, time.0), time.1))
  }

  function PlacementParser<D>(dur: string -> Option<D>): Parser<Placement<D>> {
    s => PlacementItem(dur, s)
  }

  /** `placements`: one or more placements. */
  function Placements<D>(dur: string -> Option<D>, page: string): Option<(seq<Placement<D>>, string)> {
    Many1(PlacementParser(dur), page)
  }

  /**
   * `placements` needs at least one row and stops at the first row that
   * fails: its result is a run of successive placements, each one
   * consuming text, after which `placement` fails.
   */
  lemma PlacementsSpec<D>(dur: string -> Option<D>, page: string, ps: seq<Placement<D>>, r: string)
    ensures Placements(dur, page) == Some((ps, r)) <==>
      && |ps| >= 1
      && Chain(PlacementParser(dur), page, ps, r)
      && PlacementItem(dur, r).None?
  {
    var p := PlacementParser(dur);
    Many1Chain(p, page, ps, r);
    if |ps| >= 1 && p(page).Some? {
      assert Chain(p, page, ps, r) <==>
        p(page).value.0 == ps[0] && Chain(p, p(page).value.1, ps[1..], r);
    }
  }

  /** A page without a result row has no placements. */
  lemma PlacementsNeedRow<D>(dur: string -> Option<D>, page: string)
    requires !Contains(page, RowTag)
    ensures Placements(dur, page).None?
  {
    TakeUntilSpec(RowTag, page);
  }

  // ---------------------------------------------------------------------
  // Bold tags

  /** No `<b>` starts in text whose only `<` opens a `</b>`. */
  lemma NoOpeningBold(b: string, c: string)
    requires '<' !in b && '<' !in c
    ensures !Contains(b + ("</b>" + c), "<b>")
  {
    var s := b + ("</b>" + c);
    var x := "</b>" + c;
    forall j
      ensures !OccursAt(s, "<b>", j)
    {
      if 0 <= j && j + 3 <= |s| {
        if j == |b| {
          assert x[1] == "</b>"[1] == '/';
          assert s[j..] == x;
          assert s[j..j + 3][1] == s[j..][1];
          assert !OccursAt(s, "<b>", j);
        } else {
          assert s[j] != '<' by {
            if j < |b| {
              assert s[j] == b[j];
            } else {
              var k := j - |b|;
              assert s[j] == x[k];
              if k < 4 {
                assert k == 1 || k == 2 || k == 3;
                assert x[1] == '/' && x[2] == 'b' && x[3] == '>';
              } else {
                assert x[k] == c[k - 4];
              }
            }
          }
          assert s[j..j + 3][0] == s[j];
          assert !OccursAt(s, "<b>", j);
        }
      }
    }
  }

  /** Removing `<b>` from a name with one bold part drops the opening tag. */
  lemma DropOpeningBold(a: string, b: string, c: string)
    requires '<' !in a && '<' !in b && '<' !in c
    ensures Remove(a + ("<b>" + (b + ("</b>" + c))), "<b>") == (a + b) + ("</b>" + c)
  {
    FirstAtByHead(a, "<b>");
    RemoveOfConcat(a, "<b>", b + ("</b>" + c));
    NoOpeningBold(b, c);
    RemoveAbsent(b + ("</b>" + c), "<b>");
  }

  /** Removing `</b>` from text with one closing tag drops just that tag. */
  lemma DropClosingBold(ab: string, c: string)
    requires '<' !in ab && '<' !in c
    ensures Remove(ab + ("</b>" + c), "</b>") == ab + c
  {
    FirstAtByHead(ab, "</b>");
    RemoveOfConcat(ab, "</b>", c);
    NotContainsByHead(c, "</b>");
    RemoveAbsent(c, "</b>");
  }

  /** A name with one bold part loses exactly the two tags around it. */
  lemma StripBoldPart(a: string, b: string, c: string)
    requires '<' !in a && '<' !in b && '<' !in c
    ensures StripBold(a + ("<b>" + (b + ("</b>" + c)))) == a + (b + c)
  {
    DropOpeningBold(a, b, c);
    DropClosingBold(a + b, c);
  }

  /** A name ending in its bold part loses the two tags around it. */
  lemma StripBoldLast(a: string, b: string)
    requires '<' !in a && '<' !in b
    ensures StripBold(a + ("<b>" + (b + "</b>"))) == a + b
  {
    StripBoldPart(a, b, "");
    assert b + ("</b>" + "") == b + "</b>";
    assert a + (b + "") == a + b;
  }

  /** A name without any tag is kept as it is. */
  lemma StripBoldPlain(name: string)
    requires '<' !in name
    ensures StripBold(name) == name
  {
    NotContainsByHead(name, "<b>");
    RemoveAbsent(name, "<b>");
    NotContainsByHead(name, "</b>");
    RemoveAbsent(name, "</b>");
  }

  /** Every `<` in `s` opens a `<b>` or a `</b>` tag. */
  ghost predicate OnlyBoldTags(s: string) {
    forall i :: 0 <= i < |s| && s[i] == '<' ==> OccursAt(s, "<b>", i) || OccursAt(s, "</b>", i)
  }

  /** Every `<` in `s` opens a `</b>` tag. */
  ghost predicate OnlyClosingBold(s: string) {
    forall i :: 0 <= i < |s| && s[i] == '<' ==> OccursAt(s, "</b>", i)
  }

  /** A name whose every `<` opens a bold tag comes out with no `<` left. */
  lemma StripBoldAllTags(name: string)
    requires OnlyBoldTags(name)
    ensures '<' !in StripBold(name)
  {
    DropOpeningTags(name);
    DropClosingTags(Remove(name, "<b>"));
  }

  /**
   * The two removals are not one pass: a `</b>` inside a `<b>` splits it,
   * and removing the `</b>` joins the two halves into a new `<b>`.
   */
  lemma StripBoldCanLeaveTag()
    ensures StripBold("<b</b>>") == "<b>"
  {
    SplitTagKeptByOpening();
    SplitTagLosesClosing();
  }

  /** `<b</b>>` holds no `<b>`, so the first pass keeps it. */
  lemma SplitTagKeptByOpening()
    ensures Remove("<b</b>>", "<b>") == "<b</b>>"
  {
    var s := "<b</b>>";
    forall j
      ensures !OccursAt(s, "<b>", j)
    {
      if 0 <= j && j + 3 <= |s| {
        assert s[j..j + 3][0] == s[j] && s[j..j + 3][2] == s[j + 2];
      }
    }
    RemoveAbsent(s, "<b>");
  }

  /** The second pass drops the inner `</b>` and joins `<b` and `>`. */
  lemma SplitTagLosesClosing()
    ensures Remove("<b</b>>", "</b>") == "<b>"
  {
    forall j | 0 <= j < |"<b"|
      ensures !OccursAt("<b" + "</b>", "</b>", j)
    {
      assert ("<b" + "</b>")[j..j + 4][1] == ("<b" + "</b>")[j + 1];
    }
    assert "<b</b>>" == "<b" + ("</b>" + ">");
    RemoveOfConcat("<b", "</b>", ">");
    NotContainsByHead(">", "</b>");
    RemoveAbsent(">", "</b>");
  }

  /** Removing every `<b>` leaves only `</b>` tags behind. */
  lemma {:induction false} DropOpeningTags(s: string)
    requires OnlyBoldTags(s)
    ensures OnlyClosingBold(Remove(s, "<b>"))
    decreases |s|
  {
    if |s| == 0 {
      RemoveEmpty("<b>");
    } else if OccursAt(s, "<b>", 0) {
      RemoveHead(s, "<b>");
      BoldTagsSuffix(s, 3);
      DropOpeningTags(s[3..]);
    } else if s[0] == '<' {
      assert OccursAt(s, "</b>", 0);
      var y := s[4..];
      assert s == "</b>" + y;
      ClosingTagNotOpening(y);
      RemoveKeepsHead("</b>", y, "<b>");
      BoldTagsSuffix(s, 4);
      DropOpeningTags(y);
      assert OnlyClosingBold("</b>") by {
        assert "</b>"[0..4] == "</b>";
      }
      ClosingBoldConcat("</b>", Remove(y, "<b>"));
    } else {
      RemoveStep(s, "<b>");
      BoldTagsSuffix(s, 1);
      DropOpeningTags(s[1..]);
      ClosingBoldConcat([s[0]], Remove(s[1..], "<b>"));
    }
  }

  /** Removing every `</b>` from text whose only tags are `</b>` leaves no `<`. */
  lemma {:induction false} DropClosingTags(s: string)
    requires OnlyClosingBold(s)
    ensures '<' !in Remove(s, "</b>")
    decreases |s|
  {
    if |s| == 0 {
      RemoveEmpty("</b>");
    } else if OccursAt(s, "</b>", 0) {
      RemoveHead(s, "</b>");
      ClosingBoldSuffix(s, 4);
      DropClosingTags(s[4..]);
    } else {
      assert s[0] != '<';
      RemoveStep(s, "</b>");
      ClosingBoldSuffix(s, 1);
      DropClosingTags(s[1..]);
    }
  }

  /** No `<b>` starts inside a leading `</b>`. */
  lemma ClosingTagNotOpening(y: string)
    ensures forall j :: 0 <= j < |"</b>"| ==> !OccursAt("</b>" + y, "<b>", j)
  {
    var s := "</b>" + y;
    forall j | 0 <= j < 4
      ensures !OccursAt(s, "<b>", j)
    {
      if j + 3 <= |s| {
        assert s[j..j + 3][0] == s[j] && s[j..j + 3][1] == s[j + 1];
      }
    }
  }

  /** A suffix keeps every `<` a bold tag. */
  lemma BoldTagsSuffix(s: string, k: nat)
    requires OnlyBoldTags(s) && k <= |s|
    ensures OnlyBoldTags(s[k..])
  {
    var r := s[k..];
    forall i | 0 <= i < |r| && r[i] == '<'
      ensures OccursAt(r, "<b>", i) || OccursAt(r, "</b>", i)
    {
      assert s[k + i] == '<';
      if OccursAt(s, "<b>", k + i) {
        assert r[i..i + 3] == s[k + i..k + i + 3];
      } else {
        assert r[i..i + 4] == s[k + i..k + i + 4];
      }
    }
  }

  /** A suffix keeps every `<` a closing tag. */
  lemma ClosingBoldSuffix(s: string, k: nat)
    requires OnlyClosingBold(s) && k <= |s|
    ensures OnlyClosingBold(s[k..])
  {
    var r := s[k..];
    forall i | 0 <= i < |r| && r[i] == '<'
      ensures OccursAt(r, "</b>", i)
    {
      assert s[k + i] == '<';
      assert r[i..i + 4] == s[k + i..k + i + 4];
    }
  }

  /** Joining two texts whose tags are all `</b>` gives such a text. */
  lemma ClosingBoldConcat(a: string, b: string)
    requires OnlyClosingBold(a) && OnlyClosingBold(b)
    ensures OnlyClosingBold(a + b)
  {
    var s := a + b;
    forall i | 0 <= i < |s| && s[i] == '<'
      ensures OccursAt(s, "</b>", i)
    {
      if i < |a| {
        assert a[i] == '<';
        assert s[i..i + 4] == a[i..i + 4];
      } else {
        assert b[i - |a|] == '<';
        assert s[i..i + 4] == b[i - |a|..i - |a| + 4];
      }
    }
  }

  // ---------------------------------------------------------------------
  // Reading back a row

  /**
   * A row as the page lays it out: `lead` up to the row, `attrs` up to the
   * place cell, `g2` from the place to the name cell (opening with a tag),
   * and `g3` from the `</td>` closing the name to the time attribute.
   */
  function RowText(lead: string, attrs: string, place: string, g2: string,
                   name: string, g3: string, time: string, rest: string): string {
    lead + (RowTag + (attrs + (PlaceCell + (place + (g2 + (NameCell + (name + ("</td>" + (g3 + (TimeAttr + (time + rest)))))))))))
  }

  /** The markup around the fields of a row that `placement` reads past. */
  ghost predicate Gaps(lead: string, attrs: string, g2: string, name: string, g3: string, rest: string) {
    && FirstAt(lead, RowTag)
    && FirstAt(RowTag + attrs, PlaceCell)
    && |g2| > 0 && g2[0] == '<' && FirstAt(g2, NameCell)
    && FirstAt(name, "</td>") && FirstAt("</td>" + g3, TimeAttr)
    && |rest| > 0 && rest[0] == '<'
  }

  lemma PlacementSteps<D>(dur: string -> Option<D>, s: string, place: string, s1: string, name: string,
                          s2: string, time: D, rest: string)
    requires PlaceField(s) == Some((place, s1))
    requires NameField(s1) == Some((name, s2))
    requires TimeField(dur, s2) == Some((time, rest))
    ensures PlacementItem(dur, s) == Some((NewPlacement(place, name, time), rest))
  {
  }

  lemma PlaceSteps(s: string, atRow: (string, string), inPlace: (string, string), place: (string, string))
    requires TakeUntil(RowTag, s) == Some(atRow)
    requires TakeUntilAndConsume(PlaceCell, atRow.1) == Some(inPlace)
    requires TakeUntil("<", inPlace.1) == Some(place)
    ensures PlaceField(s) == Some(place)
  {
  }

  /** Skipping through a cell opening that follows a tag, whatever the tag and the cell. */
  lemma CellAfterTag(tag: string, attrs: string, cell: string, s0: string)
    requires IsAscii(cell) && FirstAt(tag + attrs, cell)
    ensures TakeUntilAndConsume(cell, tag + (attrs + (cell + s0))) == Some((tag + attrs, s0))
  {
    assert tag + (attrs + (cell + s0)) == (tag + attrs) + (cell + s0);
    ConsumeOfConcat(tag + attrs, cell, s0);
  }

  /** The place is the text between the place cell's opening and the next tag. */
  lemma PlaceOfRow(lead: string, attrs: string, place: string, s1: string)
    requires FirstAt(lead, RowTag) && FirstAt(RowTag + attrs, PlaceCell)
    requires '<' !in place && |s1| > 0 && s1[0] == '<'
    ensures PlaceField(lead + (RowTag + (attrs + (PlaceCell + (place + s1))))) == Some((place, s1))
  {
    assert IsAscii(PlaceCell);
    TakeUntilOfConcat(lead, RowTag, attrs + (PlaceCell + (place + s1)));
    CellAfterTag(RowTag, attrs, PlaceCell, place + s1);
    TakeUntilToTag(place, s1);
    PlaceSteps(lead + (RowTag + (attrs + (PlaceCell + (place + s1)))),
               (lead, RowTag + (attrs + (PlaceCell + (place + s1)))), (RowTag + attrs, place + s1), (place, s1));
  }

  /** The raw name is the text between the name cell's opening and the next `</td>`. */
  lemma NameOfRow(g2: string, name: string, s3: string)
    requires FirstAt(g2, NameCell) && FirstAt(name, "</td>")
    ensures NameField(g2 + (NameCell + (name + ("</td>" + s3)))) == Some((name, "</td>" + s3))
  {
    assert IsAscii(NameCell);
    ConsumeOfConcat(g2, NameCell, name + ("</td>" + s3));
    TakeUntilOfConcat(name, "</td>", s3);
  }

  /** The clock time is what `dur` makes of the text after the time attribute. */
  lemma TimeOfRow<D>(dur: string -> Option<D>, g3: string, time: string, d: D, rest: string)
    requires FirstAt("</td>" + g3, TimeAttr) && '<' !in time && dur(time) == Some(d)
    requires |rest| > 0 && rest[0] == '<'
    ensures TimeField(dur, "</td>" + (g3 + (TimeAttr + (time + rest)))) == Some((d, rest))
  {
    assert IsAscii(TimeAttr);
    assert "</td>" + (g3 + (TimeAttr + (time + rest))) == ("</td>" + g3) + (TimeAttr + (time + rest));
    ConsumeOfConcat("</td>" + g3, TimeAttr, time + rest);
    TakeUntilToTag(time, rest);
  }

  /**
   * A row reads back as its place, its name without bold tags and the
   * duration `dur` makes of its time text, leaving what follows the time.
   */
  lemma PlacementOfRow<D>(dur: string -> Option<D>, lead: string, attrs: string, place: string, g2: string,
                          name: string, g3: string, time: string, d: D, rest: string)
    requires Gaps(lead, attrs, g2, name, g3, rest)
    requires '<' !in place && '<' !in time && dur(time) == Some(d)
    ensures PlacementItem(dur, RowText(lead, attrs, place, g2, name, g3, time, rest))
         == Some((NewPlacement(place, name, d), rest))
  {
    var s3 := "</td>" + (g3 + (TimeAttr + (time + rest)));
    var s1 := g2 + (NameCell + (name + s3));
    PlaceOfRow(lead, attrs, place, s1);
    NameOfRow(g2, name, g3 + (TimeAttr + (time + rest)));
    TimeOfRow(dur, g3, time, d, rest);
    var row := RowText(lead, attrs, place, g2, name, g3, time, rest);
    assert row == lead + (RowTag + (attrs + (PlaceCell + (place + s1))));
    PlacementSteps(dur, row, place, s1, name, s3, d, rest);
  }

  // ---------------------------------------------------------------------
  // The sample row written above `placement`

  const SampleAttrs := "/Race/Results/84435" + "/IndividualResult/" + "xFHC?resultSetId=" + "189088#U43100135\">"
  const SampleBib := "</td><td style=" + "\"text-align: " + "right;\" class=" + "\"bib\">77</td>"
  const SampleName := "Rickey " + ("<b>" + ("Gates" + "</b>"))
  const SampleCity := "<td>Boulder</td>" + "<td style=" + "\"text-align: " + "right;\" "

  /** The first row of the results page: place 1, Rickey Gates, 3:56:44. */
  function SampleRow(rest: string): string {
    RowText("", SampleAttrs, "1", SampleBib, SampleName, SampleCity, "3:56:44", rest)
  }

  lemma SampleGaps(rest: string)
    requires |rest| > 0 && rest[0] == '<'
    ensures Gaps("", SampleAttrs, SampleBib, SampleName, SampleCity, rest)
  {
    SamplePlaceGap();
    SampleNameGap();
    SampleNameEnd();
    SampleTimeGap();
  }

  lemma SamplePlaceGap()
    ensures FirstAt(RowTag + SampleAttrs, PlaceCell)
  {
    SampleAttrsLackP();
    assert 'p' !in RowTag;
    assert PlaceCell[11] == 'p' && 'p' !in PlaceCell[..11];
    FirstAtByChar(RowTag + SampleAttrs, PlaceCell, 11);
  }

  lemma SampleAttrsLackP()
    ensures 'p' !in SampleAttrs
  {
    assert 'p' !in "/Race/Results/84435";
    assert 'p' !in "/IndividualResult/";
    assert 'p' !in "xFHC?resultSetId=";
    assert 'p' !in "189088#U43100135\">";
  }

  lemma SampleNameGap()
    ensures FirstAt(SampleBib, NameCell)
  {
    assert NameCell == "<td class=\"na" + "me\">";
    assert 'm' !in "</td><td style=";
    assert 'm' !in "\"text-align: ";
    assert 'm' !in "right;\" class=";
    assert 'm' !in "\"bib\">77</td>";
    FirstAtByChar(SampleBib, NameCell, 13);
  }

  lemma SampleNameEnd()
    ensures FirstAt(SampleName, "</td>")
  {
    assert 'd' !in "Rickey " && 'd' !in "<b>" && 'd' !in "Gates" && 'd' !in "</b>";
    FirstAtByChar(SampleName, "</td>", 3);
  }

  lemma SampleTimeGap()
    ensures FirstAt("</td>" + SampleCity, TimeAttr)
  {
    assert TimeAttr == "class=\"ti" + "me\">";
    assert 'm' !in "</td>";
    assert 'm' !in "<td>Boulder</td>";
    assert 'm' !in "<td style=";
    assert 'm' !in "\"text-align: ";
    assert 'm' !in "right;\" ";
    FirstAtByChar("</td>" + SampleCity, TimeAttr, 9);
  }

  /**
   * The sample row reads as place "1", the name "Rickey Gates" with its
   * bold tags gone, and whatever duration `dur` makes of "3:56:44".
   */
  lemma SamplePlacement<D>(dur: string -> Option<D>, d: D, rest: string)
    requires dur("3:56:44") == Some(d) && |rest| > 0 && rest[0] == '<'
    ensures PlacementItem(dur, SampleRow(rest)) == Some((Placement("1", "Rickey Gates", d), rest))
  {
    SampleGaps(rest);
    PlacementOfRow(dur, "", SampleAttrs, "1", SampleBib, SampleName, SampleCity, "3:56:44", d, rest);
    SampleNameStripped();
  }

  lemma SampleNameStripped()
    ensures StripBold(SampleName) == "Rickey Gates"
  {
    StripBoldLast("Rickey ", "Gates");
  }

  // ---------------------------------------------------------------------
  // Parameters

  datatype Params = Params

  /** `Params::new`: The Quad is scraped for 2020 only. */
  function ParamsNew(opt: Cli.Opt): (r: Result<Params, Cli.Year>)
    ensures r.Ok? <==> opt.year == 2020
    ensures r.Err? ==> r.error == opt.year
  {
    if opt.year == 2020 then Ok(Params) else Err(opt.year)
  }

  const Url := "https://runsignup.com/Race/Results/84435/#resultSetId-189088;perpage:5000"
}
