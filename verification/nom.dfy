/**
 * The parser combinators the row parsers are built from, as nom 7 defines
 * them on complete `&str` input: each takes the remaining input and either
 * fails or returns what it recognised together with the input it left.
 * nom's distinction between recoverable errors and failures is not
 * modelled: none of the parsers here produces a failure, so every error is
 * recoverable and appears as `None`.
 */
module Nom {
  import opened Wrappers
  import opened Text

  /** A parser: `None` when it does not match, else its output and the rest of the input. */
  type Parser<T> = string -> Option<(T, string)>

  /** `r` is what is left of `s` after a prefix of it has been consumed. */
  predicate Rest(r: string, s: string) {
    |r| <= |s| && r == s[|s| - |r|..]
  }

  /** Characters nom's `multispace0`/`multispace1` skip. */
  predicate IsMultispace(c: char) {
    c == ' ' || c == '\t' || c == '\r' || c == '\n'
  }

  predicate AllMultispace(s: string) {
    forall i :: 0 <= i < |s| ==> IsMultispace(s[i])
  }

  // ---------------------------------------------------------------------
  // Primitive parsers

  /** `tag(t)`: consumes the literal `t`. */
  function Tag(t: string, s: string): (r: Option<string>)
    ensures r.Some? <==> StartsWith(s, t)
    ensures r.Some? ==> s == t + r.value
  {
    if StartsWith(s, t) then Some(s[|t|..]) else None
  }

  /** `take_until(t)`: the text before the first `t`; the `t` itself is not consumed. */
  function TakeUntil(t: string, s: string): (r: Option<(string, string)>)
    ensures r.Some? ==> Rest(r.value.1, s)
  {
    match FindFirst(s, t)
    case None => None
    case Some(i) => Some((s[..i], s[i..]))
  }

  /** `take(n)` on `&str`: the first `n` characters. */
  function Take(n: nat, s: string): (r: Option<(string, string)>)
    ensures r.Some? <==> n <= |s|
    ensures r.Some? ==> |r.value.0| == n && s == r.value.0 + r.value.1
  {
    if n <= |s| then Some((s[..n], s[n..])) else None
  }

  /** `multispace0`: the longest prefix of spaces, tabs, carriage returns and newlines. */
  function Multispace0(s: string): (r: (string, string))
    ensures s == r.0 + r.1 && AllMultispace(r.0)
    ensures |r.1| > 0 ==> !IsMultispace(r.1[0])
    decreases |s|
  {
    if |s| > 0 && IsMultispace(s[0]) then
      var (ws, rest) := Multispace0(s[1..]);
      ([s[0]] + ws, rest)
    else ("", s)
  }

  /** `multispace1`: like `multispace0` but at least one character must be skipped. */
  function Multispace1(s: string): (r: Option<(string, string)>)
    ensures r.Some? <==> |s| > 0 && IsMultispace(s[0])
    ensures r.Some? ==> r.value == Multispace0(s)
  {
    if |s| > 0 && IsMultispace(s[0]) then Some(Multispace0(s)) else None
  }

  // ---------------------------------------------------------------------
  // take_until_and_consume (src/main.rs)

  /** Number of bytes the character takes in UTF-8. */
  function Utf8Width(c: char): nat {
    if c as int < 0x80 then 1
    else if c as int < 0x800 then 2
    else if c as int < 0x10000 then 3
    else 4
  }

  /** `str::len`: the length of the text in UTF-8 bytes. */
  function ByteLen(t: string): (n: nat)
    ensures n >= |t|
    decreases |t|
  {
    if |t| == 0 then 0 else Utf8Width(t[0]) + ByteLen(t[1..])
  }

  predicate IsAscii(t: string) {
    forall i :: 0 <= i < |t| ==> t[i] as int < 0x80
  }

  /** An ASCII text is as many bytes long as it is characters long. */
  lemma {:induction false} AsciiByteLen(t: string)
    requires IsAscii(t)
    ensures ByteLen(t) == |t|
    decreases |t|
  {
    if |t| > 0 {
      assert IsAscii(t[1..]) by {
        forall i | 0 <= i < |t| - 1 ensures t[1..][i] as int < 0x80 {
          assert t[1..][i] == t[i + 1];
        }
      }
      AsciiByteLen(t[1..]);
    }
  }

  /**
   * The helper of src/main.rs: `take_until(t)` followed by `take(t.len())`.
   * nom's `take` on `&str` counts characters while `len` counts bytes, so
   * the number of characters dropped after the match is the UTF-8 length
   * of `t`; the two agree on ASCII tags, which are the only ones used.
   */
  function TakeUntilAndConsume(t: string, s: string): (r: Option<(string, string)>)
    ensures r.Some? ==> Rest(r.value.1, s) && |r.value.1| + |t| <= |s|
  {
    match FindFirst(s, t)
    case None => None
    case Some(i) =>
      if i + ByteLen(t) <= |s| then Some((s[..i], s[i + ByteLen(t)..])) else None
  }

  // ---------------------------------------------------------------------
  // What the primitives recognise

  /**
   * `take_until(t)` succeeds exactly when `t` occurs; it returns the text
   * before the first occurrence and leaves the input from that occurrence on.
   */
  lemma TakeUntilSpec(t: string, s: string)
    ensures TakeUntil(t, s).Some? <==> Contains(s, t)
    ensures TakeUntil(t, s).Some? ==>
      var (out, rest) := TakeUntil(t, s).value;
      s == out + rest && StartsWith(rest, t) && forall j :: 0 <= j < |out| ==> !OccursAt(s, t, j)
  {
    FindFirstSpec(s, t);
  }

  /**
   * For an ASCII tag, `take_until_and_consume(t)` succeeds exactly when `t`
   * occurs; the output, the tag and the remainder reassemble the input, and
   * no occurrence of `t` starts inside the output.
   */
  lemma TakeUntilAndConsumeSpec(t: string, s: string)
    requires IsAscii(t)
    ensures TakeUntilAndConsume(t, s).Some? <==> Contains(s, t)
    ensures TakeUntilAndConsume(t, s).Some? ==>
      var (out, rest) := TakeUntilAndConsume(t, s).value;
      s == out + t + rest && forall j :: 0 <= j < |out| ==> !OccursAt(s, t, j)
  {
    FindFirstSpec(s, t);
    AsciiByteLen(t);
    match FindFirst(s, t)
    case None =>
    case Some(i) =>
      assert s[i..i + |t|] == t;
      assert s == s[..i] + t + s[i + |t|..];
  }

  /** `take_until(t)` on `a + t + b` where `t` first occurs after `a` returns `a`. */
  lemma TakeUntilOfConcat(a: string, t: string, b: string)
    requires FirstAt(a, t)
    ensures TakeUntil(t, a + (t + b)) == Some((a, t + b))
  {
    FindFirstOfConcat(a, t, b);
    AfterFirst(a, t, b);
  }

  /** `take_until_and_consume(t)` on `a + t + b` where `t` first occurs after `a` returns `a` and leaves `b`. */
  lemma ConsumeOfConcat(a: string, t: string, b: string)
    requires IsAscii(t) && FirstAt(a, t)
    ensures TakeUntilAndConsume(t, a + (t + b)) == Some((a, b))
  {
    FindFirstOfConcat(a, t, b);
    AsciiByteLen(t);
    AfterFirst(a, t, b);
  }

  /** The special case of a one-character tag absent from `a`. */
  lemma ConsumeCharOfConcat(a: string, c: char, b: string)
    requires c as int < 0x80 && c !in a
    ensures TakeUntilAndConsume([c], a + ([c] + b)) == Some((a, b))
  {
    FirstAtByHead(a, [c]);
    ConsumeOfConcat(a, [c], b);
  }

  /** `take_until("<")` stops at the first `<`, which opens the text after `v`. */
  lemma TakeUntilToTag(v: string, x: string)
    requires '<' !in v && |x| > 0 && x[0] == '<'
    ensures TakeUntil("<", v + x) == Some((v, x))
  {
    assert x == "<" + x[1..];
    FirstAtByHead(v, "<");
    TakeUntilOfConcat(v, "<", x[1..]);
  }

  /** `tag(t)` on `t + b` leaves `b`. */
  lemma TagOfConcat(t: string, b: string)
    ensures Tag(t, t + b) == Some(b)
  {
    assert (t + b)[..|t|] == t;
  }

  /** `multispace0` skips exactly a run of white space followed by something else. */
  lemma {:induction false} Multispace0OfConcat(ws: string, b: string)
    requires AllMultispace(ws) && (|b| > 0 ==> !IsMultispace(b[0]))
    ensures Multispace0(ws + b) == (ws, b)
    decreases |ws|
  {
    if |ws| > 0 {
      var s := ws + b;
      assert s[0] == ws[0];
      assert s[1..] == ws[1..] + b;
      Multispace0OfConcat(ws[1..], b);
      assert [ws[0]] + ws[1..] == ws;
    } else {
      assert ws + b == b;
    }
  }

  /** nom's `opt`: a failed parser yields `None` and leaves the input as it was. */
  function Opt<T>(r: Option<(T, string)>, s: string): (Option<T>, string) {
    match r
    case Some((v, rest)) => (Some(v), rest)
    case None => (None, s)
  }

  /** Items written one after another by `render`, each given the text that follows it, then `tail`. */
  function Rendered<T>(render: (T, string) -> string, items: seq<T>, tail: string): string
    decreases |items|
  {
    if |items| == 0 then tail else render(items[0], Rendered(render, items[1..], tail))
  }

  // ---------------------------------------------------------------------
  // many1

  /**
   * The loop of nom's `many1` after its first success: apply `p` until it
   * fails.  A success that does not shorten the input makes the whole
   * repetition fail (nom's guard against looping forever).
   */
  function ManyLoop<T>(p: Parser<T>, s: string): Option<(seq<T>, string)>
    decreases |s|
  {
    match p(s)
    case None => Some(([], s))
    case Some((v, rest)) =>
      if |rest| >= |s| then None
      else
        match ManyLoop(p, rest)
        case None => None
        case Some((vs, r)) => Some(([v] + vs, r))
  }

  /** nom's `many1(p)`: one or more successes of `p`, as many as there are in a row. */
  function Many1<T>(p: Parser<T>, s: string): Option<(seq<T>, string)> {
    match p(s)
    case None => None
    case Some((v, rest)) =>
      match ManyLoop(p, rest)
      case None => None
      case Some((vs, r)) => Some(([v] + vs, r))
  }

  /** `vs` are the outputs of successive successes of `p` from `s` to `r`, each one shortening the input. */
  ghost predicate Chain<T>(p: Parser<T>, s: string, vs: seq<T>, r: string)
    decreases |vs|
  {
    if |vs| == 0 then r == s
    else
      && p(s).Some?
      && p(s).value.0 == vs[0]
      && |p(s).value.1| < |s|
      && Chain(p, p(s).value.1, vs[1..], r)
  }

  /** A chain extended by one more success at its front. */
  lemma ChainCons<T>(p: Parser<T>, s: string, v: T, mid: string, vs: seq<T>, r: string)
    requires p(s) == Some((v, mid)) && |mid| < |s| && Chain(p, mid, vs, r)
    ensures Chain(p, s, [v] + vs, r)
  {
    assert ([v] + vs)[1..] == vs;
  }

  /** `p` shortens its input whenever it succeeds. */
  ghost predicate Consumes<T>(p: Parser<T>) {
    forall s :: p(s).Some? ==> |p(s).value.1| < |s|
  }

  /** The loop returns the run of successes up to the first failure, and nothing else. */
  lemma {:induction false} ManyLoopChain<T>(p: Parser<T>, s: string, vs: seq<T>, r: string)
    ensures ManyLoop(p, s) == Some((vs, r)) <==> Chain(p, s, vs, r) && p(r).None?
    decreases |s|
  {
    match p(s)
    case None =>
      if |vs| > 0 {
        assert !Chain(p, s, vs, r);
      }
    case Some((v, rest)) =>
      if |rest| < |s| {
        if |vs| > 0 {
          ManyLoopChain(p, rest, vs[1..], r);
          assert [vs[0]] + vs[1..] == vs;
        }
      }
  }

  /**
   * `many1(p)` succeeds with `vs` leaving `r` exactly when `p` succeeds on
   * `s` with `vs[0]`, keeps succeeding (each time shortening the input)
   * with the rest of `vs`, and then fails on `r`.
   */
  lemma Many1Chain<T>(p: Parser<T>, s: string, vs: seq<T>, r: string)
    ensures Many1(p, s) == Some((vs, r)) <==>
      && |vs| >= 1
      && p(s).Some?
      && p(s).value.0 == vs[0]
      && Chain(p, p(s).value.1, vs[1..], r)
      && p(r).None?
  {
    match p(s)
    case None =>
    case Some((v, rest)) =>
      if |vs| >= 1 {
        ManyLoopChain(p, rest, vs[1..], r);
        assert [vs[0]] + vs[1..] == vs;
      }
  }

  /**
   * Successive successes of `p` through the texts `segs`, each shortening
   * the input, form a chain from the first text to the last.
   */
  lemma {:induction false} ChainOfSteps<T>(p: Parser<T>, vs: seq<T>, segs: seq<string>)
    requires |segs| == |vs| + 1
    requires forall i :: 0 <= i < |vs| ==> p(segs[i]) == Some((vs[i], segs[i + 1])) && |segs[i + 1]| < |segs[i]|
    ensures Chain(p, segs[0], vs, segs[|vs|])
    decreases |vs|
  {
    if |vs| > 0 {
      ChainOfSteps(p, vs[1..], segs[1..]);
      ChainCons(p, segs[0], vs[0], segs[1], vs[1..], segs[|vs|]);
      assert [vs[0]] + vs[1..] == vs;
    }
  }

  /**
   * `many1(p)` reads `vs` when `p` succeeds once per element, each time
   * shortening the input, and then fails.
   */
  lemma Many1OfSteps<T>(p: Parser<T>, vs: seq<T>, segs: seq<string>)
    requires |vs| >= 1 && |segs| == |vs| + 1
    requires forall i :: 0 <= i < |vs| ==> p(segs[i]) == Some((vs[i], segs[i + 1])) && |segs[i + 1]| < |segs[i]|
    requires p(segs[|vs|]).None?
    ensures Many1(p, segs[0]) == Some((vs, segs[|vs|]))
  {
    ChainOfSteps(p, vs[1..], segs[1..]);
    Many1Chain(p, segs[0], vs, segs[|vs|]);
  }

  /** `many1(p)` fails exactly when the first application of `p` fails, for a parser that always consumes. */
  lemma {:induction false} Many1Fails<T>(p: Parser<T>, s: string)
    requires Consumes(p)
    ensures Many1(p, s).None? <==> p(s).None?
  {
    if p(s).Some? {
      ManyLoopTotal(p, p(s).value.1);
    }
  }

  /** For a parser that always consumes, the loop never hits nom's no-progress guard. */
  lemma {:induction false} ManyLoopTotal<T>(p: Parser<T>, s: string)
    requires Consumes(p)
    ensures ManyLoop(p, s).Some?
    decreases |s|
  {
    if p(s).Some? {
      ManyLoopTotal(p, p(s).value.1);
    }
  }

  /** `all_consuming(p)`: `p` must leave no input behind. */
  function AllConsuming<T>(r: Option<(T, string)>): Option<T> {
    match r
    case Some((v, rest)) => if |rest| == 0 then Some(v) else None
    case None => None
  }
}
