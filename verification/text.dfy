/**
 * String scanning as Rust's `str` does it, on `seq<char>`: substring search,
 * `split`, `replace` with the empty string, `strip_suffix` and `trim`.
 */
module Text {
  import opened Wrappers

  /** `t` is a prefix of `s`. */
  predicate StartsWith(s: string, t: string) {
    |t| <= |s| && s[..|t|] == t
  }

  /** `t` is a suffix of `s`. */
  predicate EndsWith(s: string, t: string) {
    |t| <= |s| && s[|s| - |t|..] == t
  }

  /** `t` occurs in `s` starting at index `i`. */
  predicate OccursAt(s: string, t: string, i: int) {
    0 <= i && i + |t| <= |s| && s[i..i + |t|] == t
  }

  ghost predicate Contains(s: string, t: string) {
    exists i :: OccursAt(s, t, i)
  }

  /**
   * No occurrence of `t` starts inside `a` when `a` is followed by `t`:
   * in any text `a + t + b`, the first occurrence of `t` is the one right
   * after `a`.
   */
  ghost predicate FirstAt(a: string, t: string) {
    forall j :: 0 <= j < |a| ==> !OccursAt(a + t, t, j)
  }

  /** Index of the first occurrence of `t` in `s` (Rust's `str::find`). */
  function FindFirst(s: string, t: string): (r: Option<nat>)
    ensures r.Some? ==> r.value + |t| <= |s|
  {
    FindFrom(s, t, 0)
  }

  /** Index of the first occurrence of `t` in `s` at or after `k`. */
  function FindFrom(s: string, t: string, k: nat): (r: Option<nat>)
    ensures r.Some? ==> k <= r.value && r.value + |t| <= |s|
    decreases |s| - k
  {
    if k + |t| > |s| then None
    else if s[k..k + |t|] == t then Some(k)
    else FindFrom(s, t, k + 1)
  }

  /** `FindFrom` finds the first occurrence at or after `k`, and finds none only when there is none. */
  lemma {:induction false} FindFromSpec(s: string, t: string, k: nat)
    ensures FindFrom(s, t, k).Some? ==> OccursAt(s, t, FindFrom(s, t, k).value)
    ensures FindFrom(s, t, k).Some? ==> forall j :: k <= j < FindFrom(s, t, k).value ==> !OccursAt(s, t, j)
    ensures FindFrom(s, t, k).None? <==> forall j :: k <= j ==> !OccursAt(s, t, j)
    decreases |s| - k
  {
    if k + |t| > |s| {
    } else if s[k..k + |t|] == t {
      assert OccursAt(s, t, k);
    } else {
      FindFromSpec(s, t, k + 1);
    }
  }

  /** `FindFirst` finds an occurrence, the first one, and finds none only when there is none. */
  lemma FindFirstSpec(s: string, t: string)
    ensures FindFirst(s, t).Some? ==> OccursAt(s, t, FindFirst(s, t).value)
    ensures FindFirst(s, t).Some? ==> forall j :: 0 <= j < FindFirst(s, t).value ==> !OccursAt(s, t, j)
    ensures FindFirst(s, t).None? <==> !Contains(s, t)
  {
    FindFromSpec(s, t, 0);
  }

  /** Occurrences in `s[1..]` are the occurrences in `s` after index 0, shifted by one. */
  lemma ShiftOccurrence(s: string, t: string)
    requires |s| > 0
    ensures forall j :: 0 <= j && OccursAt(s[1..], t, j) ==> OccursAt(s, t, j + 1)
    ensures forall j :: 1 <= j && OccursAt(s, t, j) ==> OccursAt(s[1..], t, j - 1)
  {
    forall j | 0 <= j && OccursAt(s[1..], t, j)
      ensures OccursAt(s, t, j + 1)
    {
      assert s[1..][j..j + |t|] == s[j + 1..j + 1 + |t|];
    }
    forall j | 1 <= j && OccursAt(s, t, j)
      ensures OccursAt(s[1..], t, j - 1)
    {
      assert s[1..][j - 1..j - 1 + |t|] == s[j..j + |t|];
    }
  }

  /** Windows of `a + (t + b)` that end within `a + t` are windows of `a + t`. */
  lemma WindowInPrefix(a: string, t: string, b: string, j: nat)
    requires j + |t| <= |a| + |t|
    ensures OccursAt(a + (t + b), t, j) <==> OccursAt(a + t, t, j)
  {
    assert (a + (t + b))[j..j + |t|] == (a + t)[j..j + |t|];
  }

  /** In `a + t + b` the first `t` starts right after `a` exactly when `FirstAt(a, t)`. */
  lemma FindFirstOfConcat(a: string, t: string, b: string)
    ensures FindFirst(a + (t + b), t) == Some(|a|) <==> FirstAt(a, t)
  {
    var s := a + (t + b);
    FindFirstSpec(s, t);
    assert s[|a|..|a| + |t|] == t;
    assert OccursAt(s, t, |a|);
    forall j | 0 <= j < |a|
      ensures OccursAt(s, t, j) <==> OccursAt(a + t, t, j)
    {
      WindowInPrefix(a, t, b, j);
    }
  }

  /** A tag whose first character does not occur in `a` cannot start inside `a`. */
  lemma FirstAtByHead(a: string, t: string)
    requires |t| > 0 && t[0] !in a
    ensures FirstAt(a, t)
  {
  }

  /**
   * `t` cannot start inside `a` when one of its characters, `t[k]`, occurs
   * neither in `a` nor before position `k` of `t`.
   */
  lemma FirstAtByChar(a: string, t: string, k: nat)
    requires k < |t| && t[k] !in a && t[k] !in t[..k]
    ensures FirstAt(a, t)
  {
    forall j | 0 <= j < |a|
      ensures !OccursAt(a + t, t, j)
    {
      var c := (a + t)[j + k];
      if j + k < |a| {
        assert c == a[j + k];
      } else {
        assert c == t[..k][j + k - |a|];
      }
      assert c != t[k];
      if j + |t| <= |a + t| {
        assert (a + t)[j..j + |t|][k] == c;
      }
    }
  }

  /** A text without the first character of `t` does not contain `t`. */
  lemma NotContainsByHead(s: string, t: string)
    requires |t| > 0 && t[0] !in s
    ensures !Contains(s, t)
  {
    forall j
      ensures !OccursAt(s, t, j)
    {
      if 0 <= j && j + |t| <= |s| {
        assert s[j..j + |t|][0] == s[j];
      }
    }
  }

  /** A text without some character of `t` does not contain `t`. */
  lemma NotContainsByChar(s: string, t: string, k: nat)
    requires k < |t| && t[k] !in s
    ensures !Contains(s, t)
  {
    forall j
      ensures !OccursAt(s, t, j)
    {
      if 0 <= j && j + |t| <= |s| {
        assert s[j..j + |t|][k] == s[j + k];
      }
    }
  }

  /** The text after the first `t` in `a + (t + b)` is `b`. */
  lemma AfterFirst(a: string, t: string, b: string)
    ensures (a + (t + b))[..|a|] == a
    ensures (a + (t + b))[|a|..] == t + b
    ensures (a + (t + b))[|a| + |t|..] == b
  {
  }

  /** `str::strip_suffix`. */
  function StripSuffix(s: string, t: string): (r: Option<string>)
    ensures r.Some? <==> EndsWith(s, t)
    ensures r.Some? ==> r.value + t == s
  {
    if EndsWith(s, t) then Some(s[..|s| - |t|]) else None
  }

  // ---------------------------------------------------------------------
  // split / join

  /** One single-character piece per character of `s`. */
  function Chars(s: string): (pieces: seq<string>)
    ensures |pieces| == |s|
    decreases |s|
  {
    if |s| == 0 then [] else [[s[0]]] + Chars(s[1..])
  }

  /** The pieces of `str::split` with the empty pattern: an empty piece, then one per character, then an empty piece. */
  function SplitEmpty(s: string): (pieces: seq<string>)
    ensures |pieces| == |s| + 2
  {
    [""] + Chars(s) + [""]
  }

  /**
   * `str::split(sep)`: the pieces between the non-overlapping matches of
   * `sep` found left to right.
   */
  function Split(s: string, sep: string): (pieces: seq<string>)
    ensures |pieces| >= 1
  {
    if |sep| == 0 then SplitEmpty(s) else SplitOn(s, sep)
  }

  /** `str::split` with a non-empty pattern. */
  function SplitOn(s: string, sep: string): (pieces: seq<string>)
    requires |sep| > 0
    ensures |pieces| >= 1
    decreases |s|
  {
    match FindFirst(s, sep)
    case None => [s]
    case Some(i) => [s[..i]] + SplitOn(s[i + |sep|..], sep)
  }

  /** Pieces glued back together with `sep` between them. */
  function Join(pieces: seq<string>, sep: string): string
    decreases |pieces|
  {
    if |pieces| == 0 then ""
    else if |pieces| == 1 then pieces[0]
    else pieces[0] + sep + Join(pieces[1..], sep)
  }

  function Last(pieces: seq<string>): string
    requires |pieces| > 0
  {
    pieces[|pieces| - 1]
  }

  /** One step of `split`: the piece before the first match, then the pieces after it. */
  lemma SplitStep(s: string, sep: string, i: nat)
    requires |sep| > 0 && FindFirst(s, sep) == Some(i)
    ensures i + |sep| <= |s|
    ensures Split(s, sep) == [s[..i]] + Split(s[i + |sep|..], sep)
  {
    SplitOnStep(s, sep, i);
    FindFirstSpec(s, sep);
  }

  /** The text around the first match: what comes before it, the separator, and what follows. */
  lemma AroundFirst(s: string, sep: string, i: nat)
    requires FindFirst(s, sep) == Some(i)
    ensures i + |sep| <= |s| && s == s[..i] + (sep + s[i + |sep|..])
  {
    FindFirstSpec(s, sep);
    assert s[i..i + |sep|] == sep;
  }

  /** No match starts inside the text before the first match. */
  lemma FirstAtOfFind(s: string, sep: string, i: nat)
    requires FindFirst(s, sep) == Some(i)
    ensures FirstAt(s[..i], sep)
  {
    AroundFirst(s, sep, i);
    FindFirstOfConcat(s[..i], sep, s[i + |sep|..]);
  }

  lemma SplitOnStep(s: string, sep: string, i: nat)
    requires |sep| > 0 && FindFirst(s, sep) == Some(i)
    ensures Split(s, sep) == [s[..i]] + Split(s[i + |sep|..], sep)
  {
  }

  /** Without a match, `split` yields the whole text as its only piece. */
  lemma SplitNone(s: string, sep: string)
    requires |sep| > 0 && FindFirst(s, sep).None?
    ensures Split(s, sep) == [s]
  {
  }

  /** Splitting loses nothing: joining the pieces with the separator gives the text back. */
  lemma {:induction false} JoinSplit(s: string, sep: string)
    requires |sep| > 0
    ensures Join(Split(s, sep), sep) == s
    decreases |s|
  {
    match FindFirst(s, sep)
    case None =>
    case Some(i) =>
      SplitStep(s, sep, i);
      AroundFirst(s, sep, i);
      var rest := s[i + |sep|..];
      JoinSplit(rest, sep);
      JoinCons(s[..i], Split(rest, sep), sep);
  }

  /** Joining a piece in front of a non-empty list puts the separator between. */
  lemma JoinCons(p: string, ps: seq<string>, sep: string)
    requires |ps| > 0
    ensures Join([p] + ps, sep) == p + (sep + Join(ps, sep))
  {
    assert ([p] + ps)[1..] == ps;
  }

  /**
   * Every piece but the last is followed by the first match of `sep` after
   * it, and the last piece holds no match at all.
   */
  lemma {:induction false} SplitPieces(s: string, sep: string)
    requires |sep| > 0
    ensures forall k :: 0 <= k < |Split(s, sep)| - 1 ==> FirstAt(Split(s, sep)[k], sep)
    ensures !Contains(Last(Split(s, sep)), sep)
    decreases |s|
  {
    FindFirstSpec(s, sep);
    match FindFirst(s, sep)
    case None =>
      SplitNone(s, sep);
    case Some(i) =>
      SplitStep(s, sep, i);
      var rest := s[i + |sep|..];
      SplitPieces(rest, sep);
      FirstAtOfFind(s, sep, i);
      var ps := Split(s, sep);
      forall k | 0 <= k < |ps| - 1
        ensures FirstAt(ps[k], sep)
      {
        if k > 0 {
          assert ps[k] == Split(rest, sep)[k - 1];
        }
      }
  }

  /** `split` yields one piece exactly when the separator does not occur. */
  lemma SplitSingle(s: string, sep: string)
    requires |sep| > 0
    ensures |Split(s, sep)| == 1 <==> !Contains(s, sep)
    ensures !Contains(s, sep) ==> Split(s, sep) == [s]
  {
    FindFirstSpec(s, sep);
    match FindFirst(s, sep)
    case None =>
      SplitNone(s, sep);
    case Some(i) =>
      SplitStep(s, sep, i);
  }

  /** Splitting `a + sep + b` where `sep` first occurs after `a` puts `a` first. */
  lemma SplitOfConcat(a: string, sep: string, b: string)
    requires |sep| > 0 && FirstAt(a, sep)
    ensures Split(a + (sep + b), sep) == [a] + Split(b, sep)
  {
    FindFirstOfConcat(a, sep, b);
    SplitOnStep(a + (sep + b), sep, |a|);
    AfterFirst(a, sep, b);
  }

  /**
   * The last piece of a split on one character is `x` exactly when the
   * text is `x` without that character, or ends in the character and `x`
   * and `x` does not hold the character.
   */
  lemma {:induction false} LastPieceOnChar(s: string, c: char, x: string)
    ensures Last(Split(s, [c])) == x <==> (c !in s && s == x) || (c !in x && EndsWith(s, [c] + x))
    decreases |s|
  {
    CharContains(s, c);
    if c !in s {
      LastPieceWithoutChar(s, c, x);
    } else {
      FindFirstSpec(s, [c]);
      var i := FindFirst(s, [c]).value;
      SplitStep(s, [c], i);
      assert Last(Split(s, [c])) == Last(Split(s[i + 1..], [c]));
      LastPieceOnChar(s[i + 1..], c, x);
      assert s[i] == c by { assert s[i..i + 1][0] == s[i]; }
      forall j | 0 <= j < i ensures s[j] != c {
        assert !OccursAt(s, [c], j);
        assert s[j..j + 1][0] == s[j];
      }
      EndsAfterFirst(s, c, i, x);
    }
  }

  lemma LastPieceWithoutChar(s: string, c: char, x: string)
    requires c !in s
    ensures Split(s, [c]) == [s] && !EndsWith(s, [c] + x)
  {
    CharContains(s, c);
    SplitSingle(s, [c]);
    if |x| + 1 <= |s| {
      var p := |s| - |x| - 1;
      assert s[p..][0] == s[p];
      assert s[p] != c;
    }
  }

  /** What follows the first `c` ends in `c` and `x`, or is `x`, exactly when the whole text ends in `c` and `x`. */
  lemma EndsAfterFirst(s: string, c: char, i: nat, x: string)
    requires i < |s| && s[i] == c && forall j :: 0 <= j < i ==> s[j] != c
    ensures (c !in s[i + 1..] && s[i + 1..] == x) || (c !in x && EndsWith(s[i + 1..], [c] + x))
        <==> c !in x && EndsWith(s, [c] + x)
  {
    var rest := s[i + 1..];
    if c !in rest && rest == x {
      assert s[|s| - |x| - 1..] == [c] + x;
    }
    if c !in x && EndsWith(rest, [c] + x) {
      assert s[|s| - |x| - 1..] == rest[|rest| - |x| - 1..];
    }
    if c !in x && EndsWith(s, [c] + x) {
      var p := |s| - |x| - 1;
      assert s[p] == ([c] + x)[0];
      if p == i {
        assert rest == s[p + 1..];
        assert s[p + 1..] == ([c] + x)[1..];
      } else {
        assert rest[|rest| - |x| - 1..] == s[p..];
      }
    }
  }

  /** Text with exactly one separator splits into the two sides of it. */
  lemma SplitInTwo(a: string, sep: string, b: string)
    requires |sep| > 0 && FirstAt(a, sep) && !Contains(b, sep)
    ensures Split(a + (sep + b), sep) == [a, b]
  {
    SplitOfConcat(a, sep, b);
    SplitSingle(b, sep);
  }

  /** Text that splits into two pieces is the first piece, the separator and the second. */
  lemma SplitTwoPieces(s: string, sep: string)
    requires |sep| > 0 && |Split(s, sep)| == 2
    ensures s == Split(s, sep)[0] + (sep + Split(s, sep)[1])
    ensures FirstAt(Split(s, sep)[0], sep) && !Contains(Split(s, sep)[1], sep)
  {
    var ps := Split(s, sep);
    JoinSplit(s, sep);
    SplitPieces(s, sep);
    assert Join(ps, sep) == ps[0] + sep + Join(ps[1..], sep);
    assert Join(ps[1..], sep) == ps[1];
  }

  /** Number of occurrences of the character `c` in `s`. */
  function CountChar(s: string, c: char): (n: nat)
    ensures n <= |s|
    ensures n == 0 <==> c !in s
    decreases |s|
  {
    if |s| == 0 then 0
    else (if s[0] == c then 1 else 0) + CountChar(s[1..], c)
  }

  /** A run free of `c`, then `c`, then `q`: one `c` more than `q`, and the last character is `q`'s or that `c`. */
  lemma RunCount(out: string, c: char, q: string)
    requires c !in out
    ensures CountChar(out + ([c] + q), c) == 1 + CountChar(q, c)
    ensures var p := out + ([c] + q); p[|p| - 1] == if |q| == 0 then c else q[|q| - 1]
  {
    CountCharConcat(out, [c] + q, c);
    assert ([c] + q)[1..] == q;
  }

  /** A text ending in `r` is its front followed by `r`. */
  lemma SuffixSplit(s: string, q: string, r: string)
    requires |r| <= |s| && r == s[|s| - |r|..] && q == s[..|s| - |r|]
    ensures s == q + r
  {
  }

  /** Regrouping a concatenation of four texts. */
  lemma Regroup(a: string, b: string, c: string, d: string)
    ensures a + (b + (c + d)) == (a + (b + c)) + d
  {
  }

  /** Two texts followed by the same text are equal when the results are. */
  lemma CancelRight(a: string, b: string, v: string)
    requires a + v == b + v
    ensures a == b
  {
    assert |a| == |b|;
    forall i | 0 <= i < |a|
      ensures a[i] == b[i]
    {
      assert a[i] == (a + v)[i] && b[i] == (b + v)[i];
    }
  }

  /** Counting distributes over concatenation. */
  lemma {:induction false} CountCharConcat(a: string, b: string, c: char)
    ensures CountChar(a + b, c) == CountChar(a, c) + CountChar(b, c)
    decreases |a|
  {
    if |a| == 0 {
      assert a + b == b;
    } else {
      assert (a + b)[1..] == a[1..] + b;
      CountCharConcat(a[1..], b, c);
    }
  }

  /** Splitting on one character yields one more piece than there are occurrences of it. */
  lemma {:induction false} SplitCharCount(s: string, c: char)
    ensures |Split(s, [c])| == CountChar(s, c) + 1
    decreases |s|
  {
    FindFirstSpec(s, [c]);
    match FindFirst(s, [c])
    case None =>
      SplitNone(s, [c]);
      CharContains(s, c);
    case Some(i) =>
      SplitStep(s, [c], i);
      SplitCharCount(s[i + 1..], c);
      CountCharSplit(s, c, i);
  }

  /** A character occurs exactly when the one-character text made of it does. */
  lemma CharContains(s: string, c: char)
    ensures c in s <==> Contains(s, [c])
  {
    forall i | 0 <= i < |s|
      ensures OccursAt(s, [c], i) <==> s[i] == c
    {
      assert s[i..i + 1] == [s[i]];
    }
  }

  /** When the first `c` is at `i`, the count is one plus the count after it. */
  lemma {:induction false} CountCharSplit(s: string, c: char, i: nat)
    requires OccursAt(s, [c], i)
    requires forall j :: 0 <= j < i ==> !OccursAt(s, [c], j)
    ensures CountChar(s, c) == 1 + CountChar(s[i + 1..], c)
    decreases i
  {
    if i == 0 {
      assert s[0] == s[0..1][0];
    } else {
      assert !OccursAt(s, [c], 0);
      assert s[0..1] == [s[0]];
      ShiftOccurrence(s, [c]);
      CountCharSplit(s[1..], c, i - 1);
      assert s[1..][i..] == s[i + 1..];
    }
  }

  // ---------------------------------------------------------------------
  // replace(t, "")

  /** Concatenation of the pieces. */
  function Concat(pieces: seq<string>): string
    decreases |pieces|
  {
    if |pieces| == 0 then "" else pieces[0] + Concat(pieces[1..])
  }

  /**
   * `s.replace(t, "")`: every match that `split` would find is dropped, the
   * text between them is kept.  The empty pattern leaves the text as it is.
   */
  function Remove(s: string, t: string): string {
    if |t| == 0 then s else Concat(Split(s, t))
  }

  /** A text without the pattern is left unchanged. */
  lemma RemoveAbsent(s: string, t: string)
    requires !Contains(s, t)
    ensures Remove(s, t) == s
  {
    if |t| > 0 {
      SplitSingle(s, t);
      assert Concat([s]) == s + Concat([s][1..]);
      assert [s][1..] == [];
    }
  }

  /** Removal drops the first match and carries on after it. */
  lemma RemoveOfConcat(a: string, t: string, b: string)
    requires |t| > 0 && FirstAt(a, t)
    ensures Remove(a + (t + b), t) == a + Remove(b, t)
  {
    SplitOfConcat(a, t, b);
    var ps := [a] + Split(b, t);
    assert ps[1..] == Split(b, t);
  }

  /** Searching from `k + 1` in `s` is searching from `k` in `s[1..]`, one position later. */
  lemma {:induction false} FindFromShift(s: string, t: string, k: nat)
    requires |s| > 0
    ensures FindFrom(s, t, k + 1) ==
      (match FindFrom(s[1..], t, k) case None => None case Some(j) => Some(j + 1))
    decreases |s| - k
  {
    if k + 1 + |t| <= |s| {
      assert s[1..][k..k + |t|] == s[k + 1..k + 1 + |t|];
      if s[k + 1..k + 1 + |t|] != t {
        FindFromShift(s, t, k + 1);
      }
    }
  }

  /** A text that does not start with a match keeps its first character, and removal carries on after it. */
  lemma RemoveStep(s: string, t: string)
    requires |s| > 0 && |t| > 0 && !OccursAt(s, t, 0)
    ensures Remove(s, t) == [s[0]] + Remove(s[1..], t)
  {
    var r := s[1..];
    FindFromShift(s, t, 0);
    assert FindFirst(s, t) == FindFrom(s, t, 1) by {
      if |t| <= |s| {
        assert s[0..|t|] != t;
      }
    }
    if FindFirst(r, t).None? {
      RemoveNone(s, t);
      RemoveNone(r, t);
      assert s == [s[0]] + r;
    } else {
      RemoveStepAt(s, t, FindFirst(r, t).value);
    }
  }

  /** `RemoveStep` when both texts have a match: the first match of `s` is the first of `s[1..]`, one later. */
  lemma RemoveStepAt(s: string, t: string, j: nat)
    requires |s| > 0 && |t| > 0
    requires FindFirst(s[1..], t) == Some(j) && FindFirst(s, t) == Some(j + 1)
    ensures Remove(s, t) == [s[0]] + Remove(s[1..], t)
  {
    RemoveAfterHead(s, t, j);
    RemoveFirst(s[1..], t, j);
    ConsAssoc(s[0], s[1..][..j], Remove(s[1..][j + |t|..], t));
  }

  /** Removal from `s` whose first match is at `j + 1`, in terms of `s[1..]`. */
  lemma RemoveAfterHead(s: string, t: string, j: nat)
    requires |s| > 0 && |t| > 0 && FindFirst(s, t) == Some(j + 1)
    ensures j + 1 + |t| <= |s|
    ensures Remove(s, t) == ([s[0]] + s[1..][..j]) + Remove(s[1..][j + |t|..], t)
  {
    RemoveFirst(s, t, j + 1);
    assert s[j + 1 + |t|..] == s[1..][j + |t|..];
    assert s[..j + 1] == [s[0]] + s[1..][..j];
  }

  /** Consing a character is associative with concatenation. */
  lemma ConsAssoc(c: char, a: string, x: string)
    ensures ([c] + a) + x == [c] + (a + x)
  {
  }

  /** Without a match, nothing is removed. */
  lemma RemoveNone(s: string, t: string)
    requires |t| > 0 && FindFirst(s, t).None?
    ensures Remove(s, t) == s
  {
    SplitNone(s, t);
    assert Concat([s]) == s + Concat([s][1..]);
    assert [s][1..] == [];
  }

  /** Removal keeps the text before the first match, drops the match, and carries on after it. */
  lemma RemoveFirst(s: string, t: string, i: nat)
    requires |t| > 0 && FindFirst(s, t) == Some(i)
    ensures i + |t| <= |s|
    ensures Remove(s, t) == s[..i] + Remove(s[i + |t|..], t)
  {
    SplitStep(s, t, i);
    var rest := Split(s[i + |t|..], t);
    assert ([s[..i]] + rest)[1..] == rest;
  }

  /** A text that starts with a match loses it. */
  lemma RemoveHead(s: string, t: string)
    requires |t| > 0 && OccursAt(s, t, 0)
    ensures Remove(s, t) == Remove(s[|t|..], t)
  {
    assert s == [] + (t + s[|t|..]);
    RemoveOfConcat([], t, s[|t|..]);
  }

  /** A head in which no match starts is kept, and removal carries on after it. */
  lemma {:induction false} RemoveKeepsHead(a: string, b: string, t: string)
    requires |t| > 0
    requires forall j :: 0 <= j < |a| ==> !OccursAt(a + b, t, j)
    ensures Remove(a + b, t) == a + Remove(b, t)
    decreases |a|
  {
    if |a| > 0 {
      var s := a + b;
      assert !OccursAt(s, t, 0);
      RemoveStep(s, t);
      NoMatchInTail(a, b, t);
      RemoveKeepsHead(a[1..], b, t);
      ConsThenAppend(a[0], a, a[1..], Remove(b, t), Remove(s, t), Remove(a[1..] + b, t));
    } else {
      assert a + b == b;
    }
  }

  /** No match starts in `a[1..]` of `a[1..] + b` when none starts in `a` of `a + b`. */
  lemma NoMatchInTail(a: string, b: string, t: string)
    requires |a| > 0
    requires forall j :: 0 <= j < |a| ==> !OccursAt(a + b, t, j)
    ensures (a + b)[1..] == a[1..] + b
    ensures forall j :: 0 <= j < |a[1..]| ==> !OccursAt(a[1..] + b, t, j)
  {
    var s := a + b;
    assert s[1..] == a[1..] + b;
    forall j | 0 <= j < |a[1..]|
      ensures !OccursAt(a[1..] + b, t, j)
    {
      assert !OccursAt(s, t, j + 1);
      if j + |t| <= |a[1..] + b| {
        assert (a[1..] + b)[j..j + |t|] == s[j + 1..j + 1 + |t|];
      }
    }
  }

  /** `[c] + (rest + x)` is `a + x` when `a` is `[c] + rest`. */
  lemma ConsThenAppend(c: char, a: string, rest: string, x: string, y: string, z: string)
    requires |a| > 0 && c == a[0] && rest == a[1..]
    requires y == [c] + z && z == rest + x
    ensures y == a + x
  {
    ConsAssoc(c, rest, x);
    assert [c] + rest == a;
  }

  /** Nothing is removed from the empty text. */
  lemma RemoveEmpty(t: string)
    ensures Remove([], t) == []
  {
    if |t| > 0 {
      NotContainsByChar([], t, 0);
      RemoveAbsent([], t);
    }
  }

  // ---------------------------------------------------------------------
  // trim

  /** Unicode White_Space, the property Rust's `char::is_whitespace` tests. */
  predicate IsWhitespace(c: char) {
    || ('\U{0009}' <= c <= '\U{000D}')
    || c == '\U{0020}' || c == '\U{0085}' || c == '\U{00A0}' || c == '\U{1680}'
    || ('\U{2000}' <= c <= '\U{200A}')
    || c == '\U{2028}' || c == '\U{2029}' || c == '\U{202F}' || c == '\U{205F}' || c == '\U{3000}'
  }

  function TrimStart(s: string): string
    decreases |s|
  {
    if |s| > 0 && IsWhitespace(s[0]) then TrimStart(s[1..]) else s
  }

  function TrimEnd(s: string): string
    decreases |s|
  {
    if |s| > 0 && IsWhitespace(s[|s| - 1]) then TrimEnd(s[..|s| - 1]) else s
  }

  /** `str::trim`. */
  function Trim(s: string): string {
    TrimEnd(TrimStart(s))
  }

  /** Every character of `s` is white space. */
  predicate Blank(s: string) {
    forall i :: 0 <= i < |s| ==> IsWhitespace(s[i])
  }

  /** `s.trim().is_empty()` holds exactly of the texts made only of white space. */
  lemma {:induction false} TrimEmptyIffBlank(s: string)
    ensures Trim(s) == "" <==> Blank(s)
    decreases |s|
  {
    if |s| > 0 && IsWhitespace(s[0]) {
      TrimEmptyIffBlank(s[1..]);
      assert Blank(s) <==> Blank(s[1..]) by {
        if Blank(s[1..]) {
          forall i | 0 <= i < |s| ensures IsWhitespace(s[i]) {
            if i > 0 { assert s[i] == s[1..][i - 1]; }
          }
        }
      }
    } else if |s| > 0 {
      assert !Blank(s);
      assert TrimStart(s) == s;
      assert TrimEnd(s) != "" by { TrimEndKeepsFirst(s); }
    }
  }

  /** Trimming the end never removes a first character that is not white space. */
  lemma {:induction false} TrimEndKeepsFirst(s: string)
    requires |s| > 0 && !IsWhitespace(s[0])
    ensures |TrimEnd(s)| > 0 && TrimEnd(s)[0] == s[0]
    decreases |s|
  {
    if IsWhitespace(s[|s| - 1]) {
      assert |s| > 1;
      TrimEndKeepsFirst(s[..|s| - 1]);
    }
  }
}
