/**
 The backtracking glob matcher of the ingest filter (`src/filter/glob.rs`).

 `Matches` is what a glob means: `*` stands for any run of bytes, `?` for one byte.
 `CodeMatches` is what the two-pointer loop decides. They differ in one place only: the
 loop tests "same byte" before it tests "`*`", so a `*` in the pattern that meets a `*`
 byte in the text is consumed as an ordinary byte.
 */
module Glob {
  import opened MachineTypes

  const STAR: byte := 42
  const QUESTION: byte := 63

  /** What a glob pattern means. */
  ghost predicate Matches(p: bytes, t: bytes)
    decreases |p|
  {
    if p == [] then t == []
    else if p[0] == STAR then exists k :: 0 <= k <= |t| && Matches(p[1..], t[k..])
    else t != [] && (p[0] == QUESTION || p[0] == t[0]) && Matches(p[1..], t[1..])
  }

  /** What the loop decides: a `*` is a wildcard only where the text does not itself hold a `*`. */
  ghost predicate CodeMatches(p: bytes, t: bytes)
    decreases |p|
  {
    if p == [] then t == []
    else if p[0] == STAR && (t == [] || t[0] != STAR) then
      exists k :: 0 <= k <= |t| && CodeMatches(p[1..], t[k..])
    else t != [] && (p[0] == QUESTION || p[0] == t[0]) && CodeMatches(p[1..], t[1..])
  }

  /** `p[s..e]` was consumed byte by byte against the text from `ti`, stars meeting stars. */
  ghost predicate LiteralRun(p: bytes, s: nat, e: nat, t: bytes, ti: nat)
    requires s <= e <= |p| && ti + (e - s) <= |t|
  {
    forall i :: s <= i < e ==> p[i] == QUESTION || p[i] == t[ti + (i - s)]
  }

  /**
   Why the latest star is enough. If `p[s..e]` was consumed literally from text position
   `ti`, then any other way to match `p[s..]`, started at `ti` or later, reaches pattern
   position `e` at or after the position the literal run reached.
   */
  lemma {:induction false} LaterStartNeverArrivesEarlier(p: bytes, s: nat, e: nat, t: bytes, ti: nat, k: nat)
    returns (j: nat)
    requires s <= e <= |p| && ti + (e - s) <= |t| && ti <= k <= |t|
    requires LiteralRun(p, s, e, t, ti)
    requires CodeMatches(p[s..], t[k..])
    ensures ti + (e - s) <= j <= |t| && CodeMatches(p[e..], t[j..])
    decreases e - s
  {
    if s == e {
      j := k;
    } else {
      assert p[s..][1..] == p[s + 1..];
      assert p[s] == QUESTION || p[s] == t[ti];
      var k' := k;
      if p[s] == STAR && (k == |t| || t[k] != STAR) {
        assert t[k..] == [] || t[k..][0] != STAR;
        var d :| 0 <= d <= |t[k..]| && CodeMatches(p[s..][1..], t[k..][d..]);
        assert t[k..][d..] == t[k + d..];
        k' := k + d;
        assert ti < k;
      } else {
        assert t[k..][1..] == t[k + 1..];
        k' := k + 1;
      }
      assert LiteralRun(p, s + 1, e, t, ti + 1);
      j := LaterStartNeverArrivesEarlier(p, s + 1, e, t, ti + 1, k');
    }
  }

  /** Some way to match `p[s..]` against the text from a position after `after`. */
  ghost predicate MatchesLater(p: bytes, s: nat, t: bytes, after: nat)
    requires s <= |p|
  {
    exists k :: after < k <= |t| && CodeMatches(p[s..], t[k..])
  }

  /** A new star makes every later start of the previous one redundant. */
  lemma {:induction false} NewStarSubsumesOld(p: bytes, starPi: nat, pi: nat, t: bytes, starTi: nat, ti: nat)
    requires starPi < pi < |p| && p[pi] == STAR
    requires starTi <= ti < |t| && t[ti] != STAR && ti - starTi == pi - (starPi + 1)
    requires LiteralRun(p, starPi + 1, pi, t, starTi)
    requires MatchesLater(p, starPi + 1, t, starTi)
    ensures CodeMatches(p[pi..], t[ti..])
  {
    var k :| starTi < k <= |t| && CodeMatches(p[starPi + 1..], t[k..]);
    var j := LaterStartNeverArrivesEarlier(p, starPi + 1, pi, t, starTi, k);
    assert p[pi..][1..] == p[pi + 1..];
    var m := j + 1;
    if j == |t| || t[j] != STAR {
      assert t[j..] == [] || t[j..][0] != STAR;
      var d :| 0 <= d <= |t[j..]| && CodeMatches(p[pi + 1..], t[j..][d..]);
      assert t[j..][d..] == t[j + d..];
      m := j + d;
    } else {
      assert t[j..][1..] == t[j + 1..];
    }
    assert t[ti..][m - ti..] == t[m..];
    assert CodeMatches(p[pi..][1..], t[ti..][m - ti..]);
  }

  /** A `*` facing a non-`*` byte: match here, or later. */
  lemma {:induction false} StarSplits(p: bytes, pi: nat, t: bytes, ti: nat)
    requires pi < |p| && p[pi] == STAR && ti < |t| && t[ti] != STAR
    ensures CodeMatches(p[pi..], t[ti..])
            <==> CodeMatches(p[pi + 1..], t[ti..]) || MatchesLater(p, pi + 1, t, ti)
  {
    assert p[pi..][1..] == p[pi + 1..];
    if CodeMatches(p[pi..], t[ti..]) {
      var d :| 0 <= d <= |t[ti..]| && CodeMatches(p[pi + 1..], t[ti..][d..]);
      assert t[ti..][d..] == t[ti + d..];
    }
    if CodeMatches(p[pi + 1..], t[ti..]) {
      assert t[ti..][0..] == t[ti..];
    }
    if MatchesLater(p, pi + 1, t, ti) {
      var k :| ti < k <= |t| && CodeMatches(p[pi + 1..], t[k..]);
      assert t[ti..][k - ti..] == t[k..];
    }
  }

  /** The remaining pattern matches the empty rest of the text exactly when it is all stars. */
  lemma {:induction false} TrailingStars(p: bytes, pi: nat)
    requires pi < |p|
    ensures CodeMatches(p[pi..], []) <==> p[pi] == STAR && CodeMatches(p[pi + 1..], [])
  {
    assert p[pi..][1..] == p[pi + 1..];
    var empty: bytes := [];
    assert empty[0..] == empty;
  }

  /** Rounds paid for by `marks` moves of the star mark, each worth `width`. */
  ghost function Paid(marks: nat, width: nat): nat {
    if marks == 0 then 0 else width + Paid(marks - 1, width)
  }

  /** Moving the star mark forward pays for at least the bytes it skips. */
  lemma {:induction false} MovingTheMarkPays(starTi: nat, ti: nat, width: nat)
    requires starTi <= ti && 1 <= width
    ensures Paid(starTi, width) + (ti - starTi) <= Paid(ti, width)
  {
    if starTi < ti {
      MovingTheMarkPays(starTi, ti - 1, width);
    }
  }

  /** The bound of `GlobMatchImpl`, multiplied out. */
  lemma {:induction false} PaidIsProduct(marks: nat, width: nat)
    ensures Paid(marks, width) == marks * width
  {
    if marks != 0 {
      PaidIsProduct(marks - 1, width);
    }
  }

  /** The two cursors and the star mark of the loop; `starPi == -1` is the source's `usize::MAX`. */
  datatype Cursors = Cursors(pi: nat, ti: nat, starPi: int, starTi: nat) {
    ghost predicate Valid(p: bytes, t: bytes) {
      && pi <= |p| && starTi <= ti <= |t|
      && -1 <= starPi < |p|
      && (starPi == -1 ==> starTi == 0 && pi <= ti)
      && (starPi != -1 ==> starPi < pi && ti - starTi == pi - (starPi + 1)
                           && LiteralRun(p, starPi + 1, pi, t, starTi))
    }

    /** A match is still reachable: from the cursors, or by backtracking to the latest star. */
    ghost predicate Reachable(p: bytes, t: bytes)
      requires Valid(p, t)
    {
      || CodeMatches(p[pi..], t[ti..])
      || (starPi != -1 && MatchesLater(p, starPi + 1, t, starTi))
    }

    /** The most rounds that can have led here. */
    ghost function Spent(p: bytes, t: bytes): int
      requires Valid(p, t)
    {
      Paid(starTi, |t| + |p| + 1) + (ti - starTi) + pi
    }
  }

  lemma {:induction false} LiteralStep(p: bytes, t: bytes, c: Cursors, c': Cursors)
    requires c.Valid(p, t) && c.ti < |t| && c.pi < |p|
    requires p[c.pi] == QUESTION || p[c.pi] == t[c.ti]
    requires c' == c.(pi := c.pi + 1, ti := c.ti + 1)
    ensures c'.Valid(p, t) && (c.Reachable(p, t) <==> c'.Reachable(p, t))
    ensures c.Spent(p, t) < c'.Spent(p, t)
  {
    hide MatchesLater;
    assert p[c.pi..][1..] == p[c.pi + 1..] && t[c.ti..][1..] == t[c.ti + 1..];
    assert p[c.pi..][0] == p[c.pi] && t[c.ti..][0] == t[c.ti];
  }

  lemma {:induction false} StarStep(p: bytes, t: bytes, c: Cursors, c': Cursors)
    requires c.Valid(p, t) && c.ti < |t| && c.pi < |p|
    requires p[c.pi] == STAR && t[c.ti] != STAR
    requires c' == Cursors(c.pi + 1, c.ti, c.pi, c.ti)
    ensures c'.Valid(p, t) && (c.Reachable(p, t) <==> c'.Reachable(p, t))
  {
    hide CodeMatches, MatchesLater;
    StarSplits(p, c.pi, t, c.ti);
    if c.starPi != -1 && MatchesLater(p, c.starPi + 1, t, c.starTi) {
      NewStarSubsumesOld(p, c.starPi, c.pi, t, c.starTi, c.ti);
    }
  }

  lemma {:induction false} StarStepSpends(p: bytes, t: bytes, c: Cursors, c': Cursors)
    requires c.Valid(p, t) && c'.Valid(p, t)
    requires c' == Cursors(c.pi + 1, c.ti, c.pi, c.ti)
    ensures c.Spent(p, t) < c'.Spent(p, t)
  {
    MovingTheMarkPays(c.starTi, c.ti, |t| + |p| + 1);
  }

  lemma {:induction false} BacktrackStep(p: bytes, t: bytes, c: Cursors, c': Cursors)
    requires c.Valid(p, t) && c.ti < |t| && c.starPi != -1
    requires c.pi < |p| ==> p[c.pi] != QUESTION && p[c.pi] != t[c.ti] && p[c.pi] != STAR
    requires c' == Cursors(c.starPi + 1, c.starTi + 1, c.starPi, c.starTi + 1)
    ensures c'.Valid(p, t) && (c.Reachable(p, t) <==> c'.Reachable(p, t))
    ensures c.Spent(p, t) < c'.Spent(p, t)
  {
    assert !CodeMatches(p[c.pi..], t[c.ti..]);
  }

  /** With the text used up, only the pattern left at the cursor decides. */
  lemma {:induction false} TextUsedUp(p: bytes, t: bytes, c: Cursors)
    requires c.Valid(p, t) && c.ti == |t|
    ensures c.Reachable(p, t) <==> CodeMatches(p[c.pi..], [])
  {
    assert t[|t|..] == [];
    if c.starPi != -1 && MatchesLater(p, c.starPi + 1, t, c.starTi) {
      var k :| c.starTi < k <= |t| && CodeMatches(p[c.starPi + 1..], t[k..]);
      var j := LaterStartNeverArrivesEarlier(p, c.starPi + 1, c.pi, t, c.starTi, k);
    }
  }

  /** A mismatch with no star to go back to. */
  lemma {:induction false} DeadEnd(p: bytes, t: bytes, c: Cursors)
    requires c.Valid(p, t) && c.ti < |t| && c.starPi == -1
    requires c.pi < |p| ==> p[c.pi] != QUESTION && p[c.pi] != t[c.ti] && p[c.pi] != STAR
    ensures !c.Reachable(p, t)
  {
    assert !CodeMatches(p[c.pi..], t[c.ti..]);
  }

  lemma {:induction false} RoundsFit(p: bytes, t: bytes, c: Cursors)
    requires c.Valid(p, t)
    ensures c.Spent(p, t) < Paid(|t| + 1, |t| + |p| + 1)
  {
    MovingTheMarkPays(c.starTi, |t|, |t| + |p| + 1);
  }

  /**
   The two-pointer matcher. It returns exactly `CodeMatches`, and its main loop runs at most
   `(|text| + 1) * (|text| + |pattern| + 1)` times (`PaidIsProduct`).
   */
  method GlobMatchImpl(pattern: bytes, text: bytes) returns (matched: bool, ghost rounds: nat)
    ensures matched <==> CodeMatches(pattern, text)
    ensures rounds <= Paid(|text| + 1, |text| + |pattern| + 1)
  {
    hide CodeMatches, LiteralRun, MatchesLater, Paid;
    var pi, ti := 0, 0;
    var starPi, starTi := -1, 0;
    ghost var c := Cursors(pi, ti, starPi, starTi);
    rounds := 0;
    assert pattern[0..] == pattern && text[0..] == text;
    while ti < |text|
      invariant c == Cursors(pi, ti, starPi, starTi) && c.Valid(pattern, text)
      invariant CodeMatches(pattern, text) <==> c.Reachable(pattern, text)
      invariant rounds <= c.Spent(pattern, text)
      decreases |text| - starTi, |text| - ti, |pattern| - pi
    {
      ghost var before := c;
      if pi < |pattern| && (pattern[pi] == QUESTION || pattern[pi] == text[ti]) {
        pi := pi + 1;
        ti := ti + 1;
        rounds := rounds + 1;
        c := Cursors(pi, ti, starPi, starTi);
        LiteralStep(pattern, text, before, c);
      } else if pi < |pattern| && pattern[pi] == STAR {
        starPi := pi;
        starTi := ti;
        pi := pi + 1;
        rounds := rounds + 1;
        c := Cursors(pi, ti, starPi, starTi);
        StarStep(pattern, text, before, c);
        StarStepSpends(pattern, text, before, c);
      } else if starPi != -1 {
        pi := starPi + 1;
        starTi := starTi + 1;
        ti := starTi;
        rounds := rounds + 1;
        c := Cursors(pi, ti, starPi, starTi);
        BacktrackStep(pattern, text, before, c);
      } else {
        DeadEnd(pattern, text, c);
        RoundsFit(pattern, text, c);
        return false, rounds + 1;
      }
    }
    RoundsFit(pattern, text, c);
    TextUsedUp(pattern, text, c);
    matched := OnlyStarsLeft(pattern, pi);
  }

  /** The tail of the matcher: with the text used up, skip stars and see whether that ends the pattern. */
  method OnlyStarsLeft(pattern: bytes, from: nat) returns (matched: bool)
    requires from <= |pattern|
    ensures matched <==> CodeMatches(pattern[from..], [])
  {
    var pi := from;
    while pi < |pattern| && pattern[pi] == STAR
      invariant from <= pi <= |pattern|
      invariant CodeMatches(pattern[from..], []) <==> CodeMatches(pattern[pi..], [])
    {
      TrailingStars(pattern, pi);
      pi := pi + 1;
    }
    if pi < |pattern| {
      TrailingStars(pattern, pi);
    }
    matched := pi == |pattern|;
  }

  /** Matching a list of patterns; the caller's lower-casing of the text is the parameter `lower`. */
  method GlobMatchAny(patterns: seq<bytes>, text: bytes, lower: bytes -> bytes) returns (matched: bool)
    ensures matched <==> exists i :: 0 <= i < |patterns| && CodeMatches(patterns[i], lower(text))
  {
    if patterns == [] {
      return false;
    }
    var textBytes := lower(text);
    for n := 0 to |patterns|
      invariant forall i :: 0 <= i < n ==> !CodeMatches(patterns[i], textBytes)
    {
      var one, _ := GlobMatchImpl(patterns[n], textBytes);
      if one {
        return true;
      }
    }
    return false;
  }

  // ---- What the decision is worth --------------------------------------------------------

  /** A reported match is a match, for every pattern and text. */
  lemma {:induction false} Sound(p: bytes, t: bytes)
    requires CodeMatches(p, t)
    ensures Matches(p, t)
    decreases |p|
  {
    if p != [] {
      if p[0] == STAR && (t == [] || t[0] != STAR) {
        var k :| 0 <= k <= |t| && CodeMatches(p[1..], t[k..]);
        Sound(p[1..], t[k..]);
      } else {
        Sound(p[1..], t[1..]);
      }
    }
  }

  /** No match is missed when the text holds no `*` byte. */
  lemma {:induction false} CompleteOnStarFreeText(p: bytes, t: bytes)
    requires STAR !in t && Matches(p, t)
    ensures CodeMatches(p, t)
    decreases |p|
  {
    if p != [] {
      if p[0] == STAR {
        var k :| 0 <= k <= |t| && Matches(p[1..], t[k..]);
        CompleteOnStarFreeText(p[1..], t[k..]);
      } else {
        CompleteOnStarFreeText(p[1..], t[1..]);
      }
    }
  }

  /** No match is missed when the pattern holds no `*`. */
  lemma {:induction false} CompleteOnStarFreePattern(p: bytes, t: bytes)
    requires STAR !in p && Matches(p, t)
    ensures CodeMatches(p, t)
    decreases |p|
  {
    if p != [] {
      CompleteOnStarFreePattern(p[1..], t[1..]);
    }
  }

  /** Every byte string matches itself read as a pattern. */
  lemma {:induction false} SelfMatch(u: bytes, p: bytes, t: bytes)
    requires Matches(p, t)
    ensures Matches(u + p, u + t)
    decreases |u|
  {
    if u == [] {
      assert u + p == p && u + t == t;
    } else {
      assert (u + p)[1..] == u[1..] + p && (u + t)[1..] == u[1..] + t;
      SelfMatch(u[1..], p, t);
    }
  }

  /** The loop walks a common prefix literally and never looks back at it. */
  lemma {:induction false} CommonPrefixIsLiteral(u: bytes, p: bytes, t: bytes)
    ensures CodeMatches(u + p, u + t) <==> CodeMatches(p, t)
    decreases |u|
  {
    if u == [] {
      assert u + p == p && u + t == t;
    } else {
      assert (u + p)[1..] == u[1..] + p && (u + t)[1..] == u[1..] + t;
      assert (u + p)[0] == (u + t)[0] == u[0];
      CommonPrefixIsLiteral(u[1..], p, t);
    }
  }

  function Marks(n: nat): bytes { seq(n, _ => QUESTION) }

  /** `n` question marks match exactly the texts of length `n`, in both readings. */
  lemma {:induction false} QuestionMarks(n: nat, t: bytes)
    ensures Matches(Marks(n), t) <==> |t| == n
    ensures CodeMatches(Marks(n), t) <==> |t| == n
  {
    if n != 0 && t != [] {
      assert Marks(n)[1..] == Marks(n - 1);
      QuestionMarks(n - 1, t[1..]);
    }
  }

  /** A text with a `*` byte has a pattern that matches it and that the loop rejects. */
  lemma {:induction false} StarInTextMissesAMatch(t: bytes, i: nat) returns (p: bytes)
    requires i < |t| && t[i] == STAR
    ensures Matches(p, t) && !CodeMatches(p, t)
  {
    var u, v := t[..i], t[i..];
    var marks := Marks(|v|);
    p := u + ([STAR] + marks);
    assert t == u + v;
    QuestionMarks(|v|, v);
    assert ([STAR] + marks)[1..] == marks && v[0..] == v;
    assert Matches([STAR] + marks, v);
    SelfMatch(u, [STAR] + marks, v);
    QuestionMarks(|v|, v[1..]);
    CommonPrefixIsLiteral(u, [STAR] + marks, v);
  }

  /**
   The exact condition on the text: the matcher agrees with the meaning of globs on every
   pattern if and only if the text holds no `*` byte.
   */
  lemma {:induction false} ExactOnText(t: bytes)
    ensures (forall p :: CodeMatches(p, t) <==> Matches(p, t)) <==> STAR !in t
  {
    forall p | CodeMatches(p, t)
      ensures Matches(p, t)
    {
      Sound(p, t);
    }
    if STAR in t {
      var i :| 0 <= i < |t| && t[i] == STAR;
      var p := StarInTextMissesAMatch(t, i);
    } else {
      forall p | Matches(p, t)
        ensures CodeMatches(p, t)
      {
        CompleteOnStarFreeText(p, t);
      }
    }
  }

  /** Without stars left in the pattern both readings need texts of the same length. */
  lemma {:induction false} StarFreeFixesLength(p: bytes, t: bytes)
    requires STAR !in p && CodeMatches(p, t)
    ensures |t| == |p|
    decreases |p|
  {
    if p != [] {
      StarFreeFixesLength(p[1..], t[1..]);
    }
  }

  /** The position of the last `*`. */
  lemma {:induction false} LastStar(p: bytes) returns (i: nat)
    requires STAR in p
    ensures i < |p| && p[i] == STAR && STAR !in p[i + 1..]
    decreases |p|
  {
    if STAR in p[1..] {
      var j := LastStar(p[1..]);
      i := j + 1;
      assert p[1..][j + 1..] == p[i + 1..];
    } else {
      i := 0;
    }
  }

  /** A pattern with a `*` has a text that it matches and that the loop rejects. */
  lemma {:induction false} StarInPatternMissesAMatch(p: bytes) returns (t: bytes)
    requires STAR in p
    ensures Matches(p, t) && !CodeMatches(p, t)
  {
    var i := LastStar(p);
    var u, w := p[..i], p[i + 1..];
    assert p == u + ([STAR] + w);
    var rest := [STAR, STAR] + w;
    t := u + rest;
    SelfMatch(w, [], []);
    assert w + [] == w;
    assert rest[2..] == w && ([STAR] + w)[1..] == w;
    assert Matches([STAR] + w, rest);
    SelfMatch(u, [STAR] + w, rest);
    CommonPrefixIsLiteral(u, [STAR] + w, rest);
    assert rest[1..] == [STAR] + w;
    if CodeMatches(w, rest[1..]) {
      StarFreeFixesLength(w, rest[1..]);
    }
  }

  /**
   The exact condition on the pattern: the matcher agrees with the meaning of globs on every
   text if and only if the pattern holds no `*`.
   */
  lemma {:induction false} ExactOnPattern(p: bytes)
    ensures (forall t :: CodeMatches(p, t) <==> Matches(p, t)) <==> STAR !in p
  {
    forall t | CodeMatches(p, t)
      ensures Matches(p, t)
    {
      Sound(p, t);
    }
    if STAR in p {
      var t := StarInPatternMissesAMatch(p);
    } else {
      forall t | Matches(p, t)
        ensures CodeMatches(p, t)
      {
        CompleteOnStarFreePattern(p, t);
      }
    }
  }

  /** The smallest surprise: pattern `*a` on text `*ba`. */
  lemma StarByteIsNotAWildcard()
    ensures var p, t := [42, 97], [42, 98, 97]; Matches(p, t) && !CodeMatches(p, t)
  {
    var p: bytes, t: bytes := [STAR, 97], [STAR, 98, 97];
    assert p[1..] == [97] && t[2..] == [97] && t[1..] == [98, 97];
    var a: bytes := [97];
    assert a[1..] == [];
    assert Matches([97], t[2..]);
  }

  /** The two wildcards: byte 42, `*`, alone means any text, and byte 63, `?`, alone any single byte. */
  lemma WildcardBytes(t: bytes)
    ensures Matches([42], t) && (42 !in t ==> CodeMatches([42], t))
    ensures (Matches([63], t) <==> |t| == 1) && (CodeMatches([63], t) <==> |t| == 1)
  {
    var star: bytes := [42];
    assert star[1..] == [] && t[|t|..] == [];
    assert Matches(star[1..], t[|t|..]);
    ExactOnText(t);
    QuestionMarks(1, t);
    assert Marks(1) == [63];
  }
}
