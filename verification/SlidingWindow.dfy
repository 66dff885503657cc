/**
 The 60-bucket sliding window behind the ingest rate limiter (`src/util/sliding_window.rs`).

 `Window` is the value of a window and the functions on it say what the three operations
 compute. `Represents` ties a window to the log of instants it was incremented at, and
 `CountIsRecent` is the point of the structure: after an advance, the sum of the buckets is
 the number of increments of the last 60 seconds. The class is the source's struct.
 */
module SlidingWindows {
  import opened MachineTypes

  const SPAN: nat := 60

  datatype WindowValue = Window(counts: seq<nat>, currentSecond: nat)

  type Window = w: WindowValue | |w.counts| == SPAN witness Window(seq(60, _ => 0), 0)

  function Zeros(): (z: seq<nat>)
    ensures |z| == SPAN && forall i :: 0 <= i < SPAN ==> z[i] == 0
  {
    seq(SPAN, _ => 0)
  }

  /** A window that was never advanced. */
  function Fresh(): Window { Window(Zeros(), 0) }

  /** Bucket `i` belongs to one of the `elapsed` seconds that follow `current`. */
  predicate Cleared(current: nat, elapsed: nat, i: nat) {
    (i - current - 1) % SPAN < elapsed
  }

  function Advanced(w: Window, now: nat): (r: Window)
  {
    if w.currentSecond == 0 then w.(currentSecond := now)
    else if now <= w.currentSecond then w
    else
      var elapsed := now - w.currentSecond;
      if elapsed >= SPAN then Window(Zeros(), now)
      else Window(seq(SPAN, i requires 0 <= i < SPAN =>
                    if Cleared(w.currentSecond, elapsed, i) then 0 else w.counts[i]), now)
  }

  function SaturatingInc(n: nat): nat { if n >= U32_MAX then U32_MAX else n + 1 }

  function Incremented(w: Window, now: nat): (r: Window)
  {
    w.(counts := w.counts[now % SPAN := SaturatingInc(w.counts[now % SPAN])])
  }

  function Sum(s: seq<nat>): (total: nat)
    ensures forall i :: 0 <= i < |s| ==> s[i] <= total
  {
    if s == [] then 0 else Sum(s[..|s| - 1]) + s[|s| - 1]
  }

  function Total(w: Window): nat { Sum(w.counts) }

  // ---- Windows and logs of increments ----------------------------------------------------

  /** How many instants of `log` lie after `cutoff`. */
  function CountSince(log: seq<nat>, cutoff: int): (n: nat)
    ensures n <= |log|
  {
    if log == [] then 0
    else CountSince(log[..|log| - 1], cutoff) + if log[|log| - 1] > cutoff then 1 else 0
  }

  /** How often `second` occurs in `log`. */
  function Occurrences(log: seq<nat>, second: int): (n: nat)
    ensures n == 0 <==> forall i :: 0 <= i < |log| ==> log[i] != second
  {
    if log == [] then 0
    else Occurrences(log[..|log| - 1], second) + if log[|log| - 1] == second then 1 else 0
  }

  /** The second of `(now - 60, now]` that bucket `i` stands for. */
  function SecondOf(now: int, i: int): (s: int)
    ensures now - SPAN < s <= now
  {
    now - (now - i) % SPAN
  }

  lemma BucketOfSecond(now: int, s: int)
    requires now - SPAN < s <= now
    ensures SecondOf(now, s % SPAN) == s
    ensures forall i :: 0 <= i < SPAN && i != s % SPAN ==> SecondOf(now, i) != s
  {
    assert (now - s % SPAN) % SPAN == now - s;
  }

  /** The buckets of a window standing at `now`, computed from the log. */
  function Buckets(log: seq<nat>, now: int): (b: seq<nat>)
    ensures |b| == SPAN
  {
    seq(SPAN, i => Occurrences(log, SecondOf(now, i)))
  }

  lemma {:induction false} SumOfUpdate(s: seq<nat>, i: nat, v: nat)
    requires i < |s|
    ensures Sum(s[i := v]) == Sum(s) - s[i] + v
  {
    var n := |s| - 1;
    if i == n {
      assert s[i := v][..n] == s[..n];
    } else {
      assert s[i := v][..n] == s[..n][i := v];
      SumOfUpdate(s[..n], i, v);
    }
  }

  lemma {:induction false} SumOfZeros(s: seq<nat>)
    requires forall i :: 0 <= i < |s| ==> s[i] == 0
    ensures Sum(s) == 0
  {
    if s != [] {
      SumOfZeros(s[..|s| - 1]);
    }
  }

  /** One more instant fills exactly one bucket if it is recent, none otherwise. */
  lemma {:induction false} BucketsOfAppend(log: seq<nat>, t: nat, now: int)
    requires t <= now
    ensures Buckets(log + [t], now)
            == if t > now - SPAN then Buckets(log, now)[t % SPAN := Buckets(log, now)[t % SPAN] + 1]
               else Buckets(log, now)
  {
    assert (log + [t])[..|log|] == log;
    if t > now - SPAN {
      BucketOfSecond(now, t);
    }
    forall i | 0 <= i < SPAN
      ensures Buckets(log + [t], now)[i]
              == Buckets(log, now)[i] + if SecondOf(now, i) == t then 1 else 0
    {
      assert Occurrences(log + [t], SecondOf(now, i))
          == Occurrences(log, SecondOf(now, i)) + if SecondOf(now, i) == t then 1 else 0;
    }
  }

  /** The 60 buckets add up to the instants of the last 60 seconds. */
  lemma {:induction false} BucketsSum(log: seq<nat>, now: int)
    requires forall i :: 0 <= i < |log| ==> log[i] <= now
    ensures Sum(Buckets(log, now)) == CountSince(log, now - SPAN)
  {
    if log == [] {
      SumOfZeros(Buckets(log, now));
    } else {
      var n := |log| - 1;
      var init, t := log[..n], log[n];
      assert log == init + [t];
      BucketsSum(init, now);
      BucketsOfAppend(init, t, now);
      if t > now - SPAN {
        SumOfUpdate(Buckets(init, now), t % SPAN, Buckets(init, now)[t % SPAN] + 1);
      }
    }
  }

  /**
   `w` has seen `log`: it stands at or after every instant of the log, and each bucket holds
   the increments of the one second of the last 60 it stands for. Second 0 is left out: the
   source uses it as its "never advanced" mark.
   */
  ghost predicate Represents(w: Window, log: seq<nat>) {
    && w.currentSecond >= 1
    && (forall i :: 0 <= i < |log| ==> log[i] <= w.currentSecond)
    && w.counts == Buckets(log, w.currentSecond)
  }

  lemma {:induction false} CountIsRecent(w: Window, log: seq<nat>)
    requires Represents(w, log)
    ensures Total(w) == CountSince(log, w.currentSecond - SPAN)
  {
    BucketsSum(log, w.currentSecond);
  }

  lemma ModWrap(x: int, e: int)
    requires 0 < e < SPAN
    ensures (x + e) % SPAN == if x % SPAN + e < SPAN then x % SPAN + e else x % SPAN + e - SPAN
  {
  }

  lemma MirrorMod(x: int)
    ensures (-x - 1) % SPAN == SPAN - 1 - x % SPAN
  {
  }

  /** A bucket is cleared exactly when the second it stands for changes. */
  lemma ClearedMeansNewSecond(current: nat, elapsed: nat, i: nat)
    requires 0 < elapsed < SPAN && i < SPAN
    ensures Cleared(current, elapsed, i) ==> SecondOf(current + elapsed, i) > current
    ensures !Cleared(current, elapsed, i) ==> SecondOf(current + elapsed, i) == SecondOf(current, i)
  {
    MirrorMod(current - i);
    ModWrap(current - i, elapsed);
    assert (i - current - 1) == -(current - i) - 1;
    assert current + elapsed - i == (current - i) + elapsed;
  }

  lemma {:induction false} AdvanceRepresents(w: Window, log: seq<nat>, now: nat)
    requires Represents(w, log) && w.currentSecond <= now
    ensures Represents(Advanced(w, now), log) && Advanced(w, now).currentSecond == now
  {
    var r := Advanced(w, now);
    if w.currentSecond < now {
      forall i | 0 <= i < SPAN
        ensures r.counts[i] == Occurrences(log, SecondOf(now, i))
      {
        if now - w.currentSecond < SPAN {
          ClearedMeansNewSecond(w.currentSecond, now - w.currentSecond, i);
        }
      }
      assert r.counts == Buckets(log, now);
    }
  }

  /** A window created at `now` stands for any log whose instants are all a minute old. */
  lemma {:induction false} FreshRepresents(log: seq<nat>, now: nat)
    requires 1 <= now && forall i :: 0 <= i < |log| ==> log[i] <= now - SPAN
    ensures Represents(Advanced(Fresh(), now), log) && Advanced(Fresh(), now).currentSecond == now
  {
    assert Zeros() == Buckets(log, now);
  }

  lemma {:induction false} IncrementRepresents(w: Window, log: seq<nat>)
    requires Represents(w, log) && Total(w) < U32_MAX
    ensures Represents(Incremented(w, w.currentSecond), log + [w.currentSecond])
    ensures Total(Incremented(w, w.currentSecond)) == Total(w) + 1
  {
    hide Occurrences, SecondOf, Sum;
    var now := w.currentSecond;
    BucketsOfAppend(log, now, now);
    assert w.counts[now % SPAN] <= Total(w);
    SumOfUpdate(w.counts, now % SPAN, w.counts[now % SPAN] + 1);
  }

  // ---- The struct of the source ----------------------------------------------------------

  class SlidingWindow {
    const counts: array<nat>
    var currentSecond: nat

    ghost predicate Valid() {
      counts.Length == SPAN
    }

    ghost function Value(): Window
      reads this, counts
      requires Valid()
    {
      Window(counts[..], currentSecond)
    }

    constructor ()
      ensures Valid() && fresh(counts) && Value() == Fresh()
    {
      counts := new nat[60](_ => 0);
      currentSecond := 0;
      new;
      assert counts[..] == Zeros();
    }

    /** Zero every bucket of the seconds that passed, at most all 60. */
    method Advance(nowSecs: nat)
      requires Valid()
      modifies this, counts
      ensures Valid() && Value() == Advanced(old(Value()), nowSecs)
    {
      if currentSecond == 0 {
        currentSecond := nowSecs;
        return;
      }
      var elapsed := if nowSecs < currentSecond then 0 else nowSecs - currentSecond;
      if elapsed == 0 {
        return;
      }
      ghost var was := counts[..];
      if elapsed >= 60 {
        forall i | 0 <= i < counts.Length {
          counts[i] := 0;
        }
        assert counts[..] == Zeros();
      } else {
        for n := 0 to elapsed
          invariant currentSecond == old(currentSecond)
          invariant forall i :: 0 <= i < SPAN ==>
            counts[i] == if Cleared(currentSecond, n, i) then 0 else was[i]
        {
          var idx := (currentSecond + n + 1) % 60;
          OneMoreCleared(currentSecond, n);
          counts[idx] := 0;
        }
      }
      currentSecond := nowSecs;
      assert counts[..] == Advanced(old(Value()), nowSecs).counts;
    }

    /** The sum of the buckets. The source adds `u32`s; `RateLimit.CountNeverOverflows` is why that is safe. */
    method Count() returns (total: nat)
      requires Valid()
      ensures total == Total(Value())
    {
      total := 0;
      for n := 0 to counts.Length
        invariant total == Sum(counts[..n])
      {
        assert counts[..n + 1][..n] == counts[..n];
        total := total + counts[n];
      }
      assert counts[..counts.Length] == counts[..];
    }

    method Increment(nowSecs: nat)
      requires Valid()
      modifies counts
      ensures Valid() && Value() == Incremented(old(Value()), nowSecs)
      ensures counts[nowSecs % 60] == (if old(counts[nowSecs % 60]) < 4294967295 then old(counts[nowSecs % 60]) + 1 else 4294967295)
      ensures forall i :: 0 <= i < 60 && i != nowSecs % 60 ==> counts[i] == old(counts[i])
    {
      var idx := nowSecs % 60;
      counts[idx] := SaturatingInc(counts[idx]);
    }
  }

  lemma OneMoreCleared(current: nat, n: nat)
    requires n + 1 < SPAN
    ensures forall i :: 0 <= i < SPAN ==>
      (Cleared(current, n + 1, i) <==> Cleared(current, n, i) || i == (current + n + 1) % SPAN)
  {
    forall i | 0 <= i < SPAN
      ensures Cleared(current, n + 1, i) <==> Cleared(current, n, i) || i == (current + n + 1) % SPAN
    {
      if (i - current - 1) % SPAN == n {
        SamePosition(i, i - current - 1, n, current + n + 1);
      }
      if i == (current + n + 1) % SPAN {
        assert (current + n + 1 - current - 1) % SPAN == n;
        assert (i - current - 1) % SPAN == n;
      }
    }
  }

  lemma SamePosition(i: nat, x: int, n: nat, y: int)
    requires i < SPAN && n < SPAN && x % SPAN == n && y == i - x + n
    ensures y % SPAN == i
  {
  }
}
