/**
 The mutable half of the filter engine that rate-limits requests (`src/filter/engine.rs`,
 `src/util/throttle.rs`): a map of window objects changed in place, and the throttle that
 makes eviction run at most once a minute. Every method is tied to the value-level limiter
 of `RateLimit`, whose theorems therefore hold of it.
 */
module FilterEngines {
  import opened MachineTypes
  import opened SlidingWindows
  import opened RateLimit

  /** A call at `now` is granted. */
  predicate Grants(last: nat, now: nat, interval: nat) { SaturatingSub(now, last) >= interval }

  /** The calls a throttle grants, when asked at the instants `calls`. */
  function Granted(last: nat, calls: seq<nat>, interval: nat): seq<nat>
    decreases |calls|
  {
    if calls == [] then []
    else if Grants(last, calls[0], interval) then [calls[0]] + Granted(calls[0], calls[1..], interval)
    else Granted(last, calls[1..], interval)
  }

  /** Any two instants, the one before the first included, are at least an interval apart. */
  ghost predicate Spaced(instants: seq<nat>, last: nat, interval: nat) {
    && (forall i :: 0 <= i < |instants| ==> last + interval <= instants[i])
    && (forall i, j :: 0 <= i < j < |instants| ==> instants[i] + interval <= instants[j])
  }

  lemma SpacedCons(last: nat, now: nat, instants: seq<nat>, interval: nat)
    requires last + interval <= now && Spaced(instants, now, interval)
    ensures Spaced([now] + instants, last, interval)
  {
  }

  /** At most one call per interval is granted, whatever the clock does. */
  lemma {:induction false} GrantsAreApart(last: nat, calls: seq<nat>, interval: nat)
    requires interval > 0
    ensures Spaced(Granted(last, calls, interval), last, interval)
    decreases |calls|
  {
    if calls != [] {
      if Grants(last, calls[0], interval) {
        GrantsAreApart(calls[0], calls[1..], interval);
        assert last + interval <= calls[0];
        SpacedCons(last, calls[0], Granted(calls[0], calls[1..], interval), interval);
      } else {
        GrantsAreApart(last, calls[1..], interval);
      }
    }
  }

  /** Once-per-interval gate; one caller at a time, so the compare-and-exchange always wins. */
  class Throttle {
    var last: nat

    constructor WithLast(lastSecs: nat)
      ensures last == lastSecs
    {
      last := lastSecs;
    }

    method Allow(nowSecs: nat, intervalSecs: nat) returns (granted: bool)
      modifies this
      ensures granted <==> Grants(old(last), nowSecs, intervalSecs)
      ensures last == if granted then nowSecs else old(last)
    {
      granted := SaturatingSub(nowSecs, last) >= intervalSecs;
      if granted {
        last := nowSecs;
      }
    }
  }

  /** A throttle asked again and again grants those calls, and no others. */
  method AllowEach(throttle: Throttle, calls: seq<nat>, intervalSecs: nat) returns (granted: seq<nat>)
    modifies throttle
    ensures granted == Granted(old(throttle.last), calls, intervalSecs)
    ensures intervalSecs > 0 ==> Spaced(granted, old(throttle.last), intervalSecs)
  {
    ghost var last := throttle.last;
    granted := [];
    for n := 0 to |calls|
      invariant granted + Granted(throttle.last, calls[n..], intervalSecs) == Granted(last, calls, intervalSecs)
    {
      assert calls[n..][1..] == calls[n + 1..];
      var ok := throttle.Allow(calls[n], intervalSecs);
      if ok {
        granted := granted + [calls[n]];
      }
    }
    if intervalSecs > 0 {
      GrantsAreApart(last, calls, intervalSecs);
    }
  }

  datatype RateVerdict = Ok | RateLimited(retryAfter: nat)

  class FilterEngine {
    var limits: Limits
    var rateWindows: map<Scope, SlidingWindow>
    const evictionThrottle: Throttle
    /** The window objects and their buckets. */
    ghost var Repr: set<object>
    /** What the windows hold. */
    ghost var Contents: map<Scope, Window>

    /** No two scopes share a window or its buckets. */
    ghost predicate Valid()
      reads this, Repr
    {
      && this !in Repr && evictionThrottle !in Repr
      && Contents.Keys == rateWindows.Keys
      && (forall s :: s in rateWindows ==> OwnWindow(rateWindows[s]) && rateWindows[s].Value() == Contents[s])
      && (forall s, s' :: s in rateWindows && s' in rateWindows && s != s' ==> Apart(rateWindows[s], rateWindows[s']))
    }

    ghost predicate OwnWindow(w: SlidingWindow)
      reads this
    {
      w in Repr && w.counts in Repr && w.Valid()
    }

    static ghost predicate Apart(v: SlidingWindow, w: SlidingWindow) {
      v != w && v.counts != w.counts
    }

    ghost function Value(): Limiter
      reads this, evictionThrottle
    {
      Limiter(Contents, evictionThrottle.last)
    }

    constructor (limits: Limits, nowSecs: nat)
      ensures Valid() && Value() == Start(nowSecs) && this.limits == limits
      ensures fresh(evictionThrottle) && Repr == {}
    {
      this.limits := limits;
      rateWindows := map[];
      Repr, Contents := {}, map[];
      evictionThrottle := new Throttle.WithLast(nowSecs);
    }

    /** Reloading swaps the limits and leaves every window alone. */
    method ApplyData(newLimits: Limits)
      requires Valid()
      modifies this`limits
      ensures Valid() && Value() == old(Value()) && limits == newLimits && Repr == old(Repr)
    {
      limits := newLimits;
    }

    /** One request against the limit and window of the scope that supplies its limit. */
    method CheckRateLimit(publicKey: string, projectId: nat, nowSecs: nat) returns (verdict: RateVerdict)
      requires Valid()
      modifies this`rateWindows, this`Repr, this`Contents, Repr, evictionThrottle
      ensures Valid() && fresh(Repr - old(Repr)) && limits == old(limits)
      ensures var (after, ok) := Check(old(Value()), Request(limits, publicKey, projectId, nowSecs), true);
              Value() == after && verdict == if ok then Ok else RateLimited(60)
    {
      var request := Request(limits, publicKey, projectId, nowSecs);
      var (limit, scope) := request.Resolve();
      if limit == 0 {
        return Ok;
      }
      var admitted := AdmitOne(scope, limit, nowSecs);
      if !admitted {
        return RateLimited(60);
      }
      EvictStaleRateWindows(nowSecs);
      return Ok;
    }

    /** The entry of the scope, with a new window on first use. */
    method WindowFor(scope: Scope)
      requires Valid()
      modifies this`rateWindows, this`Repr, this`Contents
      ensures Valid() && fresh(Repr - old(Repr)) && old(Repr) <= Repr
      ensures scope in rateWindows
      ensures Contents == if scope in old(Contents) then old(Contents) else old(Contents)[scope := Fresh()]
    {
      if scope !in rateWindows {
        var window := new SlidingWindow();
        rateWindows := rateWindows[scope := window];
        Repr, Contents := Repr + {window, window.counts}, Contents[scope := Fresh()];
      }
    }

    /** Under the entry guard: advance the window, and count the request if there is room. */
    static method TestAndCount(window: SlidingWindow, limit: u32, nowSecs: nat) returns (admitted: bool)
      requires window.Valid()
      modifies window, window.counts
      ensures admitted <==> Total(Advanced(old(window.Value()), nowSecs)) < limit
      ensures window.Value() == if admitted then Incremented(Advanced(old(window.Value()), nowSecs), nowSecs)
                                else Advanced(old(window.Value()), nowSecs)
    {
      window.Advance(nowSecs);
      var count := window.Count();
      admitted := count < limit;
      if admitted {
        window.Increment(nowSecs);
      }
    }

    /** The scope's existing window decides. */
    method DecideBy(scope: Scope, limit: u32, nowSecs: nat) returns (admitted: bool)
      requires Valid() && scope in rateWindows
      modifies this`Contents, Repr
      ensures Valid() && Value() == Admit(old(Value()), scope, limit, nowSecs).0
      ensures admitted == Admit(old(Value()), scope, limit, nowSecs).1
    {
      hide Advanced, Incremented, Total;
      admitted := TestAndCount(rateWindows[scope], limit, nowSecs);
      Contents := Contents[scope := rateWindows[scope].Value()];
    }

    /** Find or create the window of the scope, and let it decide. */
    method AdmitOne(scope: Scope, limit: u32, nowSecs: nat) returns (admitted: bool)
      requires Valid()
      modifies this`rateWindows, this`Repr, this`Contents, Repr
      ensures Valid() && fresh(Repr - old(Repr))
      ensures Value() == Admit(old(Value()), scope, limit, nowSecs).0
      ensures admitted == Admit(old(Value()), scope, limit, nowSecs).1
    {
      hide Admit, Valid;
      WindowFor(scope);
      CreatingFirst(old(Value()), scope, limit, nowSecs);
      admitted := DecideBy(scope, limit, nowSecs);
    }

    /** Keep the windows advanced less than `idle` seconds ago. */
    method RetainFresherThan(idle: nat, nowSecs: nat)
      requires Valid()
      modifies this`rateWindows, this`Contents
      ensures Valid()
      ensures Contents == Retain(old(Contents), nowSecs, idle) && |rateWindows| == |Contents|
    {
      rateWindows := map s | s in rateWindows && SaturatingSub(nowSecs, rateWindows[s].currentSecond) < idle :: rateWindows[s];
      Contents := Retain(Contents, nowSecs, idle);
      assert |rateWindows| == |rateWindows.Keys| && |Contents| == |Contents.Keys|;
    }

    /** At most once a minute, drop the windows idle for 120 seconds, or for 30 when too many are left. */
    method EvictStaleRateWindows(nowSecs: nat)
      requires Valid()
      modifies this`rateWindows, this`Contents, evictionThrottle
      ensures Valid()
      ensures Value() == EvictStale(old(Value()), nowSecs)
    {
      var due := evictionThrottle.Allow(nowSecs, 60);
      if due {
        RetainFresherThan(120, nowSecs);
        if |rateWindows| > 100_000 {
          RetainFresherThan(30, nowSecs);
        }
      }
    }
  }
}
