/**
 The scoped rate limiter of the ingest filter (`src/filter/engine.rs`) over whole runs.

 `Check` is one request as the source decides it: resolve the scope that supplies the limit,
 advance and test that scope's window, count an admission, then evict idle windows at most
 once a minute. `Reference` is what a limiter is for: admit exactly when the scope's own
 admissions of the last 60 seconds leave room, with no windows and no eviction at all.
 */
module RateLimit {
  import opened MachineTypes
  import opened SlidingWindows

  const EVICT_EVERY: nat := 60
  const IDLE_EVICT: nat := 120
  const IDLE_PRUNE: nat := 30
  const MAX_WINDOWS: nat := 100_000

  /** Which window a request spends from: the scope that supplied its limit. */
  datatype Scope = Key(publicKey: string) | Project(projectId: nat) | Global

  /** The limits in force; they may be reloaded between requests. */
  datatype Limits = Limits(byKey: map<string, u32>, byProject: map<nat, u32>, global: u32)

  datatype Request = Request(limits: Limits, publicKey: string, projectId: nat, now: nat) {
    /** Priority: per key, then per project, then global. */
    function Resolve(): (u32, Scope) {
      if publicKey in limits.byKey then (limits.byKey[publicKey], Key(publicKey))
      else if projectId in limits.byProject then (limits.byProject[projectId], Project(projectId))
      else (limits.global, Global)
    }

    function Limit(): u32 { Resolve().0 }

    function Scope(): Scope { Resolve().1 }

    /** The request is decided by the window of `s`. */
    predicate Spends(s: Scope) { Limit() != 0 && Scope() == s }
  }

  datatype Limiter = Limiter(windows: map<Scope, Window>, lastEviction: nat)

  function SaturatingSub(a: nat, b: nat): nat { if a < b then 0 else a - b }

  /** Keep the windows that were advanced less than `idle` seconds ago. */
  function Retain(windows: map<Scope, Window>, now: nat, idle: nat): map<Scope, Window> {
    map s | s in windows && SaturatingSub(now, windows[s].currentSecond) < idle :: windows[s]
  }

  predicate EvictionDue(l: Limiter, now: nat) { SaturatingSub(now, l.lastEviction) >= EVICT_EVERY }

  /** The second, tighter sweep runs: too many windows survive the first. */
  predicate PruneFires(l: Limiter, now: nat) {
    EvictionDue(l, now) && |Retain(l.windows, now, IDLE_EVICT)| > MAX_WINDOWS
  }

  function EvictStale(l: Limiter, now: nat): Limiter {
    if !EvictionDue(l, now) then l
    else
      var kept := Retain(l.windows, now, IDLE_EVICT);
      Limiter(if |kept| > MAX_WINDOWS then Retain(kept, now, IDLE_PRUNE) else kept, now)
  }

  /** The window a request of scope `s` finds, advanced to its own time. */
  function WindowAt(windows: map<Scope, Window>, s: Scope, now: nat): Window {
    Advanced(if s in windows then windows[s] else Fresh(), now)
  }

  /** Test and count under one entry guard. */
  function Admit(l: Limiter, s: Scope, limit: nat, now: nat): (Limiter, bool) {
    var w := WindowAt(l.windows, s, now);
    if Total(w) >= limit then (l.(windows := l.windows[s := w]), false)
    else (l.(windows := l.windows[s := Incremented(w, now)]), true)
  }

  /** Inserting a fresh window before deciding changes nothing. */
  lemma CreatingFirst(l: Limiter, s: Scope, limit: u32, now: nat)
    ensures Admit(l, s, limit, now)
            == Admit(if s in l.windows then l else l.(windows := l.windows[s := Fresh()]), s, limit, now)
  {
    hide Advanced, Incremented, Total, Fresh;
    var w := WindowAt(l.windows, s, now);
    assert WindowAt(l.windows[s := Fresh()], s, now) == Advanced(Fresh(), now);
    assert l.windows[s := Fresh()][s := w] == l.windows[s := w];
    assert l.windows[s := Fresh()][s := Incremented(w, now)] == l.windows[s := Incremented(w, now)];
  }

  /** One request; `evicting` tells the real limiter from one that keeps every window for ever. */
  function Check(l: Limiter, r: Request, evicting: bool): (Limiter, bool) {
    if r.Limit() == 0 then (l, true)
    else
      var (admitted, ok) := Admit(l, r.Scope(), r.Limit(), r.now);
      (if ok && evicting then EvictStale(admitted, r.now) else admitted, ok)
  }

  /** A whole run: the limiter it ends in and the answer to every request. */
  function Run(l: Limiter, reqs: seq<Request>, evicting: bool): (r: (Limiter, seq<bool>))
    ensures |r.1| == |reqs|
  {
    if reqs == [] then (l, [])
    else
      var n := |reqs| - 1;
      var (before, answers) := Run(l, reqs[..n], evicting);
      var (after, ok) := Check(before, reqs[n], evicting);
      (after, answers + [ok])
  }

  /** A limiter that has seen nothing; the eviction throttle starts at any instant. */
  function Start(lastEviction: nat): Limiter { Limiter(map[], lastEviction) }

  /** The tighter sweep fires somewhere in the run. */
  ghost predicate RunPrunes(l: Limiter, reqs: seq<Request>) {
    reqs != [] && (
      var n := |reqs| - 1;
      || RunPrunes(l, reqs[..n])
      || (var r := reqs[n];
          var (admitted, ok) := Admit(Run(l, reqs[..n], true).0, r.Scope(), r.Limit(), r.now);
          r.Limit() != 0 && ok && PruneFires(admitted, r.now)))
  }

  // ---- The reference -----------------------------------------------------------------------

  /** When requests spending from `s` were admitted. */
  function Log(reqs: seq<Request>, answers: seq<bool>, s: Scope): (log: seq<nat>)
    requires |answers| == |reqs|
    ensures |log| <= |reqs|
  {
    if reqs == [] then []
    else
      var n := |reqs| - 1;
      Log(reqs[..n], answers[..n], s) + if answers[n] && reqs[n].Spends(s) then [reqs[n].now] else []
  }

  /** Admit exactly when the scope's own admissions of the last 60 seconds leave room. */
  function Reference(reqs: seq<Request>): (answers: seq<bool>)
    ensures |answers| == |reqs|
  {
    if reqs == [] then []
    else
      var n := |reqs| - 1;
      var r, answers := reqs[n], Reference(reqs[..n]);
      answers + [r.Limit() == 0 || CountSince(Log(reqs[..n], answers, r.Scope()), r.now - SPAN) < r.Limit()]
  }

  /** The clock never runs backwards. */
  ghost predicate Monotone(reqs: seq<Request>) {
    forall i, j :: 0 <= i < j < |reqs| ==> reqs[i].now <= reqs[j].now
  }

  /** The clock reads at least 1: second 0 is the window's "never advanced" mark. */
  ghost predicate Ticking(reqs: seq<Request>) {
    Monotone(reqs) && forall i :: 0 <= i < |reqs| ==> 1 <= reqs[i].now
  }

  function LastTime(reqs: seq<Request>): nat { if reqs == [] then 0 else reqs[|reqs| - 1].now }

  ghost predicate AllAtMost(log: seq<nat>, bound: int) {
    forall i :: 0 <= i < |log| ==> log[i] <= bound
  }

  // ---- The limiter meets the reference -----------------------------------------------------

  /** The window of `s` stands for the log; without a window, `s` has been idle for a minute. */
  ghost predicate TracksScope(l: Limiter, s: Scope, log: seq<nat>, upTo: nat) {
    if s in l.windows then Represents(l.windows[s], log) && l.windows[s].currentSecond <= upTo
    else AllAtMost(log, upTo - SPAN)
  }

  ghost predicate Tracks(l: Limiter, reqs: seq<Request>, answers: seq<bool>, upTo: nat)
    requires |answers| == |reqs|
  {
    forall s: Scope :: TracksScope(l, s, Log(reqs, answers, s), upTo)
  }

  lemma {:induction false} WindowAtRepresents(l: Limiter, s: Scope, log: seq<nat>, now: nat)
    requires 1 <= now && TracksScope(l, s, log, now)
    ensures var w := WindowAt(l.windows, s, now);
            Represents(w, log) && w.currentSecond == now && Total(w) == CountSince(log, now - SPAN)
  {
    if s in l.windows {
      AdvanceRepresents(l.windows[s], log, now);
    } else {
      FreshRepresents(log, now);
    }
    CountIsRecent(WindowAt(l.windows, s, now), log);
  }

  lemma {:induction false} LogOfAppend(reqs: seq<Request>, answers: seq<bool>, r: Request, ok: bool, s: Scope)
    requires |answers| == |reqs|
    ensures Log(reqs + [r], answers + [ok], s)
            == Log(reqs, answers, s) + if ok && r.Spends(s) then [r.now] else []
  {
    assert (reqs + [r])[..|reqs|] == reqs && (answers + [ok])[..|reqs|] == answers;
  }

  /** A request decided by the window of `s` is decided by the log of `s`. */
  lemma {:induction false} AdmitTracksScope(l: Limiter, s: Scope, log: seq<nat>, limit: u32, now: nat)
    requires 1 <= now && TracksScope(l, s, log, now)
    ensures var (l', ok) := Admit(l, s, limit, now);
            && (ok <==> CountSince(log, now - SPAN) < limit)
            && TracksScope(l', s, log + if ok then [now] else [], now)
  {
    WindowAtRepresents(l, s, log, now);
    var w := WindowAt(l.windows, s, now);
    assert log + [] == log;
    if Total(w) < limit {
      IncrementRepresents(w, log);
      assert Incremented(w, now).currentSecond == now;
    }
  }

  /** Deciding one request keeps every window true to its log. */
  lemma {:induction false} AdmitTracks(l: Limiter, reqs: seq<Request>, answers: seq<bool>, r: Request)
    requires |answers| == |reqs| && 1 <= r.now && Tracks(l, reqs, answers, r.now) && r.Limit() != 0
    ensures var (l', ok) := Admit(l, r.Scope(), r.Limit(), r.now);
            && (ok <==> CountSince(Log(reqs, answers, r.Scope()), r.now - SPAN) < r.Limit())
            && Tracks(l', reqs + [r], answers + [ok], r.now)
  {
    hide Represents, AllAtMost, Log, CountSince;
    var (l', ok) := Admit(l, r.Scope(), r.Limit(), r.now);
    AdmitTracksScope(l, r.Scope(), Log(reqs, answers, r.Scope()), r.Limit(), r.now);
    forall s: Scope
      ensures TracksScope(l', s, Log(reqs + [r], answers + [ok], s), r.now)
    {
      LogOfAppend(reqs, answers, r, ok, s);
      assert TracksScope(l, s, Log(reqs, answers, s), r.now);
      assert Log(reqs, answers, s) + [] == Log(reqs, answers, s);
    }
  }

  /** An evicted window had nothing recent left in it. */
  lemma {:induction false} EvictTracks(l: Limiter, reqs: seq<Request>, answers: seq<bool>, now: nat)
    requires |answers| == |reqs| && Tracks(l, reqs, answers, now) && !PruneFires(l, now)
    ensures Tracks(EvictStale(l, now), reqs, answers, now)
  {
    forall s: Scope
      ensures TracksScope(EvictStale(l, now), s, Log(reqs, answers, s), now)
    {
      assert TracksScope(l, s, Log(reqs, answers, s), now);
    }
  }

  lemma {:induction false} TracksLater(l: Limiter, reqs: seq<Request>, answers: seq<bool>, upTo: nat, now: nat)
    requires |answers| == |reqs| && upTo <= now && Tracks(l, reqs, answers, upTo)
    ensures Tracks(l, reqs, answers, now)
  {
    forall s: Scope
      ensures TracksScope(l, s, Log(reqs, answers, s), now)
    {
      assert TracksScope(l, s, Log(reqs, answers, s), upTo);
    }
  }

  lemma {:induction false} UncountedTracks(l: Limiter, reqs: seq<Request>, answers: seq<bool>, r: Request, now: nat)
    requires |answers| == |reqs| && Tracks(l, reqs, answers, now) && r.Limit() == 0
    ensures Tracks(l, reqs + [r], answers + [true], now)
  {
    forall s: Scope
      ensures TracksScope(l, s, Log(reqs + [r], answers + [true], s), now)
    {
      LogOfAppend(reqs, answers, r, true, s);
      assert TracksScope(l, s, Log(reqs, answers, s), now);
      assert Log(reqs, answers, s) + [] == Log(reqs, answers, s);
    }
  }

  /** One request from a limiter that tracks its logs gives the reference answer and still tracks them. */
  lemma {:induction false} CheckTracks(l: Limiter, reqs: seq<Request>, answers: seq<bool>, r: Request, evicting: bool)
    requires |answers| == |reqs| && 1 <= r.now && Tracks(l, reqs, answers, r.now)
    requires evicting && r.Limit() != 0 ==> 
      var (admitted, ok) := Admit(l, r.Scope(), r.Limit(), r.now); !(ok && PruneFires(admitted, r.now))
    ensures var (l', ok) := Check(l, r, evicting);
            && (ok <==> r.Limit() == 0 || CountSince(Log(reqs, answers, r.Scope()), r.now - SPAN) < r.Limit())
            && Tracks(l', reqs + [r], answers + [ok], r.now)
  {
    hide Tracks, Log, CountSince, EvictStale, Admit;
    if r.Limit() == 0 {
      UncountedTracks(l, reqs, answers, r, r.now);
    } else {
      AdmitTracks(l, reqs, answers, r);
      var (admitted, ok) := Admit(l, r.Scope(), r.Limit(), r.now);
      if ok && evicting {
        EvictTracks(admitted, reqs + [r], answers + [ok], r.now);
      }
    }
  }

  lemma {:induction false} RunTracks(l: Limiter, reqs: seq<Request>, evicting: bool, upTo: nat)
    requires Ticking(reqs) && l.windows == map[] && (evicting ==> !RunPrunes(l, reqs))
    requires forall i :: 0 <= i < |reqs| ==> reqs[i].now <= upTo
    ensures Run(l, reqs, evicting).1 == Reference(reqs)
    ensures Tracks(Run(l, reqs, evicting).0, reqs, Reference(reqs), upTo)
  {
    hide Check, CountSince, Log, TracksScope;
    if reqs == [] {
      StartTracks(l, upTo);
    } else {
      var n := |reqs| - 1;
      var init, r := reqs[..n], reqs[n];
      assert reqs == init + [r];
      RunTracks(l, init, evicting, r.now);
      var (before, answers) := Run(l, init, evicting);
      CheckTracks(before, init, answers, r, evicting);
      TracksLater(Run(l, reqs, evicting).0, reqs, Reference(reqs), r.now, upTo);
    }
  }

  lemma {:induction false} StartTracks(l: Limiter, upTo: nat)
    requires l.windows == map[]
    ensures Tracks(l, [], [], upTo)
  {
    forall s: Scope
      ensures TracksScope(l, s, Log([], [], s), upTo)
    {
    }
  }

  /**
   Over every run with a clock that has started and never runs backwards, whatever limits are
   reloaded in between, the limiter gives exactly the reference answers, as long as the
   tighter sweep has not run. So idle windows may be evicted freely.
   */
  lemma {:induction false} MeetsReference(lastEviction: nat, reqs: seq<Request>)
    requires Ticking(reqs) && !RunPrunes(Start(lastEviction), reqs)
    ensures Run(Start(lastEviction), reqs, true).1 == Reference(reqs)
    ensures Run(Start(lastEviction), reqs, true).1 == Run(Start(lastEviction), reqs, false).1
  {
    var upTo := LastTime(reqs);
    RunTracks(Start(lastEviction), reqs, true, upTo);
    RunTracks(Start(lastEviction), reqs, false, upTo);
  }

  // ---- When the tighter sweep cannot run ---------------------------------------------------

  function Scopes(reqs: seq<Request>): set<Scope> { set i | 0 <= i < |reqs| :: reqs[i].Scope() }

  lemma {:induction false} WindowsComeFromRequests(l: Limiter, reqs: seq<Request>, evicting: bool)
    requires l.windows == map[]
    ensures Run(l, reqs, evicting).0.windows.Keys <= Scopes(reqs)
  {
    if reqs != [] {
      var n := |reqs| - 1;
      WindowsComeFromRequests(l, reqs[..n], evicting);
      assert Scopes(reqs[..n]) <= Scopes(reqs);
      assert reqs[n].Scope() in Scopes(reqs);
    }
  }

  lemma {:induction false} SmallerSet<T>(a: set<T>, b: set<T>)
    requires a <= b
    ensures |a| <= |b|
  {
    assert b == a + (b - a);
  }

  /** A run over at most 100 000 scopes never reaches the tighter sweep. */
  lemma {:induction false} FewScopesNeverPrune(lastEviction: nat, reqs: seq<Request>)
    requires |Scopes(reqs)| <= MAX_WINDOWS
    ensures !RunPrunes(Start(lastEviction), reqs)
  {
    if reqs != [] {
      var n := |reqs| - 1;
      var r := reqs[n];
      assert Scopes(reqs[..n]) <= Scopes(reqs);
      SmallerSet(Scopes(reqs[..n]), Scopes(reqs));
      FewScopesNeverPrune(lastEviction, reqs[..n]);
      var (admitted, ok) := Admit(Run(Start(lastEviction), reqs[..n], true).0, r.Scope(), r.Limit(), r.now);
      WindowsComeFromRequests(Start(lastEviction), reqs[..n], true);
      assert r.Scope() in Scopes(reqs);
      var kept := Retain(admitted.windows, r.now, IDLE_EVICT);
      assert kept.Keys <= Scopes(reqs);
      SmallerSet(kept.Keys, Scopes(reqs));
      assert |kept| == |kept.Keys|;
    }
  }

  // ---- No window span admits more than the limit -------------------------------------------

  /** How many instants of `log` lie in `(from, upTo]`. */
  function CountWithin(log: seq<nat>, from: int, upTo: int): nat {
    if log == [] then 0
    else CountWithin(log[..|log| - 1], from, upTo)
         + if from < log[|log| - 1] <= upTo then 1 else 0
  }

  lemma {:induction false} CountAntitone(log: seq<nat>, a: int, b: int)
    requires a <= b
    ensures CountSince(log, b) <= CountSince(log, a)
  {
    if log != [] {
      CountAntitone(log[..|log| - 1], a, b);
    }
  }

  lemma {:induction false} WithinIsSince(log: seq<nat>, from: int, upTo: int)
    ensures CountWithin(log, from, upTo) <= CountSince(log, from)
  {
    if log != [] {
      WithinIsSince(log[..|log| - 1], from, upTo);
    }
  }

  lemma {:induction false} CountAppend(log: seq<nat>, t: nat, from: int, upTo: int)
    ensures CountWithin(log + [t], from, upTo) == CountWithin(log, from, upTo) + if from < t <= upTo then 1 else 0
    ensures CountSince(log + [t], from) == CountSince(log, from) + if from < t then 1 else 0
  {
    assert (log + [t])[..|log|] == log;
  }

  /** No request spending from `s` is allowed more than `limit`. */
  ghost predicate LimitedBy(reqs: seq<Request>, s: Scope, limit: nat) {
    forall i :: 0 <= i < |reqs| && reqs[i].Spends(s) ==> reqs[i].Limit() <= limit
  }

  /** The reference answer to `r` after the run `reqs`. */
  function Decides(reqs: seq<Request>, r: Request): bool {
    r.Limit() == 0 || CountSince(Log(reqs, Reference(reqs), r.Scope()), r.now - SPAN) < r.Limit()
  }

  lemma {:induction false} ReferenceOfAppend(reqs: seq<Request>, r: Request, s: Scope)
    ensures Reference(reqs + [r]) == Reference(reqs) + [Decides(reqs, r)]
    ensures Log(reqs + [r], Reference(reqs + [r]), s)
            == Log(reqs, Reference(reqs), s) + if Decides(reqs, r) && r.Spends(s) then [r.now] else []
  {
    hide CountSince, Log;
    assert (reqs + [r])[..|reqs|] == reqs;
    LogOfAppend(reqs, Reference(reqs), r, Decides(reqs, r), s);
  }

  /** One more admission: only spans that end at or after it can have grown, and those were not full. */
  lemma {:induction false} AppendBound(log: seq<nat>, now: nat, limit: nat, end: int)
    requires CountWithin(log, end - SPAN, end) <= limit && CountSince(log, now - SPAN) < limit
    ensures CountWithin(log + [now], end - SPAN, end) <= limit
  {
    CountAppend(log, now, end - SPAN, end);
    if end - SPAN < now <= end {
      WithinIsSince(log, end - SPAN, end);
      CountAntitone(log, now - SPAN, end - SPAN);
    }
  }

  lemma {:induction false} ReferenceBound(reqs: seq<Request>, s: Scope, limit: nat, end: int)
    requires LimitedBy(reqs, s, limit)
    ensures CountWithin(Log(reqs, Reference(reqs), s), end - SPAN, end) <= limit
  {
    hide Reference, CountSince;
    if reqs != [] {
      var n := |reqs| - 1;
      var init, r := reqs[..n], reqs[n];
      assert reqs == init + [r];
      ReferenceBound(init, s, limit, end);
      ReferenceOfAppend(init, r, s);
      var log := Log(init, Reference(init), s);
      if Decides(init, r) && r.Spends(s) {
        AppendBound(log, r.now, limit, end);
      } else {
        assert log + [] == log;
      }
    }
  }

  /** No key, project or global scope admits more than its limit in any 60 seconds. */
  lemma {:induction false} NeverOverLimit(lastEviction: nat, reqs: seq<Request>, s: Scope, limit: nat, end: int)
    requires Ticking(reqs) && !RunPrunes(Start(lastEviction), reqs) && LimitedBy(reqs, s, limit)
    ensures CountWithin(Log(reqs, Run(Start(lastEviction), reqs, true).1, s), end - SPAN, end) <= limit
  {
    MeetsReference(lastEviction, reqs);
    ReferenceBound(reqs, s, limit, end);
  }

  // ---- Scopes never spend each other's budget ----------------------------------------------

  /** The requests of scope `s` alone. */
  function Only(reqs: seq<Request>, s: Scope): (r: seq<Request>)
    ensures forall i :: 0 <= i < |r| ==> r[i] in reqs && r[i].Scope() == s
  {
    if reqs == [] then []
    else
      var n := |reqs| - 1;
      Only(reqs[..n], s) + if reqs[n].Scope() == s then [reqs[n]] else []
  }

  /** The answers given to the requests of scope `s`. */
  function AnswersTo(reqs: seq<Request>, answers: seq<bool>, s: Scope): seq<bool>
    requires |answers| == |reqs|
  {
    if reqs == [] then []
    else
      var n := |reqs| - 1;
      AnswersTo(reqs[..n], answers[..n], s) + if reqs[n].Scope() == s then [answers[n]] else []
  }

  lemma {:induction false} TickingAppend(reqs: seq<Request>, r: Request)
    requires Ticking(reqs) && 1 <= r.now && forall i :: 0 <= i < |reqs| ==> reqs[i].now <= r.now
    ensures Ticking(reqs + [r])
  {
  }

  lemma {:induction false} OnlyIsTicking(reqs: seq<Request>, s: Scope)
    requires Ticking(reqs)
    ensures Ticking(Only(reqs, s))
  {
    if reqs != [] {
      var n := |reqs| - 1;
      OnlyIsTicking(reqs[..n], s);
      if reqs[n].Scope() == s {
        TickingAppend(Only(reqs[..n], s), reqs[n]);
      }
    }
  }

  lemma {:induction false} OnlyOfAppend(reqs: seq<Request>, r: Request, answers: seq<bool>, ok: bool, s: Scope)
    requires |answers| == |reqs|
    ensures Only(reqs + [r], s) == Only(reqs, s) + if r.Scope() == s then [r] else []
    ensures AnswersTo(reqs + [r], answers + [ok], s) == AnswersTo(reqs, answers, s) + if r.Scope() == s then [ok] else []
  {
    assert (reqs + [r])[..|reqs|] == reqs && (answers + [ok])[..|reqs|] == answers;
  }

  lemma {:induction false} ReferenceIsLocal(reqs: seq<Request>, s: Scope)
    ensures AnswersTo(reqs, Reference(reqs), s) == Reference(Only(reqs, s))
    ensures Log(reqs, Reference(reqs), s) == Log(Only(reqs, s), Reference(Only(reqs, s)), s)
  {
    if reqs != [] {
      hide Reference, Log, CountSince, Only, AnswersTo;
      var n := |reqs| - 1;
      var init, r := reqs[..n], reqs[n];
      assert reqs == init + [r];
      ReferenceIsLocal(init, s);
      ReferenceOfAppend(init, r, s);
      OnlyOfAppend(init, r, Reference(init), Decides(init, r), s);
      if r.Scope() == s {
        ReferenceOfAppend(Only(init, s), r, s);
      } else {
        assert Only(init, s) + [] == Only(init, s);
        assert AnswersTo(init, Reference(init), s) + [] == AnswersTo(init, Reference(init), s);
        assert Log(init, Reference(init), s) + [] == Log(init, Reference(init), s);
      }
    }
  }

  /**
   Scopes are isolated: the answers a scope gets in the full run are the answers it gets when
   no other scope sends anything.
   */
  lemma {:induction false} ScopesAreIsolated(lastEviction: nat, reqs: seq<Request>, s: Scope)
    requires Ticking(reqs) && !RunPrunes(Start(lastEviction), reqs)
    ensures AnswersTo(reqs, Run(Start(lastEviction), reqs, true).1, s)
            == Run(Start(lastEviction), Only(reqs, s), true).1
  {
    OnlyIsTicking(reqs, s);
    assert Scopes(Only(reqs, s)) <= {s};
    SmallerSet(Scopes(Only(reqs, s)), {s});
    FewScopesNeverPrune(lastEviction, Only(reqs, s));
    MeetsReference(lastEviction, reqs);
    MeetsReference(lastEviction, Only(reqs, s));
    ReferenceIsLocal(reqs, s);
  }

  // ---- Whose limit counts for whom ---------------------------------------------------------

  /** The request's key has a limit of its own. */
  predicate HasKeyLimit(r: Request) { r.publicKey in r.limits.byKey }

  /** Its project has one. */
  predicate HasProjectLimit(r: Request) { r.projectId in r.limits.byProject }

  /** A key's own limit goes before its project's, and that before the global one; 0 is no limit. */
  lemma ResolvesByPriority(r: Request)
    ensures forall k :: r.Spends(Key(k)) <==> r.publicKey == k && HasKeyLimit(r) && r.limits.byKey[k] != 0
    ensures forall p :: r.Spends(Project(p)) <==>
      r.projectId == p && !HasKeyLimit(r) && HasProjectLimit(r) && r.limits.byProject[p] != 0
    ensures r.Spends(Global) <==> !HasKeyLimit(r) && !HasProjectLimit(r) && r.limits.global != 0
    ensures HasKeyLimit(r) ==> r.Limit() == r.limits.byKey[r.publicKey]
    ensures !HasKeyLimit(r) && HasProjectLimit(r) ==> r.Limit() == r.limits.byProject[r.projectId]
    ensures !HasKeyLimit(r) && !HasProjectLimit(r) ==> r.Limit() == r.limits.global
  {
  }

  /** When requests of a kind were admitted. */
  function AdmittedAt(reqs: seq<Request>, answers: seq<bool>, kind: Request -> bool): (log: seq<nat>)
    requires |answers| == |reqs|
  {
    if reqs == [] then []
    else
      var n := |reqs| - 1;
      AdmittedAt(reqs[..n], answers[..n], kind) + if answers[n] && kind(reqs[n]) then [reqs[n].now] else []
  }

  lemma {:induction false} AdmittedAtIsLog(reqs: seq<Request>, answers: seq<bool>, kind: Request -> bool, s: Scope)
    requires |answers| == |reqs| && forall i :: 0 <= i < |reqs| ==> (kind(reqs[i]) <==> reqs[i].Spends(s))
    ensures AdmittedAt(reqs, answers, kind) == Log(reqs, answers, s)
  {
    if reqs != [] {
      var n := |reqs| - 1;
      assert forall i :: 0 <= i < n ==> reqs[..n][i] == reqs[i];
      AdmittedAtIsLog(reqs[..n], answers[..n], kind, s);
    }
  }

  lemma {:induction false} ReferenceOfPrefix(reqs: seq<Request>, i: nat)
    requires i < |reqs|
    ensures Reference(reqs)[..i] == Reference(reqs[..i])
    ensures Reference(reqs)[i] == Decides(reqs[..i], reqs[i])
  {
    hide CountSince, Log;
    var n := |reqs| - 1;
    if i < n {
      ReferenceOfPrefix(reqs[..n], i);
      assert reqs[..n][..i] == reqs[..i];
    }
  }

  /** How many instants lie in the 60 seconds up to `end`. */
  function InMinute(log: seq<nat>, end: int): nat { CountWithin(log, end - 60, end) }

  /**
   Requests of one kind share a budget of `limit`: each is admitted exactly when fewer than
   `limit` of them were admitted in the 60 seconds before it, so no 60 seconds see more.
   */
  ghost predicate Budgeted(reqs: seq<Request>, answers: seq<bool>, kind: Request -> bool, limit: nat) {
    && |answers| == |reqs|
    && (forall i :: 0 <= i < |reqs| && kind(reqs[i]) ==>
         (answers[i] <==> CountSince(AdmittedAt(reqs[..i], answers[..i], kind), reqs[i].now - 60) < limit))
    && (forall end: int :: InMinute(AdmittedAt(reqs, answers, kind), end) <= limit)
  }

  lemma {:induction false} ScopeIsBudgeted(lastEviction: nat, reqs: seq<Request>, kind: Request -> bool, s: Scope, limit: nat)
    requires Ticking(reqs) && !RunPrunes(Start(lastEviction), reqs)
    requires forall i :: 0 <= i < |reqs| ==> (kind(reqs[i]) <==> reqs[i].Spends(s))
    requires forall i :: 0 <= i < |reqs| && kind(reqs[i]) ==> reqs[i].Limit() == limit
    ensures Budgeted(reqs, Run(Start(lastEviction), reqs, true).1, kind, limit)
  {
    hide Run, RunPrunes, Ticking, Reference, Log, CountSince, CountWithin;
    var answers := Reference(reqs);
    MeetsReference(lastEviction, reqs);
    forall i | 0 <= i < |reqs| && kind(reqs[i])
      ensures answers[i] <==> CountSince(AdmittedAt(reqs[..i], answers[..i], kind), reqs[i].now - 60) < limit
    {
      ReferenceOfPrefix(reqs, i);
      assert forall j :: 0 <= j < i ==> reqs[..i][j] == reqs[j];
      AdmittedAtIsLog(reqs[..i], answers[..i], kind, s);
    }
    AdmittedAtIsLog(reqs, answers, kind, s);
    forall end: int
      ensures InMinute(AdmittedAt(reqs, answers, kind), end) <= limit
    {
      ReferenceBound(reqs, s, limit, end);
    }
  }

  /** A key with a limit of its own has it, whatever its project's limit and the global one are. */
  lemma {:induction false} KeyLimitHolds(lastEviction: nat, reqs: seq<Request>, k: string, limit: u32)
    requires Ticking(reqs) && !RunPrunes(Start(lastEviction), reqs) && limit != 0
    requires forall i :: 0 <= i < |reqs| && reqs[i].publicKey == k ==> k in reqs[i].limits.byKey && reqs[i].limits.byKey[k] == limit
    ensures Budgeted(reqs, Run(Start(lastEviction), reqs, true).1, (r: Request) => r.publicKey == k, limit)
  {
    hide Run, RunPrunes, Ticking, Budgeted;
    forall i | 0 <= i < |reqs|
      ensures (reqs[i].publicKey == k <==> reqs[i].Spends(Key(k))) && (reqs[i].publicKey == k ==> reqs[i].Limit() == limit)
    {
      ResolvesByPriority(reqs[i]);
    }
    ScopeIsBudgeted(lastEviction, reqs, (r: Request) => r.publicKey == k, Key(k), limit);
  }

  /** A project's limit holds for the requests of its keys that have none of their own, together. */
  lemma {:induction false} ProjectLimitHolds(lastEviction: nat, reqs: seq<Request>, p: nat, limit: u32)
    requires Ticking(reqs) && !RunPrunes(Start(lastEviction), reqs) && limit != 0
    requires forall i :: 0 <= i < |reqs| && reqs[i].projectId == p ==> p in reqs[i].limits.byProject && reqs[i].limits.byProject[p] == limit
    ensures Budgeted(reqs, Run(Start(lastEviction), reqs, true).1,
                     (r: Request) => r.projectId == p && r.publicKey !in r.limits.byKey, limit)
  {
    hide Run, RunPrunes, Ticking, Budgeted;
    var kind := (r: Request) => r.projectId == p && r.publicKey !in r.limits.byKey;
    forall i | 0 <= i < |reqs|
      ensures (kind(reqs[i]) <==> reqs[i].Spends(Project(p))) && (kind(reqs[i]) ==> reqs[i].Limit() == limit)
    {
      ResolvesByPriority(reqs[i]);
    }
    ScopeIsBudgeted(lastEviction, reqs, kind, Project(p), limit);
  }

  /** The global limit holds for the requests with neither, together. */
  lemma {:induction false} GlobalLimitHolds(lastEviction: nat, reqs: seq<Request>, limit: u32)
    requires Ticking(reqs) && !RunPrunes(Start(lastEviction), reqs) && limit != 0
    requires forall i :: 0 <= i < |reqs| ==> reqs[i].limits.global == limit
    ensures Budgeted(reqs, Run(Start(lastEviction), reqs, true).1,
                     (r: Request) => r.publicKey !in r.limits.byKey && r.projectId !in r.limits.byProject, limit)
  {
    hide Run, RunPrunes, Ticking, Budgeted;
    var kind := (r: Request) => r.publicKey !in r.limits.byKey && r.projectId !in r.limits.byProject;
    forall i | 0 <= i < |reqs|
      ensures (kind(reqs[i]) <==> reqs[i].Spends(Global)) && (kind(reqs[i]) ==> reqs[i].Limit() == limit)
    {
      ResolvesByPriority(reqs[i]);
    }
    ScopeIsBudgeted(lastEviction, reqs, kind, Global, limit);
  }

  /** A limit of 0 is no limit: such a request is admitted, and no window changes. */
  lemma {:induction false} ZeroIsNoLimit(l: Limiter, r: Request, evicting: bool)
    requires if HasKeyLimit(r) then r.limits.byKey[r.publicKey] == 0
             else if HasProjectLimit(r) then r.limits.byProject[r.projectId] == 0
             else r.limits.global == 0
    ensures Check(l, r, evicting) == (l, true)
  {
    ResolvesByPriority(r);
  }

  // ---- The clock must have started ---------------------------------------------------------

  function OnePerMinute(now: nat): Request { Request(Limits(map[], map[], 1), [], 0, now) }

  /** A window created at second 0 and next used at second 1000 still holds the count of second 0. */
  lemma {:induction false} StaleWindow()
    ensures var w := Incremented(WindowAt(map[], Global, 0), 0);
            Total(WindowAt(map[], Global, 0)) == 0 && Total(WindowAt(map[Global := w], Global, 1000)) == 1
  {
    var w0 := Fresh();
    SumOfZeros(w0.counts);
    SumOfUpdate(w0.counts, 0, 1);
    assert WindowAt(map[], Global, 0) == w0;
  }

  lemma {:induction false} RunOfTwo(l: Limiter, a: Request, b: Request)
    ensures var (l', ok) := Check(l, a, true);
            Run(l, [a, b], true).1 == [ok, Check(l', b, true).1]
  {
    assert [a, b][..1] == [a] && [a][..0] == [];
    assert Run(l, [], true) == (l, []);
    assert Run(l, [a], true).1 == [Check(l, a, true).1];
  }

  /**
   A first reading of 0 leaves the window unadvanced, so the count of that second is still
   there a quarter of an hour later.
   */
  lemma {:induction false} ClockZeroRejectsTooMuch(lastEviction: nat)
    ensures var reqs := [OnePerMinute(0), OnePerMinute(1000)];
            && Run(Start(lastEviction), reqs, true).1 == [true, false]
            && Reference(reqs) == [true, true]
            && !RunPrunes(Start(lastEviction), reqs)
  {
    var first, second := OnePerMinute(0), OnePerMinute(1000);
    assert Scopes([first, second]) <= {Global};
    SmallerSet(Scopes([first, second]), {Global});
    FewScopesNeverPrune(lastEviction, [first, second]);
    StaleWindow();
    RunOfTwo(Start(lastEviction), first, second);
    assert [] + [first] == [first] && [first] + [second] == [first, second];
    ReferenceOfAppend([], first, Global);
    ReferenceOfAppend([first], second, Global);
    assert CountSince([0], 940) == 0;
  }

  /** The exact condition on the clock: runs from a first reading agree with the reference iff it is not 0. */
  lemma {:induction false} AgreesIffClockStarted(first: nat, lastEviction: nat)
    ensures
      (forall reqs: seq<Request> :: |reqs| > 0 && reqs[0].now == first && Monotone(reqs) && !RunPrunes(Start(lastEviction), reqs)
         ==> Run(Start(lastEviction), reqs, true).1 == Reference(reqs))
      <==> first >= 1
  {
    if first >= 1 {
      forall reqs: seq<Request> | |reqs| > 0 && reqs[0].now == first && Monotone(reqs)
                                  && !RunPrunes(Start(lastEviction), reqs)
        ensures Run(Start(lastEviction), reqs, true).1 == Reference(reqs)
      {
        MeetsReference(lastEviction, reqs);
      }
    } else {
      ClockZeroRejectsTooMuch(lastEviction);
      var reqs := [OnePerMinute(0), OnePerMinute(1000)];
      assert reqs[0].now == first && Monotone(reqs);
    }
  }

  // ---- With the tighter sweep: at most twice the limit --------------------------------------

  /**
   What remains true of a scope's window when windows may be dropped after only 30 idle
   seconds: the window stands for the part of the log since it was created at `birth`, and
   what it forgot is at least 30 seconds older than `birth` and was within the limit.
   */
  ghost predicate SincePrune(w: Window, log: seq<nat>, limit: nat, split: nat, birth: nat) {
    && split <= |log| && birth <= w.currentSecond
    && Represents(w, log[split..]) && Total(w) <= limit
    && AllAtMost(log[..split], birth - IDLE_PRUNE)
    && CountSince(log[..split], birth - SPAN) <= limit
  }

  ghost predicate PruneTracksScope(l: Limiter, s: Scope, log: seq<nat>, limit: nat, upTo: nat) {
    if s in l.windows then
      l.windows[s].currentSecond <= upTo
      && exists split, birth :: SincePrune(l.windows[s], log, limit, split, birth)
    else AllAtMost(log, upTo - IDLE_PRUNE) && CountSince(log, upTo - SPAN) <= limit
  }

  lemma {:induction false} CountConcat(a: seq<nat>, b: seq<nat>, cutoff: int)
    ensures CountSince(a + b, cutoff) == CountSince(a, cutoff) + CountSince(b, cutoff)
  {
    if b == [] {
      assert a + b == a;
    } else {
      var n := |b| - 1;
      assert (a + b)[..|a| + n] == a + b[..n];
      CountConcat(a, b[..n], cutoff);
    }
  }

  lemma {:induction false} NothingSince(log: seq<nat>, cutoff: int)
    requires AllAtMost(log, cutoff)
    ensures CountSince(log, cutoff) == 0
  {
    if log != [] {
      NothingSince(log[..|log| - 1], cutoff);
    }
  }

  /** Time passing. */
  lemma {:induction false} PruneTracksLater(l: Limiter, s: Scope, log: seq<nat>, limit: nat, upTo: nat, now: nat)
    requires PruneTracksScope(l, s, log, limit, upTo) && upTo <= now
    ensures PruneTracksScope(l, s, log, limit, now)
  {
    CountAntitone(log, upTo - SPAN, now - SPAN);
  }

  /** Dropping a window that idled for 30 seconds. */
  lemma {:induction false} DropWindow(w: Window, log: seq<nat>, limit: nat, split: nat, birth: nat, now: nat)
    requires SincePrune(w, log, limit, split, birth) && w.currentSecond + IDLE_PRUNE <= now
    ensures AllAtMost(log, now - IDLE_PRUNE) && CountSince(log, now - SPAN) <= limit
  {
    var gone, tail := log[..split], log[split..];
    assert log == gone + tail;
    CountConcat(gone, tail, now - SPAN);
    NothingSince(gone, now - SPAN);
    CountIsRecent(w, tail);
    CountAntitone(tail, w.currentSecond - SPAN, now - SPAN);
    forall i | 0 <= i < |log|
      ensures log[i] <= now - IDLE_PRUNE
    {
      if i < split {
        assert log[i] == gone[i];
      } else {
        assert log[i] == tail[i - split];
      }
    }
  }

  lemma {:induction false} EvictPruneTracks(l: Limiter, s: Scope, log: seq<nat>, limit: nat, now: nat)
    requires PruneTracksScope(l, s, log, limit, now)
    ensures PruneTracksScope(EvictStale(l, now), s, log, limit, now)
  {
    var l' := EvictStale(l, now);
    if s in l.windows {
      var split, birth :| SincePrune(l.windows[s], log, limit, split, birth);
      if s !in l'.windows {
        assert l.windows[s].currentSecond + IDLE_PRUNE <= now;
        DropWindow(l.windows[s], log, limit, split, birth, now);
      }
    }
  }

  lemma {:induction false} AdvanceSincePrune(w: Window, log: seq<nat>, limit: nat, split: nat, birth: nat, now: nat)
    requires SincePrune(w, log, limit, split, birth) && w.currentSecond <= now
    ensures SincePrune(Advanced(w, now), log, limit, split, birth) && Advanced(w, now).currentSecond == now
  {
    hide Represents, AllAtMost, CountSince, Advanced;
    AdvanceRepresents(w, log[split..], now);
    CountIsRecent(w, log[split..]);
    CountIsRecent(Advanced(w, now), log[split..]);
    CountAntitone(log[split..], w.currentSecond - SPAN, now - SPAN);
  }

  lemma {:induction false} FreshSincePrune(log: seq<nat>, limit: nat, now: nat)
    requires 1 <= now && AllAtMost(log, now - IDLE_PRUNE) && CountSince(log, now - SPAN) <= limit
    ensures SincePrune(Advanced(Fresh(), now), log, limit, |log|, now) && Advanced(Fresh(), now).currentSecond == now
  {
    assert log[..|log|] == log && log[|log|..] == [];
    FreshRepresents([], now);
    CountIsRecent(Advanced(Fresh(), now), []);
  }

  /** The window a request finds, whether kept or newly created. */
  lemma {:induction false} FoundWindow(l: Limiter, s: Scope, log: seq<nat>, limit: nat, now: nat)
    returns (split: nat, birth: nat)
    requires 1 <= now && PruneTracksScope(l, s, log, limit, now)
    ensures SincePrune(WindowAt(l.windows, s, now), log, limit, split, birth)
    ensures WindowAt(l.windows, s, now).currentSecond == now
  {
    hide SincePrune, AllAtMost, CountSince, Advanced, Fresh;
    if s in l.windows {
      split, birth :| SincePrune(l.windows[s], log, limit, split, birth);
      AdvanceSincePrune(l.windows[s], log, limit, split, birth, now);
    } else {
      split, birth := |log|, now;
      FreshSincePrune(log, limit, now);
    }
  }

  /** Admitting at `now` leaves at most `2 * limit` in the 60 seconds before it. */
  lemma {:induction false} CountAfterPrune(w: Window, log: seq<nat>, limit: nat, split: nat, birth: nat)
    requires SincePrune(w, log, limit, split, birth)
    ensures CountSince(log, w.currentSecond - SPAN) <= limit + Total(w)
  {
    var gone, tail := log[..split], log[split..];
    assert log == gone + tail;
    CountConcat(gone, tail, w.currentSecond - SPAN);
    CountAntitone(gone, birth - SPAN, w.currentSecond - SPAN);
    CountIsRecent(w, tail);
  }

  lemma {:induction false} CountUpIsSincePrune(w: Window, log: seq<nat>, limit: nat, split: nat, birth: nat)
    requires SincePrune(w, log, limit, split, birth) && Total(w) < limit && Total(w) < U32_MAX
    ensures SincePrune(Incremented(w, w.currentSecond), log + [w.currentSecond], limit, split, birth)
  {
    var log' := log + [w.currentSecond];
    IncrementRepresents(w, log[split..]);
    assert log'[split..] == log[split..] + [w.currentSecond] && log'[..split] == log[..split];
  }

  lemma IncrementKeepsSecond(w: Window, now: nat)
    ensures Incremented(w, now).currentSecond == w.currentSecond
  {
  }

  /** One decided request, sweeps included. */
  lemma {:induction false} AdmitPruneTracks(l: Limiter, s: Scope, log: seq<nat>, limit: u32, bound: nat, now: nat)
    requires 1 <= now && limit <= bound && PruneTracksScope(l, s, log, bound, now)
    ensures var (l', ok) := Admit(l, s, limit, now);
            && PruneTracksScope(l', s, log + if ok then [now] else [], bound, now)
            && (ok ==> CountSince(log, now - SPAN) < 2 * bound)
  {
    hide Represents, CountSince, AllAtMost, WindowAt, Incremented;
    var w := WindowAt(l.windows, s, now);
    var split, birth := FoundWindow(l, s, log, bound, now);
    CountAfterPrune(w, log, bound, split, birth);
    assert log + [] == log;
    if Total(w) < limit {
      CountUpIsSincePrune(w, log, bound, split, birth);
      IncrementKeepsSecond(w, now);
    }
  }

  /** One request of any scope, seen from the log of `s`. */
  lemma {:induction false} CheckPruneTracks(l: Limiter, r: Request, s: Scope, log: seq<nat>, bound: nat)
    requires 1 <= r.now && PruneTracksScope(l, s, log, bound, r.now)
    requires r.Spends(s) ==> r.Limit() <= bound
    ensures var (l', ok) := Check(l, r, true);
            var counted := ok && r.Spends(s);
            && PruneTracksScope(l', s, log + if counted then [r.now] else [], bound, r.now)
            && (counted ==> CountSince(log, r.now - SPAN) < 2 * bound)
  {
    hide EvictStale, CountSince, AllAtMost, SincePrune;
    assert log + [] == log;
    if r.Limit() != 0 {
      var (admitted, ok) := Admit(l, r.Scope(), r.Limit(), r.now);
      var log' := log + if ok && r.Spends(s) then [r.now] else [];
      if r.Scope() == s {
        AdmitPruneTracks(l, s, log, r.Limit(), bound, r.now);
      }
      if ok {
        EvictPruneTracks(admitted, s, log', bound, r.now);
      }
    }
  }

  lemma {:induction false} RunOfAppend(l: Limiter, reqs: seq<Request>, r: Request, evicting: bool)
    ensures var (before, answers) := Run(l, reqs, evicting);
            var (after, ok) := Check(before, r, evicting);
            Run(l, reqs + [r], evicting) == (after, answers + [ok])
  {
    hide Check;
    assert (reqs + [r])[..|reqs|] == reqs;
  }

  /** The state of scope `s` after a run, and the bound on every span ending at `end`. */
  ghost predicate WithinTwice(l: Limiter, log: seq<nat>, s: Scope, bound: nat, upTo: nat, end: int) {
    PruneTracksScope(l, s, log, bound, upTo) && CountWithin(log, end - SPAN, end) <= 2 * bound
  }

  lemma {:induction false} StepWithinTwice(l: Limiter, r: Request, s: Scope, log: seq<nat>, bound: nat, upTo: nat, end: int)
    requires 1 <= r.now && upTo <= r.now && WithinTwice(l, log, s, bound, upTo, end)
    requires r.Spends(s) ==> r.Limit() <= bound
    ensures var (l', ok) := Check(l, r, true);
            WithinTwice(l', log + if ok && r.Spends(s) then [r.now] else [], s, bound, r.now, end)
  {
    hide Check, PruneTracksScope, CountSince, CountWithin;
    PruneTracksLater(l, s, log, bound, upTo, r.now);
    CheckPruneTracks(l, r, s, log, bound);
    var (l', ok) := Check(l, r, true);
    if ok && r.Spends(s) {
      AppendBound(log, r.now, 2 * bound, end);
    } else {
      assert log + [] == log;
    }
  }

  lemma {:induction false} RunWithinTwice(lastEviction: nat, reqs: seq<Request>, s: Scope, bound: nat, end: int)
    requires Ticking(reqs) && LimitedBy(reqs, s, bound)
    ensures var (l, answers) := Run(Start(lastEviction), reqs, true);
            WithinTwice(l, Log(reqs, answers, s), s, bound, LastTime(reqs), end)
  {
    if reqs != [] {
      hide Run, Check, Log, WithinTwice;
      var n := |reqs| - 1;
      var init, r := reqs[..n], reqs[n];
      assert reqs == init + [r];
      RunWithinTwice(lastEviction, init, s, bound, end);
      var (before, answers) := Run(Start(lastEviction), init, true);
      StepWithinTwice(before, r, s, Log(init, answers, s), bound, LastTime(init), end);
      RunOfAppend(Start(lastEviction), init, r, true);
      LogOfAppend(init, answers, r, Check(before, r, true).1, s);
    }
  }

  /**
   Even when the tighter sweep runs, and however often: no scope admits more than twice its
   limit in any 60 seconds. The sweep forgets counts that are still recent, but only those of
   a window that idled for half a minute, so two generations of a window fit in one span.
   */
  lemma {:induction false} NeverOverTwiceLimit(lastEviction: nat, reqs: seq<Request>, s: Scope, limit: nat, end: int)
    requires Ticking(reqs) && LimitedBy(reqs, s, limit)
    ensures CountWithin(Log(reqs, Run(Start(lastEviction), reqs, true).1, s), end - SPAN, end) <= 2 * limit
  {
    RunWithinTwice(lastEviction, reqs, s, limit, end);
  }

  // ---- The tighter sweep: when it can matter -------------------------------------------------

  /** A request of scope `s` whose limit is 1. */
  function OneFor(s: Scope, now: nat): (r: Request)
    ensures r.Resolve() == (1, s) && r.now == now
  {
    match s
    case Key(k) => Request(Limits(map[k := 1], map[], 1), k, 0, now)
    case Project(p) => Request(Limits(map[], map[p := 1], 1), "", p, now)
    case Global => Request(Limits(map[], map[], 1), "", 0, now)
  }

  /** A window that counted one request of an otherwise unused scope at `now`. */
  lemma {:induction false} FirstOfScope(l: Limiter, s: Scope, now: nat)
    requires 1 <= now && s !in l.windows
    ensures var (l', ok) := Admit(l, s, 1, now);
            && ok && l' == l.(windows := l.windows[s := l'.windows[s]])
            && l'.windows[s].currentSecond == now
  {
    FreshRepresents([], now);
    CountIsRecent(Advanced(Fresh(), now), []);
    IncrementKeepsSecond(Advanced(Fresh(), now), now);
  }

  /** The run so far: every request admitted, one window a scope, `first` seen once at `begin`. */
  ghost predicate Filling(reqs: seq<Request>, lastEviction: nat, scopes: set<Scope>, first: Scope, begin: nat, upTo: nat) {
    var (l, answers) := Run(Start(lastEviction), reqs, true);
    && Ticking(reqs) && Scopes(reqs) <= scopes && begin <= upTo
    && (forall i :: 0 <= i < |reqs| ==> reqs[i].now <= upTo && reqs[i].Limit() == 1)
    && l.lastEviction == lastEviction && l.windows.Keys == scopes
    && (forall s :: s in scopes ==> begin <= l.windows[s].currentSecond <= upTo)
    && first in scopes && l.windows[first].currentSecond == begin
    && Log(reqs, answers, first) == [begin]
  }

  lemma {:induction false} FillBegins(lastEviction: nat, first: Scope)
    ensures Filling([OneFor(first, lastEviction + IDLE_PRUNE)], lastEviction, {first}, first,
                    lastEviction + IDLE_PRUNE, lastEviction + IDLE_PRUNE)
  {
    hide Run, Log, Admit;
    var begin := lastEviction + IDLE_PRUNE;
    var r := OneFor(first, begin);
    FirstOfScope(Start(lastEviction), first, begin);
    NothingRun(Start(lastEviction), first);
    assert [] + [r] == [r] && [] + [true] == [true] && [] + [begin] == [begin];
    RunOfAppend(Start(lastEviction), [], r, true);
    LogOfAppend([], [], r, true, first);
  }

  lemma NothingRun(l: Limiter, s: Scope)
    ensures Run(l, [], true) == (l, []) && Log([], [], s) == []
  {
  }

  /** A new scope's request, before the next eviction is due. */
  lemma {:induction false} FillOne(reqs: seq<Request>, lastEviction: nat, scopes: set<Scope>, first: Scope, begin: nat, upTo: nat, s: Scope, now: nat)
    requires Filling(reqs, lastEviction, scopes, first, begin, upTo) && s !in scopes
    requires 1 <= upTo <= now < lastEviction + EVICT_EVERY
    ensures Filling(reqs + [OneFor(s, now)], lastEviction, scopes + {s}, first, begin, now)
  {
    hide Run, Log, Advanced, Fresh, Incremented, Total;
    var r := OneFor(s, now);
    var (l, answers) := Run(Start(lastEviction), reqs, true);
    FirstOfScope(l, s, now);
    RunOfAppend(Start(lastEviction), reqs, r, true);
    LogOfAppend(reqs, answers, r, true, first);
    TickingAppend(reqs, r);
    assert Log(reqs, answers, first) + [] == [begin];
  }

  /** One request of every scope of a finite set. */
  lemma {:induction false} FillAll(lastEviction: nat, first: Scope, others: set<Scope>) returns (reqs: seq<Request>)
    requires first !in others
    ensures Filling(reqs, lastEviction, {first} + others, first, lastEviction + IDLE_PRUNE, lastEviction + EVICT_EVERY - 1)
    decreases |others|
  {
    hide Filling;
    var begin, now := lastEviction + IDLE_PRUNE, lastEviction + EVICT_EVERY - 1;
    if others == {} {
      reqs := [OneFor(first, begin)];
      FillBegins(lastEviction, first);
      FillingLater(reqs, lastEviction, {first}, first, begin, begin, now);
      assert {first} + others == {first};
    } else {
      var s :| s in others;
      reqs := FillAll(lastEviction, first, others - {s});
      FillOne(reqs, lastEviction, {first} + (others - {s}), first, begin, now, s, now);
      assert {first} + (others - {s}) + {s} == {first} + others;
      reqs := reqs + [OneFor(s, now)];
    }
  }

  lemma FillingLater(reqs: seq<Request>, lastEviction: nat, scopes: set<Scope>, first: Scope, begin: nat, upTo: nat, now: nat)
    requires Filling(reqs, lastEviction, scopes, first, begin, upTo) && upTo <= now
    ensures Filling(reqs, lastEviction, scopes, first, begin, now)
  {
  }

  /** One more new scope at the very second eviction is due: too many windows survive, and the first is dropped. */
  lemma {:induction false} SweepDropsFirst(reqs: seq<Request>, lastEviction: nat, scopes: set<Scope>, first: Scope, s: Scope)
    requires Filling(reqs, lastEviction, scopes, first, lastEviction + IDLE_PRUNE, lastEviction + EVICT_EVERY - 1)
    requires s !in scopes && |scopes| >= MAX_WINDOWS
    ensures var now := lastEviction + EVICT_EVERY;
            var (l, answers) := Run(Start(lastEviction), reqs + [OneFor(s, now)], true);
            first !in l.windows && Log(reqs + [OneFor(s, now)], answers, first) == [lastEviction + IDLE_PRUNE]
  {
    hide Run, Log, Advanced, Fresh, Incremented, Total, Ticking;
    var now := lastEviction + EVICT_EVERY;
    var r := OneFor(s, now);
    var (l, answers) := Run(Start(lastEviction), reqs, true);
    FirstOfScope(l, s, now);
    var admitted := Admit(l, s, 1, now).0;
    var kept := Retain(admitted.windows, now, IDLE_EVICT);
    assert kept.Keys == scopes + {s};
    assert |kept| == |kept.Keys|;
    RunOfAppend(Start(lastEviction), reqs, r, true);
    LogOfAppend(reqs, answers, r, true, first);
    assert Log(reqs, answers, first) + [] == [lastEviction + IDLE_PRUNE];
  }

  /**
   The tighter sweep forgets counts that are still recent: over any set of more than 100 000
   scopes there is a run in which a scope with limit 1 is admitted twice within 60 seconds. So
   the factor 2 is attained.
   */
  lemma {:induction false} SweepForgetsRecentCounts(lastEviction: nat, scopes: set<Scope>) returns (reqs: seq<Request>, s: Scope)
    requires |scopes| > MAX_WINDOWS
    ensures Ticking(reqs) && Scopes(reqs) <= scopes && LimitedBy(reqs, s, 1)
    ensures var end := lastEviction + EVICT_EVERY;
            CountWithin(Log(reqs, Run(Start(lastEviction), reqs, true).1, s), end - SPAN, end) == 2
    ensures Run(Start(lastEviction), reqs, true).1 != Reference(reqs)
  {
    hide Run, Log, Filling, Reference, CountWithin, Ticking;
    s :| s in scopes;
    assert |scopes - {s}| == |scopes| - 1;
    var last :| last in scopes - {s};
    var others := scopes - {s} - {last};
    assert |others| == |scopes| - 2 && |{s} + others| == |scopes| - 1;
    var fill := FillAll(lastEviction, s, others);
    var now := lastEviction + EVICT_EVERY;
    reqs := fill + [OneFor(last, now)] + [OneFor(s, now)];
    AdmittedAgain(fill, lastEviction, {s} + others, s, last);
    WellSent(fill, lastEviction, {s} + others, s, OneFor(last, now), OneFor(s, now));
    assert {s} + others + {last} == scopes;
    ReferenceBound(reqs, s, 1, now);
  }

  /** The dropped scope's next request is admitted: two admissions half a minute apart. */
  lemma {:induction false} AdmittedAgain(fill: seq<Request>, lastEviction: nat, scopes: set<Scope>, s: Scope, last: Scope)
    requires Filling(fill, lastEviction, scopes, s, lastEviction + IDLE_PRUNE, lastEviction + EVICT_EVERY - 1)
    requires last !in scopes && |scopes| >= MAX_WINDOWS
    ensures var now := lastEviction + EVICT_EVERY;
            var reqs := fill + [OneFor(last, now)] + [OneFor(s, now)];
            CountWithin(Log(reqs, Run(Start(lastEviction), reqs, true).1, s), now - SPAN, now) == 2
  {
    hide Run, Log, Filling, Admit, EvictStale, CountWithin;
    var begin, now := lastEviction + IDLE_PRUNE, lastEviction + EVICT_EVERY;
    var before, again := fill + [OneFor(last, now)], OneFor(s, now);
    SweepDropsFirst(fill, lastEviction, scopes, s, last);
    var (l, answers) := Run(Start(lastEviction), before, true);
    FirstOfScope(l, s, now);
    RunOfAppend(Start(lastEviction), before, again, true);
    LogOfAppend(before, answers, again, true, s);
    assert Log(before + [again], answers + [true], s) == [begin] + [now];
    HalfAMinuteApart(begin, now);
  }

  lemma HalfAMinuteApart(begin: nat, now: nat)
    requires now - SPAN < begin <= now
    ensures CountWithin([begin] + [now], now - SPAN, now) == 2
  {
    assert [] + [begin] == [begin];
    CountAppend([], begin, now - SPAN, now);
    CountAppend([begin], now, now - SPAN, now);
  }

  lemma {:induction false} WellSent(fill: seq<Request>, lastEviction: nat, scopes: set<Scope>, s: Scope, a: Request, b: Request)
    requires Filling(fill, lastEviction, scopes, s, lastEviction + IDLE_PRUNE, lastEviction + EVICT_EVERY - 1)
    requires a.now == b.now == lastEviction + EVICT_EVERY && a.Limit() == b.Limit() == 1
    ensures var reqs := fill + [a] + [b];
            Ticking(reqs) && Scopes(reqs) <= scopes + {a.Scope(), b.Scope()} && LimitedBy(reqs, s, 1)
  {
    hide Run, Log;
    TickingAppend(fill, a);
    TickingAppend(fill + [a], b);
  }

  lemma {:induction false} ManyScopes(n: nat) returns (scopes: set<Scope>)
    ensures |scopes| == n && forall p: nat :: p >= n ==> Project(p) !in scopes
  {
    if n == 0 {
      scopes := {};
    } else {
      scopes := ManyScopes(n - 1);
      scopes := scopes + {Project(n - 1)};
    }
  }

  /** Whenever the eviction throttle starts, some run admits a scope with limit 1 twice within 60 seconds. */
  lemma {:induction false} TwiceTheLimitIsAttained(lastEviction: nat) returns (reqs: seq<Request>, s: Scope)
    ensures Ticking(reqs) && LimitedBy(reqs, s, 1)
    ensures var end := lastEviction + EVICT_EVERY;
            CountWithin(Log(reqs, Run(Start(lastEviction), reqs, true).1, s), end - SPAN, end) == 2
  {
    var scopes := ManyScopes(MAX_WINDOWS + 1);
    reqs, s := SweepForgetsRecentCounts(lastEviction, scopes);
  }

  /**
   The exact condition on the scopes: all runs over a finite set of scopes get the reference
   answers if and only if the set has at most 100 000 members.
   */
  lemma {:induction false} ExactIffFewScopes(lastEviction: nat, scopes: set<Scope>)
    ensures (forall reqs: seq<Request> :: Ticking(reqs) && Scopes(reqs) <= scopes
               ==> Run(Start(lastEviction), reqs, true).1 == Reference(reqs))
            <==> |scopes| <= MAX_WINDOWS
  {
    if |scopes| <= MAX_WINDOWS {
      forall reqs: seq<Request> | Ticking(reqs) && Scopes(reqs) <= scopes
        ensures Run(Start(lastEviction), reqs, true).1 == Reference(reqs)
      {
        SmallerSet(Scopes(reqs), scopes);
        FewScopesNeverPrune(lastEviction, reqs);
        MeetsReference(lastEviction, reqs);
      }
    } else {
      var reqs, s := SweepForgetsRecentCounts(lastEviction, scopes);
    }
  }

  // ---- The u32 sum never overflows ---------------------------------------------------------

  lemma {:induction false} SumMonotone(a: seq<nat>, b: seq<nat>)
    requires |a| == |b| && forall i :: 0 <= i < |a| ==> a[i] <= b[i]
    ensures Sum(a) <= Sum(b)
  {
    if a != [] {
      SumMonotone(a[..|a| - 1], b[..|b| - 1]);
    }
  }

  ghost predicate Fits(l: Limiter) {
    forall s :: s in l.windows ==> Total(l.windows[s]) <= U32_MAX
  }

  lemma {:induction false} AdvanceFits(w: Window, now: nat)
    ensures Total(Advanced(w, now)) <= Total(w)
  {
    SumMonotone(Advanced(w, now).counts, w.counts);
  }

  lemma {:induction false} IncrementFits(w: Window, now: nat)
    ensures Total(Incremented(w, now)) <= Total(w) + 1
  {
    var idx := now % SPAN;
    SumOfUpdate(w.counts, idx, SaturatingInc(w.counts[idx]));
  }

  lemma {:induction false} CheckFits(l: Limiter, r: Request, evicting: bool)
    requires Fits(l)
    ensures Fits(Check(l, r, evicting).0)
  {
    if r.Limit() != 0 {
      var s := r.Scope();
      SumOfZeros(Fresh().counts);
      AdvanceFits(if s in l.windows then l.windows[s] else Fresh(), r.now);
      IncrementFits(WindowAt(l.windows, s, r.now), r.now);
    }
  }

  /**
   Whatever the clock does and whatever limits are reloaded, the sum over the 60 buckets stays
   within a `u32`, so the source's unchecked addition never overflows.
   */
  lemma {:induction false} CountNeverOverflows(lastEviction: nat, reqs: seq<Request>, evicting: bool)
    ensures Fits(Run(Start(lastEviction), reqs, evicting).0)
  {
    if reqs != [] {
      var n := |reqs| - 1;
      CountNeverOverflows(lastEviction, reqs[..n], evicting);
      CheckFits(Run(Start(lastEviction), reqs[..n], evicting).0, reqs[n], evicting);
    }
  }
}
