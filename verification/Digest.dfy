/**
 Digest cycles (`src/background.rs`, `src/queries/alerts.rs`): every due schedule reports the
 activity since it last sent, then moves its `last_sent` forward. `Step` is one schedule in one
 cycle; the class is the loop over the stored schedules.
 */
module Digests {
  import opened Options

  datatype Schedule = Schedule(id: int, orgId: int, projectId: Option<nat>, interval: int, lastSent: int, enabled: bool)

  /** A queued notification: one project, one window `[periodStart, periodEnd)`, the instants it tells of. */
  datatype QueuedDigest = QueuedDigest(scheduleId: int, projectId: nat, periodStart: int, periodEnd: int, instants: set<int>)

  /** Stored activity: which project has an event or a new issue at which instant. */
  type Activity = set<(nat, int)>

  /** The activity of one project in a window. */
  function Instants(activity: Activity, project: nat, from: int, to: int): set<int> {
    set a | a in activity && a.0 == project && from <= a.1 < to :: a.1
  }

  predicate Active(activity: Activity, project: nat, from: int, to: int) {
    Instants(activity, project, from, to) != {}
  }

  /**
   One cycle as one schedule meets it. `activity` is what is stored by then; `projects` are the projects the digest query sees: the
   schedule's own project if it belongs to the organisation, or the organisation's active
   projects. `hasRoom` says for which project the notification channel takes the event.
   */
  datatype Cycle = Cycle(now: int, activity: Activity, listed: bool, built: bool, projects: seq<nat>, hasRoom: nat -> bool, updated: bool)

  predicate Due(s: Schedule, c: Cycle) { c.listed && s.enabled && s.lastSent + s.interval <= c.now }

  /** `build_digest_data`: the projects with activity in the window. */
  function WithActivity(projects: seq<nat>, activity: Activity, from: int, to: int): (r: seq<nat>)
    ensures forall i :: 0 <= i < |r| ==> r[i] in projects && Active(activity, r[i], from, to)
  {
    if projects == [] then []
    else (if Active(activity, projects[0], from, to) then [projects[0]] else []) + WithActivity(projects[1..], activity, from, to)
  }

  /** The event of one project, over the window since the schedule last sent. */
  function DigestOf(s: Schedule, project: nat, c: Cycle): QueuedDigest {
    QueuedDigest(s.id, project, s.lastSent, c.now, Instants(c.activity, project, s.lastSent, c.now))
  }

  /** The events the channel took, one per project. */
  function Sent(s: Schedule, projects: seq<nat>, c: Cycle): (r: seq<QueuedDigest>)
    ensures forall i :: 0 <= i < |r| ==>
      r[i].scheduleId == s.id && r[i].periodStart == s.lastSent && r[i].periodEnd == c.now
    ensures forall i :: 0 <= i < |r| ==> r[i].projectId in projects && c.hasRoom(r[i].projectId)
  {
    if projects == [] then []
    else
      (if c.hasRoom(projects[0]) then [DigestOf(s, projects[0], c)] else [])
      + Sent(s, projects[1..], c)
  }

  /** One schedule in one cycle. */
  function Step(s: Schedule, c: Cycle): (Schedule, seq<QueuedDigest>) {
    if !Due(s, c) || !c.built then (s, [])
    else
      var projects := WithActivity(c.projects, c.activity, s.lastSent, c.now);
      var sent := Sent(s, projects, c);
      var advances := c.updated && (projects == [] || sent != []);
      (if advances then s.(lastSent := c.now) else s, sent)
  }

  // ---- The loop over the schedules ---------------------------------------------------------

  /** What a cycle reads besides the schedules. */
  datatype World = World(activity: Activity, now: int, listed: bool, failing: set<int>,
                         projects: Schedule -> seq<nat>, hasRoom: int -> nat -> bool, stuck: set<int>)

  function CycleFor(s: Schedule, w: World): Cycle {
    Cycle(w.now, w.activity, w.listed, s.id !in w.failing, w.projects(s), w.hasRoom(s.id), s.id !in w.stuck)
  }

  /** All schedules in one cycle, in table order. */
  function StepAll(schedules: seq<Schedule>, w: World): (r: (seq<Schedule>, seq<QueuedDigest>))
    ensures |r.0| == |schedules|
  {
    if schedules == [] then ([], [])
    else
      var n := |schedules| - 1;
      var (before, queued) := StepAll(schedules[..n], w);
      var (s, sent) := Step(schedules[n], CycleFor(schedules[n], w));
      (before + [s], queued + sent)
  }

  lemma StepAllNone(w: World)
    ensures StepAll([], w) == ([], [])
  {
  }

  lemma StepAllNext(schedules: seq<Schedule>, n: nat, w: World)
    requires n < |schedules|
    ensures var (before, queued) := StepAll(schedules[..n], w);
            var (s, sent) := Step(schedules[n], CycleFor(schedules[n], w));
            StepAll(schedules[..n + 1], w) == (before + [s], queued + sent)
  {
    hide Step;
    assert schedules[..n + 1][..n] == schedules[..n];
  }

  class DigestTask {
    var schedules: seq<Schedule>
    var queue: seq<QueuedDigest>

    constructor (schedules: seq<Schedule>)
      ensures this.schedules == schedules && queue == []
    {
      this.schedules, queue := schedules, [];
    }

    method RunDigestCycle(w: World)
      modifies this
      ensures schedules == StepAll(old(schedules), w).0
      ensures queue == old(queue) + StepAll(old(schedules), w).1
    {
      hide Step, StepAll;
      ghost var start, queued := schedules, queue;
      assert start[..0] == [];
      StepAllNone(w);
      for n := 0 to |schedules|
        invariant |schedules| == |start|
        invariant schedules == StepAll(start[..n], w).0 + start[n..]
        invariant queue == queued + StepAll(start[..n], w).1
      {
        var schedule := schedules[n];
        assert schedule == start[n];
        StepAllNext(start, n, w);
        var lastSent := Report(schedule, CycleFor(schedule, w));
        schedules := schedules[n := schedule.(lastSent := lastSent)];
      }
      assert start[..|start|] == start;
    }

    /** One schedule of the loop: build the data, queue an event per project, decide `last_sent`. */
    method Report(schedule: Schedule, c: Cycle) returns (lastSent: int)
      modifies this`queue
      ensures schedule.(lastSent := lastSent) == Step(schedule, c).0
      ensures queue == old(queue) + Step(schedule, c).1
    {
      lastSent := schedule.lastSent;
      if !Due(schedule, c) || !c.built {
        return;
      }
      var projects := WithActivity(c.projects, c.activity, schedule.lastSent, c.now);
      if projects == [] {
        lastSent := if c.updated then c.now else schedule.lastSent;
        return;
      }
      var anySent := QueueEach(schedule, projects, c);
      if anySent && c.updated {
        lastSent := c.now;
      }
    }

    /** Offer one event per project to the channel. */
    method QueueEach(schedule: Schedule, projects: seq<nat>, c: Cycle) returns (anySent: bool)
      modifies this`queue
      ensures queue == old(queue) + Sent(schedule, projects, c)
      ensures anySent <==> Sent(schedule, projects, c) != []
    {
      hide Sent;
      ghost var start := queue;
      anySent := false;
      assert projects[..0] == [];
      SentNone(schedule, c);
      for n := 0 to |projects|
        invariant queue == start + Sent(schedule, projects[..n], c)
        invariant anySent <==> Sent(schedule, projects[..n], c) != []
      {
        SentNext(schedule, projects, n, c);
        if c.hasRoom(projects[n]) {
          queue := queue + [DigestOf(schedule, projects[n], c)];
          anySent := true;
        }
      }
      assert projects[..|projects|] == projects;
    }
  }

  lemma SentNone(s: Schedule, c: Cycle)
    ensures Sent(s, [], c) == []
  {
  }

  lemma {:induction false} SentNext(s: Schedule, projects: seq<nat>, n: nat, c: Cycle)
    requires n < |projects|
    ensures Sent(s, projects[..n + 1], c)
            == Sent(s, projects[..n], c)
               + if c.hasRoom(projects[n]) then [DigestOf(s, projects[n], c)] else []
  {
    if n == 0 {
      assert projects[..1][1..] == [];
    } else {
      SentNext(s, projects[1..], n - 1, c);
      assert projects[..n + 1][1..] == projects[1..][..n] && projects[..n][1..] == projects[1..][..n - 1];
    }
  }

  /** The digests of one schedule. */
  function OfSchedule(log: seq<QueuedDigest>, id: int): seq<QueuedDigest> {
    if log == [] then []
    else
      var n := |log| - 1;
      OfSchedule(log[..n], id) + if log[n].scheduleId == id then [log[n]] else []
  }

  lemma {:induction false} OfScheduleConcat(a: seq<QueuedDigest>, b: seq<QueuedDigest>, id: int)
    ensures OfSchedule(a + b, id) == OfSchedule(a, id) + OfSchedule(b, id)
  {
    if b == [] {
      assert a + b == a;
    } else {
      var n := |b| - 1;
      assert (a + b)[..|a| + n] == a + b[..n];
      OfScheduleConcat(a, b[..n], id);
    }
  }

  lemma {:induction false} OfOneSchedule(log: seq<QueuedDigest>, id: int, other: int)
    requires forall i :: 0 <= i < |log| ==> log[i].scheduleId == other
    ensures OfSchedule(log, id) == if id == other then log else []
  {
    if log != [] {
      OfOneSchedule(log[..|log| - 1], id, other);
    }
  }

  ghost predicate DistinctIds(schedules: seq<Schedule>) {
    forall i, j :: 0 <= i < j < |schedules| ==> schedules[i].id != schedules[j].id
  }

  /**
   In the loop every schedule takes its own step: what the others queue reaches it only through
   the room they leave in the channel, which `hasRoom` says per schedule.
   */
  lemma {:induction false} SchedulesAreIndependent(schedules: seq<Schedule>, w: World, i: nat)
    requires DistinctIds(schedules) && i < |schedules|
    ensures var (after, queued) := StepAll(schedules, w);
            var (s, sent) := Step(schedules[i], CycleFor(schedules[i], w));
            after[i] == s && OfSchedule(queued, schedules[i].id) == sent
  {
    hide Step;
    var n := |schedules| - 1;
    var (before, queued) := StepAll(schedules[..n], w);
    var (s, sent) := Step(schedules[n], CycleFor(schedules[n], w));
    StepIsOwn(schedules[n], CycleFor(schedules[n], w));
    OfScheduleConcat(queued, sent, schedules[i].id);
    OfOneSchedule(sent, schedules[i].id, schedules[n].id);
    if i < n {
      SchedulesAreIndependent(schedules[..n], w, i);
    } else {
      OthersQueueNothing(schedules[..n], w, schedules[n].id);
    }
  }

  lemma StepIsOwn(s: Schedule, c: Cycle)
    ensures var (s', sent) := Step(s, c);
            s'.id == s.id && forall k :: 0 <= k < |sent| ==> sent[k].scheduleId == s.id
  {
  }

  lemma {:induction false} OthersQueueNothing(schedules: seq<Schedule>, w: World, id: int)
    requires forall j :: 0 <= j < |schedules| ==> schedules[j].id != id
    ensures OfSchedule(StepAll(schedules, w).1, id) == []
  {
    if schedules != [] {
      hide Step;
      var n := |schedules| - 1;
      OthersQueueNothing(schedules[..n], w, id);
      var sent := Step(schedules[n], CycleFor(schedules[n], w)).1;
      StepIsOwn(schedules[n], CycleFor(schedules[n], w));
      OfScheduleConcat(StepAll(schedules[..n], w).1, sent, id);
      OfOneSchedule(sent, id, schedules[n].id);
    }
  }

  // ---- One schedule over many cycles -------------------------------------------------------

  function Run(s: Schedule, cycles: seq<Cycle>): (Schedule, seq<QueuedDigest>) {
    if cycles == [] then (s, [])
    else
      var n := |cycles| - 1;
      var (before, queued) := Run(s, cycles[..n]);
      var (after, sent) := Step(before, cycles[n]);
      (after, queued + sent)
  }

  /** How many digests of `log` tell project `p` about instant `t`. */
  function TimesReported(log: seq<QueuedDigest>, p: nat, t: int): nat {
    if log == [] then 0
    else
      var d := log[|log| - 1];
      TimesReported(log[..|log| - 1], p, t) + if d.projectId == p && t in d.instants then 1 else 0
  }

  lemma {:induction false} ReportedConcat(a: seq<QueuedDigest>, b: seq<QueuedDigest>, p: nat, t: int)
    ensures TimesReported(a + b, p, t) == TimesReported(a, p, t) + TimesReported(b, p, t)
  {
    if b == [] {
      assert a + b == a;
    } else {
      var n := |b| - 1;
      assert (a + b)[..|a| + n] == a + b[..n];
      ReportedConcat(a, b[..n], p, t);
    }
  }

  lemma NothingReported(p: nat, t: int)
    ensures TimesReported([], p, t) == 0
  {
  }

  /** Digest windows never end before they start: the clock has not fallen behind `last_sent`. */
  ghost predicate Forward(s: Schedule, cycles: seq<Cycle>) {
    cycles == [] ||
    (var n := |cycles| - 1;
     Forward(s, cycles[..n])
     && (Due(Run(s, cycles[..n]).0, cycles[n]) ==> Run(s, cycles[..n]).0.lastSent <= cycles[n].now))
  }

  /** `last_sent` was stored whenever the cycle asked for it. */
  ghost predicate UpdatesSucceed(cycles: seq<Cycle>) {
    forall i :: 0 <= i < |cycles| ==> cycles[i].updated
  }

  ghost predicate Distinct(projects: seq<nat>) {
    forall j, k :: 0 <= j < k < |projects| ==> projects[j] != projects[k]
  }

  /** No project is listed twice. */
  ghost predicate ProjectsDistinct(cycles: seq<Cycle>) {
    forall i :: 0 <= i < |cycles| ==> Distinct(cycles[i].projects)
  }

  /** A non-negative interval makes windows run forward, whatever the clock does. */
  lemma {:induction false} IntervalsRunForward(s: Schedule, cycles: seq<Cycle>)
    requires s.interval >= 0
    ensures Forward(s, cycles) && Run(s, cycles).0.interval == s.interval
  {
    if cycles != [] {
      IntervalsRunForward(s, cycles[..|cycles| - 1]);
    }
  }

  /** So does a clock that never runs backwards. */
  lemma {:induction false} ClocksRunForward(s: Schedule, cycles: seq<Cycle>, upTo: int)
    requires forall i, j :: 0 <= i < j < |cycles| ==> cycles[i].now <= cycles[j].now
    requires forall i :: 0 <= i < |cycles| ==> s.lastSent <= cycles[i].now <= upTo
    requires s.lastSent <= upTo
    ensures Forward(s, cycles) && Run(s, cycles).0.lastSent <= upTo
  {
    if cycles != [] {
      var n := |cycles| - 1;
      ClocksRunForward(s, cycles[..n], cycles[n].now);
    }
  }

  // ---- What one step tells -----------------------------------------------------------------

  lemma {:induction false} SentReports(s: Schedule, projects: seq<nat>, c: Cycle, p: nat, t: int)
    requires Distinct(projects)
    ensures TimesReported(Sent(s, projects, c), p, t)
            == if p in projects && c.hasRoom(p) && s.lastSent <= t < c.now && (p, t) in c.activity then 1 else 0
  {
    if projects != [] {
      var rest := projects[1..];
      SentReports(s, rest, c, p, t);
      var head := if c.hasRoom(projects[0]) then [DigestOf(s, projects[0], c)] else [];
      ReportedConcat(head, Sent(s, rest, c), p, t);
      assert p in projects <==> p == projects[0] || p in rest;
      assert projects[0] !in rest;
      assert head != [] ==> head[..|head| - 1] == [];
    }
  }

  lemma {:induction false} WithActivityExact(projects: seq<nat>, activity: Activity, from: int, to: int, p: nat)
    requires Distinct(projects)
    ensures var r := WithActivity(projects, activity, from, to);
            Distinct(r) && (p in r <==> p in projects && Active(activity, p, from, to))
  {
    if projects != [] {
      hide Active;
      WithActivityExact(projects[1..], activity, from, to, p);
      var rest := WithActivity(projects[1..], activity, from, to);
      forall k | 0 <= k < |rest|
        ensures rest[k] != projects[0]
      {
        var i :| 0 <= i < |projects[1..]| && projects[1..][i] == rest[k];
        assert projects[i + 1] == rest[k];
      }
      assert p in projects <==> p == projects[0] || p in projects[1..];
    }
  }

  /** The channel takes a digest that tells project `p` about instant `t`. */
  ghost predicate Tells(s: Schedule, c: Cycle, p: nat, t: int) {
    && Due(s, c) && c.built && s.lastSent <= t < c.now
    && (p, t) in c.activity && p in c.projects && c.hasRoom(p)
  }

  /** One step tells project `p` about instant `t` once or not at all. */
  lemma {:induction false} StepReports(s: Schedule, c: Cycle, p: nat, t: int)
    requires Distinct(c.projects) && (Due(s, c) ==> s.lastSent <= c.now)
    ensures var (s', sent) := Step(s, c);
            && s.lastSent <= s'.lastSent && s' == s.(lastSent := s'.lastSent)
            && TimesReported(sent, p, t) == (if Tells(s, c, p, t) then 1 else 0)
            && (Tells(s, c, p, t) && c.updated ==> s'.lastSent == c.now)
            && (s'.lastSent != s.lastSent ==> Due(s, c) && c.built && c.updated && s'.lastSent == c.now)
  {
    hide Active, Distinct;
    NothingReported(p, t);
    if Due(s, c) && c.built {
      var projects := WithActivity(c.projects, c.activity, s.lastSent, c.now);
      WithActivityExact(c.projects, c.activity, s.lastSent, c.now, p);
      SentReports(s, projects, c, p, t);
      if (p, t) in c.activity && s.lastSent <= t < c.now {
        SeenIsActive(c.activity, p, s.lastSent, c.now, t);
      }
    }
  }

  lemma SeenIsActive(activity: Activity, p: nat, from: int, to: int, t: int)
    requires (p, t) in activity && from <= t < to
    ensures Active(activity, p, from, to)
  {
    assert t in Instants(activity, p, from, to);
  }

  /** A step of a project's own schedule moves past its activity only by sending. */
  lemma {:induction false} OwnStepSends(s: Schedule, c: Cycle, p: nat, t: int)
    requires c.projects == [p] && (p, t) in c.activity
    requires s.lastSent <= t < Step(s, c).0.lastSent
    ensures c.hasRoom(p)
  {
    SeenIsActive(c.activity, p, s.lastSent, c.now, t);
    assert WithActivity([p], c.activity, s.lastSent, c.now) == [p] + WithActivity([], c.activity, s.lastSent, c.now);
    assert !c.hasRoom(p) ==> Sent(s, [p], c) == [] + Sent(s, [], c);
  }

  // ---- How often an instant is reported ----------------------------------------------------

  /** Cycle `k` moves `last_sent` past `t`. */
  ghost predicate Passes(s: Schedule, cycles: seq<Cycle>, k: nat, t: int)
    requires k < |cycles|
  {
    Run(s, cycles[..k]).0.lastSent <= t < Run(s, cycles[..k + 1]).0.lastSent
  }

  /** The cycle that passed `t` knew of it, asked for the project, and found room in the channel. */
  ghost predicate ToldInPassing(s: Schedule, cycles: seq<Cycle>, p: nat, t: int) {
    exists k :: 0 <= k < |cycles| && Passes(s, cycles, k, t)
                && (p, t) in cycles[k].activity && p in cycles[k].projects && cycles[k].hasRoom(p)
  }

  /** Cycle `k` told `p` about `t` and then failed to store `last_sent`. */
  ghost predicate Lost(s: Schedule, cycles: seq<Cycle>, k: nat, p: nat, t: int)
    requires k < |cycles|
  {
    Tells(Run(s, cycles[..k]).0, cycles[k], p, t) && !cycles[k].updated
  }

  /** How many digests told `p` about `t` and then failed to store `last_sent`. */
  ghost function LostUpdates(s: Schedule, cycles: seq<Cycle>, p: nat, t: int): nat {
    if cycles == [] then 0
    else
      var n := |cycles| - 1;
      LostUpdates(s, cycles[..n], p, t) + if Lost(s, cycles, n, p, t) then 1 else 0
  }

  lemma {:induction false} PassesInit(s: Schedule, cycles: seq<Cycle>, k: nat, t: int)
    requires k < |cycles| - 1
    ensures Passes(s, cycles, k, t) <==> Passes(s, cycles[..|cycles| - 1], k, t)
  {
    var init := cycles[..|cycles| - 1];
    assert cycles[..k] == init[..k] && cycles[..k + 1] == init[..k + 1];
  }

  /** Who told in passing: an earlier cycle, or the last one. */
  lemma {:induction false} ToldByInitOrLast(s: Schedule, cycles: seq<Cycle>, p: nat, t: int)
    requires cycles != []
    ensures var n := |cycles| - 1;
            ToldInPassing(s, cycles, p, t) <==>
              || ToldInPassing(s, cycles[..n], p, t)
              || (Passes(s, cycles, n, t) && (p, t) in cycles[n].activity && p in cycles[n].projects && cycles[n].hasRoom(p))
  {
    hide Passes;
    var n := |cycles| - 1;
    var init := cycles[..n];
    forall k | 0 <= k < n
      ensures Passes(s, cycles, k, t) <==> Passes(s, init, k, t)
    {
      PassesInit(s, cycles, k, t);
    }
    if ToldInPassing(s, init, p, t) {
      var k :| 0 <= k < n && Passes(s, init, k, t) && (p, t) in init[k].activity && p in init[k].projects && init[k].hasRoom(p);
      assert cycles[k] == init[k];
    }
    if ToldInPassing(s, cycles, p, t) {
      var k :| 0 <= k < |cycles| && Passes(s, cycles, k, t)
               && (p, t) in cycles[k].activity && p in cycles[k].projects && cycles[k].hasRoom(p);
      if k < n {
        assert init[k] == cycles[k];
      }
    }
  }

  /**
   Over every run with forward windows, of any schedule: an instant is reported to a project
   once for every digest that told it and whose `last_sent` update was lost, and once more
   exactly when the cycle that finally passed it knew of it, asked for the project and found
   room in the channel.
   */
  lemma {:induction false} ReportedExactly(s: Schedule, cycles: seq<Cycle>, p: nat, t: int)
    requires ProjectsDistinct(cycles) && Forward(s, cycles)
    ensures var (s', log) := Run(s, cycles);
            && s.lastSent <= s'.lastSent
            && (ToldInPassing(s, cycles, p, t) ==> s.lastSent <= t < s'.lastSent)
            && TimesReported(log, p, t)
               == (if ToldInPassing(s, cycles, p, t) then 1 else 0) + LostUpdates(s, cycles, p, t)
  {
    if cycles != [] {
      hide Step, TimesReported, ToldInPassing, Distinct;
      var n := |cycles| - 1;
      var init := cycles[..n];
      assert cycles[..n + 1] == cycles;
      ReportedExactly(s, init, p, t);
      ToldByInitOrLast(s, cycles, p, t);
      var (before, queued) := Run(s, init);
      var (after, sent) := Step(before, cycles[n]);
      StepReports(before, cycles[n], p, t);
      ReportedConcat(queued, sent, p, t);
    } else {
      NothingReported(p, t);
    }
  }

  lemma {:induction false} NoneLost(s: Schedule, cycles: seq<Cycle>, p: nat, t: int)
    ensures LostUpdates(s, cycles, p, t) == 0 <==> forall k :: 0 <= k < |cycles| ==> !Lost(s, cycles, k, p, t)
  {
    if cycles != [] {
      hide Tells, Run;
      var n := |cycles| - 1;
      var init := cycles[..n];
      NoneLost(s, init, p, t);
      forall k | 0 <= k < n
        ensures Lost(s, cycles, k, p, t) <==> Lost(s, init, k, p, t)
      {
        assert init[..k] == cycles[..k] && init[k] == cycles[k];
      }
      if Lost(s, cycles, n, p, t) {
        assert LostUpdates(s, cycles, p, t) > 0;
      }
    }
  }

  /**
   With stored updates each instant is reported to each project at most once, and only between
   the first and the last `last_sent`: once exactly when the cycle that passed it knew of it,
   asked for the project and found room. This holds of organisation-wide schedules too.
   */
  lemma {:induction false} AtMostOnce(s: Schedule, cycles: seq<Cycle>, p: nat, t: int)
    requires UpdatesSucceed(cycles) && ProjectsDistinct(cycles) && Forward(s, cycles)
    ensures var (s', log) := Run(s, cycles);
            && TimesReported(log, p, t) == (if ToldInPassing(s, cycles, p, t) then 1 else 0)
            && (ToldInPassing(s, cycles, p, t) ==> s.lastSent <= t < s'.lastSent)
  {
    ReportedExactly(s, cycles, p, t);
    NoneLost(s, cycles, p, t);
  }

  /** Some cycle moves `last_sent` past every instant it is past in the end. */
  lemma {:induction false} SomeCyclePasses(s: Schedule, cycles: seq<Cycle>, t: int) returns (k: nat)
    requires s.lastSent <= t < Run(s, cycles).0.lastSent
    ensures k < |cycles| && Passes(s, cycles, k, t)
  {
    hide Step;
    var n := |cycles| - 1;
    assert cycles[..n + 1] == cycles;
    if t < Run(s, cycles[..n]).0.lastSent {
      k := SomeCyclePasses(s, cycles[..n], t);
      PassesInit(s, cycles, k, t);
    } else {
      k := n;
    }
  }

  /** The schedule of project `p`: a digest is built for `p`, or for nothing once `p` is gone. */
  ghost predicate OwnProjectOnly(cycles: seq<Cycle>, p: nat) {
    forall i :: 0 <= i < |cycles| ==> cycles[i].projects == [p] || cycles[i].projects == []
  }

  /** Whoever passed `t` knew of it, and the project was still there. */
  ghost predicate StoredInTime(s: Schedule, cycles: seq<Cycle>, p: nat, t: int) {
    forall k :: 0 <= k < |cycles| && Passes(s, cycles, k, t) ==> (p, t) in cycles[k].activity && p in cycles[k].projects
  }

  /**
   A project schedule reports every instant up to the last `last_sent` exactly once if it was
   stored when its window was passed, and never otherwise, full channels and failed queries
   included.
   */
  lemma {:induction false} ExactlyOnce(s: Schedule, cycles: seq<Cycle>, p: nat, t: int)
    requires UpdatesSucceed(cycles) && Forward(s, cycles) && OwnProjectOnly(cycles, p)
    ensures var (s', log) := Run(s, cycles);
            TimesReported(log, p, t)
            == if s.lastSent <= t < s'.lastSent && StoredInTime(s, cycles, p, t) then 1 else 0
  {
    hide Forward, LostUpdates, TimesReported, Tells;
    OwnIsTold(s, cycles, p, t);
    AtMostOnce(s, cycles, p, t);
  }

  /** For a project schedule, an instant is told in passing exactly when it was stored in time. */
  lemma {:induction false} OwnIsTold(s: Schedule, cycles: seq<Cycle>, p: nat, t: int)
    requires Forward(s, cycles) && OwnProjectOnly(cycles, p)
    ensures ProjectsDistinct(cycles)
    ensures ToldInPassing(s, cycles, p, t) <==>
      s.lastSent <= t < Run(s, cycles).0.lastSent && StoredInTime(s, cycles, p, t)
  {
    hide Step, TimesReported, LostUpdates;
    assert ProjectsDistinct(cycles);
    ReportedExactly(s, cycles, p, t);
    if s.lastSent <= t < Run(s, cycles).0.lastSent {
      var k := SomeCyclePasses(s, cycles, t);
      forall j | 0 <= j < |cycles| && Passes(s, cycles, j, t)
        ensures j == k
      {
        PassedOnce(s, cycles, j, k, t);
      }
      if StoredInTime(s, cycles, p, t) {
        assert cycles[..k + 1][..k] == cycles[..k];
        OwnStepSends(Run(s, cycles[..k]).0, cycles[k], p, t);
      }
    }
  }

  /** `last_sent` never moves back. */
  lemma {:induction false} NeverBack(s: Schedule, cycles: seq<Cycle>, i: nat, j: nat)
    requires Forward(s, cycles) && i <= j <= |cycles|
    ensures Run(s, cycles[..i]).0.lastSent <= Run(s, cycles[..j]).0.lastSent
  {
    if i < j {
      hide Sent, WithActivity;
      if j < |cycles| {
        var init := cycles[..|cycles| - 1];
        assert init[..i] == cycles[..i] && init[..j] == cycles[..j];
        NeverBack(s, init, i, j);
      } else {
        var init := cycles[..j - 1];
        assert cycles[..j] == cycles && init[..i] == cycles[..i] && init[..j - 1] == init;
        NeverBack(s, init, i, j - 1);
      }
    }
  }

  lemma {:induction false} PassedOnce(s: Schedule, cycles: seq<Cycle>, i: nat, j: nat, t: int)
    requires Forward(s, cycles) && i < |cycles| && j < |cycles|
    requires Passes(s, cycles, i, t) && Passes(s, cycles, j, t)
    ensures i == j
  {
    hide Run, Forward;
    if i < j {
      NeverBack(s, cycles, i + 1, j);
    } else if j < i {
      NeverBack(s, cycles, j + 1, i);
    }
  }

  /**
   Failed updates included, a project schedule loses no instant up to its last `last_sent`
   that was stored in time, and reports it exactly once if and only if every digest that told
   it had its update stored.
   */
  lemma {:induction false} NeverLost(s: Schedule, cycles: seq<Cycle>, p: nat, t: int)
    requires Forward(s, cycles) && OwnProjectOnly(cycles, p)
    requires s.lastSent <= t < Run(s, cycles).0.lastSent && StoredInTime(s, cycles, p, t)
    ensures TimesReported(Run(s, cycles).1, p, t) >= 1
    ensures TimesReported(Run(s, cycles).1, p, t) == 1 <==> forall k :: 0 <= k < |cycles| ==> !Lost(s, cycles, k, p, t)
  {
    hide Forward, LostUpdates, TimesReported, Tells, Run;
    OwnIsTold(s, cycles, p, t);
    ReportedExactly(s, cycles, p, t);
    NoneLost(s, cycles, p, t);
  }

  // ---- Windows -----------------------------------------------------------------------------

  /** No project has two digests. */
  ghost predicate OneEach(digests: seq<QueuedDigest>) {
    forall i, j :: 0 <= i < j < |digests| ==> digests[i].projectId != digests[j].projectId
  }

  lemma OneMoreProject(d: QueuedDigest, digests: seq<QueuedDigest>)
    requires OneEach(digests) && forall i :: 0 <= i < |digests| ==> digests[i].projectId != d.projectId
    ensures OneEach([d] + digests)
  {
  }

  lemma {:induction false} SentDistinct(s: Schedule, projects: seq<nat>, c: Cycle)
    requires Distinct(projects)
    ensures OneEach(Sent(s, projects, c))
  {
    if projects != [] {
      hide OneEach;
      var rest := Sent(s, projects[1..], c);
      SentDistinct(s, projects[1..], c);
      forall i | 0 <= i < |rest|
        ensures rest[i].projectId != projects[0]
      {
        assert rest[i].projectId in projects[1..];
      }
      OneMoreProject(DigestOf(s, projects[0], c), rest);
      assert [] + rest == rest;
    } else {
      assert Sent(s, projects, c) == [];
    }
  }

  /** The windows of a log lie between `from` and `to`, and two windows of one project do not overlap. */
  ghost predicate Apart(log: seq<QueuedDigest>, from: int, to: int) {
    && from <= to
    && (forall i :: 0 <= i < |log| ==> from <= log[i].periodStart <= log[i].periodEnd <= to)
    && (forall i, j :: 0 <= i < j < |log| && log[i].projectId == log[j].projectId
          ==> log[i].periodEnd <= log[j].periodStart)
  }

  lemma ApartConcat(a: seq<QueuedDigest>, b: seq<QueuedDigest>, from: int, mid: int, to: int)
    requires Apart(a, from, mid) && Apart(b, mid, to)
    ensures Apart(a + b, from, to)
  {
  }

  lemma OneWindow(digests: seq<QueuedDigest>, from: int, to: int)
    requires OneEach(digests) && from <= to
    requires forall i :: 0 <= i < |digests| ==> digests[i].periodStart == from && digests[i].periodEnd == to
    ensures Apart(digests, from, to)
    ensures digests == [] ==> Apart(digests, from, from)
  {
  }

  lemma {:induction false} StepApart(s: Schedule, c: Cycle)
    requires c.updated && Distinct(c.projects) && (Due(s, c) ==> s.lastSent <= c.now)
    ensures Apart(Step(s, c).1, s.lastSent, Step(s, c).0.lastSent)
  {
    hide Active;
    if Due(s, c) && c.built {
      var projects := WithActivity(c.projects, c.activity, s.lastSent, c.now);
      WithActivityExact(c.projects, c.activity, s.lastSent, c.now, 0);
      SentDistinct(s, projects, c);
      OneWindow(Sent(s, projects, c), s.lastSent, c.now);
    }
  }

  /**
   With stored updates, two digests of one project never overlap, and all windows lie between
   the first and the last `last_sent`.
   */
  lemma {:induction false} WindowsAreDisjoint(s: Schedule, cycles: seq<Cycle>)
    requires UpdatesSucceed(cycles) && ProjectsDistinct(cycles) && Forward(s, cycles)
    ensures Apart(Run(s, cycles).1, s.lastSent, Run(s, cycles).0.lastSent)
  {
    if cycles != [] {
      hide Step, Apart, Distinct;
      var n := |cycles| - 1;
      WindowsAreDisjoint(s, cycles[..n]);
      var (before, queued) := Run(s, cycles[..n]);
      StepApart(before, cycles[n]);
      ApartConcat(queued, Step(before, cycles[n]).1, s.lastSent, before.lastSent, Step(before, cycles[n]).0.lastSent);
    }
  }

  // ---- When a schedule sends ---------------------------------------------------------------

  /**
   A step does something only for a schedule that is enabled and listed, whose interval has
   passed and whose data was built. It then queues, for each project asked for that has
   activity in the window and room in the channel, one digest of that window; and it moves to
   `now` exactly when its update is stored and nothing was active or something was taken.
   */
  lemma {:induction false} StepSendsExactly(s: Schedule, c: Cycle)
    ensures var (s', sent) := Step(s, c);
            if s.enabled && c.listed && c.built && s.lastSent + s.interval <= c.now then
              && (forall d :: d in sent <==> IsDigest(d, s, c))
              && s'.id == s.id && s' == s.(lastSent := s'.lastSent)
              && s'.lastSent == (if c.updated && (sent != [] || NothingActive(s, c)) then c.now else s.lastSent)
            else s' == s && sent == []
  {
    hide Instants, Active;
    if Due(s, c) && c.built {
      var projects := WithActivity(c.projects, c.activity, s.lastSent, c.now);
      forall p: nat
        ensures p in projects <==> p in c.projects && Active(c.activity, p, s.lastSent, c.now)
      {
        ListedActive(c.projects, c.activity, s.lastSent, c.now, p);
      }
      forall p: nat
        ensures Active(c.activity, p, s.lastSent, c.now) <==> exists t :: SeenAt(c, p, s.lastSent, t)
      {
        ActiveIsSeen(s, c, p);
      }
      forall d
        ensures d in Sent(s, projects, c) <==> IsDigest(d, s, c)
      {
        SentExactly(s, projects, c, d);
        DigestFieldByField(s, c, d);
      }
      if projects != [] {
        assert projects[0] in projects;
      }
    }
  }

  /** Project `p` has stored activity at `t`, in the window that ends now. */
  ghost predicate SeenAt(c: Cycle, p: nat, from: int, t: int) {
    (p, t) in c.activity && from <= t < c.now
  }

  ghost predicate NothingActive(s: Schedule, c: Cycle) {
    forall p, t :: p in c.projects ==> !SeenAt(c, p, s.lastSent, t)
  }

  /** The digest of one active project with room in the channel, over the window since `last_sent`. */
  ghost predicate IsDigest(d: QueuedDigest, s: Schedule, c: Cycle) {
    && d.scheduleId == s.id && d.periodStart == s.lastSent && d.periodEnd == c.now
    && d.projectId in c.projects && c.hasRoom(d.projectId) && d.instants != {}
    && forall t :: t in d.instants <==> SeenAt(c, d.projectId, s.lastSent, t)
  }

  lemma {:induction false} ListedActive(projects: seq<nat>, activity: Activity, from: int, to: int, p: nat)
    ensures p in WithActivity(projects, activity, from, to) <==> p in projects && Active(activity, p, from, to)
  {
    if projects != [] {
      hide Active;
      ListedActive(projects[1..], activity, from, to, p);
      assert p in projects <==> p == projects[0] || p in projects[1..];
    }
  }

  lemma ActiveIsSeen(s: Schedule, c: Cycle, p: nat)
    ensures Active(c.activity, p, s.lastSent, c.now) <==> exists t :: SeenAt(c, p, s.lastSent, t)
  {
    DigestInstants(s, c, p);
    var seen := Instants(c.activity, p, s.lastSent, c.now);
    if seen != {} {
      var t :| t in seen;
      assert SeenAt(c, p, s.lastSent, t);
    }
  }

  lemma DigestInstants(s: Schedule, c: Cycle, p: nat)
    ensures forall t :: t in Instants(c.activity, p, s.lastSent, c.now) <==> SeenAt(c, p, s.lastSent, t)
  {
    forall t | SeenAt(c, p, s.lastSent, t)
      ensures t in Instants(c.activity, p, s.lastSent, c.now)
    {
      assert (p, t) in c.activity;
    }
  }

  lemma DigestFieldByField(s: Schedule, c: Cycle, d: QueuedDigest)
    ensures IsDigest(d, s, c) <==>
      && d == DigestOf(s, d.projectId, c)
      && d.projectId in c.projects && c.hasRoom(d.projectId) && Active(c.activity, d.projectId, s.lastSent, c.now)
  {
    hide Instants;
    DigestInstants(s, c, d.projectId);
    var seen := Instants(c.activity, d.projectId, s.lastSent, c.now);
    if IsDigest(d, s, c) {
      assert forall t :: t in d.instants <==> t in seen;
    }
  }

  lemma {:induction false} SentExactly(s: Schedule, projects: seq<nat>, c: Cycle, d: QueuedDigest)
    ensures d in Sent(s, projects, c) <==> d.projectId in projects && c.hasRoom(d.projectId) && d == DigestOf(s, d.projectId, c)
  {
    if projects != [] {
      hide Instants;
      SentExactly(s, projects[1..], c, d);
      assert d.projectId in projects <==> d.projectId == projects[0] || d.projectId in projects[1..];
    }
  }

  /** In the loop: schedules that are disabled, not yet due, or whose data cannot be built stay as they are. */
  lemma {:induction false} LoopSendsExactly(schedules: seq<Schedule>, w: World, i: nat)
    requires DistinctIds(schedules) && i < |schedules|
    ensures var (after, queued) := StepAll(schedules, w);
            var s, sent := schedules[i], OfSchedule(queued, schedules[i].id);
            var c := Cycle(w.now, w.activity, w.listed, s.id !in w.failing, w.projects(s), w.hasRoom(s.id), s.id !in w.stuck);
            if s.enabled && w.listed && s.id !in w.failing && s.lastSent + s.interval <= w.now then
              && (forall d :: d in sent <==> IsDigest(d, s, c))
              && after[i].lastSent == (if s.id !in w.stuck && (sent != [] || NothingActive(s, c)) then w.now else s.lastSent)
            else after[i] == s && sent == []
  {
    hide Step, StepAll, OfSchedule, IsDigest, NothingActive;
    SchedulesAreIndependent(schedules, w, i);
    StepSendsExactly(schedules[i], CycleFor(schedules[i], w));
  }

  /** Over every run, a window is never shorter than the interval, and a disabled schedule does nothing. */
  lemma {:induction false} NeverEarly(s: Schedule, cycles: seq<Cycle>)
    ensures var (s', log) := Run(s, cycles);
            && s' == s.(lastSent := s'.lastSent)
            && (forall i :: 0 <= i < |log| ==> log[i].scheduleId == s.id && log[i].periodStart + s.interval <= log[i].periodEnd)
            && (!s.enabled ==> s' == s && log == [])
  {
    if cycles != [] {
      hide Step;
      var n := |cycles| - 1;
      NeverEarly(s, cycles[..n]);
      var (before, queued) := Run(s, cycles[..n]);
      StepSendsExactly(before, cycles[n]);
      var sent := Step(before, cycles[n]).1;
      forall i | 0 <= i < |sent|
        ensures sent[i].scheduleId == s.id && sent[i].periodStart + s.interval <= sent[i].periodEnd
      {
        assert sent[i] in sent;
      }
    }
  }

  // ---- Where the promises end --------------------------------------------------------------

  lemma RunOfOne(s: Schedule, c: Cycle)
    ensures Run(s, [c]) == Step(s, c)
  {
    hide Step;
    assert [c][..0] == [];
    assert Run(s, []) == (s, []);
    assert [] + Step(s, c).1 == Step(s, c).1;
  }

  /** If `last_sent` could not be stored after sending, the next digest repeats the whole window. */
  lemma {:induction false} LostUpdateRepeats(s: Schedule, c: Cycle, c': Cycle, p: nat, t: int)
    requires Tells(s, c, p, t) && !c.updated && Tells(s, c', p, t)
    requires Distinct(c.projects) && Distinct(c'.projects)
    ensures TimesReported(Run(s, [c, c']).1, p, t) == 2
  {
    hide Distinct, Step, TimesReported;
    assert [c, c'][..1] == [c];
    RunOfOne(s, c);
    StepReports(s, c, p, t);
    StepReports(s, c', p, t);
    ReportedConcat(Step(s, c).1, Step(s, c').1, p, t);
  }

  /**
   An organisation-wide schedule moves on as soon as one project's event was taken, so a
   project the channel had no room for never hears about that window, however long it runs.
   */
  lemma {:induction false} FullChannelSkipsProject(s: Schedule, c: Cycle, rest: seq<Cycle>, p: nat, q: nat, t: int, u: int)
    requires Tells(s, c, p, u) && !c.hasRoom(q) && s.lastSent <= t < c.now
    requires UpdatesSucceed([c] + rest) && ProjectsDistinct([c] + rest) && Forward(s, [c] + rest)
    ensures TimesReported(Run(s, [c] + rest).1, q, t) == 0
  {
    hide Step, TimesReported, Distinct, Forward, Run;
    var cycles := [c] + rest;
    assert cycles[0] == c && cycles[..0] == [] && cycles[..0 + 1] == [c];
    StepReports(s, c, p, u);
    RunOfOne(s, c);
    RunOfNone(s);
    assert Passes(s, cycles, 0, t);
    AtMostOnce(s, cycles, q, t);
    if ToldInPassing(s, cycles, q, t) {
      var k :| 0 <= k < |cycles| && Passes(s, cycles, k, t)
               && (q, t) in cycles[k].activity && q in cycles[k].projects && cycles[k].hasRoom(q);
      PassedOnce(s, cycles, 0, k, t);
    }
  }

  lemma RunOfNone(s: Schedule)
    ensures Run(s, []) == (s, [])
  {
  }
}
