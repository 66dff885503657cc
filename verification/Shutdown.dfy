/**
 Graceful shutdown (`src/server.rs`, `src/writer/handle.rs`, `src/writer/mod.rs`) as a
 transition system: listeners and their requests, the shutdown flag, the 5 second ceiling, the
 main task, and the writer tasks with their queues. An interleaving is any sequence of enabled
 actions; the theorems hold in all of them.
 */
module Shutdown {
  import opened Options

  const DRAIN_CEILING: nat := 5
  const WRITER_CEILING: nat := 4

  /** A request that submits one event: it checks for the stop signal, queues the event, answers 200. */
  datatype Stage = Running | PassedCheck | Queued | Acked | Refused | Abandoned {
    predicate InFlight() { Running? || PassedCheck? || Queued? }
  }

  datatype Message = Event(request: nat) | Sentinel

  /** The main task: waiting in `select!`, past it, waiting for the writers, gone. */
  datatype Main =
    | Serving
    | Stopping(forced: bool, at: nat)
    | AwaitingWriter(forced: bool, at: nat, since: nat)
    | Exited(forced: bool, at: nat, drained: bool)

  datatype State = State(
    now: nat,
    flagAt: Option<nat>,          // when the shutdown flag was first set
    timerFrom: Option<nat>,       // when the ceiling's sleep started
    finished: seq<bool>,          // listeners whose future ended
    joined: seq<bool>,            // listeners the main task has collected
    home: map<nat, nat>,          // the listener of each request
    stage: map<nat, Stage>,
    main: Main,
    queues: seq<seq<Message>>,    // one per writer
    exited: seq<bool>,            // writers that returned
    flushed: set<nat>,            // requests whose event reached the database
    dropped: set<nat>)            // events given up after failed flushes
  {
    /** The writers have been told to stop. */
    predicate WriterStopped() { main.AwaitingWriter? || main.Exited? }

    /** The ceiling fired before every listener was collected. */
    predicate Forced() { !main.Serving? && main.forced }

    ghost predicate AllFinished() { forall i :: 0 <= i < |finished| ==> finished[i] }

    function Acknowledged(): set<nat> { set r | r in stage && stage[r] == Acked }
  }

  datatype Action =
    | Tick(seconds: nat)
    | Signal
    | Accept(request: nat, listener: nat)
    | CheckStop(request: nat)
    | Enqueue(request: nat, writer: nat)
    | Refuse(request: nat)
    | Ack(request: nat)
    | Finish(listener: nat)
    | Join(listener: nat)
    | ArmTimer
    | TimerFires
    | AllJoined
    | StopWriters(sentinels: seq<bool>)
    | Flush(writer: nat, count: nat)
    | FlushFails(writer: nat, count: nat)
    | WriterReturns(writer: nat)
    | MainReturns(drained: bool)

  function Raise(s: State): Option<nat> { if s.flagAt.None? then Some(s.now) else s.flagAt }

  predicate InFlightAt(s: State, r: nat, i: nat) {
    r in s.stage && r in s.home && s.home[r] == i && s.stage[r].InFlight()
  }

  /** The request is being served: its listener still runs. */
  predicate Served(s: State, r: nat) {
    && r in s.stage && r in s.home && s.home[r] < |s.finished| && !s.finished[s.home[r]]
  }

  /** The first `count` messages are events. */
  predicate EventsAhead(q: seq<Message>, count: nat) {
    count <= |q| && forall k :: 0 <= k < count ==> q[k].Event?
  }

  ghost predicate Enabled(s: State, a: Action) {
    match a
    case Tick(_) => true
    case Signal => true
    case Accept(r, i) => r !in s.stage && i < |s.finished| && !s.finished[i]
    case CheckStop(r) => Served(s, r) && s.stage[r] == Running && !s.WriterStopped()
    case Enqueue(r, w) => Served(s, r) && s.stage[r] == PassedCheck && w < |s.queues|
    case Refuse(r) => Served(s, r) && (s.stage[r] == Running || s.stage[r] == PassedCheck)
    case Ack(r) => Served(s, r) && s.stage[r] == Queued
    case Finish(i) => i < |s.finished| && !s.finished[i]
    case Join(i) => i < |s.finished| && i < |s.joined| && s.finished[i] && !s.joined[i] && s.main.Serving?
    case ArmTimer => s.flagAt.Some? && s.timerFrom.None?
    case TimerFires => s.main.Serving? && s.timerFrom.Some? && s.timerFrom.value + DRAIN_CEILING <= s.now
    case AllJoined => s.main.Serving? && forall i :: 0 <= i < |s.joined| ==> s.joined[i]
    case StopWriters(sent) => s.main.Stopping? && |sent| == |s.queues|
    case Flush(w, n) => w < |s.queues| && w < |s.exited| && !s.exited[w] && EventsAhead(s.queues[w], n)
    case FlushFails(w, n) => w < |s.queues| && w < |s.exited| && !s.exited[w] && EventsAhead(s.queues[w], n)
    case WriterReturns(w) =>
      && w < |s.queues| && w < |s.exited| && !s.exited[w]
      && (if s.queues[w] == [] then s.WriterStopped() else s.queues[w][0] == Sentinel)
    case MainReturns(drained) =>
      && s.main.AwaitingWriter?
      && (if drained then forall w :: 0 <= w < |s.exited| ==> s.exited[w] else s.main.since + WRITER_CEILING <= s.now)
  }

  function RequestsOf(messages: seq<Message>): set<nat> {
    set k | 0 <= k < |messages| && messages[k].Event? :: messages[k].request
  }

  function Apply(s: State, a: Action): (s': State)
    requires Enabled(s, a)
  {
    match a
    case Tick(d) => s.(now := s.now + d)
    case Signal => s.(flagAt := Raise(s))
    case Accept(r, i) => s.(home := s.home[r := i], stage := s.stage[r := Running])
    case CheckStop(r) => s.(stage := s.stage[r := PassedCheck])
    case Enqueue(r, w) => s.(stage := s.stage[r := Queued], queues := s.queues[w := s.queues[w] + [Event(r)]])
    case Refuse(r) => s.(stage := s.stage[r := Refused])
    case Ack(r) => s.(stage := s.stage[r := Acked])
    case Finish(i) =>
      s.(finished := s.finished[i := true],
         stage := map r | r in s.stage :: if InFlightAt(s, r, i) then Abandoned else s.stage[r])
    case Join(i) => s.(joined := s.joined[i := true], flagAt := Raise(s))
    case ArmTimer => s.(timerFrom := Some(s.now))
    case TimerFires => s.(main := Stopping(true, s.now))
    case AllJoined => s.(main := Stopping(false, s.now))
    case StopWriters(sent) =>
      s.(main := AwaitingWriter(s.main.forced, s.main.at, s.now),
         queues := seq(|s.queues|, w requires 0 <= w < |s.queues| =>
                     if sent[w] then s.queues[w] + [Sentinel] else s.queues[w]))
    case Flush(w, n) =>
      s.(flushed := s.flushed + RequestsOf(s.queues[w][..n]), queues := s.queues[w := s.queues[w][n..]])
    case FlushFails(w, n) =>
      s.(dropped := s.dropped + RequestsOf(s.queues[w][..n]), queues := s.queues[w := s.queues[w][n..]])
    case WriterReturns(w) => s.(exited := s.exited[w := true])
    case MainReturns(drained) => s.(main := Exited(s.main.forced, s.main.at, drained))
  }

  /** A started server: nothing requested, nothing queued, no flag. */
  function Start(listeners: nat, writers: nat): State {
    State(0, None, None, seq(listeners, _ => false), seq(listeners, _ => false), map[], map[], Serving,
          seq(writers, _ => []), seq(writers, _ => false), {}, {})
  }

  /** Every action of the sequence is enabled when its turn comes. */
  ghost predicate Legal(s: State, actions: seq<Action>)
    decreases |actions|
  {
    actions == [] || (Enabled(s, actions[0]) && Legal(Apply(s, actions[0]), actions[1..]))
  }

  ghost function Run(s: State, actions: seq<Action>): State
    requires Legal(s, actions)
    decreases |actions|
  {
    if actions == [] then s else Run(Apply(s, actions[0]), actions[1..])
  }

  // ---- What every step keeps ---------------------------------------------------------------

  /** The flag, the timer and the main task. */
  ghost predicate ControlInv(s: State) {
    && |s.joined| == |s.finished| && |s.exited| == |s.queues|
    && (s.flagAt.Some? ==> s.flagAt.value <= s.now)
    && (s.timerFrom.Some? ==> s.flagAt.Some? && s.flagAt.value <= s.timerFrom.value <= s.now)
    && (forall i :: 0 <= i < |s.joined| && s.joined[i] ==> s.finished[i] && s.flagAt.Some?)
    && (s.main.AwaitingWriter? ==> s.main.at <= s.main.since <= s.now)
    && (!s.main.Serving? ==>
         && s.main.at <= s.now
         && (s.main.Exited? && !s.main.drained ==> s.main.at + WRITER_CEILING <= s.now)
         && (s.main.Exited? && s.main.drained ==> forall w :: 0 <= w < |s.exited| ==> s.exited[w])
         && (if s.main.forced then s.flagAt.Some? && s.flagAt.value + DRAIN_CEILING <= s.main.at
             else s.AllFinished() && forall i :: 0 <= i < |s.joined| ==> s.joined[i]))
  }

  /** A request in flight has a running listener. */
  ghost predicate RequestInv(s: State) {
    forall r :: r in s.stage ==>
      r in s.home && s.home[r] < |s.finished| && (s.stage[r].InFlight() ==> !s.finished[s.home[r]])
  }

  ghost predicate IsQueued(s: State, r: nat) {
    exists w, k :: 0 <= w < |s.queues| && 0 <= k < |s.queues[w]| && s.queues[w][k] == Event(r)
  }

  /** An accepted event is in the database, given up, or still queued. */
  ghost predicate EventInv(s: State) {
    forall r :: r in s.stage && (s.stage[r] == Queued || s.stage[r] == Acked) ==>
      r in s.flushed || r in s.dropped || IsQueued(s, r)
  }

  ghost predicate NoSentinel(q: seq<Message>) { forall k :: 0 <= k < |q| ==> q[k].Event? }

  /** The sentinel, if any, comes last. */
  ghost predicate SentinelLast(q: seq<Message>) { forall k :: 0 <= k < |q| - 1 ==> q[k].Event? }

  ghost predicate NoEvent(q: seq<Message>) { forall k :: 0 <= k < |q| ==> q[k].Sentinel? }

  /** Unless the ceiling fired, nothing is queued behind a sentinel, so a writer that returned left nothing. */
  ghost predicate WriterInv(s: State) {
    forall w :: 0 <= w < |s.queues| && w < |s.exited| ==>
      && (!s.WriterStopped() ==> NoSentinel(s.queues[w]) && !s.exited[w])
      && (s.WriterStopped() && !s.Forced() ==> SentinelLast(s.queues[w]) && (s.exited[w] ==> NoEvent(s.queues[w])))
  }

  ghost predicate Inv(s: State) {
    ControlInv(s) && RequestInv(s) && EventInv(s) && WriterInv(s)
  }

  /**
   Only a successful flush puts events into the database, and only a failed one gives them up;
   either takes the first messages of one queue, and nothing else leaves a queue.
   */
  lemma OnlyFlushesMoveEvents(s: State, a: Action)
    requires Enabled(s, a)
    ensures var s' := Apply(s, a);
            && (forall r :: r in s'.flushed <==>
                 r in s.flushed || (a.Flush? && Event(r) in s.queues[a.writer][..a.count]))
            && (forall r :: r in s'.dropped <==>
                 r in s.dropped || (a.FlushFails? && Event(r) in s.queues[a.writer][..a.count]))
            && |s'.queues| == |s.queues|
            && forall w :: 0 <= w < |s.queues| ==>
                 if (a.Flush? || a.FlushFails?) && a.writer == w then s'.queues[w] == s.queues[w][a.count..]
                 else s.queues[w] <= s'.queues[w]
  {
    if a.Flush? || a.FlushFails? {
      RequestsExactly(s.queues[a.writer][..a.count]);
    }
  }

  lemma RequestsExactly(messages: seq<Message>)
    ensures forall r :: r in RequestsOf(messages) <==> Event(r) in messages
  {
    forall r | Event(r) in messages
      ensures r in RequestsOf(messages)
    {
      var k :| 0 <= k < |messages| && messages[k] == Event(r);
      assert messages[k].request == r;
    }
  }

  lemma StepKeepsControl(s: State, a: Action)
    requires ControlInv(s) && Enabled(s, a)
    ensures ControlInv(Apply(s, a))
  {
  }

  lemma StepKeepsRequests(s: State, a: Action)
    requires RequestInv(s) && Enabled(s, a)
    ensures RequestInv(Apply(s, a))
  {
  }

  /** Once every listener has finished, no request is in flight. */
  lemma NothingInFlight(s: State, r: nat)
    requires ControlInv(s) && RequestInv(s) && s.WriterStopped() && !s.Forced() && r in s.stage
    ensures !s.stage[r].InFlight() && !Served(s, r)
  {
  }

  lemma StepKeepsWriters(s: State, a: Action)
    requires Inv(s) && Enabled(s, a)
    ensures WriterInv(Apply(s, a))
  {
    hide EventInv, RequestInv, ControlInv, RequestsOf, InFlightAt;
    if a.Enqueue? {
      if s.WriterStopped() && !s.Forced() {
        NothingInFlight(s, a.request);
      }
    }
  }

  /** The events at the head of a queue have moved on; the rest are still queued. */
  lemma TakenOrStillQueued(s: State, s': State, w: nat, n: nat, r: nat)
    requires w < |s.queues| && n <= |s.queues[w]| && s'.queues == s.queues[w := s.queues[w][n..]]
    requires IsQueued(s, r)
    ensures r in RequestsOf(s.queues[w][..n]) || IsQueued(s', r)
  {
    var v, k :| 0 <= v < |s.queues| && 0 <= k < |s.queues[v]| && s.queues[v][k] == Event(r);
    if v != w {
      assert s'.queues[v][k] == Event(r);
    } else if k >= n {
      assert s'.queues[v][k - n] == Event(r);
    } else {
      assert s.queues[w][..n][k] == Event(r);
    }
  }

  /** Queues only growing at their ends. */
  lemma GrownStillQueued(s: State, s': State, r: nat)
    requires |s'.queues| == |s.queues| && forall w :: 0 <= w < |s.queues| ==> s.queues[w] <= s'.queues[w]
    requires IsQueued(s, r)
    ensures IsQueued(s', r)
  {
    var v, k :| 0 <= v < |s.queues| && 0 <= k < |s.queues[v]| && s.queues[v][k] == Event(r);
    assert s'.queues[v][k] == Event(r);
  }

  lemma StepKeepsEvents(s: State, a: Action)
    requires EventInv(s) && Enabled(s, a)
    ensures EventInv(Apply(s, a))
  {
    hide IsQueued, InFlightAt;
    var s' := Apply(s, a);
    forall r | r in s'.stage && (s'.stage[r] == Queued || s'.stage[r] == Acked)
      ensures r in s'.flushed || r in s'.dropped || IsQueued(s', r)
    {
      if a == Enqueue(r, if a.Enqueue? then a.writer else 0) {
        LastIsQueued(s', r, a.writer);
      } else {
        assert r in s.stage && (s.stage[r] == Queued || s.stage[r] == Acked);
        if IsQueued(s, r) {
          match a
          case Flush(w, n) => TakenOrStillQueued(s, s', w, n, r);
          case FlushFails(w, n) => TakenOrStillQueued(s, s', w, n, r);
          case _ => GrownStillQueued(s, s', r);
        }
      }
    }
  }

  lemma LastIsQueued(s: State, r: nat, w: nat)
    requires w < |s.queues| && s.queues[w] != [] && s.queues[w][|s.queues[w]| - 1] == Event(r)
    ensures IsQueued(s, r)
  {
  }

  lemma StepKeepsInv(s: State, a: Action)
    requires Inv(s) && Enabled(s, a)
    ensures Inv(Apply(s, a))
  {
    hide ControlInv, RequestInv, EventInv, WriterInv, Enabled, Apply;
    StepKeepsControl(s, a);
    StepKeepsRequests(s, a);
    StepKeepsWriters(s, a);
    StepKeepsEvents(s, a);
  }

  lemma {:induction false} RunKeepsInv(s: State, actions: seq<Action>)
    requires Inv(s) && Legal(s, actions)
    ensures Inv(Run(s, actions))
    decreases |actions|
  {
    hide Inv, Enabled, Apply;
    if actions != [] {
      StepKeepsInv(s, actions[0]);
      RunKeepsInv(Apply(s, actions[0]), actions[1..]);
    }
  }

  lemma StartInv(listeners: nat, writers: nat)
    ensures Inv(Start(listeners, writers))
  {
  }

  // ---- Every interleaving ------------------------------------------------------------------

  /** Every state some interleaving reaches. */
  ghost predicate Reachable(s: State) {
    exists listeners, writers, actions ::
      Legal(Start(listeners, writers), actions) && Run(Start(listeners, writers), actions) == s
  }

  lemma ReachableInv(s: State)
    requires Reachable(s)
    ensures Inv(s)
  {
    hide Inv, Legal, Run, Start;
    var listeners, writers, actions :|
      Legal(Start(listeners, writers), actions) && Run(Start(listeners, writers), actions) == s;
    StartInv(listeners, writers);
    RunKeepsInv(Start(listeners, writers), actions);
  }

  /**
   The writers are told to stop only after every listener has finished, or 5 seconds after the
   shutdown flag was set.
   */
  lemma WriterStopsLast(s: State)
    requires Reachable(s) && s.WriterStopped()
    ensures s.AllFinished() || (s.flagAt.Some? && s.flagAt.value + 5 <= s.main.at <= s.now)
    ensures !s.Forced() ==> s.AllFinished()
  {
    ReachableInv(s);
  }

  /**
   The ceiling can fire exactly from 5 seconds after its sleep started, which was after the flag
   was set, and the main task leaves writers behind exactly from 4 seconds after they were told.
   */
  lemma CeilingsExactly(s: State)
    requires Reachable(s)
    ensures s.main.Serving? ==>
      (Enabled(s, TimerFires) <==> s.timerFrom.Some? && s.timerFrom.value + 5 <= s.now)
    ensures s.timerFrom.Some? ==> s.flagAt.Some? && s.flagAt.value <= s.timerFrom.value
    ensures s.main.AwaitingWriter? ==> (Enabled(s, MainReturns(false)) <==> s.main.since + 4 <= s.now)
    ensures s.main.Exited? && !s.main.drained ==> s.main.at + 4 <= s.now
  {
    hide RequestInv, EventInv, WriterInv;
    ReachableInv(s);
  }

  /**
   A listener that ended, however it ended, can be collected as long as the main task serves,
   and collecting it raises the flag for the others; whatever was collected has raised it.
   */
  lemma OneEndingRaisesTheFlag(s: State, i: nat)
    requires Reachable(s) && i < |s.finished| && s.finished[i]
    ensures s.flagAt.None? ==> s.main.Serving? && Enabled(s, Join(i)) && Apply(s, Join(i)).flagAt == Some(s.now)
  {
    ReachableInv(s);
  }

  /** Unless the ceiling fired, no 200 is issued and nothing is queued after the writers were told to stop. */
  lemma NoAckAfterStop(s: State, a: Action)
    requires Reachable(s) && Enabled(s, a) && s.WriterStopped() && !s.Forced()
    ensures Apply(s, a).Acknowledged() == s.Acknowledged()
    ensures !a.Enqueue? && !a.Ack?
  {
    hide EventInv, WriterInv;
    ReachableInv(s);
    if a.Enqueue? || a.Ack? {
      NothingInFlight(s, a.request);
    }
  }

  /**
   Every event acknowledged with a 200 reaches the database: when the ceiling did not fire, the
   writers returned in time and no flush was given up, nothing acknowledged is missing.
   */
  lemma AcknowledgedIsFlushed(s: State, r: nat)
    requires Reachable(s) && s.main.Exited? && s.main.drained && !s.Forced()
    requires r in s.Acknowledged() && r !in s.dropped
    ensures r in s.flushed
  {
    ReachableInv(s);
    NothingQueued(s, r);
  }

  lemma NothingQueued(s: State, r: nat)
    requires forall w :: 0 <= w < |s.queues| ==> NoEvent(s.queues[w])
    ensures !IsQueued(s, r)
  {
  }

  // ---- When an acknowledged event can be lost ----------------------------------------------

  lemma {:induction false} OneMoreAction(s: State, actions: seq<Action>, a: Action)
    requires Legal(s, actions) && Enabled(Run(s, actions), a)
    ensures Legal(s, actions + [a]) && Run(s, actions + [a]) == Apply(Run(s, actions), a)
    decreases |actions|
  {
    hide Enabled, Apply;
    if actions == [] {
      assert [] + [a] == [a];
      assert Legal(Apply(s, a), []);
      assert [a][1..] == [];
    } else {
      assert (actions + [a])[1..] == actions[1..] + [a] && (actions + [a])[0] == actions[0];
      OneMoreAction(Apply(s, actions[0]), actions[1..], a);
    }
  }

  lemma ReachableStep(s: State, a: Action)
    requires Reachable(s) && Enabled(s, a)
    ensures Reachable(Apply(s, a))
  {
    hide Enabled, Apply, Start;
    var listeners, writers, actions :|
      Legal(Start(listeners, writers), actions) && Run(Start(listeners, writers), actions) == s;
    OneMoreAction(Start(listeners, writers), actions, a);
  }

  /** A server with one request that has passed the stop check. */
  lemma OneRequestChecked() returns (s: State)
    ensures Reachable(s) && s == Start(1, 1).(home := map[0 := 0], stage := map[0 := PassedCheck])
  {
    hide Reachable;
    s := Start(1, 1);
    StartIsReachable(1, 1);
    ReachableStep(s, Accept(0, 0));
    s := Apply(s, Accept(0, 0));
    ReachableStep(s, CheckStop(0));
    s := Apply(s, CheckStop(0));
  }

  lemma StartIsReachable(listeners: nat, writers: nat)
    ensures Reachable(Start(listeners, writers))
  {
    var s := Start(listeners, writers);
    assert Legal(s, []) && Run(s, []) == s;
  }

  /** From there, the ceiling fires while the request is still being served. */
  lemma CeilingFires() returns (s: State)
    ensures Reachable(s)
    ensures s == Start(1, 1).(home := map[0 := 0], stage := map[0 := PassedCheck], now := 5,
                              flagAt := Some(0), timerFrom := Some(0), main := Stopping(true, 5))
  {
    hide Reachable;
    s := OneRequestChecked();
    ReachableStep(s, Signal);
    s := Apply(s, Signal);
    ReachableStep(s, ArmTimer);
    s := Apply(s, ArmTimer);
    ReachableStep(s, Tick(5));
    s := Apply(s, Tick(5));
    ReachableStep(s, TimerFires);
    s := Apply(s, TimerFires);
  }

  /** The writer is told to stop, and the request queues its event behind the sentinel. */
  lemma QueuedBehindTheSentinel() returns (s: State)
    ensures Reachable(s) && s.main == AwaitingWriter(true, 5, 5) && s.stage == map[0 := Queued] && s.home == map[0 := 0]
    ensures s.finished == [false] && s.exited == [false] && s.queues == [[Sentinel, Event(0)]]
    ensures s.flushed == {} && s.dropped == {} && s.now == 5
  {
    hide Reachable;
    s := CeilingFires();
    ReachableStep(s, StopWriters([true]));
    var q := s.queues[0];
    s := Apply(s, StopWriters([true]));
    assert s.queues[0] == q + [Sentinel] == [Sentinel];
    ReachableStep(s, Enqueue(0, 0));
    s := Apply(s, Enqueue(0, 0));
    assert s.queues[0] == [Sentinel, Event(0)];
  }

  /** When the ceiling fires, an event can be acknowledged behind the sentinel and never be flushed. */
  lemma ForcedExitCanLoseAnAck(drained: bool) returns (s: State)
    ensures Reachable(s) && s.main == Exited(true, 5, drained)
    ensures 0 in s.Acknowledged() && 0 !in s.flushed && 0 !in s.dropped
  {
    hide Reachable;
    s := QueuedBehindTheSentinel();
    ReachableStep(s, Ack(0));
    s := Apply(s, Ack(0));
    if drained {
      ReachableStep(s, WriterReturns(0));
      s := Apply(s, WriterReturns(0));
    } else {
      ReachableStep(s, Tick(4));
      s := Apply(s, Tick(4));
    }
    ReachableStep(s, MainReturns(drained));
    s := Apply(s, MainReturns(drained));
  }

  /** A request is answered, its listener ends and is collected, and the writer is told to stop. */
  lemma AckedAndStopped() returns (s: State)
    ensures Reachable(s) && s.main == AwaitingWriter(false, 0, 0) && s.stage == map[0 := Acked] && s.now == 0
    ensures s.flushed == {} && s.dropped == {} && |s.queues| == |s.exited| == 1
  {
    hide Reachable;
    s := OneRequestChecked();
    ReachableStep(s, Enqueue(0, 0));
    s := Apply(s, Enqueue(0, 0));
    ReachableStep(s, Ack(0));
    s := Apply(s, Ack(0));
    ReachableStep(s, Finish(0));
    s := Apply(s, Finish(0));
    ReachableStep(s, Join(0));
    s := Apply(s, Join(0));
    ReachableStep(s, AllJoined);
    s := Apply(s, AllJoined);
    ReachableStep(s, StopWriters([true]));
    s := Apply(s, StopWriters([true]));
  }

  /** A writer that overruns its 4 seconds loses an acknowledged event too, the ceiling not fired. */
  lemma SlowWriterCanLoseAnAck() returns (s: State)
    ensures Reachable(s) && s.main == Exited(false, 0, false)
    ensures 0 in s.Acknowledged() && 0 !in s.flushed && 0 !in s.dropped
  {
    hide Reachable;
    s := AckedAndStopped();
    ReachableStep(s, Tick(4));
    s := Apply(s, Tick(4));
    ReachableStep(s, MainReturns(false));
    s := Apply(s, MainReturns(false));
  }

  /** The server is gone, and its exit went as `forced` and `drained` say. */
  ghost predicate Ended(s: State, forced: bool, drained: bool) {
    Reachable(s) && s.main.Exited? && s.main.forced == forced && s.main.drained == drained
  }

  /**
   The exact condition: every exit of a kind leaves each acknowledged event in the database, or
   given up by a failed flush, if and only if the ceiling did not fire and the writers returned
   within their 4 seconds.
   */
  lemma SafeExactlyWhen(forced: bool, drained: bool)
    ensures (forall s :: Ended(s, forced, drained) ==> s.Acknowledged() <= s.flushed + s.dropped)
            <==> !forced && drained
  {
    hide Reachable;
    if !forced && drained {
      forall s, r | Ended(s, forced, drained) && r in s.Acknowledged()
        ensures r in s.flushed + s.dropped
      {
        if r !in s.dropped {
          AcknowledgedIsFlushed(s, r);
        }
      }
    } else if forced {
      var s := ForcedExitCanLoseAnAck(drained);
      assert Ended(s, forced, drained);
    } else {
      var s := SlowWriterCanLoseAnAck();
      assert Ended(s, forced, drained);
    }
  }

  // ---- Shutdown always can finish ----------------------------------------------------------

  lemma {:induction false} Prepend(s: State, a: Action, actions: seq<Action>)
    requires Enabled(s, a) && Legal(Apply(s, a), actions)
    ensures Legal(s, [a] + actions) && Run(s, [a] + actions) == Run(Apply(s, a), actions)
  {
    hide Enabled, Apply;
    assert ([a] + actions)[0] == a && ([a] + actions)[1..] == actions;
  }

  /** The main task can exit from here on, whatever the listeners and the writers do. */
  ghost predicate CanExit(s: State) {
    exists actions :: Legal(s, actions) && Run(s, actions).main.Exited?
  }

  lemma CanExitAfter(s: State, a: Action)
    requires Enabled(s, a) && CanExit(Apply(s, a))
    ensures CanExit(s)
  {
    hide Enabled, Apply;
    var actions :| Legal(Apply(s, a), actions) && Run(Apply(s, a), actions).main.Exited?;
    Prepend(s, a, actions);
  }

  lemma StoppedCanExit(s: State)
    requires !s.main.Serving?
    ensures CanExit(s)
    decreases if s.main.Stopping? then 2 else if s.main.AwaitingWriter? then 1 else 0
  {
    hide CanExit;
    match s.main
    case Stopping(_, _) =>
      var a := StopWriters(seq(|s.queues|, _ => true));
      StoppedCanExit(Apply(s, a));
      CanExitAfter(s, a);
    case AwaitingWriter(_, _, since) =>
      var late := Apply(s, Tick(since + WRITER_CEILING));
      StoppedCanExit(Apply(late, MainReturns(false)));
      CanExitAfter(late, MainReturns(false));
      CanExitAfter(s, Tick(since + WRITER_CEILING));
    case _ =>
      ExitedCanExit(s);
  }

  lemma ExitedCanExit(s: State)
    requires s.main.Exited?
    ensures CanExit(s)
  {
    assert Legal(s, []) && Run(s, []) == s;
  }

  /**
   From every reachable state shutdown can still be driven to its end: by the flag alone once
   it is set, or after a signal, however many listeners and writers hang.
   */
  lemma ShutdownCanFinish(s: State)
    requires Reachable(s)
    ensures CanExit(s)
  {
    hide CanExit;
    if !s.main.Serving? {
      StoppedCanExit(s);
    } else {
      ReachableInv(s);
      if s.flagAt.None? {
        RaisedCanExit(Apply(s, Signal));
        CanExitAfter(s, Signal);
      } else {
        RaisedCanExit(s);
      }
    }
  }

  lemma RaisedCanExit(s: State)
    requires s.main.Serving? && s.flagAt.Some?
    ensures CanExit(s)
  {
    hide CanExit;
    if s.timerFrom.None? {
      ArmedCanExit(Apply(s, ArmTimer));
      CanExitAfter(s, ArmTimer);
    } else {
      ArmedCanExit(s);
    }
  }

  lemma ArmedCanExit(s: State)
    requires s.main.Serving? && s.timerFrom.Some?
    ensures CanExit(s)
  {
    hide CanExit;
    var a := Tick(s.timerFrom.value + DRAIN_CEILING);
    var late := Apply(s, a);
    StoppedCanExit(Apply(late, TimerFires));
    CanExitAfter(late, TimerFires);
    CanExitAfter(s, a);
  }
}
