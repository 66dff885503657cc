/**
 Filling `trace_op` and `trace_status` on old transactions (`src/cli/migrate.rs`): committed
 chunk by chunk, resumed from the rows still NULL. Stopping and rerunning it, however often
 and with whatever chunk sizes, ends in the table of one uninterrupted run.
 */
module TraceBackfill {
  import opened Options
  import opened EventTable

  /** What the query selects: transactions whose op is NULL, past the empty start key. */
  predicate Pending(e: Event) {
    e.itemType == Transaction && e.traceOp == None && e.id != ""
  }

  /** What the decoders find; an absent or unreadable payload yields nothing. */
  function Extracted(e: Event): (Option<string>, Option<string>) {
    if e.payload.Some? then e.payload.value.trace.GetOr((None, None)) else (None, None)
  }

  /** The row after its update: never NULL again. */
  function Fill(e: Event): (r: Event)
    ensures !Pending(r) && r.id == e.id
  {
    e.(traceOp := Some(Extracted(e).0.GetOr("")), traceStatus := Some(Extracted(e).1.GetOr("")))
  }

  /** A row and how many fills are left, when the first `n` pending rows are filled. */
  function Head(e: Event, n: nat): (Event, nat) {
    if Pending(e) && n != 0 then (Fill(e), n - 1) else (e, n)
  }

  /** The table with its first `n` pending rows filled. */
  function FillFirst(rows: seq<Event>, n: nat): (r: seq<Event>)
    ensures |r| == |rows|
  {
    if rows == [] then [] else [Head(rows[0], n).0] + FillFirst(rows[1..], Head(rows[0], n).1)
  }

  /** Only pending rows change, and they change into their filled selves. */
  lemma {:induction false} FillTouchesOnlyPending(rows: seq<Event>, n: nat, i: nat)
    requires i < |rows|
    ensures var r := FillFirst(rows, n)[i];
            r.id == rows[i].id && (r == rows[i] || (Pending(rows[i]) && r == Fill(rows[i])))
  {
    if i != 0 {
      FillTouchesOnlyPending(rows[1..], Head(rows[0], n).1, i - 1);
    }
  }

  lemma {:induction false} FillNone(rows: seq<Event>)
    ensures FillFirst(rows, 0) == rows
  {
    if rows != [] {
      FillNone(rows[1..]);
    }
  }

  /** What one uninterrupted run should leave: every pending row filled, every other untouched. */
  function FillAll(rows: seq<Event>): (r: seq<Event>)
    ensures |r| == |rows|
  {
    seq(|rows|, i requires 0 <= i < |rows| => if Pending(rows[i]) then Fill(rows[i]) else rows[i])
  }

  lemma {:induction false} FillEnough(rows: seq<Event>, n: nat)
    requires n >= |Matching(rows, Pending)|
    ensures FillFirst(rows, n) == FillAll(rows)
  {
    if rows != [] {
      FillEnough(rows[1..], Head(rows[0], n).1);
      assert FillAll(rows) == FillAll(rows[..1]) + FillAll(rows[1..]);
    }
  }

  /** Filling resumes: the rows left pending are the ones not filled yet, in order. */
  lemma {:induction false} PendingAfterFill(rows: seq<Event>, n: nat)
    requires n <= |Matching(rows, Pending)|
    ensures Matching(FillFirst(rows, n), Pending) == Matching(rows, Pending)[n..]
  {
    if rows != [] {
      hide Matching, FillFirst;
      var (head, left) := Head(rows[0], n);
      assert rows == [rows[0]] + rows[1..];
      MatchingCons(rows[0], rows[1..]);
      FillCons(rows[0], rows[1..], n);
      PendingAfterFill(rows[1..], left);
      MatchingCons(head, FillFirst(rows[1..], left));
      SuffixAfterHead(rows[0], Matching(rows[1..], Pending), n);
    }
  }

  function Singleton(e: Event): seq<Event> { if Pending(e) then [e] else [] }

  lemma SuffixAfterHead(e: Event, rest: seq<Event>, n: nat)
    requires n <= |Singleton(e) + rest|
    ensures (Singleton(e) + rest)[n..] == Singleton(Head(e, n).0) + rest[Head(e, n).1..]
  {
  }

  lemma MatchingCons(e: Event, rows: seq<Event>)
    ensures Matching([e] + rows, Pending) == Singleton(e) + Matching(rows, Pending)
  {
    assert ([e] + rows)[1..] == rows;
  }

  lemma FillCons(e: Event, rows: seq<Event>, n: nat)
    ensures FillFirst([e] + rows, n) == [Head(e, n).0] + FillFirst(rows, Head(e, n).1)
  {
    assert ([e] + rows)[1..] == rows;
  }

  lemma {:induction false} FillTwice(rows: seq<Event>, a: nat, b: nat)
    ensures FillFirst(FillFirst(rows, a), b) == FillFirst(rows, a + b)
  {
    if rows != [] {
      var (head, left) := Head(rows[0], a);
      FillTwice(rows[1..], left, Head(head, b).1);
      FillCons(head, FillFirst(rows[1..], left), b);
    }
  }

  /** `UPDATE events SET ... WHERE event_id = ...`. */
  function UpdateRow(rows: seq<Event>, id: string, op: string, status: string): (r: seq<Event>)
    ensures |r| == |rows|
  {
    seq(|rows|, i requires 0 <= i < |rows| =>
      if rows[i].id == id then rows[i].(traceOp := Some(op), traceStatus := Some(status)) else rows[i])
  }

  lemma {:induction false} UpdateNone(rows: seq<Event>, id: string, op: string, status: string)
    requires forall i :: 0 <= i < |rows| ==> rows[i].id != id
    ensures UpdateRow(rows, id, op, status) == rows
  {
  }

  /** Updating the first pending row by id fills exactly that row. */
  lemma {:induction false} UpdateFillsFirst(rows: seq<Event>, e: Event)
    requires Sorted(rows) && Matching(rows, Pending) != [] && Matching(rows, Pending)[0] == e
    ensures UpdateRow(rows, e.id, Extracted(e).0.GetOr(""), Extracted(e).1.GetOr("")) == FillFirst(rows, 1)
  {
    var op, status := Extracted(e).0.GetOr(""), Extracted(e).1.GetOr("");
    HeadIdIsUnique(rows);
    assert UpdateRow(rows, e.id, op, status)
        == UpdateRow(rows[..1], e.id, op, status) + UpdateRow(rows[1..], e.id, op, status);
    if Pending(rows[0]) {
      UpdateNone(rows[1..], e.id, op, status);
      FillNone(rows[1..]);
    } else {
      assert e in rows[1..];
      UpdateFillsFirst(rows[1..], e);
    }
  }

  lemma {:induction false} HeadIdIsUnique(rows: seq<Event>)
    requires Sorted(rows) && rows != []
    ensures Sorted(rows[1..]) && forall i :: 0 <= i < |rows[1..]| ==> rows[1..][i].id != rows[0].id
  {
    forall i | 0 < i < |rows|
      ensures rows[i].id != rows[0].id
    {
      LessIrreflexive(rows[i].id);
    }
  }

  lemma {:induction false} FillKeepsSorted(rows: seq<Event>, n: nat)
    requires Sorted(rows)
    ensures Sorted(FillFirst(rows, n))
  {
    hide FillFirst;
    var r := FillFirst(rows, n);
    forall i, j | 0 <= i < j < |r|
      ensures Less(r[i].id, r[j].id)
    {
      FillTouchesOnlyPending(rows, n, i);
      FillTouchesOnlyPending(rows, n, j);
    }
  }

  /** Rows committed by `chunks` commits of at most `chunk` rows, out of `pending`. */
  function Committed(pending: nat, chunk: nat, chunks: nat): (n: nat)
    ensures n <= pending
  {
    if chunks == 0 || chunk == 0 then 0
    else
      var page := if pending <= chunk then pending else chunk;
      page + Committed(pending - page, chunk, chunks - 1)
  }

  /** One more commit after `chunks` of them. */
  lemma {:induction false} CommittedNext(pending: nat, chunk: nat, chunks: nat)
    ensures var done := Committed(pending, chunk, chunks);
            Committed(pending, chunk, chunks + 1)
            == done + if pending - done <= chunk then pending - done else chunk
  {
    if chunks != 0 && chunk != 0 {
      CommittedNext(pending - if pending <= chunk then pending else chunk, chunk, chunks - 1);
    }
  }

  lemma NoneCommitted(pending: nat, chunk: nat)
    ensures Committed(pending, chunk, 0) == 0
  {
  }

  class EventStore {
    var events: seq<Event>

    constructor (events: seq<Event>)
      ensures this.events == events
    {
      this.events := events;
    }

    /** One transaction: update every row of a page, then commit. */
    method CommitPage(rows: seq<Event>)
      requires Sorted(events) && |rows| <= |Matching(events, Pending)|
      requires rows == Matching(events, Pending)[..|rows|]
      modifies this
      ensures events == FillFirst(old(events), |rows|)
    {
      hide Matching, FillFirst, Sorted, UpdateRow;
      var tx := events;
      ghost var pending := Matching(events, Pending);
      FillNone(events);
      for n := 0 to |rows|
        invariant events == old(events)
        invariant tx == FillFirst(events, n)
      {
        FillKeepsSorted(events, n);
        PendingAfterFill(events, n);
        UpdateFillsFirst(tx, rows[n]);
        FillTwice(events, n, 1);
        var (op, status) := Extracted(rows[n]);
        tx := UpdateRow(tx, rows[n].id, op.GetOr(""), status.GetOr(""));
      }
      events := tx;
    }

    /**
     The backfill; `breaksAfter` is the number of committed chunks after which the connection
     fails, if it does. The rows committed so far are the first pending ones, and the count
     adds up to exactly them.
     */
    method BackfillTraceOpAndStatus(chunk: nat, breaksAfter: Option<nat>) returns (updated: nat, completed: bool)
      requires Sorted(events)
      modifies this
      ensures events == FillFirst(old(events), updated)
      ensures updated <= |Matching(old(events), Pending)|
      ensures breaksAfter == None ==> completed
      ensures completed && chunk >= 1 ==> updated == |Matching(old(events), Pending)|
      ensures !completed ==> updated == Committed(|Matching(old(events), Pending)|, chunk, breaksAfter.value)
      ensures chunk == 0 ==> updated == 0
    {
      hide Matching, FillFirst, Sorted, After, Committed, Page;
      ghost var start := events;
      ghost var pending := Matching(start, Pending);
      updated := 0;
      var after, chunks: nat := "", 0;
      FillNone(start);
      MatchingSorted(start, Pending);
      AllAfter(pending, "");
      NoneCommitted(|pending|, chunk);
      while true
        invariant updated <= |pending| && events == FillFirst(start, updated)
        invariant After(pending, after) == pending[updated..]
        invariant updated == Committed(|pending|, chunk, chunks) && (chunk == 0 ==> updated == 0)
        decreases |pending| - updated
      {
        if breaksAfter == Some(chunks) {
          return updated, false;
        }
        var rows := Page(events, Pending, after, chunk);
        PageOfRest(start, updated, after, chunk);
        CommittedNext(|pending|, chunk, chunks);
        if rows == [] {
          return updated, true;
        }
        after := rows[|rows| - 1].id;
        FillKeepsSorted(start, updated);
        CommitPage(rows);
        FillTwice(start, updated, |rows|);
        updated := updated + |rows|;
        chunks := chunks + 1;
      }
    }
  }

  /** The next page holds the first rows still pending, and its last key leaves the rest. */
  lemma {:induction false} PageOfRest(start: seq<Event>, updated: nat, after: string, chunk: nat)
    requires Sorted(start) && updated <= |Matching(start, Pending)|
    requires After(Matching(start, Pending), after) == Matching(start, Pending)[updated..]
    ensures var pending, now := Matching(start, Pending), FillFirst(start, updated);
            var rows := Page(now, Pending, after, chunk);
            && |rows| == (if |pending| - updated <= chunk then |pending| - updated else chunk)
            && |rows| <= |Matching(now, Pending)| && rows == Matching(now, Pending)[..|rows|]
            && (rows != [] ==> After(pending, rows[|rows| - 1].id) == pending[updated + |rows|..])
  {
    hide Matching, FillFirst, Sorted, After;
    var pending := Matching(start, Pending);
    MatchingSorted(start, Pending);
    PendingAfterFill(start, updated);
    AfterRest(pending, updated, after);
    var rows := Page(FillFirst(start, updated), Pending, after, chunk);
    assert rows == pending[updated..updated + |rows|];
    if rows != [] {
      NextPage(pending, updated, updated + |rows|, after);
    }
  }

  /** The rows still pending all lie past the key. */
  lemma {:induction false} AfterRest(pending: seq<Event>, n: nat, after: string)
    requires Sorted(pending) && n <= |pending| && After(pending, after) == pending[n..]
    ensures After(pending[n..], after) == pending[n..]
  {
    AfterIdempotent(pending, after);
  }

  lemma {:induction false} AfterIdempotent(rows: seq<Event>, key: string)
    ensures After(After(rows, key), key) == After(rows, key)
  {
    if rows != [] {
      AfterIdempotent(rows[1..], key);
      assert After(rows, key)[if Less(key, rows[0].id) then 1 else 0..] == After(rows[1..], key);
    }
  }

  // ---- The rows, column by column ----------------------------------------------------------

  /** A transaction whose op is NULL. */
  predicate Awaits(e: Event) { e.itemType == ItemType.Transaction && e.traceOp.None? && e.id != "" }

  /** `r` is row `e` with the op and status its payload decodes to, empty where there is none. */
  predicate FilledFrom(r: Event, e: Event) {
    && r.id == e.id && r.itemType == e.itemType && r.projectId == e.projectId && r.timestamp == e.timestamp && r.payload == e.payload
    && (if e.payload.Some? && e.payload.value.trace.Some? then
          var (op, status) := e.payload.value.trace.value;
          && r.traceOp == Some(if op.Some? then op.value else "")
          && r.traceStatus == Some(if status.Some? then status.value else "")
        else r.traceOp == Some("") && r.traceStatus == Some(""))
  }

  /**
   A finished backfill leaves every transaction whose op was NULL with the op and status of its
   payload and every other row as it was; an interrupted one has done so for some of them. The
   rows counted are the transactions whose op was NULL.
   */
  lemma {:induction false} RowsAreFilled(rows: seq<Event>, n: nat, i: nat)
    requires i < |rows|
    ensures if Awaits(rows[i]) then FilledFrom(FillAll(rows)[i], rows[i]) else FillAll(rows)[i] == rows[i]
    ensures FillFirst(rows, n)[i] == rows[i] || (Awaits(rows[i]) && FilledFrom(FillFirst(rows, n)[i], rows[i]))
    ensures |Matching(rows, Pending)| == |AwaitingRows(rows)|
  {
    FillTouchesOnlyPending(rows, n, i);
    CountsAwaiting(rows);
  }

  /** The places of those transactions. */
  function AwaitingRows(rows: seq<Event>): set<nat> { set j: nat | j < |rows| && Awaits(rows[j]) }

  lemma {:induction false} CountsAwaiting(rows: seq<Event>)
    ensures |Matching(rows, Pending)| == |AwaitingRows(rows)|
  {
    if rows != [] {
      hide Matching, AwaitingRows, Awaits;
      var n := |rows| - 1;
      assert rows == rows[..n] + [rows[n]];
      CountsAwaiting(rows[..n]);
      MatchingLast(rows[..n], rows[n]);
      AwaitingLast(rows[..n], rows[n]);
    }
  }

  lemma AwaitingLast(rows: seq<Event>, e: Event)
    ensures |AwaitingRows(rows + [e])| == |AwaitingRows(rows)| + if Awaits(e) then 1 else 0
  {
    assert AwaitingRows(rows + [e]) == AwaitingRows(rows) + if Awaits(e) then {|rows|} else {};
  }

  lemma {:induction false} MatchingLast(rows: seq<Event>, e: Event)
    ensures |Matching(rows + [e], Pending)| == |Matching(rows, Pending)| + if Awaits(e) then 1 else 0
  {
    if rows == [] {
      assert rows + [e] == [e];
    } else {
      assert (rows + [e])[1..] == rows[1..] + [e];
      MatchingLast(rows[1..], e);
    }
  }

  // ---- Crashes and reruns ------------------------------------------------------------------

  function Sum(counts: seq<nat>): nat {
    if counts == [] then 0 else counts[0] + Sum(counts[1..])
  }

  /** The table after runs that committed `counts[0]`, `counts[1]`, ... rows. */
  function AfterRuns(rows: seq<Event>, counts: seq<nat>): seq<Event>
    decreases counts
  {
    if counts == [] then rows else AfterRuns(FillFirst(rows, counts[0]), counts[1..])
  }

  /** No run can commit more rows than it finds pending. */
  predicate PossibleRuns(rows: seq<Event>, counts: seq<nat>)
    decreases counts
  {
    counts == [] ||
    (counts[0] <= |Matching(rows, Pending)| && PossibleRuns(FillFirst(rows, counts[0]), counts[1..]))
  }

  /** Any number of interrupted runs is one run that committed as much. */
  lemma {:induction false} RunsAddUp(rows: seq<Event>, counts: seq<nat>)
    requires PossibleRuns(rows, counts)
    ensures Sum(counts) <= |Matching(rows, Pending)| && AfterRuns(rows, counts) == FillFirst(rows, Sum(counts))
    decreases counts
  {
    hide FillFirst, Matching;
    if counts == [] {
      FillNone(rows);
    } else {
      PendingAfterFill(rows, counts[0]);
      RunsAddUp(FillFirst(rows, counts[0]), counts[1..]);
      FillTwice(rows, counts[0], Sum(counts[1..]));
    }
  }

  /**
   Crash and resume: after any interrupted runs, a run that finishes leaves the table of one
   uninterrupted run, and all the counts add up to the rows that were pending at the start.
   */
  lemma {:induction false} CrashResumeEquivalence(rows: seq<Event>, counts: seq<nat>, last: nat)
    requires PossibleRuns(rows, counts) && last == |Matching(AfterRuns(rows, counts), Pending)|
    ensures FillFirst(AfterRuns(rows, counts), last) == FillAll(rows)
    ensures Sum(counts) + last == |Matching(rows, Pending)|
  {
    hide FillFirst, Matching, FillAll;
    RunsAddUp(rows, counts);
    PendingAfterFill(rows, Sum(counts));
    FillTwice(rows, Sum(counts), last);
    FillEnough(rows, Sum(counts) + last);
  }

  /**
   The same, played out on a store: interrupted runs with any chunk sizes, then a finishing
   one with a non-zero chunk size.
   */
  method InterruptedRuns(store: EventStore, plan: seq<(nat, nat)>, lastChunk: nat) returns (total: nat)
    requires Sorted(store.events) && lastChunk >= 1
    modifies store
    ensures store.events == FillAll(old(store.events))
    ensures total == |Matching(old(store.events), Pending)|
  {
    hide Matching, FillFirst, Sorted, FillAll;
    ghost var start := store.events;
    FillNone(start);
    total := 0;
    for n := 0 to |plan|
      invariant total <= |Matching(start, Pending)| && store.events == FillFirst(start, total)
    {
      FillKeepsSorted(start, total);
      PendingAfterFill(start, total);
      var updated, _ := store.BackfillTraceOpAndStatus(plan[n].0, Some(plan[n].1));
      FillTwice(start, total, updated);
      total := total + updated;
    }
    FillKeepsSorted(start, total);
    PendingAfterFill(start, total);
    var updated, _ := store.BackfillTraceOpAndStatus(lastChunk, None);
    FillTwice(start, total, updated);
    total := total + updated;
    FillEnough(start, total);
  }
}
