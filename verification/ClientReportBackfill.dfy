/**
 Rebuilding the client-report rollup from every stored report (`src/cli/migrate.rs`,
 `src/queries/client_reports.rs`): one transaction, keyset pages of any size, a completion
 marker.
 */
module ClientReportBackfill {
  import opened MachineTypes
  import opened Options
  import opened EventTable

  datatype OutcomeKey = OutcomeKey(projectId: int, hourBucket: int, category: string, reason: string)

  /** Rust's integer division, which truncates toward zero. */
  function TruncDiv(a: int, b: int): int
    requires b > 0
  {
    if a >= 0 then a / b else -((-a) / b)
  }

  function HourBucket(timestamp: int): int { TruncDiv(timestamp, 3600) * 3600 }

  /** The bucket is a whole hour, between 0 and the timestamp, less than an hour from it. */
  lemma HourBucketBounds(timestamp: int)
    ensures HourBucket(timestamp) % 3600 == 0
    ensures timestamp >= 0 ==> 0 <= HourBucket(timestamp) <= timestamp < HourBucket(timestamp) + 3600
    ensures timestamp < 0 ==> HourBucket(timestamp) - 3600 < timestamp <= HourBucket(timestamp) <= 0
  {
  }

  /** The reports the query joins with a payload; the first page starts after the empty key. */
  predicate IsReport(e: Event) {
    e.itemType == ClientReport && e.payload.Some? && e.id != ""
  }

  function KeyOf(e: Event, o: Outcome): OutcomeKey {
    OutcomeKey(e.projectId, HourBucket(e.timestamp), o.category, o.reason)
  }

  // ---- What the rollup should hold ---------------------------------------------------------

  function EntriesOf(e: Event): seq<(OutcomeKey, u64)>
    requires e.payload.Some?
  {
    seq(|e.payload.value.outcomes|, i requires 0 <= i < |e.payload.value.outcomes| =>
      (KeyOf(e, e.payload.value.outcomes[i]), e.payload.value.outcomes[i].quantity))
  }

  /** Every outcome of every report, in table order. */
  function Entries(reports: seq<Event>): seq<(OutcomeKey, u64)>
    requires forall i :: 0 <= i < |reports| ==> reports[i].payload.Some?
  {
    if reports == [] then [] else EntriesOf(reports[0]) + Entries(reports[1..])
  }

  /** The true sum of a key: no cap, no pages. */
  function TotalOf(entries: seq<(OutcomeKey, u64)>, key: OutcomeKey): nat {
    if entries == [] then 0
    else (if entries[0].0 == key then entries[0].1 else 0) + TotalOf(entries[1..], key)
  }

  function Min(a: nat, b: nat): nat { if a <= b then a else b }

  /** The group-by of `entries`, each sum capped at `cap`. */
  ghost predicate IsGroupBy(table: map<OutcomeKey, nat>, entries: seq<(OutcomeKey, u64)>, cap: nat) {
    && (forall key :: key in table <==> exists i :: 0 <= i < |entries| && entries[i].0 == key)
    && (forall key :: key in table ==> table[key] == Min(TotalOf(entries, key), cap))
  }

  lemma {:induction false} TotalOfAppend(entries: seq<(OutcomeKey, u64)>, e: (OutcomeKey, u64), key: OutcomeKey)
    ensures TotalOf(entries + [e], key) == TotalOf(entries, key) + if e.0 == key then e.1 else 0
  {
    if entries == [] {
      assert entries + [e] == [e];
    } else {
      assert (entries + [e])[1..] == entries[1..] + [e];
      TotalOfAppend(entries[1..], e, key);
    }
  }

  lemma {:induction false} NoEntryNoTotal(entries: seq<(OutcomeKey, u64)>, key: OutcomeKey)
    requires forall i :: 0 <= i < |entries| ==> entries[i].0 != key
    ensures TotalOf(entries, key) == 0
  {
    if entries != [] {
      NoEntryNoTotal(entries[1..], key);
    }
  }

  /** `total.saturating_add(quantity)` on the entry of the key, created at 0. */
  function SaturatingAdd(table: map<OutcomeKey, nat>, e: (OutcomeKey, u64)): map<OutcomeKey, nat> {
    table[e.0 := Min((if e.0 in table then table[e.0] else 0) + e.1, U64_MAX)]
  }

  /** Saturating step by step is capping the true sum once. */
  lemma {:induction false} AddKeepsGroupBy(table: map<OutcomeKey, nat>, entries: seq<(OutcomeKey, u64)>, e: (OutcomeKey, u64))
    requires IsGroupBy(table, entries, U64_MAX)
    ensures IsGroupBy(SaturatingAdd(table, e), entries + [e], U64_MAX)
  {
    var table', entries' := SaturatingAdd(table, e), entries + [e];
    if e.0 !in table {
      NoEntryNoTotal(entries, e.0);
    }
    forall key
      ensures key in table' <==> exists i :: 0 <= i < |entries'| && entries'[i].0 == key
    {
      if key == e.0 {
        assert entries'[|entries|].0 == key;
      } else if key in table {
        var i :| 0 <= i < |entries| && entries[i].0 == key;
        assert entries'[i].0 == key;
      }
    }
    forall key | key in table'
      ensures table'[key] == Min(TotalOf(entries', key), U64_MAX)
    {
      TotalOfAppend(entries, e, key);
    }
  }

  lemma {:induction false} EntriesAppend(reports: seq<Event>, e: Event)
    requires e.payload.Some? && forall i :: 0 <= i < |reports| ==> reports[i].payload.Some?
    ensures Entries(reports + [e]) == Entries(reports) + EntriesOf(e)
  {
    if reports == [] {
      assert reports + [e] == [e];
    } else {
      assert (reports + [e])[1..] == reports[1..] + [e];
      EntriesAppend(reports[1..], e);
    }
  }

  // ---- The backfill ------------------------------------------------------------------------

  /** `for_each_outcome` with the closure that accumulates into the map. */
  method AddReport(report: Event, outcomes: map<OutcomeKey, nat>, ghost before: seq<(OutcomeKey, u64)>)
    returns (updated: map<OutcomeKey, nat>)
    requires report.payload.Some? && IsGroupBy(outcomes, before, U64_MAX)
    ensures IsGroupBy(updated, before + EntriesOf(report), U64_MAX)
  {
    updated := outcomes;
    ghost var entries := EntriesOf(report);
    assert before + entries[..0] == before;
    for n := 0 to |report.payload.value.outcomes|
      invariant IsGroupBy(updated, before + entries[..n], U64_MAX)
    {
      var o := report.payload.value.outcomes[n];
      AddKeepsGroupBy(updated, before + entries[..n], (KeyOf(report, o), o.quantity));
      updated := SaturatingAdd(updated, (KeyOf(report, o), o.quantity));
      assert before + entries[..n] + [entries[n]] == before + entries[..n + 1];
    }
    assert entries[..|entries|] == entries;
  }

  /** The stored quantity of a key after the upsert: `i64` caps what is added. */
  function Upserted(table: map<OutcomeKey, nat>, outcomes: map<OutcomeKey, nat>, key: OutcomeKey): nat
    requires key in outcomes
  {
    (if key in table then table[key] else 0) + Min(outcomes[key], I64_MAX)
  }

  /** Add every entry to the stored rollup, creating missing rows. */
  method UpsertOutcomes(table: map<OutcomeKey, nat>, outcomes: map<OutcomeKey, nat>) returns (updated: map<OutcomeKey, nat>)
    ensures updated.Keys == table.Keys + outcomes.Keys
    ensures forall key :: key in updated ==>
      updated[key] == if key in outcomes then Upserted(table, outcomes, key) else table[key]
  {
    updated := table;
    var left := outcomes.Keys;
    while left != {}
      invariant left <= outcomes.Keys && updated.Keys == table.Keys + (outcomes.Keys - left)
      invariant forall key :: key in updated ==>
        updated[key] == if key in outcomes && key !in left then Upserted(table, outcomes, key) else table[key]
      decreases left
    {
      var key :| key in left;
      updated := updated[key := (if key in updated then updated[key] else 0) + Min(outcomes[key], I64_MAX)];
      left := left - {key};
    }
  }

  /** Accumulate one page, which starts at report number `from`. */
  method AddPage(rows: seq<Event>, outcomes: map<OutcomeKey, nat>, ghost reports: seq<Event>, ghost from: nat)
    returns (updated: map<OutcomeKey, nat>)
    requires forall i :: 0 <= i < |reports| ==> reports[i].payload.Some?
    requires from + |rows| <= |reports| && rows == reports[from..from + |rows|]
    requires IsGroupBy(outcomes, Entries(reports[..from]), U64_MAX)
    ensures IsGroupBy(updated, Entries(reports[..from + |rows|]), U64_MAX)
  {
    hide IsGroupBy, Entries;
    updated := outcomes;
    for n := 0 to |rows|
      invariant IsGroupBy(updated, Entries(reports[..from + n]), U64_MAX)
    {
      assert rows[n] == reports[from + n];
      EntriesAppend(reports[..from + n], rows[n]);
      assert reports[..from + n] + [rows[n]] == reports[..from + n + 1];
      updated := AddReport(rows[n], updated, Entries(reports[..from + n]));
    }
  }

  /**
   The page loop: every report once, in key order, `chunk` at a time. `breaksAfter` is the
   number of pages after which the connection fails, if it does.
   */
  method AccumulateAll(events: seq<Event>, chunk: nat, breaksAfter: Option<nat>)
    returns (ok: bool, outcomes: map<OutcomeKey, nat>, read: nat)
    requires Sorted(events)
    ensures breaksAfter == None ==> ok
    ensures ok && chunk >= 1 ==> read == |Matching(events, IsReport)|
                                 && IsGroupBy(outcomes, Entries(Matching(events, IsReport)), U64_MAX)
    ensures ok && chunk == 0 ==> read == 0 && outcomes == map[]
  {
    hide IsGroupBy, Entries, After, Matching, Sorted;
    var pages: nat, after := 0, "";
    outcomes, read := map[], 0;
    ghost var reports := Matching(events, IsReport);
    MatchingSorted(events, IsReport);
    AllAfter(reports, "");
    NothingGrouped();
    assert reports[..0] == [] && reports[0..] == reports;
    while true
      invariant read <= |reports| && After(reports, after) == reports[read..]
      invariant IsGroupBy(outcomes, Entries(reports[..read]), U64_MAX)
      invariant chunk == 0 ==> read == 0 && outcomes == map[]
      decreases |reports| - read
    {
      if breaksAfter == Some(pages) {
        return false, outcomes, read;
      }
      var rows := Page(events, IsReport, after, chunk);
      if rows == [] {
        break;
      }
      assert rows == reports[read..read + |rows|];
      NextPage(reports, read, read + |rows|, after);
      after := rows[|rows| - 1].id;
      outcomes := AddPage(rows, outcomes, reports, read);
      read := read + |rows|;
      pages := pages + 1;
    }
    assert chunk >= 1 ==> reports[..read] == reports;
    ok := true;
  }

  lemma NothingGrouped()
    ensures IsGroupBy(map[], Entries([]), U64_MAX)
  {
  }

  /** Capping the capped sums again at the smaller bound. */
  lemma {:induction false} CapAgain(outcomes: map<OutcomeKey, nat>, stored: map<OutcomeKey, nat>, entries: seq<(OutcomeKey, u64)>)
    requires IsGroupBy(outcomes, entries, U64_MAX) && stored.Keys == outcomes.Keys
    requires forall key :: key in stored ==> stored[key] == Min(outcomes[key], I64_MAX)
    ensures IsGroupBy(stored, entries, I64_MAX)
  {
    assert forall key :: key in stored <==> key in outcomes;
  }

  /** The upsert into an emptied table. */
  method RebuildRollup(outcomes: map<OutcomeKey, nat>, ghost entries: seq<(OutcomeKey, u64)>) returns (stored: map<OutcomeKey, nat>)
    ensures IsGroupBy(outcomes, entries, U64_MAX) ==> IsGroupBy(stored, entries, I64_MAX)
    ensures outcomes == map[] ==> stored == map[]
  {
    hide IsGroupBy;
    stored := UpsertOutcomes(map[], outcomes);
    assert stored.Keys == outcomes.Keys;
    if IsGroupBy(outcomes, entries, U64_MAX) {
      CapAgain(outcomes, stored, entries);
    }
  }

  // ---- The rollup, column by column --------------------------------------------------------

  /** `hour` is the whole hour a timestamp falls in, counted toward 0 from either side. */
  predicate InHour(timestamp: int, hour: int) {
    hour % 3600 == 0 && if timestamp >= 0 then hour <= timestamp < hour + 3600 else hour - 3600 < timestamp <= hour
  }

  lemma HourExactly(timestamp: int, hour: int)
    ensures HourBucket(timestamp) == hour <==> InHour(timestamp, hour)
  {
    HourBucketBounds(timestamp);
  }

  /** A stored client report with a payload, of that project and hour. */
  predicate ReportOf(e: Event, projectId: int, hour: int) {
    && e.itemType == ItemType.ClientReport && e.payload.Some? && e.id != ""
    && e.projectId == projectId && InHour(e.timestamp, hour)
  }

  /** The quantity of one category and reason in a list of outcomes. */
  function QuantityIn(outcomes: seq<Outcome>, category: string, reason: string): nat {
    if outcomes == [] then 0
    else (if outcomes[0].category == category && outcomes[0].reason == reason then outcomes[0].quantity else 0)
         + QuantityIn(outcomes[1..], category, reason)
  }

  /** The quantity stored for one row of the rollup, over all reports. */
  function QuantityStored(events: seq<Event>, projectId: int, hour: int, category: string, reason: string): nat {
    if events == [] then 0
    else (if ReportOf(events[0], projectId, hour) then QuantityIn(events[0].payload.value.outcomes, category, reason) else 0)
         + QuantityStored(events[1..], projectId, hour, category, reason)
  }

  predicate Mentions(e: Event, projectId: int, hour: int, category: string, reason: string) {
    ReportOf(e, projectId, hour) &&
    exists j :: 0 <= j < |e.payload.value.outcomes|
                && e.payload.value.outcomes[j].category == category && e.payload.value.outcomes[j].reason == reason
  }

  /**
   The rollup of the stored reports: a row for each project, hour, category and reason some
   report mentions, holding their summed quantity capped at the largest `i64`.
   */
  ghost predicate IsRollup(table: map<OutcomeKey, nat>, events: seq<Event>) {
    forall projectId, hour, category, reason ::
      var key := OutcomeKey(projectId, hour, category, reason);
      && (key in table <==> exists i :: 0 <= i < |events| && Mentions(events[i], projectId, hour, category, reason))
      && (key in table ==>
            var total := QuantityStored(events, projectId, hour, category, reason);
            table[key] == if total <= 9223372036854775807 then total else 9223372036854775807)
  }

  lemma {:induction false} TotalOfConcat(a: seq<(OutcomeKey, u64)>, b: seq<(OutcomeKey, u64)>, key: OutcomeKey)
    ensures TotalOf(a + b, key) == TotalOf(a, key) + TotalOf(b, key)
  {
    if a == [] {
      assert a + b == b;
    } else {
      assert (a + b)[1..] == a[1..] + b;
      TotalOfConcat(a[1..], b, key);
    }
  }

  lemma {:induction false} TotalOfReport(e: Event, outcomes: seq<Outcome>, key: OutcomeKey)
    requires e.payload.Some? && e.payload.value.outcomes == outcomes
    ensures TotalOf(EntriesOf(e), key)
            == if e.projectId == key.projectId && InHour(e.timestamp, key.hourBucket)
               then QuantityIn(outcomes, key.category, key.reason) else 0
    decreases |outcomes|
  {
    HourExactly(e.timestamp, key.hourBucket);
    if outcomes != [] {
      var rest := e.(payload := Some(e.payload.value.(outcomes := outcomes[1..])));
      TotalOfReport(rest, outcomes[1..], key);
      assert EntriesOf(e)[1..] == EntriesOf(rest);
    }
  }

  lemma {:induction false} TotalIsQuantity(events: seq<Event>, key: OutcomeKey)
    ensures TotalOf(Entries(Matching(events, IsReport)), key)
            == QuantityStored(events, key.projectId, key.hourBucket, key.category, key.reason)
  {
    if events != [] {
      hide TotalOf, EntriesOf, InHour, QuantityIn;
      var rest := Matching(events[1..], IsReport);
      TotalIsQuantity(events[1..], key);
      if IsReport(events[0]) {
        assert Matching(events, IsReport) == [events[0]] + rest;
        EntriesFirst(events[0], rest);
        TotalOfConcat(EntriesOf(events[0]), Entries(rest), key);
        TotalOfReport(events[0], events[0].payload.value.outcomes, key);
      } else {
        assert Matching(events, IsReport) == [] + rest == rest;
      }
    } else {
      NoTotal(key);
    }
  }

  lemma NoTotal(key: OutcomeKey)
    ensures TotalOf([], key) == 0
  {
  }

  lemma EntriesFirst(e: Event, rest: seq<Event>)
    requires e.payload.Some? && forall i :: 0 <= i < |rest| ==> rest[i].payload.Some?
    ensures Entries([e] + rest) == EntriesOf(e) + Entries(rest)
  {
    assert ([e] + rest)[1..] == rest;
  }

  ghost predicate HasEntry(entries: seq<(OutcomeKey, u64)>, key: OutcomeKey) {
    exists i :: 0 <= i < |entries| && entries[i].0 == key
  }

  lemma HasEntryConcat(a: seq<(OutcomeKey, u64)>, b: seq<(OutcomeKey, u64)>, key: OutcomeKey)
    ensures HasEntry(a + b, key) <==> HasEntry(a, key) || HasEntry(b, key)
  {
    if HasEntry(a, key) {
      var i :| 0 <= i < |a| && a[i].0 == key;
      assert (a + b)[i].0 == key;
    }
    if HasEntry(b, key) {
      var i :| 0 <= i < |b| && b[i].0 == key;
      assert (a + b)[|a| + i].0 == key;
    }
  }

  lemma EntryOfReport(e: Event, key: OutcomeKey)
    requires IsReport(e)
    ensures HasEntry(EntriesOf(e), key) <==> Mentions(e, key.projectId, key.hourBucket, key.category, key.reason)
  {
    HourExactly(e.timestamp, key.hourBucket);
    if Mentions(e, key.projectId, key.hourBucket, key.category, key.reason) {
      var j :| 0 <= j < |e.payload.value.outcomes|
               && e.payload.value.outcomes[j].category == key.category && e.payload.value.outcomes[j].reason == key.reason;
      assert EntriesOf(e)[j].0 == key;
    }
  }

  ghost predicate SomeMentions(events: seq<Event>, key: OutcomeKey) {
    exists i :: 0 <= i < |events| && Mentions(events[i], key.projectId, key.hourBucket, key.category, key.reason)
  }

  lemma SomeMentionsFirst(events: seq<Event>, key: OutcomeKey)
    requires events != []
    ensures SomeMentions(events, key) <==>
      Mentions(events[0], key.projectId, key.hourBucket, key.category, key.reason) || SomeMentions(events[1..], key)
  {
    hide Mentions;
    assert forall i :: 0 < i < |events| ==> events[i] == events[1..][i - 1];
    if SomeMentions(events[1..], key) {
      var i :| 0 <= i < |events[1..]| && Mentions(events[1..][i], key.projectId, key.hourBucket, key.category, key.reason);
      assert events[i + 1] == events[1..][i];
    }
  }

  lemma {:induction false} EntryIsMention(events: seq<Event>, key: OutcomeKey)
    ensures HasEntry(Entries(Matching(events, IsReport)), key) <==> SomeMentions(events, key)
  {
    if events != [] {
      hide HasEntry, EntriesOf, SomeMentions;
      var rest := Matching(events[1..], IsReport);
      EntryIsMention(events[1..], key);
      SomeMentionsFirst(events, key);
      if IsReport(events[0]) {
        assert Matching(events, IsReport) == [events[0]] + rest;
        EntriesFirst(events[0], rest);
        HasEntryConcat(EntriesOf(events[0]), Entries(rest), key);
        EntryOfReport(events[0], key);
      } else {
        assert Matching(events, IsReport) == [] + rest == rest;
      }
    }
  }

  /** The group-by of the reports read is the rollup of the stored reports. */
  lemma GroupByIsRollup(table: map<OutcomeKey, nat>, events: seq<Event>)
    requires IsGroupBy(table, Entries(Matching(events, IsReport)), I64_MAX)
    ensures IsRollup(table, events)
  {
    hide Entries, Mentions, QuantityStored, TotalOf;
    var entries := Entries(Matching(events, IsReport));
    forall projectId, hour, category, reason
      ensures var key := OutcomeKey(projectId, hour, category, reason);
              && (key in table <==> exists i :: 0 <= i < |events| && Mentions(events[i], projectId, hour, category, reason))
              && (key in table ==>
                    table[key] == Min(QuantityStored(events, projectId, hour, category, reason), I64_MAX))
    {
      var key := OutcomeKey(projectId, hour, category, reason);
      EntryIsMention(events, key);
      TotalIsQuantity(events, key);
      assert key in table <==> HasEntry(entries, key);
      assert SomeMentions(events, key) <==>
        exists i :: 0 <= i < |events| && Mentions(events[i], projectId, hour, category, reason);
    }
  }

  datatype BackfillResult = Completed(read: nat) | AlreadyDone | Failed

  class Database {
    var events: seq<Event>
    var clientReportOutcomes: map<OutcomeKey, nat>
    var backfillDone: bool

    constructor (events: seq<Event>, rollup: map<OutcomeKey, nat>, done: bool)
      ensures this.events == events && clientReportOutcomes == rollup && backfillDone == done
    {
      this.events, clientReportOutcomes, backfillDone := events, rollup, done;
    }

    /**
     The backfill. The transaction is all or nothing: a failed or repeated run changes
     nothing, and a completed one leaves exactly the group-by of the stored reports, whatever
     the rollup held before and whatever the page size. A page size of 0 would mark an empty
     rollup done.
     */
    method BackfillClientReportOutcomes(chunk: nat, breaksAfter: Option<nat>) returns (result: BackfillResult)
      requires Sorted(events)
      modifies this`clientReportOutcomes, this`backfillDone
      ensures old(backfillDone) <==> result == AlreadyDone
      ensures !old(backfillDone) && breaksAfter == None ==> result.Completed?
      ensures !result.Completed? ==>
                clientReportOutcomes == old(clientReportOutcomes) && backfillDone == old(backfillDone)
      ensures result.Completed? ==> backfillDone
      ensures result.Completed? && chunk >= 1 ==>
                && result.read == |Matching(events, IsReport)|
                && IsGroupBy(clientReportOutcomes, Entries(Matching(events, IsReport)), I64_MAX)
                && IsRollup(clientReportOutcomes, events)
      ensures result.Completed? && chunk == 0 ==> result.read == 0 && clientReportOutcomes == map[]
    {
      hide IsGroupBy, Entries, IsRollup;
      if backfillDone {
        return AlreadyDone;
      }
      var ok, outcomes, read := AccumulateAll(events, chunk, breaksAfter);
      if !ok {
        return Failed;
      }
      clientReportOutcomes := RebuildRollup(outcomes, Entries(Matching(events, IsReport)));
      if chunk >= 1 {
        GroupByIsRollup(clientReportOutcomes, events);
      }
      backfillDone := true;
      return Completed(read);
    }
  }

  // ---- Exactly once ------------------------------------------------------------------------

  /** The rollup the reports determine does not depend on who computed it. */
  lemma {:induction false} GroupByIsUnique(a: map<OutcomeKey, nat>, b: map<OutcomeKey, nat>, entries: seq<(OutcomeKey, u64)>, cap: nat)
    requires IsGroupBy(a, entries, cap) && IsGroupBy(b, entries, cap)
    ensures a == b
  {
    assert a.Keys == b.Keys;
  }

  /** Every report with a payload and a non-empty id is read, and each id is read once. */
  lemma {:induction false} EachReportOnce(events: seq<Event>, e: Event)
    requires Sorted(events)
    ensures e in Matching(events, IsReport) <==>
      e in events && e.itemType == ItemType.ClientReport && e.payload.Some? && e.id != ""
    ensures forall i, j :: 0 <= i < j < |Matching(events, IsReport)| ==>
      Matching(events, IsReport)[i].id != Matching(events, IsReport)[j].id
  {
    MatchingSorted(events, IsReport);
    var reports := Matching(events, IsReport);
    forall i, j | 0 <= i < j < |reports|
      ensures reports[i].id != reports[j].id
    {
      LessIrreflexive(reports[i].id);
    }
    MatchingKeeps(events, IsReport, e);
  }

  lemma {:induction false} MatchingKeeps(rows: seq<Event>, sel: Event -> bool, e: Event)
    ensures e in rows && sel(e) <==> e in Matching(rows, sel)
  {
    if rows != [] {
      MatchingKeeps(rows[1..], sel, e);
      assert e in rows <==> e == rows[0] || e in rows[1..];
    }
  }
}
