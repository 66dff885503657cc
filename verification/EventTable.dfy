/**
 The event table as the offline backfills read it: rows in primary-key order, pages taken by
 key (`event_id > after ORDER BY event_id LIMIT chunk`). A payload stands for what the
 decoders extract from it.
 */
module EventTable {
  import opened MachineTypes
  import opened Options

  datatype ItemType = Transaction | ClientReport | Other

  /** One dropped-event entry of a client report. */
  datatype Outcome = Outcome(category: string, reason: string, quantity: u64)

  /** What a stored payload decodes to; `trace` is `None` when it cannot be decompressed. */
  datatype Payload = Payload(outcomes: seq<Outcome>, trace: Option<(Option<string>, Option<string>)>)

  datatype Event = Event(id: string, itemType: ItemType, projectId: int, timestamp: int,
                         payload: Option<Payload>, traceOp: Option<string>, traceStatus: Option<string>)

  /** Text order of event ids. */
  predicate Less(a: string, b: string) {
    if b == "" then false
    else if a == "" then true
    else a[0] < b[0] || (a[0] == b[0] && Less(a[1..], b[1..]))
  }

  lemma {:induction false} LessIrreflexive(a: string)
    ensures !Less(a, a)
  {
    if a != "" {
      LessIrreflexive(a[1..]);
    }
  }

  lemma {:induction false} LessAsymmetric(a: string, b: string)
    requires Less(a, b)
    ensures !Less(b, a)
  {
    if a != "" && a[0] == b[0] {
      LessAsymmetric(a[1..], b[1..]);
    }
  }

  /** The first text is a proper prefix of the second, or smaller at the first difference. */
  predicate DiffersAt(a: string, b: string, k: nat) {
    k <= |a| && k < |b| && a[..k] == b[..k] && (k < |a| ==> a[k] < b[k])
  }

  lemma {:induction false} LessExactly(a: string, b: string)
    ensures Less(a, b) <==> exists k: nat :: DiffersAt(a, b, k)
  {
    if a != "" && b != "" {
      LessExactly(a[1..], b[1..]);
      if k: nat :| DiffersAt(a, b, k) {
        if k > 0 {
          assert a[..k][0] == a[0] && b[..k][0] == b[0];
          assert a[1..][..k - 1] == a[..k][1..] && b[1..][..k - 1] == b[..k][1..];
          assert DiffersAt(a[1..], b[1..], k - 1);
        }
      }
      if a[0] == b[0] {
        if k: nat :| DiffersAt(a[1..], b[1..], k) {
          assert a[..k + 1] == [a[0]] + a[1..][..k] && b[..k + 1] == [b[0]] + b[1..][..k];
          assert DiffersAt(a, b, k + 1);
        }
      } else if a[0] < b[0] {
        assert DiffersAt(a, b, 0);
      }
    } else if b != "" {
      assert DiffersAt(a, b, 0);
    }
  }

  /** The table is stored in primary-key order, and keys are unique. */
  ghost predicate Sorted(rows: seq<Event>) {
    forall i, j :: 0 <= i < j < |rows| ==> Less(rows[i].id, rows[j].id)
  }

  function Matching(rows: seq<Event>, sel: Event -> bool): (r: seq<Event>)
    ensures |r| <= |rows| && forall i :: 0 <= i < |r| ==> sel(r[i]) && r[i] in rows
  {
    if rows == [] then []
    else (if sel(rows[0]) then [rows[0]] else []) + Matching(rows[1..], sel)
  }

  /** The rows past a key. */
  function After(rows: seq<Event>, key: string): (r: seq<Event>)
    ensures |r| <= |rows|
  {
    if rows == [] then []
    else (if Less(key, rows[0].id) then [rows[0]] else []) + After(rows[1..], key)
  }

  function Page(rows: seq<Event>, sel: Event -> bool, after: string, chunk: nat): seq<Event> {
    var rest := After(Matching(rows, sel), after);
    if |rest| <= chunk then rest else rest[..chunk]
  }

  lemma {:induction false} MatchingSorted(rows: seq<Event>, sel: Event -> bool)
    requires Sorted(rows)
    ensures Sorted(Matching(rows, sel))
  {
    if rows != [] {
      MatchingSorted(rows[1..], sel);
      var rest := Matching(rows[1..], sel);
      forall j | 0 <= j < |rest|
        ensures Less(rows[0].id, rest[j].id)
      {
        var k :| 0 <= k < |rows[1..]| && rows[1..][k] == rest[j];
        assert rows[k + 1] == rest[j];
      }
    }
  }

  lemma {:induction false} AllAfter(rows: seq<Event>, key: string)
    requires forall i :: 0 <= i < |rows| ==> Less(key, rows[i].id)
    ensures After(rows, key) == rows
  {
    if rows != [] {
      AllAfter(rows[1..], key);
    }
  }

  /** In a sorted table, the rows past the key of row `n - 1` are the rows from `n`. */
  lemma {:induction false} AfterIsSuffix(rows: seq<Event>, n: nat)
    requires Sorted(rows) && 1 <= n <= |rows|
    ensures After(rows, rows[n - 1].id) == rows[n..]
  {
    var key := rows[n - 1].id;
    if n == 1 {
      LessIrreflexive(key);
      AllAfter(rows[1..], key);
    } else {
      LessAsymmetric(rows[0].id, key);
      AfterIsSuffix(rows[1..], n - 1);
      assert rows[1..][n - 1..] == rows[n..];
    }
  }

  /** The next page starts where the last one ended, whatever the page size. */
  lemma {:induction false} NextPage(rows: seq<Event>, from: nat, n: nat, after: string)
    requires Sorted(rows) && from <= n <= |rows| && from < n
    requires After(rows, after) == rows[from..]
    ensures After(rows, rows[n - 1].id) == rows[n..]
  {
    AfterIsSuffix(rows, n);
  }
}
