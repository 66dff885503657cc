/**
 The filter and attachment loop of the envelope endpoint (`src/endpoints/envelope.rs`) and its
 all-or-nothing send (`src/writer/handle.rs`).
 */
module Envelope {
  import opened Options

  datatype Event = Event(id: string, body: string)

  datatype Attachment = Attachment(eventId: string, name: string, data: string)

  /** What the parser hands over. */
  datatype Parsed = Parsed(events: seq<Event>, attachments: seq<Attachment>, envelopeEventId: Option<string>)

  /** An event with the attachments queued behind it. */
  type Queued = (Event, seq<Attachment>)

  /** Enrichment and the filter's verdict are parameters: any function of the event. */
  datatype Pipeline = Pipeline(enrich: Event -> Event, drops: Event -> bool) {
    function Kept(events: seq<Event>): (kept: seq<Event>)
      ensures |kept| <= |events|
    {
      if events == [] then []
      else
        var n := |events| - 1;
        Kept(events[..n]) + if drops(enrich(events[n])) then [] else [enrich(events[n])]
    }
  }

  function Relabel(atts: seq<Attachment>, id: string): seq<Attachment> {
    seq(|atts|, i requires 0 <= i < |atts| => atts[i].(eventId := id))
  }

  /** An event the attachments belong to: the one the envelope names, or the only one parsed. */
  predicate IsTarget(p: Parsed, e: Event) {
    match p.envelopeEventId
    case Some(id) => id == e.id
    case None => |p.events| == 1
  }

  /** The index of the first target among the kept events. */
  function FirstTarget(p: Parsed, kept: seq<Event>): (r: Option<nat>)
    ensures r.Some? ==> r.value < |kept| && IsTarget(p, kept[r.value])
    ensures forall i :: 0 <= i < (if r.Some? then r.value else |kept|) ==> !IsTarget(p, kept[i])
  {
    if kept == [] then None
    else
      var n := |kept| - 1;
      match FirstTarget(p, kept[..n])
      case Some(i) => Some(i)
      case None => if IsTarget(p, kept[n]) then Some(n) else None
  }

  /** What is queued: the kept events in order, the first target carrying every attachment. */
  function Plan(p: Parsed, kept: seq<Event>): seq<Queued> {
    seq(|kept|, i requires 0 <= i < |kept| =>
      (kept[i], if FirstTarget(p, kept) == Some(i) then Relabel(p.attachments, kept[i].id) else []))
  }

  lemma {:induction false} PlanNext(p: Parsed, kept: seq<Event>, e: Event)
    ensures Plan(p, kept + [e])
            == Plan(p, kept) + [(e, if FirstTarget(p, kept).None? && IsTarget(p, e) then Relabel(p.attachments, e.id) else [])]
    ensures FirstTarget(p, kept + [e]).None? <==> FirstTarget(p, kept).None? && !IsTarget(p, e)
  {
    assert (kept + [e])[..|kept|] == kept;
  }

  lemma PlanNothing(p: Parsed)
    ensures Plan(p, []) == [] && FirstTarget(p, []).None?
  {
  }

  datatype Response = Accepted(discarded: nat) | Overloaded

  function DataBytes(atts: seq<Attachment>): nat {
    if atts == [] then 0 else |atts[0].data| + DataBytes(atts[1..])
  }

  /** The byte weight an envelope reserves: payloads and attachment data. */
  function Weight(events: seq<Queued>): nat {
    if events == [] then 0 else |events[0].0.body| + DataBytes(events[0].1) + Weight(events[1..])
  }

  class Writer {
    var queue: seq<Queued>
    var queuedBytes: nat
    var cancelled: bool
    const capacity: nat
    const maxQueuedBytes: nat

    constructor (capacity: nat, maxQueuedBytes: nat)
      ensures queue == [] && queuedBytes == 0 && !cancelled
      ensures this.capacity == capacity && this.maxQueuedBytes == maxQueuedBytes
    {
      queue, queuedBytes, cancelled := [], 0, false;
      this.capacity, this.maxQueuedBytes := capacity, maxQueuedBytes;
    }

    /** The writer has room for all of them, in bytes and in messages. */
    predicate Takes(events: seq<Queued>)
      reads this
    {
      !cancelled && (events == [] || (queuedBytes + Weight(events) <= maxQueuedBytes && |queue| + |events| <= capacity))
    }

    /** Reserve the bytes, then one place per event, then queue; any refusal leaves everything as it was. */
    method SendEnvelope(events: seq<Queued>) returns (accepted: bool)
      modifies this`queue, this`queuedBytes
      ensures accepted <==> old(Takes(events))
      ensures queue == old(queue) + if accepted then events else []
      ensures queuedBytes == old(queuedBytes) + if accepted then Weight(events) else 0
    {
      if cancelled {
        return false;
      }
      if events == [] {
        return true;
      }
      var total := Weight(events);
      queuedBytes := queuedBytes + total;
      if queuedBytes > maxQueuedBytes {
        queuedBytes := queuedBytes - total;
        return false;
      }
      if |queue| + |events| > capacity {
        queuedBytes := queuedBytes - total;
        return false;
      }
      queue := queue + events;
      return true;
    }
  }

  lemma KeptNext(pipe: Pipeline, events: seq<Event>, n: nat)
    requires n < |events|
    ensures pipe.Kept(events[..n + 1])
            == pipe.Kept(events[..n]) + if pipe.drops(pipe.enrich(events[n])) then [] else [pipe.enrich(events[n])]
  {
    assert events[..n + 1][..n] == events[..n];
  }

  /** The loop: filter, hand attachments to the first target, count what was filtered. */
  method Resolve(p: Parsed, pipe: Pipeline) returns (toSend: seq<Queued>, filtered: nat)
    ensures toSend == Plan(p, pipe.Kept(p.events))
    ensures filtered + |toSend| == |p.events|
  {
    hide Plan, FirstTarget, IsTarget;
    toSend, filtered := [], 0;
    var pending := p.attachments;
    PlanNothing(p);
    assert p.events[..0] == [];
    for n := 0 to |p.events|
      invariant toSend == Plan(p, pipe.Kept(p.events[..n])) && filtered + |toSend| == n
      invariant pending == if FirstTarget(p, pipe.Kept(p.events[..n])).None? then p.attachments else []
    {
      ghost var kept := pipe.Kept(p.events[..n]);
      KeptNext(pipe, p.events, n);
      var event := pipe.enrich(p.events[n]);
      if pipe.drops(event) {
        filtered := filtered + 1;
        assert kept + [] == kept;
        continue;
      }
      PlanNext(p, kept, event);
      var atts: seq<Attachment> := [];
      if IsTarget(p, event) {
        atts := Relabel(pending, event.id);
        assert pending == [] ==> atts == [];
        pending := [];
      }
      toSend := toSend + [(event, atts)];
    }
    assert p.events[..|p.events|] == p.events;
  }

  /** The endpoint after parsing: resolve every event, then queue the whole envelope or nothing. */
  method Handle(p: Parsed, pipe: Pipeline, writer: Writer) returns (response: Response)
    modifies writer
    ensures var planned := Plan(p, pipe.Kept(p.events));
            if old(writer.Takes(planned)) then
              writer.queue == old(writer.queue) + planned && response == Accepted(|p.events| - |planned|)
            else writer.queue == old(writer.queue) && writer.queuedBytes == old(writer.queuedBytes) && response == Overloaded
    ensures writer.cancelled == old(writer.cancelled)
  {
    var toSend, filtered := Resolve(p, pipe);
    var ok := writer.SendEnvelope(toSend);
    response := if ok then Accepted(filtered) else Overloaded;
  }

  // ---- What the plan is --------------------------------------------------------------------

  function AttachmentsOf(queued: seq<Queued>): seq<Attachment> {
    if queued == [] then [] else AttachmentsOf(queued[..|queued| - 1]) + queued[|queued| - 1].1
  }

  lemma {:induction false} AttachmentsOfPlan(p: Parsed, kept: seq<Event>)
    ensures AttachmentsOf(Plan(p, kept))
            == match FirstTarget(p, kept)
               case Some(i) => Relabel(p.attachments, kept[i].id)
               case None => []
  {
    if kept == [] {
      assert Plan(p, kept) == [];
    } else {
      var n := |kept| - 1;
      assert kept == kept[..n] + [kept[n]];
      AttachmentsOfPlan(p, kept[..n]);
      PlanNext(p, kept[..n], kept[n]);
      var planned := Plan(p, kept);
      assert planned[..n] == Plan(p, kept[..n]);
    }
  }

  /** Every attachment of the envelope, in order, under the id of event `id`, otherwise as it came. */
  ghost predicate CarriedUnder(queued: seq<Attachment>, atts: seq<Attachment>, id: string) {
    |queued| == |atts| && forall k :: 0 <= k < |atts| ==>
      queued[k].eventId == id && queued[k].name == atts[k].name && queued[k].data == atts[k].data
  }

  /**
   Whatever the filter drops: the queued events are the unfiltered ones in order; the
   envelope's attachments are queued exactly once, relabelled with the id of one event, or not
   at all; with an envelope id that event is the first unfiltered one bearing it, without one
   it is the only event of the envelope.
   */
  lemma {:induction false} AttachmentsAllOrNothing(p: Parsed, pipe: Pipeline)
    ensures var kept := pipe.Kept(p.events);
            var queued := Plan(p, kept);
            && |queued| == |kept| && (forall i :: 0 <= i < |queued| ==> queued[i].0 == kept[i])
            && (forall i :: 0 <= i < |queued| ==>
                 if FirstTarget(p, kept) == Some(i) then CarriedUnder(queued[i].1, p.attachments, kept[i].id)
                 else queued[i].1 == [])
            && (match FirstTarget(p, kept)
                case Some(i) => CarriedUnder(AttachmentsOf(queued), p.attachments, kept[i].id)
                case None => AttachmentsOf(queued) == [])
            && (p.envelopeEventId.None? && |p.events| != 1 ==> FirstTarget(p, kept).None?)
            && (p.envelopeEventId.None? && |kept| == |p.events| == 1 ==> FirstTarget(p, kept) == Some(0))
            && (p.envelopeEventId.Some? ==>
                  match FirstTarget(p, kept)
                  case Some(i) =>
                    kept[i].id == p.envelopeEventId.value && forall j :: 0 <= j < i ==> kept[j].id != p.envelopeEventId.value
                  case None => forall j :: 0 <= j < |kept| ==> kept[j].id != p.envelopeEventId.value)
  {
    hide FirstTarget, IsTarget, Relabel, CarriedUnder, AttachmentsOf;
    var kept := pipe.Kept(p.events);
    AttachmentsOfPlan(p, kept);
    TargetIs(p, kept);
    if |kept| == 1 {
      SoleTarget(p, kept);
    }
    if FirstTarget(p, kept).Some? {
      RelabelCarries(p.attachments, kept[FirstTarget(p, kept).value].id);
    }
  }

  lemma RelabelCarries(atts: seq<Attachment>, id: string)
    ensures CarriedUnder(Relabel(atts, id), atts, id)
  {
  }

  /** The first target, by the envelope's id or by being alone. */
  lemma TargetIs(p: Parsed, kept: seq<Event>)
    ensures p.envelopeEventId.None? && |p.events| != 1 ==> FirstTarget(p, kept).None?
    ensures p.envelopeEventId.Some? ==>
              match FirstTarget(p, kept)
              case Some(i) =>
                kept[i].id == p.envelopeEventId.value && forall j :: 0 <= j < i ==> kept[j].id != p.envelopeEventId.value
              case None => forall j :: 0 <= j < |kept| ==> kept[j].id != p.envelopeEventId.value
  {
  }

  lemma SoleTarget(p: Parsed, kept: seq<Event>)
    requires |kept| == 1
    ensures p.envelopeEventId.None? && |p.events| == 1 ==> FirstTarget(p, kept) == Some(0)
  {
    assert kept[..0] == [];
  }

  // ---- What the writer reserves ------------------------------------------------------------

  /** All payloads, one after the other. */
  function AllBodies(events: seq<Event>): string {
    if events == [] then "" else AllBodies(events[..|events| - 1]) + events[|events| - 1].body
  }

  /** All attachment data, one after the other. */
  function AllData(atts: seq<Attachment>): string {
    if atts == [] then "" else atts[0].data + AllData(atts[1..])
  }

  lemma {:induction false} DataIsCounted(atts: seq<Attachment>)
    ensures DataBytes(atts) == |AllData(atts)|
  {
    if atts != [] {
      DataIsCounted(atts[1..]);
    }
  }

  lemma {:induction false} WeightOfConcat(a: seq<Queued>, b: seq<Queued>)
    ensures Weight(a + b) == Weight(a) + Weight(b)
  {
    if a == [] {
      assert a + b == b;
    } else {
      assert (a + b)[1..] == a[1..] + b;
      WeightOfConcat(a[1..], b);
    }
  }

  /** Relabelling does not change the weight. */
  lemma {:induction false} CarriedWeight(queued: seq<Attachment>, atts: seq<Attachment>, id: string)
    requires CarriedUnder(queued, atts, id)
    ensures DataBytes(queued) == DataBytes(atts)
  {
    if atts != [] {
      CarriedWeight(queued[1..], atts[1..], id);
    }
  }

  /**
   The bytes an envelope reserves are those of the kept payloads, and those of its attachments
   once if they have an event to go to.
   */
  lemma {:induction false} PlanWeighs(p: Parsed, kept: seq<Event>)
    ensures Weight(Plan(p, kept))
            == |AllBodies(kept)| + if FirstTarget(p, kept).Some? then |AllData(p.attachments)| else 0
  {
    DataIsCounted(p.attachments);
    if kept != [] {
      hide Plan, FirstTarget, IsTarget;
      var n := |kept| - 1;
      var init, e := kept[..n], kept[n];
      assert kept == init + [e];
      PlanWeighs(p, init);
      PlanNext(p, init, e);
      var last := (e, if FirstTarget(p, init).None? && IsTarget(p, e) then Relabel(p.attachments, e.id) else []);
      WeightOfConcat(Plan(p, init), [last]);
      WeightOfOne(last);
      CarriedWeight(Relabel(p.attachments, e.id), p.attachments, e.id);
    } else {
      PlanNothing(p);
    }
  }

  lemma WeightOfOne(q: Queued)
    ensures Weight([q]) == |q.0.body| + DataBytes(q.1)
  {
    assert Weight([]) == 0;
  }
}
