/** Event and job records on the heap, and `addEvent` on them. */
module EventRecords {
  import opened EventChain
  import opened Sequences

  class EventRecord {
    var next: EventRecord?
    var kind: int
    var jStatus: nat
    var reasons: nat
    var timeStamp: int
    var timeEvent: int
    var idx: int

    /** A record as the `read_*` functions fill it in. */
    constructor (e: Event)
      ensures View() == e && next == null
    {
      next := null;
      kind, jStatus, reasons, timeStamp, timeEvent, idx := e.kind, e.status, e.reasons, e.time, e.timeEvent, e.idx;
    }

    function View(): Event
      reads this`kind, this`jStatus, this`reasons, this`timeStamp, this`timeEvent, this`idx
    {
      Event(kind, jStatus, reasons, timeStamp, timeEvent, idx)
    }
  }

  /** Records linked by `next`, the last one ending the chain. */
  ghost predicate Linked(s: seq<EventRecord>)
    reads s`next
  {
    forall i :: 0 <= i < |s| ==> s[i].next == if i + 1 < |s| then s[i + 1] else null
  }

  class JobRecord {
    const jobId: int
    const submitTime: int
    var forw: JobRecord?  // the neighbours in the list of all jobs
    var back: JobRecord?
    var eventhead: EventRecord?
    var eventtail: EventRecord?
    var nonNewFromHead: bool
    var currentStatus: nat
    var reasons: nat
    var endTime: int
    ghost var chain: seq<EventRecord>
    ghost var events: seq<Event>  // the records of the chain, as values
    ghost var tail: nat           // position of `eventtail` in the chain

    /** The chain from `eventhead`, with `eventtail` somewhere in it. */
    ghost predicate Valid()
      reads this`eventhead, this`eventtail, this`chain, this`events, this`tail, chain
    {
      && Distinct(chain) && Linked(chain)
      && |events| == |chain| && (forall i :: 0 <= i < |chain| ==> events[i] == chain[i].View())
      && eventhead == (if chain == [] then null else chain[0])
      && (if chain == [] then eventtail == null else tail < |chain| && eventtail == chain[tail])
    }

    /** What the record stands for. */
    ghost function Model(): Job
      reads this`events, this`tail, this`nonNewFromHead, this`currentStatus, this`reasons, this`endTime
    {
      Job(events, tail, nonNewFromHead, currentStatus, reasons, endTime)
    }

    /** As `addJob` leaves a new record. */
    constructor (jobId: int, submitTime: int)
      ensures this.jobId == jobId && this.submitTime == submitTime && forw == null && back == null
      ensures Valid() && Model() == NEW_JOB
    {
      this.jobId, this.submitTime, forw, back := jobId, submitTime, null, null;
      eventhead, eventtail, nonNewFromHead := null, null, false;
      currentStatus, reasons, endTime := STAT_PEND, 0, 0;
      chain, events, tail := [], [], 0;
    }

    /** As `addJob` resets a record that was filled in. */
    method Reset()
      modifies this`eventhead, this`eventtail, this`chain, this`events, this`tail, this`nonNewFromHead
      modifies this`currentStatus, this`endTime
      ensures Valid() && Model() == NEW_JOB.(reasons := reasons)
    {
      currentStatus, endTime := STAT_PEND, 0;
      eventhead, eventtail, nonNewFromHead := null, null, false;
      chain, events, tail := [], [], 0;
    }

    /** The head of `addEvent`: status fields, and the tail moved back to the head. */
    method Prepare(event: EventRecord, readFromHead: bool, logOpen: bool)
      requires Valid()
      modifies this`currentStatus, this`reasons, this`endTime, this`eventtail, this`tail, this`nonNewFromHead
      ensures Valid()
      ensures Model() == Prepared(old(Model()), Call(event.View(), readFromHead, logOpen))
    {
      hide Distinct, Linked, Has;
      currentStatus := event.jStatus;
      reasons := event.reasons;
      if Has(event.jStatus, STAT_DONE) || Has(event.jStatus, STAT_EXIT) {
        endTime := event.timeStamp;
      }
      if !readFromHead && nonNewFromHead && logOpen && event.kind != JOB_NEW {
        eventtail := eventhead;
        nonNewFromHead := false;
        tail := 0;
      }
    }

    /** The tests of `addEvent` against the record at the tail. */
    method Passes(event: EventRecord) returns (ok: bool)
      requires Valid() && chain != []
      ensures ok <==> Accepts(event.View(), events[tail])
    {
      var last := eventtail;
      if event.kind == JOB_SWITCH {
        ok := !(event.timeStamp < last.timeStamp || (event.timeStamp == last.timeStamp && event.kind == last.kind));
      } else if event.kind == MIG || event.kind == CHKPNT || event.kind == JOB_SIGACT {
        ok := !(event.timeStamp < last.timeStamp);
      } else {
        ok := !(event.timeStamp < last.timeStamp
                || (event.timeStamp == last.timeStamp && event.kind == last.kind && event.jStatus == last.jStatus
                    && event.idx == last.idx && event.timeEvent == last.timeEvent));
      }
    }

    /** Links an accepted event behind the tail; whatever followed the tail is dropped. */
    method Link(event: EventRecord)
      requires Valid() && event !in chain && event.next == null
      modifies this`eventhead, this`eventtail, this`chain, this`events, this`tail, chain`next
      ensures Valid() && chain == (if old(chain) == [] then [event] else old(chain)[..old(tail) + 1] + [event])
      ensures events == (if old(chain) == [] then [event.View()] else old(events)[..old(tail) + 1] + [event.View()])
      ensures tail == |events| - 1
    {
      if eventhead == null {
        eventhead := event;
        chain, events := [event], [event.View()];
      } else {
        eventtail.next := event;
        chain, events := chain[..tail + 1] + [event], events[..tail + 1] + [event.View()];
      }
      eventtail := event;
      tail := |events| - 1;
    }

    /** The rest of `addEvent`. */
    method Settle(event: EventRecord, readFromHead: bool, ghost c: Call) returns (rc: int)
      requires Valid() && event !in chain && event.next == null && c.event == event.View() && c.readFromHead == readFromHead
      modifies this`eventhead, this`eventtail, this`chain, this`events, this`tail, this`nonNewFromHead, chain`next
      ensures Valid() && Model() == Settled(old(Model()), c)
      ensures forall k :: 0 <= k < |chain| ==> chain[k] == event || (k < |old(chain)| && chain[k] == old(chain)[k])
      ensures rc == if Fits(old(Model()), c.event) then 0 else -1
    {
      hide Accepts, Distinct, Linked;
      if eventhead != null {
        var ok := Passes(event);
        if !ok {
          return -1;
        }
      }
      Link(event);
      if readFromHead && event.kind != JOB_NEW {
        nonNewFromHead := true;
      }
      rc := 0;
    }

    /** `addEvent`; the result is -1 when the event is rejected. */
    method Add(event: EventRecord, readFromHead: bool, logOpen: bool) returns (rc: int)
      requires Valid() && event !in chain
      modifies this`eventhead, this`eventtail, this`chain, this`events, this`tail, this`nonNewFromHead
      modifies this`currentStatus, this`reasons, this`endTime, event`next, chain`next
      ensures Valid() && Model() == AddEvent(old(Model()), Call(event.View(), readFromHead, logOpen))
      ensures forall k :: 0 <= k < |chain| ==> chain[k] == event || (k < |old(chain)| && chain[k] == old(chain)[k])
      ensures rc == if Accepted(old(Model()), Call(event.View(), readFromHead, logOpen)) then 0 else -1
    {
      hide Settled, Prepared, Fits, Distinct, Linked;
      event.next := null;
      Prepare(event, readFromHead, logOpen);
      rc := Settle(event, readFromHead, Call(event.View(), readFromHead, logOpen));
    }
  }
}
