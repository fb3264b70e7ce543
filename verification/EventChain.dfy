/**
 The events of one job as `bhist` replays them: `addEvent` appends to a linked
 chain, rejects what is out of order or repeated, and may move the tail back to
 the head when the current log file is opened after an older one was read.
 */
module EventChain {

  const JOB_NEW: int := 1
  const JOB_SWITCH: int := 4
  const CHKPNT: int := 12
  const MIG: int := 13
  const JOB_SIGACT: int := 22

  const STAT_PEND: nat := 0x01
  const STAT_PSUSP: nat := 0x02
  const STAT_RUN: nat := 0x04
  const STAT_SSUSP: nat := 0x08
  const STAT_USUSP: nat := 0x10
  const STAT_EXIT: nat := 0x20
  const STAT_DONE: nat := 0x40
  const STAT_PDONE: nat := 0x80
  const STAT_PERR: nat := 0x100
  const STAT_WAIT: nat := 0x200

  /** Whether the single bit `bit` is set in `word`. */
  predicate Has(word: nat, bit: nat)
    requires bit > 0
  {
    word / bit % 2 == 1
  }

  /** The fields of an event record that matter to the chain and to the accounting. */
  datatype Event = Event(kind: int, status: nat, reasons: nat, time: int, timeEvent: int, idx: int)

  /** The part of a job record that `addEvent` reads and writes. */
  datatype Job = Job(
    events: seq<Event>,      // reachable from eventhead
    tail: nat,               // position of eventtail in it
    nonNewFromHead: bool,
    currentStatus: nat,
    reasons: nat,
    endTime: int)

  const NEW_JOB := Job([], 0, false, STAT_PEND, 0, 0)

  /** One call of `addEvent`, with the two globals it looks at. */
  datatype Call = Call(event: Event, readFromHead: bool, logOpen: bool)

  predicate Sorted(events: seq<Event>) {
    forall i, j :: 0 <= i < j < |events| ==> events[i].time <= events[j].time
  }

  /** The tests that let an event in behind `last`. */
  predicate Accepts(e: Event, last: Event) {
    if e.kind == JOB_SWITCH then
      !(e.time < last.time || (e.time == last.time && e.kind == last.kind))
    else if e.kind == MIG || e.kind == CHKPNT || e.kind == JOB_SIGACT then
      !(e.time < last.time)
    else
      !(e.time < last.time
        || (e.time == last.time && e.kind == last.kind && e.status == last.status && e.idx == last.idx
            && e.timeEvent == last.timeEvent))
  }

  /** The status fields are overwritten before the event is looked at any further. */
  function NoteStatus(j: Job, e: Event): Job {
    j.(currentStatus := e.status, reasons := e.reasons,
       endTime := if Has(e.status, STAT_DONE) || Has(e.status, STAT_EXIT) then e.time else j.endTime)
  }

  predicate ResetsTail(j: Job, c: Call) {
    !c.readFromHead && j.nonNewFromHead && c.logOpen && c.event.kind != JOB_NEW
  }

  function ResetTail(j: Job, c: Call): Job {
    if ResetsTail(j, c) then j.(tail := 0, nonNewFromHead := false) else j
  }

  /** The head of a call: status noted, tail perhaps moved back. */
  function Prepared(j: Job, c: Call): (k: Job)
    ensures k.events == j.events && (k.tail == j.tail || k.tail == 0)
  {
    ResetTail(NoteStatus(j, c.event), c)
  }

  /** The event fits behind the tail. */
  predicate Fits(k: Job, e: Event)
    requires k.tail < |k.events| || k.events == []
  {
    k.events == [] || Accepts(e, k.events[k.tail])
  }

  predicate Accepted(j: Job, c: Call)
    requires j.tail < |j.events| || j.events == []
  {
    Fits(Prepared(j, c), c.event)
  }

  /** The rest of a call: the event is linked, or dropped. */
  function Settled(k: Job, c: Call): Job
    requires k.tail < |k.events| || k.events == []
  {
    if !Fits(k, c.event) then k
    else Appended(k, c.event).(nonNewFromHead := k.nonNewFromHead || (c.readFromHead && c.event.kind != JOB_NEW))
  }

  /** The job record after the call. */
  function AddEvent(j: Job, c: Call): Job
    requires j.tail < |j.events| || j.events == []
  {
    Settled(Prepared(j, c), c)
  }

  /** The event becomes the successor of the tail, and the tail. */
  function Appended(j: Job, e: Event): Job
    requires j.tail < |j.events| || j.events == []
  {
    var events := if j.events == [] then [e] else j.events[..j.tail + 1] + [e];
    j.(events := events, tail := |events| - 1)
  }

  /** What every call keeps. */
  predicate Ok(j: Job) {
    (j.tail < |j.events| || j.events == []) && Sorted(j.events)
  }

  lemma AddEventKeeps(j: Job, c: Call)
    requires Ok(j)
    ensures Ok(AddEvent(j, c))
    ensures j.events != [] ==> AddEvent(j, c).events != [] && AddEvent(j, c).events[0] == j.events[0]
    ensures j.events == [] ==> AddEvent(j, c).events == [c.event]
  {
    hide Prepared;
    var k := Prepared(j, c);
    if Fits(k, c.event) && k.events != [] {
      var kept := k.events[..k.tail + 1];
      assert forall i :: 0 <= i < |kept| ==> kept[i].time <= k.events[k.tail].time;
    }
  }

  /** The job record after a whole log. */
  function Replay(j: Job, calls: seq<Call>): Job
    requires Ok(j)
    decreases |calls|
  {
    if calls == [] then j else AddEventKeeps(j, calls[0]); Replay(AddEvent(j, calls[0]), calls[1..])
  }

  /** After any replay the chain is in order of time and still starts with its first event. */
  lemma {:induction false} ReplaySorted(j: Job, calls: seq<Call>)
    requires Ok(j)
    ensures Ok(Replay(j, calls))
    ensures j.events != [] ==> Replay(j, calls).events != [] && Replay(j, calls).events[0] == j.events[0]
    ensures j.events == [] && calls != [] ==>
              Replay(j, calls).events != [] && Replay(j, calls).events[0] == calls[0].event
    decreases |calls|
  {
    if calls != [] {
      AddEventKeeps(j, calls[0]);
      ReplaySorted(AddEvent(j, calls[0]), calls[1..]);
    }
  }

  /** A replay that never moves the tail back drops nothing: the chain only grows. */
  lemma {:induction false} ReplayGrows(j: Job, calls: seq<Call>)
    requires Ok(j) && (j.events != [] ==> j.tail == |j.events| - 1)
    requires forall i :: 0 <= i < |calls| ==> calls[i].readFromHead
    ensures j.events <= Replay(j, calls).events
    decreases |calls|
  {
    if calls != [] {
      AddEventKeeps(j, calls[0]);
      var k := AddEvent(j, calls[0]);
      assert j.events <= k.events;
      ReplayGrows(k, calls[1..]);
    }
  }

  // --------------------------------------------------- which events are kept
  // Event kinds: 1 is a new job, 4 a queue switch, 12 a checkpoint, 13 a
  // migration, 22 a signal action.

  /** An event that says the same as the one before it. */
  ghost predicate Repeats(e: Event, last: Event) {
    && e.time == last.time && e.kind == last.kind
    && (e.kind == 4
        || (e.kind !in {12, 13, 22} && e.status == last.status && e.idx == last.idx && e.timeEvent == last.timeEvent))
  }

  /** The event behind which a call puts its event. */
  ghost function TailFor(j: Job, c: Call): nat {
    if !c.readFromHead && j.nonNewFromHead && c.logOpen && c.event.kind != 1 then 0 else j.tail
  }

  /**
   One call, in full: the event goes behind the tail, and what stood there is cut
   off, unless the event lies before the tail in time or repeats it.
   */
  lemma AddEventIs(j: Job, c: Call)
    requires Ok(j)
    ensures var t, e, k := TailFor(j, c), c.event, AddEvent(j, c);
            && k.currentStatus == e.status && k.reasons == e.reasons
            && k.endTime == (if e.status / 0x40 % 2 == 1 || e.status / 0x20 % 2 == 1 then e.time else j.endTime)
            && (j.events == [] ==> k.events == [e] && k.tail == 0)
            && (j.events != [] ==>
                  if e.time < j.events[t].time || Repeats(e, j.events[t]) then k.events == j.events && k.tail == t
                  else k.events == j.events[..t + 1] + [e] && k.tail == t + 1)
  {
  }

  /** When a later call moves the tail back: once, after an event other than a submission came in from an old file. */
  lemma FlagIs(j: Job, c: Call)
    requires Ok(j)
    ensures var moved := !c.readFromHead && j.nonNewFromHead && c.logOpen && c.event.kind != 1;
            AddEvent(j, c).nonNewFromHead <==>
              (j.nonNewFromHead && !moved)
              || (c.readFromHead && c.event.kind != 1
                  && (j.events == []
                      || !(c.event.time < j.events[TailFor(j, c)].time || Repeats(c.event, j.events[TailFor(j, c)]))))
  {
  }

  ghost function Logged(calls: seq<Call>): seq<Event> {
    seq(|calls|, i requires 0 <= i < |calls| => calls[i].event)
  }

  /** Every event of the log follows the one before it, in time and without repeating it. */
  ghost predicate Follows(last: Event, calls: seq<Call>)
    decreases |calls|
  {
    calls == [] || (last.time <= calls[0].event.time && !Repeats(calls[0].event, last) && Follows(calls[0].event, calls[1..]))
  }

  ghost predicate AtEnd(j: Job) {
    j.events != [] && j.tail == |j.events| - 1
  }

  lemma {:induction false} ReplayLength(j: Job, calls: seq<Call>)
    requires Ok(j) && (j.events == [] || AtEnd(j)) && forall i :: 0 <= i < |calls| ==> calls[i].readFromHead
    ensures |Replay(j, calls).events| <= |j.events| + |calls|
    decreases |calls|
  {
    if calls != [] {
      AddEventKeeps(j, calls[0]);
      AddEventIs(j, calls[0]);
      hide AddEvent;
      ReplayLength(AddEvent(j, calls[0]), calls[1..]);
    }
  }

  lemma {:induction false} KeepsBehind(j: Job, calls: seq<Call>)
    requires Ok(j) && AtEnd(j) && forall i :: 0 <= i < |calls| ==> calls[i].readFromHead
    ensures Replay(j, calls).events == j.events + Logged(calls) <==> Follows(j.events[|j.events| - 1], calls)
    decreases |calls|
  {
    if calls == [] {
      assert j.events + Logged(calls) == j.events;
    } else {
      var last, e, k := j.events[|j.events| - 1], calls[0].event, AddEvent(j, calls[0]);
      AddEventKeeps(j, calls[0]);
      AddEventIs(j, calls[0]);
      hide AddEvent, Repeats;
      if last.time <= e.time && !Repeats(e, last) {
        assert j.events[..|j.events|] == j.events;
        KeepsBehind(k, calls[1..]);
        assert Logged(calls) == [e] + Logged(calls[1..]);
        assert j.events + Logged(calls) == k.events + Logged(calls[1..]);
      } else {
        ReplayLength(k, calls[1..]);
      }
    }
  }

  /**
   A log read from the head: the chain is exactly the logged events if and only if
   each is no earlier than the one before it and does not repeat it.
   */
  lemma {:induction false} ReplayKeepsAll(calls: seq<Call>)
    requires calls != [] && forall i :: 0 <= i < |calls| ==> calls[i].readFromHead
    ensures Replay(NEW_JOB, calls).events == Logged(calls) <==>
            forall i :: 0 < i < |calls| ==>
              calls[i - 1].event.time <= calls[i].event.time && !Repeats(calls[i].event, calls[i - 1].event)
  {
    var k := AddEvent(NEW_JOB, calls[0]);
    AddEventKeeps(NEW_JOB, calls[0]);
    AddEventIs(NEW_JOB, calls[0]);
    KeepsBehind(k, calls[1..]);
    FollowsAll(calls[0].event, calls[1..]);
    assert Logged(calls) == [calls[0].event] + Logged(calls[1..]);
    var e, rest := calls[0].event, calls[1..];
    forall i | 0 <= i < |rest|
      ensures FollowsAt(e, rest, i) <==>
              calls[i].event.time <= calls[i + 1].event.time && !Repeats(calls[i + 1].event, calls[i].event)
    {
      assert rest[i] == calls[i + 1];
    }
    hide Repeats;
    if forall i :: 0 <= i < |rest| ==> FollowsAt(e, rest, i) {
      forall i | 0 < i < |calls|
        ensures calls[i - 1].event.time <= calls[i].event.time && !Repeats(calls[i].event, calls[i - 1].event)
      {
        assert FollowsAt(e, rest, i - 1);
      }
    }
  }

  /** The event before call `i`. */
  ghost function EventBefore(last: Event, calls: seq<Call>, i: nat): Event
    requires i <= |calls|
  {
    if i == 0 then last else calls[i - 1].event
  }

  ghost predicate FollowsAt(last: Event, calls: seq<Call>, i: nat)
    requires i < |calls|
  {
    EventBefore(last, calls, i).time <= calls[i].event.time && !Repeats(calls[i].event, EventBefore(last, calls, i))
  }

  lemma {:induction false} FollowsAll(last: Event, calls: seq<Call>)
    ensures Follows(last, calls) <==> forall i :: 0 <= i < |calls| ==> FollowsAt(last, calls, i)
    decreases |calls|
  {
    hide Repeats;
    if calls != [] {
      var e, rest := calls[0].event, calls[1..];
      FollowsAll(e, rest);
      forall i | 0 <= i < |rest| ensures FollowsAt(e, rest, i) <==> FollowsAt(last, calls, i + 1) {
        assert rest[i] == calls[i + 1];
      }
      if forall i :: 0 <= i < |calls| ==> FollowsAt(last, calls, i) {
        assert FollowsAt(last, calls, 0);
        forall i | 0 <= i < |rest| ensures FollowsAt(e, rest, i) {
          assert FollowsAt(last, calls, i + 1);
        }
      }
      if Follows(last, calls) {
        forall i | 0 <= i < |calls| ensures FollowsAt(last, calls, i) {
          if i > 0 { assert FollowsAt(e, rest, i - 1); }
        }
      }
    }
  }
}
