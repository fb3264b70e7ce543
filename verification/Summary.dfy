/** The accounting loop of `displayhist`, over the linked records of one job. */
module Summary {
  import opened EventChain
  import opened EventRecords
  import opened Sequences
  import opened TimeAccounting
  import opened TimeColumns

  /** The inner loop: the next event that is not a queue switch. */
  method SkipSwitches(start: EventRecord?, ghost chain: seq<EventRecord>, ghost evs: seq<Event>, ghost i: nat)
    returns (next: EventRecord?)
    requires Linked(chain) && |evs| == |chain| && i <= |chain|
    requires forall k :: i <= k < |chain| ==> chain[k].View() == evs[k]
    requires start == if i < |chain| then chain[i] else null
    ensures var n := NextCounted(evs, i); next == if n < |chain| then chain[n] else null
  {
    next := start;
    ghost var k := i;
    while next != null && next.kind == JOB_SWITCH
      invariant i <= k <= |chain| && next == (if k < |chain| then chain[k] else null)
      invariant NextCounted(evs, k) == NextCounted(evs, i)
      decreases |chain| - k
    {
      next := next.next;
      k := k + 1;
    }
  }

  /** The switch statement that adds an interval to its columns. */
  method Charge(t: Totals, interval: int, status: nat, laststatus: nat, reasons: nat, more: bool, nextPostDone: bool)
    returns (u: Totals)
    ensures forall b :: u.Get(b) == t.Get(b) + (if Takes(b, status, laststatus, reasons, more, nextPostDone) then interval else 0)
  {
    u := t;
    if status == STAT_PSUSP {
      u := u.(psusp := u.psusp + interval);
    } else if status == STAT_PEND || status == STAT_RUN_WAIT {
      u := u.(pend := u.pend + interval);
    } else if status == STAT_RUN {
      u := u.(run := u.run + interval);
    } else if status == STAT_SSUSP {
      u := u.(ssusp := u.ssusp + interval);
    } else if status == STAT_USUSP {
      if laststatus == STAT_RUN_WAIT {
        u := u.(pend := u.pend + interval);
      } else {
        u := u.(ususp := u.ususp + interval);
      }
    } else if status == STAT_DONE {
      if Has(reasons, FINISH_PEND) || (more && !nextPostDone) {
        u := u.(pend := u.pend + interval);
      }
    } else if status == STAT_EXIT {
      if Has(reasons, EXIT_RERUN) || Has(reasons, FINISH_PEND) || more {
        u := u.(pend := u.pend + interval);
      }
      if Has(reasons, EXIT_KILL_ZOMBIE) || Has(reasons, EXIT_ZOMBIE) {
        u := u.(unkwn := u.unkwn + interval);
      }
    } else if !(Has(status, STAT_PDONE) || Has(status, STAT_PERR)) {
      u := u.(unkwn := u.unkwn + interval);
    }
  }

  /** The columns hold what has been spent up to `mark`. */
  ghost predicate UpTo(t: Totals, evs: seq<Event>, s: Setting, mark: int)
    requires evs != []
  {
    forall b :: t.Get(b) == Seconds(evs, b, s, evs[0].time, mark)
  }

  lemma Advance(t: Totals, u: Totals, evs: seq<Event>, i: nat, s: Setting, interval: int)
    requires Sorted(evs) && i < |evs| && !IsSwitch(evs[i]) && UpTo(t, evs, s, Mark(evs, i, s))
    requires interval == Mark(evs, i + 1, s) - evs[i].time
    requires forall b :: u.Get(b) == t.Get(b) + (if Charges(evs, i, b, s) then interval else 0)
    ensures UpTo(u, evs, s, Mark(evs, i + 1, s))
  {
    hide Seconds, Charges, Mark, Totals.Get;
    MarkMoves(evs, i, s);
    forall b
      ensures u.Get(b) == Seconds(evs, b, s, evs[0].time, Mark(evs, i + 1, s))
    {
      EventSeconds(evs, i, b, s);
    }
  }

  /** What the loop knows about the records it has not come to yet. */
  ghost predicate Pending(chain: seq<EventRecord>, evs: seq<Event>, i: nat)
    reads chain
  {
    |chain| == |evs| && Linked(chain) && forall k :: i <= k < |chain| ==> chain[k].View() == evs[k]
  }

  lemma NextRecord(chain: seq<EventRecord>, i: nat)
    requires Linked(chain) && Distinct(chain) && i < |chain|
    ensures chain[i].next == if i + 1 < |chain| then chain[i + 1] else null
    ensures forall k :: i < k < |chain| ==> chain[k] != chain[i]
  {
  }

  /**
   One turn of the loop.  `carry` is `nextTimeStamp`: it stays 0 because the
   chain is in order, so no interval is ever negative.
   */
  method Turn(event: EventRecord, t: Totals, now: int, cut: bool, laststatus: nat, carry: int,
              ghost chain: seq<EventRecord>, ghost evs: seq<Event>, ghost i: nat, ghost s: Setting)
    returns (u: Totals, status: nat, nextCarry: int)
    requires Sorted(evs) && i < |evs| && Pending(chain, evs, i) && Distinct(chain) && event == chain[i]
    requires s.now == now && s.cut == cut && laststatus == StatusBefore(evs, i, s) && carry == 0
    requires UpTo(t, evs, s, Mark(evs, i, s))
    modifies event`jStatus
    ensures nextCarry == 0 && status == Status(evs, i, s) == event.jStatus
    ensures UpTo(u, evs, s, Mark(evs, i + 1, s))
    ensures Pending(chain, evs, i + 1)
  {
    hide Seconds, UpTo, Mark, Charged, Takes, Has, Ended, Distinct;
    MarkMoves(evs, i, s);
    NextRecord(chain, i);
    var nextevent := SkipSwitches(event.next, chain, evs, i + 1);
    ghost var n := NextCounted(evs, i + 1);
    var timeStamp := if carry > 0 then carry else event.timeStamp;
    var interval;
    var nextPostDone := false;
    nextCarry := carry;
    if nextevent == null {
      if cut && !Ended(event.jStatus, event.reasons) {
        event.jStatus := STAT_EXIT;
      }
      interval := now - timeStamp;
      if interval < 0 {
        interval := 0;
      }
    } else {
      nextPostDone := Has(nextevent.jStatus, STAT_PDONE);
      MarkAtNext(evs, i, s);
      interval := nextevent.timeStamp - timeStamp;
      nextCarry := 0;
      if interval < 0 {
        interval, nextCarry := 0, timeStamp;
      }
    }
    assert event.jStatus == Shown(evs, i, s);
    if event.jStatus == 0 {
      event.jStatus := laststatus;
    }
    status := event.jStatus;
    u := t;
    if event.kind != JOB_SWITCH {
      u := Charge(t, interval, status, laststatus, event.reasons, nextevent != null, nextPostDone);
      forall b ensures Takes(b, status, laststatus, evs[i].reasons, n < |evs|, nextPostDone) <==> Charges(evs, i, b, s) {
        TakesIs(b, status, laststatus, evs[i].reasons, n < |evs|, nextPostDone);
      }
      Advance(t, u, evs, i, s, interval);
    }
  }

  lemma MarkAtNext(evs: seq<Event>, i: nat, s: Setting)
    requires Sorted(evs) && i < |evs| && NextCounted(evs, i + 1) < |evs|
    ensures Mark(evs, i + 1, s) == evs[NextCounted(evs, i + 1)].time >= evs[i].time
  {
  }

  /** The summary of one job: each column is the number of seconds spent in that state. */
  method Account(job: JobRecord, now: int, cut: bool, before: nat) returns (t: Totals, laststatus: nat)
    requires job.Valid() && Sorted(job.events)
    modifies job.chain`jStatus
    ensures var evs, s := old(job.events), Setting(now, cut, before);
            if evs == [] then t.Sum() == 0
            else Summarises(t, evs, s) && forall b :: t.Get(b) == Seconds(evs, b, s, evs[0].time, Horizon(evs, s))
    ensures laststatus == StatusBefore(old(job.events), |old(job.events)|, Setting(now, cut, before))
  {
    ghost var evs, chain, s := job.events, job.chain, Setting(now, cut, before);
    t, laststatus := Totals(0, 0, 0, 0, 0, 0), before;
    if job.eventhead == null {
      return;
    }
    ghost var i := 0;
    var event := job.eventhead;
    var carry := 0;
    assert UpTo(t, evs, s, Mark(evs, 0, s)) by { Start(t, evs, s); }
    hide UpTo, Distinct, Mark, StatusBefore, Status, Seconds, Summarises, Horizon;
    assert laststatus == StatusBefore(evs, 0, s) by { StatusStart(evs, s); }
    while event != null
      invariant 0 <= i <= |evs| && Distinct(chain) && Pending(chain, evs, i)
      invariant event == if i < |chain| then chain[i] else null
      invariant carry == 0
      invariant laststatus == StatusBefore(evs, i, s)
      invariant UpTo(t, evs, s, Mark(evs, i, s))
      decreases |evs| - i
    {
      t, laststatus, carry := Turn(event, t, now, cut, laststatus, carry, chain, evs, i, s);
      StatusNext(evs, i, s);
      NextRecord(chain, i);
      event := event.next;
      i := i + 1;
    }
    Finish(t, evs, s);
    SummaryIs(t, evs, s);
  }

  lemma Start(t: Totals, evs: seq<Event>, s: Setting)
    requires Sorted(evs) && evs != [] && t == Totals(0, 0, 0, 0, 0, 0)
    ensures UpTo(t, evs, s, Mark(evs, 0, s))
  {
    forall b
      ensures t.Get(b) == Seconds(evs, b, s, evs[0].time, Mark(evs, 0, s))
    {
      NothingBefore(evs, b, s);
    }
  }

  lemma StatusStart(evs: seq<Event>, s: Setting)
    ensures StatusBefore(evs, 0, s) == s.lastStatus
  {
  }

  lemma StatusNext(evs: seq<Event>, i: nat, s: Setting)
    requires i < |evs|
    ensures StatusBefore(evs, i + 1, s) == Status(evs, i, s)
  {
  }

  lemma Finish(t: Totals, evs: seq<Event>, s: Setting)
    requires evs != [] && UpTo(t, evs, s, Mark(evs, |evs|, s))
    ensures forall b :: t.Get(b) == Seconds(evs, b, s, evs[0].time, Horizon(evs, s))
  {
  }

  // ------------------------------------------------------------- from log to summary

  /** Every event of a log goes through `addEvent`, in order. */
  method ReplayLog(jobId: int, submitTime: int, calls: seq<Call>) returns (job: JobRecord)
    ensures fresh(job) && job.jobId == jobId && job.submitTime == submitTime
    ensures fresh(job.chain) && job.Valid() && job.Model() == Replay(NEW_JOB, calls)
  {
    hide JobRecord.Valid, AddEvent, Ok;
    job := new JobRecord(jobId, submitTime);
    assert Ok(NEW_JOB) by { NewJobOk(); }
    for i := 0 to |calls|
      invariant fresh(job.chain) && job.Valid() && Ok(job.Model())
      invariant Replay(job.Model(), calls[i..]) == Replay(NEW_JOB, calls)
    {
      var c := calls[i];
      assert calls[i..][0] == c && calls[i..][1..] == calls[i + 1..];
      AddEventKeeps(job.Model(), c);
      var event := new EventRecord(c.event);
      assert Call(event.View(), c.readFromHead, c.logOpen) == c;
      var rc := job.Add(event, c.readFromHead, c.logOpen);
    }
  }

  lemma NewJobOk()
    ensures Ok(NEW_JOB)
  {
  }

  lemma HorizonIs(evs: seq<Event>, s: Setting)
    requires Plain(evs, s)
    ensures var l := LastCounted(evs, |evs|);
            l >= 0 && Horizon(evs, s) == if s.now < evs[l].time then evs[l].time else s.now
  {
    assert !IsSwitch(evs[0]);
  }

  lemma SumIsTotal(t: Totals, evs: seq<Event>, s: Setting)
    requires evs != [] && forall b :: t.Get(b) == Seconds(evs, b, s, evs[0].time, Horizon(evs, s))
    ensures t.Sum() == Total(evs, s, evs[0].time, Horizon(evs, s))
  {
    hide Seconds;
    assert t.pend == t.Get(Pend) && t.psusp == t.Get(Psusp) && t.run == t.Get(Running);
    assert t.ususp == t.Get(Ususp) && t.ssusp == t.Get(Ssusp) && t.unkwn == t.Get(Unkwn);
  }

  /**
   The summary of a job from its log, whatever was rejected or dropped on the
   way: the columns share out all the time since its submission, up to now or, for
   a job that has ended for good, up to its end.
   */
  method History(jobId: int, submitTime: int, calls: seq<Call>, now: int, before: nat) returns (t: Totals)
    requires calls != [] && calls[0].event.kind == JOB_NEW && calls[0].event.status != 0
    ensures var evs, s := Replay(NEW_JOB, calls).events, Setting(now, false, before);
            && evs != [] && evs[0] == calls[0].event
            && Summarises(t, evs, s)
            && var l := LastCounted(evs, |evs|);
               && l >= 0
               && ((forall k :: 0 <= k < |evs| ==> Working(evs[k].status)) ==>
                     t.Sum() == (if now < evs[l].time then evs[l].time else now) - evs[0].time)
               && (PlainEnd(evs[l]) && (forall k :: 0 <= k < l ==> Working(evs[k].status)) ==>
                  t.Sum() == evs[l].time - evs[0].time)
  {
    hide Seconds, Summarises, Horizon, Total, Working, PlainEnd, Replay, Sorted, Plain, JobRecord.Valid;
    NewJobOk();
    var job := ReplayLog(jobId, submitTime, calls);
    ghost var evs, s := Replay(NEW_JOB, calls).events, Setting(now, false, before);
    ReplaySorted(NEW_JOB, calls);
    ReplayIsPlain(calls, s);
    var status;
    t, status := Account(job, now, false, before);
    SumIsTotal(t, evs, s);
    if forall k :: 0 <= k < |evs| ==> Working(evs[k].status) {
      UnfinishedConserves(evs, s);
    }
    ghost var l := LastCounted(evs, |evs|);
    HorizonIs(evs, s);
    if PlainEnd(evs[l]) && forall k :: 0 <= k < l ==> Working(evs[k].status) {
      FinishedConserves(evs, s, l);
    }
  }
}
