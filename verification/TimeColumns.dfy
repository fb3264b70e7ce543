/**
 The columns of the summary from the events alone: which intervals each column
 adds up, by the status codes of the log.

 Status bits: 0x01 pending, 0x02 suspended while pending, 0x04 running, 0x08
 suspended by the system, 0x10 suspended by the user, 0x20 exited, 0x40 done,
 0x80 and 0x100 after the end, 0x200 waiting.  Exit reasons: 0x02 and 0x08 lost
 host, 0x04 back to pending, 0x20 rerun.
 */
module TimeColumns {
  import opened EventChain
  import opened TimeAccounting

  ghost predicate Bit(word: nat, bit: nat)
    requires bit > 0
  {
    word / bit % 2 == 1
  }

  /** No event but queue switches (kind 4) comes behind event `i`. */
  ghost predicate IsLast(evs: seq<Event>, i: nat)
    requires i < |evs|
  {
    forall k :: i < k < |evs| ==> evs[k].kind == 4
  }

  /** Event `n` is the next one behind `i` that is no queue switch. */
  ghost predicate IsNext(evs: seq<Event>, i: nat, n: int)
    requires i < |evs|
  {
    i < n < |evs| && evs[n].kind != 4 && forall k :: i < k < n ==> evs[k].kind == 4
  }

  /** The status that an event has itself; where a search window ends, an unfinished job counts as exited. */
  ghost function Own(evs: seq<Event>, i: nat, s: Setting): nat
    requires i < |evs|
  {
    var e := evs[i];
    if s.cut && IsLast(evs, i)
       && !(Bit(e.status, 0x40)
            || (Bit(e.status, 0x20)
                && !Bit(e.reasons, 0x02) && !Bit(e.reasons, 0x04) && !Bit(e.reasons, 0x08) && !Bit(e.reasons, 0x20)))
    then 0x20 else e.status
  }

  /** The effective status at `i`: the nearest one up to `i` that is not zero, or else what was left from before. */
  ghost predicate Effective(evs: seq<Event>, i: int, s: Setting, status: nat)
    requires i < |evs|
  {
    || (exists k :: 0 <= k <= i && Own(evs, k, s) == status != 0 && forall m :: k < m <= i ==> Own(evs, m, s) == 0)
    || (status == s.lastStatus && forall m :: 0 <= m <= i ==> Own(evs, m, s) == 0)
  }

  /** The effective status just before event `i`. */
  ghost predicate EffectiveBefore(evs: seq<Event>, i: nat, s: Setting, status: nat)
    requires i < |evs|
  {
    Effective(evs, i - 1, s, status)
  }

  /** The next event that is no switch reports the end of the post-processing. */
  ghost predicate PostDoneNext(evs: seq<Event>, i: nat)
    requires i < |evs|
  {
    exists n :: IsNext(evs, i, n) && Bit(evs[n].status, 0x80)
  }

  /** What each column takes in: `more` and `postDone` are about the next event, `before` is the status before. */
  ghost predicate Takes(b: Bucket, status: nat, before: nat, reasons: nat, more: bool, postDone: bool) {
    match b
    case Pend =>
      || status == 0x01 || status == 0x204 || (status == 0x10 && before == 0x204)
      || (status == 0x40 && (Bit(reasons, 0x04) || (more && !postDone)))
      || (status == 0x20 && (Bit(reasons, 0x20) || Bit(reasons, 0x04) || more))
    case Psusp => status == 0x02
    case Running => status == 0x04
    case Ssusp => status == 0x08
    case Ususp => status == 0x10 && before != 0x204
    case Unkwn =>
      || (status == 0x20 && (Bit(reasons, 0x02) || Bit(reasons, 0x08)))
      || (status !in {0x01, 0x02, 0x04, 0x08, 0x10, 0x20, 0x40, 0x204} && !Bit(status, 0x80) && !Bit(status, 0x100))
  }

  /** Column `b` takes in the interval that starts with event `i`. */
  ghost predicate InColumn(evs: seq<Event>, i: nat, b: Bucket, s: Setting)
    requires i < |evs|
  {
    exists status: nat, before: nat ::
      && Effective(evs, i, s, status) && EffectiveBefore(evs, i, s, before)
      && Takes(b, status, before, evs[i].reasons, !IsLast(evs, i), PostDoneNext(evs, i))
  }

  /** The interval of event `i` lasts until the next event that is no switch, or until now. */
  ghost function Duration(evs: seq<Event>, i: nat, s: Setting): int
    requires i < |evs|
  {
    if exists n :: IsNext(evs, i, n) then
      var n :| IsNext(evs, i, n);
      evs[n].time - evs[i].time
    else if s.now < evs[i].time then 0 else s.now - evs[i].time
  }

  /** The intervals of the first `k` events that column `b` takes in, added up. */
  ghost function ColumnSum(evs: seq<Event>, b: Bucket, s: Setting, k: nat): int
    requires k <= |evs|
  {
    if k == 0 then 0
    else ColumnSum(evs, b, s, k - 1)
         + (if evs[k - 1].kind != 4 && InColumn(evs, k - 1, b, s) then Duration(evs, k - 1, s) else 0)
  }

  /** The totals shown for a job. */
  ghost predicate Summarises(t: Totals, evs: seq<Event>, s: Setting) {
    && t.pend == ColumnSum(evs, Pend, s, |evs|) && t.psusp == ColumnSum(evs, Psusp, s, |evs|)
    && t.run == ColumnSum(evs, Running, s, |evs|) && t.ususp == ColumnSum(evs, Ususp, s, |evs|)
    && t.ssusp == ColumnSum(evs, Ssusp, s, |evs|) && t.unkwn == ColumnSum(evs, Unkwn, s, |evs|)
  }

  // ------------------------------------------------------------------- the proof

  lemma NextIs(evs: seq<Event>, i: nat)
    requires i < |evs|
    ensures var n := NextCounted(evs, i + 1);
            && (IsLast(evs, i) <==> n == |evs|)
            && (n < |evs| ==> IsNext(evs, i, n))
            && (forall m :: IsNext(evs, i, m) ==> m == n)
  {
    var n := NextCounted(evs, i + 1);
    assert n < |evs| ==> evs[n].kind != 4;
    forall m | IsNext(evs, i, m) ensures m == n {
      assert !(m < n) && !(n < m);
    }
  }

  lemma OwnIs(evs: seq<Event>, i: nat, s: Setting)
    requires i < |evs|
    ensures Own(evs, i, s) == Shown(evs, i, s)
  {
    NextIs(evs, i);
    hide IsLast, IsNext, NextCounted;
  }

  lemma {:induction false} EffectiveIs(evs: seq<Event>, i: int, s: Setting, status: nat)
    requires -1 <= i < |evs|
    ensures Effective(evs, i, s, status) <==> status == StatusBefore(evs, i + 1, s)
    decreases i + 1
  {
    hide Own, Shown;
    if i >= 0 {
      OwnIs(evs, i, s);
      EffectiveIs(evs, i - 1, s, status);
      EffectiveStep(evs, i, s, status);
    }
  }

  lemma EffectiveStep(evs: seq<Event>, i: nat, s: Setting, status: nat)
    requires i < |evs|
    ensures Effective(evs, i, s, status) <==>
            if Own(evs, i, s) != 0 then status == Own(evs, i, s) else Effective(evs, i - 1, s, status)
  {
    hide Own;
  }

  lemma TakesIs(b: Bucket, status: nat, before: nat, reasons: nat, more: bool, postDone: bool)
    ensures Takes(b, status, before, reasons, more, postDone) <==> Charged(status, before, reasons, more, postDone, b)
  {
  }

  lemma InColumnIs(evs: seq<Event>, i: nat, b: Bucket, s: Setting)
    requires i < |evs|
    ensures InColumn(evs, i, b, s) <==> Charges(evs, i, b, s)
  {
    var n := NextCounted(evs, i + 1);
    var status, before := Status(evs, i, s), StatusBefore(evs, i, s);
    var postDone := PostDoneNext(evs, i);
    NextIs(evs, i);
    assert postDone <==> n < |evs| && Has(evs[n].status, STAT_PDONE);
    assert StatusBefore(evs, i + 1, s) == status;
    hide IsLast, IsNext, PostDoneNext, NextCounted, Effective, EffectiveBefore, Takes, Charged, Status, StatusBefore;
    TakesIs(b, status, before, evs[i].reasons, n < |evs|, postDone);
    forall x: nat ensures Effective(evs, i, s, x) <==> x == status {
      EffectiveIs(evs, i, s, x);
    }
    forall x: nat ensures EffectiveBefore(evs, i, s, x) <==> x == before {
      BeforeIs(evs, i, s, x);
    }
    assert Effective(evs, i, s, status) && EffectiveBefore(evs, i, s, before);
    assert InColumn(evs, i, b, s) <==> Takes(b, status, before, evs[i].reasons, !IsLast(evs, i), postDone);
  }

  lemma BeforeIs(evs: seq<Event>, i: nat, s: Setting, status: nat)
    requires i < |evs|
    ensures EffectiveBefore(evs, i, s, status) <==> status == StatusBefore(evs, i, s)
  {
    hide Effective, StatusBefore;
    EffectiveIs(evs, i - 1, s, status);
  }

  lemma DurationIs(evs: seq<Event>, i: nat, s: Setting)
    requires Sorted(evs) && i < |evs| && !IsSwitch(evs[i])
    ensures Duration(evs, i, s) == Mark(evs, i + 1, s) - evs[i].time
  {
    NextIs(evs, i);
    MarkMoves(evs, i, s);
    hide IsNext, IsLast, Horizon;
  }

  /** Counting seconds is adding up intervals. */
  lemma {:induction false} SumIs(evs: seq<Event>, b: Bucket, s: Setting, k: nat)
    requires Sorted(evs) && evs != [] && k <= |evs|
    ensures ColumnSum(evs, b, s, k) == Seconds(evs, b, s, evs[0].time, Mark(evs, k, s))
    decreases k
  {
    hide Seconds, InColumn, Duration, Charges, Mark;
    if k == 0 {
      NothingBefore(evs, b, s);
    } else {
      SumIs(evs, b, s, k - 1);
      MarkMoves(evs, k - 1, s);
      if !IsSwitch(evs[k - 1]) {
        EventSeconds(evs, k - 1, b, s);
        InColumnIs(evs, k - 1, b, s);
        DurationIs(evs, k - 1, s);
      }
    }
  }

  /** Each column is the sum of the intervals that it takes in. */
  lemma ColumnIs(evs: seq<Event>, b: Bucket, s: Setting)
    requires Sorted(evs) && evs != []
    ensures Seconds(evs, b, s, evs[0].time, Horizon(evs, s)) == ColumnSum(evs, b, s, |evs|)
  {
    hide Seconds, ColumnSum;
    SumIs(evs, b, s, |evs|);
  }

  lemma SummaryIs(t: Totals, evs: seq<Event>, s: Setting)
    requires Sorted(evs) && evs != []
    requires forall b :: t.Get(b) == Seconds(evs, b, s, evs[0].time, Horizon(evs, s))
    ensures Summarises(t, evs, s)
  {
    hide Seconds, ColumnSum, Horizon;
    forall b ensures t.Get(b) == ColumnSum(evs, b, s, |evs|) {
      ColumnIs(evs, b, s);
    }
    assert t.Get(Pend) == t.pend && t.Get(Psusp) == t.psusp && t.Get(Running) == t.run;
    assert t.Get(Ususp) == t.ususp && t.Get(Ssusp) == t.ssusp && t.Get(Unkwn) == t.unkwn;
  }
}
