/**
 The summary of `bhist`: how many seconds a job spent in each state.  The
 reference counts seconds one by one: each second belongs to the latest event
 (queue switches aside) that is not behind it, and to the state of that event.
 */
module TimeAccounting {
  import opened EventChain

  const EXIT_ZOMBIE: nat := 0x02
  const FINISH_PEND: nat := 0x04
  const EXIT_KILL_ZOMBIE: nat := 0x08
  const EXIT_RERUN: nat := 0x20

  const STAT_RUN_WAIT: nat := STAT_RUN + STAT_WAIT

  /** The columns of the summary. */
  datatype Bucket = Pend | Psusp | Running | Ususp | Ssusp | Unkwn

  datatype Totals = Totals(pend: int, psusp: int, run: int, ususp: int, ssusp: int, unkwn: int) {
    function Get(b: Bucket): int {
      match b
      case Pend => pend
      case Psusp => psusp
      case Running => run
      case Ususp => ususp
      case Ssusp => ssusp
      case Unkwn => unkwn
    }

    function Sum(): int {
      pend + psusp + run + ususp + ssusp + unkwn
    }
  }

  /** The current time, whether a search window ended before now, and the status left from the job shown before. */
  datatype Setting = Setting(now: int, cut: bool, lastStatus: nat)

  predicate IsSwitch(e: Event) {
    e.kind == JOB_SWITCH
  }

  /** The first event at or behind `i` that is not a queue switch. */
  function NextCounted(evs: seq<Event>, i: nat): (n: nat)
    requires i <= |evs|
    ensures i <= n <= |evs|
    ensures forall k :: i <= k < n ==> IsSwitch(evs[k])
    ensures n < |evs| ==> !IsSwitch(evs[n])
    decreases |evs| - i
  {
    if i == |evs| || !IsSwitch(evs[i]) then i else NextCounted(evs, i + 1)
  }

  /** Done, or exited without coming back and without a lost host. */
  predicate Ended(status: nat, reasons: nat) {
    || Has(status, STAT_DONE)
    || (Has(status, STAT_EXIT)
        && !(Has(reasons, FINISH_PEND) || Has(reasons, EXIT_ZOMBIE) || Has(reasons, EXIT_RERUN) || Has(reasons, EXIT_KILL_ZOMBIE)))
  }

  /** The status an event shows: a closed search window ends a job that is still going. */
  function Shown(evs: seq<Event>, i: nat, s: Setting): nat
    requires i < |evs|
  {
    if s.cut && NextCounted(evs, i + 1) == |evs| && !Ended(evs[i].status, evs[i].reasons) then STAT_EXIT else evs[i].status
  }

  /** The effective status: an event without one takes over that of the event before. */
  function Status(evs: seq<Event>, i: nat, s: Setting): nat
    requires i < |evs|
    decreases i, 1
  {
    if Shown(evs, i, s) != 0 then Shown(evs, i, s) else StatusBefore(evs, i, s)
  }

  function StatusBefore(evs: seq<Event>, i: nat, s: Setting): nat
    requires i <= |evs|
    decreases i, 0
  {
    if i == 0 then s.lastStatus else Status(evs, i - 1, s)
  }

  /** Which columns an interval is added to, from what the loop has at hand. */
  predicate Charged(status: nat, before: nat, reasons: nat, more: bool, nextPostDone: bool, b: Bucket) {
    if status == STAT_PSUSP then b == Psusp
    else if status == STAT_PEND || status == STAT_RUN_WAIT then b == Pend
    else if status == STAT_RUN then b == Running
    else if status == STAT_SSUSP then b == Ssusp
    else if status == STAT_USUSP then b == (if before == STAT_RUN_WAIT then Pend else Ususp)
    else if status == STAT_DONE then b == Pend && (Has(reasons, FINISH_PEND) || (more && !nextPostDone))
    else if status == STAT_EXIT then
      || (b == Pend && (Has(reasons, EXIT_RERUN) || Has(reasons, FINISH_PEND) || more))
      || (b == Unkwn && (Has(reasons, EXIT_KILL_ZOMBIE) || Has(reasons, EXIT_ZOMBIE)))
    else b == Unkwn && !Has(status, STAT_PDONE) && !Has(status, STAT_PERR)
  }

  /** Event `i` counts towards column `b`. */
  predicate Charges(evs: seq<Event>, i: nat, b: Bucket, s: Setting)
    requires i < |evs|
  {
    var n := NextCounted(evs, i + 1);
    Charged(Status(evs, i, s), StatusBefore(evs, i, s), evs[i].reasons, n < |evs|,
            n < |evs| && Has(evs[n].status, STAT_PDONE), b)
  }

  // --------------------------------------------------- second by second

  /** The latest event among the first `k` that is not a switch and not behind second `t`; -1 if none. */
  function Latest(evs: seq<Event>, t: int, k: nat): (i: int)
    requires k <= |evs|
    ensures -1 <= i < k
    ensures i >= 0 ==> !IsSwitch(evs[i]) && evs[i].time <= t
    ensures forall m :: i < m < k && !IsSwitch(evs[m]) ==> evs[m].time > t
  {
    if k == 0 then -1
    else if !IsSwitch(evs[k - 1]) && evs[k - 1].time <= t then k - 1
    else Latest(evs, t, k - 1)
  }

  /** Second `t` belongs to column `b`. */
  predicate SpentIn(evs: seq<Event>, t: int, b: Bucket, s: Setting) {
    var i := Latest(evs, t, |evs|);
    i >= 0 && Charges(evs, i, b, s)
  }

  /** The number of seconds of column `b` from `lo` up to `hi`. */
  function Seconds(evs: seq<Event>, b: Bucket, s: Setting, lo: int, hi: int): nat
    decreases hi - lo
  {
    if hi <= lo then 0
    else Seconds(evs, b, s, lo, hi - 1) + (if SpentIn(evs, hi - 1, b, s) then 1 else 0)
  }

  /** The accounts end now, or with the last counted event if that lies in the future. */
  function Horizon(evs: seq<Event>, s: Setting): int
    requires evs != []
  {
    var l := LastCounted(evs, |evs|);
    if l < 0 then evs[0].time else if s.now < evs[l].time then evs[l].time else s.now
  }

  function LastCounted(evs: seq<Event>, k: nat): (l: int)
    requires k <= |evs|
    ensures -1 <= l < k
    ensures l >= 0 ==> !IsSwitch(evs[l])
    ensures forall m :: l < m < k ==> IsSwitch(evs[m])
  {
    if k == 0 then -1 else if !IsSwitch(evs[k - 1]) then k - 1 else LastCounted(evs, k - 1)
  }

  /** How far the accounts reach when events `0..i` are done. */
  function Mark(evs: seq<Event>, i: nat, s: Setting): int
    requires i <= |evs| && evs != []
  {
    var n := NextCounted(evs, i);
    if n < |evs| then evs[n].time else Horizon(evs, s)
  }

  lemma {:induction false} SecondsSplit(evs: seq<Event>, b: Bucket, s: Setting, lo: int, mid: int, hi: int, charged: bool)
    requires lo <= mid <= hi
    requires forall t :: mid <= t < hi ==> (SpentIn(evs, t, b, s) <==> charged)
    ensures Seconds(evs, b, s, lo, hi) == Seconds(evs, b, s, lo, mid) + (if charged then hi - mid else 0)
    decreases hi - mid
  {
    hide SpentIn;
    if mid < hi {
      SecondsSplit(evs, b, s, lo, mid, hi - 1, charged);
    }
  }

  /** Between an event and the next counted one, the event is the latest. */
  lemma LatestIs(evs: seq<Event>, i: nat, t: int)
    requires Sorted(evs) && i < |evs| && !IsSwitch(evs[i]) && evs[i].time <= t
    requires var n := NextCounted(evs, i + 1); n < |evs| ==> t < evs[n].time
    ensures Latest(evs, t, |evs|) == i
  {
    var n := NextCounted(evs, i + 1);
    var l := Latest(evs, t, |evs|);
    assert l >= i;
    assert l == i || n <= l;
  }

  /** Marks follow the chain: switches do not move them, other events move them to their end. */
  lemma MarkMoves(evs: seq<Event>, i: nat, s: Setting)
    requires Sorted(evs) && i < |evs|
    ensures IsSwitch(evs[i]) ==> Mark(evs, i + 1, s) == Mark(evs, i, s)
    ensures !IsSwitch(evs[i]) ==> Mark(evs, i, s) == evs[i].time <= Mark(evs, i + 1, s)
    ensures var n := NextCounted(evs, i + 1);
            !IsSwitch(evs[i]) && n == |evs| ==> Mark(evs, i + 1, s) == if s.now < evs[i].time then evs[i].time else s.now
  {
    if NextCounted(evs, i + 1) == |evs| && !IsSwitch(evs[i]) {
      var l := LastCounted(evs, |evs|);
      assert l == i;
    }
  }

  /** Before the first counted event nothing is charged. */
  lemma NothingBefore(evs: seq<Event>, b: Bucket, s: Setting)
    requires Sorted(evs) && evs != []
    ensures evs[0].time <= Mark(evs, 0, s)
    ensures Seconds(evs, b, s, evs[0].time, Mark(evs, 0, s)) == 0
  {
    var n := NextCounted(evs, 0);
    var m := Mark(evs, 0, s);
    if n == |evs| {
      assert LastCounted(evs, |evs|) == -1;
    }
    forall t | evs[0].time <= t < m
      ensures !SpentIn(evs, t, b, s)
    {
      var l := Latest(evs, t, |evs|);
      assert l < 0 || n <= l;
    }
    SecondsSplit(evs, b, s, evs[0].time, evs[0].time, m, false);
  }

  /** One event's interval, in every column. */
  lemma EventSeconds(evs: seq<Event>, i: nat, b: Bucket, s: Setting)
    requires Sorted(evs) && i < |evs| && !IsSwitch(evs[i])
    ensures var next := Mark(evs, i + 1, s);
            Seconds(evs, b, s, evs[0].time, next)
            == Seconds(evs, b, s, evs[0].time, evs[i].time) + (if Charges(evs, i, b, s) then next - evs[i].time else 0)
  {
    hide Charges, Latest, Seconds;
    MarkMoves(evs, i, s);
    var next := Mark(evs, i + 1, s);
    assert evs[0].time <= evs[i].time;
    forall t | evs[i].time <= t < next
      ensures SpentIn(evs, t, b, s) <==> Charges(evs, i, b, s)
    {
      LatestIs(evs, i, t);
    }
    SecondsSplit(evs, b, s, evs[0].time, evs[i].time, next, Charges(evs, i, b, s));
  }

  // ----------------------------------------------------------- conservation

  function One(p: bool): nat {
    if p then 1 else 0
  }

  /** In how many columns an interval is counted. */
  function ChargeCount(status: nat, before: nat, reasons: nat, more: bool, nextPostDone: bool): nat {
    One(Charged(status, before, reasons, more, nextPostDone, Pend)) + One(Charged(status, before, reasons, more, nextPostDone, Psusp))
    + One(Charged(status, before, reasons, more, nextPostDone, Running)) + One(Charged(status, before, reasons, more, nextPostDone, Ususp))
    + One(Charged(status, before, reasons, more, nextPostDone, Ssusp)) + One(Charged(status, before, reasons, more, nextPostDone, Unkwn))
  }

  /** No finishing bit is set. */
  predicate Working(status: nat) {
    !Has(status, STAT_DONE) && !Has(status, STAT_EXIT) && !Has(status, STAT_PDONE) && !Has(status, STAT_PERR)
  }

  predicate LostHost(reasons: nat) {
    Has(reasons, EXIT_KILL_ZOMBIE) || Has(reasons, EXIT_ZOMBIE)
  }

  predicate ComesBack(reasons: nat, more: bool) {
    Has(reasons, EXIT_RERUN) || Has(reasons, FINISH_PEND) || more
  }

  /** Exactly which intervals are counted twice, and which not at all. */
  lemma ChargeCountIs(status: nat, before: nat, reasons: nat, more: bool, nextPostDone: bool)
    ensures var c := ChargeCount(status, before, reasons, more, nextPostDone);
            && c <= 2
            && (c == 2 <==> status == STAT_EXIT && ComesBack(reasons, more) && LostHost(reasons))
            && (c == 0 <==> || (status == STAT_DONE && !Has(reasons, FINISH_PEND) && (more ==> nextPostDone))
                            || (status == STAT_EXIT && !ComesBack(reasons, more) && !LostHost(reasons))
                            || (status != STAT_DONE && status != STAT_EXIT && (Has(status, STAT_PDONE) || Has(status, STAT_PERR))))
            && (Working(status) ==> c == 1)
  {
  }

  /** The columns that second `t` is counted in. */
  function Columns(evs: seq<Event>, t: int, s: Setting): nat {
    One(SpentIn(evs, t, Pend, s)) + One(SpentIn(evs, t, Psusp, s)) + One(SpentIn(evs, t, Running, s))
    + One(SpentIn(evs, t, Ususp, s)) + One(SpentIn(evs, t, Ssusp, s)) + One(SpentIn(evs, t, Unkwn, s))
  }

  /** The sum of all columns. */
  function Total(evs: seq<Event>, s: Setting, lo: int, hi: int): nat {
    Seconds(evs, Pend, s, lo, hi) + Seconds(evs, Psusp, s, lo, hi) + Seconds(evs, Running, s, lo, hi)
    + Seconds(evs, Ususp, s, lo, hi) + Seconds(evs, Ssusp, s, lo, hi) + Seconds(evs, Unkwn, s, lo, hi)
  }

  /** When no second is counted twice, time is conserved exactly if none is lost. */
  lemma {:induction false} TotalExact(evs: seq<Event>, s: Setting, lo: int, hi: int)
    requires lo <= hi && forall t :: lo <= t < hi ==> Columns(evs, t, s) <= 1
    ensures Total(evs, s, lo, hi) <= hi - lo
    ensures Total(evs, s, lo, hi) == hi - lo <==> forall t :: lo <= t < hi ==> Columns(evs, t, s) == 1
    decreases hi - lo
  {
    hide SpentIn, Columns;
    if lo < hi {
      TotalExact(evs, s, lo, hi - 1);
      TotalStep(evs, s, lo, hi);
      assert (forall t :: lo <= t < hi ==> Columns(evs, t, s) == 1) <==>
             ((forall t :: lo <= t < hi - 1 ==> Columns(evs, t, s) == 1) && Columns(evs, hi - 1, s) == 1);
    }
  }

  lemma {:induction false} TotalStep(evs: seq<Event>, s: Setting, lo: int, hi: int)
    requires lo < hi
    ensures Total(evs, s, lo, hi) == Total(evs, s, lo, hi - 1) + Columns(evs, hi - 1, s)
  {
    hide SpentIn;
  }

  lemma {:induction false} TotalOver(evs: seq<Event>, s: Setting, lo: int, mid: int, hi: int)
    requires lo <= mid <= hi && forall t :: mid <= t < hi ==> Columns(evs, t, s) == 0
    ensures Total(evs, s, lo, hi) == Total(evs, s, lo, mid)
    decreases hi - mid
  {
    hide Columns, Total;
    if mid < hi {
      TotalOver(evs, s, lo, mid, hi - 1);
      TotalStep(evs, s, lo, hi);
    }
  }

  /** Counting columns of a second is counting columns of its latest event. */
  lemma ColumnsAre(evs: seq<Event>, t: int, s: Setting)
    ensures var i := Latest(evs, t, |evs|);
            Columns(evs, t, s) == if i < 0 then 0 else
              var n := NextCounted(evs, i + 1);
              ChargeCount(Status(evs, i, s), StatusBefore(evs, i, s), evs[i].reasons, n < |evs|,
                          n < |evs| && Has(evs[n].status, STAT_PDONE))
  {
    hide Charged, Status, StatusBefore, NextCounted, Latest;
  }

  /** Without a search window, a status is taken over only from working events. */
  lemma {:induction false} StatusWorking(evs: seq<Event>, i: nat, s: Setting)
    requires i < |evs| && !s.cut && (forall k :: 0 <= k <= i ==> Working(evs[k].status))
    requires evs[0].status != 0 || Working(s.lastStatus)
    ensures Working(Status(evs, i, s))
  {
    hide Working;
    if evs[i].status == 0 && i > 0 {
      StatusWorking(evs, i - 1, s);
    }
  }

  /** The first event starts the accounts and the summary has no search window. */
  predicate Plain(evs: seq<Event>, s: Setting) {
    && evs != [] && Sorted(evs) && !IsSwitch(evs[0]) && !s.cut
    && (evs[0].status != 0 || Working(s.lastStatus))
  }

  lemma {:induction false} WorkingSecond(evs: seq<Event>, l: nat, t: int, s: Setting)
    requires Plain(evs, s) && l <= |evs| && (forall k :: 0 <= k < l ==> Working(evs[k].status))
    requires evs[0].time <= t && (forall m :: l <= m < |evs| && !IsSwitch(evs[m]) ==> t < evs[m].time)
    ensures l > 0 ==> Columns(evs, t, s) == 1
  {
    if l > 0 {
      hide Columns, Status, Charged, ChargeCount, Working;
      var i := Latest(evs, t, |evs|);
      assert 0 <= i < l;
      ColumnsAre(evs, t, s);
      StatusWorking(evs, i, s);
      var n := NextCounted(evs, i + 1);
      ChargeCountIs(Status(evs, i, s), StatusBefore(evs, i, s), evs[i].reasons, n < |evs|,
                    n < |evs| && Has(evs[n].status, STAT_PDONE));
    }
  }

  /** A job that never finished: the six columns add up to all the time since its first event. */
  lemma {:induction false} UnfinishedConserves(evs: seq<Event>, s: Setting)
    requires Plain(evs, s) && forall k :: 0 <= k < |evs| ==> Working(evs[k].status)
    ensures Total(evs, s, evs[0].time, Horizon(evs, s)) == Horizon(evs, s) - evs[0].time
  {
    hide Total, Columns, Working;
    var lo, hi := evs[0].time, Horizon(evs, s);
    assert lo <= hi;
    forall t | lo <= t < hi
      ensures Columns(evs, t, s) == 1
    {
      WorkingSecond(evs, |evs|, t, s);
    }
    TotalExact(evs, s, lo, hi);
  }

  /** A final end: done or exited, for good, with the host known. */
  predicate PlainEnd(e: Event) {
    && (e.status == STAT_DONE || e.status == STAT_EXIT)
    && !ComesBack(e.reasons, false) && !LostHost(e.reasons)
  }

  /** A job whose only finishing event is a plain last one: the columns add up to the time until then. */
  lemma {:induction false} FinishedConserves(evs: seq<Event>, s: Setting, l: nat)
    requires Plain(evs, s) && l == LastCounted(evs, |evs|) && PlainEnd(evs[l])
    requires forall k :: 0 <= k < l ==> Working(evs[k].status)
    ensures Total(evs, s, evs[0].time, Horizon(evs, s)) == evs[l].time - evs[0].time
  {
    hide Total, Columns, Working, ChargeCount, Charged;
    var lo, mid, hi := evs[0].time, evs[l].time, Horizon(evs, s);
    assert lo <= mid <= hi;
    forall t | lo <= t < mid
      ensures Columns(evs, t, s) == 1
    {
      assert l > 0;
      WorkingSecond(evs, l, t, s);
    }
    TotalExact(evs, s, lo, mid);
    forall t | mid <= t < hi
      ensures Columns(evs, t, s) == 0
    {
      assert NextCounted(evs, l + 1) == |evs|;
      LatestIs(evs, l, t);
      ColumnsAre(evs, t, s);
      ChargeCountIs(Status(evs, l, s), StatusBefore(evs, l, s), evs[l].reasons, false, false);
    }
    TotalOver(evs, s, lo, mid, hi);
  }

  /** Every replay that starts with the submission of the job meets the conditions above. */
  lemma {:induction false} ReplayIsPlain(calls: seq<Call>, s: Setting)
    requires calls != [] && calls[0].event.kind == JOB_NEW && calls[0].event.status != 0 && !s.cut
    ensures Plain(Replay(NEW_JOB, calls).events, s)
  {
    ReplaySorted(NEW_JOB, calls);
  }
}
