/**
 The job records of `bhist`: a ring with a sentinel, in order of arrival, and a
 table from job ids to records.  `addJob` appends a record and indexes it,
 `freeJobRecord` takes one out of both.
 */
module JobTable {
  import opened EventChain
  import opened EventRecords
  import opened Sequences

  // ------------------------------------------------- index and list, as values

  /** `i` is the position of the last record with that id. */
  ghost predicate LastWith(ring: seq<JobRecord>, id: int, i: nat) {
    i < |ring| && ring[i].jobId == id && forall j :: i < j < |ring| ==> ring[j].jobId != id
  }

  /** Every indexed id leads to a record of the ring, the one added last with that id. */
  ghost predicate IndexOk(ring: seq<JobRecord>, table: map<int, JobRecord>) {
    forall id :: id in table ==> exists i: nat :: LastWith(ring, id, i) && ring[i] == table[id]
  }

  datatype State = State(ring: seq<JobRecord>, table: map<int, JobRecord>)

  datatype Step = Add(record: JobRecord) | Free(record: JobRecord)

  ghost predicate Ok(s: State) {
    Distinct(s.ring) && IndexOk(s.ring, s.table)
  }

  /** What `freeJobRecord` does: out of the ring, and its id out of the table. */
  ghost function Freed(s: State, k: nat): State
    requires k < |s.ring|
  {
    State(Removed(s.ring, k), s.table - {s.ring[k].jobId})
  }

  ghost predicate SameSubmission(s: State, r: JobRecord) {
    r.jobId in s.table && s.table[r.jobId].submitTime == r.submitTime
  }

  /** Where the record stands that an id leads to. */
  ghost function PositionOf(s: State, id: int): (i: nat)
    requires IndexOk(s.ring, s.table) && id in s.table
    ensures LastWith(s.ring, id, i) && s.ring[i] == s.table[id]
  {
    var i: nat :| LastWith(s.ring, id, i) && s.ring[i] == s.table[id];
    i
  }

  /** What `addJob` does: a record of the same submission is freed first. */
  ghost function Added(s: State, r: JobRecord): State
    requires Ok(s)
  {
    var t := if SameSubmission(s, r) then Freed(s, PositionOf(s, r.jobId)) else s;
    State(t.ring + [r], t.table[r.jobId := r])
  }

  lemma FreedOk(s: State, k: nat)
    requires Ok(s) && k < |s.ring|
    ensures Ok(Freed(s, k))
    ensures forall x :: x in Freed(s, k).ring <==> x in s.ring && x != s.ring[k]
  {
    var t := Freed(s, k);
    RemovedDistinct(s.ring, k);
    RemovedMembers(s.ring, k);
    hide Removed;
    forall id | id in t.table
      ensures exists i: nat :: LastWith(t.ring, id, i) && t.ring[i] == t.table[id]
    {
      LastAfterRemoval(s.ring, k, id, PositionOf(s, id));
    }
  }

  lemma LastAfterRemoval(ring: seq<JobRecord>, k: nat, id: int, i: nat)
    requires k < |ring| && LastWith(ring, id, i) && ring[k].jobId != id
    ensures var m := if i < k then i else i - 1;
            m >= 0 && LastWith(Removed(ring, k), id, m) && Removed(ring, k)[m] == ring[i]
  {
    var m := if i < k then i else i - 1;
    RemovedAt(ring, k, m);
    forall j | m < j < |ring| - 1
      ensures Removed(ring, k)[j].jobId != id
    {
      RemovedAt(ring, k, j);
    }
  }

  lemma AppendedOk(s: State, r: JobRecord)
    requires Ok(s) && r !in s.ring
    ensures Ok(State(s.ring + [r], s.table[r.jobId := r]))
  {
    var ring, table := s.ring + [r], s.table[r.jobId := r];
    forall id | id in table
      ensures exists i: nat :: LastWith(ring, id, i) && ring[i] == table[id]
    {
      if id == r.jobId {
        assert LastWith(ring, id, |s.ring|);
      } else {
        assert LastWith(ring, id, PositionOf(s, id));
      }
    }
  }

  lemma AddedOk(s: State, r: JobRecord)
    requires Ok(s) && r !in s.ring
    ensures Ok(Added(s, r))
    ensures r in Added(s, r).ring && Added(s, r).table[r.jobId] == r
  {
    if SameSubmission(s, r) {
      var k := PositionOf(s, r.jobId);
      FreedOk(s, k);
      AppendedOk(Freed(s, k), r);
    } else {
      AppendedOk(s, r);
    }
  }

  /** A step can be taken: new records are new, freed ones are in the ring. */
  ghost predicate Possible(s: State, step: Step) {
    match step
    case Add(r) => r !in s.ring
    case Free(r) => r in s.ring
  }

  ghost function Next(s: State, step: Step): (t: State)
    requires Ok(s) && Possible(s, step)
    ensures Ok(t)
  {
    match step
    case Add(r) => AddedOk(s, r); Added(s, r)
    case Free(r) =>
      var k: nat :| k < |s.ring| && s.ring[k] == r;
      FreedOk(s, k);
      Freed(s, k)
  }

  ghost predicate PossibleRun(s: State, steps: seq<Step>)
    requires Ok(s)
    decreases |steps|
  {
    steps == [] || (Possible(s, steps[0]) && PossibleRun(Next(s, steps[0]), steps[1..]))
  }

  ghost function After(s: State, steps: seq<Step>): (t: State)
    requires Ok(s) && PossibleRun(s, steps)
    ensures Ok(t)
    decreases |steps|
  {
    if steps == [] then s else After(Next(s, steps[0]), steps[1..])
  }

  /** After any run from the empty list, looking an id up finds the newest record that has it. */
  lemma {:induction false} LookupFindsNewest(steps: seq<Step>, id: int, j: nat)
    requires PossibleRun(State([], map[]), steps)
    ensures var s := After(State([], map[]), steps);
            id in s.table ==> s.table[id] in s.ring && s.table[id].jobId == id
                              && (j < |s.ring| && s.ring[j].jobId == id && s.ring[j] != s.table[id] ==>
                                    exists i :: j < i < |s.ring| && s.ring[i] == s.table[id])
  {
    var s := After(State([], map[]), steps);
    if id in s.table {
      var i := PositionOf(s, id);
    }
  }

  /** What a lookup of `id` finds; null for a miss. */
  ghost function Lookup(s: State, id: int): JobRecord? {
    if id in s.table then s.table[id] else null
  }

  /** The record of the last step about `id`, if that step added it. */
  ghost function LastAdded(found: JobRecord?, steps: seq<Step>, id: int): JobRecord?
    decreases |steps|
  {
    if steps == [] then found
    else
      var now := if steps[0].record.jobId != id then found else if steps[0].Add? then steps[0].record else null;
      LastAdded(now, steps[1..], id)
  }

  /** Only the last step about an id decides what a lookup of it finds. */
  lemma {:induction false} LookupFindsLastAdded(s: State, steps: seq<Step>, id: int)
    requires Ok(s) && PossibleRun(s, steps)
    ensures Lookup(After(s, steps), id) == LastAdded(Lookup(s, id), steps, id)
    decreases |steps|
  {
    if steps != [] {
      LookupFindsLastAdded(Next(s, steps[0]), steps[1..], id);
    }
  }

  // ----------------------------------------------------- which records stay

  /** The elements of `t` stand in the order that they have in `s`. */
  ghost predicate InOrder(t: seq<JobRecord>, s: seq<JobRecord>) {
    forall p, q :: 0 <= p < q < |t| ==> Ordered(s, t[p], t[q])
  }

  ghost predicate Ordered(s: seq<JobRecord>, x: JobRecord, y: JobRecord) {
    exists i, j :: 0 <= i < j < |s| && s[i] == x && s[j] == y
  }

  /** Adding takes out the record that the id led to if it has the same submit time, and no other. */
  lemma AddedRing(s: State, r: JobRecord)
    requires Ok(s) && r !in s.ring
    ensures forall x :: x in Added(s, r).ring && x != r <==>
                        x in s.ring && !(r.jobId in s.table && x == s.table[r.jobId] && x.submitTime == r.submitTime)
    ensures var t := Added(s, r).ring; |t| > 0 && t[|t| - 1] == r && InOrder(t[..|t| - 1], s.ring)
  {
    var ring := Added(s, r).ring;
    if SameSubmission(s, r) {
      var k := PositionOf(s, r.jobId);
      FreedOk(s, k);
      assert ring == Freed(s, k).ring + [r];
      assert ring[..|ring| - 1] == Freed(s, k).ring;
      RemovedInOrder(s.ring, k);
    } else {
      assert ring[..|ring| - 1] == s.ring;
      SelfInOrder(s.ring);
    }
  }

  lemma SelfInOrder(s: seq<JobRecord>)
    ensures InOrder(s, s)
  {
  }

  lemma RemovedInOrder(s: seq<JobRecord>, k: nat)
    requires k < |s|
    ensures InOrder(Removed(s, k), s)
  {
    var t := Removed(s, k);
    forall p, q | 0 <= p < q < |t| ensures Ordered(s, t[p], t[q]) {
      RemovedAt(s, k, p);
      RemovedAt(s, k, q);
      var i, j := if p < k then p else p + 1, if q < k then q else q + 1;
      assert s[i] == t[p] && s[j] == t[q];
    }
  }

  lemma {:induction false} RunSnoc(s: State, steps: seq<Step>, last: Step)
    requires Ok(s) && PossibleRun(s, steps) && Possible(After(s, steps), last)
    ensures PossibleRun(s, steps + [last]) && After(s, steps + [last]) == Next(After(s, steps), last)
    decreases |steps|
  {
    if steps == [] {
      assert steps + [last] == [last] && [last][1..] == [];
    } else {
      assert (steps + [last])[0] == steps[0] && (steps + [last])[1..] == steps[1..] + [last];
      RunSnoc(Next(s, steps[0]), steps[1..], last);
    }
  }

  const EMPTY := State([], map[])

  /** The records added one after the other. */
  ghost function AddAll(rs: seq<JobRecord>): (s: State)
    requires Distinct(rs)
    ensures Ok(s) && forall x :: x in s.ring ==> x in rs
    decreases |rs|
  {
    if rs == [] then EMPTY
    else
      var n := |rs| - 1;
      var s := AddAll(rs[..n]);
      NewcomerOutside(rs, s.ring);
      AddedOk(s, rs[n]);
      AddedRing(s, rs[n]);
      Added(s, rs[n])
  }

  lemma NewcomerOutside(rs: seq<JobRecord>, ring: seq<JobRecord>)
    requires Distinct(rs) && rs != [] && forall x :: x in ring ==> x in rs[..|rs| - 1]
    ensures rs[|rs| - 1] !in ring
  {
    Only(rs, |rs| - 1);
  }

  ghost function Additions(rs: seq<JobRecord>): seq<Step> {
    seq(|rs|, i requires 0 <= i < |rs| => Add(rs[i]))
  }

  lemma {:induction false} RunOfAdditions(rs: seq<JobRecord>)
    requires Distinct(rs)
    ensures PossibleRun(EMPTY, Additions(rs)) && After(EMPTY, Additions(rs)) == AddAll(rs)
    decreases |rs|
  {
    hide Added, IndexOk;
    if rs != [] {
      var n := |rs| - 1;
      var pre, r := rs[..n], rs[n];
      RunOfAdditions(pre);
      NewcomerOutside(rs, AddAll(pre).ring);
      assert Additions(rs) == Additions(pre) + [Add(r)];
      RunSnoc(EMPTY, Additions(pre), Add(r));
    }
  }

  lemma LookupAdded(s: State, r: JobRecord, id: int)
    requires Ok(s)
    ensures Lookup(Added(s, r), id) == if id == r.jobId then r else Lookup(s, id)
  {
  }

  /** A lookup finds the last record added with the id. */
  lemma {:induction false} LookupAddAll(rs: seq<JobRecord>, id: int, i: nat)
    requires Distinct(rs) && i < |rs| && rs[i].jobId == id
    ensures Lookup(AddAll(rs), id) == rs[i] <==> forall k :: i < k < |rs| ==> rs[k].jobId != id
    decreases |rs|
  {
    hide Added, IndexOk, Lookup;
    var n := |rs| - 1;
    LookupAdded(AddAll(rs[..n]), rs[n], id);
    if rs[n].jobId == id {
      Only(rs, n);
    } else {
      LookupAddAll(rs[..n], id, i);
      assert forall k :: 0 <= k < n ==> rs[..n][k] == rs[k];
    }
  }

  /** The next record added with the same id is of the same submission. */
  ghost predicate Superseded(rs: seq<JobRecord>, i: nat)
    requires i < |rs|
  {
    exists j :: i < j < |rs| && SupersededBy(rs, i, j)
  }

  ghost predicate SupersededBy(rs: seq<JobRecord>, i: nat, j: int)
    requires i < j < |rs|
  {
    && rs[j].jobId == rs[i].jobId && rs[j].submitTime == rs[i].submitTime
    && forall k :: i < k < j ==> rs[k].jobId != rs[i].jobId
  }

  lemma SupersededGrows(rs: seq<JobRecord>, i: nat)
    requires i + 1 < |rs|
    ensures var n := |rs| - 1;
            Superseded(rs, i) <==> Superseded(rs[..n], i) || SupersededBy(rs, i, n)
  {
    var n := |rs| - 1;
    var pre := rs[..n];
    forall j | i < j < n ensures SupersededBy(rs, i, j) <==> SupersededBy(pre, i, j) {
      assert forall k :: i <= k <= j ==> pre[k] == rs[k];
    }
  }

  /**
   Which records a run of additions leaves: all but those whose id was added again
   next with the same submit time.
   */
  lemma {:induction false} Remains(rs: seq<JobRecord>, i: nat)
    requires Distinct(rs) && i < |rs|
    ensures rs[i] in AddAll(rs).ring <==> !Superseded(rs, i)
    decreases |rs|
  {
    var n := |rs| - 1;
    var pre, r := rs[..n], rs[n];
    var s := AddAll(pre);
    NewcomerOutside(rs, s.ring);
    AddedRing(s, r);
    hide Added, IndexOk, LastWith, InOrder;
    if i < n {
      Only(rs, n);
      Remains(pre, i);
      SupersededGrows(rs, i);
      if rs[i].jobId == r.jobId {
        LookupAddAll(pre, r.jobId, i);
        assert forall k :: 0 <= k < n ==> pre[k] == rs[k];
      } else {
        LookupKeepsId(s, r.jobId);
      }
    }
  }

  lemma LookupKeepsId(s: State, id: int)
    requires Ok(s)
    ensures id in s.table ==> s.table[id].jobId == id
  {
    if id in s.table {
      var i := PositionOf(s, id);
    }
  }

  lemma OrderedStill(s: seq<JobRecord>, r: JobRecord, x: JobRecord, y: JobRecord)
    requires Ordered(s, x, y)
    ensures Ordered(s + [r], x, y)
  {
    var i, j :| 0 <= i < j < |s| && s[i] == x && s[j] == y;
    assert (s + [r])[i] == x && (s + [r])[j] == y;
  }

  lemma OrderedThrough(t: seq<JobRecord>, s: seq<JobRecord>, x: JobRecord, y: JobRecord)
    requires InOrder(t, s) && Ordered(t, x, y)
    ensures Ordered(s, x, y)
  {
  }

  lemma OrderedLast(s: seq<JobRecord>, r: JobRecord, x: JobRecord)
    requires x in s
    ensures Ordered(s + [r], x, r)
  {
    var i :| 0 <= i < |s| && s[i] == x;
    assert (s + [r])[i] == x && (s + [r])[|s|] == r;
  }

  /** And they stand in the order of their arrival. */
  lemma {:induction false} RemainInOrder(rs: seq<JobRecord>)
    requires Distinct(rs)
    ensures InOrder(AddAll(rs).ring, rs)
    decreases |rs|
  {
    if rs != [] {
      var n := |rs| - 1;
      var pre, r := rs[..n], rs[n];
      var s := AddAll(pre);
      NewcomerOutside(rs, s.ring);
      AddedRing(s, r);
      RemainInOrder(pre);
      var t := Added(s, r).ring;
      assert rs == pre + [r];
      hide Added, IndexOk, AddAll, Ordered;
      forall p, q | 0 <= p < q < |t| ensures Ordered(rs, t[p], t[q]) {
        if q < |t| - 1 {
          assert t[..|t| - 1][p] == t[p] && t[..|t| - 1][q] == t[q];
          OrderedThrough(s.ring, pre, t[p], t[q]);
          OrderedStill(pre, r, t[p], t[q]);
        } else {
          assert t[..|t| - 1][p] == t[p];
          StaysInside(s, r, p);
          OrderedLast(pre, r, t[p]);
        }
      }
    }
  }

  lemma StaysInside(s: State, r: JobRecord, p: nat)
    requires Ok(s) && r !in s.ring && p < |Added(s, r).ring| - 1
    ensures Added(s, r).ring[p] in s.ring
  {
    AddedOk(s, r);
    AddedRing(s, r);
    Only(Added(s, r).ring, |Added(s, r).ring| - 1);
  }

  // --------------------------------------------------------------- the heap

  /** The neighbours of record `i`; the sentinel closes the ring. */
  ghost function Forw(ring: seq<JobRecord>, head: JobRecord, i: nat): JobRecord
    requires i < |ring|
  {
    if i + 1 < |ring| then ring[i + 1] else head
  }

  ghost function Back(ring: seq<JobRecord>, head: JobRecord, i: nat): JobRecord
    requires i < |ring|
  {
    if i > 0 then ring[i - 1] else head
  }

  lemma RemovedNeighbours(ring: seq<JobRecord>, head: JobRecord, k: nat, i: nat)
    requires k < |ring| && i < |ring| - 1
    ensures var r, j := Removed(ring, k), if i < k then i else i + 1;
            && r[i] == ring[j]
            && Forw(r, head, i) == (if j + 1 == k then Forw(ring, head, k) else Forw(ring, head, j))
            && Back(r, head, i) == (if j == k + 1 then Back(ring, head, k) else Back(ring, head, j))
  {
  }

  /** The records are linked in both directions, from the sentinel and back to it. */
  ghost predicate RingOf(ring: seq<JobRecord>, head: JobRecord)
    reads head`forw, head`back, ring`forw, ring`back
  {
    && head !in ring && Distinct(ring)
    && head.forw == (if ring == [] then head else ring[0])
    && head.back == (if ring == [] then head else ring[|ring| - 1])
    && forall i :: 0 <= i < |ring| ==> ring[i].forw == Forw(ring, head, i) && ring[i].back == Back(ring, head, i)
  }

  /** The pointers that `inJobList` leaves are those of the longer ring. */
  lemma RingAppended(s: seq<JobRecord>, head: JobRecord, entry: JobRecord)
    requires Distinct(s) && head !in s && entry !in s && entry != head
    requires head.back == entry && head.forw == (if s == [] then entry else s[0])
    requires entry.forw == head && entry.back == (if s == [] then head else s[|s| - 1])
    requires forall j :: 0 <= j < |s| ==> s[j].back == Back(s, head, j)
    requires forall j :: 0 <= j < |s| ==> s[j].forw == Forw(s, entry, j)
    ensures RingOf(s + [entry], head)
  {
    AppendedDistinct<JobRecord>(s, entry);
    hide Distinct, Forw, Back;
    var r := s + [entry];
    forall i | 0 <= i < |r|
      ensures r[i].forw == Forw(r, head, i) && r[i].back == Back(r, head, i)
    {
      AppendedNeighbours(s, head, entry, i);
    }
  }

  /** The pointers that `offJobList` leaves are those of the shorter ring. */
  lemma RingRemoved(s: seq<JobRecord>, head: JobRecord, k: nat)
    requires k < |s| && Distinct(s) && head !in s
    requires head.forw == (if k > 0 then s[0] else Forw(s, head, 0))
    requires head.back == if k + 1 < |s| then s[|s| - 1] else Back(s, head, k)
    requires forall j :: 0 <= j < |s| && j != k ==>
               s[j].forw == if j + 1 == k then Forw(s, head, k) else Forw(s, head, j)
    requires forall j :: 0 <= j < |s| && j != k ==>
               s[j].back == if j == k + 1 then Back(s, head, k) else Back(s, head, j)
    ensures RingOf(Removed(s, k), head)
  {
    hide Distinct, Forw, Back, Removed;
    RemovedDistinct(s, k);
    RemovedMembers(s, k);
    RemovedEnds(s, head, k);
    var r := Removed(s, k);
    forall i | 0 <= i < |r|
      ensures r[i].forw == Forw(r, head, i) && r[i].back == Back(r, head, i)
    {
      RemovedNeighbours(s, head, k, i);
    }
  }

  lemma AppendedNeighbours(ring: seq<JobRecord>, head: JobRecord, entry: JobRecord, i: nat)
    requires i <= |ring|
    ensures var r := ring + [entry];
            && r[i] == (if i < |ring| then ring[i] else entry)
            && Forw(r, head, i) == (if i == |ring| then head else Forw(ring, entry, i))
            && Back(r, head, i) == (if i < |ring| then Back(ring, head, i) else if ring == [] then head else ring[i - 1])
  {
  }

  class JobList {
    const head: JobRecord
    var table: map<int, JobRecord>
    ghost var ring: seq<JobRecord>

    ghost predicate RingOk()
      reads this`ring, head`forw, head`back, ring`forw, ring`back
    {
      RingOf(ring, head)
    }

    lemma RingDistinct()
      requires RingOk()
      ensures Distinct(ring) && head !in ring && (head.back == head || head.back in ring)
    {
    }

    ghost function View(): State
      reads this
    {
      State(ring, table)
    }

    ghost predicate Valid()
      reads this, head`forw, head`back, ring`forw, ring`back
    {
      RingOk() && IndexOk(ring, table)
    }

    /** `initJobList`. */
    constructor ()
      ensures Valid() && View() == State([], map[]) && fresh(head)
    {
      head := new JobRecord(0, 0);
      table, ring := map[], [];
      new;
      head.forw, head.back := head, head;
    }

    /** The pointer writes of `inJobList`. */
    method LinkLast(entry: JobRecord)
      requires RingOk() && entry !in ring && entry != head
      modifies head`forw, head`back, head.back`forw, entry`forw, entry`back
      ensures head.back == entry && head.forw == (if ring == [] then entry else ring[0])
      ensures entry.forw == head && entry.back == (if ring == [] then head else ring[|ring| - 1])
      ensures forall j :: 0 <= j < |ring| ==> ring[j].back == Back(ring, head, j)
      ensures forall j :: 0 <= j < |ring| ==> ring[j].forw == Forw(ring, entry, j)
    {
      hide Distinct;
      if ring != [] { Only(ring, |ring| - 1); }
      entry.forw := head;
      entry.back := head.back;
      head.back.forw := entry;
      head.back := entry;
    }

    /** `inJobList` in front of the sentinel: the record becomes the last one. */
    method InJobList(entry: JobRecord)
      requires RingOk() && entry !in ring && entry != head
      modifies this`ring, head`forw, head`back, head.back`forw, entry`forw, entry`back
      ensures RingOk() && ring == old(ring) + [entry]
    {
      LinkLast(entry);
      RingAppended(ring, head, entry);
      hide RingOf;
      ring := ring + [entry];
    }

    /** The first pointer write of `offJobList`. */
    method LinkForw(entry: JobRecord, ghost k: nat)
      requires RingOk() && k < |ring| && ring[k] == entry
      modifies head`forw, ring`forw
      ensures head.forw == (if k > 0 then ring[0] else Forw(ring, head, 0)) && entry.forw == Forw(ring, head, k)
      ensures forall j :: 0 <= j < |ring| && j != k ==>
                ring[j].forw == if j + 1 == k then Forw(ring, head, k) else Forw(ring, head, j)
    {
      hide Distinct;
      if k > 0 { Only(ring, k - 1); }
      assert entry.back == Back(ring, head, k) && entry.forw == Forw(ring, head, k);
      if entry.back != null {
        entry.back.forw := entry.forw;
      }
    }

    /** The second pointer write of `offJobList`. */
    method LinkBack(entry: JobRecord, ghost k: nat)
      requires k < |ring| && ring[k] == entry && Distinct(ring) && head !in ring && entry.forw == Forw(ring, head, k)
      requires forall j :: 0 <= j < |ring| ==> ring[j].back == Back(ring, head, j)
      requires head.back == ring[|ring| - 1]
      modifies head`back, ring`back
      ensures head.back == if k + 1 < |ring| then ring[|ring| - 1] else Back(ring, head, k)
      ensures forall j :: 0 <= j < |ring| && j != k ==>
                ring[j].back == if j == k + 1 then Back(ring, head, k) else Back(ring, head, j)
    {
      hide Distinct;
      if k + 1 < |ring| { Only(ring, k + 1); }
      assert entry.back == Back(ring, head, k);
      if entry.forw != null {
        entry.forw.back := entry.back;
      }
    }

    /** `offJobList`. */
    method OffJobList(entry: JobRecord, ghost k: nat)
      requires RingOk() && k < |ring| && ring[k] == entry
      modifies this`ring, head`forw, head`back, ring`forw, ring`back
      ensures RingOk() && ring == Removed(old(ring), k)
    {
      hide Distinct, Forw, Back, Removed;
      LinkForw(entry, k);
      LinkBack(entry, k);
      RingRemoved(ring, head, k);
      hide RingOf;
      ring := Removed(ring, k);
    }

    /** `freeJobRecord`. */
    method FreeJobRecord(record: JobRecord, ghost k: nat)
      requires Valid() && k < |ring| && ring[k] == record
      modifies this, head`forw, head`back, ring`forw, ring`back
      ensures Valid() && View() == Freed(old(View()), k)
    {
      hide Distinct, IndexOk, Removed, RingOk;
      assert Distinct(ring) by { RingDistinct(); }
      FreedOk(View(), k);
      OffJobList(record, k);
      table := table - {record.jobId};
    }

    /** The second half of `addJob`: an earlier record of the submission goes, the new one comes in. */
    method EnterJob(record: JobRecord)
      requires Valid() && record !in ring && record != head
      modifies this, head`forw, head`back, ring`forw, ring`back, record`forw, record`back
      ensures Valid() && View() == Added(old(View()), record)
    {
      hide Distinct, IndexOk, Removed, RingOk;
      assert Distinct(ring) by { RingDistinct(); }
      AddedOk(View(), record);
      if record.jobId in table {
        var older := table[record.jobId];
        if record.submitTime == older.submitTime {
          ghost var k := PositionOf(View(), record.jobId);
          InFreed(View(), k);
          FreeJobRecord(older, k);
        }
      }
      assert forall x :: x in ring ==> x in old(ring);
      table := table[record.jobId := record];
      assert head.back == head || head.back in ring by { RingDistinct(); }
      InJobList(record);
    }

    /** `addJob`. */
    method AddJob(record: JobRecord)
      requires Valid() && record !in ring && record != head
      modifies this, head`forw, head`back, ring`forw, ring`back, record`forw, record`back
      modifies record`eventhead, record`eventtail, record`chain, record`events, record`tail, record`nonNewFromHead
      modifies record`currentStatus, record`endTime
      ensures Valid() && View() == Added(old(View()), record)
      ensures record.Valid() && record.Model() == NEW_JOB.(reasons := record.reasons)
    {
      hide IndexOk, RingOk, JobRecord.Valid, Added;
      record.Reset();
      record.forw, record.back := null, null;
      EnterJob(record);
    }
  }

  lemma RemovedEnds(ring: seq<JobRecord>, head: JobRecord, k: nat)
    requires k < |ring|
    ensures var r := Removed(ring, k);
            && (if k > 0 then ring[0] else Forw(ring, head, 0)) == (if r == [] then head else r[0])
            && (if k + 1 < |ring| then ring[|ring| - 1] else Back(ring, head, k)) == (if r == [] then head else r[|r| - 1])
  {
  }

  lemma InFreed(s: State, k: nat)
    requires Ok(s) && k < |s.ring|
    ensures forall x :: x in Freed(s, k).ring ==> x in s.ring
  {
    FreedOk(s, k);
  }
}
