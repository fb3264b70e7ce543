/**
 Job-array ids: the packed 64-bit id, the checks on a parsed index list, and the
 expansion of index lists into arrays of ids without repetition.
 */
module JobIds {
  import opened Bits
  import opened Sequences

  const WORD := 0x1_0000_0000
  const MAX_ARRAY_IDX := 0xFFFF
  const INFINIT_INT := 0x7FFF_FFFF
  const MAX_JOB_IDS := 100

  // --------------------------------------------------------------- packed ids

  /** `LSB_JOBID`: the index in the high word, the job in the low one. */
  function Pack(jobId: int, idx: int): int {
    idx * WORD + jobId
  }

  /** A C cast from a 32-bit pattern to `int`. */
  function ToInt(w: int): int {
    if w < WORD / 2 then w else w - WORD
  }

  /** `LSB_ARRAY_IDX`. */
  function ArrayIdx(id: int): int {
    if id == -1 then 0 else id / WORD % (MAX_ARRAY_IDX + 1)
  }

  /** `LSB_ARRAY_JOBID`. */
  function ArrayJobId(id: int): int {
    if id == -1 then -1 else ToInt(id % WORD)
  }

  lemma Words(jobId: int, idx: int)
    requires 0 <= jobId < WORD
    ensures Pack(jobId, idx) % WORD == jobId && Pack(jobId, idx) / WORD == idx
  {
  }

  /** Packing is undone exactly for job ids that fit a C `int`; the index always comes back. */
  lemma UnpackInvertsPack(jobId: int, idx: int)
    requires 0 <= jobId < WORD && 0 <= idx <= MAX_ARRAY_IDX
    ensures ArrayIdx(Pack(jobId, idx)) == idx
    ensures ArrayJobId(Pack(jobId, idx)) == jobId <==> jobId <= INFINIT_INT
  {
    Words(jobId, idx);
  }

  lemma PackInvertsUnpack(id: int)
    requires 0 <= id < WORD * (MAX_ARRAY_IDX + 1)
    ensures Pack(ArrayJobId(id), ArrayIdx(id)) == id <==> id % WORD <= INFINIT_INT
  {
    assert id == id / WORD * WORD + id % WORD;
    assert 0 <= id / WORD <= MAX_ARRAY_IDX;
  }

  lemma PackInjective(jobId: int, idx: int, jobId': int, idx': int)
    requires 0 <= jobId < WORD && 0 <= jobId' < WORD && Pack(jobId, idx) == Pack(jobId', idx')
    ensures jobId == jobId' && idx == idx'
  {
    Words(jobId, idx);
    Words(jobId', idx');
  }

  /** The shifts and masks of the macros are this arithmetic. */
  lemma PackBits(jobId: nat, idx: nat)
    requires jobId < WORD
    ensures Pack(jobId, idx) == Or(ShiftLeft(idx, 32), jobId)
  {
    Pow2Words();
    hide Pow2, Or, And, ShiftLeft;
    Shifts(idx, 32);
    Join(idx, jobId, 32);
  }

  lemma UnpackBits(id: nat)
    ensures ArrayIdx(id) == And(ShiftRight(id, 32), 0xFFFF)
    ensures ArrayJobId(id) == ToInt(And(id, 0xFFFF_FFFF))
  {
    Pow2Words();
    hide Pow2, Or, And, ShiftRight;
    Shifts(id, 32);
    Mask(id / WORD, 16);
    Mask(id, 32);
  }

  // --------------------------------------------------------------- index lists

  datatype IdxRange = IdxRange(start: int, end: int, step: int)

  /** An open end stands for the largest index. */
  function Clamp(r: IdxRange): IdxRange {
    if r.end == INFINIT_INT then r.(end := MAX_ARRAY_IDX) else r
  }

  predicate InRange(r: IdxRange) {
    1 <= r.start <= r.end <= MAX_ARRAY_IDX && 1 <= r.step <= MAX_ARRAY_IDX
  }

  /** The checks of `parseJobArrayIndex`, which closes open ends on the way. */
  method CheckRanges(list: array<IdxRange>) returns (ok: bool)
    modifies list
    ensures ok <==> forall i :: 0 <= i < list.Length ==> InRange(Clamp(old(list[i])))
    ensures ok ==> forall i :: 0 <= i < list.Length ==> list[i] == Clamp(old(list[i]))
  {
    for i := 0 to list.Length
      invariant forall j :: 0 <= j < i ==> InRange(Clamp(old(list[j]))) && list[j] == Clamp(old(list[j]))
      invariant forall j :: i <= j < list.Length ==> list[j] == old(list[j])
    {
      assert list[i] == old(list[i]);
      if list[i].end == INFINIT_INT {
        list[i] := list[i].(end := MAX_ARRAY_IDX);
      }
      if list[i].start > list[i].end {
        return false;
      }
      if list[i].start <= 0 || list[i].start > MAX_ARRAY_IDX {
        return false;
      }
      if list[i].end <= 0 || list[i].end > MAX_ARRAY_IDX {
        return false;
      }
      if list[i].step <= 0 || list[i].step > MAX_ARRAY_IDX {
        return false;
      }
    }
    return true;
  }

  ghost predicate Checked(ranges: seq<IdxRange>) {
    forall k :: 0 <= k < |ranges| ==> InRange(ranges[k])
  }

  // ----------------------------------------------------------------- expansion

  /** What an index becomes: itself in `getSpecIdxs`, a packed id elsewhere. */
  datatype Base = Plain | ArrayOf(jobId: int)

  function Id(base: Base, j: int): int {
    if base.Plain? then j else Pack(base.jobId, j)
  }

  /** The ids from index `j` on, in the order of the loop. */
  ghost function From(base: Base, r: IdxRange, j: int): seq<int>
    requires r.step > 0
    decreases r.end - j
  {
    if j > r.end then [] else [Id(base, j)] + From(base, r, j + r.step)
  }

  ghost function All(base: Base, ranges: seq<IdxRange>): seq<int>
    requires Checked(ranges)
  {
    if ranges == [] then [] else From(base, ranges[0], ranges[0].start) + All(base, ranges[1..])
  }

  /** `seen` continued with the elements of `s` that were not there before. */
  ghost function Firsts(seen: seq<int>, s: seq<int>): seq<int>
    decreases |s|
  {
    if s == [] then seen else Firsts(Seen(seen, s[0]), s[1..])
  }

  ghost function Seen(seen: seq<int>, x: int): seq<int> {
    if x in seen then seen else seen + [x]
  }

  lemma {:induction false} FirstsSplit(seen: seq<int>, s: seq<int>, t: seq<int>)
    ensures Firsts(seen, s + t) == Firsts(Firsts(seen, s), t)
    decreases |s|
  {
    if s == [] {
      assert s + t == t;
    } else {
      assert (s + t)[0] == s[0] && (s + t)[1..] == s[1..] + t;
      FirstsSplit(Seen(seen, s[0]), s[1..], t);
    }
  }

  /** No element twice, and exactly the elements of both. */
  lemma {:induction false} FirstsDistinct(seen: seq<int>, s: seq<int>)
    requires Distinct(seen)
    ensures Distinct(Firsts(seen, s)) && seen <= Firsts(seen, s)
    ensures forall x :: x in Firsts(seen, s) <==> x in seen || x in s
    decreases |s|
  {
    if s != [] {
      FirstsDistinct(Seen(seen, s[0]), s[1..]);
      assert forall x :: x in s <==> x == s[0] || x in s[1..];
    }
  }

  /** `x` occurs in `s`, and `y` does not before it. */
  ghost predicate ComesFirst(s: seq<int>, x: int, y: int) {
    exists i :: 0 <= i < |s| && s[i] == x && y !in s[..i + 1]
  }

  /** The order is that of first occurrences. */
  lemma {:induction false} FirstsOrder(seen: seq<int>, s: seq<int>, p: nat, q: nat)
    requires Distinct(seen) && p < q < |Firsts(seen, s)|
    ensures ComesFirst(seen + s, Firsts(seen, s)[p], Firsts(seen, s)[q])
    decreases |s|
  {
    var x, y := Firsts(seen, s)[p], Firsts(seen, s)[q];
    if s == [] {
      assert seen + s == seen;
      assert seen[p] == x && y !in seen[..p + 1];
    } else {
      hide Distinct, ComesFirst;
      var next := Seen(seen, s[0]);
      assert Distinct(next) by { SeenDistinct(seen, s[0]); }
      FirstsOrder(next, s[1..], p, q);
      if s[0] in seen {
        SkipSeen(seen, s, x, y);
      } else {
        assert seen + s == next + s[1..];
      }
    }
  }

  lemma SeenDistinct(seen: seq<int>, x: int)
    requires Distinct(seen)
    ensures Distinct(Seen(seen, x))
  {
  }

  /** An element seen before changes no first occurrence. */
  lemma SkipSeen(seen: seq<int>, s: seq<int>, x: int, y: int)
    requires s != [] && s[0] in seen && ComesFirst(seen + s[1..], x, y)
    ensures ComesFirst(seen + s, x, y)
  {
    var i :| 0 <= i < |seen + s[1..]| && (seen + s[1..])[i] == x && y !in (seen + s[1..])[..i + 1];
    if i < |seen| {
      assert (seen + s)[..i + 1] == (seen + s[1..])[..i + 1];
    } else {
      assert (seen + s)[i + 1] == x;
      forall m | 0 <= m < i + 2
        ensures (seen + s)[m] != y
      {
        if m < |seen| {
          assert (seen + s[1..])[..i + 1][m] == (seen + s)[m];
        } else if m == |seen| {
          var k :| 0 <= k < |seen| && seen[k] == s[0];
          assert (seen + s[1..])[..i + 1][k] == s[0];
        } else {
          assert (seen + s[1..])[..i + 1][m - 1] == (seen + s)[m];
        }
      }
      assert y !in (seen + s)[..i + 2];
    }
  }

  /** The loop that stands at `j` will reach `i`. */
  ghost predicate Reaches(r: IdxRange, j: int, i: int)
    requires r.step > 0
  {
    j <= i <= r.end && (i - j) % r.step == 0
  }

  lemma ReachesNext(r: IdxRange, j: int, i: int)
    requires r.step > 0 && j <= r.end
    ensures Reaches(r, j, i) <==> i == j || Reaches(r, j + r.step, i)
  {
    if j < i < j + r.step {
      assert (i - j) % r.step == i - j;
    } else if j + r.step <= i {
      assert (i - j - r.step) % r.step == (i - j) % r.step by { OneStepLess(i - j, r.step); }
    }
  }

  lemma OneStepLess(x: int, n: int)
    requires x >= n > 0
    ensures (x - n) % n == x % n
  {
    assert x == x / n * n + x % n;
    assert x - n == (x / n - 1) * n + x % n;
    Quotient(x - n, x / n - 1, n, x % n);
  }

  lemma {:induction false} FromMembers(base: Base, r: IdxRange, j: int, id: int)
    requires r.step > 0
    ensures id in From(base, r, j) <==> exists i :: Reaches(r, j, i) && id == Id(base, i)
    decreases r.end - j
  {
    if j <= r.end {
      FromMembers(base, r, j + r.step, id);
      assert id in From(base, r, j) <==> id == Id(base, j) || id in From(base, r, j + r.step);
      hide From;
      forall i ensures Reaches(r, j, i) <==> i == j || Reaches(r, j + r.step, i) {
        ReachesNext(r, j, i);
      }
      hide Reaches, Id;
      assert Reaches(r, j, j);
    }
  }

  lemma {:induction false} AllMembers(base: Base, ranges: seq<IdxRange>, id: int)
    requires Checked(ranges)
    ensures id in All(base, ranges) <==>
            exists k, i :: 0 <= k < |ranges| && Reaches(ranges[k], ranges[k].start, i) && id == Id(base, i)
    decreases |ranges|
  {
    hide Reaches, Id, From;
    if ranges != [] {
      var r := ranges[0];
      FromMembers(base, r, r.start, id);
      AllMembers(base, ranges[1..], id);
      if k, i :| 0 <= k < |ranges| && Reaches(ranges[k], ranges[k].start, i) && id == Id(base, i) {
        assert k > 0 ==> ranges[k] == ranges[1..][k - 1];
      }
      if k, i :| 0 <= k < |ranges[1..]| && Reaches(ranges[1..][k], ranges[1..][k].start, i) && id == Id(base, i) {
        assert ranges[1..][k] == ranges[k + 1];
      }
    }
  }

  /**
   What a checked index list expands to: every id of its progressions exactly
   once, from which the job and the index can be read back.
   */
  lemma ExpansionExact(jobId: int, ranges: seq<IdxRange>, id: int)
    requires 0 <= jobId <= INFINIT_INT && Checked(ranges)
    ensures var ids := Firsts([], All(ArrayOf(jobId), ranges));
            && Distinct(ids)
            && (id in ids <==>
                  && ArrayJobId(id) == jobId && id == Pack(jobId, ArrayIdx(id))
                  && exists k :: 0 <= k < |ranges| && Reaches(ranges[k], ranges[k].start, ArrayIdx(id)))
  {
    var all := All(ArrayOf(jobId), ranges);
    FirstsDistinct([], all);
    AllMembers(ArrayOf(jobId), ranges, id);
    hide All, Firsts, Pack, ArrayIdx, ArrayJobId, Distinct;
    if k, i :| 0 <= k < |ranges| && Reaches(ranges[k], ranges[k].start, i) && id == Id(ArrayOf(jobId), i) {
      assert InRange(ranges[k]);
      UnpackInvertsPack(jobId, i);
    }
    assert Id(ArrayOf(jobId), ArrayIdx(id)) == Pack(jobId, ArrayIdx(id));
    hide Reaches, Id;
  }

  /** A range with an open end expands up to the largest index, 65535; any other up to its end. */
  lemma OpenRange(r: IdxRange, idx: int)
    requires 1 <= r.start && 1 <= r.step
    ensures var end := if r.end == 0x7FFF_FFFF then 65535 else r.end;
            idx in From(Plain, Clamp(r), r.start) <==> r.start <= idx <= end && (idx - r.start) % r.step == 0
  {
    FromMembers(Plain, Clamp(r), r.start, idx);
    assert Id(Plain, idx) == idx;
  }

  /** What the checks of an index list let through, with the bounds of the source. */
  lemma InRangeIs(r: IdxRange)
    ensures InRange(Clamp(r)) <==>
            var end := if r.end == 0x7FFF_FFFF then 65535 else r.end;
            1 <= r.start <= end <= 65535 && 1 <= r.step <= 65535
  {
  }

  // ------------------------------------------------------------- the array loops

  /** An array of ids in use up to `num`, always a whole number of blocks long. */
  ghost predicate Store(ids: array<int>, num: nat)
    reads ids
  {
    num <= ids.Length && ids.Length % MAX_JOB_IDS == 0 && Distinct(ids[..num])
  }

  /** The body of the loops: grow by a block when full, look for the id, append it. */
  method Add(ids: array<int>, num: nat, id: int) returns (ids': array<int>, num': nat)
    requires Store(ids, num)
    modifies ids
    ensures Store(ids', num') && (ids' == ids || fresh(ids'))
    ensures ids'[..num'] == Seen(old(ids[..num]), id)
    ensures ids'.Length == if num == ids.Length then ids.Length + MAX_JOB_IDS else ids.Length
  {
    ids', num' := ids, num;
    if num >= ids.Length {
      ids' := new int[ids.Length + MAX_JOB_IDS];
      forall i | 0 <= i < num {
        ids'[i] := ids[i];
      }
    }
    assert ids'[..num] == old(ids[..num]);
    var i := 0;
    while i < num
      invariant 0 <= i <= num && id !in ids'[..i]
      invariant ids'[..num] == old(ids[..num])
    {
      if id == ids'[i] {
        break;
      }
      i := i + 1;
    }
    if i == num {
      SeenDistinct(ids'[..num], id);
      ids'[num] := id;
      num' := num + 1;
      assert ids'[..num'] == old(ids[..num]) + [id];
    }
  }

  /** The inner loop over one range; the index never leaves 17 bits. */
  method AddRange(ids: array<int>, num: nat, base: Base, r: IdxRange) returns (ids': array<int>, num': nat)
    requires Store(ids, num) && InRange(r)
    modifies ids
    ensures Store(ids', num') && (ids' == ids || fresh(ids'))
    ensures ids'[..num'] == Firsts(old(ids[..num]), From(base, r, r.start))
  {
    hide Id, Distinct, Seen;
    ids', num' := ids, num;
    var j := r.start;
    while j <= r.end
      invariant 1 <= j <= 2 * MAX_ARRAY_IDX
      invariant Store(ids', num') && (ids' == ids || fresh(ids'))
      invariant Firsts(ids'[..num'], From(base, r, j)) == Firsts(old(ids[..num]), From(base, r, r.start))
      decreases r.end - j
    {
      assert From(base, r, j)[1..] == From(base, r, j + r.step);
      ids', num' := Add(ids', num', Id(base, j));
      j := j + r.step;
    }
  }

  method AddRanges(ids: array<int>, num: nat, base: Base, ranges: seq<IdxRange>) returns (ids': array<int>, num': nat)
    requires Store(ids, num) && Checked(ranges)
    modifies ids
    ensures Store(ids', num') && (ids' == ids || fresh(ids'))
    ensures ids'[..num'] == Firsts(old(ids[..num]), All(base, ranges))
  {
    hide From, Distinct, Seen;
    ids', num' := ids, num;
    for k := 0 to |ranges|
      invariant Store(ids', num') && (ids' == ids || fresh(ids'))
      invariant Firsts(ids'[..num'], All(base, ranges[k..])) == Firsts(old(ids[..num]), All(base, ranges))
    {
      var r := ranges[k];
      assert ranges[k..][0] == r && ranges[k..][1..] == ranges[k + 1..];
      FirstsSplit(ids'[..num'], From(base, r, r.start), All(base, ranges[k + 1..]));
      ids', num' := AddRange(ids', num', base, r);
    }
  }

  /** `getSpecIdxs` on a checked list. */
  method SpecIdxs(ranges: seq<IdxRange>) returns (idxs: array<int>, num: nat)
    requires Checked(ranges)
    ensures fresh(idxs) && Store(idxs, num) && idxs[..num] == Firsts([], All(Plain, ranges))
  {
    idxs := new int[MAX_JOB_IDS];
    assert idxs[..0] == [];
    idxs, num := AddRanges(idxs, 0, Plain, ranges);
  }

  /** A parsed argument: a job id, with an index list or none. */
  datatype Argument = Argument(jobId: int, ranges: seq<IdxRange>)

  /** What parsing an argument guarantees: only a bare id may be zero. */
  ghost predicate Parsed(arg: Argument) {
    && 0 <= arg.jobId <= INFINIT_INT && Checked(arg.ranges)
    && (arg.ranges != [] ==> arg.jobId > 0)
  }

  predicate Current(arg: Argument) {
    arg.ranges == [] && arg.jobId == 0
  }

  ghost function Named(arg: Argument): seq<int>
    requires Parsed(arg)
  {
    if arg.ranges == [] then [arg.jobId] else All(ArrayOf(arg.jobId), arg.ranges)
  }

  ghost function AllNamed(args: seq<Argument>): seq<int>
    requires forall a :: a in args ==> Parsed(a)
  {
    if args == [] then [] else Named(args[0]) + AllNamed(args[1..])
  }

  /**
   `getSpecJobIds`: the ids named by the arguments, each once; job id zero stands
   for the current job, drops what was collected and ends the loop.
   */
  method SpecJobIds(args: seq<Argument>) returns (ids: array<int>, num: nat, current: bool)
    requires forall a :: a in args ==> Parsed(a)
    ensures fresh(ids) && num <= ids.Length
    ensures current <==> exists a :: a in args && Current(a)
    ensures ids[..num] == if current then [] else Firsts([], AllNamed(args))
  {
    hide Seen, All, InRange;
    ids, num, current := new int[MAX_JOB_IDS], 0, false;
    assert ids[..0] == [];
    assert Store(ids, 0);
    hide Distinct;
    for k := 0 to |args|
      invariant fresh(ids) && Store(ids, num) && !current
      invariant forall a :: a in args[..k] ==> !Current(a)
      invariant Firsts(ids[..num], AllNamed(args[k..])) == Firsts([], AllNamed(args))
    {
      var arg := args[k];
      assert args[k..][0] == arg && args[k..][1..] == args[k + 1..];
      FirstsSplit(ids[..num], Named(arg), AllNamed(args[k + 1..]));
      if arg.ranges == [] {
        if arg.jobId == 0 {
          assert arg in args && Current(arg);
          current, num := true, 0;
          return;
        }
        ids, num := Add(ids, num, arg.jobId);
      } else {
        ids, num := AddRanges(ids, num, ArrayOf(arg.jobId), arg.ranges);
      }
    }
  }

  /** `getJobIdList`: refused without a job id, otherwise the ids of one argument. */
  method JobIdList(arg: Argument) returns (ids: array<int>, num: int)
    requires Parsed(arg)
    ensures num == -1 <==> arg.jobId == 0
    ensures num != -1 ==> 0 <= num <= ids.Length && ids[..num] == Firsts([], Named(arg))
  {
    ids := new int[MAX_JOB_IDS];
    if arg.jobId <= 0 {
      return ids, -1;
    }
    if arg.ranges == [] {
      ids[0], num := arg.jobId, 1;
      assert ids[..1] == [arg.jobId];
      return;
    }
    assert ids[..0] == [];
    ids, num := AddRanges(ids, 0, ArrayOf(arg.jobId), arg.ranges);
  }
}
