/**
 The host table of `bhosts`: a Shell sort in place, whose inner loop also swaps
 equal names, and the suppression of repeated hosts when the table is shown.
 */
module HostSort {
  datatype HostInfo = HostInfo(host: string, details: string)

  /** `strcmp`; a proper prefix is smaller. */
  function Strcmp(a: string, b: string): int {
    if a == [] then (if b == [] then 0 else -1)
    else if b == [] then 1
    else if a[0] != b[0] then a[0] as int - b[0] as int
    else Strcmp(a[1..], b[1..])
  }

  lemma {:induction false} StrcmpSign(a: string, b: string)
    ensures Strcmp(a, b) == 0 <==> a == b
    ensures Strcmp(a, b) < 0 <==> Strcmp(b, a) > 0
    decreases |a|
  {
    if a != [] && b != [] && a[0] == b[0] {
      StrcmpSign(a[1..], b[1..]);
      assert a == [a[0]] + a[1..] && b == [b[0]] + b[1..];
    }
  }

  /** At the first difference, at `k`, the first name has ended or has the smaller character. */
  ghost predicate SmallerAt(a: string, b: string, k: nat) {
    && k <= |a| && k < |b| && (k == |a| || a[k] < b[k])
    && forall i :: 0 <= i < k ==> a[i] == b[i]
  }

  lemma {:induction false} StrcmpLess(a: string, b: string)
    ensures Strcmp(a, b) < 0 <==> exists k: nat :: SmallerAt(a, b, k)
    decreases |a|
  {
    if a != [] && b != [] && a[0] == b[0] {
      var x, y := a[1..], b[1..];
      StrcmpLess(x, y);
      if Strcmp(x, y) < 0 {
        var k: nat :| SmallerAt(x, y, k);
        assert forall i :: 0 < i < k + 1 ==> a[i] == x[i - 1] && b[i] == y[i - 1];
        assert SmallerAt(a, b, k + 1);
      }
      if k: nat :| SmallerAt(a, b, k) {
        assert k > 0;
        assert SmallerAt(x, y, k - 1);
      }
    } else if b != [] && (a == [] || a[0] < b[0]) {
      assert SmallerAt(a, b, 0);
    } else if k: nat :| SmallerAt(a, b, k) {
      assert false;
    }
  }

  lemma {:induction false} StrcmpTransitive(a: string, b: string, c: string)
    requires Strcmp(a, b) <= 0 && Strcmp(b, c) <= 0
    ensures Strcmp(a, c) <= 0
    decreases |a|
  {
    if a != [] && b != [] && c != [] && a[0] == b[0] == c[0] {
      StrcmpTransitive(a[1..], b[1..], c[1..]);
    }
  }

  predicate Below(x: HostInfo, y: HostInfo) {
    Strcmp(x.host, y.host) <= 0
  }

  /** Entries `k` apart, up to `end`, are in order. */
  ghost predicate SortedBy(s: seq<HostInfo>, k: nat, end: nat)
    requires end <= |s|
  {
    forall p, q :: 0 <= p < q < end && q == p + k ==> Below(s[p], s[q])
  }

  ghost predicate Sorted(s: seq<HostInfo>) {
    forall p, q :: 0 <= p < q < |s| ==> Below(s[p], s[q])
  }

  lemma {:induction false} NeighboursSuffice(s: seq<HostInfo>, p: nat, q: nat)
    requires SortedBy(s, 1, |s|) && p < q < |s|
    ensures Below(s[p], s[q])
    decreases q
  {
    assert Below(s[q - 1], s[q]);
    if p < q - 1 {
      NeighboursSuffice(s, p, q - 1);
      StrcmpTransitive(s[p].host, s[q - 1].host, s[q].host);
    }
  }

  lemma SortedByOne(s: seq<HostInfo>)
    requires SortedBy(s, 1, |s|)
    ensures Sorted(s)
  {
    forall p, q | 0 <= p < q < |s|
      ensures Below(s[p], s[q])
    {
      NeighboursSuffice(s, p, q);
    }
  }

  /** Entry `h` is on its way down: its order with the entry `k` below is not yet known. */
  ghost predicate Moving(s: seq<HostInfo>, k: nat, end: nat, h: nat)
    requires end <= |s|
  {
    && (forall p, q :: 0 <= p < q < end && q == p + k && q != h ==> Below(s[p], s[q]))
    && (forall p, q :: 0 <= p < q < end && p + k == h && h + k == q ==> Below(s[p], s[q]))
  }

  lemma SwapKeepsMoving(s: seq<HostInfo>, k: nat, end: nat, h: nat)
    requires 0 < k <= h < end <= |s| && Moving(s, k, end, h) && !(Strcmp(s[h - k].host, s[h].host) < 0)
    ensures Moving(s[h - k := s[h]][h := s[h - k]], k, end, h - k)
  {
    StrcmpSign(s[h - k].host, s[h].host);
    hide Strcmp;
  }

  lemma StartMoving(s: seq<HostInfo>, k: nat, i: nat)
    requires 0 < k <= i < |s| && SortedBy(s, k, i)
    ensures Moving(s, k, i + 1, i)
  {
  }

  /** An entry that has arrived: at the bottom, or above one that is smaller. */
  lemma StopMoving(s: seq<HostInfo>, k: nat, end: nat, h: nat)
    requires 0 < k && h < end <= |s| && Moving(s, k, end, h)
    requires h < k || Strcmp(s[h - k].host, s[h].host) < 0
    ensures SortedBy(s, k, end)
  {
  }

  lemma SwapPermutes(s: seq<HostInfo>, p: nat, q: nat)
    requires p < q < |s|
    ensures multiset(s[p := s[q]][q := s[p]]) == multiset(s)
  {
  }

  /** The three copies through `temHost`. */
  method Swap(a: array<HostInfo>, p: nat, q: nat)
    requires p < q < a.Length
    modifies a
    ensures a[..] == old(a[..])[p := old(a[q])][q := old(a[p])]
  {
    var temHost := a[p];
    a[p] := a[q];
    a[q] := temHost;
  }

  /** One turn of the inner loop: stop above a smaller entry, or change places. */
  method SiftOnce(a: array<HostInfo>, k: nat, end: nat, j: nat) returns (stop: bool)
    requires 0 < k && j + k < end <= a.Length && Moving(a[..], k, end, j + k)
    modifies a
    ensures if stop then SortedBy(a[..], k, end) else Moving(a[..], k, end, j)
    ensures multiset(a[..]) == old(multiset(a[..]))
  {
    hide Strcmp, SortedBy, Moving;
    if Strcmp(a[j].host, a[j + k].host) < 0 {
      StopMoving(a[..], k, end, j + k);
      return true;
    }
    SwapKeepsMoving(a[..], k, end, j + k);
    SwapPermutes(a[..], j, j + k);
    Swap(a, j, j + k);
    return false;
  }

  /** The inner loop: entry `i` moves down in steps of `k`. */
  method Sift(a: array<HostInfo>, k: nat, i: nat)
    requires 0 < k <= i < a.Length && SortedBy(a[..], k, i)
    modifies a
    ensures SortedBy(a[..], k, i + 1) && multiset(a[..]) == old(multiset(a[..]))
  {
    hide SortedBy, Moving;
    StartMoving(a[..], k, i);
    var j := i - k;
    while j >= 0
      invariant 0 <= j + k <= i
      invariant Moving(a[..], k, i + 1, j + k)
      invariant multiset(a[..]) == old(multiset(a[..]))
    {
      var stop := SiftOnce(a, k, i + 1, j);
      if stop {
        return;
      }
      j := j - k;
    }
    StopMoving(a[..], k, i + 1, j + k);
  }

  /** `sort_host`. */
  method SortHosts(a: array<HostInfo>)
    modifies a
    ensures Sorted(a[..]) && multiset(a[..]) == old(multiset(a[..]))
  {
    hide Strcmp, Below;
    var k := a.Length / 2;
    while k > 0
      invariant 0 <= k <= a.Length
      invariant k == 0 ==> Sorted(a[..])
      invariant multiset(a[..]) == old(multiset(a[..]))
    {
      var i := k;
      while i < a.Length
        invariant k <= i <= a.Length
        invariant SortedBy(a[..], k, i)
        invariant multiset(a[..]) == old(multiset(a[..]))
      {
        Sift(a, k, i);
        i := i + 1;
      }
      if k == 1 {
        SortedByOne(a[..]);
      }
      k := k / 2;
    }
  }

  /** `repeatHost`. */
  method RepeatHost(current: nat, a: array<HostInfo>) returns (repeated: bool)
    requires current < a.Length
    ensures repeated <==> exists i :: 0 <= i < current && a[i].host == a[current].host
  {
    hide Strcmp;
    for i := 0 to current
      invariant forall j :: 0 <= j < i ==> a[j].host != a[current].host
    {
      StrcmpSign(a[i].host, a[current].host);
      if Strcmp(a[i].host, a[current].host) != 0 {
        continue;
      }
      return true;
    }
    return false;
  }

  /** The names of the shown entries: each later one is strictly greater. */
  ghost predicate Increasing(s: seq<HostInfo>) {
    forall p, q :: 0 <= p < q < |s| ==> Strcmp(s[p].host, s[q].host) < 0
  }

  ghost predicate Names(s: seq<HostInfo>, name: string) {
    exists i :: 0 <= i < |s| && s[i].host == name
  }

  lemma AfterAll(shown: seq<HostInfo>, s: seq<HostInfo>, i: nat)
    requires Sorted(s) && i < |s| && Increasing(shown) && !Names(s[..i], s[i].host)
    requires forall x :: x in shown ==> x in s[..i]
    ensures Increasing(shown + [s[i]])
  {
    hide Strcmp, Below;
    forall p | 0 <= p < |shown|
      ensures Strcmp(shown[p].host, s[i].host) < 0
    {
      assert shown[p] in s[..i];
      var j :| 0 <= j < i && s[..i][j] == shown[p];
      StrictlyBelow(s, j, i);
    }
  }

  lemma StrictlyBelow(s: seq<HostInfo>, j: nat, i: nat)
    requires Sorted(s) && j < i < |s| && s[j].host != s[i].host
    ensures Strcmp(s[j].host, s[i].host) < 0
  {
    StrcmpSign(s[j].host, s[i].host);
  }

  ghost predicate NoRepeats(s: seq<HostInfo>) {
    forall p, q :: 0 <= p < q < |s| ==> s[p].host != s[q].host
  }

  lemma NotShownYet(shown: seq<HostInfo>, x: HostInfo)
    requires NoRepeats(shown) && !Names(shown, x.host)
    ensures NoRepeats(shown + [x])
  {
  }

  /** The display loop: each host of the table once, in increasing order if the table is sorted. */
  method ShowDistinct(a: array<HostInfo>) returns (shown: seq<HostInfo>)
    ensures NoRepeats(shown)
    ensures forall x :: x in shown ==> x in a[..]
    ensures forall name :: Names(shown, name) <==> Names(a[..], name)
    ensures Sorted(a[..]) ==> Increasing(shown)
  {
    hide Strcmp, Below, Increasing, Sorted;
    shown := [];
    assert Increasing(shown) by { NoneIncreasing(); }
    for i := 0 to a.Length
      invariant NoRepeats(shown) && (Sorted(a[..]) ==> Increasing(shown))
      invariant forall x :: x in shown ==> x in a[..i]
      invariant forall name :: Names(shown, name) <==> Names(a[..i], name)
    {
      var repeated := RepeatHost(i, a);
      assert repeated <==> Names(a[..i], a[i].host);
      NamesAppended(a[..i], a[i]);
      NamesAppended(shown, a[i]);
      assert a[..i + 1] == a[..i] + [a[i]];
      if repeated {
        continue;
      }
      assert a[..][..i] == a[..i];
      if Sorted(a[..]) { AfterAll(shown, a[..], i); }
      NotShownYet(shown, a[i]);
      shown := shown + [a[i]];
    }
    assert a[..a.Length] == a[..];
  }

  /** Sorting, unless a resource requirement fixed the order, and showing: each host of the reply exactly once. */
  method ShowHosts(a: array<HostInfo>, byName: bool) returns (shown: seq<HostInfo>)
    modifies a
    ensures multiset(a[..]) == old(multiset(a[..])) && (!byName ==> a[..] == old(a[..]))
    ensures NoRepeats(shown) && (byName ==> Increasing(shown))
    ensures forall x :: x in shown ==> x in old(a[..])
    ensures forall name :: Names(shown, name) <==> Names(old(a[..]), name)
  {
    hide Strcmp, Below, Increasing, Names, NoRepeats;
    if a.Length > 1 && byName {
      SortHosts(a);
    }
    shown := ShowDistinct(a);
    SameEntries(a[..], old(a[..]));
  }

  lemma NoneIncreasing()
    ensures Increasing([])
  {
  }

  lemma NamesAppended(s: seq<HostInfo>, x: HostInfo)
    ensures forall name :: Names(s + [x], name) <==> Names(s, name) || name == x.host
  {
    forall name
      ensures Names(s + [x], name) <==> Names(s, name) || name == x.host
    {
      if Names(s, name) {
        var i :| 0 <= i < |s| && s[i].host == name;
        assert (s + [x])[i].host == name;
      }
      assert (s + [x])[|s|] == x;
    }
  }

  lemma SameEntries(s: seq<HostInfo>, t: seq<HostInfo>)
    requires multiset(s) == multiset(t)
    ensures forall x :: x in s <==> x in t
    ensures forall name :: Names(s, name) <==> Names(t, name)
  {
    forall x ensures x in s <==> x in t {
      assert x in multiset(s) <==> x in multiset(t);
    }
    forall name ensures Names(s, name) <==> Names(t, name) {
      assert Names(s, name) <==> exists x :: x in s && x.host == name;
      assert Names(t, name) <==> exists x :: x in t && x.host == name;
    }
  }
}
