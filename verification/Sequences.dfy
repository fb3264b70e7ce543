/** Sequences without repetitions, and removal and insertion at an index. */
module Sequences {

  ghost predicate Distinct<T>(s: seq<T>) {
    forall i, j :: 0 <= i < j < |s| ==> s[i] != s[j]
  }

  ghost function Removed<T>(s: seq<T>, k: nat): seq<T>
    requires k < |s|
  {
    s[..k] + s[k + 1..]
  }

  ghost function Inserted<T>(s: seq<T>, k: nat, x: T): seq<T>
    requires k <= |s|
  {
    s[..k] + [x] + s[k..]
  }

  /** No other element is the one at `k`. */
  lemma Only<T>(s: seq<T>, k: nat)
    requires Distinct(s) && k < |s|
    ensures forall j :: 0 <= j < |s| && j != k ==> s[j] != s[k]
  {
  }

  lemma RemovedDistinct<T>(s: seq<T>, k: nat)
    requires Distinct(s) && k < |s|
    ensures Distinct(Removed(s, k)) && |Removed(s, k)| == |s| - 1
    ensures forall x :: x in Removed(s, k) ==> x in s
  {
  }

  lemma RemovedAt<T>(s: seq<T>, k: nat, i: nat)
    requires k < |s| && i < |s| - 1
    ensures Removed(s, k)[i] == s[if i < k then i else i + 1]
  {
  }

  lemma RemovedMembers<T>(s: seq<T>, k: nat)
    requires k < |s| && Distinct(s)
    ensures forall x :: x in Removed(s, k) <==> x != s[k] && x in s
  {
    forall x | x in Removed(s, k)
      ensures x in s && x != s[k]
    {
      var i :| 0 <= i < |s| - 1 && Removed(s, k)[i] == x;
      RemovedAt(s, k, i);
    }
    forall x | x in s && x != s[k]
      ensures x in Removed(s, k)
    {
      var j :| 0 <= j < |s| && s[j] == x;
      var i := if j < k then j else j - 1;
      RemovedAt(s, k, i);
    }
  }

  lemma AppendedDistinct<T>(s: seq<T>, x: T)
    requires Distinct(s) && x !in s
    ensures Distinct(s + [x])
  {
  }

  lemma InsertedDistinct<T>(s: seq<T>, k: nat, x: T)
    requires Distinct(s) && x !in s && k <= |s|
    ensures Distinct(Inserted(s, k, x)) && |Inserted(s, k, x)| == |s| + 1
    ensures forall y :: y in Inserted(s, k, x) <==> y == x || y in s
  {
  }

  lemma ReplacedDistinct<T>(s: seq<T>, k: nat, x: T)
    requires Distinct(s) && x !in s && k < |s|
    ensures Distinct(s[k := x])
    ensures forall y :: y in s[k := x] ==> y == x || y in s
  {
  }
}
