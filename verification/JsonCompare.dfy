/**
 `cJSON_Compare`, case sensitive, on item trees.  The reference is a denotation
 in which an object is a map from keys to values, so that order does not count.
 */
module JsonCompare {
  import opened JsonText

  /** 2 to the power -52. */
  const DBL_EPSILON: real := 1.0 / 4503599627370496.0

  function Abs(x: real): real {
    if x < 0.0 then -x else x
  }

  predicate CompareDouble(a: real, b: real) {
    var maxVal := if Abs(a) > Abs(b) then Abs(a) else Abs(b);
    Abs(a - b) <= maxVal * DBL_EPSILON
  }

  /** `get_object_item`: index of the first member with that key, or the number of members. */
  function Find(ms: seq<Member>, key: string): (k: nat)
    ensures k <= |ms|
    ensures k < |ms| ==> ms[k].key == key
    ensures forall i :: 0 <= i < k ==> ms[i].key != key
  {
    if ms == [] || ms[0].key == key then 0 else 1 + Find(ms[1..], key)
  }

  function Size(j: Json): nat
    decreases j, 0
  {
    match j
    case Array(items) => 1 + ItemsSize(items)
    case Object(ms) => 1 + MembersSize(ms)
    case _ => 1
  }

  function ItemsSize(items: seq<Json>): nat
    decreases items, 1
  {
    if items == [] then 0 else Size(items[0]) + ItemsSize(items[1..])
  }

  function MembersSize(ms: seq<Member>): nat
    decreases ms, 1
  {
    if ms == [] then 0 else Size(ms[0].value) + MembersSize(ms[1..])
  }

  lemma {:induction false} ItemBound(items: seq<Json>, i: nat)
    requires i < |items|
    ensures Size(items[i]) <= ItemsSize(items)
    decreases i
  {
    if i > 0 {
      ItemBound(items[1..], i - 1);
    }
  }

  lemma {:induction false} SizeOf(j: Json)
    ensures j.Array? ==> Size(j) == 1 + ItemsSize(j.items)
    ensures j.Object? ==> Size(j) == 1 + MembersSize(j.members)
  {
  }

  lemma {:induction false} MemberBound(ms: seq<Member>, i: nat)
    requires i < |ms|
    ensures Size(ms[i].value) <= MembersSize(ms)
    decreases i
  {
    if i > 0 {
      MemberBound(ms[1..], i - 1);
    }
  }

  lemma {:induction false} AllSmaller(j: Json)
    ensures j.Array? ==> forall i :: 0 <= i < |j.items| ==> Size(j.items[i]) < Size(j)
    ensures j.Object? ==> forall i :: 0 <= i < |j.members| ==> Size(j.members[i].value) < Size(j)
  {
    hide Size;
    SizeOf(j);
    if j.Array? {
      forall i | 0 <= i < |j.items|
        ensures Size(j.items[i]) < Size(j)
      {
        ItemBound(j.items, i);
      }
    } else if j.Object? {
      forall i | 0 <= i < |j.members|
        ensures Size(j.members[i].value) < Size(j)
      {
        MemberBound(j.members, i);
      }
    }
  }

  /** `cJSON_Compare` on two different items (one item compared with itself is equal at once). */
  predicate Compare(a: Json, b: Json)
    decreases Size(a) + Size(b)
  {
    AllSmaller(a);
    AllSmaller(b);
    match (a, b)
    case (Null, Null) => true
    case (Bool(x), Bool(y)) => x == y
    case (Number(x), Number(y)) => CompareDouble(x, y)
    case (String(x), String(y)) => x == y
    case (Array(xs), Array(ys)) =>
      |xs| == |ys| && forall i :: 0 <= i < |xs| ==> Compare(xs[i], ys[i])
    case (Object(ms), Object(ns)) =>
      && (forall i :: 0 <= i < |ms| ==> Find(ns, ms[i].key) < |ns| && Compare(ms[i].value, ns[Find(ns, ms[i].key)].value))
      && (forall i :: 0 <= i < |ns| ==> Find(ms, ns[i].key) < |ms| && Compare(ns[i].value, ms[Find(ms, ns[i].key)].value))
    case _ => false
  }

  // ------------------------------------------------------------- denotation

  datatype Meaning =
    | MNull
    | MBool(b: bool)
    | MNumber(value: real)
    | MString(s: string)
    | MArray(items: seq<Meaning>)
    | MObject(members: map<string, Meaning>)

  /** An object denotes a map; of several members with one key the first one counts. */
  function Denote(j: Json): Meaning {
    match j
    case Null => MNull
    case Bool(b) => MBool(b)
    case Number(r) => MNumber(r)
    case String(s) => MString(s)
    case Array(items) => MArray(seq(|items|, i requires 0 <= i < |items| => Denote(items[i])))
    case Object(ms) => MObject(map k | k in Keys(ms) :: Denote(ms[Find(ms, k)].value))
  }

  function Keys(ms: seq<Member>): (ks: set<string>)
    ensures forall k :: k in ks <==> Find(ms, k) < |ms|
  {
    var ks := set i | 0 <= i < |ms| :: ms[i].key;
    assert forall k :: Find(ms, k) < |ms| ==> ms[Find(ms, k)].key in ks;
    ks
  }

  /** Members that share a key share their meaning, throughout the tree. */
  predicate Coherent(j: Json) {
    match j
    case Array(items) => forall i :: 0 <= i < |items| ==> Coherent(items[i])
    case Object(ms) =>
      forall i :: 0 <= i < |ms| ==> Coherent(ms[i].value) && Denote(ms[i].value) == Denote(ms[Find(ms, ms[i].key)].value)
    case _ => true
  }

  predicate UniqueKeys(j: Json) {
    match j
    case Array(items) => forall i :: 0 <= i < |items| ==> UniqueKeys(items[i])
    case Object(ms) =>
      && (forall i :: 0 <= i < |ms| ==> UniqueKeys(ms[i].value))
      && (forall i, k :: 0 <= i < k < |ms| ==> ms[i].key != ms[k].key)
    case _ => true
  }

  /** Doubles that are ints compare equal only when they are the same. */
  lemma CompareDoubleOnInts(a: real, b: real)
    requires IsInt(a) && IsInt(b)
    ensures CompareDouble(a, b) <==> a == b
  {
    var maxVal := if Abs(a) > Abs(b) then Abs(a) else Abs(b);
    assert maxVal <= 2147483648.0;
    assert maxVal * DBL_EPSILON < 1.0;
    if a != b {
      assert a.Floor != b.Floor;
      assert a - b == (a.Floor - b.Floor) as real;
    }
  }

  // ------------------------------------------------------------ main result

  /** Compare holds exactly when both trees are coherent and mean the same. */
  lemma {:induction false} CompareMeans(a: Json, b: Json)
    requires Integral(a) && Integral(b)
    ensures Compare(a, b) <==> Denote(a) == Denote(b) && Coherent(a) && Coherent(b)
    decreases Size(a) + Size(b), 2
  {
    if a.Array? && b.Array? {
      ArraysMean(a.items, b.items);
    } else if a.Object? && b.Object? {
      if Compare(a, b) {
        ComparedObjectsMean(a.members, b.members);
      }
      if Denote(a) == Denote(b) && Coherent(a) && Coherent(b) {
        MatchingObjectsCompare(a.members, b.members);
      }
    } else if a.Number? && b.Number? {
      CompareDoubleOnInts(a.value, b.value);
    }
  }

  lemma {:induction false} ArraysMean(xs: seq<Json>, ys: seq<Json>)
    requires Integral(Array(xs)) && Integral(Array(ys))
    ensures Compare(Array(xs), Array(ys)) <==>
              Denote(Array(xs)) == Denote(Array(ys)) && Coherent(Array(xs)) && Coherent(Array(ys))
    decreases Size(Array(xs)) + Size(Array(ys)), 1
  {
    AllSmaller(Array(xs));
    AllSmaller(Array(ys));
    var dx, dy := Denote(Array(xs)).items, Denote(Array(ys)).items;
    if |xs| == |ys| {
      forall i | 0 <= i < |xs|
        ensures Compare(xs[i], ys[i]) <==> dx[i] == dy[i] && Coherent(xs[i]) && Coherent(ys[i])
      {
        CompareMeans(xs[i], ys[i]);
      }
    }
  }

  /** The meaning of the member that a key selects. */
  function MeaningAt(ms: seq<Member>, key: string): Meaning
    requires Find(ms, key) < |ms|
  {
    Denote(ms[Find(ms, key)].value)
  }

  /** Objects that compare equal have the same keys with the same meanings, and so are coherent. */
  lemma {:induction false} ComparedObjectsMean(ms: seq<Member>, ns: seq<Member>)
    requires Integral(Object(ms)) && Integral(Object(ns)) && Compare(Object(ms), Object(ns))
    ensures Denote(Object(ms)) == Denote(Object(ns)) && Coherent(Object(ms)) && Coherent(Object(ns))
    decreases Size(Object(ms)) + Size(Object(ns)), 1
  {
    OneWay(ms, ns);
    OneWay(ns, ms);
    hide Compare, Denote, Integral;
    forall k | k in Keys(ms)
      ensures MeaningAt(ms, k) == MeaningAt(ns, k)
    {
      assert ms[Find(ms, k)].key == k;
    }
    SameMeaning(ms, ns);
    Coheres(ms, ns);
    Coheres(ns, ms);
  }

  lemma {:induction false} SameMeaning(ms: seq<Member>, ns: seq<Member>)
    requires Keys(ms) == Keys(ns) && forall k :: k in Keys(ms) ==> MeaningAt(ms, k) == MeaningAt(ns, k)
    ensures Denote(Object(ms)) == Denote(Object(ns))
  {
    var d, e := Denote(Object(ms)).members, Denote(Object(ns)).members;
    assert d.Keys == Keys(ms) && e.Keys == Keys(ns);
    assert forall k :: k in d ==> d[k] == MeaningAt(ms, k) && e[k] == MeaningAt(ns, k);
  }

  lemma {:induction false} Coheres(ms: seq<Member>, ns: seq<Member>)
    requires Keys(ms) == Keys(ns) && forall k :: k in Keys(ms) ==> MeaningAt(ms, k) == MeaningAt(ns, k)
    requires forall i :: 0 <= i < |ms| ==>
               Find(ns, ms[i].key) < |ns| && Denote(ms[i].value) == MeaningAt(ns, ms[i].key) && Coherent(ms[i].value)
    ensures Coherent(Object(ms))
  {
    hide Denote;
    forall i | 0 <= i < |ms|
      ensures Denote(ms[i].value) == MeaningAt(ms, ms[i].key)
    {
      assert ms[i].key in Keys(ns);
    }
  }

  /** What one of the two loops of Compare establishes. */
  lemma {:induction false} OneWay(ms: seq<Member>, ns: seq<Member>)
    requires Integral(Object(ms)) && Integral(Object(ns))
    requires forall i :: 0 <= i < |ms| ==> Find(ns, ms[i].key) < |ns| && Compare(ms[i].value, ns[Find(ns, ms[i].key)].value)
    ensures forall i :: 0 <= i < |ms| ==>
              Find(ns, ms[i].key) < |ns| && Denote(ms[i].value) == MeaningAt(ns, ms[i].key) && Coherent(ms[i].value)
    ensures Keys(ms) <= Keys(ns)
    decreases Size(Object(ms)) + Size(Object(ns)), 0
  {
    AllSmaller(Object(ms));
    AllSmaller(Object(ns));
    forall i | 0 <= i < |ms|
      ensures Denote(ms[i].value) == MeaningAt(ns, ms[i].key) && Coherent(ms[i].value)
    {
      CompareMeans(ms[i].value, ns[Find(ns, ms[i].key)].value);
    }
    forall k | k in Keys(ms)
      ensures k in Keys(ns)
    {
      assert ms[Find(ms, k)].key == k;
    }
  }

  lemma {:induction false} MatchingObjectsCompare(ms: seq<Member>, ns: seq<Member>)
    requires Integral(Object(ms)) && Integral(Object(ns))
    requires Denote(Object(ms)) == Denote(Object(ns)) && Coherent(Object(ms)) && Coherent(Object(ns))
    ensures Compare(Object(ms), Object(ns))
    decreases Size(Object(ms)) + Size(Object(ns)), 1
  {
    var d := Denote(Object(ms)).members;
    assert d.Keys == Keys(ms) == Keys(ns);
    assert forall k :: k in d ==> d[k] == MeaningAt(ms, k) == MeaningAt(ns, k);
    OtherWay(ms, ns);
    OtherWay(ns, ms);
  }

  lemma {:induction false} OtherWay(ms: seq<Member>, ns: seq<Member>)
    requires Integral(Object(ms)) && Integral(Object(ns)) && Coherent(Object(ms)) && Coherent(Object(ns))
    requires Keys(ms) == Keys(ns) && forall k :: k in Keys(ms) ==> MeaningAt(ms, k) == MeaningAt(ns, k)
    ensures forall i :: 0 <= i < |ms| ==> Find(ns, ms[i].key) < |ns| && Compare(ms[i].value, ns[Find(ns, ms[i].key)].value)
    decreases Size(Object(ms)) + Size(Object(ns)), 0
  {
    AllSmaller(Object(ms));
    AllSmaller(Object(ns));
    forall i | 0 <= i < |ms|
      ensures Find(ns, ms[i].key) < |ns| && Compare(ms[i].value, ns[Find(ns, ms[i].key)].value)
    {
      var key := ms[i].key;
      assert Find(ms, key) < |ms|;
      assert key in Keys(ms);
      CompareMeans(ms[i].value, ns[Find(ns, key)].value);
    }
  }

  /** On coherent trees Compare is an equivalence. */
  lemma {:induction false} CompareIsEquivalence(a: Json, b: Json, c: Json)
    requires Integral(a) && Integral(b) && Integral(c)
    ensures Compare(a, a) <==> Coherent(a)
    ensures Compare(a, b) ==> Compare(b, a)
    ensures Compare(a, b) && Compare(b, c) ==> Compare(a, c)
  {
    hide Compare, Denote, Coherent, Integral;
    CompareMeans(a, a);
    CompareMeans(a, b);
    CompareMeans(b, a);
    CompareMeans(b, c);
    CompareMeans(a, c);
  }

  lemma {:induction false} UniqueKeysCohere(j: Json)
    requires UniqueKeys(j)
    ensures Coherent(j)
  {
    if j.Array? {
      forall i | 0 <= i < |j.items|
        ensures Coherent(j.items[i])
      {
        UniqueKeysCohere(j.items[i]);
      }
    } else if j.Object? {
      var ms := j.members;
      forall i | 0 <= i < |ms|
        ensures Coherent(ms[i].value) && Find(ms, ms[i].key) == i
      {
        UniqueKeysCohere(ms[i].value);
        var f := Find(ms, ms[i].key);
        assert f < |ms| && ms[f].key == ms[i].key;
      }
    }
  }

  /** With repeated keys an object need not compare equal to a copy of itself. */
  lemma {:induction false} RepeatedKeysNotReflexive()
    ensures var j := Object([Member("a", Null), Member("a", Bool(true))]);
            !Compare(j, j)
  {
    var ms := [Member("a", Null), Member("a", Bool(true))];
    assert ms[1].key == "a" && Find(ms, "a") == 0;
    assert !Compare(ms[1].value, ms[0].value);
  }

  /** A tree with unique keys compares equal to any copy of it, whatever its numbers are. */
  lemma {:induction false} CompareSelf(j: Json)
    requires UniqueKeys(j)
    ensures Compare(j, j)
    decreases j
  {
    match j
    case Array(items) =>
      forall i | 0 <= i < |items| ensures Compare(items[i], items[i]) {
        CompareSelf(items[i]);
      }
    case Object(ms) =>
      forall i | 0 <= i < |ms| ensures Find(ms, ms[i].key) == i && Compare(ms[i].value, ms[i].value) {
        var f := Find(ms, ms[i].key);
        assert f < |ms| && ms[f].key == ms[i].key;
        CompareSelf(ms[i].value);
      }
    case _ =>
  }

  /** Off the integers the tolerance adds up: neighbours compare equal, their outer ends do not. */
  lemma CompareDoubleNotTransitive()
    ensures var a, b, c := 1.0, 1.0 + DBL_EPSILON, 1.0 + 2.0 * DBL_EPSILON;
            CompareDouble(a, b) && CompareDouble(b, c) && !CompareDouble(a, c)
  {
  }
}
