/** `cJSON_Compare` along the linked items, with its shortcut for one and the same item. */
module JsonItemCompare {
  import opened JsonCompare
  import opened JsonNode
  import opened JsonText

  predicate SameType(a: Kind, b: Kind) {
    match (a, b)
    case (NullKind, NullKind) => true
    case (BoolKind(x), BoolKind(y)) => x == y
    case (NumberKind(_), NumberKind(_)) => true
    case (StringKind(_), StringKind(_)) => true
    case (ArrayKind, ArrayKind) => true
    case (ObjectKind, ObjectKind) => true
    case _ => false
  }

  /** The shortcut cannot be told from comparing the values: no shared items, or unique keys. */
  ghost predicate Plain(a: Node, b: Node)
    reads a`below, b`below, a`tree, b`tree
  {
    a.Whole() !! b.Whole() || (UniqueKeys(a.tree) && UniqueKeys(b.tree))
  }

  /** `get_object_item`, case sensitive. */
  method GetObjectItem(parent: Node, key: string) returns (item: Node?)
    requires parent.IsTree() && parent.tree.Object?
    ensures var k := Find(parent.tree.members, key);
            item == if k < |parent.kids| then parent.kids[k] else null
  {
    hide Node.IsTree, Find;
    FirstKid(parent);
    item := parent.child;
    ghost var i := 0;
    while item != null && item.name != key
      invariant 0 <= i <= |parent.kids| && item == if i < |parent.kids| then parent.kids[i] else null
      invariant forall k :: 0 <= k < i ==> parent.tree.members[k].key != key
      decreases |parent.kids| - i
    {
      ObjectKid(parent, i);
      item := item.next;
      i := i + 1;
    }
    if i < |parent.kids| {
      ObjectKid(parent, i);
    }
  }

  /** One of the two loops over members: each finds its match on the other side. */
  ghost predicate Matched(ms: seq<Member>, ns: seq<Member>, end: nat)
    requires end <= |ms|
  {
    forall i :: 0 <= i < end ==> Find(ns, ms[i].key) < |ns| && Compare(ms[i].value, ns[Find(ns, ms[i].key)].value)
  }

  ghost predicate Pairwise(xs: seq<Json>, ys: seq<Json>, end: nat)
    requires end <= |xs| && end <= |ys|
  {
    forall i :: 0 <= i < end ==> Compare(xs[i], ys[i])
  }

  lemma CompareIs(a: Json, b: Json)
    ensures a.Array? && b.Array? ==> (Compare(a, b) <==> |a.items| == |b.items| && Pairwise(a.items, b.items, |a.items|))
    ensures a.Object? && b.Object? ==>
              (Compare(a, b) <==> Matched(a.members, b.members, |a.members|) && Matched(b.members, a.members, |b.members|))
  {
  }

  lemma PlainKids(a: Node, b: Node, x: Node, y: Node)
    requires Plain(a, b) && x.Whole() <= a.below && y.Whole() <= b.below
    requires UniqueKeys(a.tree) ==> UniqueKeys(x.tree)
    requires UniqueKeys(b.tree) ==> UniqueKeys(y.tree)
    ensures Plain(x, y)
  {
  }

  ghost function Measure(a: Node?, b: Node?): nat
    reads Opt(a)`tree, Opt(b)`tree
  {
    if a == null || b == null then 0 else Size(a.tree) + Size(b.tree)
  }

  lemma TypesDiffer(a: Node, b: Node)
    requires a.IsTree() && b.IsTree() && !SameType(a.kind, b.kind)
    ensures !Compare(a.tree, b.tree)
  {
    hide Node.IsTree;
    KindAndTree(a);
    KindAndTree(b);
  }

  lemma SameItem(a: Node)
    requires Plain(a, a)
    ensures Compare(a.tree, a.tree)
  {
    assert a in a.Whole();
    CompareSelf(a.tree);
  }

  /** `cJSON_Compare`, case sensitive: one item is equal to itself, otherwise the values decide. */
  method CompareItems(a: Node?, b: Node?) returns (r: bool)
    requires (a != null ==> a.IsTree()) && (b != null ==> b.IsTree())
    ensures a == null || b == null ==> !r
    ensures a != null && a == b ==> r
    ensures a != null && b != null && Plain(a, b) ==> (r <==> Compare(a.tree, b.tree))
    decreases Measure(a, b), 1
  {
    hide Node.IsTree, Compare, Plain, CompareDouble;
    if a == null || b == null {
      return false;
    }
    if !SameType(a.kind, b.kind) {
      TypesDiffer(a, b);
      return false;
    }
    if a == b {
      if Plain(a, a) { SameItem(a); }
      return true;
    }
    KindAndTree(a);
    KindAndTree(b);
    match a.kind
    case ArrayKind => r := CompareArrays(a, b);
    case ObjectKind =>
      CompareIs(a.tree, b.tree);
      r := CompareMembers(a, b);
      if r {
        PlainBack(a, b);
        r := CompareMembers(b, a);
      }
    case NumberKind(x) =>
      ScalarsCompare(a.tree, b.tree);
      r := CompareDouble(x, b.kind.value);
    case StringKind(t) =>
      ScalarsCompare(a.tree, b.tree);
      r := t == b.kind.s;
    case _ =>
      ScalarsCompare(a.tree, b.tree);
      r := true;
  }

  lemma PlainBack(a: Node, b: Node)
    ensures Plain(a, b) <==> Plain(b, a)
  {
  }

  lemma ScalarsCompare(a: Json, b: Json)
    ensures a.Number? && b.Number? ==> (Compare(a, b) <==> CompareDouble(a.value, b.value))
    ensures a.String? && b.String? ==> (Compare(a, b) <==> a.s == b.s)
    ensures a.Bool? && b.Bool? ==> (Compare(a, b) <==> a.b == b.b)
    ensures a.Null? && b.Null? ==> Compare(a, b)
  {
    hide CompareDouble;
  }

  method CompareArrays(a: Node, b: Node) returns (r: bool)
    requires a.IsTree() && b.IsTree() && a.tree.Array? && b.tree.Array?
    ensures Plain(a, b) ==> (r <==> Compare(a.tree, b.tree))
    decreases Measure(a, b), 0
  {
    hide Node.IsTree, Compare, Plain, UniqueKeys, Size;
    ghost var xs, ys := a.tree.items, b.tree.items;
    CompareIs(a.tree, b.tree);
    FirstKid(a);
    FirstKid(b);
    var p, q := a.child, b.child;
    ghost var i := 0;
    while p != null && q != null
      invariant 0 <= i <= |xs| && i <= |ys|
      invariant p == (if i < |xs| then a.kids[i] else null) && q == (if i < |ys| then b.kids[i] else null)
      invariant Plain(a, b) ==> Pairwise(xs, ys, i)
      decreases |xs| - i
    {
      ArrayPair(a, b, i);
      r := CompareItems(p, q);
      if !r {
        return;
      }
      p, q := p.next, q.next;
      i := i + 1;
    }
    r := p == q;
  }

  lemma ArrayPair(a: Node, b: Node, i: nat)
    requires a.IsTree() && b.IsTree() && a.tree.Array? && b.tree.Array? && i < |a.kids| && i < |b.kids|
    ensures a.kids[i].IsTree() && b.kids[i].IsTree() && (Plain(a, b) ==> Plain(a.kids[i], b.kids[i]))
    ensures i < |a.tree.items| && a.kids[i].tree == a.tree.items[i]
    ensures i < |b.tree.items| && b.kids[i].tree == b.tree.items[i]
    ensures a.kids[i].next == if i + 1 < |a.kids| then a.kids[i + 1] else null
    ensures b.kids[i].next == if i + 1 < |b.kids| then b.kids[i + 1] else null
    ensures Measure(a.kids[i], b.kids[i]) < Measure(a, b)
  {
    hide Node.IsTree, Size, Plain;
    ArrayKid(a, i);
    ArrayKid(b, i);
    AllSmaller(a.tree);
    AllSmaller(b.tree);
    if Plain(a, b) { PlainKids(a, b, a.kids[i], b.kids[i]); }
  }

  lemma ObjectPair(a: Node, b: Node, i: nat, k: nat)
    requires a.IsTree() && b.IsTree() && a.tree.Object? && b.tree.Object? && i < |a.kids| && k < |b.kids|
    ensures a.kids[i].IsTree() && b.kids[k].IsTree() && (Plain(a, b) ==> Plain(a.kids[i], b.kids[k]))
    ensures i < |a.tree.members| && Member(a.kids[i].name, a.kids[i].tree) == a.tree.members[i]
    ensures k < |b.tree.members| && b.kids[k].tree == b.tree.members[k].value
    ensures Measure(a.kids[i], b.kids[k]) < Measure(a, b)
  {
    hide Node.IsTree, Size, Plain;
    ObjectKid(a, i);
    ObjectKid(b, k);
    AllSmaller(a.tree);
    AllSmaller(b.tree);
    if Plain(a, b) { PlainKids(a, b, a.kids[i], b.kids[k]); }
  }

  /** One loop over the members. */
  method CompareMembers(a: Node, b: Node) returns (r: bool)
    requires a.IsTree() && b.IsTree() && a.tree.Object? && b.tree.Object?
    ensures Plain(a, b) ==> (r <==> Matched(a.tree.members, b.tree.members, |a.tree.members|))
    decreases Measure(a, b), 0
  {
    hide Node.IsTree, Compare, Plain, UniqueKeys, Size, Find;
    ghost var ms, ns := a.tree.members, b.tree.members;
    FirstKid(a);
    FirstKid(b);
    var p := a.child;
    ghost var i := 0;
    while p != null
      invariant 0 <= i <= |ms| && p == if i < |ms| then a.kids[i] else null
      invariant Plain(a, b) ==> Matched(ms, ns, i)
      decreases |ms| - i
    {
      ObjectKid(a, i);
      var q := GetObjectItem(b, p.name);
      if q == null {
        return false;
      }
      ObjectPair(a, b, i, Find(ns, ms[i].key));
      r := CompareItems(p, q);
      if !r {
        return;
      }
      p := p.next;
      i := i + 1;
    }
    r := true;
  }

  /** A duplicate of a tree with unique keys compares equal to it, in both orders. */
  lemma DuplicateCompares(item: Node, copy: Node)
    requires copy.tree == item.tree && UniqueKeys(item.tree)
    ensures Plain(copy, item) && Plain(item, copy) && Compare(copy.tree, item.tree)
  {
    CompareSelf(item.tree);
  }
}
