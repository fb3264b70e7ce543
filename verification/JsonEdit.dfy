/**
 Edits of whole trees: adding, inserting, detaching or replacing a child of a root
 changes the value that the root stands for in the same way, and leaves a tree.
 */
module JsonEdit {
  import opened JsonNode
  import opened JsonText
  import opened Sequences

  // ------------------------------------------------------------ edits of values

  /** Which element of the old list stands at `i` after the edit; -1 for the new one. */
  ghost function Origin<T>(length: nat, e: Edit<T>, i: nat): int {
    match e
    case Add(_) => if i < length then i else -1
    case Put(k, _) => if i < k && i < length then i else if k < length && i > k then i - 1 else -1
    case Remove(k) => if k < length && i >= k then i + 1 else i
    case Swap(k, _) => if i == k then -1 else i
  }

  ghost function Length<T>(length: nat, e: Edit<T>): nat {
    match e
    case Add(_) => length + 1
    case Put(_, _) => length + 1
    case Remove(k) => if k < length then length - 1 else length
    case Swap(_, _) => length
  }

  lemma EditedAt<T>(s: seq<T>, e: Edit<T>)
    ensures |Edited(s, e)| == Length(|s|, e)
    ensures forall i :: 0 <= i < |Edited(s, e)| ==>
              var j := Origin(|s|, e, i);
              if j == -1 then !e.Remove? && Edited(s, e)[i] == e.item else 0 <= j < |s| && Edited(s, e)[i] == s[j]
  {
  }

  /** The edit that brings in `x` instead of the item. */
  ghost function With<T, U>(e: Edit<T>, x: U): (r: Edit<U>)
    ensures !e.Remove? ==> !r.Remove? && r.item == x
  {
    match e
    case Add(_) => Add(x)
    case Put(k, _) => Put(k, x)
    case Remove(k) => Remove(k)
    case Swap(k, _) => Swap(k, x)
  }

  ghost function Brought(e: Edit<Node>): set<Node> {
    if e.Remove? then {} else {e.item}
  }

  /** The key and value that an edit brings in. */
  ghost function Entry(e: Edit<Node>): Member
    reads Brought(e)`name, Brought(e)`tree
  {
    if e.Remove? then Member("", Null) else Member(e.item.name, e.item.tree)
  }

  /** The same edit on the elements of an array or on the members of an object. */
  ghost function TreeEdited(j: Json, e: Edit<Node>, entry: Member): Json {
    match j
    case Array(items) => Array(Edited(items, With(e, entry.value)))
    case Object(ms) => Object(Edited(ms, With(e, entry)))
    case _ => j
  }

  lemma EditStands(kind: Kind, kids: seq<Node>, tree: Json, e: Edit<Node>)
    requires (kind.ArrayKind? || kind.ObjectKind?) && Stands(kind, kids, tree)
    ensures Stands(kind, Edited(kids, e), TreeEdited(tree, e, Entry(e)))
  {
    var entry := Entry(e);
    EditedAt(kids, e);
    hide Edited;
    if kind.ArrayKind? {
      EditedAt(tree.items, With(e, entry.value));
    } else {
      EditedAt(tree.members, With(e, entry));
    }
  }

  // ------------------------------------------------------------- edits of trees

  /** Trees that share nothing with one another, nor with `parent`. */
  ghost predicate Scattered(parent: Node, tops: set<Node>, all: set<Node>)
    reads all
  {
    && tops <= all && parent !in tops
    && (forall n :: n in tops ==> n.below <= all && parent !in n.below && n.IsTree())
    && (forall m, n :: m in tops && n in tops && m != n ==> m.Whole() !! n.Whole())
  }

  /** A root and the detached trees that can be put into it. */
  ghost predicate Grove(parent: Node, free: set<Node>, all: set<Node>)
    reads all
  {
    && parent in all && parent.below <= all && parent.IsTree() && Scattered(parent, free, all)
    && forall n :: n in free ==> n.next == null && n.Whole() !! parent.Whole()
  }

  /** The children of a tree are trees inside it. */
  lemma KidsInside(parent: Node)
    requires parent.IsTree()
    ensures forall n :: n in Kids(parent) ==> n.Whole() <= parent.below && n.IsTree() && parent !in n.Whole()
    ensures forall m, n :: m in Kids(parent) && n in Kids(parent) && m != n ==> m.Whole() !! n.Whole()
  {
    TreeMeans(parent);
    KidsApart(parent);
    hide Node.IsTree, Node.ListOk, Node.Represents;
    forall n | n in Kids(parent)
      ensures n.Whole() <= parent.below && n.IsTree()
    {
      var i :| 0 <= i < |parent.kids| && parent.kids[i] == n;
    }
    forall m, n | m in Kids(parent) && n in Kids(parent) && m != n
      ensures m.Whole() !! n.Whole()
    {
      var i :| 0 <= i < |parent.kids| && parent.kids[i] == m;
      var j :| 0 <= j < |parent.kids| && parent.kids[j] == n;
    }
  }

  /** The children of the root and the detached trees are scattered together. */
  lemma GroveTops(parent: Node, free: set<Node>, all: set<Node>)
    requires Grove(parent, free, all)
    ensures Scattered(parent, Kids(parent) + free, all) && parent in all
  {
    hide Node.IsTree, Node.Whole, Scattered;
    var tops := Kids(parent) + free;
    KidsInside(parent);
    ScatteredMeans(parent, free, all);
    TopsOutside(parent, free, all);
    InWhole(tops + {parent});
    forall m, n | m in Kids(parent) && n in free
      ensures m.Whole() !! n.Whole()
    {
      assert m.Whole() <= parent.below <= parent.Whole();
    }
    ScatteredFrom(parent, tops, all);
  }

  lemma GroveReady(parent: Node, free: set<Node>, all: set<Node>)
    requires Grove(parent, free, all)
    ensures Ready(parent, free, Kids(parent) + free + {parent}) && parent.Represents()
  {
    TreeMeans(parent);
    hide Node.IsTree, Node.ListOk, Node.Represents, Node.Whole;
    InWhole(Kids(parent) + free + {parent});
    forall n | n in Kids(parent) ensures n in parent.below {
      var i :| 0 <= i < |parent.kids| && parent.kids[i] == n;
    }
  }

  lemma InWhole(nodes: set<Node>)
    ensures forall n :: n in nodes ==> n in n.Whole() && n.below <= n.Whole()
  {
  }

  lemma KidsApart(n: Node)
    requires n.IsTree()
    ensures forall i, j :: 0 <= i < |n.kids| && 0 <= j < |n.kids| && i != j ==> n.kids[i].Whole() !! n.kids[j].Whole()
  {
  }

  /** No top stands below another, so relinking the tops leaves what is below them alone. */
  lemma TopsOutside(parent: Node, tops: set<Node>, all: set<Node>)
    requires Scattered(parent, tops, all)
    ensures forall m, n :: m in tops && n in tops ==> m !in n.below
    ensures forall n :: n in tops ==> n.IsTree() && parent !in n.below
  {
    hide Node.IsTree;
    forall m, n | m in tops && n in tops
      ensures m !in n.below
    {
      if m == n {
        TreeMeans(n);
      } else {
        assert m in m.Whole();
      }
    }
  }

  lemma TopsApart(parent: Node, tops: set<Node>, all: set<Node>, kids: seq<Node>)
    requires Scattered(parent, tops, all) && Distinct(kids) && forall n :: n in kids ==> n in tops
    ensures Apart(parent, kids) && forall k :: 0 <= k < |kids| ==> kids[k].IsTree()
  {
    hide Node.IsTree;
    assert forall k :: 0 <= k < |kids| ==> kids[k] in tops;
  }

  lemma GroveFrom(parent: Node, free: set<Node>, tops: set<Node>, all: set<Node>)
    requires Scattered(parent, tops, all) && parent in all && parent.IsTree()
    requires free <= tops && Kids(parent) <= tops && Kids(parent) !! free
    requires parent.below == UnionOf(parent.kids) && forall n :: n in free ==> n.next == null
    ensures Grove(parent, free, all)
  {
    hide Node.IsTree;
    forall n | n in free
      ensures n.Whole() !! parent.Whole()
    {
      assert parent !in n.Whole();
      forall k, m | k in parent.kids && m in k.Whole()
        ensures m !in n.Whole()
      {
        assert k in Kids(parent);
      }
    }
  }

  /** The edit of the list leaves the trees in it as they are. */
  method ApplyTops(parent: Node, e: Edit<Node>, ghost free: set<Node>, ghost tops: set<Node>, ghost all: set<Node>)
    requires Scattered(parent, tops, all) && tops == Kids(parent) + free
    requires Ready(parent, free, tops + {parent}) && Allowed(free, e)
    modifies parent`child, parent`kids, Kids(parent)`next, Kids(parent)`prev, free`next, free`prev
    ensures parent.kids == Edited(old(parent.kids), e)
    ensures Scattered(parent, tops, all) && Ready(parent, FreeAfter(old(parent.kids), free, e), tops + {parent})
  {
    hide Node.IsTree, Ready, Edited, Scattered;
    TopsOutside(parent, tops, all);
    ScatteredMeans(parent, tops, all);
    Apply(parent, e, free, tops + {parent});
    ScatteredFrom(parent, tops, all);
  }

  lemma ScatteredMeans(parent: Node, tops: set<Node>, all: set<Node>)
    requires Scattered(parent, tops, all)
    ensures tops <= all && parent !in tops && forall n :: n in tops ==> n.below <= all
    ensures forall m, n :: m in tops && n in tops && m != n ==> m.Whole() !! n.Whole()
  {
    hide Node.IsTree, Node.Whole;
  }

  lemma ScatteredFrom(parent: Node, tops: set<Node>, all: set<Node>)
    requires tops <= all && parent !in tops
    requires forall n :: n in tops ==> n.below <= all && parent !in n.below && n.IsTree()
    requires forall m, n :: m in tops && n in tops && m != n ==> m.Whole() !! n.Whole()
    ensures Scattered(parent, tops, all)
  {
    hide Node.IsTree, Node.Whole;
  }

  /** Fixes the ghost view of the root after an edit of its list. */
  ghost method Settle(parent: Node, free: set<Node>, tops: set<Node>, all: set<Node>, tree: Json)
    requires Scattered(parent, tops, all) && Ready(parent, free, tops + {parent}) && parent in all
    requires Stands(parent.kind, parent.kids, tree)
    modifies parent`kids, parent`below, parent`tree
    ensures Grove(parent, free, all) && parent.kids == old(parent.kids) && parent.tree == tree
  {
    hide Node.IsTree, Grove, Stands, Apart, UnionOf, Distinct, After, Before;
    ghost var kids := parent.kids;
    TopsApart(parent, tops, all, kids);
    TopsOutside(parent, tops, all);
    ApartMeans(parent, kids);
    Finish(parent, kids, tree);
    assert Scattered(parent, tops, all);
    GroveFrom(parent, free, tops, all);
  }

  /** An edit of a root: the same edit of its value, and a tree again. */
  method EditTree(parent: Node, e: Edit<Node>, ghost free: set<Node>, ghost all: set<Node>)
    requires Grove(parent, free, all) && Allowed(free, e) && (parent.kind.ArrayKind? || parent.kind.ObjectKind?)
    modifies parent`child, parent`kids, parent`below, parent`tree
    modifies Kids(parent)`next, Kids(parent)`prev, free`next, free`prev
    ensures parent.kids == Edited(old(parent.kids), e)
    ensures parent.tree == TreeEdited(old(parent.tree), e, old(Entry(e)))
    ensures Grove(parent, FreeAfter(old(parent.kids), free, e), all)
  {
    hide Node.IsTree, Scattered, Grove, Ready, Stands, Edited, TreeEdited, Distinct, Apart, UnionOf;
    ghost var tops, left := Kids(parent) + free, FreeAfter(parent.kids, free, e);
    GroveTops(parent, free, all);
    GroveReady(parent, free, all);
    EditStands(parent.kind, parent.kids, parent.tree, e);
    ghost var kids, tree := Edited(parent.kids, e), TreeEdited(parent.tree, e, Entry(e));
    assert Stands(parent.kind, kids, tree);
    ApplyTops(parent, e, free, tops, all);
    assert Stands(parent.kind, kids, tree);
    Settle(parent, left, tops, all, tree);
  }

  // ------------------------------------------------------------- runs on trees

  ghost function TreeEditedAll(j: Json, es: seq<Edit<Node>>, entries: seq<Member>): Json
    requires |es| == |entries|
    decreases |es|
  {
    if es == [] then j else TreeEditedAll(TreeEdited(j, es[0], entries[0]), es[1..], entries[1..])
  }

  /** Any legal run on a root: the same edits of its value, and a tree in the end. */
  method RunTree(parent: Node, es: seq<Edit<Node>>, ghost free: set<Node>, ghost all: set<Node>, ghost entries: seq<Member>)
    requires Grove(parent, free, all) && Legal(parent.kids, free, es) && (parent.kind.ArrayKind? || parent.kind.ObjectKind?)
    requires |entries| == |es| && forall i :: 0 <= i < |es| ==> entries[i] == Entry(es[i])
    modifies parent`child, parent`kids, parent`below, parent`tree, (all - {parent})`next, (all - {parent})`prev
    ensures parent.IsTree() && parent.kids == EditedAll(old(parent.kids), es)
    ensures parent.tree == TreeEditedAll(old(parent.tree), es, entries)
  {
    hide Node.IsTree, Grove, Edited, TreeEdited, FreeAfter, Allowed, Entry;
    ghost var now := free;
    assert es[0..] == es && entries[0..] == entries;
    var i := 0;
    GroveMeans(parent, free, all);
    while i < |es|
      invariant 0 <= i <= |es| && |entries| == |es|
      invariant Grove(parent, now, all) && parent.IsTree() && Kids(parent) + now <= all - {parent}
      invariant Legal(parent.kids, now, es[i..])
      invariant EditedAll(parent.kids, es[i..]) == EditedAll(old(parent.kids), es)
      invariant TreeEditedAll(parent.tree, es[i..], entries[i..]) == TreeEditedAll(old(parent.tree), es, entries)
    {
      ghost var s := parent.kids;
      assert es[i..][0] == es[i] && es[i..][1..] == es[i + 1..];
      assert entries[i..][0] == entries[i] && entries[i..][1..] == entries[i + 1..];
      assert Brought(es[i]) <= now by { AllowedMeans(now, es[i]); }
      assert Entry(es[i]) == entries[i];
      EditTree(parent, es[i], now, all);
      now := FreeAfter(s, now, es[i]);
      GroveMeans(parent, now, all);
      i := i + 1;
    }
  }

  lemma AllowedMeans(free: set<Node>, e: Edit<Node>)
    requires Allowed(free, e)
    ensures Brought(e) <= free
  {
  }

  lemma GroveMeans(parent: Node, free: set<Node>, all: set<Node>)
    requires Grove(parent, free, all)
    ensures parent in all && parent.IsTree() && Kids(parent) + free <= all - {parent} && parent.below <= all
  {
    KidsInside(parent);
    hide Node.IsTree, Node.Whole;
    InWhole(Kids(parent));
  }
}
