/**
 Items as they live on the heap: children form a doubly linked chain in which
 the first child's `prev` points at the last child and the last child's `next`
 is null.  The editing operations rewire the chain in place.
 */
module JsonNode {
  import opened JsonText
  import opened Sequences

  /** The `type` of an item together with the value field that goes with it. */
  datatype Kind = NullKind | BoolKind(b: bool) | NumberKind(value: real) | StringKind(s: string) | ArrayKind | ObjectKind

  /** The successor of child `i`. */
  ghost function After(s: seq<Node>, i: nat): Node?
    requires i < |s|
  {
    if i + 1 < |s| then s[i + 1] else null
  }

  /** The predecessor of child `i`; the first child's is the last child. */
  ghost function Before(s: seq<Node>, i: nat): Node
    requires i < |s|
  {
    if i > 0 then s[i - 1] else s[|s| - 1]
  }

  lemma OnlyNeighbours(s: seq<Node>, k: nat)
    requires Distinct(s) && k < |s|
    ensures forall j :: 0 <= j < |s| && j != k ==> s[j] != s[k]
    ensures forall j :: 0 < j < |s| ==> s[j] != s[0]
    ensures k > 0 ==> forall j :: 0 <= j < |s| && j != k - 1 ==> s[j] != s[k - 1]
    ensures k + 1 < |s| ==> forall j :: 0 <= j < |s| && j != k + 1 ==> s[j] != s[k + 1]
  {
    Only(s, 0);
    Only(s, k);
    if k > 0 { Only(s, k - 1); }
    if k + 1 < |s| { Only(s, k + 1); }
  }

  lemma NextTo(s: seq<Node>, k: nat)
    requires k < |s|
    ensures if k + 1 < |s| then After(s, k) == s[k + 1] else After(s, k) == null
    ensures Before(s, k) == if k > 0 then s[k - 1] else s[|s| - 1]
    ensures Before(s, 0) == s[|s| - 1]
  {
  }

  lemma RemovedLinks(s: seq<Node>, k: nat, i: nat)
    requires Distinct(s) && k < |s| && i < |s| - 1
    ensures var r, j := Removed<Node>(s, k), if i < k then i else i + 1;
            && r[i] == s[j]
            && After(r, i) == (if j + 1 == k then After(s, k) else After(s, j))
            && Before(r, i) == (if j == k + 1 || (j == 0 && k == |s| - 1) then Before(s, k) else Before(s, j))
  {
  }

  lemma RemovedHead(s: seq<Node>, k: nat)
    requires k < |s|
    ensures |Removed<Node>(s, k)| == |s| - 1
    ensures (if k > 0 then s[0] else After(s, 0)) == if Removed<Node>(s, k) == [] then null else Removed<Node>(s, k)[0]
  {
  }

  lemma InsertedLinks(s: seq<Node>, k: nat, n: Node, i: nat)
    requires Distinct(s) && n !in s && k < |s| && i <= |s|
    ensures var r, j := Inserted<Node>(s, k, n), if i < k then i else i - 1;
            if i == k then r[i] == n && After(r, i) == s[k] && Before(r, i) == Before(s, k)
            else
              && r[i] == s[j]
              && After(r, i) == (if j + 1 == k then n else After(s, j))
              && Before(r, i) == (if j == k then n else Before(s, j))
  {
  }

  lemma InsertedHead(s: seq<Node>, k: nat, n: Node)
    requires k <= |s|
    ensures |Inserted<Node>(s, k, n)| == |s| + 1 && Inserted<Node>(s, k, n)[0] == if k > 0 then s[0] else n
  {
  }

  lemma AppendedLinks(s: seq<Node>, n: Node, i: nat)
    requires i <= |s|
    ensures var r := s + [n];
            if i == |s| then r[i] == n && After(r, i) == null && Before(r, i) == (if s == [] then n else s[|s| - 1])
            else
              && r[i] == s[i]
              && After(r, i) == (if i + 1 == |s| then n else After(s, i))
              && Before(r, i) == (if i == 0 then n else Before(s, i))
  {
  }

  lemma ReplacedLinks(s: seq<Node>, k: nat, n: Node, i: nat)
    requires Distinct(s) && n !in s && k < |s| && i < |s|
    ensures var r := s[k := n];
            && r[i] == (if i == k then n else s[i])
            && After(r, i) == (if i + 1 == k then n else After(s, i))
            && Before(r, i) == (if i == k + 1 || (i == 0 && k == |s| - 1) then n else Before(s, i))
  {
  }

  function Childless(kind: Kind): Json {
    match kind
    case NullKind => Null
    case BoolKind(b) => Bool(b)
    case NumberKind(r) => Number(r)
    case StringKind(t) => String(t)
    case ArrayKind => Array([])
    case ObjectKind => Object([])
  }

  /** An item of that kind with those children stands for `tree`. */
  ghost predicate Stands(kind: Kind, kids: seq<Node>, tree: Json)
    reads kids`tree, kids`name
  {
    match kind
    case ArrayKind => tree.Array? && |tree.items| == |kids| && forall i :: 0 <= i < |kids| ==> tree.items[i] == kids[i].tree
    case ObjectKind =>
      && tree.Object? && |tree.members| == |kids|
      && forall i :: 0 <= i < |kids| ==> tree.members[i] == Member(kids[i].name, kids[i].tree)
    case _ => kids == [] && tree == Childless(kind)
  }

  class Node {
    var next: Node?
    var prev: Node?
    var child: Node?
    var kind: Kind
    var name: string
    ghost var kids: seq<Node>
    ghost var below: set<Node>  // the items below this one
    ghost var tree: Json        // the value that the item and those below it represent

    /** `cJSON_New_Item` with its type, value and key filled in. */
    constructor (kind: Kind, name: string)
      ensures next == null && prev == null && child == null && kids == [] && below == {}
      ensures this.kind == kind && this.name == name && tree == Childless(kind)
    {
      next, prev, child, kids, below := null, null, null, [], {};
      this.kind, this.name, this.tree := kind, name, Childless(kind);
    }

    /** The chain of children is exactly `kids`, linked both ways, closed at the head. */
    ghost predicate ListOk()
      reads this`child, this`kids, kids
    {
      && this !in kids
      && Distinct(kids)
      && child == (if kids == [] then null else kids[0])
      && forall i :: 0 <= i < |kids| ==> kids[i].next == After(kids, i) && kids[i].prev == Before(kids, i)
    }

    /** The value that `kind` and the children give. */
    ghost predicate Represents()
      reads this`kind, this`kids, this`tree, kids
    {
      Stands(kind, kids, tree)
    }

    /** A whole tree: every list in it is well formed, no item occurs twice. */
    ghost predicate IsTree()
      reads this`child, this`kind, this`kids, this`below, this`tree, below
      decreases below
    {
      && this !in below
      && (forall i :: 0 <= i < |kids| ==>
            kids[i] in below && kids[i].below <= below - {kids[i]} && kids[i].below < below)
      && (forall i, j :: 0 <= i < j < |kids| ==> kids[i].Whole() !! kids[j].Whole())
      && ListOk()
      && Represents()
      && (forall i :: 0 <= i < |kids| ==> kids[i].IsTree())
    }

    ghost function Whole(): set<Node>
      reads this`below
    {
      {this} + below
    }

    /** `get_array_item`. */
    method GetItem(index: nat) returns (item: Node?)
      requires ListOk()
      ensures item == if index < |kids| then kids[index] else null
    {
      item := child;
      var i: nat := 0;
      while item != null && i < index
        invariant i <= |kids|
        invariant i <= index
        invariant item == if i < |kids| then kids[i] else null
        decreases index - i
      {
        item := item.next;
        i := i + 1;
      }
    }

    /** The pointer writes of `add_item_to_array`. */
    method LinkLast(item: Node)
      requires ListOk() && item !in kids && item.next == null && item != this
      modifies this`child, kids`next, kids`prev, item`next, item`prev
      ensures child == (if kids == [] then item else kids[0])
      ensures item.next == null && item.prev == if kids == [] then item else kids[|kids| - 1]
      ensures forall j :: 0 <= j < |kids| ==> kids[j].next == if j + 1 == |kids| then item else After(kids, j)
      ensures forall j :: 0 <= j < |kids| ==> kids[j].prev == if j == 0 then item else Before(kids, j)
    {
      hide Distinct;
      if kids != [] { OnlyNeighbours(kids, |kids| - 1); }
      if child == null {
        child := item;
        item.prev := item;
        item.next := null;
      } else {
        var last := child.prev;
        last.next := item;
        item.prev := last;
        child.prev := item;
      }
    }

    /** `add_item_to_array`: appends an item that is in no list. */
    method Append(item: Node?) returns (ok: bool)
      requires ListOk()
      requires item != null && item != this ==> item !in kids && item.next == null
      modifies this`child, this`kids, kids`next, kids`prev, Opt(item)`next, Opt(item)`prev
      ensures ok <==> item != null && item != this
      ensures ListOk() && kids == if ok then old(kids) + [item] else old(kids)
      ensures !ok ==> unchanged(this) && unchanged(kids)
    {
      hide Distinct, After, Before;
      if item == null || item == this {
        return false;
      }
      LinkLast(item);
      ghost var s := kids;
      kids := kids + [item];
      AppendedDistinct<Node>(s, item);
      forall i | 0 <= i < |kids|
        ensures kids[i].next == After(kids, i) && kids[i].prev == Before(kids, i)
      {
        AppendedLinks(s, item, i);
      }
      ok := true;
    }

    /** The pointer writes of `cJSON_DetachItemViaPointer`. */
    method Unlink(item: Node, ghost k: nat)
      requires ListOk() && k < |kids| && kids[k] == item
      modifies this`child, kids`next, kids`prev
      ensures child == if k > 0 then old(child) else After(kids, 0)
      ensures item.next == null && item.prev == null
      ensures forall j :: 0 <= j < |kids| && j != k ==>
                kids[j].next == if j + 1 == k then After(kids, k) else After(kids, j)
      ensures forall j :: 0 <= j < |kids| && j != k ==>
                kids[j].prev == if j == k + 1 || (j == 0 && k == |kids| - 1) then Before(kids, k) else Before(kids, j)
    {
      hide Distinct;
      OnlyNeighbours(kids, k);
      assert item.next == After(kids, k) && item.prev == Before(kids, k);
      NextTo(kids, k);
      hide After, Before;
      if item != child {
        item.prev.next := item.next;
      }
      if item.next != null {
        item.next.prev := item.prev;
      }
      if item == child {
        child := item.next;
      } else if item.next == null {
        child.prev := item.prev;
      }
      item.prev := null;
      item.next := null;
    }

    /** `cJSON_DetachItemViaPointer` for child number `k`. */
    method Detach(item: Node, ghost k: nat)
      requires ListOk() && k < |kids| && kids[k] == item
      modifies this`child, this`kids, kids`next, kids`prev
      ensures ListOk() && kids == Removed<Node>(old(kids), k)
      ensures item.next == null && item.prev == null
    {
      hide Distinct, After, Before, Removed;
      assert kids != [] && child == kids[0];
      Unlink(item, k);
      ghost var s := kids;
      kids := Removed<Node>(kids, k);
      RemovedDistinct<Node>(s, k);
      RemovedHead(s, k);
      forall i | 0 <= i < |kids|
        ensures kids[i].next == After(kids, i) && kids[i].prev == Before(kids, i)
      {
        RemovedLinks(s, k, i);
      }
    }

    /** The pointer writes of `cJSON_InsertItemInArray` in front of child `k`. */
    method LinkBefore(after: Node, ghost k: nat, item: Node)
      requires ListOk() && k < |kids| && kids[k] == after && item !in kids && item != this
      modifies this`child, kids`next, kids`prev, item`next, item`prev
      ensures child == if k > 0 then old(child) else item
      ensures item.next == after && item.prev == Before(kids, k)
      ensures forall j :: 0 <= j < |kids| ==> kids[j].next == if j + 1 == k then item else After(kids, j)
      ensures forall j :: 0 <= j < |kids| ==> kids[j].prev == if j == k then item else Before(kids, j)
    {
      hide Distinct;
      OnlyNeighbours(kids, k);
      assert after.prev == Before(kids, k) && (k > 0 ==> Before(kids, k) == kids[k - 1]);
      hide After, Before;
      item.next := after;
      item.prev := after.prev;
      after.prev := item;
      if after == child {
        child := item;
      } else {
        item.prev.next := item;
      }
    }

    /** `cJSON_InsertItemInArray`. */
    method Insert(which: int, item: Node?) returns (ok: bool)
      requires ListOk()
      requires item != null ==> item !in kids && item.next == null && item != this
      modifies this`child, this`kids, kids`next, kids`prev, Opt(item)`next, Opt(item)`prev
      ensures ok <==> which >= 0 && item != null
      ensures ListOk()
      ensures kids == if !ok then old(kids)
                      else if which < |old(kids)| then Inserted<Node>(old(kids), which, item)
                      else old(kids) + [item]
      ensures !ok ==> unchanged(this) && unchanged(kids) && (item != null ==> unchanged(item))
    {
      hide Distinct, After, Before, Inserted;
      if which < 0 || item == null {
        return false;
      }
      var after := GetItem(which);
      if after == null {
        ok := Append(item);
        return;
      }
      LinkBefore(after, which, item);
      ghost var s := kids;
      kids := Inserted<Node>(kids, which, item);
      InsertedDistinct<Node>(s, which, item);
      InsertedHead(s, which, item);
      forall i | 0 <= i < |kids|
        ensures kids[i].next == After(kids, i) && kids[i].prev == Before(kids, i)
      {
        InsertedLinks(s, which, item, i);
      }
      ok := true;
    }

    /** The first pointer writes of `cJSON_ReplaceItemViaPointer`: the replacement and its successor. */
    method RelinkNext(item: Node, ghost k: nat, replacement: Node)
      requires ListOk() && k < |kids| && kids[k] == item && replacement !in kids && replacement != this
      modifies kids`next, kids`prev, replacement`next, replacement`prev
      ensures replacement.next == After(kids, k) && replacement.prev == Before(kids, k)
      ensures forall j :: 0 <= j < |kids| ==> kids[j].next == After(kids, j)
      ensures forall j :: 0 <= j < |kids| ==> kids[j].prev == if j == k + 1 then replacement else Before(kids, j)
    {
      hide Distinct;
      OnlyNeighbours(kids, k);
      assert item.next == After(kids, k) && item.prev == Before(kids, k);
      NextTo(kids, k);
      hide After, Before;
      replacement.next := item.next;
      replacement.prev := item.prev;
      if replacement.next != null {
        replacement.next.prev := replacement;
      }
    }

    /** The other pointer writes: the head of the chain or the predecessor. */
    method RelinkBefore(item: Node, ghost k: nat, replacement: Node)
      requires Distinct(kids) && this !in kids && k < |kids| && kids[k] == item && child == kids[0]
      requires replacement !in kids && replacement != this
      requires replacement.next == After(kids, k) && replacement.prev == Before(kids, k)
      requires forall j :: 0 <= j < |kids| ==> kids[j].next == After(kids, j)
      requires forall j :: 0 <= j < |kids| ==> kids[j].prev == if j == k + 1 then replacement else Before(kids, j)
      modifies this`child, kids`next, kids`prev, replacement`next, replacement`prev
      ensures child == if k > 0 then kids[0] else replacement
      ensures replacement.next == After(kids, k)
      ensures replacement.prev == if |kids| == 1 then replacement else Before(kids, k)
      ensures forall j :: 0 <= j < |kids| && j != k ==> kids[j].next == if j + 1 == k then replacement else After(kids, j)
      ensures forall j :: 0 <= j < |kids| && j != k ==>
                kids[j].prev == if j == k + 1 || (j == 0 && k == |kids| - 1) then replacement else Before(kids, j)
    {
      hide Distinct;
      OnlyNeighbours(kids, k);
      NextTo(kids, k);
      hide After, Before;
      if child == item {
        if child.prev == child {
          replacement.prev := replacement;
        }
        child := replacement;
      } else {
        if replacement.prev != null {
          replacement.prev.next := replacement;
        }
        if replacement.next == null {
          child.prev := replacement;
        }
      }
    }

    method Relink(item: Node, ghost k: nat, replacement: Node)
      requires ListOk() && k < |kids| && kids[k] == item && replacement !in kids && replacement != this
      modifies this`child, kids`next, kids`prev, replacement`next, replacement`prev
      ensures child == if k > 0 then kids[0] else replacement
      ensures item.next == null && item.prev == null
      ensures replacement.next == After(kids, k)
      ensures replacement.prev == if |kids| == 1 then replacement else Before(kids, k)
      ensures forall j :: 0 <= j < |kids| && j != k ==> kids[j].next == if j + 1 == k then replacement else After(kids, j)
      ensures forall j :: 0 <= j < |kids| && j != k ==>
                kids[j].prev == if j == k + 1 || (j == 0 && k == |kids| - 1) then replacement else Before(kids, j)
    {
      hide Distinct, After, Before;
      RelinkNext(item, k, replacement);
      RelinkBefore(item, k, replacement);
      Only(kids, k);
      item.next := null;
      item.prev := null;
    }

    /** `cJSON_ReplaceItemViaPointer` for child number `k`. */
    method Replace(item: Node, ghost k: nat, replacement: Node?) returns (ok: bool)
      requires ListOk() && k < |kids| && kids[k] == item
      requires replacement != null && replacement != item ==> replacement !in kids && replacement != this
      modifies this`child, this`kids, kids`next, kids`prev, Opt(replacement)`next, Opt(replacement)`prev
      ensures ok <==> replacement != null
      ensures ListOk() && kids == if ok then old(kids)[k := replacement] else old(kids)
      ensures ok && replacement != item ==> item.next == null && item.prev == null
    {
      hide Distinct, After, Before;
      if replacement == null {
        return false;
      }
      if replacement == item {
        assert kids[k := replacement] == kids;
        return true;
      }
      Relink(item, k, replacement);
      ghost var s := kids;
      kids := kids[k := replacement];
      ReplacedDistinct<Node>(s, k, replacement);
      forall i | 0 <= i < |kids|
        ensures kids[i].next == After(kids, i) && kids[i].prev == Before(kids, i)
      {
        ReplacedLinks(s, k, replacement, i);
      }
      ok := true;
    }
  }

  // ------------------------------------------------------- runs of edits

  /** One call of an editing function; `which` is a valid C int that is not negative. */
  datatype Edit<T> = Add(item: T) | Put(which: nat, item: T) | Remove(which: nat) | Swap(which: nat, item: T)

  /** What an edit does to a list. */
  ghost function Edited<T>(s: seq<T>, e: Edit<T>): seq<T> {
    match e
    case Add(n) => s + [n]
    case Put(k, n) => if k < |s| then Inserted<T>(s, k, n) else s + [n]
    case Remove(k) => if k < |s| then Removed<T>(s, k) else s
    case Swap(k, n) => if k < |s| then s[k := n] else s
  }

  /** The items that are in no list; a replaced item is deleted and never comes back. */
  ghost function FreeAfter(s: seq<Node>, free: set<Node>, e: Edit<Node>): set<Node> {
    match e
    case Add(n) => free - {n}
    case Put(_, n) => free - {n}
    case Remove(k) => if k < |s| then free + {s[k]} else free
    case Swap(k, n) => if k < |s| then free - {n} else free
  }

  ghost predicate Allowed(free: set<Node>, e: Edit<Node>) {
    e.Remove? || e.item in free
  }

  /** Every edit of the run uses an item that is detached at that moment. */
  ghost predicate Legal(s: seq<Node>, free: set<Node>, es: seq<Edit<Node>>)
    decreases |es|
  {
    es == [] || (Allowed(free, es[0]) && Legal(Edited(s, es[0]), FreeAfter(s, free, es[0]), es[1..]))
  }

  ghost function EditedAll<T>(s: seq<T>, es: seq<Edit<T>>): seq<T>
    decreases |es|
  {
    if es == [] then s else EditedAll(Edited(s, es[0]), es[1..])
  }

  ghost function Kids(n: Node): set<Node>
    reads n`kids
  {
    set k | k in n.kids
  }

  /** A list, the detached items, and nothing shared between them. */
  ghost predicate Ready(parent: Node, free: set<Node>, all: set<Node>)
    reads parent, parent.kids, free
  {
    && parent.ListOk()
    && parent in all && parent !in free && free <= all && (forall n :: n in parent.kids ==> n in all && n !in free)
    && (forall n :: n in free ==> n.next == null)
  }

  method Apply(parent: Node, e: Edit<Node>, ghost free: set<Node>, ghost all: set<Node>)
    requires Ready(parent, free, all) && Allowed(free, e)
    modifies parent`child, parent`kids, Kids(parent)`next, Kids(parent)`prev, free`next, free`prev
    ensures parent.kids == Edited(old(parent.kids), e)
    ensures Ready(parent, FreeAfter(old(parent.kids), free, e), all)
  {
    hide Distinct, After, Before;
    match e
    case Add(n) =>
      var ok := parent.Append(n);
    case Put(k, n) =>
      if k < |parent.kids| { InsertedDistinct<Node>(parent.kids, k, n); }
      var ok := parent.Insert(k, n);
    case Remove(k) =>
      var item := parent.GetItem(k);
      if item != null {
        RemovedMembers<Node>(parent.kids, k);
        parent.Detach(item, k);
      }
    case Swap(k, n) =>
      var item := parent.GetItem(k);
      if item != null {
        ReplacedDistinct<Node>(parent.kids, k, n);
        var ok := parent.Replace(item, k, n);
      }
  }

  /** Any legal run keeps the shape and acts on the children as the same edits on a sequence. */
  method Run(parent: Node, es: seq<Edit<Node>>, ghost free: set<Node>, ghost all: set<Node>)
    requires Ready(parent, free, all) && Legal(parent.kids, free, es)
    modifies parent`child, parent`kids, (all - {parent})`next, (all - {parent})`prev
    ensures parent.ListOk() && parent.kids == EditedAll(old(parent.kids), es)
  {
    hide Ready, Edited, FreeAfter, Allowed;
    ghost var now := free;
    var i := 0;
    assert es[0..] == es;
    ReadyMeans(parent, free, all);
    while i < |es|
      invariant 0 <= i <= |es|
      invariant Ready(parent, now, all) && parent.ListOk() && Kids(parent) <= all - {parent} && now <= all - {parent}
      invariant Legal(parent.kids, now, es[i..])
      invariant EditedAll(parent.kids, es[i..]) == EditedAll(old(parent.kids), es)
    {
      ghost var s := parent.kids;
      assert es[i..][1..] == es[i + 1..];
      Apply(parent, es[i], now, all);
      now := FreeAfter(s, now, es[i]);
      ReadyMeans(parent, now, all);
      i := i + 1;
    }
  }

  lemma ReadyMeans(parent: Node, free: set<Node>, all: set<Node>)
    requires Ready(parent, free, all)
    ensures parent in all && parent.ListOk() && Kids(parent) <= all - {parent} && free <= all - {parent}
  {
  }

  // ----------------------------------------------------------- duplication

  /** Nothing is shared among the copies, nor with their parent. */
  ghost predicate Apart(parent: Node, copies: seq<Node>)
    reads copies`below
  {
    && (forall k :: 0 <= k < |copies| ==> parent !in copies[k].Whole())
    && (forall k, l :: 0 <= k < l < |copies| ==> copies[k].Whole() !! copies[l].Whole())
  }

  /** The copies linked so far; the first one's `prev` is set when all are there. */
  ghost predicate Linked(copies: seq<Node>)
    reads copies`next, copies`prev
  {
    && (forall k :: 0 <= k < |copies| ==> copies[k].next == After(copies, k))
    && (forall k :: 0 < k < |copies| ==> copies[k].prev == copies[k - 1])
  }

  ghost function Opt(n: Node?): set<Node> {
    if n == null then {} else {n}
  }

  /** Appends one copy to the list under construction. */
  method LinkCopy(copy: Node, last: Node?, newchild: Node, ghost copies: seq<Node>)
    requires Linked(copies) && newchild.next == null
    requires copy !in copies && newchild !in copies && copy != newchild && Distinct(copies)
    requires last == (if copies == [] then null else copies[|copies| - 1])
    requires copy.child == (if copies == [] then null else copies[0])
    modifies copy`child, Opt(last)`next, newchild`prev
    ensures Linked(copies + [newchild]) && copy.child == (copies + [newchild])[0]
  {
    if last != null {
      last.next := newchild;
      newchild.prev := last;
    } else {
      copy.child := newchild;
    }
  }

  /** The conjuncts of IsTree, one by one. */
  lemma TreeFrom(n: Node)
    requires n.below == UnionOf(n.kids) && n !in n.below
    requires forall i :: 0 <= i < |n.kids| ==> n.kids[i].IsTree()
    requires forall i, j :: 0 <= i < j < |n.kids| ==> n.kids[i].Whole() !! n.kids[j].Whole()
    requires n.ListOk() && n.Represents()
    ensures n.IsTree()
  {
    hide Node.ListOk, Node.Represents;
    forall i | 0 <= i < |n.kids|
      ensures n.kids[i] in n.below && n.kids[i].below <= n.below - {n.kids[i]} && n.kids[i].below < n.below
    {
      var k := n.kids[i];
      assert k in n.kids && k in k.Whole();
      assert forall m :: m in k.below ==> m in k.Whole() && m in n.below;
      assert k !in k.below;
    }
  }

  ghost function UnionOf(copies: seq<Node>): set<Node>
    reads copies`below
  {
    set n, m | n in copies && m in n.Whole() :: m
  }

  /** Fixes the ghost view of an item whose children are complete. */
  ghost method Finish(item: Node, kids: seq<Node>, tree: Json)
    requires Apart(item, kids) && (forall k :: 0 <= k < |kids| ==> kids[k].IsTree())
    requires forall k :: 0 <= k < |kids| ==> kids[k].next == After(kids, k) && kids[k].prev == Before(kids, k)
    requires item.child == (if kids == [] then null else kids[0]) && Stands(item.kind, kids, tree)
    modifies item`kids, item`below, item`tree
    ensures item.IsTree() && item.kids == kids && item.tree == tree && item.below == old(UnionOf(kids))
  {
    hide Node.IsTree, UnionOf, After, Before, Distinct, Stands;
    UnionAvoids(item, kids);
    ApartMeans(item, kids);
    assert forall k :: 0 <= k < |kids| ==> item !in kids[k].below;
    ghost var all := UnionOf(kids);
    item.kids, item.below, item.tree := kids, UnionOf(kids), tree;
    assert all == UnionOf(kids);
    assert item.ListOk();
    TreeFrom(item);
  }

  lemma ApartMeans(parent: Node, copies: seq<Node>)
    requires Apart(parent, copies)
    ensures parent !in copies && Distinct(copies)
  {
    assert forall k :: 0 <= k < |copies| ==> copies[k] in copies[k].Whole();
  }

  lemma UnionAvoids(parent: Node, copies: seq<Node>)
    requires Apart(parent, copies)
    ensures parent !in UnionOf(copies)
  {
  }

  lemma ApartGrows(parent: Node, copies: seq<Node>, n: Node)
    requires Apart(parent, copies) && parent !in n.Whole()
    requires forall k :: 0 <= k < |copies| ==> copies[k].Whole() !! n.Whole()
    ensures Apart(parent, copies + [n])
  {
  }

  /** `cJSON_Duplicate`: a fresh, well-formed copy that stands for the same value. */
  method Duplicate(item: Node, recurse: bool) returns (copy: Node)
    requires item.IsTree()
    ensures fresh(copy) && fresh(copy.below) && copy.IsTree()
    ensures copy.next == null && copy.prev == null && copy.kind == item.kind && copy.name == item.name
    ensures if recurse then copy.tree == item.tree else copy.kids == []
    decreases item.below, 1
  {
    hide Node.IsTree, Node.ListOk, Node.Represents, Apart, After, Before, UnionOf, SameAs;
    TreeMeans(item);
    copy := new Node(item.kind, item.name);
    if !recurse {
      LeafIsTree(copy);
      return;
    }
    ghost var copies, made := DuplicateChildren(item, copy);
    SameStands(item, copies);
    Finish(copy, copies, item.tree);
  }

  lemma LastOutside(parent: Node, copies: seq<Node>)
    requires Apart(parent, copies) && forall k :: 0 <= k < |copies| ==> copies[k].IsTree()
    ensures forall k :: 0 <= k < |copies| ==> parent !in copies[k].below && copies[|copies| - 1] !in copies[k].below
  {
    hide Node.IsTree;
    forall k | 0 <= k < |copies|
      ensures copies[|copies| - 1] !in copies[k].below
    {
      if k == |copies| - 1 {
        TreeMeans(copies[k]);
      } else {
        assert copies[|copies| - 1] in copies[|copies| - 1].Whole();
      }
    }
  }

  lemma FirstOutside(parent: Node, copies: seq<Node>)
    requires Apart(parent, copies) && forall k :: 0 <= k < |copies| ==> copies[k].IsTree()
    ensures forall k :: 0 <= k < |copies| ==> copies[0] !in copies[k].below
  {
    hide Node.IsTree;
    forall k | 0 <= k < |copies|
      ensures copies[0] !in copies[k].below
    {
      if k == 0 {
        TreeMeans(copies[k]);
      } else {
        assert copies[0] in copies[0].Whole();
      }
    }
  }

  lemma LeafIsTree(n: Node)
    requires n.kids == [] && n.below == {} && n.child == null && n.tree == Childless(n.kind)
    ensures n.IsTree()
  {
  }

  lemma TreeMeans(n: Node)
    requires n.IsTree()
    ensures n.Represents() && n.ListOk() && n !in n.below
    ensures forall i :: 0 <= i < |n.kids| ==>
              n.kids[i] in n.below && n.kids[i].below <= n.below && n.kids[i].below < n.below && n.kids[i].IsTree()
  {
  }

  /** One turn of the loop: copies `child` and appends the copy to the list. */
  method CopyOne(child: Node, copy: Node, last: Node?, ghost copies: seq<Node>, ghost made: set<Node>) returns (newchild: Node)
    requires child.IsTree() && Chain(copy, copy.child, last, copies, made)
    modifies copy`child, Opt(last)`next
    ensures fresh(newchild) && fresh(newchild.below)
    ensures newchild.tree == child.tree && newchild.name == child.name
    ensures Chain(copy, copy.child, newchild, copies + [newchild], made + newchild.Whole())
    decreases child.below, 2
  {
    hide Node.IsTree, Chain;
    newchild := Duplicate(child, true);
    AppendCopy(copy, last, newchild, copies, made);
  }

  method AppendCopy(copy: Node, last: Node?, newchild: Node, ghost copies: seq<Node>, ghost made: set<Node>)
    requires Chain(copy, copy.child, last, copies, made) && newchild.IsTree() && newchild.next == null
    requires newchild.Whole() !! made && copy !in newchild.Whole()
    modifies copy`child, Opt(last)`next, newchild`prev
    ensures Chain(copy, copy.child, newchild, copies + [newchild], made + newchild.Whole())
  {
    hide Node.IsTree, Distinct, Linked, Apart, Chain, UnionOf;
    ghost var head := copy.child;
    ChainMeans(copy, head, last, copies, made);
    ChainEnds(copy, head, last, copies, made);
    ApartMeans(copy, copies);
    LastOutside(copy, copies);
    TreeMeans(newchild);
    assert forall k :: 0 <= k < |copies| ==> newchild !in copies[k].Whole() by { AllInUnion(copies); }
    LinkCopy(copy, last, newchild, copies);
    ChainGrows(copy, head, copies, made, newchild);
  }

  lemma AllInUnion(kids: seq<Node>)
    ensures forall k :: 0 <= k < |kids| ==> kids[k].Whole() <= UnionOf(kids)
  {
    forall k | 0 <= k < |kids| ensures kids[k].Whole() <= UnionOf(kids) {
      InUnion(kids, k);
    }
  }

  /** What the copies have to agree with: keys and values of the first children. */
  ghost predicate SameAs(kids: seq<Node>, copies: seq<Node>)
    reads kids`tree, kids`name, copies`tree, copies`name
  {
    && |copies| <= |kids|
    && forall k :: 0 <= k < |copies| ==> copies[k].tree == kids[k].tree && copies[k].name == kids[k].name
  }

  lemma SameStands(item: Node, copies: seq<Node>)
    requires item.Represents() && |copies| == |item.kids| && SameAs(item.kids, copies)
    ensures Stands(item.kind, copies, item.tree)
  {
  }

  lemma SameAsGrows(kids: seq<Node>, copies: seq<Node>, n: Node)
    requires SameAs(kids, copies) && |copies| < |kids|
    requires n.tree == kids[|copies|].tree && n.name == kids[|copies|].name
    ensures SameAs(kids, copies + [n])
  {
  }

  /** The loop of `cJSON_Duplicate`, and the closing of the list behind it. */
  method DuplicateChildren(item: Node, copy: Node) returns (ghost copies: seq<Node>, ghost made: set<Node>)
    requires item.IsTree() && copy.child == null && copy !in item.Whole()
    modifies copy`child
    ensures fresh(made) && made == UnionOf(copies)
    ensures |copies| == |item.kids| && Apart(copy, copies) && SameAs(item.kids, copies)
    ensures forall k :: 0 <= k < |copies| ==> copies[k].next == After(copies, k) && copies[k].prev == Before(copies, k)
    ensures copy.child == (if copies == [] then null else copies[0])
    ensures forall k :: 0 <= k < |copies| ==> copies[k].IsTree()
    decreases item.below, 0
  {
    hide Node.IsTree, Apart, Distinct, SameAs, UnionOf, Linked, After, Before, Chain;
    TreeMeans(item);
    var child := item.child;
    var last: Node? := null;
    copies, made := [], {};
    NoChain(copy);
    SameAsNothing(item.kids);
    while child != null
      invariant |copies| <= |item.kids| && child == (if |copies| < |item.kids| then item.kids[|copies|] else null)
      invariant Chain(copy, copy.child, last, copies, made) && fresh(made) && SameAs(item.kids, copies)
      decreases |item.kids| - |copies|
    {
      NextKid(item, |copies|);
      ChainEnds(copy, copy.child, last, copies, made);
      last := CopyOne(child, copy, last, copies, made);
      SameAsGrows(item.kids, copies, last);
      copies, made := copies + [last], made + last.Whole();
      child := child.next;
    }
    ChainMeans(copy, copy.child, last, copies, made);
    ChainEnds(copy, copy.child, last, copies, made);
    CloseList(copy, copy.child, last, copies);
  }

  lemma NextKid(item: Node, k: nat)
    requires item.ListOk() && k < |item.kids|
    ensures item.kids[k].next == if k + 1 < |item.kids| then item.kids[k + 1] else null
  {
    hide Distinct;
  }

  lemma UnionGrows(copies: seq<Node>, n: Node)
    ensures UnionOf(copies + [n]) == UnionOf(copies) + n.Whole()
  {
    hide Node.Whole;
    assert forall m :: m in copies + [n] <==> m in copies || m == n;
  }

  lemma SameAsNothing(kids: seq<Node>)
    ensures SameAs(kids, [])
  {
  }

  /** The head's `prev` closes a finished chain. */
  method CloseList(ghost parent: Node, head: Node?, last: Node?, ghost copies: seq<Node>)
    requires Linked(copies) && Apart(parent, copies) && forall k :: 0 <= k < |copies| ==> copies[k].IsTree()
    requires last == (if copies == [] then null else copies[|copies| - 1])
    requires head == (if copies == [] then null else copies[0])
    modifies Opt(head)`prev
    ensures forall k :: 0 <= k < |copies| ==> copies[k].next == After(copies, k) && copies[k].prev == Before(copies, k)
    ensures forall k :: 0 <= k < |copies| ==> copies[k].IsTree()
  {
    hide Node.IsTree, Distinct, Apart;
    ApartMeans(parent, copies);
    FirstOutside(parent, copies);
    if head != null {
      Only(copies, 0);
      head.prev := last;
    }
  }

  // ------------------------------------------------- chains that the parser builds

  /** A new item, not filled in yet. */
  ghost predicate Blank(n: Node)
    reads n
  {
    n.child == null && n.kids == [] && n.below == {}
  }

  /** A chain under construction: `made` are all items in it and below it. */
  ghost predicate Chain(parent: Node, head: Node?, last: Node?, kids: seq<Node>, made: set<Node>)
    reads kids, made
  {
    && made == UnionOf(kids) && Apart(parent, kids) && Linked(kids)
    && head == (if kids == [] then null else kids[0])
    && last == (if kids == [] then null else kids[|kids| - 1])
    && forall k :: 0 <= k < |kids| ==> (assert kids[k].below <= made by { InUnion(kids, k); } kids[k].IsTree())
  }

  lemma InUnion(kids: seq<Node>, k: nat)
    requires k < |kids|
    ensures kids[k].Whole() <= UnionOf(kids) && kids[k].below <= UnionOf(kids)
  {
    assert forall m :: m in kids[k].Whole() ==> m in UnionOf(kids);
    assert forall m :: m in kids[k].below ==> m in kids[k].Whole();
  }

  lemma NoChain(parent: Node)
    ensures Chain(parent, null, null, [], {})
  {
  }

  lemma ChainMeans(parent: Node, head: Node?, last: Node?, kids: seq<Node>, made: set<Node>)
    requires Chain(parent, head, last, kids, made)
    ensures made == UnionOf(kids) && Apart(parent, kids) && Linked(kids)
    ensures last == (if kids == [] then null else kids[|kids| - 1]) && head == (if kids == [] then null else kids[0])
    ensures forall k :: 0 <= k < |kids| ==> kids[k].IsTree()
  {
  }

  lemma ChainEnds(parent: Node, head: Node?, last: Node?, kids: seq<Node>, made: set<Node>)
    requires Chain(parent, head, last, kids, made)
    ensures Opt(head) <= made && Opt(last) <= made && (head == null <==> kids == [])
  {
    if kids != [] {
      InUnion(kids, 0);
      InUnion(kids, |kids| - 1);
    }
  }

  /** A new item behind the last one of a chain under construction. */
  method Extend(ghost parent: Node, last: Node?, ghost kids: seq<Node>) returns (next: Node)
    requires Apart(parent, kids) && Linked(kids) && forall k :: 0 <= k < |kids| ==> kids[k].IsTree()
    requires last == if kids == [] then null else kids[|kids| - 1]
    modifies Opt(last)`next
    ensures fresh(next) && Blank(next) && Linked(kids + [next])
    ensures forall k :: 0 <= k < |kids| ==> kids[k].IsTree()
  {
    hide Node.IsTree, Apart, Distinct;
    ApartMeans(parent, kids);
    LastOutside(parent, kids);
    next := new Node(NullKind, "");
    if last != null {
      LastLinks(kids);
      last.next := next;
      next.prev := last;
    }
  }

  /** The new item has been filled in. */
  lemma ChainGrows(parent: Node, head: Node?, kids: seq<Node>, made: set<Node>, next: Node)
    requires made == UnionOf(kids) && Apart(parent, kids) && forall k :: 0 <= k < |kids| ==> kids[k].IsTree()
    requires Linked(kids + [next]) && next.IsTree() && next.Whole() !! made && parent !in next.Whole()
    requires head == if kids == [] then null else kids[0]
    ensures Chain(parent, if kids == [] then next else head, next, kids + [next], made + next.Whole())
  {
    hide Node.IsTree, Apart, Linked, UnionOf;
    forall k | 0 <= k < |kids| ensures kids[k].Whole() !! next.Whole() {
      InUnion(kids, k);
    }
    ApartGrows(parent, kids, next);
    UnionGrows(kids, next);
  }

  lemma LastLinks(kids: seq<Node>)
    requires Linked(kids) && Distinct(kids) && kids != []
    ensures forall j :: 0 <= j < |kids| - 1 ==> kids[j] != kids[|kids| - 1] && kids[j].next == kids[j + 1]
  {
  }

  /** The end of `parse_array` and `parse_object`: the chain is closed and becomes the item's children. */
  method Adopt(item: Node, kind: Kind, head: Node?, last: Node?, ghost kids: seq<Node>, ghost made: set<Node>, ghost tree: Json)
    requires Chain(item, head, last, kids, made) && Stands(kind, kids, tree)
    modifies Opt(head)`prev, item`kind, item`child, item`kids, item`below, item`tree
    ensures item.IsTree() && item.tree == tree && item.below == made
  {
    hide Node.IsTree, UnionOf, After, Before, Distinct, Stands, Linked;
    ApartMeans(item, kids);
    assert forall k :: 0 <= k < |kids| ==> item !in kids[k].below by { LastOutside(item, kids); }
    CloseList(item, head, last, kids);
    item.kind := kind;
    item.child := head;
    Finish(item, kids, tree);
  }

  lemma StandsForNone()
    ensures Stands(ArrayKind, [], Array([])) && Stands(ObjectKind, [], Object([]))
  {
  }

  lemma ItemsGrow(kids: seq<Node>, n: Node, items: seq<Json>)
    requires Stands(ArrayKind, kids, Array(items))
    ensures Stands(ArrayKind, kids + [n], Array(items + [n.tree]))
  {
  }

  lemma MembersGrow(kids: seq<Node>, n: Node, members: seq<Member>)
    requires Stands(ObjectKind, kids, Object(members))
    ensures Stands(ObjectKind, kids + [n], Object(members + [Member(n.name, n.tree)]))
  {
  }

  // ------------------------------------------------------- reading along the chain

  lemma KindAndTree(item: Node)
    requires item.IsTree()
    ensures match item.kind
            case ArrayKind => item.tree.Array?
            case ObjectKind => item.tree.Object?
            case _ => item.tree == Childless(item.kind)
  {
    TreeMeans(item);
    hide Node.IsTree;
  }

  lemma FirstKid(item: Node)
    requires item.IsTree() && (item.tree.Array? || item.tree.Object?)
    ensures item.child == if item.kids == [] then null else item.kids[0]
    ensures |item.kids| == if item.tree.Array? then |item.tree.items| else |item.tree.members|
  {
    TreeMeans(item);
    hide Node.IsTree;
  }

  lemma ArrayKid(item: Node, i: nat)
    requires item.IsTree() && item.tree.Array? && i < |item.kids|
    ensures i < |item.tree.items| && item.kids[i].tree == item.tree.items[i]
    ensures item.kids[i].IsTree() && item.kids[i].below < item.below && item.kids[i].Whole() <= item.below
    ensures item.kids[i].next == if i + 1 < |item.kids| then item.kids[i + 1] else null
  {
    TreeMeans(item);
    hide Node.IsTree;
    NextKid(item, i);
  }

  lemma ObjectKid(item: Node, i: nat)
    requires item.IsTree() && item.tree.Object? && i < |item.kids|
    ensures i < |item.tree.members| && Member(item.kids[i].name, item.kids[i].tree) == item.tree.members[i]
    ensures item.kids[i].IsTree() && item.kids[i].below < item.below && item.kids[i].Whole() <= item.below
    ensures item.kids[i].next == if i + 1 < |item.kids| then item.kids[i + 1] else null
  {
    TreeMeans(item);
    hide Node.IsTree;
    NextKid(item, i);
  }
}
