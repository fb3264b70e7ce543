/**
 The report of `bjobs -json`: an object with the command, the number of records and
 the records, built bottom up with the editing functions and then printed.
 */
module JsonReport {
  import opened JsonEdit
  import opened JsonNode
  import opened JsonParser
  import opened JsonPrinter
  import opened JsonRoundTrip
  import opened JsonText
  import Sequences

  /** `cJSON_CreateObject`, `cJSON_CreateArray`, `cJSON_CreateString` and `cJSON_CreateNumber`. */
  method Create(kind: Kind) returns (item: Node)
    ensures fresh(item) && item.IsTree() && item.next == null && item.below == {} && item.kids == []
    ensures item.kind == kind && item.tree == Childless(kind)
  {
    item := new Node(kind, "");
    LeafIsTree(item);
  }

  /** A tree of its own, which can be added to `root`. */
  ghost predicate Loose(item: Node, root: Node)
    reads item, item.below, root`below
  {
    item.IsTree() && item.next == null && item.Whole() !! root.Whole()
  }

  /** `cJSON_AddItemToArray` on a root. */
  method AddItemToArray(list: Node, item: Node?) returns (ok: bool)
    requires list.IsTree() && (list.kind.ArrayKind? || list.kind.ObjectKind?)
    requires item != null && item != list ==> Loose(item, list)
    modifies list`child, list`kids, list`below, list`tree, Kids(list)`next, Kids(list)`prev, Opt(item)`next, Opt(item)`prev
    ensures ok <==> item != null && item != list
    ensures list.IsTree() && list.below <= old(list.below) + (if ok then item.Whole() else {})
    ensures list.kids == if ok then old(list.kids) + [item] else old(list.kids)
    ensures list.tree == if ok then TreeEdited(old(list.tree), Add(item), Member(item.name, item.tree)) else old(list.tree)
  {
    hide Node.IsTree, Grove, TreeEdited;
    if item == null || item == list {
      return false;
    }
    ghost var all := list.Whole() + item.Whole();
    OneTree(list, item);
    EditTree(list, Add(item), {item}, all);
    GroveMeans(list, {item} - {item}, all);
    TreeMeans(list);
    return true;
  }

  lemma OneTree(root: Node, item: Node)
    requires root.IsTree() && Loose(item, root)
    ensures Grove(root, {item}, root.Whole() + item.Whole())
  {
    hide Node.IsTree;
    assert item in item.Whole() && root in root.Whole();
  }

  /** `cJSON_AddItemToObject` on a root: the item takes the key. */
  method AddItemToObject(parent: Node, key: string, item: Node?) returns (ok: bool)
    requires parent.IsTree() && (parent.kind.ArrayKind? || parent.kind.ObjectKind?)
    requires item != null && item != parent ==> Loose(item, parent)
    modifies parent`child, parent`kids, parent`below, parent`tree, Kids(parent)`next, Kids(parent)`prev
    modifies Opt(item)`next, Opt(item)`prev, Opt(item)`name
    ensures ok <==> item != null && item != parent
    ensures parent.IsTree() && parent.below <= old(parent.below) + (if ok then item.Whole() else {})
    ensures parent.kids == if ok then old(parent.kids) + [item] else old(parent.kids)
    ensures parent.tree == if ok then TreeEdited(old(parent.tree), Add(item), Member(key, item.tree)) else old(parent.tree)
  {
    hide Node.IsTree, TreeEdited;
    if item == null || item == parent {
      return false;
    }
    TreeMeans(item);
    Outside(parent, item);
    item.name := key;
    ok := AddItemToArray(parent, item);
  }

  lemma Outside(a: Node, b: Node)
    requires a.Whole() !! b.Whole()
    ensures b !in a.Whole() && a !in b.Whole()
  {
    assert a in a.Whole() && b in b.Whole();
  }

  /** A C cast to `int`, which wraps around. */
  function AsInt(n: nat): (r: int)
    ensures INT_MIN <= r <= INT_MAX && (n <= INT_MAX ==> r == n)
  {
    (n + INT_MAX + 1) % (2 * INT_MAX + 2) - INT_MAX - 1
  }

  /** `cJSON_GetArraySize`. */
  method GetArraySize(list: Node) returns (r: int)
    requires list.ListOk()
    ensures r == AsInt(|list.kids|)
  {
    hide Sequences.Distinct, AsInt;
    var size := 0;
    var child := list.child;
    while child != null
      invariant size <= |list.kids| && child == if size < |list.kids| then list.kids[size] else null
      decreases |list.kids| - size
    {
      child := child.next;
      size := size + 1;
    }
    return AsInt(size);
  }

  // ------------------------------------------------------------------ the report

  /** The fields of a record, in the order asked for: names and texts. */
  type Fields = seq<(string, string)>

  ghost function RecordMembers(fields: Fields): seq<Member> {
    if fields == [] then []
    else RecordMembers(fields[..|fields| - 1])
         + [Member(fields[|fields| - 1].0, String(fields[|fields| - 1].1))]
  }

  ghost function RecordItems(records: seq<Fields>): seq<Json> {
    if records == [] then []
    else RecordItems(records[..|records| - 1]) + [Object(RecordMembers(records[|records| - 1]))]
  }

  ghost function ReportTree(records: seq<Fields>): Json {
    Object([Member("COMMAND", String("bjobs")),
            Member("JOBS", Number(AsInt(|records|) as real)),
            Member("RECORDS", Array(RecordItems(records)))])
  }

  lemma KidsBelow(n: Node)
    requires n.IsTree()
    ensures Kids(n) <= n.below && n !in n.below
  {
    KidsInside(n);
    TreeMeans(n);
    hide Node.IsTree;
    assert forall k :: k in Kids(n) ==> k in k.Whole();
  }

  /** `cJSON_AddItemToObject` on an object that is a root. */
  method AddMember(parent: Node, key: string, item: Node)
    requires parent.IsTree() && parent.tree.Object? && parent.kind.ObjectKind? && item != parent && Loose(item, parent)
    modifies parent`child, parent`kids, parent`below, parent`tree, Kids(parent)`next, Kids(parent)`prev
    modifies item`next, item`prev, item`name
    ensures parent.IsTree() && parent.below <= old(parent.below) + item.Whole()
    ensures parent.tree == Object(old(parent.tree.members) + [Member(key, item.tree)])
  {
    hide Node.IsTree;
    var ok := AddItemToObject(parent, key, item);
  }

  /** `cJSON_AddStringToObject` and `cJSON_AddNumberToObject`. */
  method AddNew(parent: Node, key: string, kind: Kind) returns (item: Node)
    requires parent.IsTree() && parent.tree.Object? && parent.kind.ObjectKind?
    modifies parent`child, parent`kids, parent`below, parent`tree, Kids(parent)`next, Kids(parent)`prev
    ensures fresh(item) && parent.IsTree() && parent.below <= old(parent.below) + {item}
    ensures parent.tree == Object(old(parent.tree.members) + [Member(key, Childless(kind))])
  {
    hide Node.IsTree;
    item := Create(kind);
    AddMember(parent, key, item);
  }

  /** The record of one job, as `displayJson` builds it. */
  method CreateRecord(fields: Fields) returns (record: Node)
    ensures fresh(record) && fresh(record.below) && record.IsTree() && record.next == null
    ensures record.tree == Object(RecordMembers(fields))
  {
    hide Node.IsTree;
    record := Create(ObjectKind);
    for i := 0 to |fields|
      invariant fresh(record.below) && record.IsTree() && record.next == null && record.kind.ObjectKind?
      invariant record.tree == Object(RecordMembers(fields[..i]))
    {
      assert fields[..i + 1][..i] == fields[..i];
      KidsBelow(record);
      var item := AddNew(record, fields[i].0, StringKind(fields[i].1));
    }
    assert fields[..|fields|] == fields;
  }

  /** The tree that `bjobs` builds: command, number of records, records. */
  method CreateReport(records: seq<Fields>) returns (report: Node)
    ensures fresh(report) && fresh(report.below) && report.IsTree() && report.tree == ReportTree(records)
  {
    hide Node.IsTree, AsInt, RecordItems, RecordMembers, Kids;
    report := Create(ObjectKind);
    var list := CreateRecords(records);
    KidsBelow(report);
    var command := AddNew(report, "COMMAND", StringKind("bjobs"));
    var jobs := Count(list, records);
    KidsBelow(report);
    var number := AddNew(report, "JOBS", NumberKind(jobs as real));
    KidsBelow(report);
    AddMember(report, "RECORDS", list);
  }

  method Count(list: Node, ghost records: seq<Fields>) returns (jobs: int)
    requires list.IsTree() && list.kind.ArrayKind? && list.tree == Array(RecordItems(records))
    ensures jobs == AsInt(|records|)
  {
    TreeMeans(list);
    hide Node.IsTree, AsInt, RecordItems;
    RecordItemsAt(records);
    jobs := GetArraySize(list);
  }

  method CreateRecords(records: seq<Fields>) returns (list: Node)
    ensures fresh(list) && fresh(list.below) && list.IsTree() && list.next == null
    ensures list.tree == Array(RecordItems(records)) && list.kind.ArrayKind?
  {
    hide Node.IsTree, RecordMembers;
    list := Create(ArrayKind);
    for i := 0 to |records|
      invariant fresh(list.below) && list.IsTree() && list.next == null && list.kind.ArrayKind?
      invariant list.tree == Array(RecordItems(records[..i]))
    {
      assert records[..i + 1][..i] == records[..i];
      KidsBelow(list);
      var record := CreateRecord(records[i]);
      var ok := AddItemToArray(list, record);
    }
    assert records[..|records|] == records;
  }

  lemma {:induction false} RecordItemsAt(records: seq<Fields>)
    ensures |RecordItems(records)| == |records|
    ensures forall i :: 0 <= i < |records| ==> RecordItems(records)[i] == Object(RecordMembers(records[i]))
    decreases |records|
  {
    if records != [] {
      RecordItemsAt(records[..|records| - 1]);
    }
  }

  lemma {:induction false} RecordMembersAt(fields: Fields)
    ensures |RecordMembers(fields)| == |fields|
    ensures forall i :: 0 <= i < |fields| ==> RecordMembers(fields)[i] == Member(fields[i].0, String(fields[i].1))
    decreases |fields|
  {
    if fields != [] {
      RecordMembersAt(fields[..|fields| - 1]);
    }
  }

  // ------------------------------------------------------------ the printed report

  ghost predicate CFields(fields: Fields) {
    forall j :: 0 <= j < |fields| ==> NulFree(fields[j].0) && NulFree(fields[j].1)
  }

  lemma {:induction false} ItemsNestingAtMost(items: seq<Json>, k: nat)
    requires forall i :: 0 <= i < |items| ==> Nesting(items[i]) <= k
    ensures ItemsNesting(items) <= k
    decreases |items|
  {
    hide Nesting;
    if items != [] {
      ItemsNestingAtMost(items[1..], k);
    }
  }

  lemma {:induction false} MembersNestingAtMost(ms: seq<Member>, k: nat)
    requires forall i :: 0 <= i < |ms| ==> Nesting(ms[i].value) <= k
    ensures MembersNesting(ms) <= k
    decreases |ms|
  {
    hide Nesting;
    if ms != [] {
      MembersNestingAtMost(ms[1..], k);
    }
  }

  lemma RecordPrintable(fields: Fields)
    requires CFields(fields)
    ensures Printable(Object(RecordMembers(fields))) && Nesting(Object(RecordMembers(fields))) <= 1
  {
    RecordMembersAt(fields);
    hide RecordMembers, NulFree;
    MembersNestingAtMost(RecordMembers(fields), 0);
  }

  lemma RecordsPrintable(records: seq<Fields>)
    requires forall i :: 0 <= i < |records| ==> CFields(records[i])
    ensures Printable(Array(RecordItems(records))) && Nesting(Array(RecordItems(records))) <= 2
  {
    RecordItemsAt(records);
    hide RecordItems, RecordMembers, CFields;
    forall i | 0 <= i < |records|
      ensures Printable(RecordItems(records)[i]) && Nesting(RecordItems(records)[i]) <= 1
    {
      RecordPrintable(records[i]);
    }
    ItemsNestingAtMost(RecordItems(records), 1);
  }

  lemma ReportPrintable(records: seq<Fields>)
    requires forall i :: 0 <= i < |records| ==> CFields(records[i])
    ensures Printable(ReportTree(records)) && Nesting(ReportTree(records)) <= 3
  {
    RecordsPrintable(records);
    hide RecordItems, AsInt, CFields;
    var r := AsInt(|records|) as real;
    assert r.Floor == AsInt(|records|);
    assert NulFree("COMMAND") && NulFree("bjobs") && NulFree("JOBS") && NulFree("RECORDS");
    MembersNestingAtMost(ReportTree(records).members, 2);
  }

  /**
   What `bjobs -json` writes, for all jobs: the text of the report, which any parser
   that admits three levels reads back as the report.
   */
  method PrintReport(records: seq<Fields>) returns (ok: bool, printed: array<char>)
    requires forall i :: 0 <= i < |records| ==> CFields(records[i])
    ensures ok <==> |Text(ReportTree(records), true, 0)| + 2 <= INT_MAX
    ensures ok ==> printed[..] == Text(ReportTree(records), true, 0) + [NUL]
    ensures forall limit :: limit >= 3 ==>
              ParseDocument(Text(ReportTree(records), true, 0), true, limit)
              == Ok(ReportTree(records), |Text(ReportTree(records), true, 0)|)
  {
    hide Node.IsTree, ReportTree, Text, Printable, Nesting, CFields, ParseDocument;
    ReportPrintable(records);
    var report := CreateReport(records);
    ok, printed := Print(report, true);
    forall limit: nat | limit >= 3
      ensures ParseDocument(Text(ReportTree(records), true, 0), true, limit)
              == Ok(ReportTree(records), |Text(ReportTree(records), true, 0)|)
    {
      RoundTrip(ReportTree(records), true, true, limit);
    }
  }
}
