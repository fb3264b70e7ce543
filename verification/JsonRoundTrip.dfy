/**
 Parsing undoes printing.  The printed text, formatted or not, is a text of the grammar
 that stands for the tree, so the parser accepts it exactly when its nesting is within
 the limit, and then it yields the same tree and stops behind the last character.
 */
module JsonRoundTrip {
  import opened JsonText
  import opened JsonNumber
  import opened JsonString
  import opened JsonParser
  import opened JsonGrammar
  import opened JsonReads
  import JsonNumerals
  import Utf8

  // ---------------------------------------------------------------- scalars

  function PieceOf(c: char): Piece {
    if !NeedsEscape(c) then Plain(c)
    else if ShortEscape(c) != NUL then Short(ShortEscape(c), c)
    else Code(c as int, EscapeChar(c), [c])
  }

  function PiecesOf(s: string): seq<Piece> {
    if s == "" then [] else [PieceOf(s[0])] + PiecesOf(s[1..])
  }

  lemma PieceOfIs(c: char)
    requires c != NUL
    ensures IsPiece(PieceOf(c)) && PieceText(PieceOf(c)) == EscapeChar(c) && PieceBytes(PieceOf(c)) == [c]
  {
    if PieceOf(c).Code? {
      ControlEscape(c);
    }
  }

  lemma ControlEscape(c: char)
    requires c < ' ' && ShortEscape(c) == NUL
    ensures Utf8.SpellsUnit(EscapeChar(c), 0, c as int) && |EscapeChar(c)| == 6
  {
    var n := c as int;
    assert n / 4096 == 0 && n / 256 % 16 == 0 && n / 16 % 16 == n / 16;
    Utf8.DigitReads(DigitChar(n / 16), n / 16);
    Utf8.DigitReads(DigitChar(n % 16), n % 16);
  }

  lemma {:induction false} PiecesOfAre(s: string)
    requires NulFree(s)
    ensures ArePieces(PiecesOf(s)) && Inner(PiecesOf(s)) == Escape(s) && Meaning(PiecesOf(s)) == s
    decreases |s|
  {
    hide IsPiece, PieceOf, PieceText, PieceBytes, EscapeChar;
    if s != "" {
      PieceOfIs(s[0]);
      PiecesOfAre(s[1..]);
      var xs := PiecesOf(s);
      assert xs[1..] == PiecesOf(s[1..]);
      assert [s[0]] + s[1..] == s;
    }
  }

  lemma LiteralOf(s: string)
    requires NulFree(s)
    ensures ArePieces(PiecesOf(s)) && Literal(PiecesOf(s)) == Quoted(s) && IsCString(s, Meaning(PiecesOf(s)))
  {
    PiecesOfAre(s);
  }

  /** Escaping is undone by the two passes, for every C string and any text around it. */
  lemma EscapeInverse(str: string, s: string, p: nat, end: nat)
    requires NulFree(str)
    requires end == p + |Escape(str)| < |s| && Holds(s, p, Escape(str)) && s[end] == '\"'
    ensures Scan(s, p).Closed? && Scan(s, p).end == end
    ensures Decode(s, p, end) == Bytes(str)
  {
    hide Scan, Decode;
    PiecesOfAre(str);
    InnerReads(PiecesOf(str), s, p, end);
  }

  function NumeralOf(n: int): Numeral {
    Numeral(n < 0, NatText(if n < 0 then -n else n), "", NoExponent)
  }

  lemma NumeralOfIs(r: real)
    requires IsInt(r)
    ensures var n := NumeralOf(r.Floor);
            IsNumeral(n) && NumeralText(n) == NumberText(r) && NumeralValue(n) == r && |NumeralText(n)| <= 63
  {
    hide NatText, Weighted, Shifted;
    var n, m := NumeralOf(r.Floor), if r.Floor < 0 then -r.Floor else r.Floor;
    NatTextReads(m);
    assert n.whole + n.fraction == n.whole;
    JsonNumerals.WeightedIs(n.whole);
    assert Shifted(m as real, 0) == m as real by { NotShifted(m as real); }
    assert PowerOfTen(10) == 10000000000;
    NatTextLength(m, 10);
  }

  /** A printed integer, followed by a character that cannot continue it, is read back. */
  lemma IntegerReads(r: real, s: string, p: nat)
    requires IsInt(r) && Holds(s, p, NumberText(r)) && Delimited(s, p + |NumberText(r)|)
    ensures ParseNumber(s, p) == Ok(r, p + |NumberText(r)|)
  {
    hide ParseNumber, NumberText, NumeralText, NumeralValue;
    NumeralOfIs(r);
    NumberReads(NumeralOf(r.Floor), s, p);
  }

  lemma NotShifted(r: real)
    ensures Shifted(r, 0) == r
  {
    assert TenTo(0) == 1;
  }

  // ------------------------------------------------- the text as a document

  /** Document `d` has the text `t`, stands for `j`, and is readable if the nesting of `j` allows. */
  ghost predicate Derives(d: Doc, j: Json, t: string) {
    && IsDoc(d) && Written(d) == t && Denotes(d, j)
    && forall limit: nat :: Readable(d, limit) <==> Nesting(j) <= limit
  }

  ghost predicate ItemsDerive(xs: seq<Item>, js: seq<Json>) {
    && AreItems(xs) && ItemsDenote(xs, js)
    && forall limit: nat :: ItemsReadable(xs, limit) <==> ItemsNesting(js) <= limit
  }

  ghost predicate FieldsDerive(xs: seq<Field>, ms: seq<Member>) {
    && AreFields(xs) && FieldsDenote(xs, ms)
    && forall limit: nat :: FieldsReadable(xs, limit) <==> MembersNesting(ms) <= limit
  }

  /** The printed text is a text of the grammar that stands for the tree. */
  lemma {:induction false} Printed(j: Json, fmt: bool, d: nat) returns (doc: Doc)
    requires Printable(j)
    ensures Derives(doc, j, Text(j, fmt, d))
    decreases j, 0
  {
    hide Derives, Text, Printable;
    match j
    case Array(items) => doc := ArrayPrinted(items, fmt, d);
    case Object(ms) => doc := ObjectPrinted(ms, fmt, d);
    case _ => doc := ScalarPrinted(j, fmt, d);
  }

  lemma ScalarPrinted(j: Json, fmt: bool, d: nat) returns (doc: Doc)
    requires Printable(j) && !j.Array? && !j.Object?
    ensures Derives(doc, j, Text(j, fmt, d))
  {
    hide Derives, Quoted, Literal, NumberText, NumeralText, ArePieces, Meaning, IsNumeral, NumeralValue;
    match j {
      case Null => doc := DNull;
      case Bool(b) => doc := DBool(b);
      case Number(r) =>
        NumeralOfIs(r);
        doc := DNumber(NumeralOf(r.Floor));
      case String(s) =>
        LiteralOf(s);
        doc := DString(PiecesOf(s));
    }
    ScalarDerives(j, doc, fmt, d);
  }

  lemma ScalarDerives(j: Json, doc: Doc, fmt: bool, d: nat)
    requires !j.Array? && !j.Object? && !doc.DArray? && !doc.DObject?
    requires IsDoc(doc) && Denotes(doc, j) && Written(doc) == Text(j, fmt, d) && (doc.DNumber? ==> |NumeralText(doc.n)| <= 63)
    ensures Derives(doc, j, Text(j, fmt, d))
  {
    hide Denotes, Written, Text, NumeralText;
  }

  // ----------------------------------------------------------------- arrays

  lemma ItemsCons(x: Item, j: Json, xs: seq<Item>, js: seq<Json>)
    requires SpacedItem(x) && Derives(x.doc, j, Written(x.doc)) && ItemsDerive(xs, js)
    ensures ItemsDerive([x] + xs, [j] + js)
  {
    hide IsDoc, Written, Denotes, Readable, Nesting, ItemsNesting, SpacedItem;
    var ys, ks := [x] + xs, [j] + js;
    assert ys[1..] == xs && ks[1..] == js;
    assert AreItems(ys);
    forall limit: nat
      ensures ItemsReadable(ys, limit) <==> ItemsNesting(ks) <= limit
    {
      assert ItemsNesting(ks) == Max(Nesting(j), ItemsNesting(js)) by { ItemsNestingIs(ks); }
      assert ItemsReadable(ys, limit) <==> Readable(x.doc, limit) && ItemsReadable(xs, limit) by {
        ReadableCons(ys, limit);
      }
    }
    forall i | 0 <= i < |ys|
      ensures Denotes(ys[i].doc, ks[i])
    {
      if i > 0 { assert ys[i] == xs[i - 1] && ks[i] == js[i - 1]; }
    }
  }

  lemma ReadableCons(ys: seq<Item>, limit: nat)
    requires ys != []
    ensures ItemsReadable(ys, limit) <==> Readable(ys[0].doc, limit) && ItemsReadable(ys[1..], limit)
  {
    hide Readable;
    assert ys == [ys[0]] + ys[1..];
    if ItemsReadable(ys, limit) {
      assert forall i :: 0 <= i < |ys| - 1 ==> ys[1..][i] == ys[i + 1];
    }
  }

  lemma ItemsNestingIs(items: seq<Json>)
    requires items != []
    ensures ItemsNesting(items) == Max(Nesting(items[0]), ItemsNesting(items[1..]))
    ensures |items| == 1 ==> ItemsNesting(items) == Nesting(items[0])
  {
    hide Nesting;
  }

  lemma NoItems()
    ensures ItemsDerive([], []) && FieldsDerive([], [])
  {
    EmptyText(false, 0);
  }

  /** The elements behind the first one. */
  lemma {:induction false} MorePrinted(items: seq<Json>, fmt: bool, d: nat) returns (xs: seq<Item>)
    requires forall i :: 0 <= i < |items| ==> Printable(items[i])
    ensures ItemsDerive(xs, items) && MoreItems(xs) == (if items == [] then "" else ItemSeparator(fmt)) + ItemsText(items, fmt, d) + "]"
    decreases items, 1
  {
    hide Derives, ItemsDerive, Printable, Text;
    if items == [] {
      xs := [];
      NoItems();
    } else {
      var doc := Printed(items[0], fmt, d);
      var rest := MorePrinted(items[1..], fmt, d);
      var x := Item(if fmt then " " else "", doc, "");
      xs := [x] + rest;
      assert Written(doc) == Text(items[0], fmt, d) by { DerivesText(doc, items[0], Text(items[0], fmt, d)); }
      ItemsCons(x, items[0], rest, items[1..]);
      assert [items[0]] + items[1..] == items;
      MoreText(x, rest, items, fmt, d);
    }
  }

  lemma DerivesText(doc: Doc, j: Json, t: string)
    requires Derives(doc, j, t)
    ensures Written(doc) == t && Derives(doc, j, Written(doc))
  {
  }

  lemma MoreText(x: Item, rest: seq<Item>, items: seq<Json>, fmt: bool, d: nat)
    requires items != [] && x.before == (if fmt then " " else "") && x.after == "" && Written(x.doc) == Text(items[0], fmt, d)
    requires MoreItems(rest) == (if |items| == 1 then "" else ItemSeparator(fmt)) + ItemsText(items[1..], fmt, d) + "]"
    ensures MoreItems([x] + rest) == ItemSeparator(fmt) + ItemsText(items, fmt, d) + "]"
  {
    hide Text, Written, MoreItems, ItemText, ItemsText;
    assert ([x] + rest)[1..] == rest && ([x] + rest)[0] == x;
    MoreStarts([x] + rest);
    ItemTextIs(x, MoreItems(rest));
    ItemsSplit(items, fmt, d);
    Separated(fmt, Text(items[0], fmt, d), MoreItems(rest));
    assert ItemSeparator(fmt) + (ItemsText(items, fmt, d) + "]") == ItemSeparator(fmt) + ItemsText(items, fmt, d) + "]";
  }

  lemma Separated(fmt: bool, t: string, more: string)
    ensures "," + ((if fmt then " " else "") + (t + ("" + more))) == ItemSeparator(fmt) + (t + more)
  {
    assert "" + more == more;
    assert ", " == "," + " ";
  }

  lemma ItemsSplit(items: seq<Json>, fmt: bool, d: nat)
    requires items != []
    ensures ItemsText(items, fmt, d) + "]"
         == Text(items[0], fmt, d) + ((if |items| == 1 then "" else ItemSeparator(fmt)) + ItemsText(items[1..], fmt, d) + "]")
  {
    hide Text;
    EmptyText(fmt, d);
  }

  lemma {:induction false} ArrayPrinted(items: seq<Json>, fmt: bool, d: nat) returns (doc: Doc)
    requires Printable(Array(items))
    ensures Derives(doc, Array(items), Text(Array(items), fmt, d))
    decreases items, 2
  {
    hide Derives, ItemsDerive, Printable, ItemsText, Text, ItemText, MoreItems;
    PrintableItems(items);
    var xs := [];
    if items == [] {
      NoItems();
      EmptyText(fmt, d + 1);
    } else {
      var first := Printed(items[0], fmt, d + 1);
      var rest := MorePrinted(items[1..], fmt, d + 1);
      DerivesText(first, items[0], Text(items[0], fmt, d + 1));
      xs := FirstPrinted(first, rest, items, fmt, d + 1);
    }
    ArrayDerives(xs, items, fmt, d);
    doc := DArray("", xs);
  }

  lemma FirstPrinted(first: Doc, rest: seq<Item>, items: seq<Json>, fmt: bool, d: nat) returns (xs: seq<Item>)
    requires items != [] && Derives(first, items[0], Text(items[0], fmt, d)) && ItemsDerive(rest, items[1..])
    requires MoreItems(rest) == (if |items| == 1 then "" else ItemSeparator(fmt)) + ItemsText(items[1..], fmt, d) + "]"
    ensures xs != [] && ItemsDerive(xs, items) && ItemText(xs[0]) + MoreItems(xs[1..]) == ItemsText(items, fmt, d) + "]"
  {
    hide Derives, ItemsDerive, Text, ItemsText, ItemText, MoreItems, ItemSeparator;
    var x := Item("", first, "");
    xs := [x] + rest;
    DerivesText(first, items[0], Text(items[0], fmt, d));
    ItemsCons(x, items[0], rest, items[1..]);
    assert [items[0]] + items[1..] == items && xs[1..] == rest;
    ItemsSplit(items, fmt, d);
    ItemTextIs(x, MoreItems(rest));
    assert x.before + (Written(first) + (x.after + MoreItems(rest))) == Written(first) + MoreItems(rest);
  }

  lemma PrintableItems(items: seq<Json>)
    requires Printable(Array(items))
    ensures forall i :: 0 <= i < |items| ==> Printable(items[i])
  {
  }

  lemma ArrayDerives(xs: seq<Item>, items: seq<Json>, fmt: bool, d: nat)
    requires ItemsDerive(xs, items)
    requires (if xs == [] then "]" else ItemText(xs[0]) + MoreItems(xs[1..])) == ItemsText(items, fmt, d + 1) + "]"
    ensures Derives(DArray("", xs), Array(items), Text(Array(items), fmt, d))
  {
    hide ItemText, MoreItems, ItemsText, ItemsNesting;
    var doc := DArray("", xs);
    assert Written(doc) == "[" + "" + (ItemsText(items, fmt, d + 1) + "]");
    forall limit: nat
      ensures Readable(doc, limit) <==> Nesting(Array(items)) <= limit
    {
      if limit > 0 {
        assert Readable(doc, limit) <==> ItemsReadable(xs, limit - 1);
      }
    }
  }

  // ---------------------------------------------------------------- objects

  /** What closes an object whose members are printed at depth `d`. */
  function Closing(fmt: bool, d: nat): string
    requires d >= 1
  {
    if fmt then Tabs(d - 1) + "}" else "}"
  }

  function Indent(fmt: bool, d: nat): string {
    if fmt then Tabs(d) else ""
  }

  /** The blanks in front of the closing brace. */
  function Outdent(fmt: bool, d: nat): string
    requires d >= 1
  {
    if fmt then "\n" + Tabs(d - 1) else ""
  }

  function LineEnd(fmt: bool): string {
    if fmt then "\n" else ""
  }

  lemma FieldsCons(x: Field, m: Member, xs: seq<Field>, ms: seq<Member>)
    requires SpacedField(x) && Derives(x.doc, m.value, Written(x.doc)) && IsCString(m.key, Meaning(x.key)) && FieldsDerive(xs, ms)
    ensures FieldsDerive([x] + xs, [m] + ms)
  {
    hide IsDoc, Written, Denotes, Readable, Nesting, MembersNesting, SpacedField, Meaning, IsCString;
    var ys, ks := [x] + xs, [m] + ms;
    assert ys[1..] == xs && ks[1..] == ms;
    assert AreFields(ys);
    forall limit: nat
      ensures FieldsReadable(ys, limit) <==> MembersNesting(ks) <= limit
    {
      assert MembersNesting(ks) == Max(Nesting(m.value), MembersNesting(ms)) by { MembersNestingIs(ks); }
      assert FieldsReadable(ys, limit) <==> Readable(x.doc, limit) && FieldsReadable(xs, limit) by {
        FieldReadableCons(ys, limit);
      }
    }
    forall i | 0 <= i < |ys|
      ensures FieldDenotes(ys[i], ks[i])
    {
      if i > 0 { assert ys[i] == xs[i - 1] && ks[i] == ms[i - 1]; }
    }
  }

  lemma FieldReadableCons(ys: seq<Field>, limit: nat)
    requires ys != []
    ensures FieldsReadable(ys, limit) <==> Readable(ys[0].doc, limit) && FieldsReadable(ys[1..], limit)
  {
    hide Readable;
    assert ys == [ys[0]] + ys[1..];
    if FieldsReadable(ys, limit) {
      assert forall i :: 0 <= i < |ys| - 1 ==> ys[1..][i] == ys[i + 1];
    }
  }

  lemma MembersNestingIs(ms: seq<Member>)
    requires ms != []
    ensures MembersNesting(ms) == Max(Nesting(ms[0].value), MembersNesting(ms[1..]))
    ensures |ms| == 1 ==> MembersNesting(ms) == Nesting(ms[0].value)
  {
    hide Nesting;
  }

  /** The first member as a field; `before` and `after` are blanks around it. */
  function FieldOf(m: Member, doc: Doc, fmt: bool, d: nat, before: string, after: string): Field {
    Field(before + Indent(fmt, d), PiecesOf(m.key), "", if fmt then "\t" else "", doc, after)
  }

  /** All members, with `before` in front of the first one. */
  lemma {:induction false} MembersPrinted(ms: seq<Member>, fmt: bool, d: nat, before: string) returns (xs: seq<Field>)
    requires ms != [] && d >= 1 && AreBlanks(before)
    requires forall i :: 0 <= i < |ms| ==> NulFree(ms[i].key) && Printable(ms[i].value)
    ensures xs != [] && FieldsDerive(xs, ms)
    ensures FieldText(xs[0]) + MoreFields(xs[1..]) == before + MembersText(ms, fmt, d) + Closing(fmt, d)
    decreases ms, 1
  {
    hide Derives, FieldsDerive, Printable, Text, MembersText, FieldText, MoreFields, Closing, Outdent, NulFree, AreBlanks;
    var m := ms[0];
    var doc := Printed(m.value, fmt, d);
    DerivesText(doc, m.value, Text(m.value, fmt, d));
    var rest := [];
    if |ms| == 1 {
      NoItems();
    } else {
      assert AreBlanks(LineEnd(fmt)) by { LayoutBlanks(fmt, d); }
      rest := MembersPrinted(ms[1..], fmt, d, LineEnd(fmt));
    }
    var x := FieldOf(m, doc, fmt, d, before, if |ms| == 1 then Outdent(fmt, d) else "");
    FieldOfIs(m, doc, fmt, d, before, x.after);
    xs := [x] + rest;
    FieldsCons(x, m, rest, ms[1..]);
    assert [m] + ms[1..] == ms && xs[1..] == rest;
    MembersAre(x, rest, ms, fmt, d, before);
  }

  lemma LayoutBlanks(fmt: bool, d: nat)
    requires d >= 1
    ensures AreBlanks(LineEnd(fmt)) && AreBlanks(Indent(fmt, d)) && AreBlanks(Outdent(fmt, d)) && AreBlanks("")
  {
  }

  lemma FieldOfIs(m: Member, doc: Doc, fmt: bool, d: nat, before: string, after: string)
    requires d >= 1 && AreBlanks(before) && after in {"", Outdent(fmt, d)} && NulFree(m.key)
    ensures var x := FieldOf(m, doc, fmt, d, before, after);
            SpacedField(x) && IsCString(m.key, Meaning(x.key)) && Literal(x.key) == Quoted(m.key)
  {
    hide ArePieces, Meaning, Literal, Quoted, IsCString, NulFree;
    LayoutBlanks(fmt, d);
    LiteralOf(m.key);
  }

  /** The text of the members, piece by piece. */
  lemma MembersAre(x: Field, rest: seq<Field>, ms: seq<Member>, fmt: bool, d: nat, before: string)
    requires ms != [] && d >= 1 && x == FieldOf(ms[0], x.doc, fmt, d, before, if |ms| == 1 then Outdent(fmt, d) else "")
    requires Written(x.doc) == Text(ms[0].value, fmt, d) && Literal(x.key) == Quoted(ms[0].key)
    requires |ms| == 1 <==> rest == []
    requires rest != [] ==>
               FieldText(rest[0]) + MoreFields(rest[1..]) == LineEnd(fmt) + MembersText(ms[1..], fmt, d) + Closing(fmt, d)
    ensures FieldText(x) + MoreFields(rest) == before + MembersText(ms, fmt, d) + Closing(fmt, d)
  {
    hide Text, Written, Literal, Quoted, FieldText, MoreFields, MembersText, Tabs;
    MoreFieldsStart(rest);
    FieldTextIs(x, MoreFields(rest));
    var k, v := Quoted(ms[0].key), Text(ms[0].value, fmt, d);
    assert x.after + MoreFields(rest) == MemberEnd(|ms| == 1, fmt) + (MembersText(ms[1..], fmt, d) + Closing(fmt, d)) by {
      MemberEndIs(rest, ms, fmt, d);
    }
    MembersSplit(ms, fmt, d);
    var colon := if fmt then "\t" else "";
    Pieces(before, Indent(fmt, d), k, colon, v, MemberEnd(|ms| == 1, fmt) + (MembersText(ms[1..], fmt, d) + Closing(fmt, d)));
    assert before + (MembersText(ms, fmt, d) + Closing(fmt, d)) == before + MembersText(ms, fmt, d) + Closing(fmt, d);
  }

  lemma Pieces(before: string, indent: string, k: string, colon: string, v: string, more: string)
    ensures (before + indent) + (k + ("" + (":" + (colon + (v + more))))) == before + (indent + (k + ((":" + colon) + (v + more))))
  {
    assert "" + (":" + (colon + (v + more))) == (":" + colon) + (v + more);
  }

  lemma MemberEndIs(rest: seq<Field>, ms: seq<Member>, fmt: bool, d: nat)
    requires ms != [] && d >= 1
    requires |ms| == 1 <==> rest == []
    requires rest != [] ==>
               FieldText(rest[0]) + MoreFields(rest[1..]) == LineEnd(fmt) + MembersText(ms[1..], fmt, d) + Closing(fmt, d)
    ensures (if |ms| == 1 then Outdent(fmt, d) else "") + MoreFields(rest)
         == MemberEnd(|ms| == 1, fmt) + (MembersText(ms[1..], fmt, d) + Closing(fmt, d))
  {
    hide FieldText, MoreFields, MembersText, Closing, Outdent, MemberEnd;
    MoreFieldsStart(rest);
    Ends(fmt, d);
    if |ms| == 1 {
      assert ms[1..] == [];
      EmptyText(fmt, d);
      assert LineEnd(fmt) + ("" + Closing(fmt, d)) == LineEnd(fmt) + Closing(fmt, d);
    } else {
      var text, z := MembersText(ms[1..], fmt, d), Closing(fmt, d);
      assert "" + ("," + (LineEnd(fmt) + text + z)) == ("," + LineEnd(fmt)) + (text + z);
    }
  }

  lemma Ends(fmt: bool, d: nat)
    requires d >= 1
    ensures MemberEnd(true, fmt) == LineEnd(fmt) && MemberEnd(false, fmt) == "," + LineEnd(fmt)
    ensures Outdent(fmt, d) + "}" == LineEnd(fmt) + Closing(fmt, d)
  {
    hide Tabs;
  }

  lemma MembersSplit(ms: seq<Member>, fmt: bool, d: nat)
    requires ms != [] && d >= 1
    ensures MembersText(ms, fmt, d) + Closing(fmt, d)
         == Indent(fmt, d) + (Quoted(ms[0].key) + ((":" + if fmt then "\t" else "") + (Text(ms[0].value, fmt, d)
            + (MemberEnd(|ms| == 1, fmt) + (MembersText(ms[1..], fmt, d) + Closing(fmt, d))))))
  {
    hide Text, Quoted, Closing, MemberEnd, Tabs;
    var i, k, c := Indent(fmt, d), Quoted(ms[0].key), ":" + if fmt then "\t" else "";
    var v, e := Text(ms[0].value, fmt, d), MemberEnd(|ms| == 1, fmt);
    var rest, z := MembersText(ms[1..], fmt, d), Closing(fmt, d);
    assert KeyText(ms[0].key, fmt, d) == i + k + c;
    assert MembersText(ms, fmt, d) == i + k + c + v + e + rest;
    Reassociate(i, k, c, v, e, rest, z);
  }

  lemma Reassociate(i: string, k: string, c: string, v: string, e: string, rest: string, z: string)
    ensures (i + k + c + v + e + rest) + z == i + (k + (c + (v + (e + (rest + z)))))
  {
    assert (i + k + c + v + e + rest) + z == (i + k + c + v) + (e + (rest + z));
    assert (i + k + c + v) + (e + (rest + z)) == i + (k + (c + (v + (e + (rest + z)))));
  }

  lemma {:induction false} ObjectPrinted(ms: seq<Member>, fmt: bool, d: nat) returns (doc: Doc)
    requires Printable(Object(ms))
    ensures Derives(doc, Object(ms), Text(Object(ms), fmt, d))
    decreases ms, 2
  {
    hide Derives, FieldsDerive, Printable, MembersText, Text, FieldText, MoreFields, NulFree, Closing;
    PrintableMembers(ms);
    var xs := [];
    if ms == [] {
      NoItems();
      EmptyText(fmt, d + 1);
    } else {
      xs := MembersPrinted(ms, fmt, d + 1, "");
      assert "" + MembersText(ms, fmt, d + 1) == MembersText(ms, fmt, d + 1);
    }
    doc := ObjectDerives(xs, ms, fmt, d);
  }

  lemma PrintableMembers(ms: seq<Member>)
    requires Printable(Object(ms))
    ensures forall i :: 0 <= i < |ms| ==> NulFree(ms[i].key) && Printable(ms[i].value)
  {
  }

  lemma ObjectDerives(xs: seq<Field>, ms: seq<Member>, fmt: bool, d: nat) returns (doc: Doc)
    requires FieldsDerive(xs, ms)
    requires xs != [] ==> FieldText(xs[0]) + MoreFields(xs[1..]) == MembersText(ms, fmt, d + 1) + Closing(fmt, d + 1)
    ensures Derives(doc, Object(ms), Text(Object(ms), fmt, d))
  {
    hide FieldText, MoreFields, MembersNesting, SpacedField, FieldDenotes;
    doc := DObject(if xs == [] then Outdent(fmt, d + 1) else LineEnd(fmt), xs);
    LayoutBlanks(fmt, d + 1);
    ObjectText(xs, ms, fmt, d);
    forall limit: nat
      ensures Readable(doc, limit) <==> Nesting(Object(ms)) <= limit
    {
      if limit > 0 {
        assert Readable(doc, limit) <==> FieldsReadable(xs, limit - 1);
      }
    }
  }

  lemma ObjectText(xs: seq<Field>, ms: seq<Member>, fmt: bool, d: nat)
    requires |xs| == |ms|
    requires xs != [] ==> FieldText(xs[0]) + MoreFields(xs[1..]) == MembersText(ms, fmt, d + 1) + Closing(fmt, d + 1)
    ensures Written(DObject(if xs == [] then Outdent(fmt, d + 1) else LineEnd(fmt), xs)) == Text(Object(ms), fmt, d)
  {
    hide FieldText, MoreFields, MembersText, Closing, Outdent;
    EmptyText(fmt, d + 1);
    Ends(fmt, d + 1);
    TextOfObject(ms, fmt, d);
    if ms == [] {
      assert "" + Closing(fmt, d + 1) == Closing(fmt, d + 1);
      assert "{" + Outdent(fmt, d + 1) + "}" == "{" + (Outdent(fmt, d + 1) + "}");
      assert "{" + LineEnd(fmt) + Closing(fmt, d + 1) == "{" + (LineEnd(fmt) + Closing(fmt, d + 1));
    }
  }

  lemma TextOfObject(ms: seq<Member>, fmt: bool, d: nat)
    ensures Text(Object(ms), fmt, d) == "{" + LineEnd(fmt) + (MembersText(ms, fmt, d + 1) + Closing(fmt, d + 1))
  {
    hide MembersText, Tabs;
    assert "{" + "\n" == "{\n" && "{" + "" == "{";
  }

  // ------------------------------------------------------------ main results

  /** The outcome of parsing text that may be nested too deeply. */
  predicate Reads<T(==)>(r: Parsed<T>, accepted: bool, value: T, end: nat) {
    if accepted then r == Ok(value, end) else r.Fail?
  }

  /** Only arrays and objects can be nested too deeply. */
  lemma ScalarsReadable(j: Json, doc: Doc, limit: nat)
    requires IsDoc(doc) && Denotes(doc, j) && limit < Nesting(j)
    ensures !doc.DNumber?
  {
  }

  /** Parsing the printed text: accepted exactly within the nesting limit, same tree, all consumed. */
  lemma {:induction false} RoundTrip(j: Json, fmt: bool, requireNull: bool, limit: nat)
    requires Printable(j)
    ensures Reads(ParseDocument(Text(j, fmt, 0), requireNull, limit), Nesting(j) <= limit, j, |Text(j, fmt, 0)|)
  {
    hide ParseDocument, Text, Nesting, Printable, Written, IsDoc, Denotes, Readable;
    var t := Text(j, fmt, 0);
    var doc := Printed(j, fmt, 0);
    assert DocumentText(false, "", doc, "") == t;
    DocumentReads(false, "", doc, "", requireNull, limit);
    var r := ParseDocument(t, requireNull, limit);
    if Readable(doc, limit) {
      DenotesOne(doc, j, r.value);
    } else {
      ScalarsReadable(j, doc, limit);
    }
  }

  /** Different trees never print alike: the text determines the tree. */
  lemma {:induction false} TextInjective(a: Json, b: Json, fmtA: bool, fmtB: bool)
    requires Printable(a) && Printable(b) && Text(a, fmtA, 0) == Text(b, fmtB, 0)
    ensures a == b
  {
    var limit := Max(Nesting(a), Nesting(b));
    RoundTrip(a, fmtA, false, limit);
    RoundTrip(b, fmtB, false, limit);
  }

  // ------------------------------------------- what the parser can produce

  /** C strings throughout, and within the nesting limit when met at depth `depth`. */
  ghost predicate Shaped(j: Json, depth: nat, limit: nat) {
    CStrings(j) && (Nesting(j) == 0 || depth + Nesting(j) <= limit)
  }

  lemma {:induction false} ValueShape(s: string, off: nat, depth: nat, limit: nat)
    requires Terminated(s) && off < |s|
    ensures ParseValue(s, off, depth, limit).Ok? ==> Shaped(ParseValue(s, off, depth, limit).value, depth, limit)
    decreases |s| - off, 2
  {
    hide ParseElements, ParseMembers, ParseNumber, ParseString, ItemsNesting, MembersNesting;
    if s[off] == '[' || s[off] == '{' {
      BracketShape(s, off, depth, limit);
    } else if ParseValue(s, off, depth, limit).Ok? {
      var v := ParseValue(s, off, depth, limit).value;
      assert !v.Array? && !v.Object?;
      assert v.String? ==> v == String(ParseString(s, off).value);
    }
  }

  lemma {:induction false} BracketShape(s: string, off: nat, depth: nat, limit: nat)
    requires Terminated(s) && off < |s| && (s[off] == '[' || s[off] == '{')
    ensures ParseValue(s, off, depth, limit).Ok? ==> Shaped(ParseValue(s, off, depth, limit).value, depth, limit)
    decreases |s| - off, 1
  {
    hide ParseValue, ParseElements, ParseMembers, ItemsNesting, MembersNesting;
    BracketStep(s, off, depth, limit);
    EmptyText(false, 0);
    if depth < limit {
      if s[off] == '[' {
        ElementsShape(s, Skip(s, off + 1), depth + 1, limit);
        var r := ParseElements(s, Skip(s, off + 1), depth + 1, limit);
        assert r.Ok? ==> forall i :: 0 <= i < |r.value| ==> r.value[i] in r.value;
      } else {
        MembersShape(s, Skip(s, off + 1), depth + 1, limit);
      }
    }
  }

  lemma {:induction false} ElementsShape(s: string, q: nat, depth: nat, limit: nat)
    requires Terminated(s) && q < |s| && depth <= limit
    ensures ParseElements(s, q, depth, limit).Ok? ==>
              && depth + ItemsNesting(ParseElements(s, q, depth, limit).value) <= limit
              && forall j :: j in ParseElements(s, q, depth, limit).value ==> CStrings(j)
    decreases |s| - q, 3
  {
    hide ParseValue, ParseElements, ItemsNesting, Nesting, CStrings;
    var first := ParseValue(s, Skip(s, q), depth, limit);
    ValueShape(s, Skip(s, q), depth, limit);
    if first.Fail? {
      ElementsFail(s, q, depth, limit);
    } else {
      ElementsStep(s, q, depth, first.value, first.end, limit);
      var p := Skip(s, first.end);
      EmptyText(false, 0);
      if s[p] == ',' {
        ElementsShape(s, p + 1, depth, limit);
        var rest := ParseElements(s, p + 1, depth, limit);
        if rest.Ok? {
          assert ([first.value] + rest.value)[1..] == rest.value;
          ItemsNestingIs([first.value] + rest.value);
        }
      } else if s[p] == ']' {
        ItemsNestingIs([first.value]);
      }
    }
  }

  lemma {:induction false} MemberShape(s: string, q: nat, depth: nat, limit: nat)
    requires Terminated(s) && q < |s|
    ensures ParseMember(s, q, depth, limit).Ok? ==>
              NulFree(ParseMember(s, q, depth, limit).value.key) && Shaped(ParseMember(s, q, depth, limit).value.value, depth, limit)
    decreases |s| - q, 3
  {
    hide ParseValue, Shaped;
    var key := ParseString(s, Skip(s, q));
    if key.Ok? && s[Skip(s, key.end)] == ':' {
      ValueShape(s, Skip(s, Skip(s, key.end) + 1), depth, limit);
    }
  }

  lemma {:induction false} MembersShape(s: string, q: nat, depth: nat, limit: nat)
    requires Terminated(s) && q < |s| && depth <= limit
    ensures ParseMembers(s, q, depth, limit).Ok? ==>
              && depth + MembersNesting(ParseMembers(s, q, depth, limit).value) <= limit
              && forall m :: m in ParseMembers(s, q, depth, limit).value ==> NulFree(m.key) && CStrings(m.value)
    decreases |s| - q, 4
  {
    hide ParseMember, ParseMembers, MembersNesting, Nesting, CStrings, NulFree;
    var first := ParseMember(s, q, depth, limit);
    MemberShape(s, q, depth, limit);
    if first.Fail? {
      MembersFail(s, q, depth, limit);
    } else {
      MembersStep(s, q, depth, first.value, first.end, limit);
      var p := Skip(s, first.end);
      EmptyText(false, 0);
      if s[p] == ',' {
        MembersShape(s, p + 1, depth, limit);
        var rest := ParseMembers(s, p + 1, depth, limit);
        if rest.Ok? {
          assert ([first.value] + rest.value)[1..] == rest.value;
          MembersNestingIs([first.value] + rest.value);
        }
      } else if s[p] == '}' {
        MembersNestingIs([first.value]);
      }
    }
  }

  /** With integers for numbers, C strings are all that printing asks for. */
  lemma {:induction false} CStringsPrint(j: Json)
    ensures CStrings(j) && Integral(j) <==> Printable(j)
    decreases j
  {
    match j
    case Array(items) =>
      forall i | 0 <= i < |items| ensures CStrings(items[i]) && Integral(items[i]) <==> Printable(items[i]) {
        CStringsPrint(items[i]);
      }
    case Object(ms) =>
      forall i | 0 <= i < |ms| ensures CStrings(ms[i].value) && Integral(ms[i].value) <==> Printable(ms[i].value) {
        CStringsPrint(ms[i].value);
      }
    case _ =>
  }

  /** Whatever text was accepted, printing the result and parsing it again changes nothing. */
  lemma {:induction false} ReparseStable(text: string, requireNull: bool, fmt: bool, limit: nat)
    ensures var r := ParseDocument(text, requireNull, limit);
            r.Ok? && Integral(r.value) ==>
              ParseDocument(Text(r.value, fmt, 0), true, limit) == Ok(r.value, |Text(r.value, fmt, 0)|)
  {
    hide ParseValue, Text, Nesting, Printable, Integral;
    var r := ParseDocument(text, requireNull, limit);
    if r.Ok? && Integral(r.value) {
      var s := text + [NUL];
      ValueShape(s, Skip(s, SkipBom(s)), 0, limit);
      CStringsPrint(r.value);
      RoundTrip(r.value, fmt, true, limit);
    }
  }
}
