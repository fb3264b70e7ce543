/**
 The parser reads every text of the grammar: it accepts it exactly if it is readable,
 that is if no more brackets are open than the nesting limit allows and no number is
 longer than the token buffer, and then it yields the tree that the text stands for.
 */
module JsonReads {
  import opened JsonText
  import opened JsonNumber
  import opened JsonString
  import opened JsonParser
  import opened JsonGrammar
  import JsonNumerals
  import Utf8

  // ---------------------------------------------------------------- strings

  lemma SpelledAt(t: string, o: nat, s: string, p: nat, unit: nat)
    requires Utf8.SpellsUnit(t, o, unit) && Holds(s, p, t)
    ensures Utf8.SpellsUnit(s, p + o, unit)
  {
    At(s, p, t, o);
    At(s, p, t, o + 1);
    At(s, p, t, o + 2);
    At(s, p, t, o + 3);
    At(s, p, t, o + 4);
    At(s, p, t, o + 5);
  }

  lemma CodeReads(cp: nat, t: string, bytes: string, s: string, p: nat, end: nat)
    requires SpellsCode(t, cp) && IsShortestUtf8(bytes, cp)
    requires p + |t| <= end <= |s| && Holds(s, p, t)
    ensures Utf8.ReadLiteral(s, p, end) == Utf8.Literal(|t|, cp) && Utf8.Utf8Bytes(cp) == bytes
  {
    hide Utf8.SpellsUnit, Utf8.ReadLiteral, Utf8.Utf8Bytes, Utf8.IsUtf8Form, Utf8.HighSurrogate, Utf8.LowSurrogate;
    if cp <= 0xFFFF {
      SpelledAt(t, 0, s, p, cp);
    } else {
      SpelledAt(t, 0, s, p, Utf8.HighSurrogate(cp));
      SpelledAt(t, 6, s, p, Utf8.LowSurrogate(cp));
    }
    Utf8.ReadLiteralAccepts(s, p, end, cp);
    Utf8.Utf8BytesShortest(cp, bytes);
  }

  lemma CodeStarts(t: string, cp: nat)
    requires SpellsCode(t, cp)
    ensures |t| >= 6 && t[0] == '\\' && t[1] == 'u'
  {
  }

  lemma PieceDecodes(x: Piece, s: string, p: nat, end: nat)
    requires IsPiece(x) && Holds(s, p, PieceText(x)) && p + |PieceText(x)| <= end < |s|
    ensures DecodeStep(s, p, end) == Step(|PieceText(x)|, PieceBytes(x)) && |PieceText(x)| > 0
  {
    hide Utf8.ReadLiteral, Utf8.Utf8Bytes, SpellsCode, IsShortestUtf8, Holds;
    match x
    case Plain(c) => At(s, p, [c], 0);
    case Short(letter, c) =>
      At(s, p, ['\\', letter], 0);
      At(s, p, ['\\', letter], 1);
      assert Unescaped(letter) as int == SHORT_ESCAPES[letter];
    case Code(cp, t, bytes) =>
      CodeStarts(t, cp);
      At(s, p, t, 0);
      At(s, p, t, 1);
      CodeReads(cp, t, bytes, s, p, end);
  }

  /** Characters of a `\u` escape behind its backslashes are plain to the scan pass. */
  lemma {:induction false} ScanOver(s: string, p: nat, k: nat)
    requires p + k <= |s| && forall i :: p <= i < p + k ==> s[i] != '\"' && s[i] != '\\'
    ensures Scan(s, p).Closed? <==> Scan(s, p + k).Closed?
    ensures Scan(s, p).Closed? ==> Scan(s, p).end == Scan(s, p + k).end
    decreases k
  {
    if k > 0 {
      ScanOver(s, p + 1, k - 1);
    }
  }

  lemma UnitScans(s: string, p: nat, unit: nat)
    requires Utf8.SpellsUnit(s, p, unit) && Scan(s, p + 6).Closed?
    ensures Scan(s, p).Closed? && Scan(s, p).end == Scan(s, p + 6).end
  {
    hide Utf8.SpellsUnit, Scan;
    UnitDigits(s, p, unit);
    ScanOver(s, p + 2, 4);
    assert Scan(s, p).Closed? && Scan(s, p).end == Scan(s, p + 2).end by { ScanEscape(s, p); }
  }

  lemma ScanEscape(s: string, p: nat)
    requires p + 2 <= |s| && s[p] == '\\' && Scan(s, p + 2).Closed?
    ensures Scan(s, p).Closed? && Scan(s, p).end == Scan(s, p + 2).end
  {
  }

  lemma UnitDigits(s: string, p: nat, unit: nat)
    requires Utf8.SpellsUnit(s, p, unit)
    ensures p + 6 <= |s| && s[p] == '\\' && forall i :: p + 2 <= i < p + 6 ==> s[i] != '\"' && s[i] != '\\'
  {
    Utf8.DigitReads(s[p + 2], unit / 4096);
    Utf8.DigitReads(s[p + 3], unit / 256 % 16);
    Utf8.DigitReads(s[p + 4], unit / 16 % 16);
    Utf8.DigitReads(s[p + 5], unit % 16);
  }

  lemma PieceScans(x: Piece, s: string, p: nat)
    requires IsPiece(x) && Holds(s, p, PieceText(x)) && Scan(s, p + |PieceText(x)|).Closed?
    ensures Scan(s, p).Closed? && Scan(s, p).end == Scan(s, p + |PieceText(x)|).end
  {
    hide Utf8.SpellsUnit, Scan, IsShortestUtf8, Utf8.HighSurrogate, Utf8.LowSurrogate;
    match x
    case Plain(c) =>
      At(s, p, [c], 0);
      ScanOver(s, p, 1);
    case Short(letter, _) =>
      At(s, p, ['\\', letter], 0);
      ScanEscape(s, p);
    case Code(cp, t, _) =>
      if cp <= 0xFFFF {
        SpelledAt(t, 0, s, p, cp);
        UnitScans(s, p, cp);
      } else {
        SpelledAt(t, 0, s, p, Utf8.HighSurrogate(cp));
        SpelledAt(t, 6, s, p, Utf8.LowSurrogate(cp));
        UnitScans(s, p + 6, Utf8.LowSurrogate(cp));
        UnitScans(s, p, Utf8.HighSurrogate(cp));
      }
  }

  lemma {:induction false} InnerReads(xs: seq<Piece>, s: string, p: nat, end: nat)
    requires ArePieces(xs) && Holds(s, p, Inner(xs)) && p + |Inner(xs)| == end < |s| && s[end] == '\"'
    ensures Scan(s, p).Closed? && Scan(s, p).end == end
    ensures Decode(s, p, end) == Decoded.Bytes(Meaning(xs))
    decreases |xs|
  {
    hide IsPiece, PieceText, PieceBytes, DecodeStep;
    if xs != [] {
      var t := PieceText(xs[0]);
      SplitAt(s, p, t, Inner(xs[1..]));
      InnerReads(xs[1..], s, p + |t|, end);
      PieceScans(xs[0], s, p);
      PieceDecodes(xs[0], s, p, end);
      DecodeCons(s, p, end, |t|, PieceBytes(xs[0]), Meaning(xs[1..]));
    }
  }

  /** A string literal is read as the bytes of its pieces, up to a zero byte. */
  lemma LiteralReads(xs: seq<Piece>, s: string, p: nat)
    requires Terminated(s) && ArePieces(xs) && Holds(s, p, Literal(xs)) && p + |Literal(xs)| < |s|
    ensures var r := ParseString(s, p);
            s[p] == '\"' && r.Ok? && r.end == p + |Literal(xs)| && IsCString(r.value, Meaning(xs))
  {
    hide ArePieces, Inner, Meaning, Scan, Decode;
    assert Literal(xs) == "\"" + (Inner(xs) + "\"");
    SplitAt(s, p, "\"", Inner(xs) + "\"");
    SplitAt(s, p + 1, Inner(xs), "\"");
    At(s, p, "\"", 0);
    var end := p + 1 + |Inner(xs)|;
    At(s, end, "\"", 0);
    InnerReads(xs, s, p + 1, end);
  }

  // ---------------------------------------------------------------- numbers

  /** Some text is followed by a character that cannot continue a number. */
  predicate Delimited(s: string, end: nat) {
    end < |s| && !IsNumberChar(s[end])
  }

  lemma NumeralChars(n: Numeral)
    requires IsNumeral(n)
    ensures forall i :: 0 <= i < |NumeralText(n)| ==> IsNumberChar(NumeralText(n)[i])
    ensures NumeralText(n) != "" && (NumeralText(n)[0] == '-' || IsDigit(NumeralText(n)[0]))
  {
    var sign := if n.minus then "-" else "";
    var point := if n.fraction == "" then "" else "." + n.fraction;
    var x := ExponentText(n.exponent);
    assert NumberChars(sign) && NumberChars(n.whole) && NumberChars(point);
    assert NumberChars(x) by { ExponentChars(n.exponent); }
    Joined(sign, n.whole);
    Joined(sign + n.whole, point);
    Joined(sign + n.whole + point, x);
    assert NumeralText(n) == sign + n.whole + point + x;
  }

  predicate NumberChars(t: string) {
    forall i :: 0 <= i < |t| ==> IsNumberChar(t[i])
  }

  lemma Joined(a: string, b: string)
    requires NumberChars(a) && NumberChars(b)
    ensures NumberChars(a + b)
  {
  }

  lemma ExponentChars(x: Exponent)
    requires x.Exponent? ==> x.mark in {'e', 'E'} && AreDigits(x.digits)
    ensures NumberChars(ExponentText(x))
  {
    if x.Exponent? {
      Joined([x.mark], SignText(x.sign));
      Joined([x.mark] + SignText(x.sign), x.digits);
    }
  }

  /** A number is read to its end exactly if it fits the token buffer. */
  lemma NumberReads(n: Numeral, s: string, p: nat)
    requires IsNumeral(n) && Holds(s, p, NumeralText(n)) && Delimited(s, p + |NumeralText(n)|)
    ensures var t, r := NumeralText(n), ParseNumber(s, p);
            if |t| <= 63 then r == Ok(NumeralValue(n), p + |t|)
            else r.Fail? || (r.end < p + |t| && IsNumberChar(s[r.end]))
  {
    hide NumeralText, IsNumeral, Strtod, TokenEnd, NumeralValue, IsNumberChar;
    var t := NumeralText(n);
    NumeralChars(n);
    forall i | p <= i < p + |t|
      ensures IsNumberChar(s[i])
    {
      At(s, p, t, i - p);
    }
    if |t| <= 63 {
      TokenEndIs(s, p, p + |t|, TOKEN_LIMIT);
      JsonNumerals.NumeralReads(n);
    } else {
      TokenEndIs(s, p, p + 63, TOKEN_LIMIT);
    }
  }

  // ----------------------------------------------------------------- blanks

  lemma SkipTo(s: string, q: nat, p: nat)
    requires q <= p < |s| && s[p] > ' '
    requires forall i :: q <= i < p ==> s[i] <= ' '
    ensures Skip(s, q) == p
  {
    var b := BlankEnd(s, q);
    assert b == p || b < p || b > p;
  }

  /** Skipping from the start of some blanks leads behind them. */
  lemma BlanksThen(s: string, q: nat, blanks: string, mark: string)
    requires q < |s| && AreBlanks(blanks) && mark != "" && mark[0] > ' '
    requires Holds(s, q, blanks + mark)
    ensures Skip(s, q) == q + |blanks|
    ensures Holds(s, q + |blanks|, mark) && s[q + |blanks|] == mark[0]
  {
    SplitAt(s, q, blanks, mark);
    At(s, q + |blanks|, mark, 0);
    forall i | q <= i < q + |blanks|
      ensures s[i] <= ' '
    {
      At(s, q, blanks, i - q);
    }
    SkipTo(s, q, q + |blanks|);
  }

  /** Blanks or a mark end a number. */
  lemma BlanksDelimit(s: string, q: nat, blanks: string, mark: string)
    requires AreBlanks(blanks) && mark != "" && mark[0] in {',', ']', '}', NUL} && Holds(s, q, blanks + mark)
    ensures Delimited(s, q)
  {
    At(s, q, blanks + mark, 0);
  }

  // ----------------------------------------------------------------- values

  lemma LiteralsReadFirst(s: string, p: nat)
    requires Terminated(s) && p < |s| && s[p] !in {'n', 't', 'f'}
    ensures !Holds(s, p, "null") && !Holds(s, p, "true") && !Holds(s, p, "false")
  {
    if Holds(s, p, "null") { At(s, p, "null", 0); }
    if Holds(s, p, "true") { At(s, p, "true", 0); }
    if Holds(s, p, "false") { At(s, p, "false", 0); }
  }

  lemma BracketStep(s: string, p: nat, depth: nat, limit: nat)
    requires Terminated(s) && p < |s| && (s[p] == '[' || s[p] == '{')
    ensures depth >= limit ==> ParseValue(s, p, depth, limit).Fail?
    ensures s[p] == '[' && depth < limit ==>
              ParseValue(s, p, depth, limit) == if s[Skip(s, p + 1)] == ']' then Ok(Array([]), Skip(s, p + 1) + 1)
                                         else MapValue(ParseElements(s, Skip(s, p + 1), depth + 1, limit), items => Array(items))
    ensures s[p] == '{' && depth < limit ==>
              ParseValue(s, p, depth, limit) == if s[Skip(s, p + 1)] == '}' then Ok(Object([]), Skip(s, p + 1) + 1)
                                         else MapValue(ParseMembers(s, Skip(s, p + 1), depth + 1, limit), ms => Object(ms))
  {
    hide ParseElements, ParseMembers;
    LiteralsReadFirst(s, p);
    assert s[p] == '[' ==> ParseValue(s, p, depth, limit) == ParseArray(s, p, depth, limit);
    assert s[p] == '{' ==> ParseValue(s, p, depth, limit) == ParseObject(s, p, depth, limit);
  }

  /** The text of a document starts with a letter, a digit, a sign, a quote or an opening bracket. */
  lemma Starts(d: Doc)
    requires IsDoc(d)
    ensures Written(d) != "" && ' ' < Written(d)[0] < '~' && Written(d)[0] !in {']', '}', ',', ':'}
  {
    if d.DNumber? {
      NumeralChars(d.n);
    }
  }

  /** What the parser makes of a document that ends at `end`. */
  ghost predicate Outcome(r: Parsed<Json>, s: string, d: Doc, accepted: bool, end: nat)
    requires IsDoc(d)
  {
    if accepted then r.Ok? && r.end == end && Denotes(d, r.value)
    else r.Fail? || (d.DNumber? && StopsInNumber(s, r.end))
  }

  predicate StopsInNumber(s: string, p: nat) {
    p < |s| && IsNumberChar(s[p])
  }

  lemma ScalarReads(d: Doc, s: string, p: nat, depth: nat, limit: nat)
    requires !d.DArray? && !d.DObject? && depth <= limit
    requires Terminated(s) && IsDoc(d) && Holds(s, p, Written(d)) && Delimited(s, p + |Written(d)|)
    ensures Outcome(ParseValue(s, p, depth, limit), s, d, Readable(d, limit - depth), p + |Written(d)|)
  {
    hide ParseString, ParseNumber, NumeralText, NumeralValue, IsNumeral;
    Starts(d);
    At(s, p, Written(d), 0);
    match d
    case DNull =>
    case DBool(b) =>
      if Holds(s, p, "null") { At(s, p, "null", 0); }
      if b && Holds(s, p, "false") { At(s, p, "false", 0); }
    case DNumber(n) =>
      NumeralChars(n);
      NumberReads(n, s, p);
      LiteralsReadFirst(s, p);
    case DString(xs) =>
      LiteralReads(xs, s, p);
      LiteralsReadFirst(s, p);
  }

  // ----------------------------------------------------------------- arrays

  predicate AreItems(items: seq<Item>) {
    forall i :: 0 <= i < |items| ==> SpacedItem(items[i]) && IsDoc(items[i].doc)
  }

  predicate ItemsReadable(items: seq<Item>, limit: nat) {
    forall i :: 0 <= i < |items| ==> Readable(items[i].doc, limit)
  }

  ghost predicate ItemsDenote(items: seq<Item>, js: seq<Json>)
    requires AreItems(items)
  {
    |js| == |items| && forall i :: 0 <= i < |items| ==> Denotes(items[i].doc, js[i])
  }

  ghost predicate ItemsOutcome(r: Parsed<seq<Json>>, items: seq<Item>, accepted: bool, end: nat)
    requires AreItems(items)
  {
    if accepted then r.Ok? && r.end == end && ItemsDenote(items, r.value) else r.Fail?
  }

  /** A value that stopped in the middle of a number is followed by neither comma nor bracket. */
  lemma NumberCutOff(s: string, p: nat)
    requires StopsInNumber(s, p)
    ensures Skip(s, p) == p && s[p] !in {',', ']', '}', NUL}
  {
  }

  /** A value with blanks behind it: where it ends, and what follows. */
  lemma ValueEnds(w: string, after: string, more: string, s: string, p: nat)
    requires AreBlanks(after) && more != "" && more[0] in {',', ']', '}'}
    requires Holds(s, p, w + (after + more))
    ensures var e := p + |w|; var m := e + |after|;
            Holds(s, p, w) && Delimited(s, e) && Skip(s, e) == m && Holds(s, m, more) && s[m] == more[0]
  {
    hide Skip, Delimited, Holds;
    var e := p + |w|;
    SplitAt(s, p, w, after + more);
    HoldsSome(s, e, after, more);
    BlanksThen(s, e, after, more);
    BlanksDelimit(s, e, after, more);
  }

  /** The first element: where its value starts and ends, and what follows. */
  lemma ItemSplits(x: Item, more: string, s: string, t: nat) returns (p: nat, e: nat, m: nat)
    requires SpacedItem(x) && more != "" && more[0] in {',', ']'}
    requires Holds(s, t, ItemText(x) + more)
    ensures p == t + |x.before| && Holds(s, p, Written(x.doc))
    ensures e == p + |Written(x.doc)| && Delimited(s, e)
    ensures m == t + |ItemText(x)| && Skip(s, e) == m && Holds(s, m, more) && s[m] == more[0]
  {
    hide Written, Skip, Delimited, Holds, ItemText, AreBlanks;
    var w := Written(x.doc);
    ItemTextIs(x, more);
    SplitAt(s, t, x.before, w + (x.after + more));
    p, e, m := t + |x.before|, t + |x.before| + |w|, t + |ItemText(x)|;
    ValueEnds(w, x.after, more, s, p);
  }

  lemma ItemTextIs(x: Item, more: string)
    ensures ItemText(x) + more == x.before + (Written(x.doc) + (x.after + more))
    ensures |ItemText(x)| == |x.before| + |Written(x.doc)| + |x.after|
  {
    hide Written;
  }

  lemma MoreStarts(items: seq<Item>)
    ensures MoreItems(items) != "" && MoreItems(items)[0] == if items == [] then ']' else ','
    ensures items == [] ==> MoreItems(items) == "]"
    ensures items != [] ==> MoreItems(items) == "," + (ItemText(items[0]) + MoreItems(items[1..]))
  {
    hide ItemText;
  }

  /** Skipping from the start of an element leads to its value. */
  lemma ItemStart(x: Item, more: string, s: string, t: nat)
    requires SpacedItem(x) && IsDoc(x.doc) && Holds(s, t, ItemText(x) + more)
    ensures t < |s| && Skip(s, t) == t + |x.before| && s[Skip(s, t)] == Written(x.doc)[0] && Written(x.doc)[0] !in {']', '}'}
  {
    hide Written, IsDoc;
    Starts(x.doc);
    assert ItemText(x) + more == x.before + (Written(x.doc) + (x.after + more));
    BlanksThen(s, t, x.before, Written(x.doc) + (x.after + more));
  }

  lemma {:induction false} ItemsRead(items: seq<Item>, s: string, q: nat, t: nat, depth: nat, limit: nat)
    requires Terminated(s) && items != [] && AreItems(items) && depth <= limit
    requires Holds(s, t, ItemText(items[0]) + MoreItems(items[1..]))
    requires t + |ItemText(items[0]) + MoreItems(items[1..])| < |s|
    requires q < |s| && Skip(s, q) == t + |items[0].before|
    ensures ItemsOutcome(ParseElements(s, q, depth, limit), items, ItemsReadable(items, limit - depth),
                         t + |ItemText(items[0]) + MoreItems(items[1..])|)
    decreases items, 3
  {
    hide ParseValue, ParseElements, Written, ItemText, MoreItems, IsDoc, Readable, Skip, Holds, Denotes;
    var x, rest := items[0], items[1..];
    MoreStarts(rest);
    var p, e, m := ItemSplits(x, MoreItems(rest), s, t);
    DocReads(x.doc, s, p, depth, limit);
    var first := ParseValue(s, p, depth, limit);
    if first.Fail? {
      ElementsFail(s, q, depth, limit);
    } else {
      ElementsStep(s, q, depth, first.value, first.end, limit);
      if !Readable(x.doc, limit - depth) {
        NumberCutOff(s, first.end);
      } else if rest != [] {
        SplitAt(s, m, ",", ItemText(rest[0]) + MoreItems(rest[1..]));
        ItemStart(rest[0], MoreItems(rest[1..]), s, m + 1);
        ItemsRead(rest, s, m + 1, m + 1, depth, limit);
        ItemsSnoc(items, first.value, ParseElements(s, m + 1, depth, limit), limit - depth);
      }
    }
  }

  /** The first element and the others. */
  lemma ItemsSnoc(items: seq<Item>, j: Json, r: Parsed<seq<Json>>, limit: nat)
    requires items != [] && AreItems(items) && Denotes(items[0].doc, j) && Readable(items[0].doc, limit)
    ensures ItemsReadable(items, limit) <==> ItemsReadable(items[1..], limit)
    ensures r.Ok? && ItemsDenote(items[1..], r.value) ==> ItemsDenote(items, [j] + r.value)
  {
    hide Denotes, IsDoc, Readable;
    if ItemsReadable(items[1..], limit) {
      forall i | 0 <= i < |items| ensures Readable(items[i].doc, limit) {
        if i > 0 { assert items[i] == items[1..][i - 1]; }
      }
    }
    if r.Ok? && ItemsDenote(items[1..], r.value) {
      forall i | 0 <= i < |items| ensures Denotes(items[i].doc, ([j] + r.value)[i]) {
        if i > 0 { assert items[i] == items[1..][i - 1]; }
      }
    }
  }

  lemma {:induction false} DocReads(d: Doc, s: string, p: nat, depth: nat, limit: nat)
    requires Terminated(s) && IsDoc(d) && depth <= limit
    requires Holds(s, p, Written(d)) && Delimited(s, p + |Written(d)|)
    ensures Outcome(ParseValue(s, p, depth, limit), s, d, Readable(d, limit - depth), p + |Written(d)|)
    decreases d, 0
  {
    hide ParseValue, Written, IsDoc, Readable, Holds, Outcome, Terminated;
    match d
    case DArray(blank, items) => ArrayReads(blank, items, s, p, depth, limit);
    case DObject(blank, fields) => ObjectReads(blank, fields, s, p, depth, limit);
    case _ => ScalarReads(d, s, p, depth, limit);
  }

  lemma ArrayTextIs(blank: string, items: seq<Item>, body: string)
    requires body == if items == [] then "]" else ItemText(items[0]) + MoreItems(items[1..])
    ensures Written(DArray(blank, items)) == "[" + (blank + body)
  {
    hide ItemText, MoreItems;
  }

  lemma ArrayOpens(blank: string, items: seq<Item>, s: string, p: nat) returns (t: nat, body: string)
    requires IsDoc(DArray(blank, items)) && Holds(s, p, Written(DArray(blank, items)))
    ensures AreItems(items)
    ensures body == if items == [] then "]" else ItemText(items[0]) + MoreItems(items[1..])
    ensures t == p + 1 + |blank| && Holds(s, t, body) && t + |body| == p + |Written(DArray(blank, items))|
    ensures s[p] == '[' && p + 1 < |s|
    ensures items == [] ==> Skip(s, p + 1) == t && s[t] == ']'
    ensures items != [] ==> Skip(s, p + 1) == t + |items[0].before| && s[Skip(s, p + 1)] != ']'
  {
    hide ItemText, MoreItems, Holds, Skip, Written, SpacedItem, SpacedField;
    body := if items == [] then "]" else ItemText(items[0]) + MoreItems(items[1..]);
    t := p + 1 + |blank|;
    ArrayTextIs(blank, items, body);
    SplitAt(s, p, "[", blank + body);
    At(s, p, "[", 0);
    SplitAt(s, p + 1, blank, body);
    if items == [] {
      BlanksThen(s, p + 1, blank, "]");
    } else {
      FirstItem(blank, items[0], MoreItems(items[1..]), s, p + 1);
    }
  }

  lemma FirstItem(blank: string, x: Item, more: string, s: string, q: nat)
    requires AreBlanks(blank) && SpacedItem(x) && IsDoc(x.doc) && Holds(s, q, blank + (ItemText(x) + more))
    ensures q < |s| && Skip(s, q) == q + |blank| + |x.before| && s[Skip(s, q)] != ']'
  {
    hide Written, IsDoc;
    Starts(x.doc);
    assert blank + (ItemText(x) + more) == (blank + x.before) + (Written(x.doc) + (x.after + more));
    BlanksThen(s, q, blank + x.before, Written(x.doc) + (x.after + more));
  }

  lemma {:induction false} ArrayReads(blank: string, items: seq<Item>, s: string, p: nat, depth: nat, limit: nat)
    requires Terminated(s) && IsDoc(DArray(blank, items)) && depth <= limit
    requires Holds(s, p, Written(DArray(blank, items))) && p + |Written(DArray(blank, items))| < |s|
    ensures Outcome(ParseValue(s, p, depth, limit), s, DArray(blank, items), Readable(DArray(blank, items), limit - depth),
                    p + |Written(DArray(blank, items))|)
    decreases items, 4
  {
    hide ParseValue, ParseElements, Written, ItemText, MoreItems, Holds, Skip, IsDoc, Readable, Outcome, ItemsOutcome;
    var t, body := ArrayOpens(blank, items, s, p);
    BracketStep(s, p, depth, limit);
    if depth < limit && items != [] {
      ItemsRead(items, s, Skip(s, p + 1), t, depth + 1, limit);
      ArrayOutcome(blank, items, s, ParseElements(s, Skip(s, p + 1), depth + 1, limit), limit - depth, t + |body|);
    } else {
      EmptyArray(blank, items, s, ParseValue(s, p, depth, limit), limit - depth, t + |body|);
    }
  }

  lemma ArrayOutcome(blank: string, items: seq<Item>, s: string, r: Parsed<seq<Json>>, limit: nat, end: nat)
    requires IsDoc(DArray(blank, items)) && limit > 0
    requires AreItems(items) && ItemsOutcome(r, items, ItemsReadable(items, limit - 1), end)
    ensures Outcome(MapValue(r, items => Array(items)), s, DArray(blank, items), Readable(DArray(blank, items), limit), end)
  {
  }

  lemma EmptyArray(blank: string, items: seq<Item>, s: string, r: Parsed<Json>, limit: nat, end: nat)
    requires IsDoc(DArray(blank, items)) && (limit == 0 || items == [])
    requires if limit == 0 then r.Fail? else r == Ok(Array([]), end)
    ensures Outcome(r, s, DArray(blank, items), Readable(DArray(blank, items), limit), end)
  {
  }

  // ---------------------------------------------------------------- objects

  predicate AreFields(fields: seq<Field>) {
    forall i :: 0 <= i < |fields| ==> SpacedField(fields[i]) && IsDoc(fields[i].doc)
  }

  predicate FieldsReadable(fields: seq<Field>, limit: nat) {
    forall i :: 0 <= i < |fields| ==> Readable(fields[i].doc, limit)
  }

  ghost predicate FieldsDenote(fields: seq<Field>, ms: seq<Member>)
    requires AreFields(fields)
  {
    |ms| == |fields| && forall i :: 0 <= i < |fields| ==> FieldDenotes(fields[i], ms[i])
  }

  ghost predicate FieldsOutcome(r: Parsed<seq<Member>>, fields: seq<Field>, accepted: bool, end: nat)
    requires AreFields(fields)
  {
    if accepted then r.Ok? && r.end == end && FieldsDenote(fields, r.value) else r.Fail?
  }

  /** What follows a member's key, up to the end of the object's text. */
  function AfterKey(x: Field, more: string): string {
    x.beforeColon + (":" + (x.afterColon + (Written(x.doc) + (x.after + more))))
  }

  lemma FieldTextIs(x: Field, more: string)
    ensures FieldText(x) + more == x.before + (Literal(x.key) + AfterKey(x, more))
    ensures |FieldText(x)| == |x.before| + |Literal(x.key)| + |x.beforeColon| + 1 + |x.afterColon| + |Written(x.doc)| + |x.after|
  {
    hide Written, Literal;
    Reassociate(x.before, Literal(x.key), x.beforeColon, x.afterColon, Written(x.doc), x.after, more);
  }

  lemma Reassociate(a: string, k: string, b: string, c: string, w: string, e: string, more: string)
    ensures (a + k + b + ":" + c + w + e) + more == a + (k + (b + (":" + (c + (w + (e + more))))))
  {
    assert (a + k + b + ":" + c + w + e) + more == (a + k + b + ":") + (c + (w + (e + more)));
    assert (a + k + b + ":") + (c + (w + (e + more))) == a + (k + (b + (":" + (c + (w + (e + more))))));
  }

  /** The colon behind a key, and where the value starts. */
  lemma ColonReads(before: string, after: string, rest: string, s: string, k: nat)
    requires AreBlanks(before) && AreBlanks(after) && rest != "" && rest[0] > ' '
    requires Holds(s, k, before + (":" + (after + rest)))
    ensures var colon := k + |before|; var p := colon + 1 + |after|;
            && k < |s| && Skip(s, k) == colon && s[colon] == ':'
            && colon + 1 < |s| && Skip(s, colon + 1) == p && Holds(s, p, rest)
  {
    hide Skip, Holds, AreBlanks;
    var colon := k + |before|;
    HoldsSome(s, k, before, ":" + (after + rest));
    BlanksThen(s, k, before, ":" + (after + rest));
    SplitAt(s, colon, ":", after + rest);
    HoldsSome(s, colon + 1, after, rest);
    BlanksThen(s, colon + 1, after, rest);
  }

  /** From the end of a key to its value, the end of the value, and what follows. */
  lemma FieldSplits(x: Field, more: string, s: string, k: nat) returns (colon: nat, p: nat, e: nat, m: nat)
    requires SpacedField(x) && IsDoc(x.doc) && more != "" && more[0] in {',', '}'}
    requires Holds(s, k, AfterKey(x, more))
    ensures k < |s| && Skip(s, k) == colon && s[colon] == ':'
    ensures colon + 1 < |s| && Skip(s, colon + 1) == p && Holds(s, p, Written(x.doc))
    ensures e == p + |Written(x.doc)| && Delimited(s, e)
    ensures m == k + |x.beforeColon| + 1 + |x.afterColon| + |Written(x.doc)| + |x.after|
    ensures Skip(s, e) == m && Holds(s, m, more) && s[m] == more[0]
  {
    hide Written, Skip, Delimited, IsDoc, Holds, AreBlanks, ArePieces;
    var w := Written(x.doc);
    Starts(x.doc);
    ColonReads(x.beforeColon, x.afterColon, w + (x.after + more), s, k);
    colon := k + |x.beforeColon|;
    p := colon + 1 + |x.afterColon|;
    ValueEnds(w, x.after, more, s, p);
    e, m := p + |w|, p + |w| + |x.after|;
  }

  lemma HoldsSome(s: string, p: nat, a: string, b: string)
    requires Holds(s, p, a + b) && b != ""
    ensures p < |s|
  {
  }

  lemma MoreFieldsStart(fields: seq<Field>)
    ensures MoreFields(fields) != "" && MoreFields(fields)[0] == if fields == [] then '}' else ','
    ensures fields == [] ==> MoreFields(fields) == "}"
    ensures fields != [] ==> MoreFields(fields) == "," + (FieldText(fields[0]) + MoreFields(fields[1..]))
  {
    hide FieldText;
  }

  /** Skipping from the start of a member, or blanks in front of it, leads to its key. */
  lemma FieldStart(blank: string, x: Field, more: string, s: string, q: nat)
    requires AreBlanks(blank) && SpacedField(x) && Holds(s, q, blank + (FieldText(x) + more))
    ensures q < |s| && Skip(s, q) == q + |blank| + |x.before| && s[Skip(s, q)] == '\"'
  {
    hide Written, FieldText, AfterKey, Holds, Skip;
    FieldTextIs(x, more);
    var rest := Literal(x.key) + AfterKey(x, more);
    assert blank + (FieldText(x) + more) == (blank + x.before) + rest;
    assert rest[0] == '\"';
    HoldsSome(s, q, blank + x.before, rest);
    BlanksThen(s, q, blank + x.before, rest);
  }

  /** One member: its key, and the outcome of its value. */
  lemma {:induction false} FieldReads(x: Field, more: string, s: string, q: nat, t: nat, depth: nat, limit: nat) returns (m: nat)
    requires Terminated(s) && SpacedField(x) && IsDoc(x.doc) && depth <= limit && more != "" && more[0] in {',', '}'}
    requires Holds(s, t, FieldText(x) + more) && t + |FieldText(x)| < |s|
    requires q < |s| && Skip(s, q) == t + |x.before|
    ensures m == t + |FieldText(x)| && Holds(s, m, more) && s[m] == more[0]
    ensures var r := ParseMember(s, q, depth, limit);
            if Readable(x.doc, limit - depth) then r.Ok? && Skip(s, r.end) == m && FieldDenotes(x, r.value)
            else r.Fail? || StopsInNumber(s, r.end)
    decreases x, 1
  {
    hide ParseString, ParseValue, Written, FieldText, AfterKey, Literal, IsDoc, Readable, Skip, Holds, Denotes, Meaning, SpacedField;
    FieldTextIs(x, more);
    SplitAt(s, t, x.before, Literal(x.key) + AfterKey(x, more));
    var k := t + |x.before|;
    SplitAt(s, k, Literal(x.key), AfterKey(x, more));
    var colon, p, e;
    colon, p, e, m := FieldSplits(x, more, s, k + |Literal(x.key)|);
    assert ArePieces(x.key) by { FieldParts(x); }
    LiteralReads(x.key, s, k);
    DocReads(x.doc, s, p, depth, limit);
    assert ParseMember(s, q, depth, limit)
        == MapValue(ParseValue(s, p, depth, limit), v => Member(ParseString(s, k).value, v));
  }

  lemma FieldParts(x: Field)
    requires SpacedField(x)
    ensures ArePieces(x.key)
  {
  }

  lemma {:induction false} FieldsRead(fields: seq<Field>, s: string, q: nat, t: nat, depth: nat, limit: nat)
    requires Terminated(s) && fields != [] && AreFields(fields) && depth <= limit
    requires Holds(s, t, FieldText(fields[0]) + MoreFields(fields[1..]))
    requires t + |FieldText(fields[0]) + MoreFields(fields[1..])| < |s|
    requires q < |s| && Skip(s, q) == t + |fields[0].before|
    ensures FieldsOutcome(ParseMembers(s, q, depth, limit), fields, FieldsReadable(fields, limit - depth),
                          t + |FieldText(fields[0]) + MoreFields(fields[1..])|)
    decreases fields, 3
  {
    hide ParseMember, ParseMembers, FieldText, MoreFields, IsDoc, Readable, Skip, Holds, FieldDenotes, SpacedField;
    var x, rest := fields[0], fields[1..];
    MoreFieldsStart(rest);
    var m := FieldReads(x, MoreFields(rest), s, q, t, depth, limit);
    var first := ParseMember(s, q, depth, limit);
    if first.Fail? {
      MembersFail(s, q, depth, limit);
    } else {
      MembersStep(s, q, depth, first.value, first.end, limit);
      if !Readable(x.doc, limit - depth) {
        NumberCutOff(s, first.end);
      } else if rest != [] {
        SplitAt(s, m, ",", FieldText(rest[0]) + MoreFields(rest[1..]));
        assert "" + (FieldText(rest[0]) + MoreFields(rest[1..])) == FieldText(rest[0]) + MoreFields(rest[1..]);
        FieldStart("", rest[0], MoreFields(rest[1..]), s, m + 1);
        FieldsRead(rest, s, m + 1, m + 1, depth, limit);
        FieldsSnoc(fields, first.value, ParseMembers(s, m + 1, depth, limit), limit - depth);
      }
    }
  }

  lemma FieldsSnoc(fields: seq<Field>, j: Member, r: Parsed<seq<Member>>, limit: nat)
    requires fields != [] && AreFields(fields) && FieldDenotes(fields[0], j) && Readable(fields[0].doc, limit)
    ensures FieldsReadable(fields, limit) <==> FieldsReadable(fields[1..], limit)
    ensures r.Ok? && FieldsDenote(fields[1..], r.value) ==> FieldsDenote(fields, [j] + r.value)
  {
    hide FieldDenotes, IsDoc, Readable, SpacedField;
    if FieldsReadable(fields[1..], limit) {
      forall i | 0 <= i < |fields| ensures Readable(fields[i].doc, limit) {
        if i > 0 { assert fields[i] == fields[1..][i - 1]; }
      }
    }
    if r.Ok? && FieldsDenote(fields[1..], r.value) {
      forall i | 0 <= i < |fields| ensures FieldDenotes(fields[i], ([j] + r.value)[i]) {
        if i > 0 { assert fields[i] == fields[1..][i - 1]; }
      }
    }
  }

  lemma ObjectTextIs(blank: string, fields: seq<Field>, body: string)
    requires body == if fields == [] then "}" else FieldText(fields[0]) + MoreFields(fields[1..])
    ensures Written(DObject(blank, fields)) == "{" + (blank + body)
  {
    hide FieldText, MoreFields;
  }

  lemma ObjectOpens(blank: string, fields: seq<Field>, s: string, p: nat) returns (t: nat, body: string)
    requires IsDoc(DObject(blank, fields)) && Holds(s, p, Written(DObject(blank, fields)))
    ensures AreFields(fields)
    ensures body == if fields == [] then "}" else FieldText(fields[0]) + MoreFields(fields[1..])
    ensures t == p + 1 + |blank| && Holds(s, t, body) && t + |body| == p + |Written(DObject(blank, fields))|
    ensures s[p] == '{' && p + 1 < |s|
    ensures fields == [] ==> Skip(s, p + 1) == t && s[t] == '}'
    ensures fields != [] ==> Skip(s, p + 1) == t + |fields[0].before| && s[Skip(s, p + 1)] != '}'
  {
    hide FieldText, MoreFields, Holds, Skip, Written, SpacedItem, SpacedField;
    body := if fields == [] then "}" else FieldText(fields[0]) + MoreFields(fields[1..]);
    t := p + 1 + |blank|;
    ObjectTextIs(blank, fields, body);
    SplitAt(s, p, "{", blank + body);
    At(s, p, "{", 0);
    SplitAt(s, p + 1, blank, body);
    if fields == [] {
      BlanksThen(s, p + 1, blank, "}");
    } else {
      FieldStart(blank, fields[0], MoreFields(fields[1..]), s, p + 1);
    }
  }

  lemma {:induction false} ObjectReads(blank: string, fields: seq<Field>, s: string, p: nat, depth: nat, limit: nat)
    requires Terminated(s) && IsDoc(DObject(blank, fields)) && depth <= limit
    requires Holds(s, p, Written(DObject(blank, fields))) && p + |Written(DObject(blank, fields))| < |s|
    ensures Outcome(ParseValue(s, p, depth, limit), s, DObject(blank, fields), Readable(DObject(blank, fields), limit - depth),
                    p + |Written(DObject(blank, fields))|)
    decreases fields, 4
  {
    hide ParseValue, ParseMembers, Written, FieldText, MoreFields, Holds, Skip, IsDoc, Readable, Outcome, FieldsOutcome;
    var t, body := ObjectOpens(blank, fields, s, p);
    BracketStep(s, p, depth, limit);
    if depth < limit && fields != [] {
      FieldsRead(fields, s, Skip(s, p + 1), t, depth + 1, limit);
      ObjectOutcome(blank, fields, s, ParseMembers(s, Skip(s, p + 1), depth + 1, limit), limit - depth, t + |body|);
    } else {
      EmptyObject(blank, fields, s, ParseValue(s, p, depth, limit), limit - depth, t + |body|);
    }
  }

  lemma ObjectOutcome(blank: string, fields: seq<Field>, s: string, r: Parsed<seq<Member>>, limit: nat, end: nat)
    requires IsDoc(DObject(blank, fields)) && limit > 0
    requires AreFields(fields) && FieldsOutcome(r, fields, FieldsReadable(fields, limit - 1), end)
    ensures Outcome(MapValue(r, ms => Object(ms)), s, DObject(blank, fields), Readable(DObject(blank, fields), limit), end)
  {
  }

  lemma EmptyObject(blank: string, fields: seq<Field>, s: string, r: Parsed<Json>, limit: nat, end: nat)
    requires IsDoc(DObject(blank, fields)) && (limit == 0 || fields == [])
    requires if limit == 0 then r.Fail? else r == Ok(Object([]), end)
    ensures Outcome(r, s, DObject(blank, fields), Readable(DObject(blank, fields), limit), end)
  {
  }

  // -------------------------------------------------------------- documents

  const MARK := "\U{EF}\U{BB}\U{BF}"

  /** A text: perhaps a byte order mark, and a document with blanks around it. */
  function DocumentText(marked: bool, before: string, d: Doc, after: string): string {
    (if marked then MARK else "") + before + Written(d) + after
  }

  lemma MarkSkipped(marked: bool, body: string)
    requires body != "" && body[0] < '~' && (marked ==> |body| > 1)
    ensures var s := (if marked then MARK else "") + body;
            SkipBom(s) == (if marked then 3 else 0) && Holds(s, SkipBom(s), body)
  {
    var s := (if marked then MARK else "") + body;
    if marked {
      assert s[..3] == MARK && s[3..] == body;
    } else {
      assert s == body;
      if Holds(s, 0, BYTE_ORDER_MARK) {
        At(s, 0, BYTE_ORDER_MARK, 0);
      }
    }
  }

  /** Where the document starts in the buffer. */
  lemma DocumentStarts(marked: bool, before: string, d: Doc, after: string) returns (p: nat)
    requires AreBlanks(before) && IsDoc(d)
    ensures var s := DocumentText(marked, before, d, after) + [NUL];
            && Skip(s, SkipBom(s)) == p && Holds(s, p, Written(d) + (after + [NUL]))
            && p + |Written(d)| + |after| + 1 == |s|
  {
    hide Written, IsDoc, SkipBom, Holds, Skip;
    Starts(d);
    var mark := if marked then MARK else "";
    var rest := Written(d) + (after + [NUL]);
    assert DocumentText(marked, before, d, after) + [NUL] == mark + (before + rest);
    MarkSkipped(marked, before + rest);
    BlanksThen(mark + (before + rest), |mark|, before, rest);
    p := |mark| + |before|;
  }

  /**
   A text of the grammar, with or without a byte order mark, is accepted exactly if it
   is readable: to its last character if nothing else may follow the document, and else
   to the end of the document.  The value is the tree that it stands for.  The one text
   accepted though it is not readable is a number, cut off after 63 characters.
   */
  lemma DocumentReads(marked: bool, before: string, d: Doc, after: string, requireNull: bool, limit: nat)
    requires AreBlanks(before) && IsDoc(d) && AreBlanks(after)
    ensures var text := DocumentText(marked, before, d, after);
            var r := ParseDocument(text, requireNull, limit);
            if Readable(d, limit) then r.Ok? && Denotes(d, r.value) && r.end + (if requireNull then 0 else |after|) == |text|
            else r.Fail? || (d.DNumber? && !requireNull && r.end < |text| && IsNumberChar(text[r.end]))
  {
    hide ParseValue, Written, IsDoc, Readable, Denotes, DocumentText, SkipBom, IsNumberChar;
    var text := DocumentText(marked, before, d, after);
    var s := text + [NUL];
    var p := DocumentStarts(marked, before, d, after);
    var e := p + |Written(d)|;
    SplitAt(s, p, Written(d), after + [NUL]);
    BlanksDelimit(s, e, after, [NUL]);
    DocReads(d, s, p, 0, limit);
    var v := ParseValue(s, p, 0, limit);
    if v.Ok? {
      if Readable(d, limit) {
        BlanksEnd(s, e, after);
      } else {
        NumberCutOff(s, v.end);
      }
    }
  }

  /** If more may follow the document, it does not matter what: any text that cannot continue a number. */
  lemma WhateverFollows(d: Doc, more: string, limit: nat)
    requires IsDoc(d) && (more != "" ==> !IsNumberChar(more[0]))
    ensures var r := ParseDocument(Written(d) + more, false, limit);
            if Readable(d, limit) then r.Ok? && Denotes(d, r.value) && r.end == |Written(d)|
            else r.Fail? || d.DNumber?
  {
    hide ParseValue, Written, IsDoc, Readable, Denotes, SkipBom;
    Starts(d);
    var w, tail := Written(d), more + [NUL];
    var s := w + more + [NUL];
    assert s == "" + (w + tail);
    MarkSkipped(false, w + tail);
    SplitAt(s, 0, w, tail);
    At(s, |w|, tail, 0);
    DocReads(d, s, 0, 0, limit);
  }

  lemma BlanksEnd(s: string, e: nat, after: string)
    requires AreBlanks(after) && Holds(s, e, after + [NUL]) && e + |after| + 1 == |s|
    ensures Skip(s, e) == |s| - 1 && s[|s| - 1] == NUL
  {
    At(s, e, after + [NUL], |after|);
    forall i | e <= i < |s|
      ensures s[i] <= ' '
    {
      At(s, e, after + [NUL], i - e);
    }
  }

  /** A text stands for at most one tree. */
  lemma {:induction false} DenotesOne(d: Doc, a: Json, b: Json)
    requires IsDoc(d) && Denotes(d, a) && Denotes(d, b)
    ensures a == b
    decreases d
  {
    hide Meaning, NumeralValue;
    match d
    case DString(xs) => SameCString(a.s, b.s, Meaning(xs));
    case DArray(_, items) =>
      forall i | 0 <= i < |items| ensures a.items[i] == b.items[i] {
        DenotesOne(items[i].doc, a.items[i], b.items[i]);
      }
    case DObject(_, fields) =>
      forall i | 0 <= i < |fields| ensures a.members[i] == b.members[i] {
        assert FieldDenotes(fields[i], a.members[i]) && FieldDenotes(fields[i], b.members[i]);
        SameCString(a.members[i].key, b.members[i].key, Meaning(fields[i].key));
        DenotesOne(fields[i].doc, a.members[i].value, b.members[i].value);
      }
    case _ =>
  }

  lemma SameCString(r: string, q: string, bytes: string)
    requires IsCString(r, bytes) && IsCString(q, bytes)
    ensures r == q
  {
    assert |r| == |q|;
  }
}
