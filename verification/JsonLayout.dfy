/**
 The layout of printed text, described on the characters alone: blanks are counted
 only outside string literals, and the open brackets in front of a character say how
 deep it stands.
 */
module JsonLayout {
  import opened JsonText
  import JsonNumber

  /** Where a character stands: outside of literals, in one, or behind a backslash in one. */
  datatype Place = Outside | Inside | Escaped

  function Step(q: Place, c: char): Place {
    match q
    case Outside => if c == '\"' then Inside else Outside
    case Inside => if c == '\\' then Escaped else if c == '\"' then Outside else Inside
    case Escaped => Inside
  }

  function PlaceAfter(q: Place, t: string): Place
    decreases |t|
  {
    if t == "" then q else PlaceAfter(Step(q, t[0]), t[1..])
  }

  predicate IsBlank(c: char) {
    c as int <= 32
  }

  /** The text without the blanks outside of literals. */
  function Squeezed(q: Place, t: string): string
    decreases |t|
  {
    if t == "" then ""
    else (if q == Outside && IsBlank(t[0]) then "" else [t[0]]) + Squeezed(Step(q, t[0]), t[1..])
  }

  /** All blanks outside of literals are spaces, tabs or line ends. */
  predicate PlainBlanks(q: Place, t: string)
    decreases |t|
  {
    t == "" || ((q == Outside && IsBlank(t[0]) ==> t[0] in {' ', '\t', '\n'}) && PlainBlanks(Step(q, t[0]), t[1..]))
  }

  // --------------------------------------------------------- piece by piece

  /** A piece that starts and ends outside of literals, with its squeezed form. */
  ghost predicate Piece(t: string, squeezed: string) {
    PlaceAfter(Outside, t) == Outside && Squeezed(Outside, t) == squeezed && PlainBlanks(Outside, t)
  }

  lemma {:induction false} Split(q: Place, a: string, b: string)
    ensures PlaceAfter(q, a + b) == PlaceAfter(PlaceAfter(q, a), b)
    ensures Squeezed(q, a + b) == Squeezed(q, a) + Squeezed(PlaceAfter(q, a), b)
    ensures PlainBlanks(q, a + b) <==> PlainBlanks(q, a) && PlainBlanks(PlaceAfter(q, a), b)
    decreases |a|
  {
    if a == "" {
      assert a + b == b;
    } else {
      assert (a + b)[0] == a[0] && (a + b)[1..] == a[1..] + b;
      Split(Step(q, a[0]), a[1..], b);
    }
  }

  lemma Pieces(a: string, x: string, b: string, y: string)
    requires Piece(a, x) && Piece(b, y)
    ensures Piece(a + b, x + y)
  {
    Split(Outside, a, b);
  }

  /** Characters that are neither blank nor a quote. */
  ghost predicate Solid(t: string) {
    forall i :: 0 <= i < |t| ==> !IsBlank(t[i]) && t[i] != '\"'
  }

  lemma {:induction false} SolidPiece(t: string)
    requires Solid(t)
    ensures Piece(t, t)
    decreases |t|
  {
    if t != "" {
      SolidPiece(t[1..]);
      assert t == [t[0]] + t[1..];
    }
  }

  ghost predicate Blanks(t: string) {
    forall i :: 0 <= i < |t| ==> t[i] in {' ', '\t', '\n'}
  }

  lemma {:induction false} BlankPiece(t: string)
    requires Blanks(t)
    ensures Piece(t, "")
    decreases |t|
  {
    if t != "" {
      BlankPiece(t[1..]);
    }
  }

  lemma {:induction false} EscapeInside(s: string)
    ensures PlaceAfter(Inside, Escape(s)) == Inside && Squeezed(Inside, Escape(s)) == Escape(s)
    ensures PlainBlanks(Inside, Escape(s))
    decreases |s|
  {
    if s != "" {
      EscapeCharInside(s[0]);
      EscapeInside(s[1..]);
      Split(Inside, EscapeChar(s[0]), Escape(s[1..]));
    }
  }

  lemma EscapeCharInside(c: char)
    ensures var t := EscapeChar(c);
            PlaceAfter(Inside, t) == Inside && Squeezed(Inside, t) == t && PlainBlanks(Inside, t)
  {
    var t := EscapeChar(c);
    if NeedsEscape(c) {
      assert t[0] == '\\' && Step(Inside, t[0]) == Escaped;
      DigitsAreLetters(c as int / 16 % 16);
      DigitsAreLetters(c as int % 16);
      InsideOnly(t[2..]);
      assert t == [t[0], t[1]] + t[2..];
      TwoInside(t[1]);
      Split(Inside, [t[0], t[1]], t[2..]);
    } else {
      InsideOnly(t);
    }
  }

  lemma DigitsAreLetters(d: nat)
    requires d < 16
    ensures DigitChar(d) != '\"' && DigitChar(d) != '\\'
  {
  }

  lemma TwoInside(c: char)
    ensures PlaceAfter(Inside, ['\\', c]) == Inside && Squeezed(Inside, ['\\', c]) == ['\\', c] && PlainBlanks(Inside, ['\\', c])
  {
    assert ['\\', c][1..] == [c] && [c][1..] == "";
    assert PlaceAfter(Escaped, [c]) == Inside && Squeezed(Escaped, [c]) == [c];
  }

  lemma {:induction false} InsideOnly(t: string)
    requires forall i :: 0 <= i < |t| ==> t[i] != '\"' && t[i] != '\\'
    ensures PlaceAfter(Inside, t) == Inside && Squeezed(Inside, t) == t && PlainBlanks(Inside, t)
    decreases |t|
  {
    if t != "" {
      InsideOnly(t[1..]);
      assert t == [t[0]] + t[1..];
    }
  }

  lemma QuotedPiece(s: string)
    ensures Piece(Quoted(s), Quoted(s))
  {
    EscapeInside(s);
    Split(Outside, "\"", Escape(s));
    Split(Outside, "\"" + Escape(s), "\"");
    assert "\""[1..] == "";
    assert PlaceAfter(Outside, "\"") == Inside && Squeezed(Outside, "\"") == "\"";
    assert PlaceAfter(Inside, "\"") == Outside && Squeezed(Inside, "\"") == "\"";
  }

  lemma {:induction false} SolidNat(n: nat)
    ensures Solid(NatText(n)) && |NatText(n)| > 0
    ensures forall i :: 0 <= i < |NatText(n)| ==> '0' <= NatText(n)[i] <= '9'
  {
    if n >= 10 {
      SolidNat(n / 10);
    }
  }

  lemma SolidNumber(r: real)
    ensures Solid(NumberText(r))
  {
    SolidNat(if r.Floor < 0 then -r.Floor else r.Floor);
  }

  lemma KeyPiece(key: string, fmt: bool, d: nat)
    ensures Piece(KeyText(key, fmt, d), Quoted(key) + ":")
  {
    QuotedPiece(key);
    var before := if fmt then Tabs(d) else "";
    var after := if fmt then "\t" else "";
    BlankPiece(before);
    BlankPiece(after);
    SolidPiece(":");
    Pieces(":", ":", after, "");
    Pieces(before, "", Quoted(key), Quoted(key));
    Pieces(before + Quoted(key), "" + Quoted(key), ":" + after, ":" + "");
    assert KeyText(key, fmt, d) == before + Quoted(key) + (":" + after);
    assert "" + Quoted(key) + (":" + "") == Quoted(key) + ":";
  }

  lemma EndPiece(last: bool, fmt: bool)
    ensures Piece(MemberEnd(last, fmt), if last then "" else ",")
  {
    var comma := if last then "" else ",";
    var end := if fmt then "\n" else "";
    SolidPiece(comma);
    BlankPiece(end);
    Pieces(comma, comma, end, "");
    assert comma + "" == comma;
  }

  lemma SeparatorPiece(fmt: bool)
    ensures Piece(ItemSeparator(fmt), ",")
  {
    var after := if fmt then " " else "";
    SolidPiece(",");
    BlankPiece(after);
    Pieces(",", ",", after, "");
    assert ItemSeparator(fmt) == "," + after;
  }

  /**
   Without the blanks outside of its literals, the formatted text is the unformatted
   one; and the unformatted text, which is its own squeezed form, has no such blank.
   */
  lemma {:induction false} TextPiece(j: Json, fmt: bool, d: nat, e: nat)
    ensures Piece(Text(j, fmt, d), Text(j, false, e))
    decreases j, 0
  {
    hide Piece, Quoted, ItemsText, MembersText, NumberText;
    match j
    case Number(r) =>
      SolidNumber(r);
      SolidPiece(NumberText(r));
    case String(s) =>
      QuotedPiece(s);
    case Array(items) =>
      SolidPiece("[");
      ItemsPiece(items, fmt, d + 1, e + 1);
      SolidPiece("]");
      Pieces("[", "[", ItemsText(items, fmt, d + 1), ItemsText(items, false, e + 1));
      Pieces("[" + ItemsText(items, fmt, d + 1), "[" + ItemsText(items, false, e + 1), "]", "]");
    case Object(ms) =>
      BracesPiece(fmt, d);
      MembersPiece(ms, fmt, d + 1, e + 1);
      var open, close := if fmt then "{\n" else "{", if fmt then Tabs(d) + "}" else "}";
      Pieces(open, "{", MembersText(ms, fmt, d + 1), MembersText(ms, false, e + 1));
      Pieces(open + MembersText(ms, fmt, d + 1), "{" + MembersText(ms, false, e + 1), close, "}");
    case _ =>
      SolidPiece(Text(j, fmt, d));
  }

  lemma BracesPiece(fmt: bool, d: nat)
    ensures Piece(if fmt then "{\n" else "{", "{") && Piece(if fmt then Tabs(d) + "}" else "}", "}")
  {
    SolidPiece("{");
    SolidPiece("}");
    BlankPiece("\n");
    BlankPiece(Tabs(d));
    Pieces("{", "{", "\n", "");
    Pieces(Tabs(d), "", "}", "}");
    assert "{" + "\n" == "{\n" && "{" + "" == "{" && "" + "}" == "}";
  }

  lemma {:induction false} ItemsPiece(items: seq<Json>, fmt: bool, d: nat, e: nat)
    ensures Piece(ItemsText(items, fmt, d), ItemsText(items, false, e))
    decreases items, 1
  {
    hide Piece, Text, ItemSeparator;
    if items == [] {
      BlankPiece("");
    } else {
      TextPiece(items[0], fmt, d, e);
      if |items| > 1 {
        ItemsPiece(items[1..], fmt, d, e);
        SeparatorPiece(fmt);
        SeparatorPiece(false);
        Pieces(Text(items[0], fmt, d), Text(items[0], false, e), ItemSeparator(fmt), ",");
        Pieces(Text(items[0], fmt, d) + ItemSeparator(fmt), Text(items[0], false, e) + ",",
               ItemsText(items[1..], fmt, d), ItemsText(items[1..], false, e));
        assert ItemSeparator(false) == "," by { Unformatted("", 0, true); }
      }
    }
  }

  lemma Unformatted(key: string, d: nat, last: bool)
    ensures ItemSeparator(false) == ","
    ensures KeyText(key, false, d) == Quoted(key) + ":"
    ensures MemberEnd(last, false) == if last then "" else ","
  {
  }

  lemma {:induction false} MembersPiece(ms: seq<Member>, fmt: bool, d: nat, e: nat)
    ensures Piece(MembersText(ms, fmt, d), MembersText(ms, false, e))
    decreases ms, 1
  {
    hide Piece, Text, KeyText, MemberEnd, Quoted;
    if ms == [] {
      BlankPiece("");
    } else {
      var m := ms[0];
      TextPiece(m.value, fmt, d, e);
      MembersPiece(ms[1..], fmt, d, e);
      KeyPiece(m.key, fmt, d);
      EndPiece(|ms| == 1, fmt);
      Unformatted(m.key, e, |ms| == 1);
      var comma := if |ms| == 1 then "" else ",";
      Pieces(KeyText(m.key, fmt, d), Quoted(m.key) + ":", Text(m.value, fmt, d), Text(m.value, false, e));
      var a, x := KeyText(m.key, fmt, d) + Text(m.value, fmt, d), Quoted(m.key) + ":" + Text(m.value, false, e);
      Pieces(a, x, MemberEnd(|ms| == 1, fmt), comma);
      Pieces(a + MemberEnd(|ms| == 1, fmt), x + comma, MembersText(ms[1..], fmt, d), MembersText(ms[1..], false, e));
    }
  }

  // ------------------------------------------------------------- positions

  /** Position `i` of a text lies outside of literals. */
  predicate Bare(t: string, i: nat) {
    i < |t| && PlaceAfter(Outside, t[..i]) == Outside
  }

  lemma {:induction false} SqueezedAt(q: Place, t: string, i: nat)
    requires i < |t| && PlaceAfter(q, t[..i]) == Outside
    ensures Squeezed(q, t) == t ==> !IsBlank(t[i])
    ensures PlainBlanks(q, t) && IsBlank(t[i]) ==> t[i] in {' ', '\t', '\n'}
    decreases |t|
  {
    SqueezedShorter(Step(q, t[0]), t[1..]);
    if i > 0 {
      assert t[..i][0] == t[0] && t[..i][1..] == t[1..][..i - 1];
      SqueezedAt(Step(q, t[0]), t[1..], i - 1);
      if Squeezed(q, t) == t {
        assert Squeezed(Step(q, t[0]), t[1..]) == Squeezed(q, t)[1..];
      }
    }
  }

  lemma {:induction false} SqueezedShorter(q: Place, t: string)
    ensures |Squeezed(q, t)| <= |t|
    decreases |t|
  {
    if t != "" {
      SqueezedShorter(Step(q, t[0]), t[1..]);
    }
  }

  /** Unformatted text has no blank outside of its literals. */
  lemma NoBlanks(j: Json, d: nat)
    ensures forall i: nat :: Bare(Text(j, false, d), i) ==> Text(j, false, d)[i] > ' '
  {
    var t := Text(j, false, d);
    TextPiece(j, false, d, d);
    forall i: nat | Bare(t, i)
      ensures t[i] > ' '
    {
      SqueezedAt(Outside, t, i);
    }
  }

  /** Formatted text has no blanks but spaces, tabs and line ends outside of its literals. */
  lemma FewBlanks(j: Json, d: nat)
    ensures forall i: nat :: Bare(Text(j, true, d), i) ==> Text(j, true, d)[i] > ' ' || Text(j, true, d)[i] in {' ', '\t', '\n'}
  {
    var t := Text(j, true, d);
    TextPiece(j, true, d, d);
    forall i: nat | Bare(t, i)
      ensures t[i] > ' ' || t[i] in {' ', '\t', '\n'}
    {
      SqueezedAt(Outside, t, i);
    }
  }

  // ------------------------------------------------------------ indentation

  /** The brackets that are open behind `c`. */
  function Nest(q: Place, open: string, c: char): string {
    if q != Outside then open
    else if c in {'[', '{'} then open + [c]
    else if c in {']', '}'} && open != "" then open[..|open| - 1]
    else open
  }

  function OpenAfter(q: Place, open: string, t: string): string
    decreases |t|
  {
    if t == "" then open else OpenAfter(Step(q, t[0]), Nest(q, open, t[0]), t[1..])
  }

  predicate In(open: string, bracket: char) {
    open != "" && open[|open| - 1] == bracket
  }

  /** At `p` a line ends, and the next one starts with exactly `n` tabs and then `c`. */
  predicate NewLine(t: string, p: nat, n: nat, c: char) {
    p + 1 + n < |t| && t[p] == '\n' && (forall k :: p < k <= p + n ==> t[k] == '\t') && t[p + 1 + n] == c
  }

  /** One blank `b` stands at `p`, and no other behind it. */
  predicate OneBlank(t: string, p: nat, b: char) {
    p + 1 < |t| && t[p] == b && t[p + 1] > ' '
  }

  /** Nothing blank at `p`, unless an object's closing brace starts the next line. */
  predicate NoBlank(t: string, p: nat, open: string) {
    p >= |t| || t[p] > ' ' || (In(open, '{') && NewLine(t, p, |open| - 1, '}'))
  }

  /**
   What stands behind the first character of `t`, which is at `q` behind the brackets
   `open`: a tab behind a colon; a space behind a comma of an array; behind a comma of
   an object a new line, indented by one tab for each open bracket, with a key; behind
   an opening brace such a line or that of the closing brace; no blank behind the rest.
   */
  predicate Spaced(t: string, q: Place, open: string)
    requires t != ""
  {
    var c := t[0];
    if q == Outside && c == ':' then OneBlank(t, 1, '\t')
    else if q == Outside && c == ',' then
      if In(open, '[') then OneBlank(t, 1, ' ') else NewLine(t, 1, |open|, '\"')
    else if q == Outside && c == '{' then NewLine(t, 1, |open| + 1, '\"') || NewLine(t, 1, |open|, '}')
    else if (q == Outside && c > ' ' && c != '\"') || (q == Inside && c == '\"') then
      NoBlank(t, 1, Nest(q, open, c))
    else true
  }

  predicate LaidOut(t: string, q: Place, open: string)
    decreases |t|
  {
    t == "" || (Spaced(t, q, open) && LaidOut(t[1..], Step(q, t[0]), Nest(q, open, t[0])))
  }

  /** Text that may stand behind a value. */
  predicate Fits(t: string, open: string) {
    LaidOut(t, Outside, open) && NoBlank(t, 0, open)
  }

  lemma Unfold(t: string, q: Place, open: string)
    requires t != ""
    ensures LaidOut(t, q, open) <==> Spaced(t, q, open) && LaidOut(t[1..], Step(q, t[0]), Nest(q, open, t[0]))
  {
  }

  lemma {:induction false} BlanksFit(b: string, t: string, open: string)
    requires Blanks(b) && LaidOut(t, Outside, open)
    ensures LaidOut(b + t, Outside, open)
    decreases |b|
  {
    if b == "" {
      assert b + t == t;
    } else {
      BlanksFit(b[1..], t, open);
      assert (b + t)[0] == b[0] && (b + t)[1..] == b[1..] + t;
    }
  }

  /** Letters, digits and signs. */
  ghost predicate Word(w: string) {
    forall i :: 0 <= i < |w| ==> w[i] > ' ' && w[i] !in {'\"', ':', ',', '{', '}', '[', ']'}
  }

  lemma {:induction false} WordFits(w: string, t: string, open: string)
    requires Word(w) && Fits(t, open)
    ensures Fits(w + t, open)
    decreases |w|
  {
    if w == "" {
      assert w + t == t;
    } else {
      WordFits(w[1..], t, open);
      var u := w[1..] + t;
      assert (w + t)[0] == w[0] && (w + t)[1..] == u;
      NoBlankBehind(w[0], u, open);
      Unfold(w + t, Outside, open);
    }
  }

  /** `NoBlank` looks at the text from its position on. */
  lemma NoBlankBehind(c: char, t: string, open: string)
    ensures NoBlank([c] + t, 1, open) <==> NoBlank(t, 0, open)
  {
    var u := [c] + t;
    assert forall k :: 0 <= k < |t| ==> u[k + 1] == t[k];
    if In(open, '{') && NewLine(u, 1, |open| - 1, '}') {
      assert forall k :: 0 < k <= |open| - 1 ==> t[k] == u[k + 1];
      assert NewLine(t, 0, |open| - 1, '}');
    }
    if In(open, '{') && NewLine(t, 0, |open| - 1, '}') {
      assert NewLine(u, 1, |open| - 1, '}');
    }
  }

  /** Inside a literal nothing is asked of a character but that it is no quote. */
  lemma {:induction false} InsideFits(w: string, t: string, open: string)
    requires forall i :: 0 <= i < |w| ==> w[i] != '\"' && w[i] != '\\'
    requires LaidOut(t, Inside, open)
    ensures LaidOut(w + t, Inside, open)
    decreases |w|
  {
    if w == "" {
      assert w + t == t;
    } else {
      InsideFits(w[1..], t, open);
      assert (w + t)[0] == w[0] && (w + t)[1..] == w[1..] + t;
    }
  }

  lemma EscapeCharFits(c: char, t: string, open: string)
    requires LaidOut(t, Inside, open)
    ensures LaidOut(EscapeChar(c) + t, Inside, open)
  {
    hide LaidOut;
    var w := EscapeChar(c);
    if NeedsEscape(c) {
      DigitsAreLetters(c as int / 16 % 16);
      DigitsAreLetters(c as int % 16);
      InsideFits(w[2..], t, open);
      var u := w[2..] + t;
      assert (w + t)[0] == '\\' && (w + t)[1..] == [w[1]] + u && ([w[1]] + u)[1..] == u;
      Unfold([w[1]] + u, Escaped, open);
      Unfold(w + t, Inside, open);
    } else {
      InsideFits(w, t, open);
    }
  }

  lemma {:induction false} EscapeFits(s: string, t: string, open: string)
    requires LaidOut(t, Inside, open)
    ensures LaidOut(Escape(s) + t, Inside, open)
    decreases |s|
  {
    hide LaidOut, EscapeChar;
    if s == "" {
      assert Escape(s) + t == t;
    } else {
      EscapeFits(s[1..], t, open);
      EscapeCharFits(s[0], Escape(s[1..]) + t, open);
      assert Escape(s) + t == EscapeChar(s[0]) + (Escape(s[1..]) + t);
    }
  }

  lemma QuotedFits(s: string, t: string, open: string)
    requires LaidOut(t, Outside, open) && NoBlank(t, 0, open)
    ensures Fits(Quoted(s) + t, open)
  {
    hide LaidOut, Escape, NewLine;
    var end := "\"" + t;
    assert end[1..] == t;
    NoBlankBehind('\"', t, open);
    Unfold(end, Inside, open);
    EscapeFits(s, end, open);
    var all := Quoted(s) + t;
    assert all[0] == '\"' && all[1..] == Escape(s) + end;
    Unfold(all, Outside, open);
  }

  /** One more character in front, outside of literals. */
  lemma OneMore(c: char, t: string, open: string)
    requires Spaced([c] + t, Outside, open) && LaidOut(t, Step(Outside, c), Nest(Outside, open, c))
    ensures LaidOut([c] + t, Outside, open)
  {
    assert ([c] + t)[1..] == t;
  }

  lemma Pop(open: string, c: char)
    requires c in {'[', '{'}
    ensures Nest(Outside, open, c) == open + [c] && In(open + [c], c)
    ensures Nest(Outside, open + [c], if c == '[' then ']' else '}') == open
  {
    assert (open + [c])[..|open|] == open;
  }

  /** A closing bracket in front of text that fits behind the whole value. */
  lemma CloseFits(b: char, t: string, open: string)
    requires b in {'[', '{'} && Fits(t, open)
    ensures Fits([if b == '[' then ']' else '}'] + t, open + [b])
  {
    hide NewLine, LaidOut;
    var c := if b == '[' then ']' else '}';
    Pop(open, b);
    NoBlankBehind(c, t, open);
    OneMore(c, t, open + [b]);
  }

  // ------------------------------------------------------------------ values

  /** Every value starts with a character that is no blank. */
  lemma StartsSolid(j: Json, fmt: bool, d: nat)
    ensures |Text(j, fmt, d)| > 0 && Text(j, fmt, d)[0] > ' '
  {
    if j.Number? {
      SolidNat(if j.value.Floor < 0 then -j.value.Floor else j.value.Floor);
    }
  }

  lemma {:induction false} TextFits(j: Json, t: string, open: string)
    requires Fits(t, open)
    ensures Fits(Text(j, true, |open|) + t, open)
    decreases j, 0
  {
    hide Fits, ItemsText, MembersText, Quoted, NumberText;
    match j
    case Number(r) =>
      NumberWord(r);
      WordFits(NumberText(r), t, open);
    case String(s) =>
      QuotedText(s, t, open);
    case Array(items) =>
      CloseFits('[', t, open);
      ItemsFit(items, "]" + t, open + ['[']);
      OpenArray(ItemsText(items, true, |open| + 1), t, open);
      assert Text(j, true, |open|) + t == "[" + (ItemsText(items, true, |open| + 1) + ("]" + t));
    case Object(ms) =>
      CloseFits('{', t, open);
      MembersFit(ms, "}" + t, open + ['{']);
      var lines := "\n" + MembersText(ms, true, |open| + 1) + (Tabs(|open|) + ("}" + t));
      OpenObject(ms, lines, open);
      ObjectText(ms, |open|, t);
    case _ =>
      WordFits(Text(j, true, |open|), t, open);
  }

  lemma ObjectText(ms: seq<Member>, d: nat, t: string)
    ensures Text(Object(ms), true, d) + t == "{" + ("\n" + MembersText(ms, true, d + 1) + (Tabs(d) + ("}" + t)))
  {
    hide MembersText, Tabs;
    var m := MembersText(ms, true, d + 1);
    assert Text(Object(ms), true, d) == "{\n" + m + (Tabs(d) + "}");
    Regroup("{", "\n", m, Tabs(d), "}", t);
    assert "{" + "\n" == "{\n";
  }

  lemma Regroup(a: string, b: string, c: string, d: string, e: string, f: string)
    ensures a + b + c + (d + e) + f == a + (b + c + (d + (e + f)))
  {
  }

  lemma NumberWord(r: real)
    ensures Word(NumberText(r))
  {
    SolidNat(if r.Floor < 0 then -r.Floor else r.Floor);
  }

  lemma QuotedText(s: string, t: string, open: string)
    requires Fits(t, open)
    ensures Fits(Quoted(s) + t, open)
  {
    QuotedFits(s, t, open);
  }

  lemma OpenArray(items: string, t: string, open: string)
    requires Fits(items + ("]" + t), open + ['['])
    ensures Fits("[" + (items + ("]" + t)), open)
  {
    hide LaidOut, NewLine;
    Pop(open, '[');
    NoBlankBehind('[', items + ("]" + t), open + ['[']);
    OneMore('[', items + ("]" + t), open);
  }

  lemma {:induction false} ItemsFit(items: seq<Json>, t: string, open: string)
    requires Fits(t, open) && In(open, '[')
    ensures Fits(ItemsText(items, true, |open|) + t, open)
    decreases items, 1
  {
    hide Fits, Text, In;
    if items == [] {
      assert ItemsText(items, true, |open|) + t == t;
    } else if |items| == 1 {
      TextFits(items[0], t, open);
    } else {
      var more := ItemsText(items[1..], true, |open|) + t;
      ItemsFit(items[1..], t, open);
      StartsSolid(items[1], true, |open|);
      CommaFits(more, open);
      TextFits(items[0], ", " + more, open);
      assert ItemsText(items, true, |open|) + t == Text(items[0], true, |open|) + (", " + more);
    }
  }

  lemma CommaFits(t: string, open: string)
    requires Fits(t, open) && In(open, '[') && t != "" && t[0] > ' '
    ensures Fits(", " + t, open)
  {
    hide NewLine;
    BlanksFit(" ", t, open);
    OneMore(',', " " + t, open);
    assert ", " + t == [','] + (" " + t);
  }

  // ----------------------------------------------------------------- members

  /** The lines of an object's members, from the line end in front of the first one. */
  lemma {:induction false} MembersFit(ms: seq<Member>, t: string, open: string)
    requires In(open, '{') && Fits(t, open) && t != "" && t[0] == '}'
    ensures Lines(ms, "\n" + MembersText(ms, true, |open|) + (Tabs(|open| - 1) + t), open)
    decreases ms, 1
  {
    hide Fits, MemberEnd, KeyText, Text, NewLine, LaidOut;
    var tail := Tabs(|open| - 1) + t;
    if ms == [] {
      assert "\n" + MembersText(ms, true, |open|) + tail == "\n" + tail;
      LastLine(t, open);
    } else {
      var more := "\n" + MembersText(ms[1..], true, |open|) + tail;
      MembersFit(ms[1..], t, open);
      LineEnds(ms[1..], more, open);
      var end := if |ms| == 1 then "" else ",";
      assert MemberEnd(|ms| == 1, true) == end + "\n" by { Ends(|ms| == 1); }
      TextFits(ms[0].value, end + more, open);
      StartsSolid(ms[0].value, true, |open|);
      var value := Text(ms[0].value, true, |open|) + (end + more);
      FirstLine(ms[0].key, value, open);
      assert "\n" + MembersText(ms, true, |open|) + tail == "\n" + (KeyText(ms[0].key, true, |open|) + value);
    }
  }

  /** Laid out, and either a member or the closing brace starts the line. */
  predicate Lines(ms: seq<Member>, t: string, open: string) {
    open != "" && LaidOut(t, Outside, open)
    && if ms == [] then NewLine(t, 0, |open| - 1, '}') else NewLine(t, 0, |open|, '\"')
  }

  lemma Ends(last: bool)
    ensures MemberEnd(last, true) == (if last then "" else ",") + "\n"
  {
  }

  lemma LastLine(t: string, open: string)
    requires In(open, '{') && Fits(t, open) && t != "" && t[0] == '}'
    ensures Lines([], "\n" + (Tabs(|open| - 1) + t), open)
  {
    hide LaidOut;
    var tabs := Tabs(|open| - 1);
    BlanksFit("\n" + tabs, t, open);
    assert "\n" + tabs + t == "\n" + (tabs + t);
  }

  /** A comma, unless this is the last member, and the lines behind it. */
  lemma LineEnds(ms: seq<Member>, t: string, open: string)
    requires Lines(ms, t, open) && In(open, '{')
    ensures Fits((if ms == [] then "" else ",") + t, open)
  {
    hide LaidOut;
    if ms == [] {
      assert "" + t == t;
    } else {
      var u := [','] + t;
      assert forall k :: 0 <= k < |t| ==> u[k + 1] == t[k];
      assert NewLine(u, 1, |open|, '\"');
      OneMore(',', t, open);
    }
  }

  lemma ColonFits(value: string, open: string)
    requires Fits(value, open) && value != "" && value[0] > ' '
    ensures Fits(":\t" + value, open)
  {
    hide LaidOut;
    BlanksFit("\t", value, open);
    var colon := [':'] + ("\t" + value);
    assert colon[1] == '\t' && colon[2] == value[0];
    OneMore(':', "\t" + value, open);
    assert colon == ":\t" + value;
  }

  lemma FirstLine(key: string, value: string, open: string)
    requires open != "" && Fits(value, open) && value != "" && value[0] > ' '
    ensures var t := "\n" + (KeyText(key, true, |open|) + value);
            LaidOut(t, Outside, open) && NewLine(t, 0, |open|, '\"')
  {
    hide LaidOut, NewLine, Quoted, Tabs;
    var tabs, rest := Tabs(|open|), Quoted(key) + (":\t" + value);
    ColonFits(value, open);
    QuotedText(key, ":\t" + value, open);
    IndentFits(rest, open);
    assert "\n" + (KeyText(key, true, |open|) + value) == "\n" + (tabs + rest);
    assert rest[0] == '\"' by { assert Quoted(key)[0] == '\"' by { StartsSolid(String(key), true, 0); QuoteFirst(key); } }
  }

  lemma QuoteFirst(s: string)
    ensures |Quoted(s)| > 0 && Quoted(s)[0] == '\"'
  {
  }

  lemma IndentFits(t: string, open: string)
    requires Fits(t, open) && t != ""
    ensures var u := "\n" + (Tabs(|open|) + t); LaidOut(u, Outside, open) && NewLine(u, 0, |open|, t[0])
  {
    hide LaidOut;
    var tabs := Tabs(|open|);
    BlanksFit("\n" + tabs, t, open);
    assert "\n" + tabs + t == "\n" + (tabs + t);
  }

  /** `NewLine` looks at the text from its position on. */
  lemma NewLineBehind(c: char, t: string, n: nat, x: char)
    requires NewLine(t, 0, n, x)
    ensures NewLine([c] + t, 1, n, x)
  {
    var u := [c] + t;
    assert forall k :: 0 <= k < |t| ==> u[k + 1] == t[k];
    assert forall k :: 1 < k <= 1 + n ==> u[k] == t[k - 1];
  }

  lemma OpenObject(ms: seq<Member>, lines: string, open: string)
    requires Lines(ms, lines, open + ['{'])
    ensures Fits("{" + lines, open)
  {
    hide LaidOut, NewLine;
    Pop(open, '{');
    NewLineBehind('{', lines, if ms == [] then |open| else |open| + 1, if ms == [] then '}' else '\"');
    OneMore('{', lines, open);
  }

  // ---------------------------------------------------------------- theorems

  lemma {:induction false} LaidOutAt(t: string, q: Place, open: string, i: nat)
    requires LaidOut(t, q, open) && i < |t|
    ensures Spaced(t[i..], PlaceAfter(q, t[..i]), OpenAfter(q, open, t[..i]))
    decreases |t|
  {
    if i == 0 {
      assert t[0..] == t && t[..0] == "";
    } else {
      assert t[..i][0] == t[0] && t[..i][1..] == t[1..][..i - 1] && t[1..][i - 1..] == t[i..];
      LaidOutAt(t[1..], Step(q, t[0]), Nest(q, open, t[0]), i - 1);
    }
  }

  /** Every character of a formatted document has the blanks behind it that `Spaced` gives it. */
  lemma Layout(j: Json, i: nat)
    requires i < |Text(j, true, 0)|
    ensures var t := Text(j, true, 0); Spaced(t[i..], PlaceAfter(Outside, t[..i]), OpenAfter(Outside, "", t[..i]))
  {
    TextFits(j, "", "");
    assert Text(j, true, 0) + "" == Text(j, true, 0);
    LaidOutAt(Text(j, true, 0), Outside, "", i);
  }
}
