/**
 The print buffer: `ensure` reserves room and may move the text to a bigger
 buffer, the print functions write in place behind `offset`, `update_offset`
 measures what was written.  Each print function is proved to leave exactly the
 text of JsonText, and to fail exactly when that text does not fit.
 */
module JsonPrinter {
  import opened JsonNode
  import opened JsonText
  import opened JsonNumber

  // ------------------------------------------------- facts about the text

  lemma {:induction false} NulFreeConcat(a: string, b: string)
    requires NulFree(a) && NulFree(b)
    ensures NulFree(a + b)
  {
  }

  lemma {:induction false} EscapeNulFree(s: string)
    requires NulFree(s)
    ensures NulFree(Escape(s)) && |Escape(s)| >= |s|
  {
    if s != "" {
      EscapeNulFree(s[1..]);
      NulFreeConcat(EscapeChar(s[0]), Escape(s[1..]));
    }
  }

  lemma {:induction false} QuotedNulFree(s: string)
    requires NulFree(s)
    ensures NulFree(Quoted(s))
  {
    EscapeNulFree(s);
    NulFreeConcat("\"", Escape(s));
    NulFreeConcat("\"" + Escape(s), "\"");
  }

  lemma {:induction false} NumberTextNulFree(n: int)
    ensures NulFree(IntText(n)) && IntText(n) != ""
  {
    NatTextReads(if n < 0 then -n else n);
    assert forall c: char :: IsDigit(c) ==> c != NUL;
    assert n < 0 ==> forall k :: 1 <= k < |IntText(n)| ==> IntText(n)[k] == NatText(-n)[k - 1];
  }

  /** Printed text holds no NUL, so `update_offset` measures all of it. */
  lemma {:induction false} TextNulFree(j: Json, fmt: bool, d: nat)
    requires Printable(j)
    ensures NulFree(Text(j, fmt, d)) && Text(j, fmt, d) != ""
    decreases j, 0
  {
    match j
    case Null =>
    case Bool(_) =>
    case Number(r) => NumberTextNulFree(r.Floor);
    case String(s) => QuotedNulFree(s);
    case Array(items) =>
      ItemsTextNulFree(items, fmt, d + 1);
      NulFreeConcat("[", ItemsText(items, fmt, d + 1));
      NulFreeConcat("[" + ItemsText(items, fmt, d + 1), "]");
    case Object(ms) =>
      MembersTextNulFree(ms, fmt, d + 1);
      var open, close := if fmt then "{\n" else "{", if fmt then Tabs(d) + "}" else "}";
      NulFreeConcat(open, MembersText(ms, fmt, d + 1));
      NulFreeConcat(open + MembersText(ms, fmt, d + 1), close);
  }

  lemma {:induction false} ItemsTextNulFree(items: seq<Json>, fmt: bool, d: nat)
    requires forall i :: 0 <= i < |items| ==> Printable(items[i])
    ensures NulFree(ItemsText(items, fmt, d))
    decreases items, 1
  {
    hide Text;
    if items != [] {
      TextNulFree(items[0], fmt, d);
      ItemsTextNulFree(items[1..], fmt, d);
      NulFreeConcat(Text(items[0], fmt, d), ItemSeparator(fmt));
      NulFreeConcat(Text(items[0], fmt, d) + ItemSeparator(fmt), ItemsText(items[1..], fmt, d));
    }
  }

  lemma {:induction false} KeyTextNulFree(key: string, fmt: bool, d: nat)
    requires NulFree(key)
    ensures NulFree(KeyText(key, fmt, d))
  {
    hide Quoted;
    QuotedNulFree(key);
    var indent, colon := if fmt then Tabs(d) else "", if fmt then ":\t" else ":";
    NulFreeConcat(indent, Quoted(key));
    NulFreeConcat(indent + Quoted(key), colon);
  }

  lemma {:induction false} MembersTextNulFree(ms: seq<Member>, fmt: bool, d: nat)
    requires forall i :: 0 <= i < |ms| ==> NulFree(ms[i].key) && Printable(ms[i].value)
    ensures NulFree(MembersText(ms, fmt, d))
    decreases ms, 1
  {
    hide Text, KeyText;
    if ms != [] {
      var k, v, e := KeyText(ms[0].key, fmt, d), Text(ms[0].value, fmt, d), MemberEnd(|ms| == 1, fmt);
      KeyTextNulFree(ms[0].key, fmt, d);
      TextNulFree(ms[0].value, fmt, d);
      MembersTextNulFree(ms[1..], fmt, d);
      NulFreeConcat(k, v);
      NulFreeConcat(k + v, e);
      NulFreeConcat(k + v + e, MembersText(ms[1..], fmt, d));
    }
  }

  // ------------------------------------------------------------- the buffer

  class PrintBuffer {
    var buffer: array<char>
    var offset: nat
    var depth: nat
    const noalloc: bool
    const format: bool

    /** The `length` of the source is `buffer.Length` here. */
    predicate InRange()
      reads this`buffer, this`offset
    {
      offset <= buffer.Length <= INT_MAX
    }

    /** The check that `ensure` makes first. */
    predicate Valid()
      reads this`buffer, this`offset
    {
      InRange() && (buffer.Length > 0 ==> offset < buffer.Length)
    }

    /** How many bytes the buffer can ever have. */
    function Capacity(): nat
      reads this`buffer
    {
      if noalloc then buffer.Length else INT_MAX
    }

    /** The text printed so far. */
    function Written(): string
      reads this`buffer, this`offset, buffer
      requires InRange()
    {
      buffer[..offset]
    }

    /** Behind `before` stands `t` with its terminator; `offset` is somewhere in `t`. */
    ghost predicate Shows(before: string, t: string)
      reads this`buffer, this`offset, buffer
    {
      && |before| + |t| < buffer.Length
      && buffer[..|before| + |t|] == before + t
      && buffer[|before| + |t|] == NUL
      && |before| <= offset <= |before| + |t|
    }

    constructor (storage: array<char>, noalloc: bool, format: bool)
      requires storage.Length <= INT_MAX
      ensures Valid() && buffer == storage && offset == 0 && depth == 0
      ensures this.noalloc == noalloc && this.format == format
    {
      buffer, offset, depth := storage, 0, 0;
      this.noalloc, this.format := noalloc, format;
    }

    /** Reserves `needed` bytes and a terminator; fails exactly when they cannot be had. */
    method Ensure(needed: nat) returns (ok: bool)
      requires InRange()
      modifies this`buffer
      ensures InRange() && Capacity() == old(Capacity()) && (buffer == old(buffer) || (fresh(buffer) && !noalloc))
      ensures ok <==> old(Valid()) && offset + needed + 1 <= Capacity()
      ensures ok ==> Valid() && offset + needed + 1 <= buffer.Length
      ensures !ok ==> buffer == old(buffer)
      ensures Written() == old(Written())
    {
      if buffer.Length > 0 && offset >= buffer.Length {
        return false;
      }
      if needed > INT_MAX {
        return false;
      }
      var total := needed + offset + 1;
      if total <= buffer.Length {
        return true;
      }
      if noalloc {
        return false;
      }
      var newsize;
      if total > INT_MAX / 2 {
        if total <= INT_MAX {
          newsize := INT_MAX;
        } else {
          return false;
        }
      } else {
        newsize := total * 2;
      }
      var newbuffer := new char[newsize];
      forall i | 0 <= i < buffer.Length {
        newbuffer[i] := buffer[i];
      }
      assert newbuffer[..offset] == buffer[..offset];
      buffer := newbuffer;
      ok := true;
    }

    /** Writes `t` at position `at`, as `memcpy` and the pointer writes of the source do. */
    method Put(at: nat, t: string)
      requires at + |t| <= buffer.Length
      modifies buffer
      ensures buffer[..at + |t|] == old(buffer[..at]) + t
      ensures forall i :: at + |t| <= i < buffer.Length ==> buffer[i] == old(buffer[i])
    {
      var i := 0;
      while i < |t|
        invariant 0 <= i <= |t|
        invariant buffer[..at + i] == old(buffer[..at]) + t[..i]
        invariant forall k :: at + i <= k < buffer.Length ==> buffer[k] == old(buffer[k])
      {
        buffer[at + i] := t[i];
        assert buffer[..at + i + 1] == buffer[..at + i] + [t[i]];
        i := i + 1;
      }
      assert t[..i] == t;
    }

    /** `strcpy`: text and terminator behind the offset, which stays. */
    method CopyString(t: string)
      requires Valid() && offset + |t| < buffer.Length
      modifies buffer
      ensures Shows(old(Written()), t)
    {
      Put(offset, t + [NUL]);
      assert buffer[..offset + |t|] == buffer[..offset + |t| + 1][..offset + |t|];
      assert buffer[offset + |t|] == buffer[..offset + |t| + 1][offset + |t|];
    }

    /** Writes text and moves the offset behind it. */
    method Emit(t: string)
      requires Valid() && offset + |t| < buffer.Length
      modifies buffer, this`offset
      ensures Valid() && offset == old(offset) + |t|
      ensures Written() == old(Written()) + t
    {
      Put(offset, t);
      offset := offset + |t|;
    }

    /** `ensure` followed by writing `t`, with or without a terminator. */
    method Append(needed: nat, t: string, terminate: bool) returns (ok: bool)
      requires Valid() && |t| + (if terminate then 1 else 0) <= needed
      modifies this`buffer, this`offset, buffer
      ensures Valid() && Capacity() == old(Capacity()) && (buffer == old(buffer) || (fresh(buffer) && !noalloc))
      ensures ok <==> old(offset) + needed + 1 <= Capacity()
      ensures ok ==> Written() == old(Written()) + t && offset == old(offset) + |t|
    {
      ok := Ensure(needed);
      if ok {
        Emit(t);
        if terminate {
          buffer[offset] := NUL;
        }
      }
    }

    /** `update_offset`: moves the offset to the terminator. */
    method UpdateOffset(ghost before: string, ghost t: string)
      requires Valid() && Shows(before, t) && NulFree(t)
      modifies this`offset
      ensures Valid() && offset == |before| + |t|
      ensures Written() == before + t
    {
      ghost var end := |before| + |t|;
      forall i | |before| <= i < end
        ensures buffer[i] != NUL
      {
        assert buffer[i] == (before + t)[i] == t[i - |before|];
      }
      while buffer[offset] != NUL
        invariant |before| <= offset <= end < buffer.Length
        decreases end - offset
      {
        offset := offset + 1;
      }
    }

    // ------------------------------------------------------- print functions

    /** `print_number` for a number that takes the "%d" branch. */
    method PrintNumber(r: real) returns (ok: bool)
      requires Valid() && IsInt(r)
      modifies this, buffer
      ensures Valid() && Capacity() == old(Capacity()) && (buffer == old(buffer) || (fresh(buffer) && !noalloc))
      ensures ok <==> old(offset) + |NumberText(r)| + 2 <= Capacity()
      ensures depth == old(depth) && (ok ==> Shows(old(Written()), NumberText(r)))
    {
      PrintedAsInteger(r);
      var text := IntText(ValueInt(r));
      hide IntText;
      ok := Ensure(|text| + 1);
      if ok {
        CopyString(text);
        offset := offset + |text|;
      }
    }

    /** The first loop of `print_string_ptr`. */
    static method CountEscapes(input: string) returns (extra: nat)
      requires NulFree(input)
      ensures |Escape(input)| == |input| + extra
      ensures extra == 0 ==> Escape(input) == input
    {
      hide Escape, EscapeChar, NulFree;
      extra := 0;
      var i := 0;
      assert input[0..] == input;
      while i < |input|
        invariant 0 <= i <= |input|
        invariant |Escape(input)| == i + extra + |Escape(input[i..])|
        invariant extra == 0 ==> Escape(input) == input[..i] + Escape(input[i..])
      {
        EscapeUnfolds(input, i);
        if ShortEscape(input[i]) != NUL {
          extra := extra + 1;
        } else if input[i] < ' ' {
          extra := extra + 5;
        }
        assert input[..i] + [input[i]] == input[..i + 1];
        i := i + 1;
      }
      assert input[i..] == "" && input[..i] == input;
      EscapeEmpty();
    }

    /** `print_string_ptr`: sizes the escaped text, then writes it between quotes. */
    method PrintString(input: string) returns (ok: bool)
      requires Valid() && NulFree(input)
      modifies this, buffer
      ensures Valid() && Capacity() == old(Capacity()) && (buffer == old(buffer) || (fresh(buffer) && !noalloc))
      ensures ok <==> old(offset) + |Quoted(input)| + 2 <= Capacity()
      ensures depth == old(depth) && offset == old(offset) && (ok ==> Shows(old(Written()), Quoted(input)))
    {
      hide Escape, Shows, Written;
      var extra := CountEscapes(input);
      ok := Ensure(|input| + extra + 3);
      if ok {
        PutQuoted(input, extra);
      }
    }

    /** Opening quote, body with or without escapes, closing quote and terminator. */
    method PutQuoted(input: string, extra: nat)
      requires Valid() && |Escape(input)| == |input| + extra && (extra == 0 ==> Escape(input) == input)
      requires offset + |input| + extra + 3 <= buffer.Length
      modifies buffer
      ensures Shows(old(Written()), Quoted(input))
    {
      hide Escape;
      var length := |input| + extra;
      ghost var before := Written();
      Put(offset, "\"");
      if extra == 0 {
        Put(offset + 1, input);
      } else {
        PutEscaped(offset + 1, input);
      }
      Put(offset + 1 + length, ['\"', NUL]);
      Terminate(before, input);
    }

    lemma Terminate(before: string, input: string)
      requires InRange() && |before| == offset && offset + |Escape(input)| + 2 < buffer.Length
      requires buffer[..offset + |Escape(input)| + 3] == before + "\"" + Escape(input) + ['\"', NUL]
      ensures Shows(before, Quoted(input))
    {
      hide Escape;
      var t := Quoted(input);
      assert before + "\"" + Escape(input) + ['\"', NUL] == before + t + [NUL];
      assert buffer[..offset + |t|] == buffer[..offset + |t| + 1][..offset + |t|];
      assert buffer[offset + |t|] == buffer[..offset + |t| + 1][offset + |t|];
    }

    /** The second loop of `print_string_ptr`. */
    method PutEscaped(at: nat, input: string)
      requires at + |Escape(input)| <= buffer.Length
      modifies buffer
      ensures buffer[..at + |Escape(input)|] == old(buffer[..at]) + Escape(input)
    {
      hide Escape;
      var pos, i := at, 0;
      assert input[0..] == input;
      while i < |input|
        invariant 0 <= i <= |input| && at <= pos
        invariant pos + |Escape(input[i..])| == at + |Escape(input)|
        invariant buffer[..pos] + Escape(input[i..]) == old(buffer[..at]) + Escape(input)
      {
        EscapeUnfolds(input, i);
        var c := input[i];
        ghost var start := buffer[..pos];
        if c > '\U{1f}' && c != '\"' && c != '\\' {
          Put(pos, [c]);
          pos := pos + 1;
        } else if ShortEscape(c) != NUL {
          Put(pos, ['\\', ShortEscape(c)]);
          pos := pos + 2;
        } else {
          Put(pos, ['\\', 'u', '0', '0', DigitChar(c as int / 16), DigitChar(c as int % 16)]);
          pos := pos + 6;
        }
        assert buffer[..pos] == start + EscapeChar(c);
        assert start + (EscapeChar(c) + Escape(input[i + 1..])) == buffer[..pos] + Escape(input[i + 1..]);
        i := i + 1;
      }
      assert input[i..] == "";
      EscapeEmpty();
    }

    method PrintLiteral(t: string) returns (ok: bool)
      requires Valid()
      modifies this, buffer
      ensures Valid() && Capacity() == old(Capacity()) && (buffer == old(buffer) || (fresh(buffer) && !noalloc))
      ensures ok <==> old(offset) + |t| + 2 <= Capacity()
      ensures depth == old(depth) && (ok ==> Shows(old(Written()), t))
    {
      ok := Ensure(|t| + 1);
      if ok {
        CopyString(t);
      }
    }

    /** `print_value`: succeeds exactly when text, terminator and one spare byte fit. */
    method PrintValue(item: Node) returns (ok: bool)
      requires Valid() && item.IsTree() && Printable(item.tree)
      modifies this, buffer
      ensures Valid() && Capacity() == old(Capacity()) && (buffer == old(buffer) || (fresh(buffer) && !noalloc))
      ensures ok <==> old(offset) + |Text(item.tree, format, old(depth))| + 2 <= Capacity()
      ensures ok ==> depth == old(depth) && Shows(old(Written()), Text(item.tree, format, old(depth)))
      decreases item.below, 3
    {
      hide ItemsText, MembersText, Quoted, NumberText, Node.IsTree;
      KindAndTree(item);
      match item.kind
      case NullKind => ok := PrintLiteral("null");
      case BoolKind(b) =>
        if b {
          ok := PrintLiteral("true");
        } else {
          ok := PrintLiteral("false");
        }
      case NumberKind(r) => ok := PrintNumber(r);
      case StringKind(s) => ok := PrintString(s);
      case ArrayKind => ok := PrintArray(item);
      case ObjectKind => ok := PrintObject(item);
    }

    /** `print_value` followed by `update_offset`. */
    method PrintMeasured(item: Node) returns (ok: bool)
      requires Valid() && item.IsTree() && Printable(item.tree)
      modifies this, buffer
      ensures Valid() && Capacity() == old(Capacity()) && (buffer == old(buffer) || (fresh(buffer) && !noalloc))
      ensures ok <==> old(offset) + |Text(item.tree, format, old(depth))| + 2 <= Capacity()
      ensures ok ==> depth == old(depth) && Written() == old(Written()) + Text(item.tree, format, depth)
      ensures ok ==> offset == old(offset) + |Text(item.tree, format, depth)|
      decreases item.below, 4
    {
      hide Text, Printable, NulFree, Node.IsTree;
      ghost var w, t := Written(), Text(item.tree, format, depth);
      ok := PrintValue(item);
      if ok {
        TextNulFree(item.tree, format, depth);
        UpdateOffset(w, t);
      }
    }

    /** Reserves `needed` bytes and writes the closing text `t` behind `head`, leaving the offset. */
    method Close(needed: nat, t: string, ghost before: string, ghost head: string) returns (ok: bool)
      requires Valid() && Written() == before + head && |t| + 1 <= needed
      modifies this`buffer, buffer
      ensures Valid() && Capacity() == old(Capacity()) && (buffer == old(buffer) || (fresh(buffer) && !noalloc))
      ensures ok <==> offset + needed + 1 <= Capacity()
      ensures ok ==> Shows(before, head + t)
    {
      ok := Ensure(needed);
      if ok {
        CopyString(t);
        assert before + head + t == before + (head + t);
      }
    }

    /** The loop of `print_array`, along the chain of children. */
    method PrintItems(item: Node) returns (ok: bool)
      requires Valid() && item.IsTree() && item.tree.Array? && Printable(item.tree)
      modifies this, buffer
      ensures Valid() && Capacity() == old(Capacity()) && (buffer == old(buffer) || (fresh(buffer) && !noalloc))
      ensures !ok ==> old(offset) + |ItemsText(item.tree.items, format, old(depth))| + 2 > Capacity()
      ensures ok ==> depth == old(depth) && Written() == old(Written()) + ItemsText(item.tree.items, format, depth)
      ensures ok ==> offset == old(offset) + |ItemsText(item.tree.items, format, depth)|
      decreases item.below, 1
    {
      hide Text, ItemsText, Printable, Written, Node.IsTree;
      ghost var items := item.tree.items;
      ghost var whole := ItemsText(items, format, depth);
      FirstKid(item);
      var element := item.child;
      ghost var i := 0;
      assert items[0..] == items;
      while element != null
        invariant 0 <= i <= |items| == |item.kids| && element == if i < |items| then item.kids[i] else null
        invariant Valid() && Capacity() == old(Capacity()) && (buffer == old(buffer) || (fresh(buffer) && !noalloc))
        invariant depth == old(depth)
        invariant offset + |ItemsText(items[i..], format, depth)| == old(offset) + |whole|
        invariant Written() + ItemsText(items[i..], format, depth) == old(Written()) + whole
        decreases |items| - i
      {
        ghost var w := Written();
        ghost var t, sep := Text(items[i], format, depth), ItemSeparator(format);
        ItemsUnfold(items, i, format, depth);
        KidOfArray(item, i);
        ok := PrintMeasured(element);
        if !ok {
          return;
        }
        if element.next != null {
          ok := Append(|ItemSeparator(format)| + 1, ItemSeparator(format), true);
          if !ok {
            return;
          }
          assert w + (t + sep + ItemsText(items[i + 1..], format, depth)) == w + t + sep + ItemsText(items[i + 1..], format, depth);
        }
        element := element.next;
        i := i + 1;
      }
      ok := true;
      assert items[i..] == [];
      EmptyText(format, depth);
    }

    /** `print_array`. */
    method PrintArray(item: Node) returns (ok: bool)
      requires Valid() && item.IsTree() && item.tree.Array? && Printable(item.tree)
      modifies this, buffer
      ensures Valid() && Capacity() == old(Capacity()) && (buffer == old(buffer) || (fresh(buffer) && !noalloc))
      ensures ok <==> old(offset) + |Text(item.tree, format, old(depth))| + 2 <= Capacity()
      ensures ok ==> depth == old(depth) && Shows(old(Written()), Text(item.tree, format, old(depth)))
      decreases item.below, 2
    {
      hide ItemsText, Printable, Shows, Written, Node.IsTree;
      ghost var before, body := Written(), ItemsText(item.tree.items, format, depth + 1);
      ok := Append(1, "[", false);
      if !ok {
        return;
      }
      depth := depth + 1;
      ok := PrintItems(item);
      if !ok {
        return;
      }
      assert before + "[" + body == before + ("[" + body);
      ok := Close(2, "]", before, "[" + body);
      if ok {
        depth := depth - 1;
      }
    }

    /** `print_string_ptr` followed by `update_offset`. */
    method PrintStringMeasured(input: string) returns (ok: bool)
      requires Valid() && NulFree(input)
      modifies this, buffer
      ensures Valid() && Capacity() == old(Capacity()) && (buffer == old(buffer) || (fresh(buffer) && !noalloc))
      ensures ok <==> old(offset) + |Quoted(input)| + 2 <= Capacity()
      ensures depth == old(depth) && (ok ==> Written() == old(Written()) + Quoted(input))
      ensures ok ==> offset == old(offset) + |Quoted(input)|
    {
      hide Quoted, NulFree;
      ghost var w := Written();
      ok := PrintString(input);
      if ok {
        QuotedNulFree(input);
        UpdateOffset(w, Quoted(input));
      }
    }

    /** Indentation, key and colon of a member. */
    method PrintKey(key: string) returns (ok: bool)
      requires Valid() && NulFree(key)
      modifies this, buffer
      ensures Valid() && Capacity() == old(Capacity()) && (buffer == old(buffer) || (fresh(buffer) && !noalloc))
      ensures ok ==> offset == old(offset) + |KeyText(key, format, depth)|
      ensures !ok ==> old(offset) + |KeyText(key, format, depth)| + 2 > Capacity()
      ensures depth == old(depth) && (ok ==> Written() == old(Written()) + KeyText(key, format, depth))
    {
      hide Quoted, NulFree, Written;
      if format {
        ok := Append(depth, Tabs(depth), false);
        if !ok {
          return;
        }
      }
      ok := PrintStringMeasured(key);
      if !ok {
        return;
      }
      var colon := if format then ":\t" else ":";
      ok := Append(|colon|, colon, false);
    }

    /** One turn of the loop of `print_object`. */
    method PrintMember(item: Node, last: bool) returns (ok: bool)
      requires Valid() && NulFree(item.name) && item.IsTree() && Printable(item.tree)
      modifies this, buffer
      ensures Valid() && Capacity() == old(Capacity()) && (buffer == old(buffer) || (fresh(buffer) && !noalloc))
      ensures ok <==> old(offset) + |MemberText(Member(item.name, item.tree), last, format, old(depth))| + 2 <= Capacity()
      ensures ok ==> depth == old(depth)
      ensures ok ==> Written() == old(Written()) + MemberText(Member(item.name, item.tree), last, format, depth)
      ensures ok ==> offset == old(offset) + |MemberText(Member(item.name, item.tree), last, format, depth)|
      decreases item.below, 5
    {
      hide Text, KeyText, Printable, NulFree, Written, MemberEnd, Node.IsTree;
      ok := PrintKey(item.name);
      if !ok {
        return;
      }
      ok := PrintMeasured(item);
      if !ok {
        return;
      }
      var end := MemberEnd(last, format);
      ok := Append(|end| + 1, end, true);
    }

    /** The loop of `print_object`, along the chain of children. */
    method PrintMembers(item: Node) returns (ok: bool)
      requires Valid() && item.IsTree() && item.tree.Object? && Printable(item.tree)
      modifies this, buffer
      ensures Valid() && Capacity() == old(Capacity()) && (buffer == old(buffer) || (fresh(buffer) && !noalloc))
      ensures !ok ==> old(offset) + |MembersText(item.tree.members, format, old(depth))| + 2 > Capacity()
      ensures ok ==> depth == old(depth) && Written() == old(Written()) + MembersText(item.tree.members, format, depth)
      ensures ok ==> offset == old(offset) + |MembersText(item.tree.members, format, depth)|
      decreases item.below, 1
    {
      hide MemberText, MembersText, Printable, NulFree, Written, Node.IsTree;
      ghost var ms := item.tree.members;
      ghost var whole := MembersText(ms, format, depth);
      FirstKid(item);
      var element := item.child;
      ghost var i := 0;
      assert ms[0..] == ms;
      while element != null
        invariant 0 <= i <= |ms| == |item.kids| && element == if i < |ms| then item.kids[i] else null
        invariant Valid() && Capacity() == old(Capacity()) && (buffer == old(buffer) || (fresh(buffer) && !noalloc))
        invariant depth == old(depth)
        invariant offset + |MembersText(ms[i..], format, depth)| == old(offset) + |whole|
        invariant Written() + MembersText(ms[i..], format, depth) == old(Written()) + whole
        decreases |ms| - i
      {
        MembersUnfold(ms, i, format, depth);
        KidOfObject(item, i);
        ok := PrintMember(element, element.next == null);
        if !ok {
          return;
        }
        element := element.next;
        i := i + 1;
      }
      ok := true;
      assert ms[i..] == [];
      EmptyText(format, depth);
    }

    /** `print_object`. */
    method PrintObject(item: Node) returns (ok: bool)
      requires Valid() && item.IsTree() && item.tree.Object? && Printable(item.tree)
      modifies this, buffer
      ensures Valid() && Capacity() == old(Capacity()) && (buffer == old(buffer) || (fresh(buffer) && !noalloc))
      ensures ok <==> old(offset) + |Text(item.tree, format, old(depth))| + 2 <= Capacity()
      ensures ok ==> depth == old(depth) && Shows(old(Written()), Text(item.tree, format, old(depth)))
      decreases item.below, 2
    {
      hide MembersText, Printable, NulFree, Shows, Written, Node.IsTree;
      ghost var before, body := Written(), MembersText(item.tree.members, format, depth + 1);
      var open := if format then "{\n" else "{";
      ok := Append(|open| + 1, open, false);
      if !ok {
        return;
      }
      depth := depth + 1;
      ok := PrintMembers(item);
      if !ok {
        return;
      }
      assert before + open + body == before + (open + body);
      ok := Close(if format then depth + 1 else 2, if format then Tabs(depth - 1) + "}" else "}", before, open + body);
      if ok {
        depth := depth - 1;
      }
    }
  }

  // -------------------------------------------------- the items that are printed

  lemma KidOfArray(item: Node, i: nat)
    requires item.IsTree() && item.tree.Array? && Printable(item.tree) && i < |item.kids|
    ensures i < |item.tree.items| && item.kids[i].tree == item.tree.items[i] && Printable(item.kids[i].tree)
    ensures item.kids[i].IsTree() && item.kids[i].below < item.below
    ensures item.kids[i].next == if i + 1 < |item.kids| then item.kids[i + 1] else null
  {
    hide Node.IsTree;
    ArrayKid(item, i);
  }

  lemma KidOfObject(item: Node, i: nat)
    requires item.IsTree() && item.tree.Object? && Printable(item.tree) && i < |item.kids|
    ensures i < |item.tree.members| && Member(item.kids[i].name, item.kids[i].tree) == item.tree.members[i]
    ensures NulFree(item.kids[i].name) && Printable(item.kids[i].tree)
    ensures item.kids[i].IsTree() && item.kids[i].below < item.below
    ensures item.kids[i].next == if i + 1 < |item.kids| then item.kids[i + 1] else null
  {
    hide Node.IsTree;
    ObjectKid(item, i);
  }

  lemma EscapeEmpty()
    ensures Escape("") == ""
  {
  }

  lemma {:induction false} EscapeUnfolds(s: string, i: nat)
    requires i < |s|
    ensures Escape(s[i..]) == EscapeChar(s[i]) + Escape(s[i + 1..])
    ensures |EscapeChar(s[i])| == if ShortEscape(s[i]) != NUL then 2 else if s[i] < ' ' then 6 else 1
    ensures ShortEscape(s[i]) == NUL && s[i] >= ' ' ==> EscapeChar(s[i]) == [s[i]]
  {
    assert s[i..][1..] == s[i + 1..];
  }

  lemma {:induction false} ItemsUnfold(items: seq<Json>, i: nat, fmt: bool, d: nat)
    requires i < |items|
    ensures ItemsText(items[i..], fmt, d)
            == Text(items[i], fmt, d)
               + (if i + 1 < |items| then ItemSeparator(fmt) else "") + ItemsText(items[i + 1..], fmt, d)
  {
    hide Text;
    assert items[i..][1..] == items[i + 1..];
  }

  function MemberText(m: Member, last: bool, fmt: bool, d: nat): string {
    KeyText(m.key, fmt, d) + Text(m.value, fmt, d) + MemberEnd(last, fmt)
  }

  lemma {:induction false} MembersUnfold(ms: seq<Member>, i: nat, fmt: bool, d: nat)
    requires i < |ms|
    ensures MembersText(ms[i..], fmt, d) == MemberText(ms[i], i + 1 == |ms|, fmt, d) + MembersText(ms[i + 1..], fmt, d)
  {
    hide Text, KeyText;
    assert ms[i..][1..] == ms[i + 1..];
  }

  // ---------------------------------------------------------- entry points

  /** `cJSON_Print` and `cJSON_PrintUnformatted`: the text and its terminator, nothing else. */
  method Print(item: Node, format: bool) returns (ok: bool, printed: array<char>)
    requires item.IsTree() && Printable(item.tree)
    ensures ok <==> |Text(item.tree, format, 0)| + 2 <= INT_MAX
    ensures fresh(printed) && (ok ==> printed[..] == Text(item.tree, format, 0) + [NUL])
  {
    hide Text, Printable, Node.IsTree;
    var storage := new char[256];
    var p := new PrintBuffer(storage, false, format);
    ok := p.PrintValue(item);
    printed := p.buffer;
    if ok {
      TextNulFree(item.tree, format, 0);
      p.UpdateOffset("", Text(item.tree, format, 0));
      printed := new char[p.offset + 1];
      forall i | 0 <= i <= p.offset {
        printed[i] := p.buffer[i];
      }
      assert p.Written() == "" + Text(item.tree, format, 0) == Text(item.tree, format, 0);
      assert forall i :: 0 <= i < p.offset ==> printed[i] == p.Written()[i];
    }
  }

  /** `cJSON_PrintBuffered`: starts from a buffer of a size that the caller guesses. */
  method PrintBuffered(item: Node, prebuffer: int, format: bool) returns (ok: bool, printed: array<char>)
    requires item.IsTree() && Printable(item.tree) && prebuffer <= INT_MAX
    ensures ok <==> prebuffer >= 0 && |Text(item.tree, format, 0)| + 2 <= INT_MAX
    ensures fresh(printed)
    ensures ok ==> |Text(item.tree, format, 0)| < printed.Length && printed[..|Text(item.tree, format, 0)| + 1] == Text(item.tree, format, 0) + [NUL]
  {
    hide Text, Printable, Node.IsTree;
    if prebuffer < 0 {
      return false, new char[0];
    }
    var storage := new char[prebuffer];
    var p := new PrintBuffer(storage, false, format);
    ok := p.PrintValue(item);
    printed := p.buffer;
    if ok {
      ShownFromStart(p, Text(item.tree, format, 0));
    }
  }

  lemma ShownFromStart(p: PrintBuffer, t: string)
    requires p.Shows("", t)
    ensures p.buffer[..|t| + 1] == t + [NUL]
  {
    assert "" + t == t;
    assert p.buffer[..|t| + 1] == p.buffer[..|t|] + [p.buffer[|t|]];
  }

  /**
   `cJSON_PrintPreallocated`: works in the caller's buffer.  The header asks for
   five spare bytes; two are enough, and with fewer it fails.
   */
  method PrintPreallocated(item: Node, storage: array<char>, format: bool) returns (ok: bool)
    requires item.IsTree() && Printable(item.tree) && storage.Length <= INT_MAX
    modifies storage
    ensures ok <==> |Text(item.tree, format, 0)| + 2 <= storage.Length
    ensures ok ==> storage[..|Text(item.tree, format, 0)| + 1] == Text(item.tree, format, 0) + [NUL]
  {
    hide Text, Printable, Node.IsTree;
    var p := new PrintBuffer(storage, true, format);
    ok := p.PrintValue(item);
    if ok {
      ShownFromStart(p, Text(item.tree, format, 0));
    }
  }
}
