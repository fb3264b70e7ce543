/**
 The parse buffer: `offset` and `depth` move in place while the parse functions
 run, and what they find is linked into a tree of new items.  Every method is
 proved against the function of JsonParser that says what it yields; every read
 of the buffer is in range.
 */
module JsonParseBuffer {
  import opened JsonNode
  import opened JsonText
  import opened JsonNumber
  import opened JsonString
  import opened JsonParser
  import opened Utf8

  /** First pass of `parse_string`. */
  method ScanString(s: string, start: nat) returns (closed: bool, end: nat, skipped: nat)
    requires start <= |s|
    ensures closed <==> Scan(s, start).Closed?
    ensures closed ==> Scan(s, start) == Closed(end, skipped)
  {
    end, skipped := start, 0;
    while end < |s| && s[end] != '\"'
      invariant start <= end <= |s|
      invariant Scan(s, start) == match Scan(s, end) { case Unterminated => Unterminated case Closed(e, k) => Closed(e, skipped + k) }
      decreases |s| - end
    {
      if s[end] == '\\' {
        if end + 1 >= |s| {
          return false, end, skipped;
        }
        skipped := skipped + 1;
        end := end + 1;
      }
      end := end + 1;
    }
    closed := end < |s|;
  }

  lemma {:induction false} EncodePeels(cp: nat, length: nat, mark: nat, tail: string)
    requires 1 <= length <= 4
    ensures length > 1 ==> Encode(cp, length, mark) + tail
                           == Encode(cp / 64, length - 1, mark) + ([(0x80 + cp % 64) as char] + tail)
    ensures Encode(cp, 1, mark) == [((cp + mark) % 256) as char]
  {
  }

  /** The loop of `utf16_literal_to_utf8` that writes the bytes from right to left. */
  method EncodeInto(out: array<char>, at: nat, codePoint: nat) returns (length: nat)
    requires codePoint <= MAX_CODE_POINT
    requires at + Utf8Length(codePoint) <= out.Length
    modifies out
    ensures length == Utf8Length(codePoint) == |Utf8Bytes(codePoint)|
    ensures out[at..at + length] == Utf8Bytes(codePoint)
    ensures out[..at] == old(out[..at])
  {
    Utf8BytesAreForm(codePoint);
    length := Utf8Length(codePoint);
    var mark := FirstByteMark(length);
    var rest := codePoint;
    var position := length - 1;
    assert Encode(rest, length, mark) == Utf8Bytes(codePoint);
    hide Utf8Bytes, Utf8Length, FirstByteMark, Encode;
    while position > 0
      invariant 0 <= position < length
      invariant Encode(rest, position + 1, mark) + out[at + position + 1..at + length] == Utf8Bytes(codePoint)
      invariant out[..at] == old(out[..at])
    {
      ghost var tail := out[at + position + 1..at + length];
      EncodePeels(rest, position + 1, mark, tail);
      out[at + position] := (0x80 + rest % 64) as char;
      assert out[at + position..at + length] == [(0x80 + rest % 64) as char] + tail;
      rest := rest / 64;
      position := position - 1;
    }
    ghost var tail := out[at + 1..at + length];
    EncodePeels(rest, 1, mark, tail);
    out[at] := ((rest + mark) % 256) as char;
    assert out[at..at + length] == [((rest + mark) % 256) as char] + tail;
  }

  /** One turn of the decode loop. */
  method StepInto(s: string, at: nat, end: nat, out: array<char>, written: nat) returns (used: nat, next: nat)
    requires at < end < |s| && written <= out.Length
    requires DecodeStep(s, at, end).used > 0 ==> written + |DecodeStep(s, at, end).bytes| <= out.Length
    modifies out
    ensures used == DecodeStep(s, at, end).used
    ensures used > 0 ==> next == written + |DecodeStep(s, at, end).bytes|
    ensures used > 0 ==> out[..next] == old(out[..written]) + DecodeStep(s, at, end).bytes
  {
    used, next := 2, written;
    if s[at] != '\\' {
      out[next] := s[at];
      next, used := next + 1, 1;
    } else if s[at + 1] == 'u' {
      var l := ReadLiteral(s, at, end);
      used := l.used;
      if used != 0 {
        Utf8BytesAreForm(l.codePoint);
        hide *;
        var length := EncodeInto(out, written, l.codePoint);
        next := written + length;
        assert out[..next] == out[..written] + out[written..next];
      }
    } else if Unescaped(s[at + 1]) != NUL {
      out[next] := Unescaped(s[at + 1]);
      next := next + 1;
    } else {
      used := 0;
    }
  }

  /**
   Second pass of `parse_string`: fills `out`, which has the size that the scan
   pass computed.  No write is out of range, whether or not the pass succeeds.
   */
  method DecodeInto(s: string, start: nat, end: nat, out: array<char>) returns (ok: bool, at: nat, written: nat)
    requires start <= end < |s| && Scan(s, start).Closed? && Scan(s, start).end == end
    requires out.Length == (end - (start - 1)) - Scan(s, start).skipped + 1
    modifies out
    ensures ok <==> Decode(s, start, end).Bytes?
    ensures ok ==> written < out.Length && out[..written] == Decode(s, start, end).text && out[written] == NUL
    ensures !ok ==> Decode(s, start, end) == Bad(at)
  {
    hide Scan, Budget, InStep, DecodeStep, Decode;
    at, written := start, 0;
    ghost var a := start;
    DecodeStarts(s, start, end);
    while at < end
      invariant start <= at <= end + 1 && 0 <= written < out.Length - 1
      invariant at <= end ==> InStep(s, at, a, end) && written + Budget(s, at, a, end) <= out.Length - 2
      invariant Decode(s, start, end) == Behind(out[..written], Decode(s, at, end))
      decreases end + 1 - at
    {
      ghost var b := StepWithinBudget(s, at, a, end);
      ghost var before := out[..written];
      var used, next := StepInto(s, at, end, out, written);
      if used == 0 {
        DecodeStops(s, at, end);
        return false, at, written;
      }
      BehindStep(s, at, end, before, out[..next]);
      at, written := at + used, next;
      a := b;
    }
    DecodeEnds(s, at, end, out[..written]);
    out[written] := NUL;
    ok := true;
  }

  lemma DecodeStarts(s: string, start: nat, end: nat)
    requires start <= end < |s| && Scan(s, start).Closed? && Scan(s, start).end == end
    ensures InStep(s, start, start, end) && Budget(s, start, start, end) <= (end - start) - Scan(s, start).skipped
    ensures Decode(s, start, end) == Behind("", Decode(s, start, end))
  {
    hide Decode;
    var d := Decode(s, start, end);
    assert d.Bytes? ==> "" + d.text == d.text;
  }

  lemma DecodeStops(s: string, at: nat, end: nat)
    requires at < end < |s| && DecodeStep(s, at, end).used == 0
    ensures Decode(s, at, end) == Bad(at)
  {
    hide DecodeStep;
  }

  lemma DecodeEnds(s: string, at: nat, end: nat, done: string)
    requires end <= at <= end + 1 && end < |s|
    ensures Behind(done, Decode(s, at, end)) == Bytes(done)
  {
  }

  ghost function Behind(prefix: string, d: Decoded): Decoded {
    match d case Bad(b) => Bad(b) case Bytes(t) => Bytes(prefix + t)
  }

  lemma {:induction false} BehindStep(s: string, at: nat, end: nat, before: string, now: string)
    requires at < end < |s| && DecodeStep(s, at, end).used > 0 && now == before + DecodeStep(s, at, end).bytes
    ensures Behind(before, Decode(s, at, end)) == Behind(now, Decode(s, at + DecodeStep(s, at, end).used, end))
  {
    hide DecodeStep;
    var rest := Decode(s, at + DecodeStep(s, at, end).used, end);
    if rest.Bytes? {
      assert before + (DecodeStep(s, at, end).bytes + rest.text) == now + rest.text;
    }
  }

  /** Where a parse function leaves the offset. */
  function Stop<T>(r: Parsed<T>): nat {
    match r case Ok(_, end) => end case Fail(at) => at
  }

  // What the parse functions for arrays, objects and members do, case by case.

  lemma ArrayIs(s: string, off: nat, depth: nat, limit: nat)
    requires Terminated(s) && off < |s| && s[off] == '['
    ensures depth >= limit ==> ParseArray(s, off, depth, limit) == Fail(off)
    ensures depth < limit ==>
              var p := Skip(s, off + 1);
              if s[p] == ']' then ParseArray(s, off, depth, limit) == Ok(Array([]), p + 1)
              else
                var r := ParseElements(s, p, depth + 1, limit);
                if r.Ok? then ParseArray(s, off, depth, limit) == Ok(Array(r.value), r.end) else ParseArray(s, off, depth, limit) == Fail(r.at)
  {
    hide ParseElements;
  }

  lemma ObjectIs(s: string, off: nat, depth: nat, limit: nat)
    requires Terminated(s) && off < |s| && s[off] == '{'
    ensures depth >= limit ==> ParseObject(s, off, depth, limit) == Fail(off)
    ensures depth < limit ==>
              var p := Skip(s, off + 1);
              if s[p] == '}' then ParseObject(s, off, depth, limit) == Ok(Object([]), p + 1)
              else
                var r := ParseMembers(s, p, depth + 1, limit);
                if r.Ok? then ParseObject(s, off, depth, limit) == Ok(Object(r.value), r.end) else ParseObject(s, off, depth, limit) == Fail(r.at)
  {
    hide ParseMembers;
  }

  /** The key, and where the value behind the colon starts. */
  function ParseKey(s: string, q: nat): (r: Parsed<string>)
    requires Terminated(s) && q < |s|
    ensures r.Ok? ==> q < r.end < |s|
  {
    match ParseString(s, Skip(s, q))
    case Fail(at) => Fail(at)
    case Ok(key, end) =>
      var p := Skip(s, end);
      if s[p] != ':' then Fail(p) else Ok(key, Skip(s, p + 1))
  }

  lemma MemberIs(s: string, q: nat, depth: nat, limit: nat)
    requires Terminated(s) && q < |s|
    ensures var k := ParseKey(s, q);
            if k.Fail? then ParseMember(s, q, depth, limit) == Fail(k.at)
            else
              var r := ParseValue(s, k.end, depth, limit);
              if r.Ok? then ParseMember(s, q, depth, limit) == Ok(Member(k.value, r.value), r.end) else ParseMember(s, q, depth, limit) == Fail(r.at)
  {
    hide ParseValue, ParseString;
  }

  /** Sets the type and value of an item without children. */
  method Fill(item: Node, kind: Kind)
    requires Blank(item)
    modifies item`kind, item`tree
    ensures item.IsTree() && item.tree == Childless(kind) && item.below == {}
  {
    item.kind := kind;
    item.tree := Childless(kind);
    LeafIsTree(item);
  }

  class ParseBuffer {
    const content: string
    const limit: nat  // CJSON_NESTING_LIMIT
    var offset: nat
    var depth: nat

    predicate Valid()
      reads this
    {
      Terminated(content) && offset < |content| && depth <= limit
    }

    /** The buffer that `cJSON_ParseWithOpts` sets up for a C string. */
    constructor (text: string, limit: nat)
      ensures content == text + [NUL] && this.limit == limit && offset == 0 && depth == 0 && Valid()
    {
      content, this.limit := text + [NUL], limit;
      offset, depth := 0, 0;
    }

    method SkipWhitespace()
      requires Valid()
      modifies this`offset
      ensures Valid() && offset == Skip(content, old(offset))
    {
      while offset < |content| && content[offset] <= ' '
        invariant old(offset) <= offset <= |content|
        invariant BlankEnd(content, offset) == BlankEnd(content, old(offset))
      {
        offset := offset + 1;
      }
      if offset == |content| {
        offset := offset - 1;
      }
    }

    method ParseStringHere() returns (r: Parsed<string>)
      requires Valid()
      modifies this`offset
      ensures r == ParseString(content, old(offset)) && offset == Stop(r)
      ensures r.Ok? ==> Valid()
    {
      var start := offset + 1;
      if content[offset] != '\"' {
        offset := start;
        return Fail(start);
      }
      var closed, end, skipped := ScanString(content, start);
      if !closed {
        offset := start;
        return Fail(start);
      }
      var allocationLength := (end - offset) - skipped;
      var out := new char[allocationLength + 1];
      var ok, at, written := DecodeInto(content, start, end, out);
      if !ok {
        offset := at;
        return Fail(at);
      }
      offset := end + 1;
      r := Ok(CString(out[..written]), offset);
    }

    method ParseNumberHere() returns (r: Parsed<real>)
      requires Valid()
      modifies this`offset
      ensures r == ParseNumber(content, old(offset)) && offset == Stop(r)
      ensures r.Ok? ==> Valid()
    {
      hide Strtod;
      var token, length := CopyToken();
      var reading := Strtod(token[..length]);
      if reading.used == 0 {
        return Fail(offset);
      }
      offset := offset + reading.used;
      r := Ok(reading.value, offset);
    }

    /** Copies the number's characters into a terminated buffer of 64 bytes. */
    method CopyToken() returns (token: array<char>, length: nat)
      requires Valid()
      ensures fresh(token) && length < token.Length && token[length] == NUL
      ensures offset + length == TokenEnd(content, offset, TOKEN_LIMIT)
      ensures token[..length] == content[offset..offset + length]
    {
      hide IsNumberChar, TokenEnd;
      token := new char[TOKEN_LIMIT + 1];
      length := 0;
      while length < TOKEN_LIMIT && offset + length < |content| && IsNumberChar(content[offset + length])
        invariant 0 <= length <= TOKEN_LIMIT && offset + length <= |content|
        invariant forall i :: offset <= i < offset + length ==> IsNumberChar(content[i])
        invariant token[..length] == content[offset..offset + length]
      {
        token[length] := content[offset + length];
        length := length + 1;
      }
      token[length] := NUL;
      TokenEndIs(content, offset, offset + length, TOKEN_LIMIT);
    }

    /** `parse_value`: fills in a new item; what it finds becomes a tree of new items. */
    method ParseValueInto(item: Node) returns (ok: bool)
      requires Valid() && Blank(item)
      modifies this, item`kind, item`child, item`kids, item`below, item`tree
      ensures Parses(ParseValue(content, old(offset), old(depth), limit), ok)
      ensures ok ==> depth == old(depth) && fresh(item.below)
      ensures ok ==> item.IsTree() && item.tree == ParseValue(content, old(offset), old(depth), limit).value
      decreases |content| - offset, 2
    {
      hide Node.IsTree, ParseString, ParseNumber, ParseArray, ParseObject;
      ok := true;
      if Holds(content, offset, "null") {
        offset := offset + 4;
        Fill(item, NullKind);
      } else if Holds(content, offset, "false") {
        offset := offset + 5;
        Fill(item, BoolKind(false));
      } else if Holds(content, offset, "true") {
        offset := offset + 4;
        Fill(item, BoolKind(true));
      } else if content[offset] == '\"' {
        var t := ParseStringHere();
        ok := t.Ok?;
        if ok {
          Fill(item, StringKind(t.value));
        }
      } else if content[offset] == '-' || IsDigit(content[offset]) {
        var x := ParseNumberHere();
        ok := x.Ok?;
        if ok {
          Fill(item, NumberKind(x.value));
        }
      } else if content[offset] == '[' {
        ok := ParseArrayInto(item);
      } else if content[offset] == '{' {
        ok := ParseObjectInto(item);
      } else {
        ok := false;
      }
    }

    /** The outcome is that of the specification: success, and where the offset stops. */
    ghost predicate Parses<T>(r: Parsed<T>, ok: bool)
      reads this
    {
      (ok <==> r.Ok?) && offset == Stop(r) && (ok ==> Valid())
    }

    method ParseArrayInto(item: Node) returns (ok: bool)
      requires Valid() && content[offset] == '[' && Blank(item)
      modifies this, item`kind, item`child, item`kids, item`below, item`tree
      ensures Parses(ParseArray(content, old(offset), old(depth), limit), ok)
      ensures ok ==> depth == old(depth) && fresh(item.below)
      ensures ok ==> item.IsTree() && item.tree == ParseArray(content, old(offset), old(depth), limit).value
      decreases |content| - offset, 1
    {
      hide Node.IsTree, ParseElements, ParseArray, Chain, Stands;
      ArrayIs(content, offset, depth, limit);
      StandsForNone();
      if depth >= limit {
        return false;
      }
      depth := depth + 1;
      offset := offset + 1;
      SkipWhitespace();
      var head: Node?, current: Node? := null, null;
      ghost var kids: seq<Node>, made: set<Node>, items: seq<Json> := [], {}, [];
      NoChain(item);
      if content[offset] != ']' {
        ok, head, current, kids, made, items := ParseElementsInto(item);
        if !ok {
          return;
        }
      } else {
        offset := offset + 1;
      }
      depth := depth - 1;
      ChainEnds(item, head, current, kids, made);
      Adopt(item, ArrayKind, head, current, kids, made, Array(items));
      ok := true;
    }

    /** One turn of the loop of `parse_array`. */
    method ParseNext(ghost parent: Node, head: Node?, current: Node?, ghost kids: seq<Node>, ghost made: set<Node>)
      returns (ok: bool, next: Node)
      requires Valid() && Chain(parent, head, current, kids, made)
      modifies this, Opt(current)`next
      ensures fresh(next) && Parses(ParseValue(content, Skip(content, old(offset)), old(depth), limit), ok)
      ensures ok ==> depth == old(depth) && fresh(next.below)
      ensures ok ==> next.tree == ParseValue(content, Skip(content, old(offset)), old(depth), limit).value
      ensures ok ==> Chain(parent, if kids == [] then next else head, next, kids + [next], made + next.Whole())
      decreases |content| - offset, 3
    {
      hide Node.IsTree, ParseValue, Apart, Linked, UnionOf, Chain;
      ChainMeans(parent, head, current, kids, made);
      next := Extend(parent, current, kids);
      SkipWhitespace();
      ok := ParseValueInto(next);
      if ok {
        ChainGrows(parent, head, kids, made, next);
      }
    }

    /** The loop of `parse_array`; on success the offset is behind the closing bracket. */
    method ParseElementsInto(ghost parent: Node)
      returns (ok: bool, head: Node?, current: Node?, ghost kids: seq<Node>, ghost made: set<Node>, ghost items: seq<Json>)
      requires Valid()
      modifies this
      ensures Parses(ParseElements(content, old(offset), old(depth), limit), ok)
      ensures ok ==> depth == old(depth) && items == ParseElements(content, old(offset), old(depth), limit).value
      ensures ok ==> Chain(parent, head, current, kids, made) && fresh(made) && Stands(ArrayKind, kids, Array(items))
      decreases |content| - offset, 4
    {
      hide Node.IsTree, ParseValue, ParseElements, Chain, Stands;
      head, current, kids, made, items := null, null, [], {}, [];
      NoChain(parent);
      StandsForNone();
      PrependNil(ParseElements(content, offset, depth, limit));
      ghost var whole := ParseElements(content, offset, depth, limit);
      var more := true;
      while more
        invariant Valid() && depth == old(depth) && old(offset) <= offset
        invariant more ==> whole == Prepend(items, ParseElements(content, offset, depth, limit))
        invariant !more ==> whole == if content[offset] == ']' then Ok(items, offset + 1) else Fail(offset)
        invariant Chain(parent, head, current, kids, made) && fresh(made)
        invariant Stands(ArrayKind, kids, Array(items))
        decreases |content| - offset
      {
        ghost var q := offset;
        ChainEnds(parent, head, current, kids, made);
        ok, current := ParseNext(parent, head, current, kids, made);
        if !ok {
          ElementsFail(content, q, old(depth), limit);
          return;
        }
        ghost var v := current.tree;
        ElementsStep(content, q, depth, v, offset, limit);
        ItemsGrow(kids, current, items);
        if head == null {
          head := current;
        }
        kids, made := kids + [current], made + current.Whole();
        SkipWhitespace();
        more := content[offset] == ',';
        if more {
          offset := offset + 1;
          PrependTwice(items, v, ParseElements(content, offset, depth, limit));
        }
        items := items + [v];
      }
      ok := content[offset] == ']';
      if ok {
        offset := offset + 1;
      }
    }

    method ParseObjectInto(item: Node) returns (ok: bool)
      requires Valid() && content[offset] == '{' && Blank(item)
      modifies this, item`kind, item`child, item`kids, item`below, item`tree
      ensures Parses(ParseObject(content, old(offset), old(depth), limit), ok)
      ensures ok ==> depth == old(depth) && fresh(item.below)
      ensures ok ==> item.IsTree() && item.tree == ParseObject(content, old(offset), old(depth), limit).value
      decreases |content| - offset, 1
    {
      hide Node.IsTree, ParseMembers, ParseObject, Chain, Stands;
      ObjectIs(content, offset, depth, limit);
      StandsForNone();
      if depth >= limit {
        return false;
      }
      depth := depth + 1;
      offset := offset + 1;
      SkipWhitespace();
      var head: Node?, current: Node? := null, null;
      ghost var kids: seq<Node>, made: set<Node>, members: seq<Member> := [], {}, [];
      NoChain(item);
      if content[offset] != '}' {
        ok, head, current, kids, made, members := ParseMembersInto(item);
        if !ok {
          return;
        }
      } else {
        offset := offset + 1;
      }
      depth := depth - 1;
      ChainEnds(item, head, current, kids, made);
      Adopt(item, ObjectKind, head, current, kids, made, Object(members));
      ok := true;
    }

    /** The key of a new item and the colon behind it. */
    method ParseKeyInto(item: Node) returns (ok: bool)
      requires Valid()
      modifies this`offset, item`name
      ensures Parses(ParseKey(content, old(offset)), ok)
      ensures ok ==> item.name == ParseKey(content, old(offset)).value
    {
      hide ParseString;
      SkipWhitespace();
      var key := ParseStringHere();
      if key.Fail? {
        return false;
      }
      SkipWhitespace();
      item.name := key.value;
      if content[offset] != ':' {
        return false;
      }
      offset := offset + 1;
      SkipWhitespace();
      return true;
    }

    /** One turn of the loop of `parse_object`: key, colon and value. */
    method ParseNextMember(ghost parent: Node, head: Node?, current: Node?, ghost kids: seq<Node>, ghost made: set<Node>)
      returns (ok: bool, next: Node)
      requires Valid() && Chain(parent, head, current, kids, made)
      modifies this, Opt(current)`next
      ensures fresh(next) && Parses(ParseMember(content, old(offset), old(depth), limit), ok)
      ensures ok ==> depth == old(depth) && fresh(next.below)
      ensures ok ==> Member(next.name, next.tree) == ParseMember(content, old(offset), old(depth), limit).value
      ensures ok ==> Chain(parent, if kids == [] then next else head, next, kids + [next], made + next.Whole())
      decreases |content| - offset, 3
    {
      hide Node.IsTree, ParseKey, ParseMember, ParseValue, Apart, Linked, UnionOf, Chain;
      MemberIs(content, offset, depth, limit);
      ChainMeans(parent, head, current, kids, made);
      next := Extend(parent, current, kids);
      ok := ParseKeyInto(next);
      if !ok {
        return;
      }
      ok := ParseValueInto(next);
      if ok {
        ChainGrows(parent, head, kids, made, next);
      }
    }

    /** The loop of `parse_object`; on success the offset is behind the closing bracket. */
    method ParseMembersInto(ghost parent: Node)
      returns (ok: bool, head: Node?, current: Node?, ghost kids: seq<Node>, ghost made: set<Node>, ghost members: seq<Member>)
      requires Valid()
      modifies this
      ensures Parses(ParseMembers(content, old(offset), old(depth), limit), ok)
      ensures ok ==> depth == old(depth) && members == ParseMembers(content, old(offset), old(depth), limit).value
      ensures ok ==> Chain(parent, head, current, kids, made) && fresh(made) && Stands(ObjectKind, kids, Object(members))
      decreases |content| - offset, 4
    {
      hide Node.IsTree, ParseMember, ParseMembers, Chain, Stands;
      head, current, kids, made, members := null, null, [], {}, [];
      NoChain(parent);
      StandsForNone();
      PrependNil(ParseMembers(content, offset, depth, limit));
      ghost var whole := ParseMembers(content, offset, depth, limit);
      var more := true;
      while more
        invariant Valid() && depth == old(depth) && old(offset) <= offset
        invariant more ==> whole == Prepend(members, ParseMembers(content, offset, depth, limit))
        invariant !more ==> whole == if content[offset] == '}' then Ok(members, offset + 1) else Fail(offset)
        invariant Chain(parent, head, current, kids, made) && fresh(made)
        invariant Stands(ObjectKind, kids, Object(members))
        decreases |content| - offset
      {
        ghost var q := offset;
        ChainEnds(parent, head, current, kids, made);
        ok, current := ParseNextMember(parent, head, current, kids, made);
        if !ok {
          MembersFail(content, q, old(depth), limit);
          return;
        }
        ghost var v := Member(current.name, current.tree);
        MembersStep(content, q, depth, v, offset, limit);
        MembersGrow(kids, current, members);
        if head == null {
          head := current;
        }
        kids, made := kids + [current], made + current.Whole();
        SkipWhitespace();
        more := content[offset] == ',';
        if more {
          offset := offset + 1;
          PrependTwice(members, v, ParseMembers(content, offset, depth, limit));
        }
        members := members + [v];
      }
      ok := content[offset] == '}';
      if ok {
        offset := offset + 1;
      }
    }
  }

  /** `cJSON_ParseWithOpts`; on failure `position` is where `cJSON_GetErrorPtr` points. */
  method ParseWithOpts(text: string, requireNull: bool, limit: nat := NESTING_LIMIT) returns (item: Node?, position: nat)
    ensures var r := ParseDocument(text, requireNull, limit);
            && (item != null <==> r.Ok?)
            && (item != null ==> fresh(item) && fresh(item.below) && item.IsTree() && item.tree == r.value)
            && position == (if r.Ok? then r.end else ErrorPosition(text + [NUL], r.at)) <= |text|
  {
    hide Node.IsTree, ParseValue;
    item := new Node(NullKind, "");
    var buffer := new ParseBuffer(text, limit);
    buffer.offset := SkipBom(buffer.content);
    buffer.SkipWhitespace();
    var ok := buffer.ParseValueInto(item);
    if ok && requireNull {
      buffer.SkipWhitespace();
      ok := buffer.content[buffer.offset] == NUL;
    }
    if ok {
      return item, buffer.offset;
    }
    return null, ErrorPosition(buffer.content, buffer.offset);
  }
}
