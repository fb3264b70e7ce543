/**
 The checkpoint variables of `echkpnt`: a table in memory and a file that is to
 hold the same variables, one `name="value"` line each.  `n` is the number of
 characters that one `fgets` can take.
 */
module CheckpointVars {
  import opened Lines
  import opened Options

  datatype Var = Var(name: string, value: string)

  // ----------------------------------------------------------------- the table

  ghost predicate UniqueNames(t: seq<Var>) {
    forall i, j :: 0 <= i < j < |t| ==> t[i].name != t[j].name
  }

  /** Where a name stands, or the length. */
  function Position(t: seq<Var>, name: string): (i: nat)
    ensures i <= |t| && (i < |t| ==> t[i].name == name) && forall j :: 0 <= j < i ==> t[j].name != name
  {
    if t == [] || t[0].name == name then 0 else 1 + Position(t[1..], name)
  }

  /** The value is replaced where the name stands, or the variable comes last. */
  function Put(t: seq<Var>, v: Var): seq<Var> {
    var i := Position(t, v.name);
    if i < |t| then t[i := v] else t + [v]
  }

  function Lookup(t: seq<Var>, name: string): Option<string> {
    var i := Position(t, name);
    if i < |t| then Some(t[i].value) else None
  }

  lemma PutKeepsUnique(t: seq<Var>, v: Var)
    requires UniqueNames(t)
    ensures UniqueNames(Put(t, v))
    ensures forall x :: x in Put(t, v) ==> x in t || x == v
  {
  }

  lemma LookupPut(t: seq<Var>, v: Var, name: string)
    ensures Lookup(Put(t, v), name) == if name == v.name then Some(v.value) else Lookup(t, name)
  {
    var i, u := Position(t, v.name), Put(t, v);
    var p, q := Position(t, name), Position(u, name);
    if name == v.name {
      assert u[i].name == name;
    } else if p < |t| {
      assert p != i && u[p] == t[p];
    }
    assert forall j :: 0 <= j < |t| && j != i ==> u[j] == t[j];
    assert q < |t| && q != i ==> t[q] == u[q];
  }

  // ------------------------------------------------------------------ the file

  function Line(v: Var): string {
    v.name + "=\"" + v.value + "\"\n"
  }

  function LinesOf(t: seq<Var>): seq<string> {
    seq(|t|, i requires 0 <= i < |t| => Line(t[i]))
  }

  function Serial(t: seq<Var>): string {
    Concat(LinesOf(t))
  }

  predicate IsAlpha(c: char) {
    'a' <= c <= 'z' || 'A' <= c <= 'Z'
  }

  /** `strchr`: the first position from `i` on that holds `c`, or the end. */
  function Find(s: string, c: char, i: nat): (r: nat)
    requires i <= |s|
    ensures i <= r <= |s| && (r < |s| ==> s[r] == c) && forall k :: i <= k < r ==> s[k] != c
    decreases |s| - i
  {
    if i < |s| && s[i] != c then Find(s, c, i + 1) else i
  }

  /** One line of the file. */
  function ParseLine(line: string): Option<Var> {
    if line == [] || !IsAlpha(line[0]) then None
    else
      var eq := Find(line, '=', 0);
      if eq + 1 >= |line| || line[eq + 1] != '\"' then None
      else
        var q := Find(line, '\"', eq + 2);
        if q == |line| then None else Some(Var(line[..eq], line[eq + 2..q]))
  }

  /** The table after all lines, if all can be read. */
  function Filled(t: seq<Var>, lines: seq<string>): Option<seq<Var>>
    decreases |lines|
  {
    if lines == [] then Some(t)
    else
      match ParseLine(lines[0])
      case None => None
      case Some(v) => Filled(Put(t, v), lines[1..])
  }

  /** What the format can hold: a name that starts with a Latin letter, and a line that fits. */
  ghost predicate Writable(v: Var, n: nat) {
    && v.name != [] && (65 <= v.name[0] as int <= 90 || 97 <= v.name[0] as int <= 122)
    && '=' !in v.name && '\n' !in v.name && '\"' !in v.value && '\n' !in v.value
    && |v.name| + |v.value| + 4 <= n
  }

  lemma LineRead(v: Var, n: nat)
    requires Writable(v, n)
    ensures IsFull(Line(v), n) && ParseLine(Line(v)) == Some(v)
  {
    var s := Line(v);
    var e := |v.name|;
    assert s[..e] == v.name && s[e] == '=' && s[e + 1] == '\"';
    assert forall i :: 0 <= i < e ==> s[i] == v.name[i];
    assert Find(s, '=', 0) == e;
    var q := e + 2 + |v.value|;
    assert s[e + 2..q] == v.value && s[q] == '\"';
    assert forall i :: e + 2 <= i < q ==> s[i] == v.value[i - e - 2];
    assert Find(s, '\"', e + 2) == q;
  }

  /** Only what the format can hold is ever read; the newline need not have been there. */
  lemma ReadIsWritable(line: string, n: nat)
    requires IsChunk(line, n) && ParseLine(line).Some?
    ensures Writable(ParseLine(line).value, n + 1)
  {
  }

  // ----------------------------------------------------------- reading it back

  lemma {:induction false} FilledNeedsAll(t: seq<Var>, lines: seq<string>, i: nat)
    requires Filled(t, lines).Some? && i < |lines|
    ensures ParseLine(lines[i]).Some?
    decreases |lines|
  {
    hide ParseLine, Put;
    if i > 0 {
      FilledNeedsAll(Put(t, ParseLine(lines[0]).value), lines[1..], i - 1);
    }
  }

  lemma {:induction false} FilledIsWritable(t: seq<Var>, lines: seq<string>, n: nat, v: Var)
    requires Filled(t, lines).Some? && v in Filled(t, lines).value && forall c :: c in lines ==> IsChunk(c, n)
    requires UniqueNames(t)
    ensures v in t || Writable(v, n + 1)
    decreases |lines|
  {
    hide ParseLine, Put, Writable, IsChunk, UniqueNames;
    if lines != [] {
      var x := ParseLine(lines[0]).value;
      assert IsChunk(lines[0], n);
      ReadIsWritable(lines[0], n);
      PutKeepsUnique(t, x);
      FilledIsWritable(Put(t, x), lines[1..], n, v);
    }
  }

  lemma {:induction false} FilledFromLines(t: seq<Var>, k: nat, n: nat)
    requires UniqueNames(t) && k <= |t| && forall v :: v in t ==> Writable(v, n)
    ensures Filled(t[..k], LinesOf(t)[k..]) == Some(t)
    decreases |t| - k
  {
    hide Line, Writable, ParseLine;
    if k < |t| {
      LineRead(t[k], n);
      assert LinesOf(t)[k..][0] == Line(t[k]) && LinesOf(t)[k..][1..] == LinesOf(t)[k + 1..];
      assert Position(t[..k], t[k].name) == k;
      assert Put(t[..k], t[k]) == t[..k + 1];
      FilledFromLines(t, k + 1, n);
    } else {
      assert t[..k] == t;
    }
  }

  /** A table whose variables the format can hold is what its file gives back. */
  lemma WritableComesBack(t: seq<Var>, n: nat)
    requires n >= 1 && UniqueNames(t) && forall v :: v in t ==> Writable(v, n)
    ensures Filled([], Chunks(Serial(t), n)) == Some(t)
  {
    hide Line, Writable, IsFull, Chunks, UniqueNames;
    forall c | c in LinesOf(t) ensures IsFull(c, n) {
      var i :| 0 <= i < |t| && LinesOf(t)[i] == c;
      LineRead(t[i], n);
    }
    TakesAll(LinesOf(t), "", n);
    assert Concat(LinesOf(t)) + "" == Serial(t);
    assert Chunks("", n) == [] by { NoChunks(n); }
    assert Chunks(Serial(t), n) == LinesOf(t);
    FilledFromLines(t, 0, n);
    assert t[..0] == [] && LinesOf(t)[0..] == LinesOf(t);
  }

  /** A line one character too long leaves its newline alone on a line, which cannot be read. */
  lemma OneTooLong(t: seq<Var>, n: nat, k: nat)
    requires n >= 1 && k < |t| && (forall i :: 0 <= i < k ==> Writable(t[i], n))
    requires Writable(t[k], n + 1) && |Line(t[k])| == n + 1
    ensures Filled([], Chunks(Serial(t), n)) == None
  {
    var line := Line(t[k])[..n];
    var rest := Concat(LinesOf(t)[k + 1..]);
    var pieces := LinesOf(t)[..k] + [line, "\n"];
    assert Serial(t) == Concat(pieces) + rest by { SplitLine(t, n, k); }
    assert forall i :: 0 <= i < n ==> line[i] != '\n' by { LineBody(t[k]); }
    assert IsFull(line, n) && IsFull("\n", n);
    hide Line, Writable, IsFull, Chunks, Concat;
    forall c | c in pieces ensures IsFull(c, n) {
      var i :| 0 <= i < |pieces| && pieces[i] == c;
      if i < k {
        assert c == Line(t[i]);
        LineRead(t[i], n);
      }
    }
    TakesAll(pieces, rest, n);
    var chunks := Chunks(Serial(t), n);
    assert chunks[k + 1] == "\n";
    if Filled([], chunks).Some? {
      FilledNeedsAll([], chunks, k + 1);
      assert false;
    }
  }

  lemma LineBody(v: Var)
    requires '\n' !in v.name && '\n' !in v.value
    ensures forall i :: 0 <= i < |Line(v)| - 1 ==> Line(v)[i] != '\n'
  {
  }

  lemma SplitLine(t: seq<Var>, n: nat, k: nat)
    requires k < |t| && |Line(t[k])| == n + 1
    ensures Serial(t) == Concat(LinesOf(t)[..k] + [Line(t[k])[..n], "\n"]) + Concat(LinesOf(t)[k + 1..])
  {
    var ls, a, b := LinesOf(t), Line(t[k])[..n], "\n";
    assert a + b == Line(t[k]);
    hide Line;
    assert ls == ls[..k] + ([ls[k]] + ls[k + 1..]);
    ConcatSplit(ls[..k], [ls[k]] + ls[k + 1..]);
    ConcatSplit([ls[k]], ls[k + 1..]);
    ConcatSplit(ls[..k], [a, b]);
    assert Concat([ls[k]]) == ls[k];
    assert [a, b][1..] == [b] && Concat([b]) == b;
    assert Concat([a, b]) == a + b;
  }

  /** The file gives the table back exactly when the format can hold every variable. */
  lemma ComesBackExactly(t: seq<Var>, n: nat)
    requires n >= 1 && UniqueNames(t)
    ensures Filled([], Chunks(Serial(t), n)) == Some(t) <==> forall v :: v in t ==> Writable(v, n)
  {
    if forall v :: v in t ==> Writable(v, n) {
      WritableComesBack(t, n);
    } else if Filled([], Chunks(Serial(t), n)) == Some(t) {
      ChunksShape(Serial(t), n);
      var lines := Chunks(Serial(t), n);
      forall v | v in t ensures Writable(v, n + 1) {
        FilledIsWritable([], lines, n, v);
      }
      var k := FirstTooLong(t, n);
      OneTooLong(t, n, k);
      assert false;
    }
  }

  lemma FirstTooLong(t: seq<Var>, n: nat) returns (k: nat)
    requires !(forall v :: v in t ==> Writable(v, n)) && forall v :: v in t ==> Writable(v, n + 1)
    ensures k < |t| && !Writable(t[k], n) && forall i :: 0 <= i < k ==> Writable(t[i], n)
    ensures |Line(t[k])| == n + 1 && Writable(t[k], n + 1)
  {
    var v :| v in t && !Writable(v, n);
    var m :| 0 <= m < |t| && t[m] == v;
    k := 0;
    while Writable(t[k], n)
      invariant k <= m && forall i :: 0 <= i < k ==> Writable(t[i], n)
      decreases m - k
    {
      k := k + 1;
    }
    assert t[k] in t;
  }

  // --------------------------------------------------------------- runs of writes

  function Written(t: seq<Var>, writes: seq<Var>): seq<Var>
    decreases |writes|
  {
    if writes == [] then t else Written(Put(t, writes[0]), writes[1..])
  }

  /** The value written last under a name. */
  function LastValue(before: Option<string>, writes: seq<Var>, name: string): Option<string>
    decreases |writes|
  {
    if writes == [] then before
    else LastValue(if writes[0].name == name then Some(writes[0].value) else before, writes[1..], name)
  }

  lemma {:induction false} WrittenKeeps(t: seq<Var>, writes: seq<Var>)
    requires UniqueNames(t)
    ensures UniqueNames(Written(t, writes))
    ensures forall v :: v in Written(t, writes) ==> v in t || v in writes
    decreases |writes|
  {
    hide UniqueNames, Put;
    if writes != [] {
      PutKeepsUnique(t, writes[0]);
      WrittenKeeps(Put(t, writes[0]), writes[1..]);
    }
  }

  lemma {:induction false} WrittenLookup(t: seq<Var>, writes: seq<Var>, name: string)
    ensures Lookup(Written(t, writes), name) == LastValue(Lookup(t, name), writes, name)
    decreases |writes|
  {
    hide Lookup, Put;
    if writes != [] {
      LookupPut(t, writes[0], name);
      WrittenLookup(Put(t, writes[0]), writes[1..], name);
    }
  }

  /**
   After any run of writes that the format can hold, a fresh read of the file
   yields a table that has the last value written under every name.
   */
  lemma FreshReadHasLastValues(writes: seq<Var>, n: nat, name: string)
    requires n >= 1 && forall v :: v in writes ==> Writable(v, n)
    ensures var read := Filled([], Chunks(Serial(Written([], writes)), n));
            read.Some? && UniqueNames(read.value) && Lookup(read.value, name) == LastValue(None, writes, name)
  {
    hide Writable;
    WrittenKeeps([], writes);
    WritableComesBack(Written([], writes), n);
    WrittenLookup([], writes, name);
  }

  // ------------------------------------------------------------------- the store

  lemma SerialAppend(t: seq<Var>, v: Var)
    ensures Serial(t + [v]) == Serial(t) + Line(v)
  {
    hide Line;
    assert LinesOf(t + [v]) == LinesOf(t) + [Line(v)];
    ConcatSplit(LinesOf(t), [Line(v)]);
    assert Concat([Line(v)]) == Line(v);
  }

  /** The file, character by character. */
  lemma FileIs(t: seq<Var>, v: Var)
    ensures Serial([]) == "" && Serial(t + [v]) == Serial(t) + v.name + "=" + "\"" + v.value + "\"" + "\n"
  {
    SerialAppend(t, v);
    assert Serial(t) + Line(v) == Serial(t) + v.name + "=" + "\"" + v.value + "\"" + "\n";
  }

  /** The static variables of the module, and the file they name. */
  class VarStore {
    var table: seq<Var>
    var named: bool
    var file: string

    ghost predicate Valid()
      reads this
    {
      named && UniqueNames(table) && file == Serial(table)
    }

    constructor ()
      ensures Valid() && table == []
    {
      table, named, file := [], true, "";
    }

    /** `getEchkpntVar`. */
    method Get(name: string) returns (value: Option<string>)
      ensures value == Lookup(table, name)
    {
      var i := 0;
      while i < |table|
        invariant 0 <= i <= |table| && forall j :: 0 <= j < i ==> table[j].name != name
      {
        if table[i].name == name {
          return Some(table[i].value);
        }
        i := i + 1;
      }
      return None;
    }

    /** `insertVarToTable_`: 0 for a new name, 1 for a new value, 2 for no change. */
    method Insert(v: Var) returns (code: int)
      modifies this`table
      ensures table == Put(old(table), v)
      ensures code == 0 <==> Lookup(old(table), v.name) == None
      ensures code == 2 <==> Lookup(old(table), v.name) == Some(v.value)
      ensures code == 0 || code == 1 || code == 2
    {
      var i := 0;
      while i < |table|
        invariant 0 <= i <= |table| && table == old(table)
        invariant forall j :: 0 <= j < i ==> table[j].name != v.name
      {
        if table[i].name == v.name {
          break;
        }
        i := i + 1;
      }
      assert Position(table, v.name) == i;
      if i == |table| {
        table := table + [v];
        return 0;
      }
      if table[i].value == v.value {
        assert table[i := v] == table;
        return 2;
      }
      table := table[i := v];
      return 1;
    }

    /** `updateVarToFile_`: the whole table is written to a new file. */
    method UpdateFile() returns (code: int)
      modifies this`file
      ensures code == if named then 0 else -1
      ensures file == if named then Serial(table) else old(file)
    {
      if !named {
        return -1;
      }
      var tmp := "";
      for i := 0 to |table|
        invariant tmp == Serial(table[..i])
      {
        SerialAppend(table[..i], table[i]);
        assert table[..i + 1] == table[..i] + [table[i]];
        tmp := tmp + Line(table[i]);
      }
      assert table[..|table|] == table;
      file := tmp;
      return 0;
    }

    /** `writeEchkpntVar`. */
    method Write(v: Var) returns (code: int)
      modifies this
      ensures table == Put(old(table), v) && named == old(named)
      ensures code == if named || Lookup(old(table), v.name) == Some(v.value) then 0 else -1
      ensures file == if !named || Lookup(old(table), v.name) == Some(v.value) then old(file)
                      else if Lookup(old(table), v.name) == None then old(file) + Line(v)
                      else Serial(table)
      ensures old(Valid()) ==> Valid()
    {
      hide Serial, Line;
      ghost var t := table;
      code := Insert(v);
      if old(Valid()) {
        PutKeepsUnique(t, v);
        if code == 0 { SerialAppend(t, v); }
      }
      if code == 0 {
        if !named {
          return -1;
        }
        file := file + Line(v);
        return 0;
      }
      if code == 1 {
        code := UpdateFile();
        return;
      }
      assert Put(t, v) == t;
      return 0;
    }

    /** `fillTable_`: the lines are added to the table; one bad line empties it and forgets the file. */
    method FillTable(n: nat) returns (code: int)
      requires n >= 1
      modifies this
      ensures file == old(file)
      ensures code == 0 <==> old(named) && Filled(old(table), Chunks(file, n)).Some?
      ensures code == 0 ==> named && table == Filled(old(table), Chunks(file, n)).value
      ensures code == 0 || code == -1
      ensures code != 0 ==> !named && table == if old(named) then [] else old(table)
    {
      hide ParseLine, Put, Chunks;
      if !named {
        return -1;
      }
      var lines := Chunks(file, n);
      for i := 0 to |lines|
        invariant named && file == old(file)
        invariant Filled(table, lines[i..]) == Filled(old(table), lines)
      {
        assert lines[i..][0] == lines[i] && lines[i..][1..] == lines[i + 1..];
        var parsed := ParseLine(lines[i]);
        if parsed.None? {
          table, named := [], false;
          return -1;
        }
        var inserted := Insert(parsed.value);
      }
      return 0;
    }

    /** A run of writes. */
    method WriteAll(writes: seq<Var>)
      requires Valid()
      modifies this
      ensures Valid() && table == Written(old(table), writes)
    {
      hide Put, UniqueNames, Serial;
      for i := 0 to |writes|
        invariant Valid() && Written(table, writes[i..]) == Written(old(table), writes)
      {
        assert writes[i..][0] == writes[i] && writes[i..][1..] == writes[i + 1..];
        var code := Write(writes[i]);
      }
    }
  }
}
