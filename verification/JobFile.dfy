/**
 The job-file rewriter of `erestart`: a mark line announces the user's command;
 the command can be read out of a job file and replaced in a new one.  `n` is the
 number of characters that one `fgets` can take.
 */
module JobFile {
  import opened Lines
  import opened Options

  // ----------------------------------------------------------------- mark lines

  /** The first position from `i` on that holds no space. */
  function AfterSpaces(s: string, i: nat): (r: nat)
    requires i <= |s|
    ensures i <= r <= |s| && (r < |s| ==> s[r] != ' ') && forall k :: i <= k < r ==> s[k] == ' '
    decreases |s| - i
  {
    if i < |s| && s[i] == ' ' then AfterSpaces(s, i + 1) else i
  }

  /** The first position from `i` on that holds a space, or the end. */
  function NextSpace(s: string, i: nat): (r: nat)
    requires i <= |s|
    ensures i <= r <= |s| && (r < |s| ==> s[r] == ' ') && forall k :: i <= k < r ==> s[k] != ' '
    decreases |s| - i
  {
    if i < |s| && s[i] != ' ' then NextSpace(s, i + 1) else i
  }

  const WORDS := ["LSBATCH:", "User", "input"]

  /** Nothing but spaces from `i` to `j`. */
  ghost predicate Spaces(s: string, i: int, j: int) {
    0 <= i <= j <= |s| && forall k :: i <= k < j ==> s[k] == ' '
  }

  ghost predicate WordAt(s: string, i: int, w: string) {
    0 <= i && i + |w| <= |s| && s[i..i + |w|] == w
  }

  /**
   The remaining words, from word `k` on, stand at the end of `s` from `i` on:
   spaces before each word, at least one between two, any number at the end.
   */
  ghost predicate WordsFrom(s: string, i: nat, k: nat)
    requires k <= 3
    decreases 3 - k
  {
    if k == 3 then Spaces(s, i, |s|)
    else exists b :: Spaces(s, i, b) && WordAt(s, b, WORDS[k]) && (k > 0 ==> b > i) && WordsFrom(s, b + |WORDS[k]|, k + 1)
  }

  /** A mark: `#`, then the three words. */
  ghost predicate IsMark(s: string) {
    s != [] && s[0] == '#' && WordsFrom(s, 1, 0)
  }

  lemma WordsHaveNoSpaces(k: nat)
    requires k < 3
    ensures WORDS[k] != [] && ' ' !in WORDS[k]
  {
  }

  /** The words determine where they stand. */
  lemma OneWay(s: string, i: nat, k: nat, b: int)
    requires k < 3 && Spaces(s, i, b) && WordAt(s, b, WORDS[k]) && WordsFrom(s, b + |WORDS[k]|, k + 1)
    ensures b == AfterSpaces(s, i) && b + |WORDS[k]| == NextSpace(s, b)
  {
    var w := WORDS[k];
    WordsHaveNoSpaces(k);
    assert s[b] == s[b..b + |w|][0] == w[0];
    forall j | b <= j < b + |w| ensures s[j] != ' ' {
      assert s[j] == s[b..b + |w|][j - b] == w[j - b];
    }
    var e := b + |w|;
    assert e < |s| ==> s[e] == ' ';
  }

  /** One round of the loop decides one word. */
  lemma DecideWord(s: string, i: nat, from: nat, k: nat)
    requires k < 3 && i <= from <= |s| && Spaces(s, i, from) && (k > 0 <==> i < from)
    ensures var b := AfterSpaces(s, from);
            var e := NextSpace(s, b);
            WordsFrom(s, i, k) <==> s[b..e] == WORDS[k] && WordsFrom(s, e, k + 1)
  {
    var b := AfterSpaces(s, from);
    var e := NextSpace(s, b);
    assert Spaces(s, i, b);
    if WordsFrom(s, i, k) {
      var b' :| Spaces(s, i, b') && WordAt(s, b', WORDS[k]) && (k > 0 ==> b' > i) && WordsFrom(s, b' + |WORDS[k]|, k + 1);
      OneWay(s, i, k, b');
      assert b' == b;
    }
    if s[b..e] == WORDS[k] && WordsFrom(s, e, k + 1) {
      assert e == b + |WORDS[k]| && WordAt(s, b, WORDS[k]);
    }
  }

  method SkipSpaces(s: string, i: nat) returns (r: nat)
    requires i <= |s|
    ensures r == AfterSpaces(s, i)
  {
    r := i;
    while r < |s| && s[r] == ' '
      invariant i <= r <= |s| && AfterSpaces(s, i) == AfterSpaces(s, r)
    {
      r := r + 1;
    }
  }

  method FindSpace(s: string, i: nat) returns (r: nat)
    requires i <= |s|
    ensures r == NextSpace(s, i)
  {
    r := i;
    while r < |s| && s[r] != ' '
      invariant i <= r <= |s| && NextSpace(s, i) == NextSpace(s, r)
    {
      r := r + 1;
    }
  }

  function WithoutNewline(line: string): string {
    if line != [] && line[|line| - 1] == '\n' then line[..|line| - 1] else line
  }

  /** `isUserCmdLineMark`: the cursor stands on `#` or on the space that ended a word. */
  method IsUserCmdLineMark(line: string) returns (mark: bool)
    requires line != []
    ensures mark <==> IsMark(WithoutNewline(line))
  {
    hide WordsFrom;
    var s := WithoutNewline(line);
    if s == [] || s[0] != '#' {
      return false;
    }
    var cursor, found, k := 0, true, 0;
    while k < 3 && found
      invariant 0 <= k <= 3 && 0 <= cursor <= |s| && (found <==> cursor < |s|)
      invariant found && k > 0 ==> s[cursor] == ' '
      invariant k == 0 ==> cursor == 0
      invariant IsMark(s) <==> WordsFrom(s, if k == 0 then 1 else cursor, k)
    {
      var b := SkipSpaces(s, cursor + 1);
      var e := FindSpace(s, b);
      DecideWord(s, if k == 0 then 1 else cursor, cursor + 1, k);
      if s[b..e] != WORDS[k] {
        return false;
      }
      cursor, found, k := e, e < |s|, k + 1;
    }
    AtTheEnd(s, cursor, k);
    if k != 3 {
      return false;
    }
    if found {
      var e := SkipSpaces(s, cursor + 1);
      return e == |s|;
    }
    return true;
  }

  /** With the text used up no word is left to come; after the words only spaces may. */
  lemma AtTheEnd(s: string, i: nat, k: nat)
    requires 0 < k <= 3 && i <= |s|
    ensures k < 3 && i == |s| ==> !WordsFrom(s, i, k)
    ensures k == 3 && i == |s| ==> WordsFrom(s, i, k)
    ensures k == 3 && i < |s| && s[i] == ' ' ==> (WordsFrom(s, i, k) <==> AfterSpaces(s, i + 1) == |s|)
  {
  }

  // ---------------------------------------------------------- lines of a job file

  datatype Kind = Blank | Comment(mark: bool) | Command

  /** How the line loops see a line. */
  ghost function KindOf(line: string): Kind {
    var p := AfterSpaces(line, 0);
    if p == |line| || line[p] == '\n' then Blank
    else if line[p] == '#' then Comment(IsMark(WithoutNewline(line[p..])))
    else Command
  }

  function CommandText(line: string): string {
    WithoutNewline(line[AfterSpaces(line, 0)..])
  }

  /** The nearest line before `i` that is not blank is a mark. */
  ghost predicate AfterMark(lines: seq<string>, i: int) {
    exists m :: MarkedBy(lines, m, i)
  }

  ghost predicate MarkedBy(lines: seq<string>, m: int, i: int) {
    0 <= m < i <= |lines| && KindOf(lines[m]) == Comment(true) && forall j :: m < j < i ==> KindOf(lines[j]).Blank?
  }

  /** Line `i` is the first command after a mark. */
  ghost predicate IsUserCmd(lines: seq<string>, i: int) {
    0 <= i < |lines| && KindOf(lines[i]).Command? && AfterMark(lines, i)
  }

  /** The flag of the loops: how it goes on from line to line. */
  lemma FlagNext(lines: seq<string>, i: nat)
    requires i < |lines|
    ensures AfterMark(lines, i + 1) <==>
            KindOf(lines[i]) == Comment(true) || (KindOf(lines[i]).Blank? && AfterMark(lines, i))
  {
    hide KindOf;
    if KindOf(lines[i]) == Comment(true) {
      assert MarkedBy(lines, i, i + 1);
    }
    if KindOf(lines[i]).Blank? && AfterMark(lines, i) {
      var m :| MarkedBy(lines, m, i);
      assert MarkedBy(lines, m, i + 1);
    }
    if AfterMark(lines, i + 1) {
      var m :| MarkedBy(lines, m, i + 1);
      assert m < i ==> MarkedBy(lines, m, i);
    }
  }

  ghost predicate FirstUserCmd(lines: seq<string>, i: int) {
    IsUserCmd(lines, i) && forall j :: 0 <= j < i ==> !IsUserCmd(lines, j)
  }

  /** What `getUserCmdFromJF` returns for a file. */
  ghost predicate Found(lines: seq<string>, cmd: Option<string>) {
    match cmd
    case None => forall i :: !IsUserCmd(lines, i)
    case Some(c) => exists i :: FirstUserCmd(lines, i) && c == CommandText(lines[i])
  }

  lemma FoundOnce(lines: seq<string>, a: Option<string>, b: Option<string>)
    requires Found(lines, a) && Found(lines, b)
    ensures a == b
  {
    hide KindOf, AfterMark, CommandText;
    if a.Some? && b.Some? {
      var i :| FirstUserCmd(lines, i) && a.value == CommandText(lines[i]);
      var j :| FirstUserCmd(lines, j) && b.value == CommandText(lines[j]);
      assert i == j;
    }
  }

  /** The test of both line loops on one line. */
  method Classify(line: string) returns (kind: Kind)
    ensures kind == KindOf(line)
  {
    var p := SkipSpaces(line, 0);
    if p == |line| || line[p] == '\n' {
      return Blank;
    }
    if line[p] == '#' {
      var mark := IsUserCmdLineMark(line[p..]);
      return Comment(mark);
    }
    return Command;
  }

  /** `getUserCmdFromJF`. */
  method GetUserCmd(text: string, n: nat) returns (cmd: Option<string>)
    requires n >= 1
    ensures Found(Chunks(text, n), cmd)
  {
    hide KindOf, AfterMark, Chunks;
    var lines, flag := Chunks(text, n), false;
    assert !AfterMark(lines, 0) by { NoneBefore(lines); }
    for i := 0 to |lines|
      invariant flag <==> AfterMark(lines, i)
      invariant forall j :: 0 <= j < i ==> !IsUserCmd(lines, j)
    {
      var kind := Classify(lines[i]);
      FlagNext(lines, i);
      match kind {
        case Comment(mark) => flag := mark;
        case Blank =>
        case Command =>
          if flag {
            assert FirstUserCmd(lines, i);
            return Some(CommandText(lines[i]));
          }
      }
    }
    return None;
  }

  lemma NoneBefore(lines: seq<string>)
    ensures !AfterMark(lines, 0)
  {
  }

  /** What stands in the new file for each line: only the users' commands change. */
  ghost function NewLine(lines: seq<string>, cmd: Option<string>, i: nat): string
    requires i < |lines|
  {
    if cmd.Some? && IsUserCmd(lines, i) then cmd.value + "\n" else lines[i]
  }

  ghost function NewLines(lines: seq<string>, cmd: Option<string>): seq<string> {
    seq(|lines|, i requires 0 <= i < |lines| => NewLine(lines, cmd, i))
  }

  ghost predicate AllFit(lines: seq<string>, n: nat) {
    forall i :: 0 <= i < |lines| ==> |lines[i]| <= n
  }

  /** `buildNewJobFile`, piece by piece; without a command the file is copied. */
  method BuildNewJobFile(text: string, cmd: Option<string>, n: nat) returns (copy: string)
    requires n >= 1
    ensures copy == Concat(NewLines(Chunks(text, n), cmd))
    ensures cmd.None? ==> copy == text
    ensures AllFit(TextLines(text), n) ==> copy == Concat(NewLines(TextLines(text), cmd))
  {
    hide KindOf, AfterMark, Chunks, Concat, TextLines;
    var lines, flag := Chunks(text, n), false;
    ghost var fresh' := NewLines(lines, cmd);
    assert !AfterMark(lines, 0) by { NoneBefore(lines); }
    copy := "";
    assert copy == Concat(fresh'[..0]) by { ConcatNothing(); }
    for i := 0 to |lines|
      invariant flag <==> AfterMark(lines, i)
      invariant copy == Concat(fresh'[..i])
    {
      ConcatNext(fresh', i);
      var kind := Classify(lines[i]);
      FlagNext(lines, i);
      match kind {
        case Comment(mark) => flag := mark;
        case Blank =>
        case Command =>
          if flag {
            flag := false;
            if cmd.Some? {
              copy := copy + cmd.value;
              copy := copy + "\n";
              continue;
            }
          }
      }
      copy := copy + lines[i];
    }
    assert fresh'[..|lines|] == fresh';
    ChunksAreLines(text, n);
    if cmd.None? {
      assert fresh' == lines;
      ChunksShape(text, n);
    }
  }

  lemma ConcatNothing()
    ensures Concat([]) == ""
  {
  }

  lemma ConcatNext(pieces: seq<string>, i: nat)
    requires i < |pieces|
    ensures Concat(pieces[..i + 1]) == Concat(pieces[..i]) + pieces[i]
  {
    assert pieces[..i + 1] == pieces[..i] + [pieces[i]];
    ConcatSplit(pieces[..i], [pieces[i]]);
    assert Concat([pieces[i]]) == pieces[i] + Concat([]);
  }

  // -------------------------------------------------------- reading the new command

  /** A command that one line can hold: not blank, no comment, no leading space, short enough. */
  ghost predicate OneLine(cmd: string, n: nat) {
    0 < |cmd| <= n && cmd[0] != ' ' && cmd[0] != '#' && '\n' !in cmd
  }

  lemma CommandTextIsOneLine(line: string, n: nat)
    requires IsChunk(line, n) && KindOf(line).Command?
    ensures OneLine(CommandText(line), n)
  {
  }

  /** A command at the start of the remaining text is the next line, alone. */
  lemma CommandLine(cmd: string, rest: string, n: nat)
    requires OneLine(cmd, n)
    ensures var lines := Chunks(cmd + "\n" + rest, n);
            |lines| > 0 && KindOf(lines[0]).Command? && CommandText(lines[0]) == cmd
  {
    var line := if |cmd| == n then cmd else cmd + "\n";
    assert IsFull(line, n);
    if |cmd| == n {
      assert cmd + "\n" + rest == line + ("\n" + rest);
      TakesFirst(line, "\n" + rest, n);
    } else {
      TakesFirst(line, rest, n);
    }
    assert AfterSpaces(line, 0) == 0 && line[0..] == line;
  }

  /** Whether a line is the user's command depends only on the lines up to it. */
  lemma PrefixDecides(a: seq<string>, b: seq<string>, i: nat)
    requires i < |a| && i < |b| && a[..i + 1] == b[..i + 1]
    ensures IsUserCmd(a, i) <==> IsUserCmd(b, i)
  {
    hide KindOf;
    assert forall j :: 0 <= j <= i ==> a[j] == a[..i + 1][j] == b[j];
    if AfterMark(a, i) {
      var m :| MarkedBy(a, m, i);
      assert MarkedBy(b, m, i);
    }
    if AfterMark(b, i) {
      var m :| MarkedBy(b, m, i);
      assert MarkedBy(a, m, i);
    }
  }

  lemma MarkBefore(a: seq<string>, b: seq<string>, i: nat)
    requires i <= |a| && i <= |b| && a[..i] == b[..i] && AfterMark(a, i)
    ensures AfterMark(b, i)
  {
    hide KindOf;
    assert forall j :: 0 <= j < i ==> a[j] == a[..i][j] == b[j];
    var m :| MarkedBy(a, m, i);
    assert MarkedBy(b, m, i);
  }

  /** The new file up to the new command reads line by line like the old one. */
  lemma NewFileLines(text: string, cmd: string, n: nat, i: nat)
    requires n >= 1 && FirstUserCmd(Chunks(text, n), i)
    ensures var old', copy := Chunks(text, n), Concat(NewLines(Chunks(text, n), Some(cmd)));
            exists rest :: Chunks(copy, n) == old'[..i] + Chunks(cmd + "\n" + rest, n)
  {
    hide IsUserCmd, Chunks, Concat;
    var lines := Chunks(text, n);
    var new' := NewLines(lines, Some(cmd));
    InFile(lines, i);
    assert new'[..i] == lines[..i];
    var rest := Concat(new'[i + 1..]);
    assert Concat(new') == Concat(lines[..i]) + (cmd + "\n" + rest) by {
      assert new' == new'[..i] + new'[i..] && new'[i..] == [new'[i]] + new'[i + 1..];
      ConcatSplit(new'[..i], new'[i..]);
      ConcatFirst(new'[i], new'[i + 1..]);
    }
    ChunksShape(text, n);
    forall c | c in lines[..i] ensures IsFull(c, n) {
      var k :| 0 <= k < i && lines[..i][k] == c;
      assert lines[k] == c;
    }
    hide IsFull, IsChunk;
    TakesAll(lines[..i], cmd + "\n" + rest, n);
  }

  lemma InFile(lines: seq<string>, i: int)
    requires IsUserCmd(lines, i)
    ensures 0 <= i < |lines|
  {
  }

  lemma ConcatFirst(piece: string, pieces: seq<string>)
    ensures Concat([piece] + pieces) == piece + Concat(pieces)
  {
    assert ([piece] + pieces)[1..] == pieces;
  }

  /**
   For a job file with a user's command, the rebuilt file yields the new command
   exactly when it fits on one line.
   */
  lemma RebuiltCommand(text: string, cmd: string, n: nat, found: Option<string>)
    requires n >= 1 && !Found(Chunks(text, n), None)
    requires Found(Chunks(Concat(NewLines(Chunks(text, n), Some(cmd))), n), found)
    ensures found == Some(cmd) <==> OneLine(cmd, n)
  {
    var lines := Chunks(text, n);
    var copy := Concat(NewLines(lines, Some(cmd)));
    var again := Chunks(copy, n);
    if OneLine(cmd, n) {
      var i := LeastUserCmd(lines);
      NewFileLines(text, cmd, n, i);
      var rest :| again == lines[..i] + Chunks(cmd + "\n" + rest, n);
      CommandLine(cmd, rest, n);
      FoundThere(lines, again, Chunks(cmd + "\n" + rest, n), i);
      FoundOnce(again, found, Some(cmd));
    } else if found.Some? {
      var i :| FirstUserCmd(again, i) && found.value == CommandText(again[i]);
      ChunksShape(copy, n);
      CommandTextIsOneLine(again[i], n);
    }
  }

  lemma LeastUserCmd(lines: seq<string>) returns (i: nat)
    requires !Found(lines, None)
    ensures FirstUserCmd(lines, i)
  {
    hide IsUserCmd;
    var k :| IsUserCmd(lines, k);
    assert 0 <= k < |lines| by { InFile(lines, k); }
    i := 0;
    while !IsUserCmd(lines, i)
      invariant i <= k && forall j :: 0 <= j < i ==> !IsUserCmd(lines, j)
      decreases k - i
    {
      i := i + 1;
    }
  }

  lemma FoundThere(lines: seq<string>, again: seq<string>, tail: seq<string>, i: nat)
    requires FirstUserCmd(lines, i) && i < |lines| && again == lines[..i] + tail && |tail| > 0
    requires KindOf(tail[0]).Command?
    ensures Found(again, Some(CommandText(tail[0])))
  {
    hide KindOf, AfterMark, CommandText;
    assert again[i] == tail[0];
    MarkBefore(lines, again, i);
    forall j | 0 <= j < i ensures !IsUserCmd(again, j) {
      assert lines[..j + 1] == again[..j + 1];
      PrefixDecides(lines, again, j);
    }
    assert FirstUserCmd(again, i);
  }

  // ---------------------------------------------------- pieces and whole lines

  // The loop of `buildNewJobFile` once more, as a machine with the flag as its
  // state, to compare a run over the pieces with a run over the lines.

  ghost function Put(line: string, flag: bool, cmd: string): string {
    if flag && KindOf(line).Command? then cmd + "\n" else line
  }

  ghost function Flag(line: string, flag: bool): bool {
    match KindOf(line)
    case Comment(mark) => mark
    case Blank => flag
    case Command => false
  }

  ghost function Out(lines: seq<string>, flag: bool, cmd: string): string {
    if lines == [] then "" else Put(lines[0], flag, cmd) + Out(lines[1..], Flag(lines[0], flag), cmd)
  }

  ghost function FlagAfter(lines: seq<string>, flag: bool): bool {
    if lines == [] then flag else FlagAfter(lines[1..], Flag(lines[0], flag))
  }

  lemma {:induction false} OutIs(lines: seq<string>, cmd: string, i: nat)
    requires i <= |lines|
    ensures Concat(NewLines(lines, Some(cmd))[i..]) == Out(lines[i..], AfterMark(lines, i), cmd)
    decreases |lines| - i
  {
    hide KindOf, AfterMark;
    var new' := NewLines(lines, Some(cmd));
    if i < |lines| {
      OutIs(lines, cmd, i + 1);
      FlagNext(lines, i);
      assert new'[i..] == [new'[i]] + new'[i + 1..];
      ConcatFirst(new'[i], new'[i + 1..]);
      assert lines[i..][0] == lines[i] && lines[i..][1..] == lines[i + 1..];
    }
  }

  lemma {:induction false} OutSplit(a: seq<string>, b: seq<string>, flag: bool, cmd: string)
    ensures Out(a + b, flag, cmd) == Out(a, flag, cmd) + Out(b, FlagAfter(a, flag), cmd)
    decreases |a|
  {
    hide KindOf, Put, Flag;
    if a == [] {
      assert a + b == b;
    } else {
      assert (a + b)[0] == a[0] && (a + b)[1..] == a[1..] + b;
      OutSplit(a[1..], b, Flag(a[0], flag), cmd);
    }
  }

  /** The run over the pieces, line by line. */
  ghost function OutPieces(lines: seq<string>, flag: bool, cmd: string, n: nat): string
    requires n >= 1
    decreases |lines|
  {
    if lines == [] then ""
    else Out(Chunks(lines[0], n), flag, cmd) + OutPieces(lines[1..], FlagAfter(Chunks(lines[0], n), flag), cmd, n)
  }

  lemma ProperRest(lines: seq<string>)
    requires Proper(lines) && lines != []
    ensures Proper(lines[1..]) && IsLine(lines[0]) && (Ended(lines[0]) || lines[1..] == [])
  {
  }

  lemma {:induction false} OutPiecesIs(lines: seq<string>, flag: bool, cmd: string, n: nat)
    requires n >= 1 && Proper(lines)
    ensures OutPieces(lines, flag, cmd, n) == Out(Chunks(Concat(lines), n), flag, cmd)
    decreases |lines|
  {
    hide KindOf, Proper, Chunks, IsLine, Ended;
    NoChunks(n);
    if lines != [] {
      ProperRest(lines);
      var pieces, rest := Chunks(lines[0], n), Concat(lines[1..]);
      assert lines[1..] == [] ==> rest == [];
      ChunksOfLine(lines[0], rest, n);
      OutSplit(pieces, Chunks(rest, n), flag, cmd);
      OutPiecesIs(lines[1..], FlagAfter(pieces, flag), cmd, n);
    }
  }

  /** Every line that is no command of the user fits. */
  ghost predicate OthersFit(lines: seq<string>, flag: bool, n: nat) {
    lines == []
    || (((flag && KindOf(lines[0]).Command?) || |lines[0]| <= n) && OthersFit(lines[1..], Flag(lines[0], flag), n))
  }

  lemma OutOf(piece: string, rest: seq<string>, flag: bool, cmd: string)
    ensures Out([piece] + rest, flag, cmd) == Put(piece, flag, cmd) + Out(rest, Flag(piece, flag), cmd)
    ensures FlagAfter([piece] + rest, flag) == FlagAfter(rest, Flag(piece, flag))
    ensures Out([piece], flag, cmd) == Put(piece, flag, cmd) && FlagAfter([piece], flag) == Flag(piece, flag)
  {
    hide KindOf, Put, Flag;
    assert ([piece] + rest)[1..] == rest;
    assert [piece][1..] == [];
    assert Out([], Flag(piece, flag), cmd) == "";
  }

  /** Something is written for every piece, and a newline for one that ends with it. */
  lemma {:induction false} OutShows(lines: seq<string>, flag: bool, cmd: string)
    requires lines != [] && forall i :: 0 <= i < |lines| ==> lines[i] != []
    ensures |Out(lines, flag, cmd)| >= 1
    ensures Ended(lines[|lines| - 1]) ==> Newlines(Out(lines, flag, cmd)) >= 1
    decreases |lines|
  {
    hide KindOf, Newlines;
    var first, rest := Put(lines[0], flag, cmd), Out(lines[1..], Flag(lines[0], flag), cmd);
    assert lines == [lines[0]] + lines[1..];
    OutOf(lines[0], lines[1..], flag, cmd);
    assert first != [];
    NewlinesSplit(first, rest);
    if |lines| > 1 {
      OutShows(lines[1..], Flag(lines[0], flag), cmd);
    } else if Ended(lines[0]) {
      assert Ended(first);
      EndedHasNewline(first);
    }
  }

  lemma {:induction false} EndedHasNewline(s: string)
    requires Ended(s)
    ensures Newlines(s) >= 1
    decreases |s|
  {
    if |s| > 1 {
      EndedHasNewline(s[1..]);
    }
  }

  lemma NewlinesOfCommand(cmd: string)
    ensures Newlines(cmd + "\n") == Newlines(cmd) + 1
  {
    NewlinesSplit(cmd, "\n");
    assert Newlines("\n") == 1;
  }

  /** The first piece of a long command line is blank, or a command itself. */
  lemma CommandPiece(l: string, n: nat)
    requires IsLine(l) && 1 <= n < |l| && KindOf(l).Command?
    ensures if AfterSpaces(l, 0) < n then KindOf(l[..n]).Command? else KindOf(l[..n]).Blank? && KindOf(l[n..]).Command?
  {
    var p := AfterSpaces(l, 0);
    if p < n {
      SpacesEnd(l[..n], p);
    } else {
      SpacesEnd(l[..n], n);
      SpacesEnd(l[n..], p - n);
    }
  }

  lemma {:induction false} SpacesEndFrom(s: string, i: nat, p: nat)
    requires i <= p <= |s| && (p < |s| ==> s[p] != ' ') && forall k :: i <= k < p ==> s[k] == ' '
    ensures AfterSpaces(s, i) == p
    decreases p - i
  {
    if i < p {
      SpacesEndFrom(s, i + 1, p);
    }
  }

  lemma SpacesEnd(s: string, p: nat)
    requires p <= |s| && (p < |s| ==> s[p] != ' ') && forall k :: 0 <= k < p ==> s[k] == ' '
    ensures AfterSpaces(s, 0) == p
  {
    SpacesEndFrom(s, 0, p);
  }

  /**
   What a command line becomes piece by piece: never less than the new command and,
   if the line is long, more; and if no newline is added, the flag ends up down.
   */
  lemma {:induction false} LongLine(l: string, cmd: string, n: nat)
    requires n >= 1 && IsLine(l) && KindOf(l).Command?
    ensures var o := Out(Chunks(l, n), true, cmd);
            && Newlines(o) >= Newlines(cmd) + 1
            && |o| >= |cmd| + 1 && (|l| > n ==> |o| > |cmd| + 1)
            && (Ended(l) ==> Newlines(o) > Newlines(cmd) + 1 || !FlagAfter(Chunks(l, n), true))
    decreases |l|
  {
    hide KindOf, IsLine, Ended, IsFull, Chunks, Newlines, Out, FlagAfter;
    NewlinesOfCommand(cmd);
    if |l| <= n {
      FittingLine(l, n);
      OutOf(l, [], true, cmd);
    } else {
      var piece, tail := l[..n], l[n..];
      PieceOfLine(l, n);
      CommandPiece(l, n);
      assert l == piece + tail;
      TakesFirst(piece, tail, n);
      OutOf(piece, Chunks(tail, n), true, cmd);
      if AfterSpaces(l, 0) < n {
        NewlinesSplit(cmd + "\n", Out(Chunks(tail, n), false, cmd));
        TailShows(tail, cmd, n);
      } else {
        NewlinesSplit(piece, Out(Chunks(tail, n), true, cmd));
        LongLine(tail, cmd, n);
      }
    }
  }

  lemma TailShows(tail: string, cmd: string, n: nat)
    requires n >= 1 && IsLine(tail)
    ensures |Out(Chunks(tail, n), false, cmd)| >= 1
    ensures Ended(tail) ==> Newlines(Out(Chunks(tail, n), false, cmd)) >= 1
  {
    ChunksShape(tail, n);
    LastPiece(tail, n);
    hide KindOf, Out, Newlines, Chunks, Ended;
    OutShows(Chunks(tail, n), false, cmd);
  }

  lemma {:induction false} LastPiece(l: string, n: nat)
    requires n >= 1 && IsLine(l)
    ensures Chunks(l, n) != [] && (Ended(l) ==> Ended(Chunks(l, n)[|Chunks(l, n)| - 1]))
    decreases |l|
  {
    hide IsLine, Ended, IsFull, Chunks;
    if |l| <= n {
      FittingLine(l, n);
    } else {
      PieceOfLine(l, n);
      assert l == l[..n] + l[n..];
      TakesFirst(l[..n], l[n..], n);
      LastPiece(l[n..], n);
    }
  }

  /**
   The run over the pieces against the run over the lines.  Piece by piece never
   fewer newlines are written; if as many, then at least as much text, and more if
   a line is long.
   */
  lemma {:induction false} PiecesAgainstLines(lines: seq<string>, fl: bool, fp: bool, cmd: string, n: nat)
    requires n >= 1 && Proper(lines) && OthersFit(lines, fl, n) && (fl ==> fp)
    ensures var a, b := OutPieces(lines, fp, cmd, n), Out(lines, fl, cmd);
            && Newlines(a) >= Newlines(b)
            && (fl == fp && Newlines(a) == Newlines(b) ==> |a| >= |b| && (!AllFit(lines, n) ==> |a| > |b|))
            && (fl == fp && AllFit(lines, n) ==> a == b)
    decreases |lines|
  {
    hide KindOf, Proper, Chunks, IsLine, Ended, Newlines, FlagAfter, AllFit;
    if lines == [] {
      NothingFits(n);
    } else {
      ProperRest(lines);
      FitRest(lines, n);
      var l, rest := lines[0], lines[1..];
      var pieces := Chunks(l, n);
      var fl', fp' := Flag(l, fl), FlagAfter(pieces, fp);
      var o, p := Out(pieces, fp, cmd), Put(l, fl, cmd);
      if |l| <= n {
        FittingLine(l, n);
        OutOf(l, [], fp, cmd);
      }
      LineStep(l, fl, fp, cmd, n);
      PiecesAgainstLines(rest, fl', fp', cmd, n);
      NewlinesSplit(o, OutPieces(rest, fp', cmd, n));
      NewlinesSplit(p, Out(rest, fl', cmd));
    }
  }

  /** One line of the comparison. */
  lemma LineStep(l: string, fl: bool, fp: bool, cmd: string, n: nat)
    requires n >= 1 && IsLine(l) && (fl ==> fp) && ((fl && KindOf(l).Command?) || |l| <= n)
    ensures var o, p, fl', fp' := Out(Chunks(l, n), fp, cmd), Put(l, fl, cmd), Flag(l, fl), FlagAfter(Chunks(l, n), fp);
            && (fl' ==> fp') && Newlines(o) >= Newlines(p)
            && (|l| <= n && fl == fp ==> o == p && fl' == fp')
            && (|l| > n ==> |o| > |p| && (Ended(l) && Newlines(o) == Newlines(p) ==> fl' == fp'))
  {
    hide KindOf, Chunks, IsLine, Ended, Newlines, FlagAfter, Out;
    NewlinesOfCommand(cmd);
    if |l| <= n {
      FittingLine(l, n);
      OutOf(l, [], fp, cmd);
      NewlinesOfLine(l);
    } else {
      LongLine(l, cmd, n);
    }
  }

  lemma NothingFits(n: nat)
    ensures AllFit([], n)
  {
  }

  lemma FitRest(lines: seq<string>, n: nat)
    requires lines != []
    ensures AllFit(lines, n) <==> |lines[0]| <= n && AllFit(lines[1..], n)
  {
    if |lines[0]| <= n && AllFit(lines[1..], n) {
      assert forall i :: 0 < i < |lines| ==> lines[i] == lines[1..][i - 1];
    }
    if AllFit(lines, n) {
      assert forall i :: 0 <= i < |lines[1..]| ==> lines[1..][i] == lines[i + 1];
    }
  }

  lemma {:induction false} OthersFitFrom(lines: seq<string>, n: nat, i: nat)
    requires i <= |lines| && forall k :: 0 <= k < |lines| && !IsUserCmd(lines, k) ==> |lines[k]| <= n
    ensures OthersFit(lines[i..], AfterMark(lines, i), n)
    decreases |lines| - i
  {
    hide KindOf, AfterMark;
    if i < |lines| {
      OthersFitFrom(lines, n, i + 1);
      FlagNext(lines, i);
      assert lines[i..][0] == lines[i] && lines[i..][1..] == lines[i + 1..];
    }
  }

  /**
   If all lines but the users' commands fit the buffer, the new file is the line by
   line rewrite of the old one exactly when the commands fit too.
   */
  lemma RewritesLines(text: string, cmd: string, n: nat)
    requires n >= 1
    requires var lines := TextLines(text);
             forall i :: 0 <= i < |lines| && !IsUserCmd(lines, i) ==> |lines[i]| <= n
    ensures var lines := TextLines(text);
            Concat(NewLines(Chunks(text, n), Some(cmd))) == Concat(NewLines(lines, Some(cmd))) <==>
            forall i :: IsUserCmd(lines, i) ==> |lines[i]| <= n
  {
    var lines, pieces := TextLines(text), Chunks(text, n);
    TextLinesShape(text);
    OutIs(lines, cmd, 0);
    OutIs(pieces, cmd, 0);
    NoneBefore(lines);
    NoneBefore(pieces);
    OthersFitFrom(lines, n, 0);
    assert NewLines(lines, Some(cmd))[0..] == NewLines(lines, Some(cmd)) && lines[0..] == lines;
    assert NewLines(pieces, Some(cmd))[0..] == NewLines(pieces, Some(cmd)) && pieces[0..] == pieces;
    hide KindOf, AfterMark, Chunks, TextLines, Out, OutPieces, OthersFit, Concat, NewLines, Proper, Newlines;
    OutPiecesIs(lines, false, cmd, n);
    PiecesAgainstLines(lines, false, false, cmd, n);
    assert AllFit(lines, n) <==> forall i :: IsUserCmd(lines, i) ==> |lines[i]| <= n;
  }

  lemma ConcatThree(a: string, b: string, c: string)
    ensures Concat([a, b, c]) == a + b + c
  {
    assert [a, b, c][1..] == [b, c] && [b, c][1..] == [c] && [c][1..] == [];
    assert Concat([c]) == c && Concat([b, c]) == b + c;
  }

  /** A mark, a command and a command: only the first command is replaced. */
  lemma OutThree(mark: string, head: string, tail: string, cmd: string)
    requires KindOf(mark) == Comment(true) && KindOf(head).Command? && KindOf(tail).Command?
    ensures Out([mark, head, tail], false, cmd) == mark + cmd + "\n" + tail
  {
    hide KindOf, Out;
    OutOf(mark, [head, tail], false, cmd);
    OutOf(head, [tail], true, cmd);
    OutOf(tail, [], false, cmd);
    assert [mark] + [head, tail] == [mark, head, tail] && [head] + [tail] == [head, tail];
    assert mark + (cmd + "\n" + tail) == mark + cmd + "\n" + tail;
  }

  /** What becomes of a command line that takes two reads: its second piece stays in the file. */
  lemma LongCommandLeaves(mark: string, head: string, tail: string, cmd: string, n: nat)
    requires IsFull(mark, n) && KindOf(mark) == Comment(true)
    requires IsFull(head, n) && KindOf(head).Command? && !Ended(head)
    requires IsFull(tail, n) && KindOf(tail).Command?
    ensures Concat(NewLines(Chunks(mark + head + tail, n), Some(cmd))) == mark + cmd + "\n" + tail
  {
    assert n >= 1;
    hide KindOf, Chunks, Out, NewLines, Concat, IsFull, AfterMark;
    var pieces := [mark, head, tail];
    ConcatThree(mark, head, tail);
    TakesAll(pieces, "", n);
    NoChunks(n);
    assert mark + head + tail + "" == mark + head + tail && pieces + [] == pieces;
    OutIs(pieces, cmd, 0);
    NoneBefore(pieces);
    OutThree(mark, head, tail, cmd);
    assert pieces[0..] == pieces;
    assert NewLines(pieces, Some(cmd))[0..] == NewLines(pieces, Some(cmd));
  }

  const MARK := "# " + WORDS[0] + " " + WORDS[1] + " " + WORDS[2] + "\n"
  const COMMAND := "/usr/local/bin/program"
  const OPTIONS := " -i data\n"

  /** A job file on which the new command does not take the place of the old one, for reads of 22 characters. */
  lemma LongCommandExample()
    ensures Concat(NewLines(Chunks(MARK + COMMAND + OPTIONS, 22), Some("true"))) == MARK + "true" + "\n" + OPTIONS
  {
    hide KindOf, Chunks, NewLines, Concat;
    TheMark();
    CommandAt(COMMAND, 0);
    CommandAt(OPTIONS, 1);
    LongCommandLeaves(MARK, COMMAND, OPTIONS, "true", 22);
  }

  lemma CommandAt(line: string, p: nat)
    requires p < |line| && line[p] !in {' ', '#', '\n'} && forall k :: 0 <= k < p ==> line[k] == ' '
    ensures KindOf(line).Command?
  {
    SpacesEnd(line, p);
  }

  lemma MarkAt(line: string)
    requires line != [] && line[0] == '#' && IsMark(WithoutNewline(line))
    ensures KindOf(line) == Comment(true)
  {
    hide IsMark;
    SpacesEnd(line, 0);
    assert line[0..] == line;
  }

  lemma WordsStep(s: string, i: nat, k: nat, b: nat)
    requires k < 3 && Spaces(s, i, b) && WordAt(s, b, WORDS[k]) && (k > 0 ==> b > i) && WordsFrom(s, b + |WORDS[k]|, k + 1)
    ensures WordsFrom(s, i, k)
  {
  }

  lemma TheMark()
    ensures KindOf(MARK) == Comment(true)
  {
    hide AfterSpaces, WordsFrom, KindOf;
    var s := "# " + WORDS[0] + " " + WORDS[1] + " " + WORDS[2];
    assert WithoutNewline(MARK) == s;
    assert s[2..10] == WORDS[0] && s[11..15] == WORDS[1] && s[16..21] == WORDS[2];
    assert WordsFrom(s, 21, 3) by { NothingLeft(s); }
    WordsStep(s, 15, 2, 16);
    WordsStep(s, 10, 1, 11);
    WordsStep(s, 1, 0, 2);
    MarkAt(MARK);
  }

  /** The line that announces a command, letter by letter. */
  lemma TheMarkLine()
    ensures KindOf("# LSBATCH: User input\n") == Comment(true)
    ensures KindOf("#LSBATCH:   User  input  ") == Comment(true)
  {
    hide KindOf, WordsFrom;
    TheMark();
    assert MARK == "# LSBATCH: User input\n";
    OtherMark();
  }

  lemma OtherMark()
    ensures KindOf("#LSBATCH:   User  input  ") == Comment(true)
  {
    hide AfterSpaces, WordsFrom, KindOf;
    var s := "#" + WORDS[0] + "   " + WORDS[1] + "  " + WORDS[2] + "  ";
    assert s == "#LSBATCH:   User  input  ";
    assert WithoutNewline(s) == s;
    assert s[1..9] == WORDS[0] && s[12..16] == WORDS[1] && s[18..23] == WORDS[2];
    assert WordsFrom(s, 23, 3) by { SpacesLeft(s, 23); }
    WordsStep(s, 16, 2, 18);
    WordsStep(s, 9, 1, 12);
    WordsStep(s, 1, 0, 1);
    MarkAt(s);
  }

  lemma SpacesLeft(s: string, i: nat)
    requires Spaces(s, i, |s|)
    ensures WordsFrom(s, i, 3)
  {
  }

  lemma NothingLeft(s: string)
    ensures WordsFrom(s, |s|, 3)
  {
  }
}
