/**
 Texts as `fgets` delivers them: pieces of at most `n` characters, each ending
 with a newline, with the buffer full, or with the text.
 */
module Lines {

  /** How many characters the next `fgets` takes. */
  function Taken(text: string, n: nat): (k: nat)
    requires n >= 1
    ensures k <= |text| && k <= n && (text != [] ==> k >= 1)
  {
    if text == [] then 0
    else if text[0] == '\n' || n == 1 then 1
    else 1 + Taken(text[1..], n - 1)
  }

  /** All the pieces of a text. */
  function Chunks(text: string, n: nat): seq<string>
    requires n >= 1
    decreases |text|
  {
    if text == [] then [] else [text[..Taken(text, n)]] + Chunks(text[Taken(text, n)..], n)
  }

  function Concat(pieces: seq<string>): string {
    if pieces == [] then [] else pieces[0] + Concat(pieces[1..])
  }

  ghost predicate IsChunk(c: string, n: nat) {
    0 < |c| <= n && forall i :: 0 <= i < |c| - 1 ==> c[i] != '\n'
  }

  /** A piece after which the next one starts, whatever follows. */
  ghost predicate IsFull(c: string, n: nat) {
    IsChunk(c, n) && (|c| == n || c[|c| - 1] == '\n')
  }

  lemma {:induction false} TakesPiece(c: string, rest: string, n: nat)
    requires IsFull(c, n)
    ensures Taken(c + rest, n) == |c|
    decreases |c|
  {
    var t := c + rest;
    if |c| > 1 {
      assert t[1..] == c[1..] + rest && t[0] != '\n';
      TakesPiece(c[1..], rest, n - 1);
    }
  }

  lemma TakesFirst(c: string, rest: string, n: nat)
    requires IsFull(c, n)
    ensures Chunks(c + rest, n) == [c] + Chunks(rest, n)
  {
    TakesPiece(c, rest, n);
    assert (c + rest)[..|c|] == c && (c + rest)[|c|..] == rest;
  }

  lemma {:induction false} TakesAll(pieces: seq<string>, rest: string, n: nat)
    requires n >= 1 && forall c :: c in pieces ==> IsFull(c, n)
    ensures Chunks(Concat(pieces) + rest, n) == pieces + Chunks(rest, n)
    decreases |pieces|
  {
    hide IsFull;
    if pieces == [] {
      assert Concat(pieces) + rest == rest;
    } else {
      assert IsFull(pieces[0], n);
      TakesAll(pieces[1..], rest, n);
      assert Concat(pieces) + rest == pieces[0] + (Concat(pieces[1..]) + rest);
      TakesFirst(pieces[0], Concat(pieces[1..]) + rest, n);
    }
  }

  lemma {:induction false} TakenIsChunk(text: string, n: nat)
    requires n >= 1 && text != []
    ensures var c := text[..Taken(text, n)]; IsChunk(c, n) && (Taken(text, n) < |text| ==> IsFull(c, n))
    decreases n
  {
    if text[0] != '\n' && n > 1 && |text| > 1 {
      TakenIsChunk(text[1..], n - 1);
      assert text[..Taken(text, n)] == [text[0]] + text[1..][..Taken(text[1..], n - 1)];
    }
  }

  /** The pieces are the text again, and all but the last are full. */
  lemma {:induction false} ChunksShape(text: string, n: nat)
    requires n >= 1
    ensures Concat(Chunks(text, n)) == text
    ensures forall i :: 0 <= i < |Chunks(text, n)| ==> IsChunk(Chunks(text, n)[i], n)
    ensures forall i :: 0 <= i < |Chunks(text, n)| - 1 ==> IsFull(Chunks(text, n)[i], n)
    decreases |text|
  {
    if text != [] {
      var k := Taken(text, n);
      TakenIsChunk(text, n);
      ChunksShape(text[k..], n);
      hide IsChunk, IsFull, Taken;
      var cs, rest := Chunks(text, n), Chunks(text[k..], n);
      assert cs[0] == text[..k] && cs[1..] == rest && forall i :: 0 < i < |cs| ==> cs[i] == rest[i - 1];
      assert |cs| > 1 ==> k < |text|;
    }
  }

  lemma {:induction false} ConcatSplit(a: seq<string>, b: seq<string>)
    ensures Concat(a + b) == Concat(a) + Concat(b)
    decreases |a|
  {
    if a == [] {
      assert a + b == b;
    } else {
      assert (a + b)[0] == a[0] && (a + b)[1..] == a[1..] + b;
      ConcatSplit(a[1..], b);
    }
  }

  // ------------------------------------------------------------ lines of a text

  /** The length of the first line, its newline included. */
  function LineLength(text: string): (k: nat)
    ensures k <= |text| && (text != [] ==> k >= 1)
  {
    if text == [] then 0 else if text[0] == '\n' then 1 else 1 + LineLength(text[1..])
  }

  /** The lines of a text, each with its newline; the last one may lack it. */
  function TextLines(text: string): seq<string>
    decreases |text|
  {
    if text == [] then [] else [text[..LineLength(text)]] + TextLines(text[LineLength(text)..])
  }

  lemma {:induction false} TakenIsLine(text: string, n: nat)
    requires n >= 1
    ensures Taken(text, n) == if LineLength(text) <= n then LineLength(text) else n
    decreases |text|
  {
    if text != [] && text[0] != '\n' && n > 1 {
      TakenIsLine(text[1..], n - 1);
    }
  }

  /** `fgets` delivers the lines exactly when every line fits. */
  lemma {:induction false} ChunksAreLines(text: string, n: nat)
    requires n >= 1
    ensures Chunks(text, n) == TextLines(text) <==> forall i :: 0 <= i < |TextLines(text)| ==> |TextLines(text)[i]| <= n
    decreases |text|
  {
    if text != [] {
      var k, m := Taken(text, n), LineLength(text);
      var cs, ls := Chunks(text, n), TextLines(text);
      TakenIsLine(text, n);
      assert cs[0] == text[..k] && ls[0] == text[..m];
      if m <= n {
        ChunksAreLines(text[m..], n);
        assert cs[1..] == Chunks(text[m..], n) && ls[1..] == TextLines(text[m..]);
        assert forall i :: 0 < i < |ls| ==> ls[i] == ls[1..][i - 1];
        assert forall i :: 0 <= i < |ls[1..]| ==> ls[1..][i] == ls[i + 1];
        assert cs == [cs[0]] + cs[1..] && ls == [ls[0]] + ls[1..];
      }
    }
  }

  /** A line: a newline only at its end. */
  ghost predicate IsLine(l: string) {
    l != [] && forall i :: 0 <= i < |l| - 1 ==> l[i] != '\n'
  }

  ghost predicate Ended(l: string) {
    l != [] && l[|l| - 1] == '\n'
  }

  lemma {:induction false} FirstLine(text: string)
    requires text != []
    ensures IsLine(text[..LineLength(text)]) && (LineLength(text) < |text| ==> Ended(text[..LineLength(text)]))
    decreases |text|
  {
    if text[0] != '\n' && |text| > 1 {
      FirstLine(text[1..]);
      assert text[..LineLength(text)] == [text[0]] + text[1..][..LineLength(text[1..])];
    }
  }

  /** Lines as a text has them: all but the last are ended. */
  ghost predicate Proper(lines: seq<string>) {
    (forall i :: 0 <= i < |lines| ==> IsLine(lines[i])) && forall i :: 0 <= i < |lines| - 1 ==> Ended(lines[i])
  }

  lemma ProperFirst(first: string, rest: seq<string>)
    requires IsLine(first) && Proper(rest) && (rest != [] ==> Ended(first))
    ensures Proper([first] + rest)
  {
    hide IsLine, Ended;
  }

  /** The lines are the text again. */
  lemma {:induction false} TextLinesShape(text: string)
    ensures Concat(TextLines(text)) == text && Proper(TextLines(text))
    decreases |text|
  {
    if text != [] {
      hide IsLine, Ended, LineLength, Proper;
      var k := LineLength(text);
      FirstLine(text);
      TextLinesShape(text[k..]);
      var first, rest := text[..k], TextLines(text[k..]);
      assert TextLines(text) == [first] + rest;
      hide TextLines;
      assert rest != [] ==> k < |text| by { NoLines(); }
      ProperFirst(first, rest);
      assert Concat([first] + rest) == first + Concat(rest) by { assert ([first] + rest)[1..] == rest; }
    }
  }

  lemma NoLines()
    ensures TextLines("") == []
  {
  }

  lemma PieceOfLine(l: string, n: nat)
    requires n >= 1 && IsLine(l)
    ensures |l| <= n && Ended(l) ==> IsFull(l, n)
    ensures |l| > n ==> IsFull(l[..n], n) && IsLine(l[n..]) && (Ended(l[n..]) <==> Ended(l))
  {
  }

  lemma NoChunks(n: nat)
    requires n >= 1
    ensures Chunks("", n) == []
  {
  }

  /** A line that fits is one piece. */
  lemma FittingLine(l: string, n: nat)
    requires n >= 1 && IsLine(l) && |l| <= n
    ensures Chunks(l, n) == [l]
  {
    TakenIsLine(l, n);
    LineIsItsFirst(l);
    assert l[..|l|] == l && l[|l|..] == [];
    NoChunks(n);
  }

  lemma {:induction false} LineIsItsFirst(l: string)
    requires IsLine(l)
    ensures LineLength(l) == |l|
    decreases |l|
  {
    if |l| > 1 {
      LineIsItsFirst(l[1..]);
    }
  }

  /** The pieces of a line do not depend on what follows it. */
  lemma {:induction false} ChunksOfLine(l: string, rest: string, n: nat)
    requires n >= 1 && IsLine(l) && (Ended(l) || rest == [])
    ensures Chunks(l + rest, n) == Chunks(l, n) + Chunks(rest, n)
    decreases |l|
  {
    hide Chunks, IsLine, Ended, IsFull;
    NoChunks(n);
    PieceOfLine(l, n);
    if rest == [] {
      assert l + rest == l;
    } else if |l| <= n {
      TakesFirst(l, rest, n);
      FittingLine(l, n);
    } else {
      TakesFirst(l[..n], l[n..] + rest, n);
      TakesFirst(l[..n], l[n..], n);
      assert l + rest == l[..n] + (l[n..] + rest) && l == l[..n] + l[n..];
      ChunksOfLine(l[n..], rest, n);
    }
  }

  function Newlines(s: string): nat {
    if s == [] then 0 else (if s[0] == '\n' then 1 else 0) + Newlines(s[1..])
  }

  lemma {:induction false} NewlinesSplit(a: string, b: string)
    ensures Newlines(a + b) == Newlines(a) + Newlines(b)
    decreases |a|
  {
    if a == [] {
      assert a + b == b;
    } else {
      assert (a + b)[0] == a[0] && (a + b)[1..] == a[1..] + b;
      NewlinesSplit(a[1..], b);
    }
  }

  lemma {:induction false} NewlinesOfLine(l: string)
    requires IsLine(l)
    ensures Newlines(l) == if Ended(l) then 1 else 0
    decreases |l|
  {
    if |l| > 1 {
      NewlinesOfLine(l[1..]);
    }
  }
}
