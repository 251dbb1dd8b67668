/** Text files as the two line readers of the library see them: fgets with a
    1024-byte buffer, which keeps the newline and cuts longer lines into pieces, and
    istream::getline, which drops it. */
module LineFiles {
  import opened CStrings

  /** sizeof(sLine) in the writer; fgets stores at most one character less. */
  const LINE_MAX := 1024

  function Concat(cs: seq<string>): string {
    if cs == [] then "" else cs[0] + Concat(cs[1..])
  }

  /** What fgets stores when text is all that is left of the file. */
  function FirstChunk(text: string): (c: string)
    ensures |c| <= |text| && text[..|c|] == c
    ensures c == "" <==> text == ""
    ensures |c| < LINE_MAX
  {
    var n := IndexOf(text, '\n');
    text[..Min(LINE_MAX - 1, if n < |text| then n + 1 else n)]
  }

  /** The successive fgets results over a whole file. */
  function Chunks(text: string): (cs: seq<string>)
    ensures Concat(cs) == text
    ensures forall c | c in cs :: 0 < |c| < LINE_MAX
  {
    if text == "" then [] else
      var c := FirstChunk(text);
      assert text == c + text[|c|..];
      [c] + Chunks(text[|c|..])
  }

  /** A chunk that ends at its newline. */
  predicate IsLine(c: string) {
    0 < |c| < LINE_MAX && c[|c| - 1] == '\n' && forall j | 0 <= j < |c| - 1 :: c[j] != '\n'
  }

  /** A chunk fgets would return again if the file went on behind it. */
  predicate IsClosed(c: string) {
    IsLine(c) || (|c| == LINE_MAX - 1 && '\n' !in c)
  }

  /** A last chunk that stopped short at the end of the file. */
  predicate IsOpen(c: string) {
    0 < |c| < LINE_MAX - 1 && '\n' !in c
  }

  lemma FirstChunkOfClosed(c: string, rest: string)
    requires IsClosed(c)
    ensures FirstChunk(c + rest) == c
  {
    var text := c + rest;
    var n := IndexOf(text, '\n');
    if IsLine(c) {
      FirstIsUnique(text, '\n', |c| - 1);
      assert text[..|c|] == c;
    } else {
      assert forall j | 0 <= j < |c| :: text[j] == c[j];
      assert n >= |c|;
      assert text[..LINE_MAX - 1] == c;
    }
  }

  /** Every chunk fgets returns is closed, except that the last one may stop short at the end of the file. */
  lemma {:induction false} ChunksAreClosed(text: string)
    ensures forall i | 0 <= i < |Chunks(text)| - 1 :: IsClosed(Chunks(text)[i])
    ensures text != "" ==> var u := Chunks(text)[|Chunks(text)| - 1]; IsClosed(u) || IsOpen(u)
    decreases |text|
  {
    hide FirstChunk;
    if text != "" {
      var c := FirstChunk(text);
      ChunksAreClosed(text[|c|..]);
      FirstChunkShape(text);
      if text[|c|..] == "" { assert Chunks(text[|c|..]) == []; }
    }
  }

  lemma FirstChunkShape(text: string)
    requires text != ""
    ensures var c := FirstChunk(text); IsClosed(c) || (IsOpen(c) && c == text)
  {
    var c, n := FirstChunk(text), IndexOf(text, '\n');
    assert forall j | 0 <= j < |c| :: c[j] == text[j];
  }

  lemma ChunksStep(c: string, rest: string)
    requires IsClosed(c)
    ensures Chunks(c + rest) == [c] + Chunks(rest)
  {
    FirstChunkOfClosed(c, rest);
    assert (c + rest)[|c|..] == rest;
  }

  /** Closed chunks written one after the other are read back as they were, whatever comes behind them. */
  lemma {:induction false} ChunksAfter(cs: seq<string>, rest: string)
    requires forall i | 0 <= i < |cs| :: IsClosed(cs[i])
    ensures Chunks(Concat(cs) + rest) == cs + Chunks(rest)
  {
    if cs == [] {
      assert Concat(cs) + rest == rest;
    } else {
      var tail := Concat(cs[1..]) + rest;
      assert (cs[0] + Concat(cs[1..])) + rest == cs[0] + tail;
      ChunksStep(cs[0], tail);
      ChunksAfter(cs[1..], rest);
      HeadAndTail(cs, Chunks(rest));
    }
  }

  lemma HeadAndTail(cs: seq<string>, more: seq<string>)
    requires cs != []
    ensures [cs[0]] + (cs[1..] + more) == cs + more
  {
  }

  lemma ChunksOfConcat(cs: seq<string>)
    requires forall i | 0 <= i < |cs| :: IsClosed(cs[i])
    ensures Chunks(Concat(cs)) == cs
  {
    ChunksAfter(cs, "");
    assert Concat(cs) + "" == Concat(cs);
  }

  lemma ChunksOfOpen(u: string)
    requires IsOpen(u)
    ensures Chunks(u) == [u]
  {
    NoneIsLength(u, '\n');
    assert u[..|u|] == u && u[|u|..] == "";
  }

  /** A line written behind an open chunk is not read back as itself: it is glued to that chunk, and what does not
      fit the buffer is read as a second, shorter line. */
  lemma ChunksOfOpenThenLine(u: string, line: string)
    requires IsOpen(u) && IsLine(line)
    ensures var t, cs := u + line, Chunks(u + line);
            && (forall c | c in cs :: IsClosed(c))
            && cs == (if |t| < LINE_MAX then [t] else [t[..LINE_MAX - 1], t[LINE_MAX - 1..]])
  {
    hide Chunks;
    var t := u + line;
    if |t| < LINE_MAX {
      ChunksOfClosed(t);
    } else {
      var piece, rest := t[..LINE_MAX - 1], t[LINE_MAX - 1..];
      assert t == piece + rest;
      assert IsClosed(piece) by { GluedPiece(u, line); }
      assert forall j | 0 <= j < |rest| :: rest[j] == line[LINE_MAX - 1 - |u| + j];
      ChunksOfClosed(rest);
      ChunksStep(piece, rest);
    }
  }

  lemma GluedPiece(u: string, line: string)
    requires IsOpen(u) && IsLine(line) && |u + line| >= LINE_MAX
    ensures IsClosed((u + line)[..LINE_MAX - 1])
  {
    var t := u + line;
    forall j | 0 <= j < LINE_MAX - 1 ensures t[j] != '\n' {
      assert t[j] == if j < |u| then u[j] else line[j - |u|];
    }
  }

  lemma ChunksOfClosed(c: string)
    requires IsClosed(c)
    ensures Chunks(c) == [c]
  {
    ChunksStep(c, "");
    assert c + "" == c;
  }

  lemma {:induction false} ConcatAppend(a: seq<string>, b: seq<string>)
    ensures Concat(a + b) == Concat(a) + Concat(b)
  {
    if a == [] {
      assert a + b == b;
    } else {
      assert (a + b)[1..] == a[1..] + b;
      ConcatAppend(a[1..], b);
    }
  }

  lemma ConcatPush(a: seq<string>, c: string)
    ensures Concat(a + [c]) == Concat(a) + c
  {
    ConcatAppend(a, [c]);
    assert Concat([c]) == c + Concat([]);
  }

  lemma ConcatTake(cs: seq<string>, i: nat)
    requires i < |cs|
    ensures Concat(cs[..i + 1]) == Concat(cs[..i]) + cs[i]
  {
    assert cs[..i + 1] == cs[..i] + [cs[i]];
    ConcatPush(cs[..i], cs[i]);
  }

  lemma ConcatSplit(cs: seq<string>, i: nat)
    requires i <= |cs|
    ensures Concat(cs) == Concat(cs[..i]) + Concat(cs[i..])
    ensures |Concat(cs[..i])| <= |Concat(cs)|
  {
    assert cs == cs[..i] + cs[i..];
    ConcatAppend(cs[..i], cs[i..]);
  }

  /** The lines istream::getline delivers: the pieces between newlines, the one behind the last newline included. */
  function Split(text: string): (lines: seq<string>)
    ensures lines != []
    ensures forall l | l in lines :: '\n' !in l
  {
    var n := IndexOf(text, '\n');
    if n == |text| then [text] else [text[..n]] + Split(text[n + 1..])
  }

  /** A line with its last character cut off, whether that is its newline or not. */
  function Body(chunk: string): string {
    if chunk == "" then "" else chunk[..|chunk| - 1]
  }

  function Bodies(cs: seq<string>): (bs: seq<string>)
    ensures |bs| == |cs| && forall i | 0 <= i < |cs| :: bs[i] == Body(cs[i])
  {
    seq(|cs|, i requires 0 <= i < |cs| => Body(cs[i]))
  }

  /** On a file of whole lines the two readers agree, except for an empty line getline sees at the end. */
  lemma {:induction false} SplitOfLines(cs: seq<string>)
    requires forall i | 0 <= i < |cs| :: IsLine(cs[i])
    ensures Split(Concat(cs)) == Bodies(cs) + [""]
  {
    if cs != [] {
      SplitStep(cs[0], Concat(cs[1..]));
      SplitOfLines(cs[1..]);
      assert [Bodies(cs)[0]] + Bodies(cs[1..]) == Bodies(cs);
      HeadAndTail(Bodies(cs), [""]);
    }
  }

  lemma SplitStep(c: string, rest: string)
    requires IsLine(c)
    ensures Split(c + rest) == [Body(c)] + Split(rest)
  {
    var text := c + rest;
    FirstIsUnique(text, '\n', |c| - 1);
    assert text[..|c| - 1] == c[..|c| - 1] && text[|c|..] == rest;
  }

  /** An input FILE*: the chunks fgets has still to deliver, and the end-of-file indicator. */
  class InputFile {
    var left: seq<string>
    var eof: bool

    ghost predicate Valid()
      reads this
    {
      && (eof ==> left == [])
      && (forall i | 0 <= i < |left| :: left[i] != "")
      && (forall i | 0 <= i < |left| - 1 :: IsClosed(left[i]))
    }

    constructor (text: string)
      ensures left == Chunks(text) && !eof && Valid()
    {
      left := Chunks(text);
      eof := false;
      ChunksAreClosed(text);
    }

    /** fgets(sLine, 1024, file) after sLine was set to "": the indicator is raised
        only when the read runs into the end of the file. */
    method Gets() returns (line: string)
      requires Valid() && !eof
      modifies this
      ensures Valid()
      ensures old(left) == [] ==> line == "" && eof && left == []
      ensures old(left) != [] ==> line == old(left)[0] && left == old(left)[1..] && eof == !IsClosed(line)
    {
      line := if left == [] then "" else left[0];
      eof := !IsClosed(line);
      left := if left == [] then [] else left[1..];
    }
  }
}
