/** What a reader finds after a write (linux/libsrc/sysipc.cpp, both functions together). */
module IniTheorems {
  import opened CStrings
  import opened LineFiles
  import opened IniWriter
  import opened IniReader
  import opened LineBuffer
  import opened Scan
  import opened Wrappers

  /** The lines the reader gets from a file the writer sees as cs. */
  function LinesOf(cs: seq<string>): (lines: seq<string>)
    ensures |lines| == |cs| + 1 && lines[|cs|] == ""
    ensures forall i | 0 <= i < |cs| :: lines[i] == Body(cs[i])
  {
    Bodies(cs) + [""]
  }

  predicate AllLines(cs: seq<string>) {
    forall i | 0 <= i < |cs| :: IsLine(cs[i])
  }

  lemma ReaderSeesWrite(text: string, section: string, key: string, value: string)
    requires Writable(section, key, value) && AllLines(Chunks(text))
    ensures Split(text) == LinesOf(Chunks(text))
    ensures Split(WriteText(text, section, key, value)) == LinesOf(Write(Chunks(text), section, key, value))
  {
    var cs := Chunks(text);
    SplitOfLines(cs);
    WriteKeepsLines(cs, section, key, value);
    SplitOfLines(Write(cs, section, key, value));
  }

  lemma WriteKeepsLines(cs: seq<string>, section: string, key: string, value: string)
    requires Writable(section, key, value) && AllLines(cs)
    ensures AllLines(Write(cs, section, key, value))
  {
    AddedLinesAreClosed(section, key, value);
    if !Appends(cs, section) {
      Inserted(cs, SlotOf(cs, section, key), KeyLine(key, value));
    }
  }

  // ---- Read after write ----

  /** Keys the reader can recognise at the start of a line. */
  predicate ReadableKey(key: string) {
    key == "" || (key[0] != ';' && key[0] != '[')
  }

  /** What the reader takes from the line written. */
  function WrittenText(key: string, value: string): string {
    ValueText(key + "=" + value)
  }

  /** Where the key line goes: the lines before it are those of the old file. */
  function Before(cs: seq<string>, section: string, key: string): (p: nat)
    ensures p <= |cs|
  {
    if Appends(cs, section) then |cs| else SlotOf(cs, section, key)
  }

  /** The first line that answers behind h, or the number of lines. */
  function FirstDecoy(pre: seq<string>, h: nat, key: string, size: int): (d: nat)
    ensures d <= |pre|
  {
    if h < |pre| then FirstAnswer(pre, h + 1, key, size) else |pre|
  }

  /** The first line that answers between the line FindSection takes for the header and the slot of the key, or the
      slot. It depends on what is in the line buffer at first. */
  function Decoy(stack: string, cs: seq<string>, section: string, key: string, size: int): (d: nat)
    requires AllFit(LinesOf(cs), |stack|)
    ensures d <= Before(cs, section, key)
  {
    FirstDecoy(LinesOf(cs)[..Before(cs, section, key)], Seek(stack, LinesOf(cs), section), key, size)
  }

  predicate NoDecoy(stack: string, cs: seq<string>, section: string, key: string, size: int)
    requires AllFit(LinesOf(cs), |stack|)
  {
    Decoy(stack, cs, section, key, size) == Before(cs, section, key)
  }

  lemma DecoyAnswers(stack: string, cs: seq<string>, section: string, key: string, size: int)
    requires AllFit(LinesOf(cs), |stack|)
    ensures !NoDecoy(stack, cs, section, key, size) ==>
              Answers(LinesOf(cs)[Decoy(stack, cs, section, key, size)], key, size)
  {
    hide Answers, Before, LinesOf, Seek;
    var q, h := Before(cs, section, key), Seek(stack, LinesOf(cs), section);
    if h < q { FirstAnswerFound(LinesOf(cs)[..q], h + 1, key, size); }
  }

  function DecoyText(stack: string, cs: seq<string>, section: string, key: string, size: int): string
    requires AllFit(LinesOf(cs), |stack|) && !NoDecoy(stack, cs, section, key, size)
  {
    DecoyAnswers(stack, cs, section, key, size);
    ValueText(LinesOf(cs)[Decoy(stack, cs, section, key, size)])
  }

  /** What a lookup of the key returns after a write. */
  function ReadsAs(stack: string, cs: seq<string>, section: string, key: string, value: string, size: int): string
    requires AllFit(LinesOf(cs), |stack|)
  {
    if NoDecoy(stack, cs, section, key, size) then WrittenText(key, value) else DecoyText(stack, cs, section, key, size)
  }

  lemma WrittenHeaderMatches(section: string)
    ensures HeaderMatches("[" + section + "]", section)
  {
    var line := "[" + section + "]";
    assert line[1..] == section + "]";
    Prefix(section, "]");
  }

  lemma ExactHeaderMatches(chunk: string, section: string)
    requires NamesSection(chunk, section)
    ensures HeaderMatches(Body(chunk), section)
  {
    var b := Body(chunk);
    assert b == "[" + section + "]";
    WrittenHeaderMatches(section);
  }

  lemma WrittenLineAnswers(key: string, value: string, size: int)
    requires ReadableKey(key) && |WrittenText(key, value)| + 1 <= size
    ensures Answers(key + "=" + value, key, size)
  {
    var line := key + "=" + value;
    assert key <= line && |key| < |line| && line[|key|] == '=';
    WrittenLineMatches(line, key);
  }

  lemma WrittenLineMatches(line: string, key: string)
    requires ReadableKey(key) && key <= line && |key| < |line| && line[|key|] == '='
    ensures OptionMatches(line, key)
  {
    Prefix(key, line[|key|..]);
    assert key + line[|key|..] == line;
  }

  lemma WrittenValue(line: string, key: string, value: string)
    requires '=' !in key && line == key + "=" + value
    ensures '=' in line && ValueText(line) == Trim(SkipBlanks(value))
  {
    FirstOfPrefix(key, '=', value);
    assert line == key + ['='] + value;
    assert line[|key|] == '=' && line[|key| + 1..] == value;
  }

  /** With a '=' in the key the reader takes the rest of the key for the value's beginning. */
  lemma KeyWithEquals(key: string, value: string)
    requires '=' in key
    ensures WrittenText(key, value) == Trim(SkipBlanks(key[IndexOf(key, '=') + 1..] + "=" + value))
  {
    var i, line := IndexOf(key, '='), key + "=" + value;
    assert forall j | 0 <= j < |key| :: line[j] == key[j];
    FirstIsUnique(line, '=', i);
    assert line[i + 1..] == key[i + 1..] + "=" + value;
  }

  lemma SkipShortens(s: string)
    ensures |SkipBlanks(s)| <= |s|
  {
  }

  lemma HeadersDoNotAnswer(section: string, key: string, size: int)
    ensures !Answers("[" + section + "]", key, size)
  {
  }

  /** Which line answers behind h, when the line at p does and none from q up to it. */
  lemma AnswerBefore(lines: seq<string>, h: nat, key: string, size: int, q: nat, p: nat)
    requires h < p && q <= p < |lines| && Answers(lines[p], key, size)
    requires forall j | q <= j < p :: !Answers(lines[j], key, size)
    ensures var d := FirstDecoy(lines[..q], h, key, size);
            AnswerBehind(lines, h, key, size) == if d < q then d else p
  {
    hide Answers;
    var pre := lines[..q];
    var d := FirstDecoy(pre, h, key, size);
    if h < q { FirstAnswerFound(pre, h + 1, key, size); }
    FirstAnswerIs(lines, h + 1, key, size, if d < q then d else p);
  }

  /** The written line is where it should be, and before it nothing has changed. */
  lemma LineWritten(cs: seq<string>, section: string, key: string, value: string)
    ensures var w, p, q := Write(cs, section, key, value), KeyLineAt(cs, section, key), Before(cs, section, key);
            && q <= p < |w| && w[p] == KeyLine(key, value)
            && (forall j | 0 <= j < q :: w[j] == cs[j])
            && (if Appends(cs, section) then p == q + 1 && w[q] == HeaderLine(section) else p == q)
  {
    if !Appends(cs, section) {
      Inserted(cs, SlotOf(cs, section, key), KeyLine(key, value));
    }
  }

  /** The line FindSection takes for the header is before the key line, whatever is in the buffer: an old line, or the
      header just written. */
  lemma HeaderBefore(stack: string, cs: seq<string>, section: string, key: string, value: string)
    requires AllFit(LinesOf(cs), |stack|) && AllFit(LinesOf(Write(cs, section, key, value)), |stack|)
    ensures var h, q := Seek(stack, LinesOf(cs), section), Before(cs, section, key);
            && Seek(stack, LinesOf(Write(cs, section, key, value)), section) == (if h < q then h else q)
            && (!Appends(cs, section) ==> h < q)
  {
    hide HeaderMatches, Body, FindHeader, FindSlot, Seek, AllFit;
    var w, q := Write(cs, section, key, value), Before(cs, section, key);
    LineWritten(cs, section, key, value);
    if Appends(cs, section) {
      NewHeader(section, key, 0);
      SeekStops(stack, LinesOf(w), section, q);
    } else {
      HeaderFound(cs, section);
      ExactHeaderMatches(cs[FindHeader(cs, section)], section);
      SeekStops(stack, LinesOf(cs), section, FindHeader(cs, section));
    }
    SeekAgrees(stack, LinesOf(cs), LinesOf(w), section, q);
  }

  /** What a lookup of the written key returns, for every profile that fits the line buffer and whatever that holds at
      first: the first decoy, or else the line just written. */
  lemma ReadAfterWrite(stack: string, cs: seq<string>, section: string, key: string, value: string, size: int)
    requires AllFit(LinesOf(cs), |stack|) && AllFit(LinesOf(Write(cs, section, key, value)), |stack|)
    requires ReadableKey(key) && |WrittenText(key, value)| + 1 <= size
    ensures var lines, d := LinesOf(Write(cs, section, key, value)), Decoy(stack, cs, section, key, size);
            && AnswerBehind(lines, Seek(stack, lines, section), key, size)
               == (if NoDecoy(stack, cs, section, key, size) then KeyLineAt(cs, section, key) else d)
            && BufferLookup(stack, lines, section, key, size) == Some(ReadsAs(stack, cs, section, key, value, size))
  {
    hide Answers, Seek, ValueText, Write, FindSlot, FindHeader, KeyLine, HeaderLine, Body, LinesOf, AllFit;
    var w, p, q := Write(cs, section, key, value), KeyLineAt(cs, section, key), Before(cs, section, key);
    var was, lines := LinesOf(cs), LinesOf(w);
    LineWritten(cs, section, key, value);
    HeaderBefore(stack, cs, section, key, value);
    KeyLineParts(key, value);
    WrittenLineAnswers(key, value, size);
    NewHeader(section, key, size);
    AnswerBefore(lines, Seek(stack, lines, section), key, size, q, p);
    assert lines[..q] == was[..q];
    SameDecoy(was[..q], Seek(stack, was, section), Seek(stack, lines, section), key, size);
  }

  lemma SameDecoy(pre: seq<string>, h: nat, g: nat, key: string, size: int)
    requires g == if h < |pre| then h else |pre|
    ensures FirstDecoy(pre, g, key, size) == FirstDecoy(pre, h, key, size)
  {
  }

  lemma NewHeader(section: string, key: string, size: int)
    ensures var line := Body(HeaderLine(section)); HeaderMatches(line, section) && !Answers(line, key, size)
  {
    assert Body(HeaderLine(section)) == "[" + section + "]";
    WrittenHeaderMatches(section);
    HeadersDoNotAnswer(section, key, size);
  }

  /** The trimmed value is the value written, if and only if there was nothing to trim. */
  lemma CleanValue(value: string)
    ensures Trim(SkipBlanks(value)) == value <==> IsClean(value)
  {
    SkipShortens(value);
    if IsClean(value) {
      assert FirstMarker(value) == |value|;
    } else if Trim(SkipBlanks(value)) == value {
      assert |SkipBlanks(value)| == |value|;
      SkipKeeps(value);
      TrimmedIsClean(value);
      assert false;
    }
  }

  lemma SkipKeeps(s: string)
    requires |SkipBlanks(s)| == |s|
    ensures SkipBlanks(s) == s
  {
    if s != "" && (s[0] == ' ' || s[0] == '\t') {
      SkipShortens(s[1..]);
      assert false;
    }
  }

  /** When the value written is the value read: there is no decoy and nothing to trim, or there is one and it has
      just this value. */
  lemma ReadsBack(stack: string, cs: seq<string>, section: string, key: string, value: string, size: int)
    requires AllFit(LinesOf(cs), |stack|) && AllFit(LinesOf(Write(cs, section, key, value)), |stack|)
    requires ReadableKey(key) && '=' !in key && |value| + 1 <= size
    ensures BufferLookup(stack, LinesOf(Write(cs, section, key, value)), section, key, size) == Some(value)
            <==> if NoDecoy(stack, cs, section, key, size) then IsClean(value)
                 else DecoyText(stack, cs, section, key, size) == value
  {
    hide NoDecoy, DecoyText, BufferLookup, Write, LinesOf, AllFit;
    WrittenValue(key + "=" + value, key, value);
    SkipShortens(value);
    CleanValue(value);
    ReadAfterWrite(stack, cs, section, key, value, size);
  }

  /** The same on files of whole lines. */
  lemma ReadFileAfterWrite(stack: string, text: string, section: string, key: string, value: string, size: int)
    requires Writable(section, key, value) && AllLines(Chunks(text))
    requires AllFit(LinesOf(Chunks(text)), |stack|) && AllFit(Split(WriteText(text, section, key, value)), |stack|)
    requires ReadableKey(key) && '=' !in key && |value| + 1 <= size
    ensures BufferLookup(stack, Split(WriteText(text, section, key, value)), section, key, size) == Some(value)
            <==> if NoDecoy(stack, Chunks(text), section, key, size) then IsClean(value)
                 else DecoyText(stack, Chunks(text), section, key, size) == value
  {
    hide NoDecoy, DecoyText, BufferLookup, Write, WriteText, LinesOf, AllFit;
    ReaderSeesWrite(text, section, key, value);
    ReadsBack(stack, Chunks(text), section, key, value, size);
  }

  // ---- Examples ----

  lemma ValueOfOption(key: string, value: string)
    requires '=' !in key && IsClean(value)
    ensures var line := key + "=" + value; '=' in line && ValueText(line) == value
  {
    WrittenValue(key + "=" + value, key, value);
    CleanValue(value);
  }

  lemma MatchesAt(line: string, key: string, i: nat)
    requires line != "" && line[0] != ';' && line[0] != '[' && OccursAt(line, key, i)
    requires |key| < |line| && line[|key|] in " =\t"
    ensures OptionMatches(line, key)
  {
    assert Lower(line)[i..i + |key|] == Lower(key);
    assert OccursAt(Lower(line), Lower(key), i);
  }

  /** A decoy: the value of an earlier key of the same length contains the key. The write is then not seen. */
  lemma DecoyHidesWrite(stack: string)
    requires |stack| >= 16
    ensures var cs := ["[S]\n", "D1=E1\n"];
            var w := Write(cs, "S", "E1", "5");
            && Get(w, "S", "E1") == Some("5")
            && AllFit(LinesOf(w), |stack|) && BufferLookup(stack, LinesOf(w), "S", "E1", 100) == Some("E1")
  {
    hide Get, Write, Answers, Seek, LinesOf, FirstAnswer, ValueText;
    var cs := ["[S]\n", "D1=E1\n"];
    GetWritten(cs, "S", "E1", "5");
    DecoyFile(cs);
    DecoyFound(stack, LinesOf(Write(cs, "S", "E1", "5")));
  }

  lemma DecoyFound(stack: string, lines: seq<string>)
    requires |stack| >= 16 && lines == ["[" + "S" + "]", "D1=E1", "E1=5", ""]
    ensures AllFit(lines, |stack|) && BufferLookup(stack, lines, "S", "E1", 100) == Some("E1")
  {
    hide HeaderMatches, Answers, Seek, FirstAnswer, ValueText;
    WrittenHeaderMatches("S");
    SeekStops(stack, lines, "S", 0);
    DecoyLine();
    assert lines[1] == "D1=E1";
    FirstAnswerIs(lines, 1, "E1", 100, 1);
  }

  lemma DecoyLine()
    ensures Answers("D1=E1", "E1", 100) && ValueText("D1=E1") == "E1"
  {
    hide OptionMatches, ValueText;
    assert "D1=E1" == "D1" + "=" + "E1";
    ValueOfOption("D1", "E1");
    DecoyMatches();
  }

  lemma DecoyMatches()
    ensures OptionMatches("D1=E1", "E1")
  {
    hide OptionMatches;
    assert "D1=E1"[3..5] == "E1" && "D1=E1"[2] == '=';
    MatchesAt("D1=E1", "E1", 3);
  }

  lemma DecoyFile(cs: seq<string>)
    requires cs == ["[S]\n", "D1=E1\n"]
    ensures LinesOf(Write(cs, "S", "E1", "5")) == ["[" + "S" + "]", "D1=E1", "E1=5", ""]
  {
    hide FindHeader, FindSlot, IndexOf;
    assert Body(cs[0]) == "[S]" && SectionName("[S]") == "S";
    HeaderIs(cs, "S", 0);
    assert cs[1] == "D1" + ['='] + "E1\n";
    FirstOfPrefix("D1", '=', "E1\n");
    assert OptionName(cs[1]) == "D1";
    SlotIs(cs, 1, "E1", 2);
    assert Body(cs[1]) == "D1=E1" && Body(KeyLine("E1", "5")) == "E1=5";
    var w := Write(cs, "S", "E1", "5");
    assert w == [cs[0], cs[1], KeyLine("E1", "5")];
    assert "[" + "S" + "]" == "[S]" && LinesOf(w)[2] == "E1=5" && LinesOf(w)[3] == "";
  }

  /** A line is taken for the header because a comment has left one in the buffer, and so the value read is that of
      a key in front of the section. */
  lemma LeftoverHidesWrite(stack: string)
    requires |stack| >= 16
    ensures var cs := [";-----[S]\n", "hello\n", "k=1\n", "[S]\n"];
            var w := Write(cs, "S", "k", "2");
            && Get(w, "S", "k") == Some("2")
            && AllFit(LinesOf(w), |stack|) && BufferLookup(stack, LinesOf(w), "S", "k", 100) == Some("1")
  {
    hide Get, Write, Answers, Seek, LinesOf, FirstAnswer, ValueText;
    var cs := [";-----[S]\n", "hello\n", "k=1\n", "[S]\n"];
    GetWritten(cs, "S", "k", "2");
    LeftoverFile(cs);
    LeftoverFound(stack, LinesOf(Write(cs, "S", "k", "2")));
  }

  lemma LeftoverFound(stack: string, lines: seq<string>)
    requires |stack| >= 16 && lines == [";-----[S]", "hello", "k=1", "[" + "S" + "]", "k=2", ""]
    ensures AllFit(lines, |stack|) && BufferLookup(stack, lines, "S", "k", 100) == Some("1")
  {
    hide HeaderIn, Answers, FirstAnswer, ValueText;
    LeftBehind(stack);
    assert Seek(stack, lines, "S") == 1;
    LeftoverLine();
    FirstAnswerIs(lines, 2, "k", 100, 2);
  }

  lemma LeftoverLine()
    ensures Answers("k=1", "k", 100) && ValueText("k=1") == "1"
  {
    assert "k=1" == "k" + "=" + "1";
    ValueOfOption("k", "1");
    MatchesAt("k=1", "k", 0);
  }

  lemma LeftoverFile(cs: seq<string>)
    requires cs == [";-----[S]\n", "hello\n", "k=1\n", "[S]\n"]
    ensures LinesOf(Write(cs, "S", "k", "2")) == [";-----[S]", "hello", "k=1", "[" + "S" + "]", "k=2", ""]
  {
    hide FindHeader, FindSlot;
    assert Body(cs[0]) == ";-----[S]" && Body(cs[1]) == "hello" && Body(cs[2]) == "k=1" && Body(cs[3]) == "[S]";
    assert SectionName("[S]") == "S";
    HeaderIs(cs, "S", 3);
    SlotIs(cs, 4, "k", 4);
    assert Body(KeyLine("k", "2")) == "k=2";
    var w := Write(cs, "S", "k", "2");
    assert w == [cs[0], cs[1], cs[2], cs[3], KeyLine("k", "2")];
    assert "[" + "S" + "]" == "[S]" && LinesOf(w)[4] == "k=2" && LinesOf(w)[5] == "";
  }
}
