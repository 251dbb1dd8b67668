/** What the reader finds after a write to the end of a file whose last line has no newline: the first line written
    is glued to that line (linux/libsrc/sysipc.cpp). */
module IniGlued {
  import opened CStrings
  import opened IniReader
  import opened IniTheorems
  import opened IniWriter
  import opened LineBuffer
  import opened LineFiles
  import opened Scan
  import opened Wrappers

  lemma SplitLine(l: string, rest: string)
    requires '\n' !in l
    ensures Split(l + "\n" + rest) == [l] + Split(rest)
  {
    var text := l + "\n" + rest;
    FirstOfPrefix(l, '\n', rest);
    assert text[..|l|] == l && text[|l| + 1..] == rest;
  }

  lemma SplitLast(l: string)
    requires '\n' !in l
    ensures Split(l) == [l]
  {
    NoneIsLength(l, '\n');
  }

  lemma {:induction false} SplitBehindLines(cs: seq<string>, rest: string)
    requires AllLines(cs)
    ensures Split(Concat(cs) + rest) == Bodies(cs) + Split(rest)
  {
    hide Split;
    if cs == [] {
      assert Concat(cs) + rest == rest;
    } else {
      SplitBehindLines(cs[1..], rest);
      Regroup(cs[0], Concat(cs[1..]), rest);
      SplitStep(cs[0], Concat(cs[1..]) + rest);
      assert Bodies(cs) == [Body(cs[0])] + Bodies(cs[1..]);
      Regroup([Body(cs[0])], Bodies(cs[1..]), Split(rest));
    }
  }

  function GluedHeader(u: string, section: string): string { u + "[" + section + "]" }

  function GluedKey(u: string, key: string, value: string): string { u + key + "=" + value }

  /** The lines the reader gets when the section was appended. */
  function AppendedLines(front: seq<string>, u: string, section: string, key: string, value: string): seq<string> {
    Bodies(front) + [GluedHeader(u, section), key + "=" + value, ""]
  }

  /** The lines it gets when the key line was put at the end of the section. */
  function ExtendedLines(front: seq<string>, u: string, key: string, value: string): seq<string> {
    Bodies(front) + [GluedKey(u, key, value), ""]
  }

  lemma ReaderSeesAppended(front: seq<string>, u: string, section: string, key: string, value: string)
    requires AllLines(front) && '\n' !in u && Writable(section, key, value) && Appends(front + [u], section)
    ensures Split(Concat(Write(front + [u], section, key, value))) == AppendedLines(front, u, section, key, value)
  {
    hide Split, Concat, FindHeader, NamesSection, Bodies, AllLines;
    var h, k := GluedHeader(u, section), key + "=" + value;
    ThreeTexts(front, u, HeaderLine(section), KeyLine(key, value));
    assert u + (HeaderLine(section) + KeyLine(key, value)) == h + "\n" + (k + "\n" + "");
    SplitBehindLines(front, u + (HeaderLine(section) + KeyLine(key, value)));
    SplitLine(h, k + "\n" + "");
    SplitLine(k, "");
    SplitLast("");
  }

  lemma ThreeTexts(front: seq<string>, u: string, a: string, b: string)
    ensures Concat(front + [u] + [a, b]) == Concat(front) + (u + (a + b))
  {
    hide Concat;
    TwoTexts(front, u, a);
    ConcatPush(front + [u] + [a], b);
    assert front + [u] + [a, b] == front + [u] + [a] + [b];
    Regroup(Concat(front), u + a, b);
    Regroup(u, a, b);
  }

  lemma TwoTexts(front: seq<string>, u: string, a: string)
    ensures Concat(front + [u] + [a]) == Concat(front) + (u + a)
  {
    hide Concat;
    ConcatPush(front + [u], a);
    ConcatPush(front, u);
    Regroup(Concat(front), u, a);
  }

  lemma ReaderSeesExtended(front: seq<string>, u: string, section: string, key: string, value: string)
    requires AllLines(front) && '\n' !in u && Writable(section, key, value)
    requires !Appends(front + [u], section) && SlotOf(front + [u], section, key) == |front| + 1
    ensures Split(Concat(Write(front + [u], section, key, value))) == ExtendedLines(front, u, key, value)
  {
    hide Split, Concat, FindHeader, FindSlot, NamesKey, Bodies, AllLines;
    var g := GluedKey(u, key, value);
    assert Write(front + [u], section, key, value) == front + [u] + [KeyLine(key, value)];
    TwoTexts(front, u, KeyLine(key, value));
    assert u + KeyLine(key, value) == g + "\n" + "";
    SplitBehindLines(front, g + "\n" + "");
    SplitLine(g, "");
    SplitLast("");
  }

  // ---- An appended section ----

  /** The first line that answers behind the line FindSection takes for the header, or the key line. */
  function GluedDecoy(stack: string, front: seq<string>, u: string, section: string, key: string, value: string,
                      size: int): nat
    requires AllFit(AppendedLines(front, u, section, key, value), |stack|)
  {
    var lines := AppendedLines(front, u, section, key, value);
    FirstDecoy(lines[..|front| + 1], Seek(stack, lines, section), key, size)
  }

  /** What a lookup of the key returns then, in every case and on any buffer: a value, if and only if FindSection
      takes an old line or the glued one for the header. */
  lemma ReadAppended(stack: string, front: seq<string>, u: string, section: string, key: string, value: string,
                     size: int)
    requires AllFit(AppendedLines(front, u, section, key, value), |stack|)
    requires ReadableKey(key) && |WrittenText(key, value)| + 1 <= size
    ensures var lines, n := AppendedLines(front, u, section, key, value), |front|;
            var d := GluedDecoy(stack, front, u, section, key, value, size);
            BufferLookup(stack, lines, section, key, size)
            == if Seek(stack, lines, section) <= n then Some(LineValue(lines[if d <= n then d else n + 1])) else None
  {
    hide Answers, Seek, ValueText, AllFit, Bodies, BufferLookup, FirstAnswer, OptionMatches, GluedHeader;
    var lines, n := AppendedLines(front, u, section, key, value), |front|;
    var h := Seek(stack, lines, section);
    WrittenLineAnswers(key, value, size);
    BufferLookupIsValue(stack, lines, section, key, size);
    if h <= n {
      AnswerBefore(lines, h, key, size, n + 1, n + 1);
    } else {
      NothingAnswers(lines, h, key, size, n + 2);
    }
  }

  lemma BufferLookupIsValue(stack: string, lines: seq<string>, section: string, key: string, size: int)
    requires AllFit(lines, |stack|)
    ensures var p := AnswerBehind(lines, Seek(stack, lines, section), key, size);
            BufferLookup(stack, lines, section, key, size) == if p < |lines| then Some(LineValue(lines[p])) else None
  {
    hide Seek, AnswerBehind;
  }

  /** On the bytes of the file: whether the written value is what is read. */
  lemma SurvivesAppended(stack: string, text: string, front: seq<string>, u: string, section: string, key: string,
                         value: string, size: int)
    requires Chunks(text) == front + [u] && AllLines(front) && '\n' !in u && Appends(Chunks(text), section)
    requires Writable(section, key, value) && ReadableKey(key) && '=' !in key && |value| + 1 <= size
    requires AllFit(AppendedLines(front, u, section, key, value), |stack|)
    ensures Split(WriteText(text, section, key, value)) == AppendedLines(front, u, section, key, value)
    ensures var lines, n := AppendedLines(front, u, section, key, value), |front|;
            var d := GluedDecoy(stack, front, u, section, key, value, size);
            BufferLookup(stack, Split(WriteText(text, section, key, value)), section, key, size) == Some(value)
            <==> Seek(stack, lines, section) <= n && if d <= n then LineValue(lines[d]) == value else IsClean(value)
  {
    hide GluedDecoy, BufferLookup, Seek, Split, Chunks, Write, FindHeader, AllFit;
    ReaderSeesAppended(front, u, section, key, value);
    WrittenValue(key + "=" + value, key, value);
    SkipShortens(value);
    CleanValue(value);
    ReadAppended(stack, front, u, section, key, value, size);
  }

  /** Behind the last line but one there is only the empty line, which answers nothing. */
  lemma NothingAnswers(lines: seq<string>, h: nat, key: string, size: int, m: nat)
    requires h <= |lines| && m + 1 == |lines| && lines[m] == "" && h + 1 >= m
    ensures AnswerBehind(lines, h, key, size) == |lines|
  {
    assert !Answers(lines[m], key, size);
    if h < |lines| { FirstAnswerIs(lines, h + 1, key, size, |lines|); }
  }

  predicate Plain(s: string) {
    forall i | 0 <= i < |s| :: !IsStop(s[i])
  }

  /** Whether the glued header is seen is a matter of its column, since FindSection looks at every second one; in
      an odd column it is not seen, but then FindSection may step over the end of the line. */
  lemma GluedHeaderMatches(stack: string, u: string, section: string)
    requires Plain(u) && Plain(section) && |GluedHeader(u, section)| < |stack|
    ensures var g := GluedHeader(u, section);
            HeaderIn(Overlay(stack, g), section) <==> |u| % 2 == 0 || StepsOver(stack, g, section)
  {
    hide HeaderIn, HeaderMatches, StepsOver;
    GluedLineMatches(u, section);
    HeaderOrLeftover(stack, GluedHeader(u, section), section);
  }

  lemma GluedLineMatches(u: string, section: string)
    requires Plain(u) && Plain(section)
    ensures NUL !in GluedHeader(u, section)
    ensures HeaderMatches(GluedHeader(u, section), section) <==> |u| % 2 == 0
  {
    hide NameMatches, StopFrom;
    var g := GluedHeader(u, section);
    assert forall j | 0 <= j < |u| :: g[j] == u[j];
    assert forall j | 0 <= j < |section| :: g[|u| + 1 + j] == section[j];
    var r := StopFrom(g, 0);
    if |u| % 2 == 0 {
      StopIs(g, |u| / 2);
      assert g[|u| + 1..] == section + "]";
      OwnNameMatches(section);
    }
  }

  lemma OwnNameMatches(section: string)
    ensures NameMatches(section + "]", section)
  {
    Prefix(section, "]");
  }

  // ---- A section extended at its end ----

  /** The first line that answers before the glued one, or the glued one. */
  function ExtendedDecoy(stack: string, front: seq<string>, u: string, section: string, key: string, value: string,
                         size: int): nat
    requires AllFit(ExtendedLines(front, u, key, value), |stack|)
  {
    var lines := ExtendedLines(front, u, key, value);
    FirstDecoy(lines[..|front|], Seek(stack, lines, section), key, size)
  }

  /** What a lookup returns then, on any buffer: the value of an earlier line that answers, or of the glued line if
      it does. */
  lemma ReadExtended(stack: string, front: seq<string>, u: string, section: string, key: string, value: string,
                     size: int)
    requires AllFit(ExtendedLines(front, u, key, value), |stack|)
    ensures var lines, g, n := ExtendedLines(front, u, key, value), GluedKey(u, key, value), |front|;
            var d := ExtendedDecoy(stack, front, u, section, key, value, size);
            BufferLookup(stack, lines, section, key, size)
            == if d < n then Some(LineValue(lines[d]))
               else if Seek(stack, lines, section) < n && Answers(g, key, size) then Some(LineValue(g)) else None
  {
    hide Answers, Seek, ValueText, Bodies, GluedKey, OptionMatches, AllFit, FirstAnswer, BufferLookup;
    var lines, g, n := ExtendedLines(front, u, key, value), GluedKey(u, key, value), |front|;
    var h := Seek(stack, lines, section);
    EmptyAnswersNothing(key, size);
    BufferLookupIsValue(stack, lines, section, key, size);
    if h < n {
      var d := FirstDecoy(lines[..n], h, key, size);
      FirstAnswerFound(lines[..n], h + 1, key, size);
      FirstAnswerIs(lines, h + 1, key, size, if d < n then d else if Answers(g, key, size) then n else |lines|);
    } else {
      NothingAnswers(lines, h, key, size, n + 1);
    }
  }

  /** On the bytes of the file: whether the written value is what is read. */
  lemma SurvivesExtended(stack: string, text: string, front: seq<string>, u: string, section: string, key: string,
                         value: string, size: int)
    requires Chunks(text) == front + [u] && AllLines(front) && '\n' !in u && Writable(section, key, value)
    requires !Appends(Chunks(text), section) && SlotOf(Chunks(text), section, key) == |front| + 1
    requires AllFit(ExtendedLines(front, u, key, value), |stack|)
    ensures Split(WriteText(text, section, key, value)) == ExtendedLines(front, u, key, value)
    ensures var lines, g, n := ExtendedLines(front, u, key, value), GluedKey(u, key, value), |front|;
            var d := ExtendedDecoy(stack, front, u, section, key, value, size);
            BufferLookup(stack, Split(WriteText(text, section, key, value)), section, key, size) == Some(value)
            <==> if d < n then LineValue(lines[d]) == value
                 else Seek(stack, lines, section) < n && Answers(g, key, size) && LineValue(g) == value
  {
    hide Answers, BufferLookup, Seek, Split, Chunks, Write, FindHeader, FindSlot, ExtendedDecoy, AllFit;
    ReaderSeesExtended(front, u, section, key, value);
    ReadExtended(stack, front, u, section, key, value, size);
  }

  lemma EmptyAnswersNothing(key: string, size: int)
    ensures !Answers("", key, size)
  {
  }

  /** When the glued line answers, and with what: the old text must not be a comment or a header, it must have a
      blank or a tab where a key of this length would end, and it must have no '=' of its own for the value to be
      the one written. */
  lemma GluedKeyMatches(u: string, key: string, value: string)
    requires u != "" && '=' !in u && '=' !in key
    ensures var g := GluedKey(u, key, value);
            && (OptionMatches(g, key) <==> u[0] != ';' && u[0] != '[' && g[|key|] in " =\t")
            && '=' in g && ValueText(g) == Trim(SkipBlanks(value))
  {
    hide ValueText, Contains, SkipBlanks, Trim;
    var g := GluedKey(u, key, value);
    assert g == (u + key) + "=" + value;
    WrittenValue(g, u + key, value);
    OccursBehind(u, key, "=" + value);
    assert g == u + (key + ("=" + value));
    assert Lower(g)[|key|] == ToLower(g[|key|]);
  }

  lemma OccursBehind(u: string, key: string, rest: string)
    ensures Contains(Lower(u + (key + rest)), Lower(key))
  {
    var g := u + (key + rest);
    assert Lower(g)[|u|..|u| + |key|] == Lower(key);
    assert OccursAt(Lower(g), Lower(key), |u|);
  }
}
