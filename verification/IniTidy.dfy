/** Profiles as they are meant to be written, on which the two functions agree about what a line names: the writer,
    which compares exactly, and the reader, which ignores case and searches with strstr (linux/libsrc/sysipc.cpp). */
module IniTidy {
  import opened CStrings
  import opened IniMatching
  import opened IniReader
  import opened IniTheorems
  import opened IniWriter
  import opened KeyListing
  import opened LineBuffer
  import opened LineFiles
  import opened SteadyListing
  import opened Wrappers

  /** An empty line, a comment, "[name]", or name=value in which the key does not occur further along. */
  predicate TidyLine(b: string, key: string) {
    && BracketsFirst(b)
    && (b == "" || b[0] == ';'
        || (IsSection(b) && ']' !in SectionName(b))
        || (IsOption(b) && PlainName(OptionName(b)) && OccursFirst(b, key)))
  }

  /** A name that is equal to the section or the key but for its case is equal to it. */
  predicate SameCase(b: string, section: string, key: string) {
    && (IsSection(b) && Lower(SectionName(b)) == Lower(section) ==> SectionName(b) == section)
    && (IsOption(b) && Lower(OptionName(b)) == Lower(key) ==> OptionName(b) == key)
  }

  predicate Tidy(cs: seq<string>, section: string, key: string) {
    forall i | 0 <= i < |cs| ::
      && IsLine(cs[i]) && NUL !in cs[i]
      && TidyLine(Body(cs[i]), key) && SameCase(Body(cs[i]), section, key)
  }

  /** No section is named twice, whatever the case. */
  predicate SectionsDiffer(cs: seq<string>) {
    forall i, j | 0 <= i < j < |cs| && IsSection(Body(cs[i])) && IsSection(Body(cs[j])) ::
      Lower(SectionName(Body(cs[i]))) != Lower(SectionName(Body(cs[j])))
  }

  /** A tidy header matches exactly the section it names. */
  lemma TidyHeader(b: string, section: string, key: string)
    requires TidyLine(b, key) && SameCase(b, section, key) && ']' !in section
    ensures HeaderMatches(b, section) <==> IsSection(b) && SectionName(b) == section
  {
    if IsSection(b) {
      assert b == "[" + SectionName(b) + "]" by { SectionText(b); }
      HeaderMatchesName(SectionName(b), section);
    } else {
      NoBracketNoMatch(b, section, key);
    }
  }

  lemma SectionText(b: string)
    requires IsSection(b)
    ensures b == "[" + SectionName(b) + "]"
  {
  }

  lemma NoBracketNoMatch(b: string, section: string, key: string)
    requires TidyLine(b, key) && !IsSection(b)
    ensures !HeaderMatches(b, section)
  {
  }

  /** A tidy line matches the key only if it names it. */
  lemma TidyOption(b: string, section: string, key: string)
    requires TidyLine(b, key) && SameCase(b, section, key) && PlainName(key) && OptionMatches(b, key)
    ensures IsOption(b) && OptionName(b) == key
  {
    var i := IndexOf(b, '=');
    assert b == OptionName(b) + "=" + b[i + 1..];
    OptionMatchesName(OptionName(b), b[i + 1..], key);
  }

  /** On a tidy profile the first line that is a header and matches is the one the writer finds, or there is none. */
  lemma TidyHeaderLine(cs: seq<string>, section: string, key: string)
    requires Tidy(cs, section, key) && ']' !in section
    ensures FirstHeader(LinesOf(cs), section) == if Appends(cs, section) then |cs| + 1 else FindHeader(cs, section)
  {
    hide HeaderMatches, TidyLine, SameCase, IsSection, SectionName, Body, FindHeader;
    var h := FindHeader(cs, section);
    HeaderFound(cs, section);
    forall j | 0 <= j < |cs| ensures HeaderMatches(LinesOf(cs)[j], section) <==> NamesSection(cs[j], section) {
      TidyHeader(Body(cs[j]), section, key);
    }
    EmptyNoHeader(section);
    FirstHeaderIs(LinesOf(cs), section, if h == |cs| then |cs| + 1 else h);
  }

  /** So the reader finds the header the writer finds, or neither finds one, if and only if it steps over the end
      of no line before it. */
  lemma TidyFirstHeader(stack: string, cs: seq<string>, section: string, key: string)
    requires AllFit(LinesOf(cs), |stack|) && Tidy(cs, section, key) && ']' !in section
    ensures Seek(stack, LinesOf(cs), section) == (if Appends(cs, section) then |cs| + 1 else FindHeader(cs, section))
            <==> Undisturbed(stack, LinesOf(cs), section)
  {
    hide Tidy, FirstHeader, Seek, Undisturbed, FindHeader;
    TidyHeaderLine(cs, section, key);
    SeekByLines(stack, LinesOf(cs), section);
  }

  /** Every line before the header of the section decides for itself. */
  predicate LinesDecide(cs: seq<string>, section: string) {
    forall i | 0 <= i < FindHeader(cs, section) :: DecidesItself(Body(cs[i]), section)
  }

  /** When it steps over none: whatever is in the buffer if the lines decide, and on a buffer without brackets. */
  lemma TidyUndisturbed(stack: string, cs: seq<string>, section: string, key: string)
    requires AllFit(LinesOf(cs), |stack|) && Tidy(cs, section, key) && ']' !in section
    requires LinesDecide(cs, section) || Quiet(stack)
    ensures Undisturbed(stack, LinesOf(cs), section)
  {
    hide FirstHeader, Undisturbed, FindHeader, DecidesItself, BracketsFirst, Quiet, SameCase, Body;
    TidyHeaderLine(cs, section, key);
    if LinesDecide(cs, section) {
      assert DecidesItself("", section) by { EmptyDecides(section); }
      DecidedLines(stack, LinesOf(cs), section);
    } else {
      assert BracketsFirst("") by { EmptyDecides(section); }
      QuietLines(stack, LinesOf(cs), section);
    }
  }

  lemma EmptyDecides(section: string)
    ensures DecidesItself("", section) && BracketsFirst("")
  {
  }

  /** The two ways of comparing agree, so nothing hides a key that is written to a tidy profile. */
  lemma TidyHasNoDecoy(stack: string, cs: seq<string>, section: string, key: string, size: int)
    requires AllFit(LinesOf(cs), |stack|) && Tidy(cs, section, key) && ']' !in section && PlainName(key)
    requires Undisturbed(stack, LinesOf(cs), section)
    ensures NoDecoy(stack, cs, section, key, size)
  {
    hide Answers, Tidy, FindHeader, FindSlot, Seek, Undisturbed, AllFit, FirstAnswer, LinesOf;
    TidyFirstHeader(stack, cs, section, key);
    if !Appends(cs, section) {
      NoAnswerBeforeSlot(cs, section, key, size);
    }
  }

  lemma NoAnswerBeforeSlot(cs: seq<string>, section: string, key: string, size: int)
    requires Tidy(cs, section, key) && PlainName(key) && !Appends(cs, section)
    ensures var h, q := FindHeader(cs, section), SlotOf(cs, section, key);
            FirstAnswer(LinesOf(cs)[..q], h + 1, key, size) == q
  {
    hide Answers, TidyLine, SameCase, FindHeader, FindSlot, FirstAnswer;
    var h, q := FindHeader(cs, section), SlotOf(cs, section, key);
    var pre := LinesOf(cs)[..q];
    SlotFound(cs, h + 1, key);
    forall j | h < j < q ensures !Answers(pre[j], key, size) { NoOtherAnswers(cs, section, key, size, j); }
    FirstAnswerIs(pre, h + 1, key, size, q);
  }

  lemma NoOtherAnswers(cs: seq<string>, section: string, key: string, size: int, j: nat)
    requires Tidy(cs, section, key) && PlainName(key) && j < |cs| && !NamesKey(cs[j], key)
    ensures !Answers(LinesOf(cs)[j], key, size)
  {
    if OptionMatches(Body(cs[j]), key) {
      TidyOption(Body(cs[j]), section, key);
      SameOption(cs[j], key);
    }
  }

  /** With every section named once, one header matches. */
  lemma TidySoleHeader(cs: seq<string>, section: string, key: string)
    requires Tidy(cs, section, key) && SectionsDiffer(cs) && ']' !in section
    ensures SoleHeader(cs, section)
  {
    HeaderFound(cs, section);
    forall j | 0 <= j < |cs| && HeaderMatches(Body(cs[j]), section) ensures j == FindHeader(cs, section) {
      TidyHeader(Body(cs[j]), section, key);
    }
  }

  /** On a tidy profile a clean value, and no other, is read back as it was written: on every buffer if the lines
      before the header decide for themselves, else on one that makes the reader step over none of them. */
  lemma TidyReadsBack(stack: string, text: string, section: string, key: string, value: string, size: int)
    requires Writable(section, key, value) && Tidy(Chunks(text), section, key) && ']' !in section
    requires AllFit(LinesOf(Chunks(text)), |stack|) && AllFit(Split(WriteText(text, section, key, value)), |stack|)
    requires PlainName(key) && |value| + 1 <= size
    requires LinesDecide(Chunks(text), section) || Undisturbed(stack, LinesOf(Chunks(text)), section)
    ensures BufferLookup(stack, Split(WriteText(text, section, key, value)), section, key, size) == Some(value)
            <==> IsClean(value)
  {
    hide BufferLookup, LinesDecide, Undisturbed, TidyLine, SameCase, Chunks, WriteText, Split, LinesOf, AllFit, NoDecoy;
    if LinesDecide(Chunks(text), section) { TidyUndisturbed(stack, Chunks(text), section, key); }
    TidyHasNoDecoy(stack, Chunks(text), section, key, size);
    PlainIsReadable(key);
    ReadFileAfterWrite(stack, text, section, key, value, size);
  }

  lemma PlainIsReadable(key: string)
    requires PlainName(key)
    ensures ReadableKey(key) && '=' !in key && PlainKey(key)
  {
    assert forall i | 0 <= i < |key| :: key[i] != '=';
  }
}
