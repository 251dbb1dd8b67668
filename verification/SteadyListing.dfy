/** When the key listing goes by the lines, whatever is left in the line buffer, and what it then is, before and after a
    write (linux/libsrc/sysipc.cpp). */
module SteadyListing {
  import opened CStrings
  import opened IniReader
  import opened IniTheorems
  import opened IniWriter
  import opened KeyListing
  import opened LineBuffer
  import opened LineFiles

  /** No line is stepped over where the listing is outside a section. */
  predicate Steady(s: Progress, lines: seq<string>, section: string)
    requires AllFit(lines, |s.buf|)
    decreases |lines|
  {
    lines == []
    || ((s.inside || !StepsOver(s.buf, lines[0], section)) && Steady(Next(s, lines[0], section), lines[1..], section))
  }

  lemma NextByLine(s: Progress, line: string, section: string)
    requires |line| < |s.buf| && NUL !in line && (s.inside || !StepsOver(s.buf, line, section))
    ensures Next(s, line, section).inside == if s.inside then !IsSection(line) else HeaderMatches(line, section)
  {
    hide HeaderMatches, HeaderIn, StepsOver;
    HeaderOrLeftover(s.buf, line, section);
  }

  lemma SteadyCons(s: Progress, line: string, rest: seq<string>, section: string)
    requires AllFit([line] + rest, |s.buf|)
    ensures AllFit(rest, |s.buf|) && |line| < |s.buf| && NUL !in line
    ensures Steady(s, [line] + rest, section)
            <==> (s.inside || !StepsOver(s.buf, line, section)) && Steady(Next(s, line, section), rest, section)
  {
    hide Next, StepsOver;
    var lines := [line] + rest;
    assert lines[0] == line && lines[1..] == rest;
    assert forall j | 0 <= j < |rest| :: rest[j] == lines[j + 1];
  }

  lemma {:induction false} SteadyAppend(s: Progress, a: seq<string>, b: seq<string>, section: string)
    requires AllFit(a, |s.buf|) && AllFit(b, |s.buf|) && AllFit(a + b, |s.buf|)
    ensures Steady(s, a + b, section) <==> Steady(s, a, section) && Steady(After(s, a, section), b, section)
    decreases |a|
  {
    hide Next, StepsOver;
    if a == [] {
      assert a + b == b;
    } else {
      assert (a + b)[1..] == a[1..] + b;
      SteadyAppend(Next(s, a[0], section), a[1..], b, section);
    }
  }

  /** A steady listing depends on the lines alone. */
  lemma {:induction false} SameKeys(s: Progress, t: Progress, lines: seq<string>, section: string)
    requires s.inside == t.inside && AllFit(lines, |s.buf|) && AllFit(lines, |t.buf|)
    requires Steady(s, lines, section) && Steady(t, lines, section)
    ensures Keys(s, lines, section) == Keys(t, lines, section)
    decreases |lines|
  {
    hide Next, StepsOver, Keys, KeyOf;
    if lines == [] {
      NoLines(s, lines, section);
      NoLines(t, lines, section);
    } else {
      NextByLine(s, lines[0], section);
      NextByLine(t, lines[0], section);
      KeysStep(s, lines, section);
      KeysStep(t, lines, section);
      SameKeys(Next(s, lines[0], section), Next(t, lines[0], section), lines[1..], section);
    }
  }

  /** Whether the lines put the listing inside a section, when each decides for itself. */
  function InsideAfter(lines: seq<string>, section: string, inside: bool): bool {
    if lines == [] then inside
    else InsideAfter(lines[1..], section, if inside then !IsSection(lines[0]) else HeaderMatches(lines[0], section))
  }

  /** Every line outside a section decides for itself. */
  predicate OutsideDecide(lines: seq<string>, section: string, inside: bool) {
    lines == []
    || ((inside || DecidesItself(lines[0], section))
        && OutsideDecide(lines[1..], section,
                         if inside then !IsSection(lines[0]) else HeaderMatches(lines[0], section)))
  }

  lemma {:induction false} DecidedAppend(a: seq<string>, b: seq<string>, section: string, inside: bool)
    ensures OutsideDecide(a + b, section, inside)
            <==> OutsideDecide(a, section, inside) && OutsideDecide(b, section, InsideAfter(a, section, inside))
  {
    hide DecidesItself, HeaderMatches, IsSection;
    if a == [] {
      assert a + b == b;
    } else {
      assert (a + b)[1..] == a[1..] + b;
      DecidedAppend(a[1..], b, section, if inside then !IsSection(a[0]) else HeaderMatches(a[0], section));
    }
  }

  /** Then the listing is steady, whatever is in the buffer. */
  lemma {:induction false} DecidedIsSteady(s: Progress, lines: seq<string>, section: string)
    requires AllFit(lines, |s.buf|) && OutsideDecide(lines, section, s.inside)
    ensures Steady(s, lines, section) && After(s, lines, section).inside == InsideAfter(lines, section, s.inside)
    decreases |lines|
  {
    hide Next, StepsOver, HeaderMatches, IsSection, DecidesItself;
    if lines != [] {
      if !s.inside { DecidedLine(s.buf, lines[0], section); }
      NextByLine(s, lines[0], section);
      DecidedIsSteady(Next(s, lines[0], section), lines[1..], section);
    }
  }

  /** It is steady as well when neither the buffer nor a line has a bracket behind its first column. */
  lemma {:induction false} QuietIsSteady(s: Progress, lines: seq<string>, section: string)
    requires AllFit(lines, |s.buf|) && Quiet(s.buf) && forall i | 0 <= i < |lines| :: BracketsFirst(lines[i])
    ensures Steady(s, lines, section)
    decreases |lines|
  {
    hide StepsOver, HeaderIn, Quiet, BracketsFirst, Overlay, Cut, IsSection;
    if lines != [] {
      QuietLine(s.buf, lines[0], section);
      StaysQuiet(s.buf, lines[0]);
      QuietIsSteady(Next(s, lines[0], section), lines[1..], section);
    }
  }

  // ---- A section with one matching header ----

  function OptionNames(lines: seq<string>): seq<string> {
    if lines == [] then []
    else (if IsOption(lines[0]) then [OptionName(lines[0])] else []) + OptionNames(lines[1..])
  }

  lemma {:induction false} NamedIffListed(lines: seq<string>, k: string)
    ensures k in OptionNames(lines) <==> exists j | 0 <= j < |lines| :: NamesKeyAsRead(lines[j], k)
  {
    if lines != [] {
      NamedIffListed(lines[1..], k);
      var one := if IsOption(lines[0]) then [OptionName(lines[0])] else [];
      assert k in one + OptionNames(lines[1..]) <==> k in one || k in OptionNames(lines[1..]);
      if k in OptionNames(lines[1..]) {
        var j :| 0 <= j < |lines| - 1 && NamesKeyAsRead(lines[1..][j], k);
        assert lines[j + 1] == lines[1..][j];
      }
      if j :| 0 <= j < |lines| && NamesKeyAsRead(lines[j], k) {
        assert j > 0 ==> lines[1..][j - 1] == lines[j];
      }
    }
  }

  /** At most one line of the file matches the section, and it is the one the writer finds. */
  predicate SoleHeader(cs: seq<string>, section: string) {
    forall j | 0 <= j < |cs| :: HeaderMatches(Body(cs[j]), section) ==> j == FindHeader(cs, section)
  }

  /** The section has its first matching header at h, ends at e, and no later line matches. */
  predicate SectionAt(lines: seq<string>, section: string, h: nat, e: nat) {
    && h < e <= |lines| && HeaderMatches(lines[h], section)
    && (forall j | 0 <= j < |lines| && (j < h || e < j) :: !HeaderMatches(lines[j], section))
    && (forall j | h < j < e :: !IsSection(lines[j])) && (e < |lines| ==> IsSection(lines[e]))
  }

  lemma {:induction false} NoMatchNoKeys(s: Progress, lines: seq<string>, section: string)
    requires !s.inside && AllFit(lines, |s.buf|) && Steady(s, lines, section)
    requires forall j | 0 <= j < |lines| :: !HeaderMatches(lines[j], section)
    ensures Keys(s, lines, section) == [] && !After(s, lines, section).inside
    decreases |lines|
  {
    hide Next, StepsOver, HeaderMatches, Keys;
    if lines == [] {
      NoLines(s, lines, section);
    } else {
      NextByLine(s, lines[0], section);
      KeysStep(s, lines, section);
      NoMatchNoKeys(Next(s, lines[0], section), lines[1..], section);
    }
  }

  lemma {:induction false} StaysInside(s: Progress, lines: seq<string>, section: string)
    requires s.inside && AllFit(lines, |s.buf|) && forall j | 0 <= j < |lines| :: !IsSection(lines[j])
    ensures After(s, lines, section).inside && Keys(s, lines, section) == OptionNames(lines)
    decreases |lines|
  {
    hide Cut, Overlay, HeaderIn, IsSection, IsOption, OptionName, Keys;
    if lines == [] {
      NoLines(s, lines, section);
    } else {
      KeysStep(s, lines, section);
      StaysInside(Next(s, lines[0], section), lines[1..], section);
    }
  }

  /** Up to the header nothing is listed; behind it the listing is inside. */
  lemma OpenAt(s: Progress, pre: seq<string>, header: string, section: string)
    requires !s.inside && AllFit(pre, |s.buf|) && |header| < |s.buf| && NUL !in header
    requires Steady(s, pre, section) && HeaderMatches(header, section)
    requires forall j | 0 <= j < |pre| :: !HeaderMatches(pre[j], section)
    ensures Keys(s, pre, section) == [] && !After(s, pre, section).inside
    ensures Next(After(s, pre, section), header, section).inside && KeyOf(header, false) == []
  {
    hide HeaderMatches, HeaderIn, Keys, Overlay;
    NoMatchNoKeys(s, pre, section);
    HeaderOrLeftover(After(s, pre, section).buf, header, section);
  }

  /** The key listing of such a section: the options between its header and the next. */
  lemma KeysOfSection(stack: string, lines: seq<string>, section: string, h: nat, e: nat)
    requires AllFit(lines, |stack|) && Steady(Progress(stack, false), lines, section) && SectionAt(lines, section, h, e)
    ensures KeyNamesIn(stack, lines, section, false) == OptionNames(lines[h + 1..e])
  {
    hide KeyNamesIn, OptionNames, HeaderMatches, IsSection, Steady, AllFit;
    SplitAround(lines, h);
    KeysAroundHeader(Progress(stack, false), lines[..h], lines[h], lines[h + 1..], section, e - h - 1);
    assert lines[h + 1..][..e - h - 1] == lines[h + 1..e];
  }

  lemma KeysAroundHeader(s: Progress, pre: seq<string>, header: string, post: seq<string>, section: string, m: nat)
    requires !s.inside && AllFit(pre + ([header] + post), |s.buf|) && Steady(s, pre + ([header] + post), section)
    requires HeaderMatches(header, section) && m <= |post| && (m < |post| ==> IsSection(post[m]))
    requires forall j | 0 <= j < |pre| :: !HeaderMatches(pre[j], section)
    requires forall j | 0 <= j < m :: !IsSection(post[j])
    requires forall j | m < j < |post| :: !HeaderMatches(post[j], section)
    ensures Keys(s, pre + ([header] + post), section) == OptionNames(post[..m])
  {
    hide Keys, After, Next, KeyOf, OptionNames, HeaderMatches, IsSection, Steady, AllFit;
    SteadyAround(s, pre, header, post, section);
    OpenAt(s, pre, header, section);
    KeysAround(s, pre, header, post, section);
    KeysUpTo(Next(After(s, pre, section), header, section), post, section, m);
  }

  lemma KeysUpTo(s: Progress, lines: seq<string>, section: string, e: nat)
    requires s.inside && AllFit(lines, |s.buf|) && Steady(s, lines, section) && e <= |lines|
    requires (forall j | 0 <= j < e :: !IsSection(lines[j])) && (e < |lines| ==> IsSection(lines[e]))
    requires forall j | e < j < |lines| :: !HeaderMatches(lines[j], section)
    ensures Keys(s, lines, section) == OptionNames(lines[..e])
  {
    hide After, OptionNames, HeaderMatches, IsSection, Steady, Keys;
    SplitAt(lines, e);
    StaysInside(s, lines[..e], section);
    KeysAppend(s, lines[..e], lines[e..], section);
    SteadyAppend(s, lines[..e], lines[e..], section);
    NothingListed(After(s, lines[..e], section), lines[e..], section);
  }

  /** The listing ends with the next header, or with the file. */
  lemma NothingListed(s: Progress, lines: seq<string>, section: string)
    requires s.inside && AllFit(lines, |s.buf|) && Steady(s, lines, section)
    requires lines != [] ==> IsSection(lines[0]) || lines == [""]
    requires forall j | 0 < j < |lines| :: !HeaderMatches(lines[j], section)
    ensures Keys(s, lines, section) == []
  {
    hide HeaderMatches, HeaderIn, Keys, Overlay, StepsOver;
    if lines == [] {
      NoLines(s, lines, section);
    } else {
      KeysStep(s, lines, section);
      if IsSection(lines[0]) {
        NoMatchNoKeys(Next(s, lines[0], section), lines[1..], section);
      } else {
        NoLines(Next(s, "", section), lines[1..], section);
      }
    }
  }

  // ---- After a write to such a section ----

  /** After a write the key listing of the section is the old one, with the key at the end if and only if it was not in
      it. */
  lemma KeysAfterWrite(stack: string, cs: seq<string>, section: string, key: string, value: string)
    requires AllFit(LinesOf(cs), |stack|) && AllFit(LinesOf(Write(cs, section, key, value)), |stack|)
    requires AllLines(cs) && SoleHeader(cs, section) && PlainKey(key) && '=' !in key
    requires Steady(Progress(stack, false), LinesOf(cs), section)
    requires Steady(Progress(stack, false), LinesOf(Write(cs, section, key, value)), section)
    ensures var was := KeyNamesIn(stack, LinesOf(cs), section, false);
            KeyNamesIn(stack, LinesOf(Write(cs, section, key, value)), section, false)
            == if key in was then was else was + [key]
  {
    hide KeyNamesIn, AtSlot, Keys, Steady, Next, SoleHeader, FindSlot, FindHeader, Write, Rest, LinesOf, AllFit;
    hide AllLines;
    KeysBeforeWrite(stack, cs, section, key);
    KeysAfterAnyWrite(stack, cs, section, key, value);
    if Appends(cs, section) {
      NoKeysWithoutHeader(stack, cs, section, key);
    } else {
      OpenAtSlot(stack, cs, section, key);
      BehindSlot(stack, cs, section, key, value);
    }
  }

  lemma NoKeysWithoutHeader(stack: string, cs: seq<string>, section: string, key: string)
    requires AllFit(LinesOf(cs), |stack|) && Steady(Progress(stack, false), LinesOf(cs), section)
    requires SoleHeader(cs, section) && Appends(cs, section)
    ensures KeyNamesIn(stack, LinesOf(cs), section, false) == [] && KeysBefore(stack, cs, section, key) == []
    ensures !AtSlot(stack, cs, section, key).inside
  {
    hide Steady, FindHeader, HeaderMatches, KeyNamesIn, After;
    var s, lines := Progress(stack, false), LinesOf(cs);
    assert Keys(s, lines, section) == KeyNamesIn(stack, lines, section, false);
    assert forall j | 0 <= j < |cs| :: lines[j] == Body(cs[j]);
    EmptyNoHeader(section);
    SplitAt(lines, |cs|);
    SteadyAppend(s, lines[..|cs|], lines[|cs|..], section);
    NoMatchNoKeys(s, lines, section);
    NoMatchNoKeys(s, lines[..|cs|], section);
  }

  lemma EmptyNoHeader(section: string)
    ensures !HeaderMatches("", section)
  {
  }

  /** At the slot the listing is inside the section, and has not met the key. */
  lemma OpenAtSlot(stack: string, cs: seq<string>, section: string, key: string)
    requires AllFit(LinesOf(cs), |stack|) && Steady(Progress(stack, false), LinesOf(cs), section)
    requires AllLines(cs) && SoleHeader(cs, section) && !Appends(cs, section)
    ensures AtSlot(stack, cs, section, key).inside && key !in KeysBefore(stack, cs, section, key)
  {
    hide Steady, Keys, After, HeaderMatches, FindSlot, FindHeader, IsSection, OptionNames, Body;
    var h, p, lines := FindHeader(cs, section), SlotOf(cs, section, key), LinesOf(cs);
    var s, pre, post := Progress(stack, false), lines[..h], lines[h + 1..p];
    HeaderFound(cs, section);
    ExactHeaderMatches(cs[h], section);
    NoSectionBefore(cs, section, key);
    NotNamedBefore(cs, section, key);
    SplitAt(lines, h);
    SteadyAppend(s, pre, lines[h..], section);
    OpenAt(s, pre, lines[h], section);
    TakeAround(lines, h, p);
    KeysAround(s, pre, lines[h], post, section);
    StaysInside(Next(After(s, pre, section), lines[h], section), post, section);
  }

  lemma TakeAround(lines: seq<string>, h: nat, p: nat)
    requires h < p <= |lines|
    ensures lines[..p] == lines[..h] + ([lines[h]] + lines[h + 1..p])
  {
  }

  lemma NoSectionBefore(cs: seq<string>, section: string, key: string)
    requires !Appends(cs, section)
    ensures var p := SlotOf(cs, section, key);
            && (forall j | FindHeader(cs, section) < j < p :: !IsSection(LinesOf(cs)[j]))
            && (p < |cs| && !Replaces(cs, section, key) ==> IsSection(LinesOf(cs)[p]))
  {
    SlotFound(cs, FindHeader(cs, section) + 1, key);
  }

  lemma NotNamedBefore(cs: seq<string>, section: string, key: string)
    requires AllLines(cs) && !Appends(cs, section)
    ensures key !in OptionNames(LinesOf(cs)[FindHeader(cs, section) + 1..SlotOf(cs, section, key)])
  {
    var lines := LinesOf(cs)[FindHeader(cs, section) + 1..SlotOf(cs, section, key)];
    SlotFound(cs, FindHeader(cs, section) + 1, key);
    forall j | 0 <= j < |lines| ensures !NamesKeyAsRead(lines[j], key) {
      SameOption(cs[FindHeader(cs, section) + 1 + j], key);
    }
    NamedIffListed(lines, key);
  }

  lemma NoMatchBehind(cs: seq<string>, section: string, from: nat)
    requires SoleHeader(cs, section) && FindHeader(cs, section) < from <= |cs| + 1
    ensures forall j | from <= j <= |cs| :: !HeaderMatches(LinesOf(cs)[j], section)
  {
  }

  /** A line at which the listing stays inside. */
  lemma StaysOpen(s: Progress, line: string, section: string)
    requires s.inside && |line| < |s.buf| && !IsSection(line)
    ensures Next(s, line, section).inside
  {
  }

  /** Behind the slot the same is listed before the write and after it: what the section still holds if the key was
      there, nothing if it was not. */
  lemma BehindSlot(stack: string, cs: seq<string>, section: string, key: string, value: string)
    requires AllFit(LinesOf(cs), |stack|) && AllFit(LinesOf(Write(cs, section, key, value)), |stack|)
    requires AllFit(Rest(cs, section, key), |stack|) && |key + "=" + value| < |stack|
    requires SoleHeader(cs, section) && !Appends(cs, section) && PlainKey(key) && '=' !in key
    requires Steady(Progress(stack, false), LinesOf(cs), section)
    requires Steady(Progress(stack, false), LinesOf(Write(cs, section, key, value)), section)
    requires AtSlot(stack, cs, section, key).inside
    ensures var s, p, rest := AtSlot(stack, cs, section, key), SlotOf(cs, section, key), Rest(cs, section, key);
            var after := Keys(Next(s, key + "=" + value, section), rest, section);
            if Replaces(cs, section, key) then Keys(Next(s, LinesOf(cs)[p], section), rest, section) == after
            else Keys(s, rest, section) == [] && after == []
  {
    hide Steady, Keys, After, Next, HeaderMatches, FindSlot, FindHeader, IsSection, Write, KeyLine, Body, AllFit;
    hide LinesOf;
    var s, p, rest := AtSlot(stack, cs, section, key), SlotOf(cs, section, key), Rest(cs, section, key);
    var line, lines := key + "=" + value, LinesOf(cs);
    KeyLineParts(key, value);
    WrittenKeyLine(key, value);
    RestFits(cs, section, key, |stack|);
    PutLine(cs, section, key, value);
    SteadyAround(Progress(stack, false), lines[..p], line, rest, section);
    StaysOpen(s, line, section);
    if Replaces(cs, section, key) {
      NoSectionAtKey(cs, section, key);
      SplitAround(lines, p);
      LineFits(lines, |stack|, p);
      SteadyAround(Progress(stack, false), lines[..p], lines[p], rest, section);
      StaysOpen(s, lines[p], section);
      SameKeys(Next(s, lines[p], section), Next(s, line, section), rest, section);
    } else {
      SplitAt(lines, p);
      SteadyAppend(Progress(stack, false), lines[..p], rest, section);
      EndsAtSlot(cs, section, key);
      NothingListed(s, rest, section);
      NothingListed(Next(s, line, section), rest, section);
    }
  }

  /** A listing that is steady around a line. */
  lemma SteadyAround(s: Progress, pre: seq<string>, line: string, rest: seq<string>, section: string)
    requires AllFit(pre + ([line] + rest), |s.buf|)
    ensures AllFit(pre, |s.buf|) && AllFit(rest, |s.buf|) && |line| < |s.buf| && NUL !in line
    ensures var t := After(s, pre, section);
            Steady(s, pre + ([line] + rest), section)
            <==> Steady(s, pre, section) && (t.inside || !StepsOver(t.buf, line, section))
                 && Steady(Next(t, line, section), rest, section)
  {
    hide Next, StepsOver, After, Steady, AllFit;
    PartsFit(pre, [line] + rest, |s.buf|);
    SteadyCons(After(s, pre, section), line, rest, section);
    SteadyAppend(s, pre, [line] + rest, section);
  }

  lemma PartsFit(a: seq<string>, b: seq<string>, size: nat)
    requires AllFit(a + b, size)
    ensures AllFit(a, size) && AllFit(b, size)
  {
    assert forall j | 0 <= j < |a| :: a[j] == (a + b)[j];
    assert forall j | 0 <= j < |b| :: b[j] == (a + b)[|a| + j];
  }

  /** Behind the slot of an absent key there is the next header, or the end of the file. */
  lemma EndsAtSlot(cs: seq<string>, section: string, key: string)
    requires SoleHeader(cs, section) && !Appends(cs, section) && !Replaces(cs, section, key)
    ensures var rest := Rest(cs, section, key);
            && rest != [] && (IsSection(rest[0]) || rest == [""])
            && forall j | 0 < j < |rest| :: !HeaderMatches(rest[j], section)
  {
    hide FindSlot, FindHeader, HeaderMatches, Body, NamesKey, IsSection;
    var p, lines := SlotOf(cs, section, key), LinesOf(cs);
    NoSectionBefore(cs, section, key);
    EmptyNoHeader(section);
    assert lines[p..][0] == lines[p];
    NoMatchBehind(cs, section, p + 1);
    assert forall j | 0 < j < |lines| - p :: lines[p..][j] == lines[p + j];
  }

  /** When the lines outside sections decide for themselves, the listing is steady before the write and after it. */
  lemma DecidedStaysSteady(stack: string, cs: seq<string>, section: string, key: string, value: string)
    requires AllFit(LinesOf(cs), |stack|) && AllFit(LinesOf(Write(cs, section, key, value)), |stack|)
    requires AllLines(cs) && SoleHeader(cs, section) && PlainKey(key) && '=' !in key
    requires OutsideDecide(LinesOf(cs), section, false)
    ensures Steady(Progress(stack, false), LinesOf(cs), section)
    ensures Steady(Progress(stack, false), LinesOf(Write(cs, section, key, value)), section)
  {
    hide Steady, OutsideDecide, SoleHeader, FindSlot, FindHeader, Write, LinesOf, AllFit, AllLines, After, InsideAfter;
    DecidedIsSteady(Progress(stack, false), LinesOf(cs), section);
    if Appends(cs, section) {
      SteadyAppended(stack, cs, section, key, value);
    } else {
      SteadyInPlace(stack, cs, section, key, value);
    }
  }

  lemma SteadyAppended(stack: string, cs: seq<string>, section: string, key: string, value: string)
    requires AllFit(LinesOf(cs), |stack|) && AllFit(LinesOf(Write(cs, section, key, value)), |stack|)
    requires SoleHeader(cs, section) && Appends(cs, section) && PlainKey(key) && '=' !in key
    requires Steady(Progress(stack, false), LinesOf(cs), section)
    ensures Steady(Progress(stack, false), LinesOf(Write(cs, section, key, value)), section)
  {
    hide Steady, SoleHeader, FindHeader, AllFit, After, Next, IsSection, HeaderLine, KeyLine, Body, LinesOf;
    var s, lines := Progress(stack, false), LinesOf(cs);
    var header, line, pre := Body(HeaderLine(section)), Body(KeyLine(key, value)), lines[..|cs|];
    NoKeysWithoutHeader(stack, cs, section, key);
    WrittenKeyLine(key, value);
    TwoLinesAppended(cs, HeaderLine(section), KeyLine(key, value));
    SplitAt(lines, |cs|);
    PartsFit(pre, lines[|cs|..], |stack|);
    SteadyAppend(s, pre, lines[|cs|..], section);
    SteadyAround(s, pre, header, [line, ""], section);
    NewLinesSteady(After(s, pre, section), header, line, section);
  }

  lemma NewLinesSteady(s: Progress, header: string, line: string, section: string)
    requires |header| < |s.buf| && AllFit([line, ""], |s.buf|) && !s.inside && !IsSection(line)
    requires header == Body(HeaderLine(section)) && NUL !in header
    ensures !StepsOver(s.buf, header, section) && Steady(Next(s, header, section), [line, ""], section)
  {
    hide HeaderMatches, StepsOver, IsSection, Next, Steady;
    assert header == "[" + section + "]";
    DecidedLine(s.buf, header, section);
    WrittenHeaderMatches(section);
    NextByLine(s, header, section);
    var t := Next(s, header, section);
    assert [line, ""] == [line] + [""] && [""] == [""] + [];
    SteadyCons(t, line, [""], section);
    StaysOpen(t, line, section);
    SteadyCons(Next(t, line, section), "", [], section);
    NothingIsSteady(Next(Next(t, line, section), "", section), section);
  }

  lemma NothingIsSteady(s: Progress, section: string)
    ensures Steady(s, [], section)
  {
  }

  lemma SteadyInPlace(stack: string, cs: seq<string>, section: string, key: string, value: string)
    requires AllFit(LinesOf(cs), |stack|) && AllFit(LinesOf(Write(cs, section, key, value)), |stack|)
    requires AllLines(cs) && SoleHeader(cs, section) && !Appends(cs, section) && PlainKey(key) && '=' !in key
    requires OutsideDecide(LinesOf(cs), section, false) && Steady(Progress(stack, false), LinesOf(cs), section)
    ensures Steady(Progress(stack, false), LinesOf(Write(cs, section, key, value)), section)
  {
    hide Steady, OutsideDecide, SoleHeader, FindSlot, FindHeader, Write, LinesOf, AllFit, AllLines, After;
    hide InsideAfter, Next;
    hide IsSection, KeyLine, Body;
    var s, p, lines, rest := Progress(stack, false), SlotOf(cs, section, key), LinesOf(cs), Rest(cs, section, key);
    var line := key + "=" + value;
    RestFits(cs, section, key, |stack|);
    KeyLineParts(key, value);
    OpenAtSlot(stack, cs, section, key);
    DecidedRest(stack, cs, section, key);
    SplitAt(lines, p);
    PartsFit(lines[..p], lines[p..], |stack|);
    SteadyAppend(s, lines[..p], lines[p..], section);
    PutLine(cs, section, key, value);
    SteadyAround(s, lines[..p], line, rest, section);
    var t := After(s, lines[..p], section);
    StaysOpen(t, line, section);
    DecidedIsSteady(Next(t, line, section), rest, section);
  }

  lemma DecidedRest(stack: string, cs: seq<string>, section: string, key: string)
    requires AllFit(LinesOf(cs), |stack|) && !Appends(cs, section) && PlainKey(key)
    requires OutsideDecide(LinesOf(cs), section, false) && AtSlot(stack, cs, section, key).inside
    ensures OutsideDecide(Rest(cs, section, key), section, true)
  {
    hide FindSlot, FindHeader, LinesOf, AllFit, After, OutsideDecide, IsSection, Body;
    var p, lines := SlotOf(cs, section, key), LinesOf(cs);
    DecidedBehind(stack, lines, p, section);
    if Replaces(cs, section, key) {
      NoSectionAtKey(cs, section, key);
      DecidedTail(lines[p..], section);
      assert lines[p..][0] == lines[p] && lines[p..][1..] == lines[p + 1..];
    }
  }

  lemma DecidedBehind(stack: string, lines: seq<string>, p: nat, section: string)
    requires AllFit(lines, |stack|) && p <= |lines| && OutsideDecide(lines, section, false)
    ensures AllFit(lines[..p], |stack|)
    ensures OutsideDecide(lines[p..], section, After(Progress(stack, false), lines[..p], section).inside)
  {
    hide AllFit, After, InsideAfter, OutsideDecide, Steady;
    SplitAt(lines, p);
    PartsFit(lines[..p], lines[p..], |stack|);
    DecidedAppend(lines[..p], lines[p..], section, false);
    DecidedIsSteady(Progress(stack, false), lines[..p], section);
  }

  lemma DecidedTail(lines: seq<string>, section: string)
    requires lines != [] && !IsSection(lines[0]) && OutsideDecide(lines, section, true)
    ensures OutsideDecide(lines[1..], section, true)
  {
  }
}
