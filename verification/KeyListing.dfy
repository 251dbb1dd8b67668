/** What the key listing of the reader contains, before and after a write. It is followed together with the line
    buffer, which decides what counts as a header (linux/libsrc/sysipc.cpp). */
module KeyListing {
  import opened CStrings
  import opened IniReader
  import opened IniTheorems
  import opened IniWriter
  import opened LineBuffer
  import opened LineFiles
  import opened Scan

  /** A newline at the end of the chunk does not change the option it names. */
  predicate NamesKeyAsRead(line: string, k: string) {
    IsOption(line) && OptionName(line) == k
  }

  lemma SameOption(c: string, k: string)
    requires IsLine(c)
    ensures NamesKey(c, k) <==> NamesKeyAsRead(Body(c), k)
  {
    var b := Body(c);
    assert c == b + ['\n'];
    assert forall j | 0 <= j < |b| :: c[j] == b[j];
    var i := IndexOf(b, '=');
    if i < |b| {
      FirstIsUnique(c, '=', i);
      assert c[..i] == b[..i];
    } else {
      NoneIsLength(c, '=');
    }
  }

  // ---- The listing in two parts ----

  /** The line buffer, and whether the listing is inside a section. */
  datatype Progress = Progress(buf: string, inside: bool)

  /** What is listed from here on. */
  function Keys(s: Progress, lines: seq<string>, section: string): seq<string>
    requires AllFit(lines, |s.buf|)
  {
    KeyNamesIn(s.buf, lines, section, s.inside)
  }

  function Next(s: Progress, line: string, section: string): (t: Progress)
    requires |line| < |s.buf|
    ensures |t.buf| == |s.buf|
  {
    var b := Overlay(s.buf, line);
    if !s.inside then Progress(b, HeaderIn(b, section))
    else if IsSection(line) then Progress(b, false)
    else Progress(Cut(b, line), true)
  }

  function After(s: Progress, lines: seq<string>, section: string): (t: Progress)
    requires AllFit(lines, |s.buf|)
    ensures |t.buf| == |s.buf|
    decreases |lines|
  {
    if lines == [] then s else After(Next(s, lines[0], section), lines[1..], section)
  }

  /** What one line adds to the listing. */
  function KeyOf(line: string, inside: bool): seq<string> {
    if inside && !IsSection(line) && IsOption(line) then [OptionName(line)] else []
  }

  lemma KeysStep(s: Progress, lines: seq<string>, section: string)
    requires AllFit(lines, |s.buf|) && lines != []
    ensures Keys(s, lines, section) == KeyOf(lines[0], s.inside) + Keys(Next(s, lines[0], section), lines[1..], section)
  {
    hide HeaderIn, Overlay, Cut;
  }

  lemma KeysOfOne(s: Progress, line: string, section: string)
    requires |line| < |s.buf| && NUL !in line
    ensures Keys(s, [line], section) == KeyOf(line, s.inside) && After(s, [line], section) == Next(s, line, section)
  {
    hide Next, KeyOf;
    KeysStep(s, [line], section);
    assert [line][1..] == [];
    assert Keys(Next(s, line, section), [], section) == [];
  }

  lemma {:induction false} KeysAppend(s: Progress, a: seq<string>, b: seq<string>, section: string)
    requires AllFit(a, |s.buf|) && AllFit(b, |s.buf|) && AllFit(a + b, |s.buf|)
    ensures After(s, a + b, section) == After(After(s, a, section), b, section)
    ensures Keys(s, a + b, section) == Keys(s, a, section) + Keys(After(s, a, section), b, section)
    decreases |a|
  {
    hide Next, KeyOf, Keys;
    if a == [] {
      assert a + b == b;
      assert Keys(s, a, section) == [] by { NoLines(s, a, section); }
    } else {
      var t := Next(s, a[0], section);
      assert (a + b)[1..] == a[1..] + b;
      KeysAppend(t, a[1..], b, section);
      KeysStep(s, a, section);
      KeysStep(s, a + b, section);
      Regroup(KeyOf(a[0], s.inside), Keys(t, a[1..], section), Keys(After(s, a, section), b, section));
    }
  }

  lemma NoLines(s: Progress, lines: seq<string>, section: string)
    requires lines == []
    ensures Keys(s, lines, section) == []
  {
  }

  /** A listing around one of its lines. */
  lemma KeysAround(s: Progress, pre: seq<string>, line: string, post: seq<string>, section: string)
    requires AllFit(pre, |s.buf|) && AllFit(post, |s.buf|) && |line| < |s.buf| && NUL !in line
    requires AllFit(pre + ([line] + post), |s.buf|)
    ensures var t := After(s, pre, section);
            && Keys(s, pre + ([line] + post), section)
               == Keys(s, pre, section) + (KeyOf(line, t.inside) + Keys(Next(t, line, section), post, section))
            && After(s, pre + ([line] + post), section) == After(Next(t, line, section), post, section)
  {
    hide Next, KeyOf, Keys, After;
    KeysAppend(s, pre, [line] + post, section);
    KeysAppend(After(s, pre, section), [line], post, section);
    KeysOfOne(After(s, pre, section), line, section);
  }

  // ---- After a write ----

  lemma WrittenKeyLine(key: string, value: string)
    requires PlainKey(key) && '=' !in key
    ensures var b := Body(KeyLine(key, value)); IsOption(b) && OptionName(b) == key && !IsSection(b)
  {
    KeyLineParts(key, value);
    var b := Body(KeyLine(key, value));
    assert b == key + ['='] + value;
    FirstOfPrefix(key, '=', value);
  }

  /** The lines from the slot on, without the line that is replaced. */
  function Rest(cs: seq<string>, section: string, key: string): seq<string> {
    var q := Before(cs, section, key);
    if Replaces(cs, section, key) then LinesOf(cs)[q + 1..] else LinesOf(cs)[q..]
  }

  lemma RestFits(cs: seq<string>, section: string, key: string, size: nat)
    requires AllFit(LinesOf(cs), size)
    ensures AllFit(LinesOf(cs)[..Before(cs, section, key)], size) && AllFit(Rest(cs, section, key), size)
  {
    hide LinesOf, Replaces, FindSlot, FindHeader;
  }

  /** Where the listing stands at the slot. */
  function AtSlot(stack: string, cs: seq<string>, section: string, key: string): (s: Progress)
    requires AllFit(LinesOf(cs), |stack|)
    ensures |s.buf| == |stack|
  {
    After(Progress(stack, false), LinesOf(cs)[..Before(cs, section, key)], section)
  }

  /** What is listed before the slot. */
  function KeysBefore(stack: string, cs: seq<string>, section: string, key: string): seq<string>
    requires AllFit(LinesOf(cs), |stack|)
  {
    Keys(Progress(stack, false), LinesOf(cs)[..Before(cs, section, key)], section)
  }

  /** The listing of any profile, on any buffer: what comes before the slot, and what comes behind it. */
  lemma KeysBeforeWrite(stack: string, cs: seq<string>, section: string, key: string)
    requires AllFit(LinesOf(cs), |stack|) && AllLines(cs) && PlainKey(key)
    ensures AllFit(Rest(cs, section, key), |stack|)
    ensures var s := AtSlot(stack, cs, section, key);
            KeyNamesIn(stack, LinesOf(cs), section, false)
            == KeysBefore(stack, cs, section, key)
               + (if !Replaces(cs, section, key) then Keys(s, Rest(cs, section, key), section)
                  else (if s.inside then [key] else [])
                       + Keys(Next(s, LinesOf(cs)[Before(cs, section, key)], section), Rest(cs, section, key), section))
  {
    hide KeyNamesIn, After, Next, FindSlot, FindHeader, IsSection, IsOption, OptionName, AllFit, LinesOf;
    var q, lines, start := Before(cs, section, key), LinesOf(cs), Progress(stack, false);
    RestFits(cs, section, key, |stack|);
    if Replaces(cs, section, key) {
      NoSectionAtKey(cs, section, key);
      SameOption(cs[q], key);
      LineFits(lines, |stack|, q);
      SplitAround(lines, q);
      KeysAround(start, lines[..q], lines[q], lines[q + 1..], section);
    } else {
      SplitAt(lines, q);
      KeysAppend(start, lines[..q], lines[q..], section);
    }
  }

  lemma KeyLineFits(cs: seq<string>, section: string, key: string, value: string, size: nat)
    requires AllFit(LinesOf(Write(cs, section, key, value)), size)
    ensures |key + "=" + value| < size && NUL !in key + "=" + value
  {
    hide AllFit, Write, LinesOf, KeyLine, Body;
    LineWritten(cs, section, key, value);
    KeyLineParts(key, value);
    var p, w := KeyLineAt(cs, section, key), Write(cs, section, key, value);
    assert LinesOf(w)[p] == Body(w[p]);
    LineFits(LinesOf(w), size, p);
  }

  lemma LineFits(lines: seq<string>, size: nat, i: nat)
    requires AllFit(lines, size) && i < |lines|
    ensures |lines[i]| < size && NUL !in lines[i]
  {
  }

  lemma SplitAt(lines: seq<string>, q: nat)
    requires q <= |lines|
    ensures lines == lines[..q] + lines[q..]
  {
  }

  lemma SplitAround(lines: seq<string>, q: nat)
    requires q < |lines|
    ensures lines == lines[..q] + ([lines[q]] + lines[q + 1..])
  {
  }

  /** What a write does to the key listing of any profile, on any buffer and however many headers match: the new
      line is listed if and only if the listing is inside a section at the slot; a new header is swallowed by a
      section that is still open; and the new line is left in the buffer for the lines behind it. */
  lemma KeysAfterAnyWrite(stack: string, cs: seq<string>, section: string, key: string, value: string)
    requires AllFit(LinesOf(cs), |stack|) && AllFit(LinesOf(Write(cs, section, key, value)), |stack|)
    requires PlainKey(key) && '=' !in key
    ensures AllFit(Rest(cs, section, key), |stack|) && |key + "=" + value| < |stack|
    ensures var s, line := AtSlot(stack, cs, section, key), key + "=" + value;
            KeyNamesIn(stack, LinesOf(Write(cs, section, key, value)), section, false)
            == KeysBefore(stack, cs, section, key)
               + (if Appends(cs, section) then (if s.inside then [] else [key])
                  else (if s.inside then [key] else []) + Keys(Next(s, line, section), Rest(cs, section, key), section))
  {
    hide KeyNamesIn, After, Next, FindSlot, FindHeader, AllFit, LinesOf;
    var q, lines, start := Before(cs, section, key), LinesOf(cs), Progress(stack, false);
    var line := Body(KeyLine(key, value));
    RestFits(cs, section, key, |stack|);
    KeyLineFits(cs, section, key, value, |stack|);
    WrittenKeyLine(key, value);
    if Appends(cs, section) {
      NewHeader(section, key, 0);
      HeaderLineParts(section);
      TwoLinesAppended(cs, HeaderLine(section), KeyLine(key, value));
      KeysAppended(start, lines[..q], Body(HeaderLine(section)), line, section);
    } else {
      PutLine(cs, section, key, value);
      KeysAround(start, lines[..q], line, Rest(cs, section, key), section);
    }
  }

  lemma TwoLinesAppended(cs: seq<string>, header: string, line: string)
    ensures LinesOf(cs + [header, line]) == LinesOf(cs)[..|cs|] + ([Body(header)] + [Body(line), ""])
  {
  }

  lemma KeysAppended(s: Progress, pre: seq<string>, header: string, line: string, section: string)
    requires AllFit(pre, |s.buf|) && AllFit(pre + ([header] + [line, ""]), |s.buf|)
    requires IsSection(header) && HeaderMatches(header, section) && IsOption(line) && !IsSection(line)
    ensures Keys(s, pre + ([header] + [line, ""]), section)
            == Keys(s, pre, section) + if After(s, pre, section).inside then [] else [OptionName(line)]
  {
    hide HeaderMatches, HeaderIn, IsSection, After, Keys, Overlay;
    var lines, t := pre + ([header] + [line, ""]), After(s, pre, section);
    assert lines[|pre|] == header && lines[|pre| + 1] == line;
    KeysAround(s, pre, header, [line, ""], section);
    HeaderOrLeftover(t.buf, header, section);
    var u := Next(t, header, section);
    KeysStep(u, [line, ""], section);
    assert [line, ""][1..] == [""];
    KeysOfOne(Next(u, line, section), "", section);
  }

  lemma PutLine(cs: seq<string>, section: string, key: string, value: string)
    requires !Appends(cs, section)
    ensures LinesOf(Write(cs, section, key, value))
            == LinesOf(cs)[..SlotOf(cs, section, key)] + ([Body(KeyLine(key, value))] + Rest(cs, section, key))
  {
    hide FindSlot, FindHeader, NamesKey, KeyLine, Body;
    var p, line := SlotOf(cs, section, key), KeyLine(key, value);
    if Replaces(cs, section, key) {
      ReplacedLine(cs, p, line);
    } else {
      InsertedLine(cs, p, line);
    }
  }

  lemma ReplacedLine(cs: seq<string>, p: nat, line: string)
    requires p < |cs|
    ensures LinesOf(cs[p := line]) == LinesOf(cs)[..p] + ([Body(line)] + LinesOf(cs)[p + 1..])
  {
    hide Body;
  }

  lemma InsertedLine(cs: seq<string>, p: nat, line: string)
    requires p <= |cs|
    ensures LinesOf(cs[..p] + [line] + cs[p..]) == LinesOf(cs)[..p] + ([Body(line)] + LinesOf(cs)[p..])
  {
    hide Body;
    Inserted(cs, p, line);
  }

  lemma NoSectionAtKey(cs: seq<string>, section: string, key: string)
    requires PlainKey(key) && Replaces(cs, section, key)
    ensures !IsSection(LinesOf(cs)[SlotOf(cs, section, key)])
  {
    var p := SlotOf(cs, section, key);
    if IsSection(Body(cs[p])) { HeadersNameNoPlainKey(cs[p], key); }
  }
}
