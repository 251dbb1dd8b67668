/** All lines the reader gets pass through one buffer, and FindSection steps over the end of a line into what earlier
    lines left there. So what it finds depends on the buffer, not on the line alone; here is what it finds, and when
    the lines alone decide (linux/libsrc/sysipc.cpp). */
module LineBuffer {
  import opened CStrings
  import opened IniReader
  import opened IniWriter
  import opened Wrappers

  const SIZE_T := 0x1_0000_0000_0000_0000

  /** strlen(a) - n in unsigned 64-bit arithmetic */
  function SizeDifference(a: nat, n: nat): int {
    if a >= n then a - n else SIZE_T + a - n
  }

  /** The buffer after a line was read into it. */
  function Overlay(buf: string, line: string): (r: string)
    requires |line| < |buf|
    ensures |r| == |buf| && r[..|line|] == line && r[|line|] == NUL
    ensures forall j | |line| < j < |buf| :: r[j] == buf[j]
  {
    line + [NUL] + buf[|line| + 1..]
  }

  /** FindSection returns 0 on this buffer. */
  predicate HeaderIn(buf: string, section: string) {
    var i := StopFrom(buf, 0);
    && i < SizeDifference(IndexOf(buf, NUL), |section|)
    && 2 * i < |buf| && buf[2 * i] == '[' && NameMatches(TextOf(buf[2 * i + 1..]), section)
  }

  predicate AllFit(lines: seq<string>, size: nat) {
    forall i | 0 <= i < |lines| :: |lines[i]| < size && NUL !in lines[i]
  }

  /** The line at which FindSection first returns 0, or |lines|. */
  function Seek(buf: string, lines: seq<string>, section: string): (h: nat)
    requires AllFit(lines, |buf|)
    ensures h <= |lines|
    decreases |lines|
  {
    if lines == [] then 0
    else
      var b := Overlay(buf, lines[0]);
      if HeaderIn(b, section) then 0 else 1 + Seek(b, lines[1..], section)
  }

  /** What a lookup finds that begins with this buffer. */
  function BufferLookup(buf: string, lines: seq<string>, section: string, key: string, size: int): Option<string>
    requires AllFit(lines, |buf|)
  {
    ValueAt(lines, AnswerBehind(lines, Seek(buf, lines, section), key, size))
  }

  /** IsOptionName leaves a NUL in place of the '='. */
  function Cut(buf: string, line: string): (r: string)
    requires |line| < |buf|
    ensures |r| == |buf|
  {
    if IsOption(line) then buf[IndexOf(line, '=') := NUL] else buf
  }

  /** The key listing that begins with this buffer. A header ends the listing and is itself not tried as a match. */
  function KeyNamesIn(buf: string, lines: seq<string>, section: string, inside: bool): seq<string>
    requires AllFit(lines, |buf|)
    decreases |lines|
  {
    if lines == [] then []
    else
      var b := Overlay(buf, lines[0]);
      if !inside then KeyNamesIn(b, lines[1..], section, HeaderIn(b, section))
      else if IsSection(lines[0]) then KeyNamesIn(b, lines[1..], section, false)
      else
        (if IsOption(lines[0]) then [OptionName(lines[0])] else [])
        + KeyNamesIn(Cut(b, lines[0]), lines[1..], section, true)
  }

  // ---- What FindSection finds on a line ----

  /** FindSection steps over the end of this line and takes what is left in the buffer behind it for a header. */
  predicate StepsOver(buf: string, line: string, section: string) {
    var i := StopFrom(buf, (|line| + 1) / 2);
    && |line| % 2 == 1 && 2 * StopFrom(line, 0) >= |line|
    && i < SizeDifference(|line|, |section|)
    && 2 * i < |buf| && buf[2 * i] == '[' && NameMatches(TextOf(buf[2 * i + 1..]), section)
  }

  lemma StopIs(buf: string, i: nat)
    requires 2 * i < |buf| && IsStop(buf[2 * i]) && forall j | 0 <= j < i :: !IsStop(buf[2 * j])
    ensures StopFrom(buf, 0) == i
  {
  }

  /** What FindSection finds, on any buffer: the line is a header that matches, or such a header is behind its end. */
  lemma HeaderOrLeftover(buf: string, line: string, section: string)
    requires |line| < |buf| && NUL !in line
    ensures HeaderIn(Overlay(buf, line), section) <==> HeaderMatches(line, section) || StepsOver(buf, line, section)
  {
    hide NameMatches, StopFrom, IndexOf, TextOf, StepsOver;
    var b, i := Overlay(buf, line), StopFrom(line, 0);
    assert forall j | 0 <= j < |line| :: b[j] == line[j];
    FirstIsUnique(b, NUL, |line|);
    if 2 * i < |line| {
      StopIs(b, i);
      RestOfLine(b, line, 2 * i + 1);
      if NameMatches(line[2 * i + 1..], section) { LoopGetsThere(line, section, i); }
      DecidedLine(buf, line, section);
    } else if |line| % 2 == 0 {
      StopIs(b, |line| / 2);
      DecidedLine(buf, line, section);
    } else {
      BeyondLine(buf, b, line, section);
    }
  }

  lemma BeyondLine(buf: string, b: string, line: string, section: string)
    requires |line| < |buf| && b == Overlay(buf, line) && IndexOf(b, NUL) == |line|
    requires |line| % 2 == 1 && 2 * StopFrom(line, 0) >= |line|
    ensures HeaderIn(b, section) <==> StepsOver(buf, line, section)
  {
    hide NameMatches, StopFrom, IndexOf, TextOf, IsStop, SizeDifference, Overlay;
    StopBeyond(b, buf, line);
    SameRest(b, buf, |line| + 1, 2 * StopFrom(b, 0));
  }

  lemma SameRest(b: string, buf: string, from: nat, k: nat)
    requires |b| == |buf| && from <= k && forall j | from <= j < |b| :: b[j] == buf[j]
    ensures k < |b| ==> b[k] == buf[k] && b[k + 1..] == buf[k + 1..]
  {
  }

  /** A name that matches is longer than the section, so the loop has not ended before it. */
  lemma LoopGetsThere(line: string, section: string, i: nat)
    requires 2 * i < |line| && NameMatches(line[2 * i + 1..], section)
    ensures i < SizeDifference(|line|, |section|)
  {
  }

  lemma RestOfLine(b: string, line: string, k: nat)
    requires |line| < |b| && k <= |line| && b[|line|] == NUL && NUL !in line
    requires forall j | 0 <= j < |line| :: b[j] == line[j]
    ensures TextOf(b[k..]) == line[k..]
  {
    FirstIsUnique(b[k..], NUL, |line| - k);
    assert b[k..][..|line| - k] == line[k..];
  }

  lemma StopBeyond(b: string, buf: string, line: string)
    requires |line| < |b| == |buf| && |line| % 2 == 1 && 2 * StopFrom(line, 0) >= |line|
    requires b[..|line|] == line && forall j | |line| < j < |b| :: b[j] == buf[j]
    ensures 2 * StopFrom(b, 0) > |line| && StopFrom(b, 0) == StopFrom(buf, (|line| + 1) / 2)
  {
    hide IsStop;
    assert forall j | 0 <= j < |line| :: b[j] == line[j];
    assert 2 * StopFrom(b, 0) > |line|;
  }

  /** A line on which it does not matter what is left in the buffer: its end or a stop is in an even column, or the loop
      ends with the line. */
  predicate DecidesItself(line: string, section: string) {
    |line| % 2 == 0 || 2 * StopFrom(line, 0) < |line| || |section| <= |line| <= 2 * |section| + 1
  }

  lemma DecidedLine(buf: string, line: string, section: string)
    requires |line| < |buf| && DecidesItself(line, section)
    ensures !StepsOver(buf, line, section)
  {
  }

  /** These are all such lines: behind any other one FindSection can find a header. */
  lemma LineDecides(line: string, section: string, n: nat)
    requires NUL !in line && NUL !in section && |section| < SIZE_T && |line| + |section| + 3 <= n
    ensures DecidesItself(line, section)
            <==> forall buf: string | |buf| == n ::
                   HeaderIn(Overlay(buf, line), section) == HeaderMatches(line, section)
  {
    hide HeaderIn, HeaderMatches, StepsOver, DecidesItself, Overlay;
    if DecidesItself(line, section) {
      forall buf: string | |buf| == n
        ensures HeaderIn(Overlay(buf, line), section) == HeaderMatches(line, section)
      {
        DecidedLine(buf, line, section);
        HeaderOrLeftover(buf, line, section);
      }
    } else {
      var buf := WithHeaderBehind(line, section, n);
      HeaderOrLeftover(buf, line, section);
      StepsOnto(line, section, n);
    }
  }

  /** A buffer in which the header of the section begins behind the end of the line. */
  function WithHeaderBehind(line: string, section: string, n: nat): (buf: string)
    requires |line| + |section| + 3 <= n
    ensures |buf| == n && buf[|line| + 1] == '[' && section + "]" <= buf[|line| + 2..]
  {
    line + [NUL] + ("[" + section + "]") + seq(n - |line| - |section| - 3, _ => NUL)
  }

  lemma StepsOnto(line: string, section: string, n: nat)
    requires NUL !in section && |section| < SIZE_T && |line| + |section| + 3 <= n && !DecidesItself(line, section)
    ensures StepsOver(WithHeaderBehind(line, section, n), line, section) && !HeaderMatches(line, section)
  {
    hide NameMatches, WithHeaderBehind;
    var buf, i := WithHeaderBehind(line, section, n), (|line| + 1) / 2;
    assert StopFrom(buf, i) == i;
    OwnNameBehind(buf[2 * i + 1..], section);
  }

  lemma OwnNameBehind(rest: string, section: string)
    requires NUL !in section && section + "]" <= rest
    ensures NameMatches(TextOf(rest), section)
  {
    var text, n := TextOf(rest), |section|;
    assert forall j | 0 <= j < n :: rest[j] == section[j] && rest[j] != NUL;
    assert rest[n] == ']' && |text| > n;
    assert text == section + text[n..];
    Prefix(section, text[n..]);
  }

  // ---- A lookup ----

  /** A header that matches stops the search, whatever is in the buffer. */
  lemma {:induction false} SeekStops(buf: string, lines: seq<string>, section: string, q: nat)
    requires AllFit(lines, |buf|) && q < |lines| && HeaderMatches(lines[q], section)
    ensures Seek(buf, lines, section) <= q
    decreases q
  {
    hide HeaderIn, HeaderMatches;
    HeaderOrLeftover(buf, lines[0], section);
    if q > 0 && !HeaderIn(Overlay(buf, lines[0]), section) {
      SeekStops(Overlay(buf, lines[0]), lines[1..], section, q - 1);
    }
  }

  /** Up to where two files agree, so do the searches in them. */
  lemma {:induction false} SeekAgrees(buf: string, was: seq<string>, lines: seq<string>, section: string, q: nat)
    requires AllFit(was, |buf|) && AllFit(lines, |buf|) && q <= |was| && q <= |lines|
    requires forall j | 0 <= j < q :: lines[j] == was[j]
    ensures Seek(buf, was, section) < q ==> Seek(buf, lines, section) == Seek(buf, was, section)
    ensures Seek(buf, was, section) >= q ==> Seek(buf, lines, section) >= q
    decreases q
  {
    hide HeaderIn;
    if q > 0 { SeekAgrees(Overlay(buf, was[0]), was[1..], lines[1..], section, q - 1); }
  }

  /** No line before the header is stepped over. */
  predicate Undisturbed(buf: string, lines: seq<string>, section: string)
    requires AllFit(lines, |buf|)
    decreases |lines|
  {
    || lines == [] || HeaderMatches(lines[0], section)
    || (!StepsOver(buf, lines[0], section) && Undisturbed(Overlay(buf, lines[0]), lines[1..], section))
  }

  /** The search finds the first line that is a header and matches, if and only if none before it is stepped over. */
  lemma {:induction false} SeekByLines(buf: string, lines: seq<string>, section: string)
    requires AllFit(lines, |buf|)
    ensures Seek(buf, lines, section) == FirstHeader(lines, section) <==> Undisturbed(buf, lines, section)
    decreases |lines|
  {
    hide HeaderIn, HeaderMatches, StepsOver, FirstHeader;
    FirstHeaderFound(lines, section);
    if lines != [] {
      HeaderOrLeftover(buf, lines[0], section);
      if HeaderMatches(lines[0], section) {
        FirstHeaderIs(lines, section, 0);
      } else {
        HeaderInTail(lines, section);
        SeekByLines(Overlay(buf, lines[0]), lines[1..], section);
      }
    }
  }

  lemma HeaderInTail(lines: seq<string>, section: string)
    requires lines != [] && !HeaderMatches(lines[0], section)
    ensures FirstHeader(lines, section) == 1 + FirstHeader(lines[1..], section)
  {
    hide HeaderMatches, FirstHeader;
    var h := FirstHeader(lines[1..], section);
    FirstHeaderFound(lines[1..], section);
    forall j | 0 <= j < 1 + h ensures !HeaderMatches(lines[j], section) {
      assert j > 0 ==> lines[j] == lines[1..][j - 1];
    }
    FirstHeaderIs(lines, section, 1 + h);
  }

  /** So it is on every buffer, if the lines before that header decide for themselves. */
  lemma {:induction false} DecidedLines(buf: string, lines: seq<string>, section: string)
    requires AllFit(lines, |buf|)
    requires forall i | 0 <= i < FirstHeader(lines, section) :: DecidesItself(lines[i], section)
    ensures Undisturbed(buf, lines, section)
    decreases |lines|
  {
    hide HeaderMatches, StepsOver, FirstHeader, DecidesItself;
    if lines != [] && !HeaderMatches(lines[0], section) {
      HeaderInTail(lines, section);
      DecidedLine(buf, lines[0], section);
      assert forall i | 0 <= i < FirstHeader(lines[1..], section) :: lines[1..][i] == lines[i + 1];
      DecidedLines(Overlay(buf, lines[0]), lines[1..], section);
    }
  }

  // ---- Buffers without brackets ----

  /** A buffer in which no '[' is left behind the first column. */
  predicate Quiet(buf: string) {
    forall j | 1 <= j < |buf| :: buf[j] != '['
  }

  predicate BracketsFirst(line: string) {
    forall j | 1 <= j < |line| :: line[j] != '['
  }

  lemma StaysQuiet(buf: string, line: string)
    requires Quiet(buf) && BracketsFirst(line) && |line| < |buf|
    ensures Quiet(Overlay(buf, line)) && Quiet(Cut(Overlay(buf, line), line))
  {
    var b := Overlay(buf, line);
    assert forall j | 0 <= j < |line| :: b[j] == line[j];
  }

  lemma QuietLine(buf: string, line: string, section: string)
    requires Quiet(buf)
    ensures !StepsOver(buf, line, section)
  {
  }

  /** So it is on a buffer without brackets, if the lines before the header leave none there. */
  lemma {:induction false} QuietLines(buf: string, lines: seq<string>, section: string)
    requires AllFit(lines, |buf|) && Quiet(buf)
    requires forall i | 0 <= i < FirstHeader(lines, section) :: BracketsFirst(lines[i])
    ensures Undisturbed(buf, lines, section)
    decreases |lines|
  {
    hide HeaderMatches, StepsOver, FirstHeader, BracketsFirst;
    if lines != [] && !HeaderMatches(lines[0], section) {
      HeaderInTail(lines, section);
      QuietLine(buf, lines[0], section);
      StaysQuiet(buf, lines[0]);
      assert forall i | 0 <= i < FirstHeader(lines[1..], section) :: lines[1..][i] == lines[i + 1];
      QuietLines(Overlay(buf, lines[0]), lines[1..], section);
    }
  }

  // ---- An example ----

  /** A line that is no header is taken for one: FindSection steps over its end into a header that an earlier line,
      here a comment, has left in the buffer. */
  lemma LeftBehind(buf: string)
    requires |buf| >= 16
    ensures var comment, line := ";-----[S]", "hello";
            && !HeaderIn(Overlay(buf, comment), "S") && !HeaderMatches(line, "S")
            && HeaderIn(Overlay(Overlay(buf, comment), line), "S")
  {
    hide NameMatches, HeaderIn, HeaderMatches, Overlay;
    var was := Overlay(buf, ";-----[S]");
    CommentIsNone();
    DecidedLine(buf, ";-----[S]", "S");
    HeaderOrLeftover(buf, ";-----[S]", "S");
    assert forall j | 0 <= j < 9 :: was[j] == ";-----[S]"[j];
    StopsAt6(was);
    OwnNameBehind(was[7..], "S");
    NoStop("hello");
    HeaderOrLeftover(was, "hello", "S");
  }

  lemma CommentIsNone()
    ensures DecidesItself(";-----[S]", "S") && !HeaderMatches(";-----[S]", "S")
  {
    StopIs(";-----[S]", 0);
  }

  lemma StopsAt6(was: string)
    requires |was| >= 10 && was[6] == '['
    ensures StopFrom(was, 3) == 3
  {
  }

  lemma NoStop(line: string)
    requires forall j | 0 <= j < |line| :: !IsStop(line[j])
    ensures 2 * StopFrom(line, 0) >= |line| && !HeaderMatches(line, "S")
  {
  }
}
