/** The code of IPC_getPrivateProfileString and of the two line tests it calls. All lines pass through one
    buffer of PATH_MAX characters, and the tests look at that buffer (linux/libsrc/sysipc.cpp). */
module ProfileReader {
  import opened CStrings
  import opened LineFiles
  import opened IniWriter
  import opened IniReader
  import opened LineBuffer
  import opened Scan

  const PATH_MAX := 4096

  /** sizes of the copies of line and name made by the two tests */
  const NAME_MAX := 1024

  /** The buffer holds the line as a C string. */
  ghost predicate HoldsLine(str: array<char>, line: string)
    reads str
  {
    |line| < NAME_MAX < str.Length && NUL !in line && str[..|line|] == line && str[|line|] == NUL
  }

  /** The buffer as FindSection needs it: behind the longest line there is a NUL in an even column, which no line
      overwrites. Without it the loop could run off the end of the buffer. */
  ghost predicate Ended(buf: seq<char>) {
    |buf| == PATH_MAX && exists e | NAME_MAX <= 2 * e < PATH_MAX :: buf[2 * e] == NUL
  }

  lemma StaysEnded(was: seq<char>, now: seq<char>)
    requires Ended(was) && |now| == |was| && forall j | NAME_MAX <= j < |was| :: now[j] == was[j]
    ensures Ended(now)
  {
    var e :| NAME_MAX <= 2 * e < PATH_MAX && was[2 * e] == NUL;
    assert now[2 * e] == NUL;
  }

  predicate Short(lines: seq<string>) {
    AllFit(lines, NAME_MAX)
  }

  lemma TextOfLine(str: array<char>, line: string)
    requires HoldsLine(str, line)
    ensures IndexOf(str[..], NUL) == |line| && TextOf(str[..]) == line
  {
    assert forall j | 0 <= j < |line| :: str[j] == line[j];
    FirstIsUnique(str[..], NUL, |line|);
    assert str[..][..|line|] == str[..|line|];
  }

  lemma TextOfTail(str: array<char>, line: string, k: nat)
    requires HoldsLine(str, line) && k <= |line|
    ensures IndexOf(str[k..], NUL) == |line| - k && TextOf(str[k..]) == line[k..]
  {
    assert forall j | 0 <= j < |line| :: str[j] == line[j];
    FirstIsUnique(str[k..], NUL, |line| - k);
    assert str[k..][..|line| - k] == line[k..];
  }

  /** An ifstream: the lines still to deliver; the indicator is raised with the last of them. */
  class InputStream {
    var left: seq<string>
    var eof: bool

    ghost predicate Valid()
      reads this
    {
      eof <==> left == []
    }

    constructor (text: string)
      ensures Valid() && left == Split(text)
    {
      left := Split(text);
      eof := false;
    }

    /** getline(str, PATH_MAX, '\n') on lines that fit. */
    method Getline(str: array<char>) returns (ghost line: string)
      requires Valid() && !eof && |left[0]| < NAME_MAX < str.Length && NUL !in left[0]
      modifies this, str
      ensures Valid() && line == old(left)[0] && left == old(left)[1..]
      ensures HoldsLine(str, line)
      ensures forall j | |line| < j < str.Length :: str[j] == old(str[j])
    {
      line := left[0];
      Strcpy(str, 0, left[0]);
      left := left[1..];
      eof := left == [];
    }
  }

  /** FindSection. The loop tests every second character, and goes on behind the end of the line when that is in an
      odd column. */
  method FindSection(src: array<char>, section: string) returns (r: int)
    requires Ended(src[..]) && |section| < NAME_MAX
    ensures r == 0 <==> HeaderIn(src[..], section)
  {
    hide IndexOf, TextOf, Lower, Contains;
    ghost var buf := src[..];
    ghost var e :| NAME_MAX <= 2 * e < PATH_MAX && buf[2 * e] == NUL;
    var keySize := |section|;
    var i := 0;
    while i < SizeDifference(IndexOf(src[..], NUL), keySize)
      invariant 0 <= i <= e && StopFrom(buf, 0) == StopFrom(buf, i)
      decreases e - i
    {
      var c := src[2 * i];
      if c == ';' { return -1; }
      if c == NUL { return -2; }
      if c == '[' {
        var name := Lower(TextOf(src[2 * i + 1..]));
        var sectionTmp := Lower(section);
        if Contains(name, sectionTmp) && |sectionTmp| < |name| && name[|sectionTmp|] == ']' {
          return 0;
        } else {
          return -3;
        }
      }
      i := i + 1;
    }
    return -4;
  }

  /** The six cuts, in place: each puts a NUL where its symbol begins. */
  method CutAll(src: array<char>, val: nat, ghost text: string)
    requires val <= src.Length && NUL in src[val..] && TextOf(src[val..]) == text
    modifies src
    ensures TextOf(src[val..]) == Trim(text) && NUL in src[val..]
    ensures forall j | 0 <= j < src.Length :: src[j] == old(src[j]) || src[j] == NUL
  {
    hide IndexOf, Trim, Find;
    var k := 0;
    while k < |SYMBOLS|
      invariant 0 <= k <= |SYMBOLS|
      invariant TextOf(src[val..]) == Cuts(text, k) && NUL in src[val..]
      invariant forall j | 0 <= j < src.Length :: src[j] == old(src[j]) || src[j] == NUL
    {
      var here := TextOf(src[val..]);
      var tmp := Find(here, SYMBOLS[k]);
      if tmp <= |here| {
        CutText(src[val..], tmp);
        ghost var was := src[val..];
        src[val + tmp] := NUL;
        assert src[val..] == was[tmp := NUL];
      }
      k := k + 1;
    }
    SixCuts(text);
  }

  lemma CutText(buf: seq<char>, i: nat)
    requires NUL in buf && i <= |TextOf(buf)|
    ensures i < |buf| && TextOf(buf[i := NUL]) == TextOf(buf)[..i]
  {
    var n := IndexOf(buf, NUL);
    FirstIsUnique(buf[i := NUL], NUL, i);
  }

  /** The final loop of FindOption: drops returns and newlines from the end. */
  function Stripped(s: string): string {
    if s != "" && s[|s| - 1] in "\r\n" then Stripped(s[..|s| - 1]) else s
  }

  lemma NothingToStrip(s: string)
    ensures Stripped(Trim(s)) == Trim(s)
  {
    TrimmedIsClean(s);
    var r := Trim(s);
    assert r != "" ==> !IsMarker(r, |r| - 1);
  }

  method StripEnd(buffer: array<char>, text: string)
    requires HoldsText(buffer, text)
    modifies buffer
    ensures HoldsText(buffer, Stripped(text))
  {
    var n: nat := |text|;
    assert text[..n] == text;
    while n > 0 && buffer[n - 1] in "\r\n"
      invariant n <= |text| && HoldsText(buffer, text[..n]) && Stripped(text[..n]) == Stripped(text)
    {
      assert text[..n][..n - 1] == text[..n - 1] && buffer[n - 1] == text[..n][n - 1];
      buffer[n - 1] := NUL;
      n := n - 1;
    }
    if n > 0 { assert buffer[n - 1] == text[..n][n - 1]; }
    assert Stripped(text) == text[..n];
  }

  ghost predicate HoldsText(buffer: array<char>, text: string)
    reads buffer
  {
    |text| < buffer.Length && buffer[..|text|] == text && buffer[|text|] == NUL
  }

  /** FindOption: 0, with the value in the buffer, exactly when the line answers. A line that matches but has no '='
      would be a null pointer there. For an empty value the original looks at the character before the buffer. */
  method FindOption(src: array<char>, option: string, buffer: array<char>, bufferSize: int, ghost line: string)
    returns (r: int, setDefault: bool)
    requires HoldsLine(src, line) && src != buffer && |option| < NAME_MAX
    requires OptionMatches(line, option) ==> '=' in line
    requires bufferSize <= buffer.Length
    modifies src, buffer
    ensures setDefault == (r != 0)
    ensures r == 0 <==> Answers(line, option, bufferSize)
    ensures r == 0 ==> HoldsText(buffer, ValueText(line))
    ensures r != 0 ==> buffer[..] == old(buffer[..])
  {
    setDefault := true;
    TextOfLine(src, line);
    assert line != "" ==> src[0] == line[0];
    var keySize := |option|;
    // Every path through the loop body returns, so the loop runs at most once, with i = 0.
    if 0 < SizeDifference(IndexOf(src[..], NUL), keySize) {
      var c := src[0];
      if c == ';' { return -1, true; }
      if c == NUL { return -2, true; }
      if c == '[' { return -3, true; }
      var name := Lower(TextOf(src[..]));
      var optionTmp := Lower(option);
      if Contains(name, optionTmp) && |optionTmp| < |name| && name[|optionTmp|] in " =\t" {
        var val := FindValue(src, line);
        var text := TextOf(src[val..]);
        if bufferSize < |text| + 1 { return -3, true; }
        Strcpy(buffer, 0, text);
        StripEnd(buffer, text);
        NothingToStrip(SkipBlanks(line[IndexOf(line, '=') + 1..]));
        return 0, false;
      } else {
        return -4, true;
      }
    }
    return -5, true;
  }

  /** The start of the value in the line, after its end has been cut off. */
  method FindValue(src: array<char>, ghost line: string) returns (val: nat)
    requires HoldsLine(src, line) && '=' in line
    modifies src
    ensures val <= src.Length && TextOf(src[val..]) == ValueText(line)
  {
    hide Trim, IndexOf;
    TextOfLine(src, line);
    val := IndexOf(TextOf(src[..]), '=');
    val := val + 1;
    ghost var rest := line[val..];
    while src[val] == ' ' || src[val] == '\t'
      invariant val <= |line| && HoldsLine(src, line)
      invariant SkipBlanks(line[val..]) == SkipBlanks(rest)
      decreases |line| - val
    {
      assert src[val] == src[..|line|][val];
      assert line[val..][1..] == line[val + 1..];
      val := val + 1;
    }
    if val < |line| { assert src[val] == src[..|line|][val]; }
    TextOfTail(src, line, val);
    assert src[val..][|line| - val] == NUL;
    CutAll(src, val, line[val..]);
  }

  // ---- The three modes; which one is taken does not change while the function runs ----

  /** The stream has delivered the first i lines. */
  ghost predicate At(stream: InputStream, lines: seq<string>, i: nat)
    reads stream
  {
    stream.Valid() && i <= |lines| && stream.left == lines[i..]
  }

  /** Lines behind the header that match the key have a '=', as FindOption needs them. */
  predicate Parsable(lines: seq<string>, h: nat, key: string) {
    forall i | h < i < |lines| && OptionMatches(lines[i], key) :: '=' in lines[i]
  }

  method NextLine(stream: InputStream, str: array<char>, ghost lines: seq<string>, ghost i: nat)
    returns (ghost line: string)
    requires At(stream, lines, i) && !stream.eof && Short(lines) && str.Length == PATH_MAX
    modifies stream, str
    ensures i < |lines| && line == lines[i] && At(stream, lines, i + 1) && HoldsLine(str, line)
    ensures str[..] == Overlay(old(str[..]), line)
    ensures old(Ended(str[..])) ==> Ended(str[..])
  {
    ghost var was := str[..];
    line := stream.Getline(str);
    assert lines[i..][0] == lines[i] && lines[i..][1..] == lines[i + 1..];
    Overlaid(was, str[..], line);
    if Ended(was) { StaysEnded(was, str[..]); }
  }

  lemma Overlaid(was: seq<char>, now: seq<char>, line: string)
    requires |was| == |now| && |line| < |now| && now[..|line|] == line && now[|line|] == NUL
    requires forall j | |line| < j < |now| :: now[j] == was[j]
    ensures now == Overlay(was, line)
  {
  }

  /** A value: the first line that answers behind the first header that matches; headers in between do not end the
      search. */
  method LookupValue(stream: InputStream, str: array<char>, section: string, key: string,
                     ret: array<char>, nSize: int, ghost lines: seq<string>)
    returns (found: int, setDefault: bool)
    requires At(stream, lines, 0) && Short(lines) && Ended(str[..]) && str != ret && nSize <= ret.Length
    requires |section| < NAME_MAX && |key| < NAME_MAX && Parsable(lines, Seek(str[..], lines, section), key)
    modifies stream, str, ret
    ensures setDefault == (found == 0)
    ensures match BufferLookup(old(str[..]), lines, section, key, nSize)
            case Some(value) => found == 1 && HoldsText(ret, value)
            case None => found == 0 && ret[..] == old(ret[..])
  {
    found, setDefault := 0, true;
    ghost var h := Seek(str[..], lines, section);
    var ready := SeekSection(stream, str, section, lines);
    if ready {
      found, setDefault := SeekOption(stream, str, key, ret, nSize, lines, h + 1);
    }
  }

  /** The outer loop, as far as the header. */
  method SeekSection(stream: InputStream, str: array<char>, section: string, ghost lines: seq<string>)
    returns (ready: bool)
    requires At(stream, lines, 0) && Short(lines) && Ended(str[..]) && |section| < NAME_MAX
    modifies stream, str
    ensures str.Length == PATH_MAX
    ensures ready == (Seek(old(str[..]), lines, section) < |lines|)
    ensures ready ==> At(stream, lines, Seek(old(str[..]), lines, section) + 1)
  {
    hide Seek, HeaderIn, Overlay;
    ghost var i: nat := 0;
    assert lines[0..] == lines;
    while !stream.eof
      invariant At(stream, lines, i) && Ended(str[..])
      invariant Seek(old(str[..]), lines, section) == i + Seek(str[..], lines[i..], section)
      decreases |lines| - i
    {
      SeekStep(str[..], lines, section, i);
      ghost var line := NextLine(stream, str, lines, i);
      var r := FindSection(str, section);
      if r == 0 { return true; }
      i := i + 1;
    }
    return false;
  }

  lemma SeekStep(buf: string, lines: seq<string>, section: string, i: nat)
    requires Short(lines) && |buf| == PATH_MAX && i < |lines|
    ensures var b := Overlay(buf, lines[i]);
            Seek(buf, lines[i..], section) == if HeaderIn(b, section) then 0 else 1 + Seek(b, lines[i + 1..], section)
  {
    assert lines[i..][0] == lines[i] && lines[i..][1..] == lines[i + 1..];
  }

  /** The inner loop. */
  method SeekOption(stream: InputStream, str: array<char>, key: string, ret: array<char>, nSize: int,
                    ghost lines: seq<string>, ghost from: nat)
    returns (found: int, setDefault: bool)
    requires At(stream, lines, from) && Short(lines) && str.Length == PATH_MAX && str != ret && nSize <= ret.Length
    requires |key| < NAME_MAX && forall i | from <= i < |lines| && OptionMatches(lines[i], key) :: '=' in lines[i]
    modifies stream, str, ret
    ensures setDefault == (found == 0)
    ensures found == if FirstAnswer(lines, from, key, nSize) < |lines| then 1 else 0
    ensures found == 1 ==> FirstAnswer(lines, from, key, nSize) < |lines|
                           && '=' in lines[FirstAnswer(lines, from, key, nSize)]
                           && HoldsText(ret, ValueText(lines[FirstAnswer(lines, from, key, nSize)]))
    ensures found == 0 ==> ret[..] == old(ret[..])
  {
    found, setDefault := 0, true;
    FirstAnswerFound(lines, from, key, nSize);
    ghost var i: nat := from;
    while !stream.eof
      invariant At(stream, lines, i) && from <= i <= FirstAnswer(lines, from, key, nSize)
      invariant found == 0 && setDefault && ret[..] == old(ret[..])
      decreases |lines| - i
    {
      ghost var line := NextLine(stream, str, lines, i);
      var r;
      r, setDefault := FindOption(str, key, ret, nSize, line);
      if r == 0 {
        found := 1;
        return;
      }
      i := i + 1;
    }
  }

  // ---- Listings ----

  /** The listing so far: what is in the buffer and what still fits of the names to come make up the whole. */
  ghost predicate Listed(ret: array<char>, at: nat, used: nat, budget: int, whole: string, rest: seq<string>)
    reads ret
  {
    && at <= used && at <= ret.Length && (used <= budget ==> used == at)
    && whole == ret[..at] + Encode(Fitting(rest, budget - used))
  }

  lemma NextFits(names: seq<string>, budget: int)
    requires names != [] && |names[0]| + 1 <= budget
    ensures Encode(Fitting(names, budget)) == names[0] + [NUL] + Encode(Fitting(names[1..], budget - |names[0]| - 1))
  {
    assert Fitting(names, budget)[1..] == Fitting(names[1..], budget - |names[0]| - 1);
  }

  lemma NothingFits(names: seq<string>, budget: int)
    requires budget < 0 || names == [] || |names[0]| + 1 > budget
    ensures Fitting(names, budget) == [] && Encode(Fitting(names, budget)) == ""
  {
  }

  /** The size test and the copy of one name with its NUL. */
  method Emit(str: array<char>, from: nat, n: nat, ret: array<char>, at: nat, used: nat, budget: int,
              ghost name: string, ghost whole: string, ghost rest: seq<string>)
    returns (next: nat, size: nat, full: bool)
    requires |name| == n && str != ret && from + |name| < str.Length
    requires str[from..from + |name|] == name && str[from + |name|] == NUL
    requires Listed(ret, at, used, budget, whole, rest) && rest != [] && rest[0] == name && budget <= ret.Length
    modifies ret
    ensures full == (used + |name| + 1 > budget) && size == used + |name| + 1
    ensures Listed(ret, next, size, budget, whole, rest[1..])
    ensures at <= next <= ret.Length && forall j | next <= j < ret.Length :: ret[j] == old(ret[j])
  {
    size := used + n + 1;
    full := size > budget;
    next := at;
    if full {
      NothingFits(rest, budget - used);
      NothingFits(rest[1..], budget - size);
    } else {
      NextFits(rest, budget - used);
      CopyBytes(str, from, n + 1, ret, at);
      assert str[from..from + n + 1] == name + [NUL];
      next := at + n + 1;
      Regroup(old(ret[..at]), name + [NUL], Encode(Fitting(rest[1..], budget - size)));
    }
  }

  /** memcpy(ret + at, str + from, n) */
  method CopyBytes(str: array<char>, from: nat, n: nat, ret: array<char>, at: nat)
    requires str != ret && from + n <= str.Length && at + n <= ret.Length
    modifies ret
    ensures ret[..at + n] == old(ret[..at]) + str[from..from + n]
    ensures forall j | at + n <= j < ret.Length :: ret[j] == old(ret[j])
  {
    var i := 0;
    while i < n
      invariant 0 <= i <= n && ret[..at + i] == old(ret[..at]) + str[from..from + i]
      invariant forall j | at + i <= j < ret.Length :: ret[j] == old(ret[j])
    {
      ret[at + i] := str[from + i];
      i := i + 1;
    }
  }

  lemma NextSectionName(lines: seq<string>, i: nat)
    requires i < |lines|
    ensures var rest, after := SectionNames(lines[i..]), SectionNames(lines[i + 1..]);
            if IsSection(lines[i]) then rest == [SectionName(lines[i])] + after else rest == after
  {
    assert lines[i..][0] == lines[i] && lines[i..][1..] == lines[i + 1..];
  }

  lemma ListingDone(ret: array<char>, at: nat, used: nat, budget: int, whole: string, rest: seq<string>)
    requires Listed(ret, at, used, budget, whole, rest) && (used > budget || rest == [])
    ensures ret[..at] == whole
  {
    NothingFits(rest, budget - used);
  }

  /** Once the budget is exceeded it does not matter which names are still to come. */
  lemma ListingFull(ret: array<char>, at: nat, used: nat, budget: int, whole: string, rest: seq<string>,
                    other: seq<string>)
    requires Listed(ret, at, used, budget, whole, rest) && used > budget
    ensures Listed(ret, at, used, budget, whole, other)
  {
    NothingFits(rest, budget - used);
    NothingFits(other, budget - used);
  }

  /** One line of the section listing: a header loses its ']' in the line buffer and is emitted without its '['. */
  method ListHeader(str: array<char>, ghost line: string, ret: array<char>, at: nat, used: nat, budget: int,
                    ghost whole: string, ghost rest: seq<string>, ghost after: seq<string>)
    returns (next: nat, size: nat, full: bool)
    requires HoldsLine(str, line) && str != ret && budget <= ret.Length
    requires Listed(ret, at, used, budget, whole, rest)
    requires if IsSection(line) then rest == [SectionName(line)] + after else rest == after
    modifies str, ret
    ensures full ==> size > budget
    ensures Listed(ret, next, size, budget, whole, after)
    ensures at <= next && forall j | next <= j < ret.Length :: ret[j] == old(ret[j])
  {
    next, size, full := at, used, false;
    TextOfLine(str, line);
    if IsSection(TextOf(str[..])) {
      var n := |TextOf(str[..])|;
      str[n - 1] := NUL;
      assert str[1..n - 1] == line[1..n - 1];
      next, size, full := Emit(str, 1, n - 2, ret, at, used, budget, SectionName(line), whole, rest);
      assert rest[1..] == after;
    } else {
      assert ret[..at] == old(ret[..at]);
    }
  }

  /** Where the section listing stands when i lines have been read. */
  ghost predicate SectionsListed(stream: InputStream, ret: array<char>, at: nat, used: nat, budget: int,
                                 lines: seq<string>, i: nat)
    reads stream, ret
  {
    && At(stream, lines, i)
    && Listed(ret, at, used, budget, Encode(Fitting(SectionNames(lines), budget)), SectionNames(lines[i..]))
  }

  /** One turn of the outer loop in this mode. */
  method ListNextHeader(stream: InputStream, str: array<char>, ret: array<char>, at: nat, used: nat, nSize: int,
                        ghost lines: seq<string>, ghost i: nat)
    returns (next: nat, size: nat, full: bool)
    requires SectionsListed(stream, ret, at, used, nSize - 1, lines, i) && !stream.eof
    requires Short(lines) && str.Length == PATH_MAX && str != ret && nSize <= ret.Length
    modifies stream, str, ret
    ensures full ==> size > nSize - 1
    ensures i < |lines| && SectionsListed(stream, ret, next, size, nSize - 1, lines, i + 1)
    ensures at <= next && forall j | next <= j < ret.Length :: ret[j] == old(ret[j])
  {
    ghost var line := NextLine(stream, str, lines, i);
    NextSectionName(lines, i);
    next, size, full := ListHeader(str, line, ret, at, used, nSize - 1, Encode(Fitting(SectionNames(lines), nSize - 1)),
      SectionNames(lines[i..]), SectionNames(lines[i + 1..]));
  }

  /** No application name: the names of all sections. */
  method ListSections(stream: InputStream, str: array<char>, ret: array<char>, nSize: int, ghost lines: seq<string>)
    returns (at: nat)
    requires At(stream, lines, 0) && Short(lines) && str.Length == PATH_MAX && str != ret && nSize <= ret.Length
    modifies stream, str, ret
    ensures at <= ret.Length && ret[..at] == Encode(Fitting(SectionNames(lines), nSize - 1))
    ensures forall j | at <= j < ret.Length :: ret[j] == old(ret[j])
  {
    ghost var i: nat := 0;
    var sectionsSize: nat := 0;
    at := 0;
    assert lines[0..] == lines;
    while !stream.eof
      invariant SectionsListed(stream, ret, at, sectionsSize, nSize - 1, lines, i)
      invariant forall j | at <= j < ret.Length :: ret[j] == old(ret[j])
      decreases |lines| - i
    {
      var full;
      at, sectionsSize, full := ListNextHeader(stream, str, ret, at, sectionsSize, nSize, lines, i);
      i := i + 1;
      if full { break; }
    }
    SectionsDone(stream, ret, at, sectionsSize, nSize - 1, lines, i);
  }

  lemma SectionsDone(stream: InputStream, ret: array<char>, at: nat, used: nat, budget: int, lines: seq<string>, i: nat)
    requires SectionsListed(stream, ret, at, used, budget, lines, i) && (stream.eof || used > budget)
    ensures ret[..at] == Encode(Fitting(SectionNames(lines), budget))
  {
    ListingDone(ret, at, used, budget, Encode(Fitting(SectionNames(lines), budget)), SectionNames(lines[i..]));
  }

  /** Where the key listing stands when i lines have been read, the last of them by the inner loop or not. */
  ghost predicate KeysListed(stream: InputStream, str: array<char>, ret: array<char>, at: nat, used: nat, budget: int,
                             whole: string, lines: seq<string>, section: string, i: nat, inside: bool)
    reads stream, str, ret
    requires Short(lines)
  {
    && At(stream, lines, i) && Ended(str[..])
    && Listed(ret, at, used, budget, whole, KeyNamesIn(str[..], lines[i..], section, inside))
  }

  lemma NextKeyName(buf: string, lines: seq<string>, section: string, i: nat)
    requires Short(lines) && |buf| == PATH_MAX && i < |lines|
    ensures var b, tail := Overlay(buf, lines[i]), lines[i + 1..];
            && KeyNamesIn(buf, lines[i..], section, false) == KeyNamesIn(b, tail, section, HeaderIn(b, section))
            && KeyNamesIn(buf, lines[i..], section, true)
               == (if IsSection(lines[i]) then KeyNamesIn(b, tail, section, false)
                   else (if IsOption(lines[i]) then [OptionName(lines[i])] else [])
                        + KeyNamesIn(Cut(b, lines[i]), tail, section, true))
  {
    assert lines[i..][0] == lines[i] && lines[i..][1..] == lines[i + 1..];
  }

  /** One option line: it is cut at its '=' in the line buffer, and what is left is emitted. */
  method ListOption(str: array<char>, ghost line: string, ret: array<char>, at: nat, used: nat, budget: int,
                    ghost whole: string, ghost rest: seq<string>, ghost after: seq<string>)
    returns (next: nat, size: nat, full: bool)
    requires HoldsLine(str, line) && Ended(str[..]) && str != ret && budget <= ret.Length
    requires Listed(ret, at, used, budget, whole, rest)
    requires rest == (if IsOption(line) then [OptionName(line)] else []) + after
    modifies str, ret
    ensures Ended(str[..]) && str[..] == Cut(old(str[..]), line) && (full ==> size > budget)
    ensures Listed(ret, next, size, budget, whole, after)
    ensures at <= next && forall j | next <= j < ret.Length :: ret[j] == old(ret[j])
  {
    next, size, full := at, used, false;
    TextOfLine(str, line);
    if IsOption(TextOf(str[..])) {
      var n := CutOption(str, line);
      assert ret[..at] == old(ret[..at]);
      assert rest[1..] == after;
      next, size, full := Emit(str, 0, n, ret, at, used, budget, OptionName(line), whole, rest);
    } else {
      assert rest == after;
    }
  }

  /** IsOptionName on a line with a '='. */
  method CutOption(str: array<char>, ghost line: string) returns (n: nat)
    requires HoldsLine(str, line) && Ended(str[..]) && IsOption(line)
    modifies str
    ensures n == |OptionName(line)| < str.Length && str[..n] == OptionName(line) && str[n] == NUL
    ensures Ended(str[..]) && str[..] == Cut(old(str[..]), line)
  {
    TextOfLine(str, line);
    ghost var was := str[..];
    n := IndexOf(TextOf(str[..]), '=');
    str[n] := NUL;
    assert str[..n] == line[..n];
    assert str[..] == was[n := NUL];
    StaysEnded(was, str[..]);
  }

  /** The two tests of the inner loop: it stops at a header, or when the buffer is full. */
  method ListLine(str: array<char>, ghost line: string, ret: array<char>, at: nat, used: nat, budget: int,
                  ghost whole: string, ghost rest: seq<string>, ghost after: seq<string>)
    returns (next: nat, size: nat, stop: bool)
    requires HoldsLine(str, line) && Ended(str[..]) && str != ret && budget <= ret.Length
    requires Listed(ret, at, used, budget, whole, rest)
    requires !IsSection(line) ==> rest == (if IsOption(line) then [OptionName(line)] else []) + after
    modifies str, ret
    ensures Ended(str[..]) && str[..] == (if IsSection(line) then old(str[..]) else Cut(old(str[..]), line))
    ensures stop ==> IsSection(line) || size > budget
    ensures IsSection(line) ==> stop
    ensures Listed(ret, next, size, budget, whole, if IsSection(line) then rest else after)
    ensures at <= next && forall j | next <= j < ret.Length :: ret[j] == old(ret[j])
  {
    TextOfLine(str, line);
    if IsSection(TextOf(str[..])) { return at, used, true; }
    next, size, stop := ListOption(str, line, ret, at, used, budget, whole, rest, after);
  }

  /** What is still to be listed, once a line of the section is in the buffer. */
  ghost function Coming(buf: string, line: string, tail: seq<string>, section: string): seq<string>
    requires |line| < |buf| && AllFit(tail, |buf|)
  {
    if IsSection(line) then KeyNamesIn(buf, tail, section, false)
    else (if IsOption(line) then [OptionName(line)] else []) + KeyNamesIn(Cut(buf, line), tail, section, true)
  }

  /** The read at the beginning of a turn of the inner loop. */
  method ReadOption(stream: InputStream, str: array<char>, section: string, ret: array<char>, at: nat, used: nat,
                    budget: int, ghost whole: string, ghost lines: seq<string>, ghost i: nat)
    returns (ghost line: string)
    requires Short(lines) && !stream.eof
    requires KeysListed(stream, str, ret, at, used, budget, whole, lines, section, i, true)
    requires str != ret
    modifies stream, str
    ensures i < |lines| && line == lines[i] && At(stream, lines, i + 1) && HoldsLine(str, line) && Ended(str[..])
    ensures Listed(ret, at, used, budget, whole, Coming(str[..], line, lines[i + 1..], section))
  {
    hide KeyNamesIn, Overlay, IsSection, IsOption, OptionName, Encode, Fitting, HoldsLine;
    NextKeyName(str[..], lines, section, i);
    line := NextLine(stream, str, lines, i);
  }

  /** One turn of the inner loop in this mode. */
  method ListNextOption(stream: InputStream, str: array<char>, section: string, ret: array<char>, at: nat, used: nat,
                        nSize: int, ghost whole: string, ghost lines: seq<string>, ghost i: nat)
    returns (next: nat, size: nat, stop: bool)
    requires Short(lines) && !stream.eof
    requires KeysListed(stream, str, ret, at, used, nSize - 1, whole, lines, section, i, true)
    requires str != ret && nSize <= ret.Length
    modifies stream, str, ret
    ensures i < |lines| && KeysListed(stream, str, ret, next, size, nSize - 1, whole, lines, section, i + 1, !stop)
    ensures at <= next && forall j | next <= j < ret.Length :: ret[j] == old(ret[j])
  {
    hide KeyNamesIn, IsSection, IsOption, OptionName, Listed, HoldsLine;
    ghost var line := ReadOption(stream, str, section, ret, at, used, nSize - 1, whole, lines, i);
    ghost var b, tail := str[..], lines[i + 1..];
    ghost var after := KeyNamesIn(Cut(b, line), tail, section, true);
    next, size, stop := ListLine(str, line, ret, at, used, nSize - 1, whole, Coming(b, line, tail, section), after);
    if stop && !IsSection(line) {
      ListingFull(ret, next, size, nSize - 1, whole, after, KeyNamesIn(str[..], tail, section, false));
    }
  }

  /** The inner loop in this mode. */
  method ListOptions(stream: InputStream, str: array<char>, section: string, ret: array<char>, start: nat, used: nat,
                     nSize: int, ghost whole: string, ghost lines: seq<string>, ghost from: nat)
    returns (at: nat, sectionsSize: nat, ghost i: nat)
    requires Short(lines) && KeysListed(stream, str, ret, start, used, nSize - 1, whole, lines, section, from, true)
    requires str != ret && nSize <= ret.Length
    modifies stream, str, ret
    ensures from <= i && KeysListed(stream, str, ret, at, sectionsSize, nSize - 1, whole, lines, section, i, false)
    ensures start <= at && forall j | at <= j < ret.Length :: ret[j] == old(ret[j])
  {
    hide KeyNamesIn, Encode, Fitting, Listed;
    at, sectionsSize, i := start, used, from;
    while !stream.eof
      invariant from <= i && KeysListed(stream, str, ret, at, sectionsSize, nSize - 1, whole, lines, section, i, true)
      invariant start <= at && forall j | at <= j < ret.Length :: ret[j] == old(ret[j])
      decreases |lines| - i
    {
      var stop;
      at, sectionsSize, stop := ListNextOption(stream, str, section, ret, at, sectionsSize, nSize, whole, lines, i);
      i := i + 1;
      if stop { return; }
    }
    NoKeysLeft(str[..], lines, section, i);
  }

  lemma NoKeysLeft(buf: string, lines: seq<string>, section: string, i: nat)
    requires Short(lines) && |buf| == PATH_MAX && i <= |lines| && lines[i..] == []
    ensures KeyNamesIn(buf, lines[i..], section, true) == KeyNamesIn(buf, lines[i..], section, false) == []
  {
  }

  /** One turn of the outer loop in this mode. */
  method ListNextSection(stream: InputStream, str: array<char>, section: string, ret: array<char>, start: nat,
                         used: nat, nSize: int, ghost whole: string, ghost lines: seq<string>, ghost from: nat)
    returns (at: nat, sectionsSize: nat, ghost i: nat)
    requires Short(lines) && !stream.eof
    requires KeysListed(stream, str, ret, start, used, nSize - 1, whole, lines, section, from, false)
    requires str != ret && nSize <= ret.Length && |section| < NAME_MAX
    modifies stream, str, ret
    ensures from < i && KeysListed(stream, str, ret, at, sectionsSize, nSize - 1, whole, lines, section, i, false)
    ensures start <= at && forall j | at <= j < ret.Length :: ret[j] == old(ret[j])
  {
    hide KeyNamesIn, Encode, Fitting, HeaderIn, Overlay;
    NextKeyName(str[..], lines, section, from);
    ghost var line := NextLine(stream, str, lines, from);
    at, sectionsSize, i := start, used, from + 1;
    var r := FindSection(str, section);
    if r == 0 {
      at, sectionsSize, i := ListOptions(stream, str, section, ret, at, sectionsSize, nSize, whole, lines, i);
    }
  }

  /** An application name and no key: the names of the options of every section that matches. */
  method ListKeys(stream: InputStream, str: array<char>, section: string, ret: array<char>, nSize: int,
                  ghost lines: seq<string>)
    returns (at: nat)
    requires At(stream, lines, 0) && Short(lines) && Ended(str[..])
    requires str != ret && nSize <= ret.Length && |section| < NAME_MAX
    modifies stream, str, ret
    ensures at <= ret.Length && ret[..at] == Encode(Fitting(KeyNamesIn(old(str[..]), lines, section, false), nSize - 1))
    ensures forall j | at <= j < ret.Length :: ret[j] == old(ret[j])
  {
    hide KeyNamesIn, Encode, Fitting;
    ghost var i: nat := 0;
    ghost var whole := Encode(Fitting(KeyNamesIn(str[..], lines, section, false), nSize - 1));
    var sectionsSize: nat := 0;
    at := 0;
    assert lines[0..] == lines;
    while !stream.eof
      invariant KeysListed(stream, str, ret, at, sectionsSize, nSize - 1, whole, lines, section, i, false)
      invariant forall j | at <= j < ret.Length :: ret[j] == old(ret[j])
      decreases |lines| - i
    {
      at, sectionsSize, i := ListNextSection(stream, str, section, ret, at, sectionsSize, nSize, whole, lines, i);
    }
    NoKeysLeft(str[..], lines, section, i);
    ListingDone(ret, at, sectionsSize, nSize - 1, whole, KeyNamesIn(str[..], lines[i..], section, false));
  }
}
