/** IPC_getPrivateProfileString: which line answers a lookup, and what the two listings
    contain (linux/libsrc/sysipc.cpp). */
module IniReader {
  import opened CStrings
  import opened IniWriter
  import opened Scan
  import opened Wrappers

  // ---- The value of a line ----

  function SkipBlanks(s: string): (r: string)
    ensures r == "" || (r[0] != ' ' && r[0] != '\t')
  {
    if s != "" && (s[0] == ' ' || s[0] == '\t') then SkipBlanks(s[1..]) else s
  }

  lemma {:induction false} BlanksSkipped(blanks: string, rest: string)
    requires forall i | 0 <= i < |blanks| :: blanks[i] == ' ' || blanks[i] == '\t'
    requires rest == "" || (rest[0] != ' ' && rest[0] != '\t')
    ensures SkipBlanks(blanks + rest) == rest
  {
    if blanks == "" {
      assert blanks + rest == rest;
    } else {
      assert (blanks + rest)[1..] == blanks[1..] + rest;
      BlanksSkipped(blanks[1..], rest);
    }
  }

  /** A newline, return, tab, ';' or '#', or the first of two slashes. */
  predicate IsMarker(s: string, i: nat)
    requires i < |s|
  {
    s[i] in "\n\r\t;#" || (s[i] == '/' && i + 1 < |s| && s[i + 1] == '/')
  }

  function FirstMarker(s: string): (i: nat)
    ensures i <= |s|
    ensures forall j | 0 <= j < i :: !IsMarker(s, j)
    ensures i < |s| ==> IsMarker(s, i)
  {
    MarkerFrom(s, 0)
  }

  function MarkerFrom(s: string, from: nat): (i: nat)
    requires from <= |s|
    ensures from <= i <= |s|
    ensures forall j | from <= j < i :: !IsMarker(s, j)
    ensures i < |s| ==> IsMarker(s, i)
    decreases |s| - from
  {
    if from == |s| || IsMarker(s, from) then from else MarkerFrom(s, from + 1)
  }

  function Trim(s: string): string { s[..FirstMarker(s)] }

  /** Text with nothing for the reader to strip. */
  predicate IsClean(v: string) {
    (v == "" || (v[0] != ' ' && v[0] != '\t')) && forall i | 0 <= i < |v| :: !IsMarker(v, i)
  }

  /** What follows the first '=', without leading blanks, up to the first marker. */
  function ValueText(line: string): string
    requires '=' in line
  {
    Trim(SkipBlanks(line[IndexOf(line, '=') + 1..]))
  }

  function LineValue(line: string): string {
    if '=' in line then ValueText(line) else ""
  }

  /** The value of a line: what stands between the blanks behind the first '=' and the first of these characters, or two
      slashes, or the end of the line. */
  lemma ValueBetween(key: string, blanks: string, value: string, rest: string)
    requires '=' !in key && forall i | 0 <= i < |blanks| :: blanks[i] == ' ' || blanks[i] == '\t'
    requires value == "" || (value[0] != ' ' && value[0] != '\t')
    requires value == "" ==> rest == "" || rest[0] != '\t'
    requires forall i | 0 <= i < |value| :: value[i] !in "\n\r\t;#"
    requires var text := value + rest;
             forall i | 0 <= i < |value| && i + 1 < |text| :: text[i] != '/' || text[i + 1] != '/'
    requires rest == "" || rest[0] in "\n\r\t;#" || (|rest| > 1 && rest[0] == '/' && rest[1] == '/')
    ensures var line := key + "=" + blanks + value + rest; '=' in line && ValueText(line) == value
  {
    var line, text := key + "=" + blanks + value + rest, value + rest;
    assert line == key + ['='] + (blanks + text);
    FirstOfPrefix(key, '=', blanks + text);
    assert line[|key|] == '=' && line[|key| + 1..] == blanks + text;
    BlanksSkipped(blanks, text);
    forall i | 0 <= i < |value| ensures !IsMarker(text, i) { assert text[i] == value[i]; }
    assert rest != "" ==> text[|value|] == rest[0] && text[|value|..] == rest;
    assert rest != "" ==> IsMarker(text, |value|);
    assert FirstMarker(text) == |value|;
    assert text[..|value|] == value;
  }

  // ---- Which line answers ----

  /** FindSection looks at every second character only, up to a ';', a '[' or the end. */
  predicate IsStop(c: char) {
    c == ';' || c == '[' || c == NUL
  }

  /** The first stop among the columns 2 * i, 2 * i + 2, ..., halved. */
  function StopFrom(buf: string, i: nat): (r: nat)
    ensures i <= r && forall j | i <= j < r :: 2 * j < |buf| && !IsStop(buf[2 * j])
    ensures 2 * r < |buf| ==> IsStop(buf[2 * r])
    decreases if 2 * i < |buf| then |buf| - 2 * i else 0
  {
    if 2 * i >= |buf| || IsStop(buf[2 * i]) then i else StopFrom(buf, i + 1)
  }

  /** Case does not matter, and the name is searched for with strstr. */
  predicate NameMatches(rest: string, section: string) {
    var name := Lower(rest);
    Contains(name, Lower(section)) && |section| < |name| && name[|section|] == ']'
  }

  lemma Prefix(s: string, t: string)
    ensures Contains(Lower(s + t), Lower(s))
  {
    assert Lower(s + t)[0..0 + |Lower(s)|] == Lower(s);
    assert OccursAt(Lower(s + t), Lower(s), 0);
  }

  /** The line is a header that matches, as far as FindSection looks. */
  predicate HeaderMatches(line: string, section: string) {
    var i := StopFrom(line, 0);
    2 * i < |line| && line[2 * i] == '[' && NameMatches(line[2 * i + 1..], section)
  }

  /** FindOption: the key is searched for likewise, followed by a blank, a tab or '=' at the length of the key. */
  predicate OptionMatches(line: string, key: string) {
    && line != "" && line[0] != ';' && line[0] != '[' && |line| != |key|
    && var name := Lower(line);
       Contains(name, Lower(key)) && |key| < |name| && name[|key|] in " =\t"
  }

  /** The line answers the lookup into a buffer of the given size. */
  predicate Answers(line: string, key: string, size: int) {
    OptionMatches(line, key) && '=' in line && |ValueText(line)| + 1 <= size
  }

  function Matching(section: string): string -> bool { line => HeaderMatches(line, section) }

  function FirstHeader(lines: seq<string>, section: string): (h: nat)
    ensures h <= |lines|
  {
    First(lines, 0, Matching(section))
  }

  lemma FirstHeaderFound(lines: seq<string>, section: string)
    ensures var h := FirstHeader(lines, section);
            && (forall j | 0 <= j < h :: !HeaderMatches(lines[j], section))
            && (h < |lines| ==> HeaderMatches(lines[h], section))
  {
    Found(lines, 0, Matching(section));
    assert forall j | 0 <= j < |lines| :: Matching(section)(lines[j]) == HeaderMatches(lines[j], section);
  }

  lemma FirstHeaderIs(lines: seq<string>, section: string, h: nat)
    requires h <= |lines| && (h < |lines| ==> HeaderMatches(lines[h], section))
    requires forall j | 0 <= j < h :: !HeaderMatches(lines[j], section)
    ensures FirstHeader(lines, section) == h
  {
    FirstIs(lines, 0, Matching(section), h);
  }

  function Answering(key: string, size: int): string -> bool { line => Answers(line, key, size) }

  function FirstAnswer(lines: seq<string>, from: nat, key: string, size: int): (p: nat)
    requires from <= |lines|
    ensures from <= p <= |lines|
  {
    First(lines, from, Answering(key, size))
  }

  lemma FirstAnswerFound(lines: seq<string>, from: nat, key: string, size: int)
    requires from <= |lines|
    ensures var p := FirstAnswer(lines, from, key, size);
            && (forall j | from <= j < p :: !Answers(lines[j], key, size))
            && (p < |lines| ==> Answers(lines[p], key, size))
  {
    Found(lines, from, Answering(key, size));
    assert forall j | 0 <= j < |lines| :: Answering(key, size)(lines[j]) == Answers(lines[j], key, size);
  }

  lemma FirstAnswerIs(lines: seq<string>, from: nat, key: string, size: int, p: nat)
    requires from <= p <= |lines| && (p < |lines| ==> Answers(lines[p], key, size))
    requires forall j | from <= j < p :: !Answers(lines[j], key, size)
    ensures FirstAnswer(lines, from, key, size) == p
  {
    FirstIs(lines, from, Answering(key, size), p);
  }

  /** The line that answers behind line h, or |lines|. The search goes on past later headers. */
  function AnswerBehind(lines: seq<string>, h: nat, key: string, size: int): (p: nat)
    requires h <= |lines|
    ensures h <= p <= |lines|
    ensures p < |lines| ==> h < p && Answers(lines[p], key, size)
  {
    if h == |lines| then h
    else
      FirstAnswerFound(lines, h + 1, key, size);
      FirstAnswer(lines, h + 1, key, size)
  }

  function ValueAt(lines: seq<string>, p: nat): Option<string>
    requires p < |lines| ==> '=' in lines[p]
  {
    if p < |lines| then Some(ValueText(lines[p])) else None
  }

  // ---- Listings ----

  function SectionNames(lines: seq<string>): seq<string> {
    if lines == [] then []
    else (if IsSection(lines[0]) then [SectionName(lines[0])] else []) + SectionNames(lines[1..])
  }

  /** Each name with its NUL. */
  function Encode(names: seq<string>): string {
    if names == [] then "" else names[0] + [NUL] + Encode(names[1..])
  }

  /** The longest prefix of names whose encoding fits the budget. */
  function Fitting(names: seq<string>, budget: int): (r: seq<string>)
    ensures |r| <= |names| && r == names[..|r|]
    ensures budget >= 0 ==> |Encode(r)| <= budget
    ensures |r| < |names| ==> |Encode(r)| + |names[|r|]| + 1 > budget
  {
    if names == [] || |names[0]| + 1 > budget then []
    else [names[0]] + Fitting(names[1..], budget - |names[0]| - 1)
  }

  /** A caller walks a listing name by name, strlen + 1 at a time, until it meets an empty name. */
  function Walk(buf: string): seq<string> {
    var n := IndexOf(buf, NUL);
    if n == 0 || n == |buf| then [] else [buf[..n]] + Walk(buf[n + 1..])
  }

  /** The walk recovers the names, whatever the buffer holds behind the closing NUL. */
  lemma {:induction false} WalkEncoded(names: seq<string>, behind: string)
    requires forall n | n in names :: n != "" && NUL !in n
    ensures Walk(Encode(names) + [NUL] + behind) == names
  {
    var buf := Encode(names) + [NUL] + behind;
    if names == [] {
      assert buf[0] == NUL;
    } else {
      var rest := Encode(names[1..]) + [NUL] + behind;
      assert buf == names[0] + [NUL] + rest;
      FirstOfPrefix(names[0], NUL, rest);
      assert buf[..|names[0]|] == names[0] && buf[|names[0]| + 1..] == rest;
      assert forall n | n in names[1..] :: n in names;
      WalkEncoded(names[1..], behind);
    }
  }

  // ---- Trimming ----

  /** strstr: the first place t occurs in s, or |s| + 1. */
  function Find(s: string, t: string): (i: nat)
    ensures i <= |s| ==> OccursAt(s, t, i)
    ensures i <= |s| + 1 && forall j | 0 <= j < i && j <= |s| :: !OccursAt(s, t, j)
  {
    FindFrom(s, t, 0)
  }

  function FindFrom(s: string, t: string, from: nat): (i: nat)
    requires from <= |s| + 1
    ensures from <= i <= |s| + 1
    ensures i <= |s| ==> OccursAt(s, t, i)
    ensures forall j | from <= j < i && j <= |s| :: !OccursAt(s, t, j)
    decreases |s| + 1 - from
  {
    if from > |s| || OccursAt(s, t, from) then from else FindFrom(s, t, from + 1)
  }

  function CutAt(s: string, t: string): string {
    var i := Find(s, t);
    if i <= |s| then s[..i] else s
  }

  const SYMBOLS: seq<string> := ["\n", "\r", "\t", ";", "#", "//"]

  /** The first n cuts, each on what the previous ones left. */
  function Cuts(s: string, n: nat): string
    requires n <= |SYMBOLS|
  {
    if n == 0 then s else CutAt(Cuts(s, n - 1), SYMBOLS[n - 1])
  }

  /** A cut at one of the first n symbols is due at i. */
  predicate SymbolAt(s: string, i: nat, n: nat)
    requires n <= |SYMBOLS|
  {
    exists k | 0 <= k < n :: OccursAt(s, SYMBOLS[k], i)
  }

  /** Trimming: the six successive cuts are one cut at the earliest marker of the whole text ... */
  lemma SixCuts(s: string)
    ensures Cuts(s, |SYMBOLS|) == Trim(s)
  {
    CutsAreOne(s, |SYMBOLS|);
    var r := Cuts(s, |SYMBOLS|);
    forall i | 0 <= i < |s| ensures IsMarker(s, i) <==> SymbolAt(s, i, |SYMBOLS|) {
      MarkersAreSymbols(s, i);
    }
    assert |r| == FirstMarker(s);
  }

  /** ... and what is left contains no marker, so trimming again changes nothing. */
  lemma TrimmedIsClean(s: string)
    ensures forall i | 0 <= i < |Trim(s)| :: !IsMarker(Trim(s), i)
    ensures Trim(Trim(s)) == Trim(s)
  {
    var r := Trim(s);
    forall i | 0 <= i < |r| ensures !IsMarker(r, i) {
      assert !IsMarker(s, i);
      assert i + 1 < |r| ==> r[i + 1] == s[i + 1];
    }
    assert r[..|r|] == r;
  }

  lemma MarkersAreSymbols(s: string, i: nat)
    requires i < |s|
    ensures IsMarker(s, i) <==> SymbolAt(s, i, |SYMBOLS|)
  {
    assert forall k | 0 <= k < 5 :: OccursAt(s, SYMBOLS[k], i) <==> s[i] == SYMBOLS[k][0];
    assert OccursAt(s, SYMBOLS[5], i) <==> s[i] == '/' && i + 1 < |s| && s[i + 1] == '/';
    if IsMarker(s, i) {
      if s[i] == '\n' { assert OccursAt(s, SYMBOLS[0], i); }
      if s[i] == '\r' { assert OccursAt(s, SYMBOLS[1], i); }
      if s[i] == '\t' { assert OccursAt(s, SYMBOLS[2], i); }
      if s[i] == ';' { assert OccursAt(s, SYMBOLS[3], i); }
      if s[i] == '#' { assert OccursAt(s, SYMBOLS[4], i); }
      if s[i] == '/' { assert OccursAt(s, SYMBOLS[5], i); }
    }
  }

  /** After n cuts the text ends where the first of the n symbols began. A cut never hides an earlier "//": it would
      have to fall between the two slashes, where no other symbol begins. */
  lemma {:induction false} CutsAreOne(s: string, n: nat)
    requires n <= |SYMBOLS|
    ensures var r := Cuts(s, n);
            && r <= s
            && (forall j | 0 <= j < |r| :: !SymbolAt(s, j, n))
            && (|r| < |s| ==> SymbolAt(s, |r|, n))
  {
    if n > 0 {
      CutsAreOne(s, n - 1);
      var q, t := Cuts(s, n - 1), SYMBOLS[n - 1];
      var r := CutAt(q, t);
      forall j | 0 <= j < |r| ensures !SymbolAt(s, j, n) {
        StillThere(s, q, t, j, n);
        assert !OccursAt(q, t, j);
        assert !SymbolAt(s, j, n - 1);
      }
    }
  }

  lemma OneCharacter(s: string, k: nat, i: nat)
    requires k < |SYMBOLS| - 1
    ensures |SYMBOLS[k]| == 1 && SYMBOLS[k][0] != '/'
    ensures OccursAt(s, SYMBOLS[k], i) <==> i < |s| && s[i] == SYMBOLS[k][0]
  {
  }

  lemma StillThere(s: string, q: string, t: string, j: nat, n: nat)
    requires 1 <= n <= |SYMBOLS| && t == SYMBOLS[n - 1] && q <= s && j < |q|
    requires |q| < |s| ==> SymbolAt(s, |q|, n - 1)
    ensures OccursAt(s, t, j) <==> OccursAt(q, t, j)
  {
    if n < |SYMBOLS| {
      OneCharacter(s, n - 1, j);
      OneCharacter(q, n - 1, j);
    } else if j + 1 == |q| < |s| {
      var k :| 0 <= k < n - 1 && OccursAt(s, SYMBOLS[k], |q|);
      OneCharacter(s, k, |q|);
      assert s[j..j + 2][1] == s[|q|];
    } else if j + 2 <= |q| {
      assert s[j..j + 2] == q[j..j + 2];
    }
  }
}
