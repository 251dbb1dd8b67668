/** The code of IPC_writePrivateProfileString: three loops over the file and a buffer of the
    size of the file plus 1024 characters (linux/libsrc/sysipc.cpp). */
module ProfileWriter {
  import opened CStrings
  import opened LineFiles
  import opened IniWriter

  /** sizes of the local buffers sLine, sParamName and sNextSection */
  const LOCAL_MAX := 1024

  /** What the fixed-size buffers of the function demand. The last clause is about sLine, which takes the new
      line and, when that goes before a header, the header as well. */
  predicate Fits(text: string, section: string, key: string, value: string) {
    && text != "" && NUL !in text
    && |section| + |key| + |value| + 6 <= 1024
    && |KeyLine(key, value) + NextSection(Chunks(text), section, key)| < LOCAL_MAX
  }

  /** The header the key loop ran into, if it did. */
  function NextSection(cs: seq<string>, section: string, key: string): string {
    if Appends(cs, section) || Replaces(cs, section, key) || SlotOf(cs, section, key) == |cs| then ""
    else cs[SlotOf(cs, section, key)]
  }

  class ProfileFile {
    var present: bool
    var writable: bool
    var text: string
  }

  /** pCur is the end of the text written so far, and the buffer ends its text there. */
  ghost predicate Holds(pBuf: array<char>, pCur: nat, written: string)
    reads pBuf
  {
    pCur == |written| < pBuf.Length && pBuf[..pCur] == written && pBuf[pCur] == NUL
  }

  /** Likewise, before anything was stored: there is no NUL in the buffer yet. */
  ghost predicate Begins(pBuf: array<char>, pCur: nat, written: string)
    reads pBuf
  {
    pCur == |written| < pBuf.Length && pBuf[..pCur] == written
  }

  /** The first i chunks have been read. */
  ghost predicate ReadUpTo(stream: InputFile, cs: seq<string>, i: nat)
    reads stream
  {
    stream.Valid() && i <= |cs| && stream.left == cs[i..]
  }

  method Put(pBuf: array<char>, pCur: nat, s: string, ghost written: string) returns (next: nat)
    requires Begins(pBuf, pCur, written) && pCur + |s| < pBuf.Length
    modifies pBuf
    ensures Holds(pBuf, next, written + s)
  {
    Strcpy(pBuf, pCur, s);
    next := pCur + |s|;
  }

  method Append(pBuf: array<char>, pCur: nat, s: string, ghost written: string) returns (next: nat)
    requires Holds(pBuf, pCur, written) && pCur + |s| < pBuf.Length
    modifies pBuf
    ensures Holds(pBuf, next, written + s)
  {
    FirstIsUnique(pBuf[pCur..], NUL, 0);
    Strcat(pBuf, pCur, s);
    next := pCur + |s|;
  }

  method NextLine(stream: InputFile, ghost cs: seq<string>, ghost i: nat) returns (line: string)
    requires ReadUpTo(stream, cs, i) && !stream.eof
    modifies stream
    ensures line == "" ==> i == |cs| && stream.eof && ReadUpTo(stream, cs, i)
    ensures line != "" ==> i < |cs| && line == cs[i] && ReadUpTo(stream, cs, i + 1)
  {
    line := stream.Gets();
  }

  lemma Grows(cs: seq<string>, i: nat)
    requires i < |cs|
    ensures Concat(cs[..i + 1]) == Concat(cs[..i]) + cs[i]
    ensures |Concat(cs[..i + 1])| <= |Concat(cs)|
  {
    ConcatTake(cs, i);
    ConcatSplit(cs, i + 1);
  }

  /** Copies the line just read, which is line m of w; the empty read at the end of the file copies nothing. */
  method CopyLine(pBuf: array<char>, pCur: nat, nSize: nat, sLine: string, ghost w: seq<string>, ghost m: nat)
    returns (next: nat, size: nat)
    requires m <= |w| && (sLine != "" ==> m < |w| && w[m] == sLine)
    requires Begins(pBuf, pCur, Concat(w[..m])) && nSize == pCur && pBuf.Length > |Concat(w)|
    modifies pBuf
    ensures size == next && Holds(pBuf, next, Concat(w[..if sLine == "" then m else m + 1]))
  {
    if sLine != "" { Grows(w, m); }
    next := Put(pBuf, pCur, sLine, Concat(w[..m]));
    size := nSize + |sLine|;
  }

  /** One turn of the first and of the third loop: reads and copies line i of the input, which is line i + d of w. */
  method ReadAndCopy(stream: InputFile, pBuf: array<char>, pCur: nat, nSize: nat,
                     ghost cs: seq<string>, ghost i: nat, ghost w: seq<string>, ghost d: nat)
    returns (sLine: string, next: nat, size: nat)
    requires ReadUpTo(stream, cs, i) && !stream.eof && i + d <= |w|
    requires i < |cs| ==> i + d < |w| && w[i + d] == cs[i]
    requires Begins(pBuf, pCur, Concat(w[..i + d])) && nSize == pCur && pBuf.Length > |Concat(w)|
    modifies stream, pBuf
    ensures sLine == "" ==> i == |cs| && stream.eof
    ensures sLine != "" ==> i < |cs| && sLine == cs[i]
    ensures ReadUpTo(stream, cs, After(i, sLine))
    ensures Holds(pBuf, next, Concat(w[..After(i, sLine) + d])) && size == next
  {
    sLine := NextLine(stream, cs, i);
    next, size := CopyLine(pBuf, pCur, nSize, sLine, w, i + d);
  }

  /** Number of lines read after this read; the empty read at the end of the file is no line. */
  function After(i: nat, sLine: string): nat { if sLine == "" then i else i + 1 }

  /** First loop: copies lines until it has copied the header of the section. */
  method SectionLoop(stream: InputFile, pBuf: array<char>, section: string, ghost cs: seq<string>)
    returns (pCur: nat, nSize: nat, isFindSection: bool, ghost i: nat)
    requires ReadUpTo(stream, cs, 0) && !stream.eof && cs != [] && pBuf.Length > |Concat(cs)|
    modifies stream, pBuf
    ensures ReadUpTo(stream, cs, i) && Holds(pBuf, pCur, Concat(cs[..i])) && nSize == pCur
    ensures isFindSection ==> FindHeader(cs, section) + 1 == i
    ensures !isFindSection ==> Appends(cs, section) && i == |cs|
  {
    hide FindHeader, NamesSection;
    pCur, nSize, isFindSection, i := 0, 0, false, 0;
    while !stream.eof
      invariant ReadUpTo(stream, cs, i) && nSize == pCur && Begins(pBuf, pCur, Concat(cs[..i]))
      invariant if i == 0 then !stream.eof else pBuf[pCur] == NUL
      invariant forall j | 0 <= j < i :: !NamesSection(cs[j], section)
      decreases |cs| - i, !stream.eof
    {
      var sLine;
      sLine, pCur, nSize := ReadAndCopy(stream, pBuf, pCur, nSize, cs, i, cs, 0);
      i := After(i, sLine);
      if sLine == "" { continue; }
      var isWanted := TestHeader(sLine, section);
      if isWanted {
        isFindSection := true;
        HeaderIs(cs, section, i - 1);
        return;
      }
    }
    HeaderIs(cs, section, i);
  }

  /** The test of the section loop, which cuts the line three times. */
  method TestHeader(line: string, section: string) returns (isWanted: bool)
    requires line != ""
    ensures isWanted == NamesSection(line, section)
  {
    var sLine := line[..|line| - 1];
    if !IsSection(sLine) { return false; }
    sLine := sLine[..|sLine| - 1];
    sLine := sLine[1..];
    isWanted := sLine == section;
  }

  /** Second loop: copies lines up to the slot of the key line. It has read the line at the slot, if there is
      one, and keeps it when it is a header. */
  method KeyLoop(stream: InputFile, pBuf: array<char>, key: string, start: nat, size: nat,
                 ghost cs: seq<string>, ghost from: nat)
    returns (pCur: nat, nSize: nat, sNextSection: string, ghost i: nat)
    requires ReadUpTo(stream, cs, from) && size == start && Holds(pBuf, start, Concat(cs[..from]))
    requires pBuf.Length > |Concat(cs)|
    modifies stream, pBuf
    ensures var p := FindSlot(cs, from, key);
            && Holds(pBuf, pCur, Concat(cs[..p])) && nSize == pCur
            && i == (if p < |cs| then p + 1 else p) && ReadUpTo(stream, cs, i)
            && sNextSection == (if p < |cs| && !NamesKey(cs[p], key) then cs[p] else "")
  {
    hide Concat, FindSlot;
    pCur, nSize, sNextSection, i := start, size, "", from;
    while !stream.eof
      invariant ReadUpTo(stream, cs, i) && from <= i && nSize == pCur && sNextSection == ""
      invariant Holds(pBuf, pCur, Concat(cs[..i]))
      invariant forall j | from <= j < i :: !StopsKeyLoop(cs[j], key)
      decreases |cs| - i, !stream.eof
    {
      var sLine := NextLine(stream, cs, i);
      var stop;
      stop, sNextSection := TestLine(sLine, key);
      if stop {
        SlotIs(cs, from, key, i);
        i := i + 1;
        return;
      }
      pCur, nSize := CopyLine(pBuf, pCur, nSize, sLine, cs, i);
      i := if sLine == "" then i else i + 1;
    }
    SlotIs(cs, from, key, i);
  }

  /** The two tests of the key loop: stop at the key, or at a header, which is kept. */
  method TestLine(sLine: string, key: string) returns (stop: bool, sNextSection: string)
    ensures stop == StopsKeyLoop(sLine, key)
    ensures sNextSection == if stop && !NamesKey(sLine, key) then sLine else ""
  {
    if IsOption(sLine) {
      var sParamName := OptionName(sLine);
      if sParamName == key { return true, ""; }
    }
    if IsSection(Body(sLine)) { return true, sLine; }
    return false, "";
  }

  /** Third loop: copies the rest of the file. The input lines left are the output lines left. */
  method CopyLoop(stream: InputFile, pBuf: array<char>, start: nat, size: nat,
                  ghost cs: seq<string>, ghost from: nat, ghost w: seq<string>, ghost d: nat)
    returns (pCur: nat, nSize: nat)
    requires ReadUpTo(stream, cs, from)
    requires |w| == |cs| + d && (forall j | from <= j < |cs| :: w[j + d] == cs[j])
    requires size == start && Holds(pBuf, start, Concat(w[..from + d])) && pBuf.Length > |Concat(w)|
    modifies stream, pBuf
    ensures Holds(pBuf, pCur, Concat(w)) && nSize == pCur
  {
    pCur, nSize := start, size;
    ghost var i: nat := from;
    while !stream.eof
      invariant ReadUpTo(stream, cs, i) && from <= i && nSize == pCur
      invariant Holds(pBuf, pCur, Concat(w[..i + d]))
      decreases |cs| - i, !stream.eof
    {
      var sLine;
      sLine, pCur, nSize := ReadAndCopy(stream, pBuf, pCur, nSize, cs, i, w, d);
      i := After(i, sLine);
    }
    assert w[..i + d] == w;
  }

  /** Number of input lines the code has consumed when it adds the key line. */
  function Consumed(cs: seq<string>, section: string, key: string): (i: nat)
    ensures i <= |cs|
  {
    if Appends(cs, section) then |cs|
    else var p := SlotOf(cs, section, key); if p < |cs| then p + 1 else p
  }

  /** What the first two loops have copied by then. */
  function Head(cs: seq<string>, section: string, key: string): string {
    Concat(if Appends(cs, section) then cs else cs[..SlotOf(cs, section, key)])
  }

  /** What is added to it. */
  function Added(cs: seq<string>, section: string, key: string, value: string): string {
    (if Appends(cs, section) then HeaderLine(section) else "") + (KeyLine(key, value) + NextSection(cs, section, key))
  }

  /** Number of lines the file gains. */
  function Growth(cs: seq<string>, section: string, key: string): nat {
    if Appends(cs, section) then 2 else if Replaces(cs, section, key) then 0 else 1
  }

  /** After the key line is added, the output is a prefix of the rewritten lines, and the lines missing of them are
      the lines left to read. */
  lemma Assembled(cs: seq<string>, section: string, key: string, value: string)
    ensures var w, i, d := Write(cs, section, key, value), Consumed(cs, section, key), Growth(cs, section, key);
            && |w| == |cs| + d
            && (forall j | i <= j < |cs| :: w[j + d] == cs[j])
            && Concat(w[..i + d]) == Head(cs, section, key) + Added(cs, section, key, value)
  {
    hide FindHeader, FindSlot, NamesKey, Concat, KeyLine, HeaderLine;
    var w, k, h := Write(cs, section, key, value), KeyLine(key, value), HeaderLine(section);
    if Appends(cs, section) {
      ConcatPush(cs, h);
      ConcatPush(cs + [h], k);
      assert w[..|w|] == cs + [h] + [k];
      assert Concat(cs) + h + k == Concat(cs) + (h + k);
    } else {
      AssembledInPlace(cs, section, key, value);
    }
  }

  lemma AssembledInPlace(cs: seq<string>, section: string, key: string, value: string)
    requires !Appends(cs, section)
    ensures var w, i, d := Write(cs, section, key, value), Consumed(cs, section, key), Growth(cs, section, key);
            Concat(w[..i + d]) == Head(cs, section, key) + Added(cs, section, key, value)
  {
    hide FindHeader, FindSlot, NamesKey, Concat, KeyLine;
    var w, k, p := Write(cs, section, key, value), KeyLine(key, value), SlotOf(cs, section, key);
    var kept := NextSection(cs, section, key);
    assert Added(cs, section, key, value) == k + kept;
    if Replaces(cs, section, key) || p == |cs| {
      assert w[..p + 1] == cs[..p] + [k];
      assert k + kept == k;
      ConcatPush(cs[..p], k);
    } else {
      assert w[..p + 2] == cs[..p] + [k, kept];
      ConcatPushTwo(cs[..p], k, kept);
    }
  }

  lemma ConcatPushTwo(a: seq<string>, k: string, kept: string)
    ensures Concat(a + [k, kept]) == Concat(a) + (k + kept)
  {
    ConcatAppend(a, [k, kept]);
    assert [k, kept][1..] == [kept] && [kept][1..] == [];
    assert Concat([kept]) == kept + Concat([]);
  }

  /** Length conservation: how much longer the file gets. */
  lemma OutputLength(cs: seq<string>, section: string, key: string, value: string)
    ensures |Concat(Write(cs, section, key, value))|
            == |Concat(cs)| + |KeyLine(key, value)|
               + (if Appends(cs, section) then |HeaderLine(section)| else 0)
               - (if Replaces(cs, section, key) then |cs[SlotOf(cs, section, key)]| else 0)
  {
    var w, i, d := Write(cs, section, key, value), Consumed(cs, section, key), Growth(cs, section, key);
    Assembled(cs, section, key, value);
    ConcatSplit(cs, i);
    ConcatSplit(w, i + d);
    assert w[i + d..] == cs[i..];
    HeadLength(cs, section, key);
  }

  lemma HeadLength(cs: seq<string>, section: string, key: string)
    ensures |Concat(cs[..Consumed(cs, section, key)])|
            == |Head(cs, section, key)| + |NextSection(cs, section, key)|
               + (if Replaces(cs, section, key) then |cs[SlotOf(cs, section, key)]| else 0)
  {
    if Appends(cs, section) || SlotOf(cs, section, key) == |cs| {
      assert cs[..|cs|] == cs;
    } else {
      ConcatTake(cs, SlotOf(cs, section, key));
    }
  }

  /** What the first two loops leave behind: the state the key line is added in. */
  ghost predicate HeadCopied(stream: InputFile, pBuf: array<char>, pCur: nat, nSize: nat, sNextSection: string,
                             cs: seq<string>, section: string, key: string)
    reads stream, pBuf
  {
    && ReadUpTo(stream, cs, Consumed(cs, section, key))
    && Holds(pBuf, pCur, Head(cs, section, key)) && nSize == pCur
    && sNextSection == NextSection(cs, section, key)
  }

  lemma SlotReached(cs: seq<string>, section: string, key: string, i: nat)
    requires !Appends(cs, section)
    requires var p := FindSlot(cs, FindHeader(cs, section) + 1, key); i == (if p < |cs| then p + 1 else p)
    ensures var p := FindSlot(cs, FindHeader(cs, section) + 1, key);
            && i == Consumed(cs, section, key)
            && Concat(cs[..p]) == Head(cs, section, key)
            && NextSection(cs, section, key) == (if p < |cs| && !NamesKey(cs[p], key) then cs[p] else "")
  {
  }

  /** The first two loops. */
  method CopyHead(stream: InputFile, pBuf: array<char>, section: string, key: string, ghost cs: seq<string>)
    returns (pCur: nat, nSize: nat, isFindSection: bool, sNextSection: string)
    requires ReadUpTo(stream, cs, 0) && !stream.eof && cs != [] && pBuf.Length > |Concat(cs)|
    modifies stream, pBuf
    ensures isFindSection == !Appends(cs, section)
    ensures HeadCopied(stream, pBuf, pCur, nSize, sNextSection, cs, section, key)
  {
    ghost var i;
    pCur, nSize, isFindSection, i := SectionLoop(stream, pBuf, section, cs);
    if isFindSection {
      pCur, nSize, sNextSection, i := KeyLoop(stream, pBuf, key, pCur, nSize, cs, i);
      SlotReached(cs, section, key, i);
    } else {
      sNextSection := "";
      assert cs[..i] == cs;
    }
  }

  /** The lines added between the second and the third loop. */
  method AddLines(pBuf: array<char>, isFindSection: bool, section: string, key: string, value: string,
                  sNextSection: string, start: nat, size: nat, ghost written: string)
    returns (pCur: nat, nSize: nat)
    requires size == start && Holds(pBuf, start, written)
    requires |section| + 4 <= LOCAL_MAX && |KeyLine(key, value) + sNextSection| < LOCAL_MAX
    requires start + (if isFindSection then 0 else |HeaderLine(section)|) + |KeyLine(key, value) + sNextSection|
             < pBuf.Length
    modifies pBuf
    ensures nSize == pCur
    ensures Holds(pBuf, pCur, written + ((if isFindSection then "" else HeaderLine(section))
                                         + (KeyLine(key, value) + sNextSection)))
  {
    pCur, nSize := start, size;
    ghost var header := "";
    if !isFindSection {
      var sLine := "[" + section + "]\n";
      assert |sLine| < LOCAL_MAX;
      pCur := Append(pBuf, pCur, sLine, written);
      nSize := nSize + |sLine|;
      header := sLine;
    }
    assert isFindSection ==> written + header == written;
    var sLine := key + "=" + value + "\n" + sNextSection;
    assert |sLine| < LOCAL_MAX;
    pCur := Append(pBuf, pCur, sLine, written + header);
    nSize := nSize + |sLine|;
    assert written + header + sLine == written + (header + sLine);
  }

  /** -1, with the file unchanged, when it cannot be opened for reading or for writing; otherwise 0, and the file
      is rewritten as WriteText says. nSize is the length of the text whatever path was taken, and every store,
      the closing NULs included, is inside the buffer. */
  method WritePrivateProfileString(file: ProfileFile, section: string, key: string, value: string) returns (r: int)
    requires file.present ==> Fits(file.text, section, key, value)
    modifies file`text
    ensures r == if file.present && file.writable then 0 else -1
    ensures file.text == if r == 0 then WriteText(old(file.text), section, key, value) else old(file.text)
  {
    if !file.present { return -1; }
    var pBuf, nSize := Rewrite(file.text, section, key, value);
    if !file.writable { return -1; }
    file.text := pBuf[..nSize];
    return 0;
  }

  method Rewrite(text: string, section: string, key: string, value: string) returns (pBuf: array<char>, nSize: nat)
    requires Fits(text, section, key, value)
    ensures nSize <= pBuf.Length == |text| + 1024
    ensures pBuf[..nSize] == WriteText(text, section, key, value)
  {
    var stream := new InputFile(text);
    pBuf := new char[|text| + 1024];
    HasRoom(text, Chunks(text), section, key, value);
    nSize := Produce(stream, pBuf, section, key, value, Chunks(text));
  }

  /** The three loops, and the lines added between them. */
  method Produce(stream: InputFile, pBuf: array<char>, section: string, key: string, value: string,
                 ghost cs: seq<string>)
    returns (nSize: nat)
    requires ReadUpTo(stream, cs, 0) && !stream.eof && cs != []
    requires |section| + 4 <= LOCAL_MAX && |KeyLine(key, value) + NextSection(cs, section, key)| < LOCAL_MAX
    requires pBuf.Length > |Concat(cs)| && pBuf.Length > |Concat(Write(cs, section, key, value))|
    requires pBuf.Length > |Head(cs, section, key)| + |Added(cs, section, key, value)|
    modifies stream, pBuf
    ensures nSize <= pBuf.Length && pBuf[..nSize] == Concat(Write(cs, section, key, value))
  {
    var pCur;
    pCur, nSize := ProduceHead(stream, pBuf, section, key, value, cs);
    pCur, nSize := ProduceTail(stream, pBuf, pCur, nSize, section, key, value, cs);
  }

  method ProduceTail(stream: InputFile, pBuf: array<char>, start: nat, size: nat,
                     section: string, key: string, value: string, ghost cs: seq<string>)
    returns (pCur: nat, nSize: nat)
    requires ReadUpTo(stream, cs, Consumed(cs, section, key)) && size == start
    requires Holds(pBuf, start, Head(cs, section, key) + Added(cs, section, key, value))
    requires pBuf.Length > |Concat(Write(cs, section, key, value))|
    modifies stream, pBuf
    ensures Holds(pBuf, pCur, Concat(Write(cs, section, key, value))) && nSize == pCur
  {
    Assembled(cs, section, key, value);
    pCur, nSize := CopyLoop(stream, pBuf, start, size, cs, Consumed(cs, section, key),
      Write(cs, section, key, value), Growth(cs, section, key));
  }

  method ProduceHead(stream: InputFile, pBuf: array<char>, section: string, key: string, value: string,
                     ghost cs: seq<string>)
    returns (pCur: nat, nSize: nat)
    requires ReadUpTo(stream, cs, 0) && !stream.eof && cs != []
    requires |section| + 4 <= LOCAL_MAX && |KeyLine(key, value) + NextSection(cs, section, key)| < LOCAL_MAX
    requires pBuf.Length > |Concat(cs)|
    requires pBuf.Length > |Head(cs, section, key)| + |Added(cs, section, key, value)|
    modifies stream, pBuf
    ensures ReadUpTo(stream, cs, Consumed(cs, section, key)) && nSize == pCur
    ensures Holds(pBuf, pCur, Head(cs, section, key) + Added(cs, section, key, value))
  {
    var isFindSection, sNextSection;
    pCur, nSize, isFindSection, sNextSection := CopyHead(stream, pBuf, section, key, cs);
    pCur, nSize := AddLines(pBuf, isFindSection, section, key, value, sNextSection, pCur, nSize,
                            Head(cs, section, key));
  }

  /** Everything stays inside a buffer of the size of the file plus 1024. */
  lemma HasRoom(text: string, cs: seq<string>, section: string, key: string, value: string)
    requires Fits(text, section, key, value) && cs == Chunks(text)
    ensures |Head(cs, section, key)| + |Added(cs, section, key, value)| < |text| + 1024
    ensures |Concat(Write(cs, section, key, value))| < |text| + 1024
  {
    OutputLength(cs, section, key, value);
    HeadLength(cs, section, key);
    ConcatSplit(cs, Consumed(cs, section, key));
  }
}
