/** IPC_writePrivateProfileString: what it does to the lines of a profile, and what that means for
    the profile as a map from (section, key) to value (linux/libsrc/sysipc.cpp). */
module IniWriter {
  import opened CStrings
  import opened LineFiles
  import opened Scan
  import opened Wrappers

  /** IsSection: the text begins with '[' and ends with ']'. */
  predicate IsSection(src: string) {
    src != "" && src[0] == '[' && src[|src| - 1] == ']'
  }

  function SectionName(src: string): string
    requires IsSection(src)
  {
    src[1..|src| - 1]
  }

  predicate NamesSection(chunk: string, section: string) {
    IsSection(Body(chunk)) && SectionName(Body(chunk)) == section
  }

  /** IsOptionName cuts the text at its first '=' and reports whether there was one. */
  predicate IsOption(src: string) {
    IndexOf(src, '=') < |src|
  }

  function OptionName(src: string): string {
    src[..IndexOf(src, '=')]
  }

  predicate NamesKey(chunk: string, key: string) {
    IsOption(chunk) && OptionName(chunk) == key
  }

  function HeaderLine(section: string): string { "[" + section + "]\n" }

  function KeyLine(key: string, value: string): string { key + "=" + value + "\n" }

  function Naming(section: string): string -> bool { c => NamesSection(c, section) }

  /** Where the section loop stops: the first header with exactly this name. */
  function FindHeader(cs: seq<string>, section: string): (h: nat)
    ensures h <= |cs|
  {
    First(cs, 0, Naming(section))
  }

  /** Where the key loop stops: at the key, at the next header, or at the end of the file. */
  predicate StopsKeyLoop(chunk: string, key: string) {
    NamesKey(chunk, key) || IsSection(Body(chunk))
  }

  function Stopping(key: string): string -> bool { c => StopsKeyLoop(c, key) }

  function FindSlot(cs: seq<string>, from: nat, key: string): (p: nat)
    requires from <= |cs|
    ensures from <= p <= |cs|
  {
    First(cs, from, Stopping(key))
  }

  /** The lines of the rewritten file. */
  function Write(cs: seq<string>, section: string, key: string, value: string): seq<string> {
    var h := FindHeader(cs, section);
    if h == |cs| then cs + [HeaderLine(section), KeyLine(key, value)]
    else
      var p := FindSlot(cs, h + 1, key);
      if p < |cs| && NamesKey(cs[p], key) then cs[p := KeyLine(key, value)]
      else cs[..p] + [KeyLine(key, value)] + cs[p..]
  }

  /** The same rewriting on the bytes of the file. */
  function WriteText(text: string, section: string, key: string, value: string): string {
    Concat(Write(Chunks(text), section, key, value))
  }

  // ---- The profile as a map ----

  function ValueOf(chunk: string): string {
    var b, i := Body(chunk), IndexOf(chunk, '=');
    if i < |b| then b[i + 1..] else ""
  }

  /** The value stored for (section, key): that of the first line naming the key between the first header
      naming the section and the header after it. */
  function Get(cs: seq<string>, section: string, key: string): Option<string> {
    var h := FindHeader(cs, section);
    if h == |cs| then None else Stored(cs, FindSlot(cs, h + 1, key), key)
  }

  function Stored(cs: seq<string>, p: nat, key: string): Option<string> {
    if p < |cs| && NamesKey(cs[p], key) then Some(ValueOf(cs[p])) else None
  }

  /** Keys that cannot be mistaken for a header. */
  predicate PlainKey(key: string) {
    key == "" || key[0] != '['
  }

  lemma KeyLineParts(key: string, value: string)
    ensures IsOption(KeyLine(key, value))
    ensures '=' !in key ==> NamesKey(KeyLine(key, value), key) && ValueOf(KeyLine(key, value)) == value
    ensures Body(KeyLine(key, value)) == key + "=" + value
    ensures PlainKey(key) ==> !IsSection(Body(KeyLine(key, value)))
  {
    var line := KeyLine(key, value);
    assert line[|key|] == '=';
    if '=' !in key {
      assert line == key + ['='] + (value + "\n");
      FirstOfPrefix(key, '=', value + "\n");
    }
    assert Body(line) == key + "=" + value;
  }

  lemma HeaderLineParts(section: string)
    ensures NamesSection(HeaderLine(section), section)
    ensures forall s | NamesSection(HeaderLine(section), s) :: s == section
  {
    var line := HeaderLine(section);
    assert Body(line) == "[" + section + "]";
    assert SectionName(Body(line)) == section;
  }

  /** A key with '=' in it is named by no line at all. */
  lemma NoLineNames(chunk: string, key: string)
    requires '=' in key
    ensures !NamesKey(chunk, key)
  {
  }

  lemma HeadersNameNoPlainKey(chunk: string, key: string)
    requires PlainKey(key) && IsSection(Body(chunk))
    ensures !NamesKey(chunk, key)
  {
    assert chunk[0] == '[' && IndexOf(chunk, '=') > 0;
    assert OptionName(chunk)[0] == '[';
  }

  lemma HeaderFound(cs: seq<string>, section: string)
    ensures var h := FindHeader(cs, section);
            && (forall j | 0 <= j < h :: !NamesSection(cs[j], section))
            && (h < |cs| ==> NamesSection(cs[h], section))
  {
    Found(cs, 0, Naming(section));
    assert forall j | 0 <= j < |cs| :: Naming(section)(cs[j]) == NamesSection(cs[j], section);
  }

  lemma HeaderIs(cs: seq<string>, section: string, h: nat)
    requires h <= |cs| && (forall j | 0 <= j < h :: !NamesSection(cs[j], section))
    requires h < |cs| ==> NamesSection(cs[h], section)
    ensures FindHeader(cs, section) == h
  {
    FirstIs(cs, 0, Naming(section), h);
  }

  lemma SlotFound(cs: seq<string>, from: nat, key: string)
    requires from <= |cs|
    ensures var p := FindSlot(cs, from, key);
            && (forall j | from <= j < p :: !StopsKeyLoop(cs[j], key))
            && (p < |cs| ==> StopsKeyLoop(cs[p], key))
  {
    Found(cs, from, Stopping(key));
    assert forall j | 0 <= j < |cs| :: Stopping(key)(cs[j]) == StopsKeyLoop(cs[j], key);
  }

  lemma SlotIs(cs: seq<string>, from: nat, key: string, p: nat)
    requires from <= p <= |cs| && (forall j | from <= j < p :: !StopsKeyLoop(cs[j], key))
    requires p < |cs| ==> StopsKeyLoop(cs[p], key)
    ensures FindSlot(cs, from, key) == p
  {
    FirstIs(cs, from, Stopping(key), p);
  }

  // ---- The three shapes of a write ----

  predicate Appends(cs: seq<string>, section: string) {
    FindHeader(cs, section) == |cs|
  }

  /** Line the key line goes to; meaningful when the section is there. */
  function SlotOf(cs: seq<string>, section: string, key: string): (p: nat)
    requires !Appends(cs, section)
    ensures FindHeader(cs, section) < p <= |cs|
  {
    FindSlot(cs, FindHeader(cs, section) + 1, key)
  }

  predicate Replaces(cs: seq<string>, section: string, key: string) {
    !Appends(cs, section) && var p := SlotOf(cs, section, key); p < |cs| && NamesKey(cs[p], key)
  }

  /** Where the key line ends up. */
  function KeyLineAt(cs: seq<string>, section: string, key: string): nat {
    if Appends(cs, section) then |cs| + 1 else SlotOf(cs, section, key)
  }

  lemma WrittenAt(cs: seq<string>, section: string, key: string, value: string)
    requires '=' !in key
    ensures var w, p := Write(cs, section, key, value), KeyLineAt(cs, section, key);
            Replaces(w, section, key) && SlotOf(w, section, key) == p && w[p] == KeyLine(key, value)
  {
    var line := KeyLine(key, value);
    KeyLineParts(key, value);
    if Appends(cs, section) {
      HeaderLineParts(section);
      WrittenAtEnd(cs, section, key, HeaderLine(section), line);
    } else {
      WrittenInPlace(cs, Write(cs, section, key, value), section, key);
    }
  }

  lemma WrittenAtEnd(cs: seq<string>, section: string, key: string, header: string, line: string)
    requires Appends(cs, section) && NamesSection(header, section) && NamesKey(line, key)
    ensures var w := cs + [header, line];
            FindHeader(w, section) == |cs| && FindSlot(w, |cs| + 1, key) == |cs| + 1
  {
    var w := cs + [header, line];
    FirstOfSamePrefix(w, cs, 0, Naming(section));
    FirstIs(w, |cs| + 1, Stopping(key), |cs| + 1);
  }

  lemma WrittenInPlace(cs: seq<string>, w: seq<string>, section: string, key: string)
    requires !Appends(cs, section)
    requires var p := SlotOf(cs, section, key);
             p < |w| && NamesKey(w[p], key) && forall j | 0 <= j < p :: w[j] == cs[j]
    ensures FindHeader(w, section) == FindHeader(cs, section)
    ensures FindSlot(w, FindHeader(cs, section) + 1, key) == SlotOf(cs, section, key)
  {
    Found(cs, 0, Naming(section));
    FirstOfSamePrefix(w, cs, 0, Naming(section));
    FirstOfSamePrefix(w, cs, FindHeader(cs, section) + 1, Stopping(key));
  }

  /** The written key reads back, if and only if it has no '=' in it. */
  lemma GetWritten(cs: seq<string>, section: string, key: string, value: string)
    ensures Get(Write(cs, section, key, value), section, key) == Some(value) <==> '=' !in key
  {
    var w := Write(cs, section, key, value);
    if '=' in key {
      forall i | 0 <= i < |w| ensures !NamesKey(w[i], key) { NoLineNames(w[i], key); }
    } else {
      WrittenAt(cs, section, key, value);
      KeyLineParts(key, value);
    }
  }

  // ---- Lines a lookup does not see ----

  /** A line that neither is a header nor names the key, put in or exchanged anywhere, disturbs no lookup of
      that key; a line naming the key disturbs only lookups that do not come as far as that line. */
  predicate Unseen(cs: seq<string>, p: nat, line: string, s: string, k: string)
    requires p <= |cs|
  {
    && !IsSection(Body(line))
    && (NamesKey(line, k) ==> EndsBefore(cs, p, s, k))
  }

  predicate EndsBefore(cs: seq<string>, p: nat, s: string, k: string)
    requires p <= |cs|
  {
    var h := FindHeader(cs, s); p <= h || FindSlot(cs, h + 1, k) < p
  }

  /** Both searches of a lookup, moved by an insertion at p. */
  function Moved(q: nat, p: nat): nat { if q < p then q else q + 1 }

  lemma InsertUnseen(w: seq<string>, cs: seq<string>, p: nat, line: string, s: string, k: string)
    requires IsInsertion(w, cs, p, line) && Unseen(cs, p, line, s, k)
    ensures Get(w, s, k) == Get(cs, s, k)
  {
    hide NamesKey, IsSection, Body;
    InsertedHeader(w, cs, p, line, s);
    var h := FindHeader(cs, s);
    if h < |cs| {
      InsertedSlot(w, cs, p, line, h, k);
      StoredMoves(w, cs, p, line, FindSlot(cs, h + 1, k), k);
    }
  }

  lemma InsertedHeader(w: seq<string>, cs: seq<string>, p: nat, line: string, s: string)
    requires IsInsertion(w, cs, p, line) && !IsSection(Body(line))
    ensures FindHeader(w, s) == Moved(FindHeader(cs, s), p)
  {
    assert !Naming(s)(line);
    FirstAroundInsertion(w, cs, p, line, 0, Naming(s));
  }

  lemma InsertedSlot(w: seq<string>, cs: seq<string>, p: nat, line: string, h: nat, k: string)
    requires IsInsertion(w, cs, p, line) && h < |cs|
    requires !StopsKeyLoop(line, k) || p <= h || FindSlot(cs, h + 1, k) < p
    ensures FindSlot(w, Moved(h, p) + 1, k) == Moved(FindSlot(cs, h + 1, k), p)
  {
    hide NamesKey, IsSection;
    if p <= h {
      FirstBehindInsertion(w, cs, p, line, h + 1, Stopping(k));
    } else {
      FirstAroundInsertion(w, cs, p, line, h + 1, Stopping(k));
      assert Stopping(k)(line) == StopsKeyLoop(line, k);
    }
  }

  lemma StoredMoves(w: seq<string>, cs: seq<string>, p: nat, line: string, q: nat, k: string)
    requires IsInsertion(w, cs, p, line) && q <= |cs|
    ensures Stored(w, Moved(q, p), k) == Stored(cs, q, k)
  {
  }

  lemma ExchangeUnseen(cs: seq<string>, p: nat, line: string, s: string, k: string)
    requires p < |cs| && Unseen(cs, p, line, s, k) && Unseen(cs, p, cs[p], s, k)
    ensures Get(cs[p := line], s, k) == Get(cs, s, k)
  {
    hide NamesKey, FindSlot;
    var h := FindHeader(cs, s);
    assert !Naming(s)(line) && !Naming(s)(cs[p]);
    FirstAfterExchange(cs, p, line, 0, Naming(s));
    if h < |cs| { ExchangedSlot(cs, p, line, h, k); }
  }

  lemma ExchangedSlot(cs: seq<string>, p: nat, line: string, h: nat, k: string)
    requires p < |cs| && h < |cs|
    requires p <= h || FindSlot(cs, h + 1, k) < p || (!StopsKeyLoop(line, k) && !StopsKeyLoop(cs[p], k))
    ensures var q := FindSlot(cs, h + 1, k);
            FindSlot(cs[p := line], h + 1, k) == q && Stored(cs[p := line], q, k) == Stored(cs, q, k)
  {
    hide NamesKey, IsSection, Body;
    assert Stopping(k)(line) == StopsKeyLoop(line, k) && Stopping(k)(cs[p]) == StopsKeyLoop(cs[p], k);
    FirstAfterExchange(cs, p, line, h + 1, Stopping(k));
    Found(cs, h + 1, Stopping(k));
    assert FindSlot(cs, h + 1, k) != p;
  }

  lemma AppendHeader(cs: seq<string>, header: string, s: string, k: string)
    requires IsSection(Body(header)) && PlainKey(k)
    requires NamesSection(header, s) ==> FindHeader(cs, s) == |cs|
    ensures Get(cs + [header], s, k) == Get(cs, s, k)
  {
    var w, h := cs + [header], FindHeader(cs, s);
    Pushed(cs, header);
    FirstAroundInsertion(w, cs, |cs|, header, 0, Naming(s));
    if h < |cs| {
      FirstAroundInsertion(w, cs, |cs|, header, h + 1, Stopping(k));
      HeadersNameNoPlainKey(header, k);
    }
  }

  /** Every other (section, key) keeps its value or its absence. */
  lemma GetOther(cs: seq<string>, section: string, key: string, value: string, s: string, k: string)
    requires PlainKey(key) && '=' !in key && PlainKey(k)
    requires s != section || k != key
    ensures Get(Write(cs, section, key, value), s, k) == Get(cs, s, k)
  {
    KeyLineParts(key, value);
    if Appends(cs, section) {
      HeaderLineParts(section);
      GetOtherAppended(cs, section, HeaderLine(section), KeyLine(key, value), key, s, k);
      assert cs + [HeaderLine(section)] + [KeyLine(key, value)] == Write(cs, section, key, value);
    } else {
      GetOtherInPlace(cs, section, key, KeyLine(key, value), s, k);
    }
  }

  lemma GetOtherAppended(cs: seq<string>, section: string, header: string, line: string, key: string, s: string,
                         k: string)
    requires Appends(cs, section) && (s != section || k != key) && PlainKey(k)
    requires NamesSection(header, section) && NamesKey(line, key) && !IsSection(Body(line))
    ensures Get(cs + [header] + [line], s, k) == Get(cs, s, k)
  {
    AppendHeader(cs, header, s, k);
    var with := cs + [header];
    if s != section { LookupEndsBefore(with, |cs|, s, k); }
    InsertUnseen(with + [line], with, |with|, line, s, k);
  }

  lemma GetOtherInPlace(cs: seq<string>, section: string, key: string, line: string, s: string, k: string)
    requires !Appends(cs, section) && (s != section || k != key)
    requires PlainKey(key) && NamesKey(line, key) && !IsSection(Body(line))
    ensures var p := SlotOf(cs, section, key);
            Get(if Replaces(cs, section, key) then cs[p := line] else cs[..p] + [line] + cs[p..], s, k) == Get(cs, s, k)
  {
    var p := SlotOf(cs, section, key);
    if s != section { EndsBeforeSlot(cs, section, key, s, k); }
    if Replaces(cs, section, key) {
      if IsSection(Body(cs[p])) { HeadersNameNoPlainKey(cs[p], key); }
      ExchangeUnseen(cs, p, line, s, k);
    } else {
      Inserted(cs, p, line);
      InsertUnseen(cs[..p] + [line] + cs[p..], cs, p, line, s, k);
    }
  }

  lemma EndsBeforeSlot(cs: seq<string>, section: string, key: string, s: string, k: string)
    requires !Appends(cs, section) && s != section
    ensures EndsBefore(cs, SlotOf(cs, section, key), s, k)
  {
    var g, h := FindHeader(cs, section), FindHeader(cs, s);
    HeaderFound(cs, section);
    LookupEndsBefore(cs, g, s, k);
    HeaderFound(cs, s);
    SlotFound(cs, g + 1, key);
    assert h < |cs| ==> StopsKeyLoop(cs[h], key);
  }

  /** A lookup in another section does not pass the header at g. */
  lemma LookupEndsBefore(cs: seq<string>, g: nat, s: string, k: string)
    requires g < |cs| && IsSection(Body(cs[g])) && SectionName(Body(cs[g])) != s
    ensures var h := FindHeader(cs, s); h > g || (h < g && FindSlot(cs, h + 1, k) <= g)
  {
    var h := FindHeader(cs, s);
    Found(cs, 0, Naming(s));
    assert !Naming(s)(cs[g]);
    if h < g {
      Found(cs, h + 1, Stopping(k));
      assert Stopping(k)(cs[g]);
    }
  }

  /** The profile is a map from (section, key) to value, and a write is an update of that map at one point. */
  lemma WriteUpdatesMap(cs: seq<string>, section: string, key: string, value: string, s: string, k: string)
    requires PlainKey(key) && '=' !in key && PlainKey(k)
    ensures Get(Write(cs, section, key, value), s, k)
            == if s == section && k == key then Some(value) else Get(cs, s, k)
  {
    if s == section && k == key {
      GetWritten(cs, section, key, value);
    } else {
      GetOther(cs, section, key, value, s, k);
    }
  }

  /** The key line goes to p: in place of a line naming the key, or in front of the next header, or to the end;
      before it there is no line naming the key and no header. */
  predicate PutAt(w: seq<string>, cs: seq<string>, h: nat, p: nat, key: string, line: string)
    requires h < p <= |cs|
  {
    && (forall j | h < j < p :: !NamesKey(cs[j], key) && !IsSection(Body(cs[j])))
    && if p < |cs| && NamesKey(cs[p], key) then w == cs[p := line]
       else w == cs[..p] + [line] + cs[p..] && (p < |cs| ==> IsSection(Body(cs[p])))
  }

  /** Line by line: the key line is put behind the first header with exactly this name; without such a header two lines
      are added at the end. Every other line keeps its content and its place in the order. */
  lemma WriteFrame(cs: seq<string>, section: string, key: string, value: string)
    ensures var w, h, line := Write(cs, section, key, value), FindHeader(cs, section), KeyLine(key, value);
            && (forall j | 0 <= j < h :: !NamesSection(cs[j], section))
            && if h == |cs| then w == cs + [HeaderLine(section), line]
               else NamesSection(cs[h], section) && PutAt(w, cs, h, SlotOf(cs, section, key), key, line)
  {
    HeaderFound(cs, section);
    if !Appends(cs, section) { SlotFrame(cs, section, key, value); }
  }

  lemma SlotFrame(cs: seq<string>, section: string, key: string, value: string)
    requires !Appends(cs, section)
    ensures PutAt(Write(cs, section, key, value), cs, FindHeader(cs, section), SlotOf(cs, section, key),
                  key, KeyLine(key, value))
  {
    SlotFound(cs, FindHeader(cs, section) + 1, key);
  }

  // ---- Writing again ----

  /** Repeating a write changes nothing, if and only if the key has no '=' in it; with one, every further write adds a
      line. */
  lemma WriteTwice(cs: seq<string>, section: string, key: string, value: string)
    ensures var w := Write(cs, section, key, value);
            && (Write(w, section, key, value) == w <==> '=' !in key)
            && ('=' in key ==> |Write(w, section, key, value)| == |w| + 1)
  {
    if '=' in key {
      AddsALine(cs, section, key, value);
    } else {
      var w, p := Write(cs, section, key, value), KeyLineAt(cs, section, key);
      WrittenAt(cs, section, key, value);
      assert w[p := KeyLine(key, value)] == w;
    }
  }

  lemma AddsALine(cs: seq<string>, section: string, key: string, value: string)
    requires '=' in key
    ensures var w := Write(cs, section, key, value); |Write(w, section, key, value)| == |w| + 1
  {
    hide NamesKey, NamesSection, Body, HeaderLine, KeyLine;
    var w := Write(cs, section, key, value);
    forall i | 0 <= i < |w| ensures !NamesKey(w[i], key) { NoLineNames(w[i], key); }
    HeaderStays(cs, section, key, value);
  }

  lemma HeaderStays(cs: seq<string>, section: string, key: string, value: string)
    requires '=' in key
    ensures !Appends(Write(cs, section, key, value), section)
  {
    hide NamesKey, NamesSection, Body, HeaderLine, KeyLine, FindHeader, FindSlot;
    var w, h := Write(cs, section, key, value), FindHeader(cs, section);
    HeaderFound(cs, section);
    HeaderFound(w, section);
    HeaderLineParts(section);
    if h < |cs| { NoLineNamesSlot(cs, section, key); }
    assert NamesSection(w[h], section);
  }

  lemma NoLineNamesSlot(cs: seq<string>, section: string, key: string)
    requires '=' in key && !Appends(cs, section)
    ensures !Replaces(cs, section, key)
  {
    var p := SlotOf(cs, section, key);
    if p < |cs| { NoLineNames(cs[p], key); }
  }

  // ---- On the bytes of the file ----

  /** The lines the writer adds fit its line buffer and contain no newline but the last character. */
  predicate Writable(section: string, key: string, value: string) {
    && '\n' !in section && '\n' !in key && '\n' !in value
    && |HeaderLine(section)| < LINE_MAX && |KeyLine(key, value)| < LINE_MAX
  }

  /** The file ends with a newline, or exactly at the end of an fgets buffer. */
  predicate EndsClosed(text: string) {
    var cs := Chunks(text); cs != [] ==> IsClosed(cs[|cs| - 1])
  }

  lemma AddedLinesAreClosed(section: string, key: string, value: string)
    requires Writable(section, key, value)
    ensures IsLine(HeaderLine(section)) && IsLine(KeyLine(key, value))
  {
  }

  /** fgets reads the rewritten file back as the lines that were written. */
  lemma Rechunk(text: string, section: string, key: string, value: string)
    requires Writable(section, key, value) && EndsClosed(text)
    ensures Chunks(WriteText(text, section, key, value)) == Write(Chunks(text), section, key, value)
    ensures EndsClosed(WriteText(text, section, key, value))
  {
    ChunksAreClosed(text);
    WriteKeepsClosed(Chunks(text), section, key, value);
    ChunksOfConcat(Write(Chunks(text), section, key, value));
  }

  lemma WriteKeepsClosed(cs: seq<string>, section: string, key: string, value: string)
    requires Writable(section, key, value) && (forall i | 0 <= i < |cs| :: IsClosed(cs[i]))
    ensures var w := Write(cs, section, key, value); forall i | 0 <= i < |w| :: IsClosed(w[i])
  {
    AddedLinesAreClosed(section, key, value);
    if !Appends(cs, section) {
      var p := SlotOf(cs, section, key);
      Inserted(cs, p, KeyLine(key, value));
    }
  }

  /** Idempotence on files: the second write leaves every byte as it was. */
  lemma WriteTextTwice(text: string, section: string, key: string, value: string)
    requires Writable(section, key, value) && EndsClosed(text)
    ensures var once := WriteText(text, section, key, value);
            WriteText(once, section, key, value) == once <==> '=' !in key
  {
    var once := WriteText(text, section, key, value);
    Rechunk(text, section, key, value);
    Rechunk(once, section, key, value);
    WriteTwice(Chunks(text), section, key, value);
  }
}
