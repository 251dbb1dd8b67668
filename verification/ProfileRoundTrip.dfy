/** A program that writes a profile and then reads or lists it, as libtest/initest/iniparams_test.cpp does. */
module ProfileRoundTrip {
  import opened CStrings
  import opened IniListing
  import opened IniMatching
  import opened IniReader
  import opened IniTheorems
  import opened IniTidy
  import opened IniWriter
  import opened KeyListing
  import opened LineBuffer
  import opened LineFiles
  import opened ProfileApi
  import opened ProfileReader
  import opened ProfileWriter
  import opened Scan
  import opened SteadyListing
  import opened Wrappers

  /** A line the reader can take: short, without NUL, and parsable. */
  predicate ReadsWell(line: string, key: string) {
    |line| < NAME_MAX && NUL !in line && (OptionMatches(line, key) ==> '=' in line)
  }

  /** What the reader needs of the lines of a profile that is about to be written. */
  predicate Sound(cs: seq<string>, key: string) {
    AllLines(cs) && forall i | 0 <= i < |cs| :: ReadsWell(Body(cs[i]), key)
  }

  lemma SoundFits(cs: seq<string>, key: string, size: nat)
    requires Sound(cs, key) && NAME_MAX <= size
    ensures AllFit(LinesOf(cs), size)
  {
  }

  lemma TidyIsSound(cs: seq<string>, section: string, key: string)
    requires Tidy(cs, section, key) && PlainName(key)
    ensures Sound(cs, key)
  {
    hide TidyLine, SameCase, OptionMatches, PlainName, IsOption, OptionName;
    forall i | 0 <= i < |cs| ensures ReadsWell(Body(cs[i]), key) {
      assert cs[i] == Body(cs[i]) + ['\n'];
      if OptionMatches(Body(cs[i]), key) {
        TidyOption(Body(cs[i]), section, key);
        OptionHasEquals(Body(cs[i]));
      }
    }
  }

  lemma OptionHasEquals(line: string)
    requires IsOption(line)
    ensures '=' in line
  {
  }

  predicate NoNul(section: string, key: string, value: string) {
    NUL !in section && NUL !in key && NUL !in value
  }

  lemma NewLinesReadWell(section: string, key: string, value: string, k: string)
    requires Writable(section, key, value) && NoNul(section, key, value)
    ensures ReadsWell(Body(HeaderLine(section)), k)
    ensures ReadsWell(Body(KeyLine(key, value)), k)
  {
    assert Body(HeaderLine(section)) == "[" + section + "]";
    var b := Body(KeyLine(key, value));
    assert b == key + "=" + value;
    assert b[|key|] == '=';
  }

  /** The lines of the rewritten profile: each an old one or one of the two new ones. */
  lemma WrittenLines(cs: seq<string>, section: string, key: string, value: string, i: nat)
    requires i < |Write(cs, section, key, value)|
    ensures var c := Write(cs, section, key, value)[i];
            (exists j | 0 <= j < |cs| :: cs[j] == c) || c == HeaderLine(section) || c == KeyLine(key, value)
  {
    hide FindHeader, FindSlot, NamesKey;
    if !Appends(cs, section) {
      Inserted(cs, SlotOf(cs, section, key), KeyLine(key, value));
    }
  }

  lemma AllReadWell(cs: seq<string>, section: string, key: string, value: string)
    requires Sound(cs, key) && Writable(section, key, value) && NoNul(section, key, value)
    ensures var lines := LinesOf(Write(cs, section, key, value));
            forall i | 0 <= i < |lines| :: ReadsWell(lines[i], key)
  {
    hide Write, OptionMatches, FirstHeader;
    var w := Write(cs, section, key, value);
    NewLinesReadWell(section, key, value, key);
    forall i | 0 <= i < |LinesOf(w)| ensures ReadsWell(LinesOf(w)[i], key) {
      if i < |w| { WrittenLines(cs, section, key, value, i); } else { EmptyReadsWell(key); }
    }
  }

  lemma EmptyReadsWell(key: string)
    ensures ReadsWell("", key)
  {
  }

  /** After the write the reader can work, and finds what ReadsAs says, whatever is in the line buffer. */
  lemma ValueAfterWrite(text: string, section: string, key: string, value: string, nSize: int, stack: seq<char>)
    requires Writable(section, key, value) && NoNul(section, key, value) && |section| < NAME_MAX && |key| < NAME_MAX
    requires Sound(Chunks(text), key) && ReadableKey(key) && |WrittenText(key, value)| + 1 <= nSize
    requires Ended(stack)
    ensures AllFit(LinesOf(Chunks(text)), |stack|)
    ensures var lines := Split(WriteText(text, section, key, value));
            && Readable(lines, Some(section), Some(key), stack)
            && BufferLookup(stack, lines, section, key, nSize)
               == Some(ReadsAs(stack, Chunks(text), section, key, value, nSize))
  {
    hide Write, Chunks, Split, Sound, Readable, BufferLookup, ReadsAs, WrittenText, LinesOf, AllFit;
    var cs := Chunks(text);
    SoundLines(cs, key);
    SoundFits(cs, key, |stack|);
    ReaderSeesWrite(text, section, key, value);
    LinesReadable(cs, section, key, value, stack);
    ReadAfterWrite(stack, cs, section, key, value, nSize);
  }

  lemma LinesReadable(cs: seq<string>, section: string, key: string, value: string, stack: seq<char>)
    requires Writable(section, key, value) && NoNul(section, key, value) && |section| < NAME_MAX && |key| < NAME_MAX
    requires Sound(cs, key) && Ended(stack)
    ensures var lines := LinesOf(Write(cs, section, key, value));
            Readable(lines, Some(section), Some(key), stack) && AllFit(lines, |stack|)
  {
    hide Write, Sound, OptionMatches, Seek;
    AllReadWell(cs, section, key, value);
  }

  /** Writing and reading through the code of both functions: what is read, for any profile the reader can take and
      whatever the line buffer holds at first; and that it is the value written, for a tidy profile and a clean
      value, if the lines before the header decide for themselves or the reader at least steps over none of them. */
  method WriteThenRead(file: ProfileFile, section: string, key: string, value: string,
                       ret: array<char>, nSize: int, str: array<char>)
    returns (r: int)
    requires file.present && file.writable && Fits(file.text, section, key, value) && Writable(section, key, value)
    requires Sound(Chunks(file.text), key) && NoNul(section, key, value) && ReadableKey(key)
    requires |WrittenText(key, value)| + 1 <= nSize <= ret.Length && str != ret && Ended(str[..])
    modifies file`text, ret, str
    ensures AllFit(LinesOf(old(Chunks(file.text))), str.Length)
    ensures r == 1 && HoldsText(ret, ReadsAs(old(str[..]), old(Chunks(file.text)), section, key, value, nSize))
    ensures var cs := old(Chunks(file.text));
            && Tidy(cs, section, key) && ']' !in section && PlainName(key) && IsClean(value)
            && (LinesDecide(cs, section) || Undisturbed(old(str[..]), LinesOf(cs), section)) ==>
              HoldsText(ret, value)
  {
    hide Chunks, WriteText, Split, BufferLookup, ReadsAs, Readable, Sound, Tidy, PlainName, HoldsText;
    hide LinesOf, AllFit, LinesDecide, Undisturbed;
    ghost var text, stack := file.text, str[..];
    ValueAfterWrite(text, section, key, value, nSize, stack);
    var done := WritePrivateProfileString(file, section, key, value);
    r := GetPrivateProfileString(file, Some(section), Some(key), None, ret, nSize, str);
    if && Tidy(Chunks(text), section, key) && ']' !in section && PlainName(key) && IsClean(value)
       && (LinesDecide(Chunks(text), section) || Undisturbed(stack, LinesOf(Chunks(text)), section)) {
      TidyReadsAs(stack, Chunks(text), section, key, value, nSize);
    }
  }

  lemma TidyReadsAs(stack: string, cs: seq<string>, section: string, key: string, value: string, size: int)
    requires AllFit(LinesOf(cs), |stack|)
    requires Tidy(cs, section, key) && ']' !in section && PlainName(key) && IsClean(value)
    requires LinesDecide(cs, section) || Undisturbed(stack, LinesOf(cs), section)
    ensures ReadsAs(stack, cs, section, key, value, size) == value
  {
    hide Tidy, NoDecoy, LinesOf, AllFit, LinesDecide, Undisturbed;
    if LinesDecide(cs, section) { TidyUndisturbed(stack, cs, section, key); }
    TidyHasNoDecoy(stack, cs, section, key, size);
    PlainIsReadable(key);
    WrittenValue(key + "=" + value, key, value);
    CleanValue(value);
  }

  // ---- Write, list, and walk the list ----

  predicate Walkable(names: seq<string>) {
    forall i | 0 <= i < |names| :: names[i] != "" && NUL !in names[i]
  }

  lemma {:induction false} EverythingFits(names: seq<string>, budget: int)
    requires |Encode(names)| <= budget
    ensures Fitting(names, budget) == names
  {
    if names != [] { EverythingFits(names[1..], budget - |names[0]| - 1); }
  }

  lemma WalkListing(buf: string, names: seq<string>)
    requires Walkable(names) && |Encode(names)| < |buf|
    requires buf[..|Encode(names)|] == Encode(names) && buf[|Encode(names)|] == NUL
    ensures Walk(buf) == names
  {
    hide Encode, Walk;
    var n := |Encode(names)|;
    assert buf == Encode(names) + [NUL] + buf[n + 1..];
    WalkEncoded(names, buf[n + 1..]);
  }

  function With(names: seq<string>, name: string): seq<string> {
    if name in names then names else names + [name]
  }

  lemma WalkableMore(names: seq<string>, name: string)
    requires Walkable(names) && name != "" && NUL !in name
    ensures Walkable(With(names, name))
  {
  }

  /** The section names of a profile can be walked when no header is "[]". */
  lemma {:induction false} NamesAreWalkable(lines: seq<string>)
    requires forall i | 0 <= i < |lines| :: NUL !in lines[i] && lines[i] != "[]"
    ensures Walkable(SectionNames(lines))
  {
    if lines != [] {
      NamesAreWalkable(lines[1..]);
      if IsSection(lines[0]) {
        var name := SectionName(lines[0]);
        assert lines[0] == "[" + name + "]";
      }
    }
  }

  /** A listing and the walk over it, on a buffer it fits. */
  method ListAndWalk(file: ProfileFile, app: Option<string>, ret: array<char>, nSize: int, str: array<char>,
                     ghost names: seq<string>)
    requires file.present && str != ret && str.Length == PATH_MAX
    requires Readable(Split(file.text), app, None, str[..]) && Names(Split(file.text), app, str[..]) == names
    requires Walkable(names) && |Encode(names)| < nSize <= ret.Length
    modifies ret, str
    ensures Walk(ret[..]) == names
  {
    hide Encode, Walk, Fitting, Names, Readable, Split;
    EverythingFits(names, nSize - 1);
    var done := GetPrivateProfileString(file, app, None, Some(""), ret, nSize, str);
    assert ret[..][..|Encode(names)|] == ret[..|Encode(names)|];
    WalkListing(ret[..], names);
  }

  /** The section names in the rewritten file. */
  lemma NamesAfterWrite(text: string, section: string, key: string, value: string, stack: seq<char>)
    requires Writable(section, key, value) && PlainKey(key) && NoNul(section, key, value) && |stack| == PATH_MAX
    requires Sound(Chunks(text), key)
    ensures var lines := Split(WriteText(text, section, key, value));
            && Readable(lines, None, None, stack)
            && Names(lines, None, stack) == With(SectionNames(Split(text)), section)
  {
    hide Write, Chunks, Split, OptionMatches, FirstHeader, SectionNames, Sound;
    var cs := Chunks(text);
    assert AllLines(cs) by { SoundLines(cs, key); }
    ReaderSeesWrite(text, section, key, value);
    SectionsAfterWrite(cs, section, key, value);
    AllReadWell(cs, section, key, value);
  }

  lemma SoundLines(cs: seq<string>, key: string)
    requires Sound(cs, key)
    ensures AllLines(cs)
  {
  }

  /** After a write, walking the section listing name by name visits the old sections in order, and then the section
      written if it was new. */
  method WriteThenList(file: ProfileFile, section: string, key: string, value: string,
                       ret: array<char>, nSize: int, str: array<char>)
    requires file.present && file.writable && Fits(file.text, section, key, value) && Writable(section, key, value)
    requires Sound(Chunks(file.text), key) && NoNul(section, key, value) && PlainKey(key)
    requires section != "" && Walkable(SectionNames(Split(file.text)))
    requires |Encode(With(SectionNames(Split(file.text)), section))| < nSize <= ret.Length
    requires str != ret && str.Length == PATH_MAX
    modifies file`text, ret, str
    ensures Walk(ret[..]) == With(old(SectionNames(Split(file.text))), section)
  {
    hide Encode, Walk, Names, Readable, Split, Chunks, WriteText, SectionNames, Sound, With;
    ghost var text := file.text;
    var done := WritePrivateProfileString(file, section, key, value);
    NamesAfterWrite(text, section, key, value, str[..]);
    WalkableMore(SectionNames(Split(text)), section);
    ListAndWalk(file, None, ret, nSize, str, With(SectionNames(Split(text)), section));
  }

  /** When the key listing of a tidy profile is steady before the write and after it: if the lines outside sections
      decide for themselves, or on a buffer without brackets, if the line written has none either. */
  predicate ListsSteadily(stack: string, cs: seq<string>, section: string, key: string, value: string) {
    || OutsideDecide(LinesOf(cs), section, false)
    || (Quiet(stack) && '[' !in section && BracketsFirst(key + "=" + value))
  }

  lemma TidyIsSteady(stack: string, cs: seq<string>, section: string, key: string, value: string)
    requires AllFit(LinesOf(cs), |stack|) && AllFit(LinesOf(Write(cs, section, key, value)), |stack|)
    requires Tidy(cs, section, key) && AllLines(cs) && SoleHeader(cs, section) && PlainKey(key) && '=' !in key
    requires Writable(section, key, value) && ListsSteadily(stack, cs, section, key, value)
    ensures Steady(Progress(stack, false), LinesOf(cs), section)
    ensures Steady(Progress(stack, false), LinesOf(Write(cs, section, key, value)), section)
  {
    hide Write, SoleHeader, Steady, Quiet, BracketsFirst, OutsideDecide, TidyLine, SameCase;
    if OutsideDecide(LinesOf(cs), section, false) {
      DecidedStaysSteady(stack, cs, section, key, value);
    } else {
      BracketsStayFirst(cs, section, key, value);
      QuietIsSteady(Progress(stack, false), LinesOf(cs), section);
      QuietIsSteady(Progress(stack, false), LinesOf(Write(cs, section, key, value)), section);
    }
  }

  lemma BracketsStayFirst(cs: seq<string>, section: string, key: string, value: string)
    requires Tidy(cs, section, key) && '[' !in section && BracketsFirst(key + "=" + value)
    ensures forall i | 0 <= i < |LinesOf(cs)| :: BracketsFirst(LinesOf(cs)[i])
    ensures var lines := LinesOf(Write(cs, section, key, value)); forall i | 0 <= i < |lines| :: BracketsFirst(lines[i])
  {
    hide Write, FindHeader, PlainName, OccursFirst;
    var w := Write(cs, section, key, value);
    assert Body(KeyLine(key, value)) == key + "=" + value;
    assert Body(HeaderLine(section)) == "[" + section + "]";
    forall i | 0 <= i < |w| ensures BracketsFirst(Body(w[i])) {
      WrittenLines(cs, section, key, value, i);
    }
  }

  /** The key names in the rewritten file. */
  lemma KeysAfterTidyWrite(text: string, section: string, key: string, value: string, stack: seq<char>)
    requires Writable(section, key, value) && NoNul(section, key, value) && |section| < NAME_MAX
    requires Tidy(Chunks(text), section, key) && SectionsDiffer(Chunks(text)) && PlainName(key) && ']' !in section
    requires Ended(stack) && ListsSteadily(stack, Chunks(text), section, key, value)
    requires AllFit(Split(text), |stack|)
    ensures var lines := Split(WriteText(text, section, key, value));
            && Readable(lines, Some(section), None, stack)
            && Names(lines, Some(section), stack) == With(KeyNamesIn(stack, Split(text), section, false), key)
  {
    hide Write, Chunks, Split, KeyNamesIn, Sound, Tidy, SectionsDiffer, ListsSteadily, PlainName, LinesOf, Steady;
    hide Readable;
    var cs := Chunks(text);
    PlainIsReadable(key);
    TidyIsSound(cs, section, key);
    SoundLines(cs, key);
    ReaderSeesWrite(text, section, key, value);
    ListingReadable(cs, section, key, value, stack);
    TidySoleHeader(cs, section, key);
    TidyIsSteady(stack, cs, section, key, value);
    KeysAfterWrite(stack, cs, section, key, value);
  }

  lemma ListingReadable(cs: seq<string>, section: string, key: string, value: string, stack: seq<char>)
    requires Writable(section, key, value) && NoNul(section, key, value) && |section| < NAME_MAX
    requires Sound(cs, key) && Ended(stack)
    ensures var lines := LinesOf(Write(cs, section, key, value));
            Readable(lines, Some(section), None, stack) && AllFit(lines, |stack|)
  {
    hide Write, Sound, OptionMatches, Seek;
    AllReadWell(cs, section, key, value);
  }

  /** After a write to a tidy profile, walking the key listing of the section visits the old keys in order, and
      then the key written if it was new. (That the old lines fit follows from the profile being tidy.) */
  method WriteThenListKeys(file: ProfileFile, section: string, key: string, value: string,
                           ret: array<char>, nSize: int, str: array<char>)
    requires file.present && file.writable && Fits(file.text, section, key, value) && Writable(section, key, value)
    requires Tidy(Chunks(file.text), section, key) && SectionsDiffer(Chunks(file.text)) && NoNul(section, key, value)
    requires PlainName(key) && ']' !in section && key != "" && AllFit(Split(file.text), str.Length)
    requires Walkable(KeyNamesIn(str[..], Split(file.text), section, false))
    requires |Encode(With(KeyNamesIn(str[..], Split(file.text), section, false), key))| < nSize <= ret.Length
    requires str != ret && Ended(str[..]) && ListsSteadily(str[..], Chunks(file.text), section, key, value)
    modifies file`text, ret, str
    ensures Walk(ret[..]) == With(old(KeyNamesIn(str[..], Split(file.text), section, false)), key)
  {
    hide Encode, Walk, Names, Readable, Split, Chunks, WriteText, KeyNamesIn, With, Tidy, SectionsDiffer, PlainName;
    hide ListsSteadily, AllFit;
    ghost var text, stack := file.text, str[..];
    ghost var was := KeyNamesIn(stack, Split(text), section, false);
    var done := WritePrivateProfileString(file, section, key, value);
    KeysAfterTidyWrite(text, section, key, value, stack);
    WalkableMore(was, key);
    ListAndWalk(file, Some(section), ret, nSize, str, With(was, key));
  }
}
