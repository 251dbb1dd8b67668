/** What a last line without its newline does to a write, as the writer itself sees it when it is called again:
    whether its exact search finds the key it has written (linux/libsrc/sysipc.cpp). What the reader finds is in
    IniGlued. */
module IniEnding {
  import opened CStrings
  import opened LineFiles
  import opened IniWriter
  import opened Scan
  import opened Wrappers

  function GetText(text: string, section: string, key: string): Option<string> {
    Get(Chunks(text), section, key)
  }

  /** The write adds its lines behind the last line of the file. */
  predicate WritesAtEnd(cs: seq<string>, section: string, key: string) {
    Appends(cs, section) || SlotOf(cs, section, key) == |cs|
  }

  /** The writer's search finds the key again with its value, if and only if the file ends with its newline (or at
      the end of an fgets buffer), or the write does not go to the end of the file. */
  lemma WriterFindsAgain(text: string, section: string, key: string, value: string)
    requires Writable(section, key, value) && PlainKey(key) && '=' !in key
    requires |section| + |key| + |value| + 6 <= 1024
    ensures GetText(WriteText(text, section, key, value), section, key) == Some(value)
            <==> EndsClosed(text) || !WritesAtEnd(Chunks(text), section, key)
  {
    ChunksAreClosed(text);
    if EndsClosed(text) {
      Rechunk(text, section, key, value);
      GetWritten(Chunks(text), section, key, value);
    } else {
      WriterFindsOpen(Chunks(text), section, key, value);
    }
  }

  lemma WriterFindsOpen(cs: seq<string>, section: string, key: string, value: string)
    requires Writable(section, key, value) && PlainKey(key) && '=' !in key
    requires |section| + |key| + |value| + 6 <= 1024
    requires cs != [] && IsOpen(cs[|cs| - 1]) && (forall i | 0 <= i < |cs| - 1 :: IsClosed(cs[i]))
    ensures Get(Chunks(Concat(Write(cs, section, key, value))), section, key) == Some(value)
            <==> !WritesAtEnd(cs, section, key)
  {
    var front, u := cs[..|cs| - 1], cs[|cs| - 1];
    FrontAndLast(cs);
    if !WritesAtEnd(cs, section, key) {
      RechunkInside(front, u, section, key, value);
      GetWritten(cs, section, key, value);
    } else if Appends(cs, section) {
      WriterMissesHeader(front, u, section, key, value);
    } else {
      WriterMissesKey(front, u, section, key, value);
    }
  }

  // ---- A header without its newline ----

  /** The last character of a line is cut off whatever it is, so the line that names a section is its header and one
      character more: the newline, or, at the end of the file, any other. */
  lemma HeaderAndOne(chunk: string, section: string)
    requires chunk != ""
    ensures NamesSection(chunk, section) <==> chunk == "[" + section + "]" + [chunk[|chunk| - 1]]
  {
    var b, header := chunk[..|chunk| - 1], "[" + section + "]";
    assert chunk == b + [chunk[|chunk| - 1]];
    if b == header { assert SectionName(header) == section; }
  }

  predicate NoHeaderOf(cs: seq<string>, section: string) {
    forall c | c in cs :: |c| != |section| + 3 || c[..|section| + 2] != "[" + section + "]"
  }

  /** So a section whose header is the open last line is not found, and is written a second time behind it. */
  lemma OpenHeaderWrittenAgain(front: seq<string>, section: string, key: string, value: string)
    requires (forall i | 0 <= i < |front| :: IsClosed(front[i])) && NoHeaderOf(front, section)
    requires '\n' !in section && |section| + 3 < LINE_MAX
    ensures var text := Concat(front) + ("[" + section + "]");
            WriteText(text, section, key, value) == text + ("[" + section + "]\n" + (key + "=" + value + "\n"))
  {
    hide Concat, Chunks, IsClosed, NoHeaderOf, WriteText;
    var u := "[" + section + "]";
    OpenHeaderIsOpen(section);
    ChunksWithOpenEnd(front, u);
    ConcatPush(front, u);
    OpenHeaderMissed(front, section);
    AppendedText(Concat(front) + u, section, key, value);
  }

  lemma AppendedText(text: string, section: string, key: string, value: string)
    requires Appends(Chunks(text), section)
    ensures WriteText(text, section, key, value) == text + ("[" + section + "]\n" + (key + "=" + value + "\n"))
  {
    hide Concat, Chunks, FindHeader;
    var cs, h, k := Chunks(text), HeaderLine(section), KeyLine(key, value);
    assert cs + [h, k] == (cs + [h]) + [k];
    ConcatPush(cs + [h], k);
    ConcatPush(cs, h);
    Regroup(text, h, k);
  }

  lemma OpenHeaderIsOpen(section: string)
    requires '\n' !in section && |section| + 3 < LINE_MAX
    ensures IsOpen("[" + section + "]")
  {
  }

  lemma OpenHeaderMissed(front: seq<string>, section: string)
    requires (forall i | 0 <= i < |front| :: IsClosed(front[i])) && NoHeaderOf(front, section)
    ensures Appends(front + ["[" + section + "]"], section)
  {
    hide NamesSection, FindHeader;
    var cs := front + ["[" + section + "]"];
    forall i | 0 <= i < |cs| ensures !NamesSection(cs[i], section) {
      if i < |front| { NotThisHeader(front[i], section); } else { HeaderAndOne(cs[i], section); }
    }
    HeaderFound(cs, section);
  }

  lemma NotThisHeader(chunk: string, section: string)
    requires IsClosed(chunk) && (|chunk| != |section| + 3 || chunk[..|section| + 2] != "[" + section + "]")
    ensures !NamesSection(chunk, section)
  {
    hide NamesSection;
    HeaderAndOne(chunk, section);
    var header, last := "[" + section + "]", chunk[|chunk| - 1];
    assert (header + [last])[..|section| + 2] == header;
  }

  lemma FrontAndLast(cs: seq<string>)
    requires cs != []
    ensures cs == cs[..|cs| - 1] + [cs[|cs| - 1]]
  {
  }

  /** A write in front of the open last line leaves it the last line, or replaces it. */
  lemma RechunkInside(front: seq<string>, u: string, section: string, key: string, value: string)
    requires Writable(section, key, value) && IsOpen(u) && (forall i | 0 <= i < |front| :: IsClosed(front[i]))
    requires var cs := front + [u]; !Appends(cs, section) && SlotOf(cs, section, key) < |cs|
    ensures var w := Write(front + [u], section, key, value); Chunks(Concat(w)) == w
  {
    hide IsOpen, IsLine, Concat, Chunks, FindHeader, FindSlot, NamesKey, KeyLine;
    var cs, k := front + [u], KeyLine(key, value);
    var w, p := Write(cs, section, key, value), SlotOf(cs, section, key);
    AddedLinesAreClosed(section, key, value);
    if Replaces(cs, section, key) {
      if p == |front| {
        ChunksOfConcat(w);
      } else {
        assert w == front[p := k] + [u];
        ChunksWithOpenEnd(front[p := k], u);
      }
    } else {
      assert w == (front[..p] + [k] + front[p..]) + [u];
      ChunksWithOpenEnd(front[..p] + [k] + front[p..], u);
    }
  }

  lemma ChunksWithOpenEnd(cs: seq<string>, u: string)
    requires IsOpen(u) && (forall i | 0 <= i < |cs| :: IsClosed(cs[i]))
    ensures Chunks(Concat(cs + [u])) == cs + [u]
  {
    ConcatPush(cs, u);
    ChunksAfter(cs, u);
    ChunksOfOpen(u);
  }

  /** The header is glued to the open line, so the writer does not find the section again. */
  lemma WriterMissesHeader(front: seq<string>, u: string, section: string, key: string, value: string)
    requires Writable(section, key, value) && PlainKey(key) && |section| <= 1018
    requires IsOpen(u) && (forall i | 0 <= i < |front| :: IsClosed(front[i]))
    requires Appends(front + [u], section)
    ensures Get(Chunks(Concat(Write(front + [u], section, key, value))), section, key) == None
  {
    var h, k := HeaderLine(section), KeyLine(key, value);
    AddedLinesAreClosed(section, key, value);
    ChunksOfOpenThenLine(u, h);
    GluedAndFollowed(front, u, h, Chunks(u + h), [k]);
    AppendedLines(front, u, h, k);
    WriterMissesHeaderIn(front, u, Chunks(u + h), section, key, value);
  }

  lemma AppendedLines(front: seq<string>, u: string, h: string, k: string)
    ensures (front + [u]) + [h, k] == front + [u, h] + [k]
  {
  }

  lemma WriterMissesHeaderIn(front: seq<string>, u: string, glued: seq<string>, section: string, key: string,
                             value: string)
    requires PlainKey(key) && |section| <= 1018 && IsOpen(u) && Appends(front + [u], section)
    requires var t := u + HeaderLine(section);
             glued == (if |t| < LINE_MAX then [t] else [t[..LINE_MAX - 1], t[LINE_MAX - 1..]])
    ensures Get(front + glued + [KeyLine(key, value)], section, key) == None
  {
    var cs, k := front + [u], KeyLine(key, value);
    forall c | c in glued ensures !NamesSection(c, section) {
      assert |c| != |section| + 3;
    }
    KeyLineParts(key, value);
    HeaderFound(cs, section);
    forall c | c in front ensures !NamesSection(c, section) {
      var i :| 0 <= i < |front| && front[i] == c;
      assert cs[i] == c;
    }
    NoHeader(front + glued + [k], section);
  }

  lemma NoHeader(w: seq<string>, section: string)
    requires forall c | c in w :: !NamesSection(c, section)
    ensures FindHeader(w, section) == |w|
  {
    HeaderFound(w, section);
  }

  lemma GluedAndFollowed(front: seq<string>, u: string, h: string, glued: seq<string>, more: seq<string>)
    requires (forall i | 0 <= i < |front| :: IsClosed(front[i])) && (forall i | 0 <= i < |more| :: IsClosed(more[i]))
    requires glued == Chunks(u + h) && forall c | c in glued :: IsClosed(c)
    ensures Chunks(Concat(front + [u, h] + more)) == front + glued + more
  {
    var w := front + glued + more;
    ConcatAppend(front + [u, h], more);
    ConcatAppend(front, [u, h]);
    ConcatAppend(front + glued, more);
    ConcatAppend(front, glued);
    ConcatPair(u, h);
    ChunksOfConcat(w);
  }

  lemma Glued(front: seq<string>, u: string, k: string, glued: seq<string>)
    requires (forall i | 0 <= i < |front| :: IsClosed(front[i])) && glued == Chunks(u + k)
    ensures Chunks(Concat(front + [u, k])) == front + glued
  {
    ConcatAppend(front, [u, k]);
    ConcatPair(u, k);
    ChunksAfter(front, u + k);
  }

  lemma ConcatPair(u: string, h: string)
    ensures Concat([u, h]) == u + h
  {
    ConcatPush([u], h);
    ConcatPush([], u);
    assert [u] + [h] == [u, h] && [] + [u] == [u];
  }

  /** The key line is glued to the open line, so the writer finds no line that names the key and has the value. */
  lemma WriterMissesKey(front: seq<string>, u: string, section: string, key: string, value: string)
    requires Writable(section, key, value) && PlainKey(key) && '=' !in key
    requires IsOpen(u) && (forall i | 0 <= i < |front| :: IsClosed(front[i]))
    requires !Appends(front + [u], section) && SlotOf(front + [u], section, key) == |front| + 1
    ensures Get(Chunks(Concat(Write(front + [u], section, key, value))), section, key) != Some(value)
  {
    AddedLinesAreClosed(section, key, value);
    ChunksOfOpenThenLine(u, KeyLine(key, value));
    WriterMissesKeyIn(front, u, Chunks(u + KeyLine(key, value)), section, key, value);
    Glued(front, u, KeyLine(key, value), Chunks(u + KeyLine(key, value)));
  }

  lemma WriterMissesKeyIn(front: seq<string>, u: string, glued: seq<string>, section: string, key: string,
                          value: string)
    requires Writable(section, key, value) && '=' !in key && IsOpen(u)
    requires !Appends(front + [u], section) && SlotOf(front + [u], section, key) == |front| + 1
    requires var t := u + KeyLine(key, value);
             glued == (if |t| < LINE_MAX then [t] else [t[..LINE_MAX - 1], t[LINE_MAX - 1..]])
    ensures Get(front + glued, section, key) != Some(value)
    ensures Write(front + [u], section, key, value) == front + [u, KeyLine(key, value)]
  {
    hide Get, FindHeader, FindSlot;
    GluedNames(u, key, value, glued[0]);
    if |glued| == 2 { SecondPiece(u, key, value); }
    StoredInGlued(front + [u], front, u, glued, section, key, value);
  }

  lemma SecondPiece(u: string, key: string, value: string)
    requires Writable("", key, value) && IsOpen(u) && |u + KeyLine(key, value)| >= LINE_MAX
    ensures var c := (u + KeyLine(key, value))[LINE_MAX - 1..];
            NamesKey(c, key) ==> ValueOf(c) != value
  {
    var c := (u + KeyLine(key, value))[LINE_MAX - 1..];
    assert |c| < |KeyLine(key, value)|;
    assert c[|c| - 1] == '\n';
    assert NamesKey(c, key) ==> |ValueOf(c)| == |c| - |key| - 2;
  }

  lemma StoredInGlued(cs: seq<string>, front: seq<string>, u: string, glued: seq<string>, section: string,
                      key: string, value: string)
    requires cs == front + [u] && !Appends(cs, section) && SlotOf(cs, section, key) == |cs|
    requires 1 <= |glued| <= 2 && (NamesKey(glued[0], key) ==> NamesKey(u, key))
    requires |glued| == 2 ==> Loses(glued[1], key, value)
    ensures Get(front + glued, section, key) != Some(value)
  {
    var w := front + glued;
    var h := FindHeader(w, section);
    forall j | h < j < |w| ensures Loses(w[j], key, value) {
      if j <= |front| {
        NotBefore(cs, front, glued, section, key, h, j);
      } else {
        assert w[j] == glued[1];
      }
    }
    NotStored(w, section, key, value);
  }

  /** The line does not store this value for this key. */
  predicate Loses(c: string, key: string, value: string) {
    NamesKey(c, key) ==> ValueOf(c) != value
  }

  lemma NotStored(w: seq<string>, section: string, key: string, value: string)
    requires forall j | FindHeader(w, section) < j < |w| :: Loses(w[j], key, value)
    ensures Get(w, section, key) != Some(value)
  {
    var h := FindHeader(w, section);
    if h < |w| {
      var q := FindSlot(w, h + 1, key);
      assert q < |w| ==> Loses(w[q], key, value);
    }
  }

  lemma NotBefore(cs: seq<string>, front: seq<string>, glued: seq<string>, section: string, key: string, h: nat, j: nat)
    requires |cs| == |front| + 1 && cs[..|front|] == front && !Appends(cs, section) && SlotOf(cs, section, key) == |cs|
    requires glued != [] && (NamesKey(glued[0], key) ==> NamesKey(cs[|front|], key))
    requires h == FindHeader(front + glued, section) < j <= |front|
    ensures !NamesKey((front + glued)[j], key)
  {
    var w := front + glued;
    assert forall i | 0 <= i < |front| :: w[i] == cs[i];
    HeaderFound(w, section);
    HeaderIs(cs, section, h);
    SlotFound(cs, h + 1, key);
    assert !StopsKeyLoop(cs[j], key);
  }

  lemma GluedNames(u: string, key: string, value: string, c: string)
    requires u != "" && '=' !in key && |u| <= |c| && c <= u + KeyLine(key, value)
    ensures NamesKey(c, key) ==> NamesKey(u, key)
  {
    var t, i := u + KeyLine(key, value), IndexOf(c, '=');
    assert forall j | 0 <= j < |c| :: c[j] == t[j];
    assert forall j | 0 <= j < |u| :: u[j] == t[j] == c[j];
    assert forall j | 0 <= j < |key| :: t[|u| + j] == key[j];
    if i < |u| {
      FirstIsUnique(u, '=', i);
      assert u[..i] == c[..i];
    }
  }
}
