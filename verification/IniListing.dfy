/** What the section listing of the reader contains after a write (linux/libsrc/sysipc.cpp). */
module IniListing {
  import opened LineFiles
  import opened IniWriter
  import opened IniReader
  import opened IniTheorems
  import opened Scan

  // ---- Section names ----

  lemma {:induction false} SectionNamesAppend(a: seq<string>, b: seq<string>)
    ensures SectionNames(a + b) == SectionNames(a) + SectionNames(b)
  {
    if a == [] {
      assert a + b == b;
    } else {
      assert (a + b)[1..] == a[1..] + b;
      SectionNamesAppend(a[1..], b);
      Regroup(if IsSection(a[0]) then [SectionName(a[0])] else [], SectionNames(a[1..]), SectionNames(b));
    }
  }

  function NameOf(line: string): seq<string> {
    if IsSection(line) then [SectionName(line)] else []
  }

  lemma SectionNamesAround(pre: seq<string>, line: string, post: seq<string>)
    ensures SectionNames(pre + [line] + post) == SectionNames(pre) + NameOf(line) + SectionNames(post)
  {
    SectionNamesAppend(pre + [line], post);
    SectionNamesAppend(pre, [line]);
    assert [line][1..] == [];
    assert SectionNames([line]) == NameOf(line) + SectionNames([]);
  }

  predicate IsHeaderOf(line: string, section: string) {
    IsSection(line) && SectionName(line) == section
  }

  lemma {:induction false} HeaderIffListed(lines: seq<string>, section: string)
    ensures section in SectionNames(lines) <==> exists j | 0 <= j < |lines| :: IsHeaderOf(lines[j], section)
  {
    if lines != [] {
      HeaderIffListed(lines[1..], section);
      assert section in NameOf(lines[0]) + SectionNames(lines[1..])
             <==> section in NameOf(lines[0]) || section in SectionNames(lines[1..]);
      if section in SectionNames(lines[1..]) {
        var j :| 0 <= j < |lines| - 1 && IsHeaderOf(lines[1..][j], section);
        assert lines[j + 1] == lines[1..][j];
      }
      if j :| 0 <= j < |lines| && IsHeaderOf(lines[j], section) {
        assert j > 0 ==> lines[1..][j - 1] == lines[j];
      }
    }
  }

  /** The writer finds the section exactly when the listing shows it. */
  lemma ListedSections(cs: seq<string>, section: string)
    ensures section in SectionNames(Bodies(cs)) <==> !Appends(cs, section)
  {
    HeaderIffListed(Bodies(cs), section);
    HeaderFound(cs, section);
    var h := FindHeader(cs, section);
    if h < |cs| { assert IsHeaderOf(Bodies(cs)[h], section); }
    if j :| 0 <= j < |cs| && IsHeaderOf(Bodies(cs)[j], section) { assert NamesSection(cs[j], section); }
  }

  /** After a write the section listing is the old one, with the section at the end if and only if it was not in it. */
  lemma SectionsAfterWrite(cs: seq<string>, section: string, key: string, value: string)
    requires PlainKey(key)
    ensures var was := SectionNames(LinesOf(cs));
            SectionNames(LinesOf(Write(cs, section, key, value))) == if section in was then was else was + [section]
  {
    hide SectionNames, FindHeader, FindSlot;
    var w := Write(cs, section, key, value);
    DropEmptyLine(cs);
    DropEmptyLine(w);
    ListedSections(cs, section);
    KeyLineParts(key, value);
    if Appends(cs, section) {
      assert Body(HeaderLine(section)) == "[" + section + "]";
      SectionsAppended(Bodies(cs), section, Body(KeyLine(key, value)));
      assert Bodies(w) == Bodies(cs) + ["[" + section + "]", Body(KeyLine(key, value))];
    } else {
      SectionsInPlace(cs, section, key, value);
    }
  }

  lemma DropEmptyLine(cs: seq<string>)
    ensures SectionNames(LinesOf(cs)) == SectionNames(Bodies(cs))
  {
    SectionNamesAppend(Bodies(cs), [""]);
    assert [""][1..] == [];
    assert SectionNames([""]) == [] + SectionNames([]);
  }

  lemma SectionsAppended(lines: seq<string>, section: string, keyLine: string)
    requires !IsSection(keyLine)
    ensures SectionNames(lines + ["[" + section + "]", keyLine]) == SectionNames(lines) + [section]
  {
    var header := "[" + section + "]";
    assert SectionName(header) == section;
    SectionNamesAround(lines, header, [keyLine]);
    assert lines + [header] + [keyLine] == lines + [header, keyLine];
    assert [keyLine][1..] == [];
    assert SectionNames([keyLine]) == [] + SectionNames([]);
  }

  lemma SectionsInPlace(cs: seq<string>, section: string, key: string, value: string)
    requires PlainKey(key) && !Appends(cs, section) && !IsSection(Body(KeyLine(key, value)))
    ensures SectionNames(Bodies(Write(cs, section, key, value))) == SectionNames(Bodies(cs))
  {
    var p, k := SlotOf(cs, section, key), KeyLine(key, value);
    if Replaces(cs, section, key) {
      if IsSection(Body(cs[p])) { HeadersNameNoPlainKey(cs[p], key); }
      assert Bodies(cs[p := k]) == Bodies(cs)[p := Body(k)];
      SectionsExchanged(Bodies(cs), p, Body(k));
    } else {
      BodiesInserted(cs, p, k);
      SectionsInserted(Bodies(cs)[..p], Body(k), Bodies(cs)[p..]);
      TakeAndDrop(Bodies(cs), p);
    }
  }

  lemma TakeAndDrop(bs: seq<string>, p: nat)
    requires p <= |bs|
    ensures bs == bs[..p] + bs[p..]
  {
  }

  lemma SectionsExchanged(bs: seq<string>, p: nat, k: string)
    requires p < |bs| && !IsSection(bs[p]) && !IsSection(k)
    ensures SectionNames(bs[p := k]) == SectionNames(bs)
  {
    SectionNamesAround(bs[..p], bs[p], bs[p + 1..]);
    SectionNamesAround(bs[..p], k, bs[p + 1..]);
    assert bs == bs[..p] + [bs[p]] + bs[p + 1..];
    assert bs[p := k] == bs[..p] + [k] + bs[p + 1..];
  }

  lemma SectionsInserted(pre: seq<string>, k: string, post: seq<string>)
    requires !IsSection(k)
    ensures SectionNames(pre + [k] + post) == SectionNames(pre + post)
  {
    SectionNamesAround(pre, k, post);
    SectionNamesAppend(pre, post);
    assert SectionNames(pre) + NameOf(k) == SectionNames(pre);
  }

  lemma BodiesInserted(cs: seq<string>, p: nat, k: string)
    requires p <= |cs|
    ensures Bodies(cs[..p] + [k] + cs[p..]) == Bodies(cs)[..p] + [Body(k)] + Bodies(cs)[p..]
  {
    Inserted(cs, p, k);
    Inserted(Bodies(cs), p, Body(k));
  }
}
