/** IPC_getPrivateProfileString as its callers see it (linux/libsrc/sysipc.cpp). */
module ProfileApi {
  import opened CStrings
  import opened LineBuffer
  import opened LineFiles
  import opened IniReader
  import opened ProfileReader
  import opened ProfileWriter
  import opened Wrappers

  /** IPC_BAD_INI_FILE, an unsigned constant returned as an int */
  const BAD_INI_FILE := 0xC000_0104 - 0x1_0000_0000

  /** What the code needs of the lines and of the line buffer, which is on the stack and holds anything at first. */
  ghost predicate Readable(lines: seq<string>, app: Option<string>, key: Option<string>, stack: seq<char>) {
    && Short(lines) && |stack| == PATH_MAX
    && (app.Some? ==> |app.value| < NAME_MAX && Ended(stack))
    && (app.Some? && key.Some? ==> |key.value| < NAME_MAX && Parsable(lines, Seek(stack, lines, app.value), key.value))
  }

  /** The names a listing is about. */
  function Names(lines: seq<string>, app: Option<string>, stack: seq<char>): seq<string>
    requires AllFit(lines, |stack|)
  {
    if app.None? then SectionNames(lines) else KeyNamesIn(stack, lines, app.value, false)
  }

  /** The listing and its closing NUL, and nothing stored behind the default text. */
  twostate predicate Enumerated(ret: array<char>, names: seq<string>, nSize: int, room: nat)
    reads ret
  {
    var listing := Encode(Fitting(names, nSize - 1));
    && |listing| < ret.Length && ret[..|listing|] == listing && ret[|listing|] == NUL
    && forall j | |listing| + 1 + room <= j < ret.Length :: ret[j] == old(ret[j])
  }

  method CopyDefault(default: Option<string>, ret: array<char>, at: nat)
    requires at < ret.Length && (default.Some? ==> at + |default.value| < ret.Length)
    modifies ret
    ensures ret[..at] == old(ret[..at])
    ensures forall j | at + 1 + Room(default) <= j < ret.Length :: ret[j] == old(ret[j])
    ensures default.Some? ==> ret[at..at + |default.value|] == default.value && ret[at + |default.value|] == NUL
    ensures default.None? ==> ret[..] == old(ret[..])
  {
    if default.Some? {
      Strcpy(ret, at, default.value);
      assert ret[..at] == ret[..at + |default.value|][..at];
      assert ret[at..at + |default.value|] == ret[..at + |default.value|][at..];
    }
  }

  function Room(default: Option<string>): nat {
    if default.Some? then |default.value| else 0
  }

  /** The caller's buffer: as large as it says, with room for the default, which a listing puts behind the names. */
  predicate HasRoom(length: nat, app: Option<string>, key: Option<string>, default: Option<string>, nSize: int) {
    && Room(default) < length && nSize <= length
    && (app.None? || key.None? ==> nSize + Room(default) <= length)
  }

  /** A listing: the default is copied behind it all the same, and then ended at once. */
  method Enumerate(stream: InputStream, str: array<char>, app: Option<string>, default: Option<string>,
                   ret: array<char>, nSize: int, ghost lines: seq<string>)
    requires At(stream, lines, 0) && Readable(lines, app, None, str[..]) && str != ret
    requires HasRoom(ret.Length, app, None, default, nSize)
    modifies stream, str, ret
    ensures Enumerated(ret, Names(lines, app, old(str[..])), nSize, Room(default))
  {
    hide Encode, Fitting, SectionNames, KeyNamesIn;
    var at;
    ghost var listing := Encode(Fitting(Names(lines, app, str[..]), nSize - 1));
    if app.None? {
      at := ListSections(stream, str, ret, nSize, lines);
    } else {
      at := ListKeys(stream, str, app.value, ret, nSize, lines);
    }
    assert at == |listing|;
    NothingOverBudget(Names(lines, app, old(str[..])), nSize - 1);
    CopyDefault(default, ret, at);
    ret[at] := NUL;
    assert ret[..at] == listing;
  }

  lemma NothingOverBudget(names: seq<string>, budget: int)
    ensures |Encode(Fitting(names, budget))| <= if budget >= 0 then budget else 0
  {
  }

  /** The whole function. A lookup that fails stores the default and returns 0; a listing always returns 0. */
  method GetPrivateProfileString(file: ProfileFile, app: Option<string>, key: Option<string>, default: Option<string>,
                                 ret: array<char>, nSize: int, str: array<char>)
    returns (r: int)
    requires HasRoom(ret.Length, app, key, default, nSize) && str != ret && str.Length == PATH_MAX
    requires file.present ==> Readable(Split(file.text), app, key, str[..])
    modifies ret, str
    ensures !file.present ==> r == BAD_INI_FILE && ret[..] == old(ret[..])
    ensures file.present && app.Some? && key.Some? ==>
      match BufferLookup(old(str[..]), Split(file.text), app.value, key.value, nSize)
      case Some(value) => r == 1 && HoldsText(ret, value)
      case None => r == 0 && (if default.Some? then HoldsText(ret, default.value) else ret[..] == old(ret[..]))
    ensures file.present && (app.None? || key.None?) ==>
      r == 0 && Enumerated(ret, Names(Split(file.text), app, old(str[..])), nSize, Room(default))
  {
    hide Encode, Fitting, BufferLookup, Seek, Split, Names;
    if !file.present { return BAD_INI_FILE; }
    ghost var lines := Split(file.text);
    var stream := new InputStream(file.text);
    assert lines[0..] == lines;
    if app.None? || key.None? {
      Enumerate(stream, str, app, default, ret, nSize, lines);
      return 0;
    }
    var setDefault;
    r, setDefault := LookupValue(stream, str, app.value, key.value, ret, nSize, lines);
    if setDefault {
      assert ret[..] == old(ret[..]);
      CopyDefault(default, ret, 0);
    }
  }
}
