/** What the reader's two line tests mean on well-formed lines: the name, whatever its case
    (linux/libsrc/sysipc.cpp). */
module IniMatching {
  import opened CStrings
  import opened IniReader

  /** A header matches exactly its own name, ignoring case, when neither contains a ']'. */
  lemma HeaderMatchesName(name: string, section: string)
    requires ']' !in name && ']' !in section
    ensures HeaderMatches("[" + name + "]", section) <==> Lower(name) == Lower(section)
  {
    var line := "[" + name + "]";
    var low := Lower(line[1..]);
    assert line[1..] == name + "]";
    NoBracket(name);
    NoBracket(section);
    assert forall i | 0 <= i < |name| :: low[i] == Lower(name)[i];
    if Lower(name) == Lower(section) {
      SameNameMatches(low, name, section);
    } else if HeaderMatches(line, section) {
      MatchIsName(low, name, section);
    }
  }

  /** The name is searched for with strstr, anywhere behind the bracket: a header of another section of the same length
      matches as well if the name occurs behind it. */
  lemma ForeignHeader(name: string, between: string, section: string, rest: string)
    requires |name| == |section|
    ensures HeaderMatches("[" + name + "]" + between + section + rest, section)
  {
    var line := "[" + name + "]" + between + section + rest;
    var low, at := Lower(line[1..]), |name| + 1 + |between|;
    assert line[1..][at..at + |section|] == section;
    assert low[at..at + |section|] == Lower(section);
    assert OccursAt(low, Lower(section), at);
    assert low[|section|] == ']';
  }

  lemma NoBracket(s: string)
    requires ']' !in s
    ensures ']' !in Lower(s)
  {
    forall i | 0 <= i < |s| ensures Lower(s)[i] != ']' { assert s[i] != ']'; }
  }

  lemma SameNameMatches(low: string, name: string, section: string)
    requires |low| == |name| + 1 && low[|name|] == ']' && (forall i | 0 <= i < |name| :: low[i] == Lower(name)[i])
    requires Lower(name) == Lower(section)
    ensures Contains(low, Lower(section)) && |section| < |low| && low[|section|] == ']'
  {
    assert |section| == |Lower(section)| == |name|;
    assert low[0..0 + |section|] == Lower(section);
    assert OccursAt(low, Lower(section), 0);
  }

  lemma MatchIsName(low: string, name: string, section: string)
    requires |low| == |name| + 1 && low[|name|] == ']' && (forall i | 0 <= i < |name| :: low[i] == Lower(name)[i])
    requires ']' !in Lower(name) && ']' !in Lower(section)
    requires Contains(low, Lower(section)) && |section| < |low| && low[|section|] == ']'
    ensures Lower(name) == Lower(section)
  {
    assert |section| >= |name|;
    var i :| 0 <= i <= |low| && OccursAt(low, Lower(section), i);
    assert low[..|name|] == Lower(name);
  }

  /** The key does not occur in the line behind its first character, ignoring case. */
  predicate OccursFirst(line: string, key: string) {
    forall i | 0 < i <= |line| :: !OccursAt(Lower(line), Lower(key), i)
  }

  /** A name an option can have: not taken for a comment or a header, without blanks and '='. */
  predicate PlainName(name: string) {
    && (name == "" || (name[0] != ';' && name[0] != '['))
    && forall i | 0 <= i < |name| :: name[i] !in " =\t"
  }

  /** An option line matches exactly its own name, ignoring case, when the key does not occur further along. */
  lemma OptionMatchesName(name: string, value: string, key: string)
    requires PlainName(name) && PlainName(key) && OccursFirst(name + "=" + value, key)
    ensures OptionMatches(name + "=" + value, key) <==> Lower(name) == Lower(key)
  {
    var line := name + "=" + value;
    var low := Lower(line);
    assert forall i | 0 <= i < |name| :: line[i] == name[i];
    assert forall i | 0 <= i < |name| :: low[i] == Lower(name)[i];
    assert line[|name|] == '=';
    if Lower(name) == Lower(key) {
      assert |key| == |Lower(key)| == |name|;
      assert low[0..0 + |key|] == Lower(key);
      assert OccursAt(low, Lower(key), 0);
    } else if OptionMatches(line, key) {
      OptionIsName(line, low, name, key);
    }
  }

  lemma OptionIsName(line: string, low: string, name: string, key: string)
    requires low == Lower(line) && |name| < |line| && line[|name|] == '=' && PlainName(name) && PlainName(key)
    requires (forall i | 0 <= i < |name| :: line[i] == name[i] && low[i] == Lower(name)[i])
    requires OccursFirst(line, key) && Contains(low, Lower(key)) && |key| < |line| && low[|key|] in " =\t"
    ensures Lower(name) == Lower(key)
  {
    assert OccursAt(low, Lower(key), 0);
    assert low[..|key|] == Lower(key);
    assert low[|name|] == '=';
    assert low[..|name|] == Lower(name);
  }
}
