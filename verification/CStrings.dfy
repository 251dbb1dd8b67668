/** NUL-terminated text and the string.h searches the library is written with.
    A C string is a `string` without NUL; a buffer is a `seq<char>` or `array<char>`
    whose text ends at its first NUL. */
module CStrings {
  const NUL: char := '\0'

  /** Offset of the first c in s, or |s| when there is none: strlen for c = NUL, strchr otherwise. */
  function IndexOf(s: string, c: char): (i: nat)
    ensures i <= |s|
    ensures forall j | 0 <= j < i :: s[j] != c
    ensures i < |s| ==> s[i] == c
  {
    if s == "" || s[0] == c then 0 else 1 + IndexOf(s[1..], c)
  }

  /** The C string a buffer holds: everything before its first NUL. */
  function TextOf(buf: seq<char>): (s: string)
    ensures NUL !in s
  {
    buf[..IndexOf(buf, NUL)]
  }

  predicate OccursAt(s: string, t: string, i: nat) {
    i + |t| <= |s| && s[i..i + |t|] == t
  }

  /** strstr(s, t) != NULL */
  predicate Contains(s: string, t: string) {
    exists i | 0 <= i <= |s| :: OccursAt(s, t, i)
  }

  function ToLower(c: char): (r: char)
    ensures 'A' <= c <= 'Z' ==> 'a' <= r <= 'z' && r as int - c as int == 32
    ensures !('A' <= c <= 'Z') ==> r == c
  {
    if 'A' <= c <= 'Z' then (c as int + 32) as char else c
  }

  function Lower(s: string): (r: string)
    ensures |r| == |s|
    ensures forall i | 0 <= i < |s| :: r[i] == ToLower(s[i])
  {
    seq(|s|, i requires 0 <= i < |s| => ToLower(s[i]))
  }

  /** IPC_strlwr: lower-cases the text of a buffer in place. */
  method Strlwr(str: array<char>)
    requires NUL in str[..]
    modifies str
    ensures TextOf(str[..]) == Lower(TextOf(old(str[..])))
    ensures forall i | IndexOf(old(str[..]), NUL) <= i < str.Length :: str[i] == old(str[i])
  {
    var size := IndexOf(str[..], NUL);
    var i := 0;
    while i < size
      invariant 0 <= i <= size
      invariant forall j | 0 <= j < i :: str[j] == ToLower(old(str[j]))
      invariant forall j | i <= j < str.Length :: str[j] == old(str[j])
    {
      assert str[i] == old(str[..])[..size][i];
      str[i] := ToLower(str[i]);
      i := i + 1;
    }
    ghost var was := old(str[..]);
    assert forall j | 0 <= j < size :: str[j] == ToLower(was[j]);
    FirstIsUnique(str[..], NUL, size);
    assert str[..][..size] == Lower(was[..size]);
  }

  /** strcpy(dst + at, s); the precondition is that the text and its NUL fit. */
  method Strcpy(dst: array<char>, at: nat, s: string)
    requires at + |s| < dst.Length
    modifies dst
    ensures dst[..at + |s|] == old(dst[..at]) + s
    ensures dst[at + |s|] == NUL
    ensures forall i | at + |s| < i < dst.Length :: dst[i] == old(dst[i])
  {
    var i := 0;
    while i < |s|
      invariant 0 <= i <= |s|
      invariant dst[..at + i] == old(dst[..at]) + s[..i]
      invariant forall j | at + i <= j < dst.Length :: dst[j] == old(dst[j])
    {
      dst[at + i] := s[i];
      i := i + 1;
    }
    dst[at + i] := NUL;
  }

  /** strcat(dst + at, s): goes on at the first NUL from at. */
  method Strcat(dst: array<char>, at: nat, s: string)
    requires at <= dst.Length && at + IndexOf(dst[at..], NUL) + |s| < dst.Length
    modifies dst
    ensures var end := at + old(IndexOf(dst[at..], NUL));
            dst[..end + |s|] == old(dst[..end]) + s && dst[end + |s|] == NUL
  {
    Strcpy(dst, at + IndexOf(dst[at..], NUL), s);
  }

  /** IndexOf is the only offset that stops at c with no earlier c. */
  lemma FirstIsUnique(s: string, c: char, i: nat)
    requires i <= |s| && (forall j | 0 <= j < i :: s[j] != c) && (i < |s| ==> s[i] == c)
    ensures IndexOf(s, c) == i
  {
  }

  lemma FirstOfPrefix(s: string, c: char, t: string)
    requires c !in s
    ensures IndexOf(s + [c] + t, c) == |s|
  {
    var u := s + [c] + t;
    assert forall j | 0 <= j < |s| :: u[j] == s[j];
    FirstIsUnique(u, c, |s|);
  }

  lemma NoneIsLength(s: string, c: char)
    requires c !in s
    ensures IndexOf(s, c) == |s|
  {
    FirstIsUnique(s, c, |s|);
  }

  function Min(a: nat, b: nat): (m: nat)
    ensures m == a || m == b
    ensures m <= a && m <= b
  {
    if a < b then a else b
  }
}
