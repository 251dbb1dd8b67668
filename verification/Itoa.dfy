/** IPC_itoa: the digits of a signed 32-bit value in a base from 2 to 36
    (linux/libsrc/sysipc.cpp). */
module Itoa {
  import opened CStrings
  import opened Scan
  import opened Wrappers

  newtype int32 = x: int | -0x8000_0000 <= x < 0x8000_0000

  /** Indexed by 35 + remainder, so that a negative remainder finds the digit of its magnitude. */
  const MIRROR: string := NEGATIVE + POSITIVE
  const NEGATIVE: string := "zyxwvutsrqponmlkjihgfedcba987654321"
  const POSITIVE: string := "0123456789abcdefghijklmnopqrstuvwxyz"

  const MAX_TEXT := 33

  function Abs(x: int): (a: nat)
    ensures a == x || a == -x
  {
    if x < 0 then -x else x
  }

  /** C division: truncates toward zero. */
  function Quot(x: int, base: nat): int
    requires 2 <= base
  {
    if x >= 0 then x / base else -((-x) / base)
  }

  lemma NegatedProduct(a: int, b: int)
    ensures (-a) * b == -(a * b)
  {
  }

  /** n / base and n % base by repeated subtraction, which keeps nonlinear arithmetic out of the proofs. */
  function Div(n: nat, base: nat): (q: nat)
    requires 2 <= base
    ensures n < base ==> q == 0
    ensures base <= n ==> 0 < q < n
  {
    if n < base then 0 else 1 + Div(n - base, base)
  }

  function Mod(n: nat, base: nat): (r: nat)
    requires 2 <= base
    ensures r < base
    ensures n < base ==> r == n
  {
    if n < base then n else Mod(n - base, base)
  }

  lemma {:induction false} DivModExact(n: nat, base: nat)
    requires 2 <= base
    ensures n == Div(n, base) * base + Mod(n, base)
  {
    if n >= base {
      DivModExact(n - base, base);
      var q := Div(n - base, base);
      assert (1 + q) * base == base + q * base;
    }
  }

  lemma {:induction false} DivIsQuotient(n: nat, base: nat)
    requires 2 <= base
    ensures n / base == Div(n, base)
  {
    DivModExact(n, base);
    QuotientIsUnique(n, base, Div(n, base), Mod(n, base));
  }

  lemma QuotientIsUnique(n: int, base: nat, q: int, r: int)
    requires 0 < base && n == q * base + r && 0 <= r < base
    ensures n / base == q
  {
    var k, e := n / base, n % base;
    assert n == k * base + e;
    assert (k - q) * base == k * base - q * base;
    SmallMultipleIsZero(k - q, base);
  }

  lemma SmallMultipleIsZero(d: int, base: int)
    requires 0 < base && -base < d * base < base
    ensures d == 0
  {
  }

  lemma QuotMagnitude(x: int, base: nat)
    requires 2 <= base
    ensures Abs(Quot(x, base)) == Div(Abs(x), base)
    ensures Quot(x, base) != 0 ==> (Quot(x, base) < 0 <==> x < 0)
  {
    DivIsQuotient(Abs(x), base);
  }

  /** The remainder the loop indexes the table with: same sign as x, magnitude |x| mod base. */
  lemma QuotRemainder(x: int, base: nat)
    requires 2 <= base
    ensures x - Quot(x, base) * base == if x < 0 then -(Mod(Abs(x), base) as int) else Mod(Abs(x), base)
  {
    DivIsQuotient(Abs(x), base);
    DivModExact(Abs(x), base);
    NegatedProduct(Div(Abs(x), base), base);
  }

  predicate IsBase(base: int) { 2 <= base <= 36 }

  function Digit(d: nat): (c: char)
    requires d < 36
    ensures c == DigitChar(d)
    ensures c != NUL && c != '-'
    ensures DigitValue(c) == d
  {
    MirrorRight(d);
    MIRROR[35 + d]
  }

  function DigitChar(d: nat): char
    requires d < 36
  {
    if d < 10 then ('0' as int + d) as char else ('a' as int + d - 10) as char
  }

  function DigitValue(c: char): int {
    if '0' <= c <= '9' then c as int - '0' as int
    else if 'a' <= c <= 'z' then c as int - 'a' as int + 10
    else -1
  }

  lemma MirrorRight(d: nat)
    requires d < 36
    ensures |MIRROR| == 71 && MIRROR[35 + d] == DigitChar(d)
  {
    assert POSITIVE[d] == DigitChar(d);
  }

  lemma MirrorLeft(d: nat)
    requires d < 36
    ensures |MIRROR| == 71 && MIRROR[35 - d] == DigitChar(d)
  {
    assert d > 0 ==> NEGATIVE[35 - d] == DigitChar(d);
  }

  /** The digits of n, most significant first. */
  function Digits(n: nat, base: nat): (s: string)
    requires IsBase(base)
    ensures s != ""
    decreases n
  {
    if n < base then [Digit(n)] else Digits(Div(n, base), base) + [Digit(Mod(n, base))]
  }

  /** What the function promises to print. */
  function Text(value: int, base: nat): string
    requires IsBase(base)
  {
    if value < 0 then "-" + Digits(-value, base) else Digits(value, base)
  }

  /** Reading text back in a base; None when some character is no digit of that base. */
  function ParseDigits(s: string, base: nat): Option<int> {
    if s == "" then Some(0)
    else
      var d := DigitValue(s[|s| - 1]);
      match ParseDigits(s[..|s| - 1], base)
      case Some(n) => if 0 <= d < base then Some(n * base + d) else None
      case None => None
  }

  function Parse(s: string, base: nat): Option<int> {
    if s != "" && s[0] == '-' then
      match ParseDigits(s[1..], base) case Some(n) => Some(-(n as int)) case None => None
    else
      match ParseDigits(s, base) case Some(n) => Some(n) case None => None
  }

  lemma {:induction false} DigitsParse(n: nat, base: nat)
    requires IsBase(base)
    ensures ParseDigits(Digits(n, base), base) == Some(n)
    decreases n
  {
    var s := Digits(n, base);
    DivModExact(n, base);
    if n < base {
      assert s[..0] == "";
    } else {
      DigitsParse(Div(n, base), base);
      assert s[..|s| - 1] == Digits(Div(n, base), base);
    }
  }

  lemma {:induction false} DigitsAreDigits(n: nat, base: nat)
    requires IsBase(base)
    ensures forall i | 0 <= i < |Digits(n, base)| :: Digits(n, base)[i] != '-' && Digits(n, base)[i] != NUL
    ensures Digits(n, base)[0] == '0' ==> n == 0
    decreases n
  {
    if n >= base { DigitsAreDigits(Div(n, base), base); }
  }

  function Power(base: nat, e: nat): nat {
    if e == 0 then 1 else base * Power(base, e - 1)
  }

  lemma AtLeastDouble(q: nat, base: nat)
    requires 2 <= base
    ensures 2 * q <= q * base
  {
  }

  lemma {:induction false} DigitsAreShort(n: nat, base: nat, e: nat)
    requires IsBase(base) && 1 <= e && n < Power(2, e)
    ensures |Digits(n, base)| <= e
    decreases n
  {
    if n >= base {
      assert e > 1 by { assert Power(2, 0) == 1; assert Power(2, 1) == 2; }
      assert 2 * Div(n, base) <= n by { DivModExact(n, base); AtLeastDouble(Div(n, base), base); }
      DigitsAreShort(Div(n, base), base, e - 1);
    }
  }

  lemma PowersOfTwo()
    ensures Power(2, 32) == 0x1_0000_0000
  {
    assert Power(2, 8) == 256;
    assert Power(2, 16) == 0x1_0000 by {
      assert Power(2, 12) == 16 * Power(2, 8);
      assert Power(2, 16) == 16 * Power(2, 12);
    }
    assert Power(2, 24) == 0x100_0000 by {
      assert Power(2, 20) == 16 * Power(2, 16);
      assert Power(2, 24) == 16 * Power(2, 20);
    }
    assert Power(2, 32) == 0x1_0000_0000 by {
      assert Power(2, 28) == 16 * Power(2, 24);
      assert Power(2, 32) == 16 * Power(2, 28);
    }
  }

  /** Round trip: reading the text back gives the value, for every 32-bit value including the minimum;
      there is no leading zero and no "-0", and the text fits 33 characters. */
  lemma TextRoundTrip(value: int32, base: nat)
    requires 2 <= base <= 36
    ensures Parse(Text(value as int, base), base) == Some(value as int)
    ensures Text(value as int, base)[0] == '0' ==> value == 0 && Text(value as int, base) == "0"
    ensures value < 0 ==> Text(value as int, base)[1] != '0'
    ensures |Text(value as int, base)| <= MAX_TEXT
    ensures NUL !in Text(value as int, base)
  {
    var n := Abs(value as int);
    DigitsParse(n, base);
    DigitsAreDigits(n, base);
    PowersOfTwo();
    DigitsAreShort(n, base, 32);
    assert ("-" + Digits(n, base))[1..] == Digits(n, base);
  }

  /** The bound is reached: the minimum in base 2 needs all 33 characters. */
  lemma LongestText()
    ensures |Text(-0x8000_0000, 2)| == MAX_TEXT
  {
    DigitsOfPower(31);
    PowersOfTwo();
    assert Power(2, 32) == 2 * Power(2, 31);
  }

  lemma {:induction false} DigitsOfPower(e: nat)
    ensures Power(2, e) > 0 && |Digits(Power(2, e), 2)| == e + 1
  {
    hide Div, Mod, Digit;
    if e > 0 {
      DigitsOfPower(e - 1);
      Halve(Power(2, e - 1));
    }
  }

  lemma Halve(h: nat)
    requires h > 0
    ensures Div(2 * h, 2) == h
  {
    DivModExact(2 * h, 2);
  }

  function Reverse(s: string): (r: string)
    ensures |r| == |s|
    ensures forall i | 0 <= i < |s| :: r[i] == s[|s| - 1 - i]
  {
    if s == "" then "" else Reverse(s[1..]) + [s[0]]
  }

  /** The digit loop and the in-place reversal. An unsupported base stores the empty text. */
  method Convert(value: int32, result: array<char>, base: int)
    requires result.Length > (if 2 <= base <= 36 then MAX_TEXT else 0)
    modifies result
    ensures 2 <= base <= 36 ==> TextOf(result[..]) == Text(value as int, base)
    ensures base < 2 || base > 36 ==> TextOf(result[..]) == ""
  {
    if base < 2 || base > 36 {
      result[0] := NUL;
      return;
    }
    TextRoundTrip(value, base);
    var ptr := WriteDigits(value, result, base);
    result[ptr] := NUL;
    ReverseInPlace(result, ptr);
    StoredText(result[..], ptr, Text(value as int, base));
  }

  lemma StoredText(buf: string, n: nat, text: string)
    requires n < |buf| && buf[n] == NUL && NUL !in text
    requires buf[..n] == Reverse(Reverse(text))
    ensures TextOf(buf) == text
  {
    ReverseTwice(text);
    assert forall j | 0 <= j < n :: buf[j] == text[j];
    FirstIsUnique(buf, NUL, n);
  }

  lemma ReverseTwice(s: string)
    ensures Reverse(Reverse(s)) == s
  {
  }

  /** The do-while loop and the sign: leaves the text backwards at the start of the buffer. */
  method WriteDigits(value: int32, result: array<char>, base: int) returns (ptr: nat)
    requires IsBase(base) && result.Length > MAX_TEXT
    requires |Text(value as int, base)| <= MAX_TEXT
    modifies result
    ensures ptr == |Text(value as int, base)|
    ensures result[..ptr] == Reverse(Text(value as int, base))
  {
    var tmp;
    ptr, tmp := WriteMagnitude(value as int, result, base);
    if tmp < 0 {
      Prepend(result[..ptr], Digits(Abs(value as int), base), '-');
      result[ptr] := '-';
      ptr := ptr + 1;
    }
  }

  /** tmp keeps the last value divided, whose sign is the sign to print. */
  method WriteMagnitude(value: int, result: array<char>, base: nat) returns (ptr: nat, tmp: int)
    requires IsBase(base) && |Digits(Abs(value), base)| <= result.Length
    modifies result
    ensures ptr == |Digits(Abs(value), base)|
    ensures result[..ptr] == Reverse(Digits(Abs(value), base))
    ensures tmp < 0 <==> value < 0
  {
    var v := value;
    ghost var low := "";
    ptr := 0;
    while true
      invariant Digits(Abs(value), base) == Digits(Abs(v), base) + low
      invariant v < 0 <==> value < 0
      invariant |low| == ptr && result[..ptr] == Reverse(low)
      decreases Abs(v)
    {
      tmp := v;
      var c;
      v, c := Turn(tmp, base);
      Regroup(if v == 0 then [] else Digits(Abs(v), base), [c], low);
      Prepend(result[..ptr], low, c);
      result[ptr] := c;
      ptr := ptr + 1;
      low := [c] + low;
      if v == 0 { break; }
    }
  }

  /** The three statements of the loop body: the quotient to go on with and the character to store. */
  method Turn(tmp: int, base: nat) returns (v: int, c: char)
    requires IsBase(base)
    ensures v != 0 ==> Abs(v) < Abs(tmp) && (v < 0 <==> tmp < 0)
    ensures c != NUL && Digits(Abs(tmp), base) == (if v == 0 then [] else Digits(Abs(v), base)) + [c]
  {
    hide Digits, Digit, Quot, Div, Mod;
    v := Quot(tmp, base);
    TurnStores(tmp, base);
    TurnContinues(tmp, base);
    c := MIRROR[35 + (tmp - v * base)];
  }

  lemma Prepend(stored: string, low: string, c: char)
    requires stored == Reverse(low)
    ensures stored + [c] == Reverse([c] + low)
  {
    assert ([c] + low)[1..] == low;
  }

  /** One turn of the digit loop: the character it stores is the last digit of |x| ... */
  lemma TurnStores(x: int, base: nat)
    requires IsBase(base)
    ensures |MIRROR| == 71
    ensures -36 < x - Quot(x, base) * base < 36
    ensures MIRROR[35 + (x - Quot(x, base) * base)] == Digit(Mod(Abs(x), base))
  {
    QuotRemainder(x, base);
    var r := Mod(Abs(x), base);
    assert r < 36;
    MirrorLeft(r);
    MirrorRight(r);
  }

  /** ... and it goes on with the digits before it, keeping the sign. */
  lemma TurnContinues(x: int, base: nat)
    requires IsBase(base)
    ensures var q := Quot(x, base);
            && (q != 0 ==> Abs(q) < Abs(x) && (q < 0 <==> x < 0))
            && Digits(Abs(x), base) == (if q == 0 then [] else Digits(Abs(q), base)) + [Digit(Mod(Abs(x), base))]
  {
    QuotMagnitude(x, base);
  }

  /** The final two-pointer loop: exactly the reverse of the first n characters, nothing else moves. */
  method ReverseInPlace(result: array<char>, n: nat)
    requires 1 <= n < result.Length
    modifies result
    ensures result[..n] == Reverse(old(result[..n]))
    ensures forall k | n <= k < result.Length :: result[k] == old(result[k])
  {
    var ptr, ptr1 := n - 1, 0;
    while ptr1 < ptr
      invariant 0 <= ptr1 <= ptr + 1 && ptr1 + ptr == n - 1
      invariant forall k | 0 <= k < ptr1 :: result[k] == old(result[n - 1 - k]) && result[n - 1 - k] == old(result[k])
      invariant forall k | ptr1 <= k <= ptr :: result[k] == old(result[k])
      invariant forall k | n <= k < result.Length :: result[k] == old(result[k])
    {
      var tmp := result[ptr];
      result[ptr] := result[ptr1];
      ptr := ptr - 1;
      result[ptr1] := tmp;
      ptr1 := ptr1 + 1;
    }
  }
}
