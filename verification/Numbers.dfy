/** Printing and parsing of numbers (iw_debug.c). Integers are 32 bits wide and wrap around
    in two's complement wherever the source computes with them. */
module Numbers {
  import opened Basics

  lemma WrapCongruent(x: int, k: int)
    ensures Wrap(x + k * U32) == Wrap(x)
  {
    assert (x + k * U32) % U32 == x % U32;
  }

  lemma WrapIsCongruent(x: int) returns (k: int)
    ensures Wrap(x) == x + k * U32
  {
    k := if x % U32 < 0x8000_0000 then -(x / U32) else -(x / U32) - 1;
  }

  /** Wrapping an intermediate result does not change the final one. */
  lemma WrapStep(x: int, m: int, d: int)
    requires m in {-1, 1, 10, 16}
    ensures Wrap(Wrap(x) * m + d) == Wrap(x * m + d)
  {
    var k := WrapIsCongruent(x);
    assert (x + k * U32) * m + d == x * m + d + (k * m) * U32;
    WrapCongruent(x * m + d, k * m);
  }

  // ----- digits -----

  function Digit(d: nat, upper: bool): char
    requires d < 16
  {
    if upper then "0123456789ABCDEF"[d] else "0123456789abcdef"[d]
  }

  /** The numeral of n, most significant digit first. */
  ghost function Numeral(n: nat, base: nat, upper: bool): (s: string)
    requires 2 <= base <= 16
    ensures s != []
    decreases n
  {
    if n < base then [Digit(n, upper)] else Numeral(n / base, base, upper) + [Digit(n % base, upper)]
  }

  ghost function Power(base: nat, k: nat): nat {
    if k == 0 then 1 else base * Power(base, k - 1)
  }

  /** The positional notation of n without leading zeros, in digits of the given case. */
  ghost predicate IsNumeral(s: string, n: nat, base: nat, upper: bool)
    requires 2 <= base <= 16
  {
    && |s| >= 1 && n < Power(base, |s|) && (|s| > 1 ==> n >= Power(base, |s| - 1))
    && forall k :: 0 <= k < |s| ==> PlaceIs(s[k], n, base, |s| - 1 - k, upper)
  }

  /** The character code of a digit: those of '0', 'A' and 'a' are 48, 65 and 97. */
  function CodeOf(d: nat, upper: bool): nat {
    if d < 10 then 48 + d else if upper then 65 + (d - 10) else 97 + (d - 10)
  }

  lemma DigitCode(d: nat, upper: bool)
    requires d < 16
    ensures Digit(d, upper) as int == CodeOf(d, upper)
  {
  }

  /** The digit at place i, counted from the right. */
  ghost predicate PlaceIs(c: char, n: nat, base: nat, i: nat, upper: bool)
    requires 2 <= base <= 16
  {
    Power(base, i) > 0 && c as int == CodeOf(n / Power(base, i) % base, upper)
  }

  lemma PowerPositive(base: nat, k: nat)
    requires base > 0
    ensures Power(base, k) > 0
  {
  }

  lemma PlaceNext(c: char, n: nat, base: nat, i: nat, upper: bool)
    requires 2 <= base <= 16 && PlaceIs(c, n / base, base, i, upper)
    ensures PlaceIs(c, n, base, i + 1, upper)
  {
    DivDiv(n, base, Power(base, i));
  }

  lemma PowerNext(n: nat, base: nat, k: nat)
    requires base > 0
    ensures n / base < Power(base, k) <==> n < Power(base, k + 1)
  {
    var p, q, r := Power(base, k), n / base, n % base;
    assert n == q * base + r;
    Below(q, r, p, base);
  }

  lemma Below(q: nat, r: nat, p: nat, base: nat)
    requires r < base
    ensures q < p <==> q * base + r < base * p
  {
    if q < p {
      ProductBelow(q, r, base, p);
    } else {
      MulLe(base, p, q);
    }
    assert p * base == base * p && q * base == base * q;
  }

  /** The numeral is the positional notation of its number. */
  lemma {:induction false} NumeralExact(n: nat, base: nat, upper: bool)
    requires 8 <= base <= 16
    ensures IsNumeral(Numeral(n, base, upper), n, base, upper)
    decreases n
  {
    hide IsNumeral, PlaceIs;
    LastPlace(n, base, upper);
    if n < base {
      OneDigit(n, base, upper);
    } else {
      Quotient(n, base);
      NumeralExact(n / base, base, upper);
      NumeralNext(Numeral(n / base, base, upper), Digit(n % base, upper), n, base, upper);
    }
  }

  lemma OneDigit(n: nat, base: nat, upper: bool)
    requires 8 <= base <= 16 && n < base
    ensures n % base == n && IsNumeral([Digit(n, upper)], n, base, upper)
  {
    hide PlaceIs, Digit;
    SmallMod(n, base);
    LastPlace(n, base, upper);
    assert Power(base, 1) == base * Power(base, 0);
  }

  lemma SmallMod(n: nat, base: nat)
    requires n < base
    ensures n % base == n
  {
  }

  lemma NumeralNext(t: string, c: char, n: nat, base: nat, upper: bool)
    requires 8 <= base <= 16 && IsNumeral(t, n / base, base, upper) && n >= base && PlaceIs(c, n, base, 0, upper)
    ensures IsNumeral(t + [c], n, base, upper)
  {
    hide PlaceIs;
    PowerNext(n, base, |t|);
    PowerNext(n, base, |t| - 1);
    assert Power(base, 1) == base * Power(base, 0);
    forall k | 0 <= k < |t| ensures PlaceIs(t[k], n, base, |t| - k, upper) {
      PlaceNext(t[k], n, base, |t| - 1 - k, upper);
    }
  }

  lemma LastPlace(n: nat, base: nat, upper: bool)
    requires 8 <= base <= 16
    ensures PlaceIs(Digit(n % base, upper), n, base, 0, upper)
  {
    DigitCode(n % base, upper);
  }

  lemma Quotient(n: nat, base: nat)
    requires 8 <= base
    ensures 0 <= n / base <= n / 8 && (n >= base ==> n / base > 0)
  {
    var q := n / base;
    assert n == q * base + n % base;
    MulLe(q, 8, base);
  }

  lemma MulLe(q: int, a: nat, b: nat)
    requires a <= b
    ensures q >= 0 ==> q * a <= q * b
    ensures q < 0 ==> q * a >= q * b
  {
    assert q * b == q * a + q * (b - a);
  }

  /** No leading zero, but for zero itself. */
  lemma {:induction false} NoLeadingZero(n: nat, base: nat, upper: bool)
    requires 8 <= base <= 16
    ensures Numeral(n, base, upper)[0] == '0' <==> n == 0
    decreases n
  {
    if n >= base {
      Quotient(n, base);
      NoLeadingZero(n / base, base, upper);
      FirstOf(Numeral(n / base, base, upper), Digit(n % base, upper));
    }
  }

  lemma FirstOf(s: string, c: char)
    requires s != []
    ensures (s + [c])[0] == s[0]
  {
  }

  ghost function Pow8(k: nat): nat {
    if k == 0 then 1 else 8 * Pow8(k - 1)
  }

  lemma {:induction false} NumeralLength(n: nat, base: nat, upper: bool, k: nat)
    requires 8 <= base <= 16 && k >= 1 && n < Pow8(k)
    ensures |Numeral(n, base, upper)| <= k
    decreases k
  {
    if n >= base {
      Quotient(n, base);
      NumeralLength(n / base, base, upper, k - 1);
    }
  }

  lemma ElevenDigits()
    ensures U32 <= Pow8(11)
  {
    assert Pow8(3) == 8 * Pow8(2) && Pow8(2) == 8 * Pow8(1) && Pow8(1) == 8 * Pow8(0);
    assert Pow8(6) == 8 * Pow8(5) && Pow8(5) == 8 * Pow8(4) && Pow8(4) == 8 * Pow8(3);
    assert Pow8(9) == 8 * Pow8(8) && Pow8(8) == 8 * Pow8(7) && Pow8(7) == 8 * Pow8(6);
    assert Pow8(11) == 8 * Pow8(10) && Pow8(10) == 8 * Pow8(9);
  }

  /** Eleven digits are enough for any 32-bit number in base eight or more. */
  lemma NumeralFits(n: nat, base: nat, upper: bool)
    requires 8 <= base <= 16 && n < U32
    ensures |Numeral(n, base, upper)| <= 11
  {
    ElevenDigits();
    NumeralLength(n, base, upper, 11);
  }

  lemma NumeralStep(n: nat, base: nat, upper: bool)
    requires 8 <= base <= 16
    ensures 0 <= n / base && 0 <= n % base < base
    ensures var s := Numeral(n, base, upper);
            && s[|s| - 1] == Digit(n % base, upper)
            && (|s| == 1 <==> n / base == 0)
            && (n / base != 0 ==> s[..|s| - 1] == Numeral(n / base, base, upper))
  {
    Quotient(n, base);
    if n < base {
      assert n == n / base * base + n % base;
      assert n / base == 0;
    }
  }

  /** Splits off the last digit of a numeral. */
  method NextDigit(num: nat, base: nat, upper: bool) returns (digit: char, rest: nat)
    requires 8 <= base <= 16
    ensures var s := Numeral(num, base, upper);
            && s[|s| - 1] == digit && (|s| == 1 <==> rest == 0)
            && (rest != 0 ==> s[..|s| - 1] == Numeral(rest, base, upper))
  {
    NumeralStep(num, base, upper);
    digit, rest := Digit(num % base, upper), num / base;
  }

  /** prt8, prt10, prt16 and PRT16, which differ in the base and the digit characters only:
      digits are collected least significant first in a scratch buffer of 20 characters,
      above a zero sentinel, and copied out in reverse together with the sentinel. */
  method PrintDigits(num: nat, base: nat, upper: bool, str: array<char>) returns (len: nat)
    requires num < U32 && 8 <= base <= 16 && str.Length >= 20
    modifies str
    ensures 1 <= len <= 11 && str[..len] == Numeral(num, base, upper) && str[len] == '\0'
  {
    var temp;
    temp, len := CollectDigits(num, base, upper);
    ghost var digits := temp[..];
    var p, q := len, 0;
    while p > 0
      invariant 0 <= p && p + q == len && temp[..] == digits
      invariant forall k :: 0 <= k < q ==> str[k] == temp[len - k]
    {
      str[q] := temp[p];
      p, q := p - 1, q + 1;
    }
    str[q] := temp[0];
  }

  method CollectDigits(num: nat, base: nat, upper: bool) returns (temp: array<char>, len: nat)
    requires num < U32 && 8 <= base <= 16
    ensures fresh(temp) && temp.Length == 20 && 1 <= len <= 11 && len == |Numeral(num, base, upper)|
    ensures temp[0] == '\0' && forall k :: 1 <= k <= len ==> temp[k] == Numeral(num, base, upper)[len - k]
  {
    NumeralFits(num, base, upper);
    ghost var s := Numeral(num, base, upper);
    ghost var left := s;
    temp := new char[20](_ => '\0');
    len := 0;
    var rest, more := num, true;
    while more
      invariant 0 <= rest && |left| + len == |s| && more == (left != [])
      invariant more ==> left == Numeral(rest, base, upper)
      invariant forall k :: 0 <= k < |left| ==> left[k] == s[k]
      invariant temp[0] == '\0' && forall k :: 1 <= k <= len ==> temp[k] == s[|s| - k]
      decreases |left|
    {
      var digit;
      digit, rest := NextDigit(rest, base, upper);
      assert left[|left| - 1] == s[|left| - 1] == digit;
      len := len + 1;
      temp[len] := digit;
      left := left[..|left| - 1];
      more := rest != 0;
    }
  }

  // ----- stod -----

  predicate IsDigit(c: char) {
    '0' <= c <= '9'
  }

  /** Clears bit 5 of the character code. */
  function ToUpper(c: char): (u: int)
  {
    var code := c as int;
    if code / 32 % 2 == 1 then code - 32 else code
  }

  /** The value of a hexadecimal digit in either case. */
  function HexValue(c: char): Option<nat> {
    if IsDigit(c) then Some(c as int - '0' as int)
    else if 'A' as int <= ToUpper(c) <= 'F' as int then Some(ToUpper(c) - 'A' as int + 10)
    else None
  }

  function DecValue(c: char): Option<nat> {
    if IsDigit(c) then Some(c as int - '0' as int) else None
  }

  function ValueOf(c: char, hex: bool): Option<nat> {
    if hex then HexValue(c) else DecValue(c)
  }

  /** Accumulates digits from n on, up to the first character that is none. */
  function Accumulate(s: string, n: Int32, hex: bool): Int32 {
    if s == [] || ValueOf(s[0], hex).None? then n
    else Accumulate(s[1..], Wrap(n * (if hex then 16 else 10) + ValueOf(s[0], hex).value), hex)
  }

  function SkipToDigit(s: string): string {
    if s == [] || IsDigit(s[0]) then s else SkipToDigit(s[1..])
  }

  predicate HasHexMark(s: string) {
    |s| >= 2 && s[0] == '0' && ToUpper(s[1]) == 'X' as int
  }

  function Unsigned(s: string): Int32 {
    if HasHexMark(s) then Accumulate(s[2..], 0, true) else Accumulate(s, 0, false)
  }

  /** What stod returns for the string `s`. */
  function Stod(s: string): Int32 {
    if s != [] && s[0] == '-' then Wrap(0 - Unsigned(SkipToDigit(s[1..]))) else Unsigned(s)
  }

  /** The character at a position of a terminated string. */
  function CharAt(s: string, i: nat): char {
    if i < |s| then s[i] else '\0'
  }

  method ParseNumber(s: string) returns (r: Int32)
    requires '\0' !in s
    ensures r == Stod(s)
  {
    if CharAt(s, 0) != '-' {
      assert s[0..] == s;
      r := ParseUnsigned(s, 0);
    } else {
      var i := 1;
      while i < |s| && !IsDigit(CharAt(s, i))
        invariant 1 <= i <= |s|
        invariant SkipToDigit(s[i..]) == SkipToDigit(s[1..])
      {
        i := i + 1;
      }
      r := ParseUnsigned(s, i);
      r := Wrap(0 - r);
    }
  }

  /** What follows the sign, hexadecimal if it is marked so. */
  method ParseUnsigned(s: string, i: nat) returns (r: Int32)
    requires i <= |s| && '\0' !in s
    ensures r == Unsigned(s[i..])
  {
    ghost var t := s[i..];
    if CharAt(s, i) == '0' && ToUpper(CharAt(s, i + 1)) == 'X' as int {
      assert s[i + 2..] == t[2..];
      r := ParseDigits(s, i + 2, true);
    } else {
      r := ParseDigits(s, i, false);
    }
  }

  method ParseDigits(s: string, from: nat, hex: bool) returns (n: Int32)
    requires from <= |s| && '\0' !in s
    ensures n == Accumulate(s[from..], 0, hex)
  {
    n := 0;
    var i := from;
    while CharAt(s, i) != '\0'
      invariant from <= i <= |s|
      invariant Accumulate(s[i..], n, hex) == Accumulate(s[from..], 0, hex)
      decreases |s| - i
    {
      var t := ValueOf(CharAt(s, i), hex);
      if t.None? {
        return;
      }
      n := Wrap(n * (if hex then 16 else 10) + t.value);
      i := i + 1;
    }
  }

  // ----- round trips -----

  ghost predicate AllDigits(s: string, hex: bool) {
    forall c <- s :: ValueOf(c, hex).Some?
  }

  lemma {:induction false} AccumulateAppend(s: string, c: char, n: Int32, hex: bool)
    requires AllDigits(s, hex) && ValueOf(c, hex).Some?
    ensures Accumulate(s + [c], n, hex) ==
            Wrap(Accumulate(s, n, hex) * (if hex then 16 else 10) + ValueOf(c, hex).value)
    decreases |s|
  {
    if s == [] {
      assert (s + [c])[1..] == [];
    } else {
      assert (s + [c])[1..] == s[1..] + [c];
      AccumulateAppend(s[1..], c, Wrap(n * (if hex then 16 else 10) + ValueOf(s[0], hex).value), hex);
    }
  }

  lemma DigitValue(d: nat, upper: bool)
    requires d < 16
    ensures HexValue(Digit(d, upper)) == Some(d)
    ensures d < 10 ==> DecValue(Digit(d, upper)) == Some(d)
  {
  }

  function Base(hex: bool): (base: nat)
    ensures 8 <= base <= 16
  {
    if hex then 16 else 10
  }

  lemma AccumulateDigit(d: nat, upper: bool, hex: bool)
    requires d < Base(hex)
    ensures var s := [Digit(d, upper)]; AllDigits(s, hex) && Accumulate(s, 0, hex) == Wrap(d)
  {
    DigitValue(d, upper);
    assert [Digit(d, upper)][1..] == [];
  }

  lemma AccumulateStep(s: string, q: nat, d: nat, upper: bool, hex: bool)
    requires AllDigits(s, hex) && Accumulate(s, 0, hex) == Wrap(q) && d < Base(hex)
    ensures AllDigits(s + [Digit(d, upper)], hex)
    ensures Accumulate(s + [Digit(d, upper)], 0, hex) == Wrap(q * Base(hex) + d)
  {
    DigitValue(d, upper);
    AccumulateAppend(s, Digit(d, upper), 0, hex);
    WrapStep(q, Base(hex), d);
  }

  /** Accumulating the numeral of n gives n, wrapped to 32 bits. */
  lemma {:induction false} AccumulateNumeral(n: nat, upper: bool, hex: bool)
    ensures var s := Numeral(n, Base(hex), upper); AllDigits(s, hex) && Accumulate(s, 0, hex) == Wrap(n)
    decreases n
  {
    var base := Base(hex);
    if n < base {
      AccumulateDigit(n, upper, hex);
    } else {
      var q, d := n / base, n % base;
      Quotient(n, base);
      AccumulateNumeral(q, upper, hex);
      AccumulateStep(Numeral(q, base, upper), q, d, upper, hex);
      assert q * base + d == n;
    }
  }

  /** stod reads back what prt16 and PRT16 print after a hexadecimal mark. */
  lemma HexRoundTrip(n: nat, upper: bool, mark: char, out: string)
    requires mark == 'x' || mark == 'X'
    requires out == ['0', mark] + Numeral(n, 16, upper)
    ensures Stod(out) == Wrap(n) && (n < 0x8000_0000 ==> Wrap(n) == n)
  {
    AccumulateNumeral(n, upper, true);
    MarkedReads(mark, Numeral(n, 16, upper));
    SmallIsItself(n);
  }

  lemma SmallIsItself(n: nat)
    ensures n < 0x8000_0000 ==> Wrap(n) == n
  {
  }

  lemma MarkedReads(mark: char, digits: string)
    requires mark == 'x' || mark == 'X'
    ensures Stod(['0', mark] + digits) == Accumulate(digits, 0, true)
  {
    var t := ['0', mark] + digits;
    assert t[2..] == digits && t[0] == '0' && t[1] == mark;
    MarkIsUpper(mark);
  }

  lemma MarkIsUpper(mark: char)
    requires mark == 'x' || mark == 'X'
    ensures ToUpper(mark) == 'X' as int
  {
  }

  function Repeat(c: char, n: int): string {
    if n <= 0 then [] else [c] + Repeat(c, n - 1)
  }

  lemma {:induction false} LeadingZeros(k: nat, s: string, hex: bool)
    ensures Accumulate(Repeat('0', k) + s, 0, hex) == Accumulate(s, 0, hex)
    ensures AllDigits(s, hex) ==> AllDigits(Repeat('0', k) + s, hex)
    ensures s != [] && IsDigit(s[0]) ==> IsDigit((Repeat('0', k) + s)[0])
    ensures |Repeat('0', k) + s| == k + |s|
  {
    if k == 0 {
      assert Repeat('0', 0) + s == s;
    } else {
      assert (Repeat('0', k) + s)[1..] == Repeat('0', k - 1) + s;
      LeadingZeros(k - 1, s, hex);
    }
  }

  lemma UnsignedPadded(k: nat, n: nat)
    ensures var t := Repeat('0', k) + Numeral(n, 10, false);
            Unsigned(t) == Wrap(n) && t != [] && IsDigit(t[0]) && |t| == k + |Numeral(n, 10, false)|
  {
    var s := Numeral(n, 10, false);
    AccumulateNumeral(n, false, false);
    assert s[0] in s;
    LeadingZeros(k, s, false);
    NoMark(k, s);
  }

  /** A decimal numeral padded with zeros and, for a negative number, a sign in front reads
      back as the number. */
  lemma DecRoundTrip(k: nat, n: nat, negative: bool, out: string)
    requires var t := Repeat('0', k) + Numeral(n, 10, false); out == if negative then ['-'] + t else t
    ensures Stod(out) == if negative then Wrap(0 - n) else Wrap(n)
    ensures |out| == k + |Numeral(n, 10, false)| + if negative then 1 else 0
  {
    var t := Repeat('0', k) + Numeral(n, 10, false);
    UnsignedPadded(k, n);
    SignReads(t, negative);
    WrapNegated(n);
  }

  lemma WrapNegated(n: int)
    ensures Wrap(0 - Wrap(n)) == Wrap(0 - n)
  {
    WrapStep(n, -1, 0);
  }

  lemma SignReads(t: string, negative: bool)
    requires t != [] && IsDigit(t[0])
    ensures Stod(if negative then ['-'] + t else t) == if negative then Wrap(0 - Unsigned(t)) else Unsigned(t)
  {
    assert (['-'] + t)[1..] == t;
  }

  lemma {:induction false} NoMark(k: nat, s: string)
    requires AllDigits(s, false)
    ensures !HasHexMark(Repeat('0', k) + s)
  {
    var t := Repeat('0', k) + s;
    if k >= 2 {
      assert t == ['0'] + (['0'] + Repeat('0', k - 2)) + s;
      assert t[1] == '0';
    } else if k == 1 && |s| > 0 {
      assert Repeat('0', 1) == ['0'];
      assert t[1] == s[0] && s[0] in s;
    } else if k == 0 && |s| > 1 {
      assert t[1] == s[1] && s[1] in s;
    }
    assert forall c: char :: IsDigit(c) ==> ToUpper(c) != 'X' as int;
  }

  // ----- every text that stod reads -----

  /** The digits of either base. */
  predicate IsDigitOf(c: char, hex: bool) {
    '0' <= c <= '9' || (hex && ('a' <= c <= 'f' || 'A' <= c <= 'F'))
  }

  lemma DigitsAre(c: char, hex: bool)
    ensures ValueOf(c, hex).Some? <==> IsDigitOf(c, hex)
  {
  }

  /** Digits are read up to the first character that is none. */
  lemma {:induction false} AccumulateStops(digits: string, rest: string, n: Int32, hex: bool)
    requires AllDigits(digits, hex) && (rest == [] || ValueOf(rest[0], hex).None?)
    ensures Accumulate(digits + rest, n, hex) == Accumulate(digits, n, hex)
    decreases |digits|
  {
    if digits == [] {
      assert digits + rest == rest;
    } else {
      assert digits[0] in digits && (digits + rest)[1..] == digits[1..] + rest;
      AccumulateStops(digits[1..], rest, Wrap(n * (if hex then 16 else 10) + ValueOf(digits[0], hex).value), hex);
    }
  }

  lemma {:induction false} SkipsTo(skipped: string, t: string)
    requires (forall c <- skipped :: !IsDigit(c)) && t != [] && IsDigit(t[0])
    ensures SkipToDigit(skipped + t) == t
  {
    if skipped == [] {
      assert skipped + t == t;
    } else {
      assert skipped[0] in skipped && (skipped + t)[1..] == skipped[1..] + t;
      SkipsTo(skipped[1..], t);
    }
  }

  /** A numeral with leading zeros, marked if it is hexadecimal. */
  ghost function Marked(hex: bool, mark: char, k: nat, n: nat, upper: bool): string {
    (if hex then ['0', mark] else []) + (Repeat('0', k) + Numeral(n, Base(hex), upper))
  }

  /** What may follow it: no further digit, and nothing that makes a lone zero a mark. */
  predicate Follows(rest: string, hex: bool, zero: bool) {
    rest != [] ==> !IsDigitOf(rest[0], hex) && (!hex && zero ==> rest[0] != 'x' && rest[0] != 'X')
  }

  lemma UnsignedReads(hex: bool, mark: char, k: nat, n: nat, upper: bool, rest: string)
    requires mark == 'x' || mark == 'X'
    requires Follows(rest, hex, k == 0 && n == 0)
    ensures var t := Marked(hex, mark, k, n, upper) + rest; t != [] && IsDigit(t[0]) && Unsigned(t) == Wrap(n)
  {
    var s := Numeral(n, Base(hex), upper);
    var digits := Repeat('0', k) + s;
    AccumulateNumeral(n, upper, hex);
    LeadingZeros(k, s, hex);
    if rest != [] {
      DigitsAre(rest[0], hex);
    }
    AccumulateStops(digits, rest, 0, hex);
    if hex {
      assert Marked(hex, mark, k, n, upper) + rest == ['0', mark] + (digits + rest);
      MarkedReads(mark, digits + rest);
    } else {
      assert Marked(hex, mark, k, n, upper) + rest == digits + rest;
      UnmarkedReads(k, n, upper, rest);
    }
  }

  lemma UnmarkedReads(k: nat, n: nat, upper: bool, rest: string)
    requires Follows(rest, false, k == 0 && n == 0)
    ensures var t := Repeat('0', k) + Numeral(n, 10, upper) + rest; t != [] && IsDigit(t[0]) && !HasHexMark(t)
  {
    var digits := Repeat('0', k) + Numeral(n, 10, upper);
    AccumulateNumeral(n, upper, false);
    LeadingZeros(k, Numeral(n, 10, upper), false);
    assert digits[0] in digits;
    if |digits| > 1 {
      assert digits[1] in digits && (digits + rest)[1] == digits[1];
    } else if n != 0 {
      NoLeadingZero(n, 10, upper);
      assert digits[0] == Numeral(n, 10, upper)[0];
    }
  }

  /** stod reads a sign, whatever follows it up to a digit, zeros and a numeral in either base, and
      ignores what comes behind. */
  lemma StodExact(negative: bool, skipped: string, hex: bool, mark: char, k: nat, n: nat, upper: bool, rest: string)
    requires mark == 'x' || mark == 'X'
    requires Follows(rest, hex, k == 0 && n == 0)
    requires forall c <- skipped :: !('0' <= c <= '9')
    ensures var t := Marked(hex, mark, k, n, upper) + rest;
            Stod(if negative then ['-'] + (skipped + t) else t) == if negative then Wrap(0 - n) else Wrap(n)
  {
    var t := Marked(hex, mark, k, n, upper) + rest;
    UnsignedReads(hex, mark, k, n, upper, rest);
    if negative {
      assert (['-'] + (skipped + t))[1..] == skipped + t;
      SkipsTo(skipped, t);
      WrapNegated(n);
    }
  }

  /** With no digit behind the sign, or none at the front, it reads 0. */
  lemma {:induction false} StodOfNone(negative: bool, s: string)
    requires if negative then forall c <- s :: !('0' <= c <= '9') else s == [] || (!('0' <= s[0] <= '9') && s[0] != '-')
    ensures Stod(if negative then ['-'] + s else s) == 0
  {
    if negative {
      SkipsAll(s);
      assert (['-'] + s)[1..] == s;
    }
  }

  lemma {:induction false} SkipsAll(s: string)
    requires forall c <- s :: !IsDigit(c)
    ensures SkipToDigit(s) == []
  {
    if s != [] {
      assert s[0] in s;
      SkipsAll(s[1..]);
    }
  }
}
