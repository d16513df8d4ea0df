/** Machine words of the target, and notions that several modules share. */
module Basics {
  type Byte = b: nat | b < 256
  type Word = u: nat | u < U32
  type Int32 = i: int | -0x8000_0000 <= i < 0x8000_0000

  const U32: nat := 0x1_0000_0000

  datatype Option<+T> = None | Some(value: T)

  /** The uint32_t with the given value modulo 2^32. */
  function Unsigned32(x: int): Word {
    x % U32
  }

  /** The int with the given value modulo 2^32. */
  function Wrap(x: int): Int32 {
    if x % U32 < 0x8000_0000 then x % U32 else x % U32 - U32
  }

  function Pow2(n: nat): (r: nat)
    ensures r > 0
  {
    if n == 0 then 1 else 2 * Pow2(n - 1)
  }

  ghost predicate Distinct<X>(s: seq<X>) {
    forall i, j :: 0 <= i < j < |s| ==> s[i] != s[j]
  }

  /** Dividing twice is dividing once by the product. */
  lemma DivDiv(n: nat, a: nat, b: nat)
    requires a > 0 && b > 0
    ensures a * b > 0 && n / a / b == n / (a * b)
  {
    var p, q, r := n / a, n / a / b, n % a;
    var m := p % b * a + r;
    assert p == q * b + p % b && n == p * a + r;
    ProductBelow(p % b, r, a, b);
    assert n == q * (b * a) + m by {
      assert p * a == (q * b) * a + p % b * a;
      assert (q * b) * a == q * (b * a);
    }
    QuotientIs(n, b * a, q, m);
    assert a * b == b * a;
  }

  lemma ProductBelow(x: nat, y: nat, a: nat, b: nat)
    requires x < b && y < a
    ensures 0 <= x * a + y < b * a
  {
    assert x * a <= (b - 1) * a;
    assert (b - 1) * a == b * a - a;
  }

  lemma QuotientIs(n: int, d: nat, q: int, m: int)
    requires d > 0 && n == q * d + m && 0 <= m < d
    ensures n / d == q
  {
    var e := n / d - q;
    assert n == n / d * d + n % d;
    assert e * d == n / d * d - q * d;
    assert 0 - d < e * d < d;
    Multiple(e, d);
  }

  lemma ModMod(v: int, a: nat, b: nat)
    requires a > 0 && b > 0
    ensures a * b > 0 && v % (a * b) % a == v % a
  {
    var d := a * b;
    assert d > 0;
    var q, w := v / d, v % d;
    assert v == q * d + w && w == w / a * a + w % a;
    assert v == (q * b + w / a) * a + w % a by {
      assert q * d == q * b * a;
      assert (q * b + w / a) * a == q * b * a + w / a * a;
    }
    QuotientIs(v, a, q * b + w / a, w % a);
    assert v == v / a * a + v % a;
  }

  lemma Multiple(e: int, d: nat)
    ensures e >= 1 ==> e * d >= d
    ensures e <= -1 ==> e * d <= 0 - d
  {
  }

  lemma Regroup<X>(a: seq<X>, b: seq<X>, c: seq<X>)
    ensures a + (b + c) == (a + b) + c
  {
  }
}
