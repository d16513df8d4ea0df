/** The attribute lists of the collaboration messages (iw_fw_collabomsg_internal.c). A struct
    that the source copies byte by byte is its packed bytes here, fields least significant
    bit first. */
module Attributes {
  import opened Basics

  type Bit = b: nat | b < 2
  type Bits2 = b: nat | b < 4
  type Bits5 = b: nat | b < 32
  type Bits6 = b: nat | b < 64

  /** An attribute id with the packed length of its value. */
  datatype Attribute = Attribute(attribute_id: Bits6, value_length: Bits2)

  /** The same with the memory that `values` points to. */
  datatype AttributeValue = AttributeValue(attribute: Attribute, values: seq<Byte>)

  function Pack62(low: Bits6, high: Bits2): Byte {
    low + 64 * high
  }

  function PackAttribute(a: Attribute): Byte {
    Pack62(a.attribute_id, a.value_length)
  }

  function UnpackAttribute(b: Byte): (a: Attribute)
    ensures PackAttribute(a) == b
  {
    Attribute(b % 64, b / 64)
  }

  lemma PackAttributeInjective(a: Attribute)
    ensures UnpackAttribute(PackAttribute(a)) == a
  {
  }

  // ----- packed counts and lengths -----

  function RealAttrCount(packed: Byte): nat {
    packed + 1
  }

  /** The source subtracts in size_t and keeps the low byte. */
  function PackedAttrCount(count: nat): Byte {
    (count + 255) % 256
  }

  /** The packed count stands for the real one exactly from 1 to 256. */
  lemma AttrCountRoundTrip(count: nat, packed: Byte)
    ensures RealAttrCount(PackedAttrCount(count)) == count <==> 1 <= count <= 256
    ensures PackedAttrCount(RealAttrCount(packed)) == packed
  {
  }

  method RealValueLength(packed: Byte) returns (rtn: nat)
    ensures rtn == Pow2(packed) % U32
    ensures packed < 4 ==> rtn == Pow2(packed)
  {
    rtn := 1;
    for i := 0 to packed
      invariant rtn == Pow2(i) % U32
    {
      DoubleMod(Pow2(i));
      rtn := rtn * 2 % U32;
    }
    if packed < 4 {
      SmallPowers();
    }
  }

  lemma DoubleMod(x: nat)
    ensures x % U32 * 2 % U32 == 2 * x % U32
  {
  }

  lemma SmallPowers()
    ensures Pow2(0) == 1 && Pow2(1) == 2 && Pow2(2) == 4 && Pow2(3) == 8
  {
    assert Pow2(1) == 2 * Pow2(0) && Pow2(2) == 2 * Pow2(1) && Pow2(3) == 2 * Pow2(2);
  }

  function PackedValueLength(len: nat): Byte {
    match len
    case 8 => 3
    case 4 => 2
    case 2 => 1
    case _ => 0
  }

  /** The packed length stands for the real one exactly for the sizes 1, 2, 4 and 8. */
  lemma ValueLengthRoundTrip(len: nat, packed: Bits2)
    ensures Pow2(PackedValueLength(len)) == len <==> len in {1, 2, 4, 8}
    ensures PackedValueLength(Pow2(packed)) == packed
  {
    SmallPowers();
  }

  // ----- attributes with values: format -----

  /** The value bytes are there; in a canonical one there are no others. */
  ghost predicate HasValue(a: AttributeValue) {
    Pow2(a.attribute.value_length) <= |a.values|
  }

  ghost predicate Canonical(a: AttributeValue) {
    HasValue(a) && Pow2(a.attribute.value_length) == |a.values|
  }

  ghost function Prefix(s: seq<Byte>, n: nat): seq<Byte> {
    if n <= |s| then s[..n] else s
  }

  ghost function EncodeValue(a: AttributeValue): seq<Byte> {
    [PackAttribute(a.attribute)] + Prefix(a.values, Pow2(a.attribute.value_length))
  }

  ghost function EncodeValues(s: seq<AttributeValue>): seq<Byte> {
    if s == [] then [] else EncodeValue(s[0]) + EncodeValues(s[1..])
  }

  /** Reads `n` attributes off the front: them and the bytes left, unless bytes run out. */
  ghost function DecodeValues(b: seq<Byte>, n: nat): Option<(seq<AttributeValue>, seq<Byte>)> {
    if n == 0 then Some(([], b))
    else if b == [] then None
    else
      var a := UnpackAttribute(b[0]);
      var len := 1 + Pow2(a.value_length);
      if |b| < len then None
      else
        match DecodeValues(b[len..], n - 1)
        case None => None
        case Some((s, rest)) => Some(([AttributeValue(a, b[1..len])] + s, rest))
  }

  ghost function Prepend(a: AttributeValue, d: Option<(seq<AttributeValue>, seq<Byte>)>):
      Option<(seq<AttributeValue>, seq<Byte>)> {
    match d
    case None => None
    case Some((s, rest)) => Some(([a] + s, rest))
  }

  lemma DecodeStep(a: AttributeValue, tail: seq<Byte>, n: nat)
    requires Canonical(a)
    ensures DecodeValues(EncodeValue(a) + tail, n + 1) == Prepend(a, DecodeValues(tail, n))
  {
    var len := 1 + Pow2(a.attribute.value_length);
    var b := EncodeValue(a) + tail;
    PackAttributeInjective(a.attribute);
    assert b[len..] == tail;
    assert b[1..len] == a.values;
  }

  /** Decoding undoes encoding, and leaves what follows. */
  lemma {:induction false} DecodeEncoded(s: seq<AttributeValue>, rest: seq<Byte>)
    requires forall a <- s :: Canonical(a)
    ensures DecodeValues(EncodeValues(s) + rest, |s|) == Some((s, rest))
  {
    if s == [] {
      assert EncodeValues(s) + rest == rest;
    } else {
      var head, tail := EncodeValue(s[0]), EncodeValues(s[1..]);
      DecodeEncoded(s[1..], rest);
      DecodeStep(s[0], tail + rest, |s| - 1);
      Regroup(head, tail, rest);
      assert [s[0]] + s[1..] == s;
    }
  }

  lemma DecodeSplit(b: seq<Byte>, n: nat) returns (a: AttributeValue, tail: seq<Byte>)
    requires DecodeValues(b, n + 1).Some?
    ensures Canonical(a) && b == EncodeValue(a) + tail
    ensures DecodeValues(tail, n).Some? && DecodeValues(b, n + 1) == Prepend(a, DecodeValues(tail, n))
  {
    var h := UnpackAttribute(b[0]);
    var len := 1 + Pow2(h.value_length);
    a, tail := AttributeValue(h, b[1..len]), b[len..];
    assert EncodeValue(a) == b[..len];
  }

  /** Encoding undoes decoding: it gives back exactly the bytes consumed. */
  lemma {:induction false} EncodeDecoded(b: seq<Byte>, n: nat)
    requires DecodeValues(b, n).Some?
    ensures var (s, rest) := DecodeValues(b, n).value;
            |s| == n && (forall a <- s :: Canonical(a)) && b == EncodeValues(s) + rest
    decreases n
  {
    if n > 0 {
      var a, tail := DecodeSplit(b, n - 1);
      EncodeDecoded(tail, n - 1);
      var (s, rest) := DecodeValues(tail, n - 1).value;
      EncodeNext(a, s);
      Regroup(EncodeValue(a), EncodeValues(s), rest);
    }
  }

  lemma EncodeNext(a: AttributeValue, s: seq<AttributeValue>)
    ensures EncodeValues([a] + s) == EncodeValue(a) + EncodeValues(s)
  {
    assert ([a] + s)[1..] == s;
  }

  // ----- attributes with values: the loops -----

  lemma {:induction false} EncodeValuesAppend(s: seq<AttributeValue>, a: AttributeValue)
    ensures EncodeValues(s + [a]) == EncodeValues(s) + EncodeValue(a)
  {
    if s != [] {
      EncodeValuesAppend(s[1..], a);
      assert (s + [a])[1..] == s[1..] + [a];
    }
  }

  /** The bytes that serializing writes, provided the number fits size_t. */
  method AttributeValuesSerializeSize(msg: seq<AttributeValue>, count: nat) returns (size: nat)
    requires count <= |msg| && 9 * count < U32 && forall a <- msg :: HasValue(a)
    ensures size == |EncodeValues(msg[..count])|
  {
    size := 0;
    for i := 0 to count
      invariant size + i == |EncodeValues(msg[..i])|
    {
      var len := RealValueLength(msg[i].attribute.value_length);
      size := size + len;
      EncodeValuesAppend(msg[..i], msg[i]);
      assert msg[..i + 1] == msg[..i] + [msg[i]];
      assert HasValue(msg[i]);
    }
    size := size + count;
  }

  /** A buffer with `bytes` written from `at` on. */
  ghost function Written(was: seq<Byte>, at: nat, bytes: seq<Byte>): (now: seq<Byte>)
    requires at + |bytes| <= |was|
    ensures |now| == |was|
    decreases |bytes|
  {
    if bytes == [] then was else Written(was[at := bytes[0]], at + 1, bytes[1..])
  }

  lemma {:induction false} WrittenIs(was: seq<Byte>, at: nat, bytes: seq<Byte>)
    requires at + |bytes| <= |was|
    ensures Written(was, at, bytes) == was[..at] + bytes + was[at + |bytes|..]
    decreases |bytes|
  {
    if bytes != [] {
      WrittenIs(was[at := bytes[0]], at + 1, bytes[1..]);
    }
  }

  lemma {:induction false} WrittenTwice(was: seq<Byte>, at: nat, x: seq<Byte>, y: seq<Byte>)
    requires at + |x + y| <= |was|
    ensures Written(Written(was, at, x), at + |x|, y) == Written(was, at, x + y)
    decreases |x|
  {
    if x == [] {
      assert x + y == y;
    } else {
      assert (x + y)[1..] == x[1..] + y;
      WrittenTwice(was[at := x[0]], at + 1, x[1..], y);
    }
  }

  /** Writing a whole buffer leaves nothing of what it held. */
  lemma WrittenAll(was: seq<Byte>, bytes: seq<Byte>)
    requires |was| == |bytes|
    ensures Written(was, 0, bytes) == bytes
  {
    WrittenIs(was, 0, bytes);
  }

  /** Copies bytes into a buffer. */
  method Memcpy(dest: array<Byte>, at: nat, src: seq<Byte>)
    requires at + |src| <= dest.Length
    modifies dest
    ensures dest[..] == Written(old(dest[..]), at, src)
  {
    WrittenIs(dest[..], at, src);
    forall k | 0 <= k < |src| {
      dest[at + k] := src[k];
    }
  }

  /** Writing one more attribute extends what has been written. */
  lemma SerializeStep(was: seq<Byte>, at: nat, msg: seq<AttributeValue>, i: nat, count: nat)
    requires i < count <= |msg| && at + |EncodeValues(msg[..count])| <= |was|
    ensures EncodeValues(msg[..i + 1]) == EncodeValues(msg[..i]) + EncodeValue(msg[i])
    ensures |EncodeValues(msg[..i + 1])| <= |EncodeValues(msg[..count])|
    ensures Written(Written(was, at, EncodeValues(msg[..i])), at + |EncodeValues(msg[..i])|, EncodeValue(msg[i]))
         == Written(was, at, EncodeValues(msg[..i + 1]))
  {
    assert msg[..i + 1] == msg[..i] + [msg[i]];
    EncodeValuesAppend(msg[..i], msg[i]);
    EncodeValuesMonotone(msg, i + 1, count);
    WrittenTwice(was, at, EncodeValues(msg[..i]), EncodeValue(msg[i]));
  }

  /** Writes the encoding at `at` and nothing else. */
  method AttributeValuesSerialize(msg: seq<AttributeValue>, count: nat, dest: array<Byte>, at: nat)
    requires count <= |msg| && forall a <- msg :: HasValue(a)
    requires at + |EncodeValues(msg[..count])| <= dest.Length
    modifies dest
    ensures dest[..] == Written(old(dest[..]), at, EncodeValues(msg[..count]))
  {
    ghost var was := dest[..];
    var pt := at;
    for i := 0 to count
      invariant pt == at + |EncodeValues(msg[..i])|
      invariant |EncodeValues(msg[..i])| <= |EncodeValues(msg[..count])|
      invariant dest[..] == Written(was, at, EncodeValues(msg[..i]))
    {
      SerializeStep(was, at, msg, i, count);
      assert HasValue(msg[i]);
      pt := SerializeOne(msg[i], dest, pt);
    }
  }

  lemma {:induction false} EncodeValuesMonotone(msg: seq<AttributeValue>, i: nat, j: nat)
    requires i <= j <= |msg|
    ensures |EncodeValues(msg[..i])| <= |EncodeValues(msg[..j])|
    decreases j
  {
    if i < j {
      EncodeValuesMonotone(msg, i, j - 1);
      assert msg[..j] == msg[..j - 1] + [msg[j - 1]];
      EncodeValuesAppend(msg[..j - 1], msg[j - 1]);
    }
  }

  /** The body of the serializing loop: the packed byte, then the value bytes. */
  method SerializeOne(a: AttributeValue, dest: array<Byte>, pt: nat) returns (next: nat)
    requires HasValue(a) && pt + |EncodeValue(a)| <= dest.Length
    modifies dest
    ensures next == pt + |EncodeValue(a)|
    ensures dest[..] == Written(old(dest[..]), pt, EncodeValue(a))
  {
    ghost var was := dest[..];
    var packed := [PackAttribute(a.attribute)];
    Memcpy(dest, pt, packed);
    var len := RealValueLength(a.attribute.value_length);
    assert packed + a.values[..len] == EncodeValue(a);
    Memcpy(dest, pt + 1, a.values[..len]);
    WrittenTwice(was, pt, packed, a.values[..len]);
    next := pt + 1 + len;
  }

  ghost function PrependAll(s: seq<AttributeValue>, d: Option<(seq<AttributeValue>, seq<Byte>)>):
      Option<(seq<AttributeValue>, seq<Byte>)> {
    match d
    case None => None
    case Some((t, rest)) => Some((s + t, rest))
  }

  /** Reads attr_count + 1 attributes from `msg`, the memory at the pointer passed in. Like
      the source it checks `size` for the first byte only, so the caller vouches that the
      memory holds as many attributes as announced. The count is passed as a byte. */
  method AttributeValuesParse(msg: seq<Byte>, size: nat, attr_count: nat)
      returns (attributes: Option<seq<AttributeValue>>)
    requires size >= 1 ==> DecodeValues(msg, RealAttrCount(attr_count % 256)).Some?
    ensures size < 1 ==> attributes == None
    ensures size >= 1 ==> attributes == Some(DecodeValues(msg, RealAttrCount(attr_count % 256)).value.0)
  {
    if size < 1 {
      return None;
    }
    var n := RealAttrCount(attr_count % 256);
    var parsed, pt: nat := [], 0;
    assert msg[0..] == msg;
    PrependNone(DecodeValues(msg, n));
    for i := 0 to n
      invariant pt <= |msg|
      invariant DecodeValues(msg, n) == PrependAll(parsed, DecodeValues(msg[pt..], n - i))
    {
      var a, next := ParseOne(msg, pt, n - i - 1);
      PrependNext(parsed, a, DecodeValues(msg[next..], n - i - 1));
      parsed, pt := parsed + [a], next;
    }
    assert parsed + [] == parsed;
    attributes := Some(parsed);
  }

  lemma PrependNone(d: Option<(seq<AttributeValue>, seq<Byte>)>)
    ensures PrependAll([], d) == d
  {
    if d.Some? {
      assert [] + d.value.0 == d.value.0;
    }
  }

  lemma PrependNext(s: seq<AttributeValue>, a: AttributeValue, d: Option<(seq<AttributeValue>, seq<Byte>)>)
    ensures PrependAll(s, Prepend(a, d)) == PrependAll(s + [a], d)
  {
    if d.Some? {
      assert s + ([a] + d.value.0) == (s + [a]) + d.value.0;
    }
  }

  /** The body of the parsing loop: the packed byte, then the value bytes. */
  method ParseOne(msg: seq<Byte>, pt: nat, ghost n: nat) returns (a: AttributeValue, next: nat)
    requires pt <= |msg| && DecodeValues(msg[pt..], n + 1).Some?
    ensures pt < next <= |msg|
    ensures DecodeValues(msg[pt..], n + 1) == Prepend(a, DecodeValues(msg[next..], n))
  {
    var attribute := UnpackAttribute(msg[pt]);
    var values_size := RealValueLength(attribute.value_length);
    next := pt + 1 + values_size;
    a := AttributeValue(attribute, msg[pt + 1..next]);
    Within(msg, pt, 1, 1 + values_size);
  }

  /** A slice of what follows a position, and what follows it. */
  lemma Within(s: seq<Byte>, at: nat, from: nat, to: nat)
    requires from <= to && at + to <= |s|
    ensures s[at..][from..to] == s[at + from..at + to] && s[at..][to..] == s[at + to..]
  {
    var a, b := s[at..][from..to], s[at + from..at + to];
    forall k | 0 <= k < to - from ensures a[k] == b[k] {
      assert s[at..][from + k] == s[at + from + k];
    }
  }

  // ----- attributes without values -----

  ghost function EncodeAttributes(s: seq<Attribute>): (b: seq<Byte>)
    ensures |b| == |s| && forall i :: 0 <= i < |s| ==> b[i] == PackAttribute(s[i])
  {
    seq(|s|, i requires 0 <= i < |s| => PackAttribute(s[i]))
  }

  ghost function DecodeAttributes(b: seq<Byte>): (s: seq<Attribute>)
    ensures |s| == |b| && forall i :: 0 <= i < |b| ==> s[i] == UnpackAttribute(b[i])
  {
    seq(|b|, i requires 0 <= i < |b| => UnpackAttribute(b[i]))
  }

  lemma AttributesRoundTrip(s: seq<Attribute>, b: seq<Byte>)
    ensures DecodeAttributes(EncodeAttributes(s)) == s
    ensures EncodeAttributes(DecodeAttributes(b)) == b
  {
    forall i | 0 <= i < |s| ensures UnpackAttribute(PackAttribute(s[i])) == s[i] {
      PackAttributeInjective(s[i]);
    }
  }

  method AttributesSerialize(msg: seq<Attribute>, count: nat, dest: array<Byte>, at: nat)
    requires count <= |msg| && at + count <= dest.Length
    modifies dest
    ensures dest[..] == Written(old(dest[..]), at, EncodeAttributes(msg[..count]))
  {
    WrittenIs(dest[..], at, EncodeAttributes(msg[..count]));
    for i := 0 to count
      invariant forall k :: at <= k < at + i ==> dest[k] == PackAttribute(msg[k - at])
      invariant forall k :: 0 <= k < dest.Length && !(at <= k < at + i) ==> dest[k] == old(dest[k])
    {
      dest[at + i] := PackAttribute(msg[i]);
    }
  }

  method AttributesParse(msg: seq<Byte>, size: nat, attr_count: nat) returns (attributes: Option<seq<Attribute>>)
    requires size >= 1 ==> RealAttrCount(attr_count % 256) <= |msg|
    ensures size < 1 ==> attributes == None
    ensures size >= 1 ==> attributes == Some(DecodeAttributes(msg[..RealAttrCount(attr_count % 256)]))
  {
    if size < 1 {
      return None;
    }
    var n := RealAttrCount(attr_count % 256);
    var parsed := [];
    for i := 0 to n
      invariant parsed == DecodeAttributes(msg[..i])
    {
      parsed := parsed + [UnpackAttribute(msg[i])];
    }
    attributes := Some(parsed);
  }

  // ----- the bytes on the wire -----

  /** The id is in the six low bits of an attribute byte, the packed length in the two above. */
  predicate AttributeByte(b: Byte, a: Attribute) {
    b % 64 == a.attribute_id && b / 64 == a.value_length
  }

  /** The number of value bytes for a packed length. */
  function WireLength(packed: Bits2): nat {
    match packed
    case 0 => 1 case 1 => 2 case 2 => 4 case 3 => 8
  }

  /** The bytes that the first k attributes take. */
  function StartOf(s: seq<AttributeValue>, k: nat): nat
    requires k <= |s|
  {
    if k == 0 then 0 else StartOf(s, k - 1) + 1 + WireLength(s[k - 1].attribute.value_length)
  }

  /** Attribute k of a list is at position `at`: its byte, then its value bytes in order. */
  ghost predicate ValueAt(b: seq<Byte>, at: nat, a: AttributeValue) {
    var len := WireLength(a.attribute.value_length);
    && at + 1 + len <= |b| && len <= |a.values|
    && AttributeByte(b[at], a.attribute)
    && forall i :: 0 <= i < len ==> b[at + 1 + i] == a.values[i]
  }

  /** The attributes lie one behind the other from `at` on. */
  ghost predicate ValuesAt(b: seq<Byte>, at: nat, s: seq<AttributeValue>) {
    forall k :: 0 <= k < |s| ==> ValueAt(b, at + StartOf(s, k), s[k])
  }

  ghost predicate AttributesAt(b: seq<Byte>, at: nat, s: seq<Attribute>) {
    at + |s| <= |b| && forall k :: 0 <= k < |s| ==> AttributeByte(b[at + k], s[k])
  }

  lemma PackedByte(a: Attribute)
    ensures AttributeByte(PackAttribute(a), a)
  {
  }

  lemma WireLengths(packed: Bits2)
    ensures WireLength(packed) == Pow2(packed)
  {
    SmallPowers();
  }

  lemma EncodedAt(a: AttributeValue, pre: seq<Byte>, post: seq<Byte>)
    requires HasValue(a)
    ensures |EncodeValue(a)| == 1 + WireLength(a.attribute.value_length)
    ensures ValueAt(pre + EncodeValue(a) + post, |pre|, a)
  {
    WireLengths(a.attribute.value_length);
    PackedByte(a.attribute);
    var b := pre + EncodeValue(a) + post;
    forall i | 0 <= i < WireLength(a.attribute.value_length) ensures b[|pre| + 1 + i] == a.values[i] {
      assert b[|pre| + 1 + i] == EncodeValue(a)[1 + i];
    }
  }

  lemma {:induction false} LengthEncoded(s: seq<AttributeValue>, k: nat)
    requires k <= |s| && forall a <- s :: HasValue(a)
    ensures |EncodeValues(s[..k])| == StartOf(s, k)
  {
    if k > 0 {
      LengthEncoded(s, k - 1);
      assert s[..k] == s[..k - 1] + [s[k - 1]];
      EncodeValuesAppend(s[..k - 1], s[k - 1]);
      EncodedAt(s[k - 1], [], []);
    }
  }

  lemma {:induction false} EncodeValuesSplit(s: seq<AttributeValue>, t: seq<AttributeValue>)
    ensures EncodeValues(s + t) == EncodeValues(s) + EncodeValues(t)
  {
    if s == [] {
      assert s + t == t;
    } else {
      assert (s + t)[1..] == s[1..] + t;
      EncodeValuesSplit(s[1..], t);
      Regroup(EncodeValue(s[0]), EncodeValues(s[1..]), EncodeValues(t));
    }
  }

  /** In an encoding every attribute is at its place, whatever is around it. */
  lemma EncodedValuesAt(s: seq<AttributeValue>, pre: seq<Byte>, post: seq<Byte>)
    requires forall a <- s :: HasValue(a)
    ensures |EncodeValues(s)| == StartOf(s, |s|)
    ensures ValuesAt(pre + EncodeValues(s) + post, |pre|, s)
  {
    hide EncodeValues, EncodeValue, ValueAt, StartOf, HasValue;
    LengthEncoded(s, |s|);
    assert s[..|s|] == s;
    forall k | 0 <= k < |s| ensures ValueAt(pre + EncodeValues(s) + post, |pre| + StartOf(s, k), s[k]) {
      var front, back := EncodeValues(s[..k]), EncodeValues(s[k + 1..]);
      LengthEncoded(s, k);
      EncodeSplitAt(s, k);
      EncodedAt(s[k], pre + front, back + post);
      Around(pre, front, EncodeValue(s[k]), back, post);
    }
  }

  lemma Around(pre: seq<Byte>, front: seq<Byte>, mid: seq<Byte>, back: seq<Byte>, post: seq<Byte>)
    ensures pre + (front + (mid + back)) + post == (pre + front) + mid + (back + post)
  {
  }

  lemma EncodeSplitAt(s: seq<AttributeValue>, k: nat)
    requires k < |s|
    ensures EncodeValues(s) == EncodeValues(s[..k]) + (EncodeValue(s[k]) + EncodeValues(s[k + 1..]))
  {
    hide EncodeValues, EncodeValue;
    var front, back := s[..k], [s[k]] + s[k + 1..];
    SplitAt(s, k);
    EncodeValuesSplit(front, back);
    EncodeNext(s[k], s[k + 1..]);
  }

  lemma SplitAt<X>(s: seq<X>, k: nat)
    requires k < |s|
    ensures s == s[..k] + ([s[k]] + s[k + 1..])
  {
  }

  /** What was decoded is there. */
  lemma DecodedValuesAt(b: seq<Byte>, at: nat, n: nat)
    requires at <= |b| && DecodeValues(b[at..], n).Some?
    ensures var s := DecodeValues(b[at..], n).value.0;
            |s| == n && ValuesAt(b, at, s) && forall a <- s :: |a.values| == WireLength(a.attribute.value_length)
  {
    hide DecodeValues, EncodeValues, ValuesAt, StartOf;
    var (s, rest) := DecodeValues(b[at..], n).value;
    EncodeDecoded(b[at..], n);
    EncodedValuesAt(s, b[..at], rest);
    TakeDrop(b, at, EncodeValues(s), rest);
    forall a <- s ensures |a.values| == WireLength(a.attribute.value_length) {
      WireLengths(a.attribute.value_length);
    }
  }

  lemma TakeDrop(b: seq<Byte>, at: nat, mid: seq<Byte>, rest: seq<Byte>)
    requires at <= |b| && b[at..] == mid + rest
    ensures b == b[..at] + mid + rest
  {
    assert b == b[..at] + b[at..];
  }
}
