/** The attribute messages of the collaboration protocol: attribute-write (iw_fw_msg_id_x15.c,
    the layout of x17 and x18 too), attribute-read and its acknowledgement
    (iw_fw_msg_id_x16.c). Each is a fixed head of four bytes and a list of attributes, whose
    number the head announces. */
module Messages {
  import opened Basics
  import opened Attributes

  datatype FixedHeader = FixedHeader(ack: Bit, message_id: Bits5, dup: Bit, qos: Bit)

  /** The fixed part of attribute-write and attribute-read. */
  datatype Head = Head(header: FixedHeader, reserved: Bits2, length: Bits6, task_id: Byte, object_id: Bits6,
      attr_count: Bits2)

  /** The fixed part of the acknowledgement of attribute-read, which has no task id. */
  datatype AckHead = AckHead(header: FixedHeader, ack_reserved: Bits2, return_code: Bits6, reserved: Bits2,
      length: Bits6, object_id: Bits6, attr_count: Bits2)

  datatype WriteMsg = WriteMsg(head: Head, attribute_values: seq<AttributeValue>)
  datatype ReadMsg = ReadMsg(head: Head, attributes: seq<Attribute>)
  datatype ReadAckMsg = ReadAckMsg(head: AckHead, attribute_values: seq<AttributeValue>)

  /** What parsing a buffer of a given length yields: nothing is written to the result, only
      the bytes before the payload are, the payload has no attributes, or all is there. */
  datatype Parsed<M, H> = Untouched | NoPayload(fixed: seq<Byte>) | NoAttributes(head: H) | Whole(msg: M)

  // ----- the fixed parts -----

  function PackHeader(h: FixedHeader): Byte {
    h.ack + 2 * h.message_id + 64 * h.dup + 128 * h.qos
  }

  function UnpackHeader(b: Byte): FixedHeader {
    FixedHeader(b % 2, b / 2 % 32, b / 64 % 2, b / 128)
  }

  lemma HeaderRoundTrip(h: FixedHeader, b: Byte)
    ensures UnpackHeader(PackHeader(h)) == h
    ensures PackHeader(UnpackHeader(b)) == b
  {
    UnpackOfPack(h.ack, h.message_id, h.dup, h.qos);
    PackOfUnpack(b);
  }

  lemma UnpackOfPack(ack: Bit, id: Bits5, dup: Bit, qos: Bit)
    ensures var b := ack + 2 * id + 64 * dup + 128 * qos;
            b % 2 == ack && b / 2 % 32 == id && b / 64 % 2 == dup && b / 128 == qos
  {
    var b := ack + 2 * id + 64 * dup + 128 * qos;
    assert b == 2 * (id + 32 * dup + 64 * qos) + ack;
    assert b / 2 == 32 * (dup + 2 * qos) + id;
    assert b / 64 == 2 * qos + dup;
  }

  lemma PackOfUnpack(b: Byte)
    ensures b % 2 + 2 * (b / 2 % 32) + 64 * (b / 64 % 2) + 128 * (b / 128) == b
  {
    assert b / 2 / 32 == b / 64;
    assert b / 64 / 2 == b / 128;
  }

  function Pack26(low: Bits2, high: Bits6): Byte {
    low + 4 * high
  }

  function PackHead(h: Head): seq<Byte> {
    [PackHeader(h.header), Pack26(h.reserved, h.length), h.task_id, Pack62(h.object_id, h.attr_count)]
  }

  function UnpackHead(b: seq<Byte>): Head
    requires |b| == 4
  {
    Head(UnpackHeader(b[0]), b[1] % 4, b[1] / 4, b[2], b[3] % 64, b[3] / 64)
  }

  lemma HeadRoundTrip(h: Head, b: seq<Byte>)
    requires |b| == 4
    ensures UnpackHead(PackHead(h)) == h
    ensures PackHead(UnpackHead(b)) == b
  {
    HeaderRoundTrip(h.header, b[0]);
    Pack26RoundTrip(h.reserved, h.length, b[1]);
    Pack62RoundTrip(h.object_id, h.attr_count, b[3]);
  }

  lemma Pack26RoundTrip(low: Bits2, high: Bits6, b: Byte)
    ensures Pack26(low, high) % 4 == low && Pack26(low, high) / 4 == high
    ensures Pack26(b % 4, b / 4) == b
  {
  }

  lemma Pack62RoundTrip(low: Bits6, high: Bits2, b: Byte)
    ensures Pack62(low, high) % 64 == low && Pack62(low, high) / 64 == high
    ensures Pack62(b % 64, b / 64) == b
  {
  }

  function PackAckHead(h: AckHead): seq<Byte> {
    [PackHeader(h.header), Pack26(h.ack_reserved, h.return_code), Pack26(h.reserved, h.length),
        Pack62(h.object_id, h.attr_count)]
  }

  function UnpackAckHead(b: seq<Byte>): AckHead
    requires |b| == 4
  {
    AckHead(UnpackHeader(b[0]), b[1] % 4, b[1] / 4, b[2] % 4, b[2] / 4, b[3] % 64, b[3] / 64)
  }

  lemma AckHeadRoundTrip(h: AckHead, b: seq<Byte>)
    requires |b| == 4
    ensures UnpackAckHead(PackAckHead(h)) == h
    ensures PackAckHead(UnpackAckHead(b)) == b
  {
    HeaderRoundTrip(h.header, b[0]);
    Pack26RoundTrip(h.ack_reserved, h.return_code, b[1]);
    Pack26RoundTrip(h.reserved, h.length, b[2]);
    Pack62RoundTrip(h.object_id, h.attr_count, b[3]);
  }

  // ----- the bytes on the wire -----

  /** Bit 0 is the ack flag, bits 1 to 5 the message id, bit 6 the dup flag and bit 7 the qos. */
  predicate HeaderByte(b: Byte, h: FixedHeader) {
    b % 2 == h.ack && b / 2 % 32 == h.message_id && b / 64 % 2 == h.dup && b / 128 == h.qos
  }

  predicate HeadAt(b: seq<Byte>, h: Head) {
    && |b| >= 4 && HeaderByte(b[0], h.header)
    && b[1] % 4 == h.reserved && b[1] / 4 == h.length
    && b[2] == h.task_id
    && b[3] % 64 == h.object_id && b[3] / 64 == h.attr_count
  }

  predicate AckHeadAt(b: seq<Byte>, h: AckHead) {
    && |b| >= 4 && HeaderByte(b[0], h.header)
    && b[1] % 4 == h.ack_reserved && b[1] / 4 == h.return_code
    && b[2] % 4 == h.reserved && b[2] / 4 == h.length
    && b[3] % 64 == h.object_id && b[3] / 64 == h.attr_count
  }

  lemma PackedHeadAt(h: Head, rest: seq<Byte>)
    ensures HeadAt(PackHead(h) + rest, h)
  {
    UnpackOfPack(h.header.ack, h.header.message_id, h.header.dup, h.header.qos);
  }

  lemma PackedAckHeadAt(h: AckHead, rest: seq<Byte>)
    ensures AckHeadAt(PackAckHead(h) + rest, h)
  {
    UnpackOfPack(h.header.ack, h.header.message_id, h.header.dup, h.header.qos);
  }

  /** What was parsed is there. */
  lemma UnpackedHeadAt(b: seq<Byte>)
    requires |b| >= 4
    ensures HeadAt(b, UnpackHead(b[..4])) && AckHeadAt(b, UnpackAckHead(b[..4]))
  {
  }

  // ----- attribute-write -----

  /** The list is as long as the head announces and every attribute carries its value. */
  ghost predicate SendableWrite(m: WriteMsg) {
    |m.attribute_values| == m.head.attr_count + 1 && forall a <- m.attribute_values :: HasValue(a)
  }

  ghost predicate CanonicalWrite(m: WriteMsg) {
    |m.attribute_values| == m.head.attr_count + 1 && forall a <- m.attribute_values :: Canonical(a)
  }

  ghost function EncodeWrite(m: WriteMsg): seq<Byte> {
    PackHead(m.head) + EncodeValues(m.attribute_values)
  }

  /** The message at the front of `b` and the bytes left, unless bytes run out. */
  ghost function DecodeWrite(b: seq<Byte>): Option<(WriteMsg, seq<Byte>)> {
    if |b| < 4 then None
    else
      var head := UnpackHead(b[..4]);
      match DecodeValues(b[4..], head.attr_count + 1)
      case None => None
      case Some((s, rest)) => Some((WriteMsg(head, s), rest))
  }

  lemma WriteDecodeEncoded(m: WriteMsg, rest: seq<Byte>)
    requires CanonicalWrite(m)
    ensures DecodeWrite(EncodeWrite(m) + rest) == Some((m, rest))
  {
    var b := EncodeWrite(m) + rest;
    assert b[..4] == PackHead(m.head) && b[4..] == EncodeValues(m.attribute_values) + rest;
    HeadRoundTrip(m.head, b[..4]);
    DecodeEncoded(m.attribute_values, rest);
  }

  lemma WriteEncodeDecoded(b: seq<Byte>)
    requires DecodeWrite(b).Some?
    ensures var (m, rest) := DecodeWrite(b).value; CanonicalWrite(m) && b == EncodeWrite(m) + rest
  {
    var (m, rest) := DecodeWrite(b).value;
    HeadRoundTrip(m.head, b[..4]);
    EncodeDecoded(b[4..], m.head.attr_count + 1);
    assert b == b[..4] + b[4..];
  }

  /** No encoding is a prefix of another. */
  lemma WritePrefixFree(m: WriteMsg, n: WriteMsg, rest: seq<Byte>)
    requires CanonicalWrite(m) && CanonicalWrite(n)
    requires EncodeWrite(m) + rest == EncodeWrite(n)
    ensures m == n && rest == []
  {
    WriteDecodeEncoded(m, rest);
    WriteDecodeEncoded(n, []);
    assert EncodeWrite(n) + [] == EncodeWrite(n);
  }

  /** The encoding on the wire: the four bytes of the head, then the attributes one by one. */
  lemma WriteLayout(m: WriteMsg)
    requires SendableWrite(m)
    ensures var b := EncodeWrite(m);
            && HeadAt(b, m.head) && ValuesAt(b, 4, m.attribute_values)
            && |b| == 4 + StartOf(m.attribute_values, |m.attribute_values|)
  {
    PackedHeadAt(m.head, EncodeValues(m.attribute_values));
    EncodedValuesAt(m.attribute_values, PackHead(m.head), []);
    assert EncodeWrite(m) + [] == EncodeWrite(m);
  }

  method WriteSerialize(m: WriteMsg) returns (buf: array<Byte>)
    requires SendableWrite(m)
    ensures fresh(buf) && buf[..] == EncodeWrite(m)
    ensures HeadAt(buf[..], m.head) && ValuesAt(buf[..], 4, m.attribute_values)
    ensures buf.Length == 4 + StartOf(m.attribute_values, |m.attribute_values|)
  {
    hide HeadAt, ValuesAt, StartOf, ValueAt;
    WriteLayout(m);
    buf := SerializeWithValues(PackHead(m.head)[..2], PackHead(m.head)[2..], m.attribute_values);
  }

  /** The common shape of the serializers: the bytes before the payload, the payload's own
      bytes, then the attributes, at a moving offset. */
  method SerializeWithValues(fixed: seq<Byte>, payload: seq<Byte>, values: seq<AttributeValue>)
      returns (buf: array<Byte>)
    requires |fixed| + |payload| == 4 && |values| <= 4 && forall a <- values :: HasValue(a)
    ensures fresh(buf) && buf[..] == fixed + payload + EncodeValues(values)
  {
    var count := |values|;
    assert values[..count] == values;
    var body := AttributeValuesSerializeSize(values, count);
    buf := new Byte[|fixed| + |payload| + body](_ => 0);
    ghost var zeros := buf[..];
    var sz := |fixed|;
    Memcpy(buf, 0, fixed);
    Memcpy(buf, sz, payload);
    sz := sz + |payload|;
    AttributeValuesSerialize(values, count, buf, sz);
    WrittenTwice(zeros, 0, fixed, payload);
    WrittenTwice(zeros, 0, fixed + payload, EncodeValues(values));
    WrittenAll(zeros, fixed + payload + EncodeValues(values));
  }

  /** The message is in the buffer. */
  ghost predicate WriteIn(b: seq<Byte>, m: WriteMsg) {
    HeadAt(b, m.head) && ValuesIn(b, m.attribute_values, m.head.attr_count + 1)
  }

  /** So many attributes are in the buffer behind the head, each with just its value. */
  ghost predicate ValuesIn(b: seq<Byte>, s: seq<AttributeValue>, n: nat) {
    && |s| == n && ValuesAt(b, 4, s)
    && forall a <- s :: |a.values| == WireLength(a.attribute.value_length)
  }

  lemma WriteDecodedIn(b: seq<Byte>)
    requires DecodeWrite(b).Some?
    ensures WriteIn(b, DecodeWrite(b).value.0)
  {
    UnpackedHeadAt(b);
    DecodedValuesAt(b, 4, UnpackHead(b[..4]).attr_count + 1);
  }

  /** Parses the memory `msg` of which `size` bytes were received. The source checks for the
      fixed parts and one attribute byte; that the announced attributes are there is the
      caller's part. Without room for the payload the original returns no defined pointer. */
  method WriteParse(msg: seq<Byte>, size: nat) returns (p: Parsed<WriteMsg, Head>)
    requires size <= |msg| && (size >= 5 ==> DecodeWrite(msg).Some?)
    ensures size < 2 ==> p == Untouched
    ensures 2 <= size < 4 ==> p == NoPayload(msg[..2])
    ensures size == 4 ==> p == NoAttributes(UnpackHead(msg[..4])) && HeadAt(msg, p.head)
    ensures size > 4 ==> p == Whole(DecodeWrite(msg).value.0) && WriteIn(msg, p.msg)
  {
    hide HeadAt, WriteIn, HeaderByte, UnpackHeader, DecodeValues;
    if size >= 4 {
      UnpackedHeadAt(msg);
      if size > 4 {
        WriteDecodedIn(msg);
      }
    }
    if size < 2 {
      return Untouched;
    }
    if size - 2 < 2 {
      return NoPayload(msg[..2]);
    }
    var head := UnpackHead(msg[..4]);
    var values := AttributeValuesParse(msg[4..], size - 4, head.attr_count);
    match values
    case None => p := NoAttributes(head);
    case Some(s) => p := Whole(WriteMsg(head, s));
  }

  // ----- attribute-read -----

  ghost predicate SendableRead(m: ReadMsg) {
    |m.attributes| == m.head.attr_count + 1
  }

  ghost function EncodeRead(m: ReadMsg): seq<Byte> {
    PackHead(m.head) + EncodeAttributes(m.attributes)
  }

  ghost function DecodeRead(b: seq<Byte>): Option<(ReadMsg, seq<Byte>)> {
    if |b| < 4 then None
    else
      var head := UnpackHead(b[..4]);
      var end := 4 + head.attr_count + 1;
      if |b| < end then None else Some((ReadMsg(head, DecodeAttributes(b[4..end])), b[end..]))
  }

  lemma ReadDecodeEncoded(m: ReadMsg, rest: seq<Byte>)
    requires SendableRead(m)
    ensures DecodeRead(EncodeRead(m) + rest) == Some((m, rest))
  {
    var b := EncodeRead(m) + rest;
    var end := 4 + m.head.attr_count + 1;
    assert b[..4] == PackHead(m.head) && b[4..end] == EncodeAttributes(m.attributes) && b[end..] == rest;
    HeadRoundTrip(m.head, b[..4]);
    AttributesRoundTrip(m.attributes, []);
  }

  lemma ReadEncodeDecoded(b: seq<Byte>)
    requires DecodeRead(b).Some?
    ensures var (m, rest) := DecodeRead(b).value; SendableRead(m) && b == EncodeRead(m) + rest
  {
    var (m, rest) := DecodeRead(b).value;
    var end := 4 + m.head.attr_count + 1;
    var x, y, z := b[..4], b[4..end], b[end..];
    HeadRoundTrip(m.head, x);
    AttributesRoundTrip([], y);
    assert PackHead(m.head) == x && EncodeAttributes(m.attributes) == y && rest == z;
    assert b == x + y + z;
  }

  lemma ReadPrefixFree(m: ReadMsg, n: ReadMsg, rest: seq<Byte>)
    requires SendableRead(m) && SendableRead(n)
    requires EncodeRead(m) + rest == EncodeRead(n)
    ensures m == n && rest == []
  {
    ReadDecodeEncoded(m, rest);
    ReadDecodeEncoded(n, []);
    assert EncodeRead(n) + [] == EncodeRead(n);
  }

  lemma ReadLayout(m: ReadMsg)
    ensures var b := EncodeRead(m);
            HeadAt(b, m.head) && AttributesAt(b, 4, m.attributes) && |b| == 4 + |m.attributes|
  {
    hide HeadAt, PackHeader, Pack26, Pack62, PackAttribute, AttributeByte;
    PackedHeadAt(m.head, EncodeAttributes(m.attributes));
    forall k | 0 <= k < |m.attributes| ensures AttributeByte(EncodeRead(m)[4 + k], m.attributes[k]) {
      PackedByte(m.attributes[k]);
    }
  }

  method ReadSerialize(m: ReadMsg) returns (buf: array<Byte>)
    requires SendableRead(m)
    ensures fresh(buf) && buf[..] == EncodeRead(m)
    ensures HeadAt(buf[..], m.head) && AttributesAt(buf[..], 4, m.attributes) && buf.Length == 4 + |m.attributes|
  {
    hide HeadAt, AttributesAt;
    ReadLayout(m);
    var count := m.head.attr_count + 1;
    assert m.attributes[..count] == m.attributes;
    buf := new Byte[2 + 2 + count](_ => 0);
    ghost var zeros := buf[..];
    var head := PackHead(m.head);
    Memcpy(buf, 0, head[..2]);
    Memcpy(buf, 2, head[2..]);
    AttributesSerialize(m.attributes, count, buf, 4);
    WrittenTwice(zeros, 0, head[..2], head[2..]);
    assert head[..2] + head[2..] == head;
    WrittenTwice(zeros, 0, head, EncodeAttributes(m.attributes));
    WrittenAll(zeros, EncodeRead(m));
  }

  ghost predicate ReadIn(b: seq<Byte>, m: ReadMsg) {
    HeadAt(b, m.head) && |m.attributes| == m.head.attr_count + 1 && AttributesAt(b, 4, m.attributes)
  }

  lemma ReadDecodedIn(b: seq<Byte>)
    requires DecodeRead(b).Some?
    ensures ReadIn(b, DecodeRead(b).value.0)
  {
    UnpackedHeadAt(b);
    var s := DecodeRead(b).value.0.attributes;
    forall k | 0 <= k < |s| ensures AttributeByte(b[4 + k], s[k]) {
      assert b[4..4 + |s|][k] == b[4 + k];
    }
  }

  method ReadParse(msg: seq<Byte>, size: nat) returns (p: Parsed<ReadMsg, Head>)
    requires size <= |msg| && (size >= 5 ==> DecodeRead(msg).Some?)
    ensures size < 2 ==> p == Untouched
    ensures 2 <= size < 4 ==> p == NoPayload(msg[..2])
    ensures size == 4 ==> p == NoAttributes(UnpackHead(msg[..4])) && HeadAt(msg, p.head)
    ensures size > 4 ==> p == Whole(DecodeRead(msg).value.0) && ReadIn(msg, p.msg)
  {
    hide HeadAt, ReadIn, HeaderByte, UnpackHeader;
    if size >= 4 {
      UnpackedHeadAt(msg);
      if size > 4 {
        ReadDecodedIn(msg);
      }
    }
    if size < 2 {
      return Untouched;
    }
    if size - 2 < 2 {
      return NoPayload(msg[..2]);
    }
    var head := UnpackHead(msg[..4]);
    var attributes := AttributesParse(msg[4..], size - 4, head.attr_count);
    match attributes
    case None => p := NoAttributes(head);
    case Some(s) =>
      assert msg[4..][..head.attr_count + 1] == msg[4..4 + head.attr_count + 1];
      p := Whole(ReadMsg(head, s));
  }

  // ----- acknowledgement of attribute-read -----

  ghost predicate SendableReadAck(m: ReadAckMsg) {
    |m.attribute_values| == m.head.attr_count + 1 && forall a <- m.attribute_values :: HasValue(a)
  }

  ghost predicate CanonicalReadAck(m: ReadAckMsg) {
    |m.attribute_values| == m.head.attr_count + 1 && forall a <- m.attribute_values :: Canonical(a)
  }

  ghost function EncodeReadAck(m: ReadAckMsg): seq<Byte> {
    PackAckHead(m.head) + EncodeValues(m.attribute_values)
  }

  ghost function DecodeReadAck(b: seq<Byte>): Option<(ReadAckMsg, seq<Byte>)> {
    if |b| < 4 then None
    else
      var head := UnpackAckHead(b[..4]);
      match DecodeValues(b[4..], head.attr_count + 1)
      case None => None
      case Some((s, rest)) => Some((ReadAckMsg(head, s), rest))
  }

  lemma ReadAckDecodeEncoded(m: ReadAckMsg, rest: seq<Byte>)
    requires CanonicalReadAck(m)
    ensures DecodeReadAck(EncodeReadAck(m) + rest) == Some((m, rest))
  {
    var head, values := PackAckHead(m.head), EncodeValues(m.attribute_values);
    HeadAndTail(head, values, rest);
    AckHeadRoundTrip(m.head, head);
    DecodeEncoded(m.attribute_values, rest);
  }

  lemma HeadAndTail(head: seq<Byte>, values: seq<Byte>, rest: seq<Byte>)
    requires |head| == 4
    ensures (head + values + rest)[..4] == head && (head + values + rest)[4..] == values + rest
  {
  }

  lemma ReadAckEncodeDecoded(b: seq<Byte>)
    requires DecodeReadAck(b).Some?
    ensures var (m, rest) := DecodeReadAck(b).value; CanonicalReadAck(m) && b == EncodeReadAck(m) + rest
  {
    var (m, rest) := DecodeReadAck(b).value;
    AckHeadRoundTrip(m.head, b[..4]);
    EncodeDecoded(b[4..], m.head.attr_count + 1);
    Regroup(b[..4], EncodeValues(m.attribute_values), rest);
    assert b == b[..4] + b[4..];
  }

  lemma ReadAckPrefixFree(m: ReadAckMsg, n: ReadAckMsg, rest: seq<Byte>)
    requires CanonicalReadAck(m) && CanonicalReadAck(n)
    requires EncodeReadAck(m) + rest == EncodeReadAck(n)
    ensures m == n && rest == []
  {
    ReadAckDecodeEncoded(m, rest);
    ReadAckDecodeEncoded(n, []);
    assert EncodeReadAck(n) + [] == EncodeReadAck(n);
  }

  lemma ReadAckLayout(m: ReadAckMsg)
    requires SendableReadAck(m)
    ensures var b := EncodeReadAck(m);
            && AckHeadAt(b, m.head) && ValuesAt(b, 4, m.attribute_values)
            && |b| == 4 + StartOf(m.attribute_values, |m.attribute_values|)
  {
    PackedAckHeadAt(m.head, EncodeValues(m.attribute_values));
    EncodedValuesAt(m.attribute_values, PackAckHead(m.head), []);
    assert EncodeReadAck(m) + [] == EncodeReadAck(m);
  }

  method ReadAckSerialize(m: ReadAckMsg) returns (buf: array<Byte>)
    requires SendableReadAck(m)
    ensures fresh(buf) && buf[..] == EncodeReadAck(m)
    ensures AckHeadAt(buf[..], m.head) && ValuesAt(buf[..], 4, m.attribute_values)
    ensures buf.Length == 4 + StartOf(m.attribute_values, |m.attribute_values|)
  {
    hide AckHeadAt, ValuesAt, StartOf, ValueAt;
    ReadAckLayout(m);
    buf := SerializeWithValues(PackAckHead(m.head)[..3], PackAckHead(m.head)[3..], m.attribute_values);
  }

  ghost predicate ReadAckIn(b: seq<Byte>, m: ReadAckMsg) {
    AckHeadAt(b, m.head) && ValuesIn(b, m.attribute_values, m.head.attr_count + 1)
  }

  lemma ReadAckDecodedIn(b: seq<Byte>)
    requires DecodeReadAck(b).Some?
    ensures ReadAckIn(b, DecodeReadAck(b).value.0)
  {
    UnpackedHeadAt(b);
    DecodedValuesAt(b, 4, UnpackAckHead(b[..4]).attr_count + 1);
  }

  method ReadAckParse(msg: seq<Byte>, size: nat) returns (p: Parsed<ReadAckMsg, AckHead>)
    requires size <= |msg| && (size >= 5 ==> DecodeReadAck(msg).Some?)
    ensures size < 3 ==> p == Untouched
    ensures size == 3 ==> p == NoPayload(msg[..3])
    ensures size == 4 ==> p == NoAttributes(UnpackAckHead(msg[..4])) && AckHeadAt(msg, p.head)
    ensures size > 4 ==> p == Whole(DecodeReadAck(msg).value.0) && ReadAckIn(msg, p.msg)
  {
    hide AckHeadAt, ReadAckIn, HeaderByte, UnpackHeader, DecodeValues;
    if size >= 4 {
      UnpackedHeadAt(msg);
      if size > 4 {
        ReadAckDecodedIn(msg);
      }
    }
    if size < 3 {
      return Untouched;
    }
    if size - 3 < 1 {
      return NoPayload(msg[..3]);
    }
    var head := UnpackAckHead(msg[..4]);
    var values := AttributeValuesParse(msg[4..], size - 4, head.attr_count);
    match values
    case None => p := NoAttributes(head);
    case Some(s) => p := Whole(ReadAckMsg(head, s));
  }
}
