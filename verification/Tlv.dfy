/**
  Tag, length, value: the definite-length forms of section 8.1 of ITU-T X.690 with low tag numbers.
  The helpers aliased at asn1.go:44-56 have no body in the repository; this is the part of them the
  codecs rely on.  The length arithmetic is that of x509.go:30-50.
 */
module Tlv {
  import opened Bytes
  import opened Wrappers

  datatype Error = ShortInput | HighTag | BadLength | UnexpectedTag

  const UNIVERSAL := 0
  const CONTEXT := 2

  // universal tag numbers (asn1.go:25-40)
  const TAG_INTEGER := 2
  const TAG_BIT_STRING := 3
  const TAG_OCTET_STRING := 4
  const TAG_UTF8_STRING := 12
  const TAG_UNIVERSAL_STRING := 28

  /** First length the four-octet long form cannot express. */
  const MAX_LENGTH := 0x1_0000_0000

  datatype Tag = Tag(cls: nat, constructed: bool, number: nat) {
    predicate Valid() { cls < 4 && number < 31 }
  }

  datatype Element = Element(tag: Tag, payload: bytes, size: nat)

  datatype Header = Header(tag: Tag, length: nat, offset: nat)

  // ----- lengths -----

  /** Shortest big-endian form. */
  function BigEndian(n: nat): (b: bytes)
    ensures |b| > 0
  {
    if n < 256 then [n] else BigEndian(n / 256) + [n % 256]
  }

  function FromBigEndian(b: bytes): nat {
    if b == [] then 0 else FromBigEndian(b[..|b| - 1]) * 256 + b[|b| - 1]
  }

  lemma {:induction false} BigEndianRoundTrip(n: nat)
    ensures FromBigEndian(BigEndian(n)) == n
  {
    if n >= 256 {
      BigEndianRoundTrip(n / 256);
      assert BigEndian(n)[..|BigEndian(n)| - 1] == BigEndian(n / 256);
    } else {
      assert [n][..0] == [];
    }
  }

  lemma {:induction false} BigEndianSize(n: nat)
    requires n < MAX_LENGTH
    ensures |BigEndian(n)| <= 4
    ensures |BigEndian(n)| == 1 <==> n < 0x100
    ensures |BigEndian(n)| <= 2 <==> n < 0x1_0000
    ensures |BigEndian(n)| <= 3 <==> n < 0x100_0000
  {
    if n >= 256 {
      BigEndianSize(n / 256);
    }
  }

  /** Length octets in the shortest form, as DER wants them. */
  function WriteLength(n: nat): (b: bytes)
    ensures n < 128 ==> |b| == 1
    ensures |b| >= 1
  {
    if n < 128 then [n] else [(128 + |BigEndian(n)|) % 256] + BigEndian(n)
  }

  /** Length and number of length octets; no octets at all stands for an unusable length. */
  function ReadLength(b: bytes): (r: (nat, nat))
    ensures r.1 <= |b| && r.1 <= 5
    ensures r.1 == 0 ==> r.0 == 0
  {
    if b == [] then (0, 0)
    else if b[0] < 128 then (b[0], 1)
    else
      var n := b[0] - 128;
      if n == 0 || n > 4 || |b| < 1 + n then (0, 0)
      else (FromBigEndian(b[1..1 + n]), 1 + n)
  }

  lemma LengthRoundTrip(n: nat, rest: bytes)
    requires n < MAX_LENGTH
    ensures ReadLength(WriteLength(n) + rest) == (n, |WriteLength(n)|)
  {
    if n >= 128 {
      var b := BigEndian(n);
      BigEndianSize(n);
      BigEndianRoundTrip(n);
      assert (WriteLength(n) + rest)[1..1 + |b|] == b;
    }
  }

  // ----- whole elements -----

  function WriteTag(t: Tag): byte
    requires t.Valid()
  {
    t.cls * 64 + (if t.constructed then 32 else 0) + t.number
  }

  function ReadTag(b: byte): (t: Tag)
    ensures t.cls < 4 && t.number < 32
  {
    Tag(b / 64, b / 32 % 2 == 1, b % 32)
  }

  lemma TagRoundTrip(t: Tag)
    requires t.Valid()
    ensures ReadTag(WriteTag(t)) == t
  {
  }

  lemma TagRoundTripBack(b: byte)
    requires ReadTag(b).Valid()
    ensures WriteTag(ReadTag(b)) == b
  {
  }

  function ReadHeader(b: bytes): (r: Result<Header, Error>)
    ensures r.Success? ==> 2 <= r.value.offset <= |b| && r.value.tag.Valid()
    ensures r.Success? ==> r.value.tag == ReadTag(b[0])
  {
    if |b| < 2 then Failure(ShortInput)
    else
      var t := ReadTag(b[0]);
      if t.number == 31 then Failure(HighTag)
      else if b[1] < 128 then Success(Header(t, b[1], 2))
      else
        var n := b[1] - 128;
        if n == 0 || n > 4 then Failure(BadLength)
        else if |b| < 2 + n then Failure(ShortInput)
        else Success(Header(t, FromBigEndian(b[2..2 + n]), 2 + n))
  }

  /** The element at the front of `b`. */
  function Read(b: bytes): (r: Result<Element, Error>)
    ensures r.Success? ==> 2 <= r.value.size <= |b| && |r.value.payload| + 2 <= r.value.size
    ensures r.Success? ==> r.value.tag.Valid()
    ensures r.Success? ==> HasSuffix(b[..r.value.size], r.value.payload)
  {
    var h :- ReadHeader(b);
    if |b| < h.offset + h.length then Failure(ShortInput)
    else Success(Element(h.tag, b[h.offset..h.offset + h.length], h.offset + h.length))
  }

  function Write(t: Tag, payload: bytes): (b: bytes)
    requires t.Valid()
    ensures |b| >= |payload| + 2
  {
    [WriteTag(t)] + WriteLength(|payload|) + payload
  }

  lemma HeaderRoundTrip(t: Tag, n: nat, rest: bytes)
    requires t.Valid() && n < MAX_LENGTH
    ensures ReadHeader([WriteTag(t)] + WriteLength(n) + rest) == Success(Header(t, n, 1 + |WriteLength(n)|))
  {
    var b := [WriteTag(t)] + WriteLength(n) + rest;
    LengthRoundTrip(n, rest);
    TagRoundTrip(t);
    assert b[0] == WriteTag(t) && b[1] == WriteLength(n)[0];
    if n >= 128 {
      BigEndianSize(n);
      BigEndianRoundTrip(n);
      assert b[2..2 + |BigEndian(n)|] == BigEndian(n);
    }
  }

  /** What was written is read back, and nothing after it is looked at. */
  lemma ElementRoundTrip(t: Tag, payload: bytes, rest: bytes)
    requires t.Valid() && |payload| < MAX_LENGTH
    ensures Read(Write(t, payload) + rest) == Success(Element(t, payload, |Write(t, payload)|))
  {
    var b := Write(t, payload) + rest;
    assert b == [WriteTag(t)] + WriteLength(|payload|) + (payload + rest);
    HeaderRoundTrip(t, |payload|, payload + rest);
    var o := 1 + |WriteLength(|payload|)|;
    assert b[o..o + |payload|] == payload;
  }

  /** readECTLV, readEPTLV and unwrapTLV: the element must carry the expected tag. */
  function ReadExpected(b: bytes, t: Tag): (r: Result<Element, Error>)
    ensures r.Success? ==> Read(b) == r && r.value.tag == t
  {
    var e :- Read(b);
    if e.tag == t then Success(e) else Failure(UnexpectedTag)
  }

  lemma ExpectedRoundTrip(t: Tag, payload: bytes, rest: bytes)
    requires t.Valid() && |payload| < MAX_LENGTH
    ensures ReadExpected(Write(t, payload) + rest, t) == Success(Element(t, payload, |Write(t, payload)|))
  {
    ElementRoundTrip(t, payload, rest);
  }

  // ----- literal octets -----

  /** Short elements of the universal class, primitive, and of the context class, primitive and constructed. */
  lemma ShortElement(n: nat, payload: bytes)
    requires n < 31 && |payload| < 128
    ensures Write(Tag(UNIVERSAL, false, n), payload) == [n, |payload|] + payload
    ensures Write(Tag(CONTEXT, false, n), payload) == [0x80 + n, |payload|] + payload
    ensures Write(Tag(CONTEXT, true, n), payload) == [0xA0 + n, |payload|] + payload
  {
  }

  /** The identifier octets of INTEGER, BIT STRING, OCTET STRING, UTF8String and UniversalString. */
  lemma UniversalTags(payload: bytes)
    requires |payload| < 128
    ensures Write(Tag(UNIVERSAL, false, TAG_INTEGER), payload) == [0x02, |payload|] + payload
    ensures Write(Tag(UNIVERSAL, false, TAG_BIT_STRING), payload) == [0x03, |payload|] + payload
    ensures Write(Tag(UNIVERSAL, false, TAG_OCTET_STRING), payload) == [0x04, |payload|] + payload
    ensures Write(Tag(UNIVERSAL, false, TAG_UTF8_STRING), payload) == [0x0C, |payload|] + payload
    ensures Write(Tag(UNIVERSAL, false, TAG_UNIVERSAL_STRING), payload) == [0x1C, |payload|] + payload
  {
    ShortElement(0, payload);
  }

  /** 128 octets need 81 80, 256 need 82 01 00; a length in longer form than needed is read all the same. */
  lemma LengthOctets()
    ensures WriteLength(127) == [0x7F] && WriteLength(128) == [0x81, 0x80] && WriteLength(256) == [0x82, 0x01, 0x00]
    ensures ReadLength([0x7F]) == (127, 1) && ReadLength([0x81, 0x05]) == (5, 2)
    ensures ReadLength([0x80]) == (0, 0) && ReadLength([0x85, 0, 0, 0, 0, 1]) == (0, 0)
    ensures ReadLength([0x84, 1, 2, 3, 4]) == (0x0102_0304, 5)
  {
    assert [0x81, 0x05][1..2] == [0x05] && [0x05][..0] == [];
    var b: bytes := [1, 2, 3, 4];
    assert [0x84, 1, 2, 3, 4][1..5] == b;
    assert b[..3] == [1, 2, 3] && [1, 2, 3][..2] == [1, 2] && [1, 2][..1] == [1] && [1][..0] == [];
    assert FromBigEndian([1]) == 1 && FromBigEndian([1, 2]) == 0x0102 && FromBigEndian([1, 2, 3]) == 0x01_0203;
    assert BigEndian(128) == [128] && BigEndian(256) == BigEndian(1) + [0] == [1, 0];
  }
}
