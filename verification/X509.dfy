/** x509.go: the recursive reader of certificate-like structures. */
module X509 {
  import opened Bytes
  import opened Wrappers
  import opened Tlv

  /** asn1.TLV as the reader fills it. */
  datatype Node = Node(tag: nat, cls: nat, constructed: bool, length: nat, value: bytes, children: seq<Node>)

  datatype Parsed = Parsed(node: Node, size: nat)

  /** What the reader returns for the front of `b`. */
  function Parse(b: bytes): (r: Result<Parsed, Error>)
    ensures r.Success? ==> 2 <= r.value.size <= |b|
    decreases |b|, 0
  {
    var h :- ReadHeader(b);
    if |b| < h.offset + h.length then Failure(ShortInput)
    else
      var val := b[h.offset..h.offset + h.length];
      var children :- if h.tag.constructed then ParseAll(val) else Success([]);
      Success(Parsed(Node(h.tag.number, h.tag.cls, h.tag.constructed, h.length, val, children), h.offset + h.length))
  }

  /** Reads elements until `val` is used up. */
  function ParseAll(val: bytes): Result<seq<Node>, Error>
    decreases |val|, 1
  {
    if val == [] then Success([])
    else
      var first :- Parse(val);
      var others :- ParseAll(val[first.size..]);
      Success([first.node] + others)
  }

  // ----- parseX509 -----

  /** The length octets, most significant first. */
  method ReadLongLength(b: bytes, n: nat) returns (length: nat)
    requires 2 + n <= |b|
    ensures length == FromBigEndian(b[2..2 + n])
  {
    length := 0;
    for i := 0 to n
      invariant length == FromBigEndian(b[2..2 + i])
    {
      assert b[2..2 + i + 1][..|b[2..2 + i + 1]| - 1] == b[2..2 + i];
      length := length * 256 + b[2 + i];
    }
  }

  method ParseX509(b: bytes) returns (r: Result<Parsed, Error>)
    ensures r == Parse(b)
    decreases |b|, 0
  {
    hide ParseAll;
    if |b| < 2 {
      return Failure(ShortInput);
    }
    var tag := ReadTag(b[0]);
    if tag.number == 31 {
      return Failure(HighTag);
    }
    var l := b[1];
    var length, offset;
    if l < 128 {
      length, offset := l, 2;
    } else {
      var n := l - 128;
      if n == 0 || n > 4 {
        return Failure(BadLength);
      }
      if |b| < 2 + n {
        return Failure(ShortInput);
      }
      length := ReadLongLength(b, n);
      offset := 2 + n;
    }
    if |b| < offset + length {
      return Failure(ShortInput);
    }
    var val := b[offset..offset + length];
    var children: seq<Node> := [];
    if tag.constructed {
      var cs := ParseChildren(val);
      if cs.Failure? {
        return Failure(cs.error);
      }
      children := cs.value;
    }
    return Success(Parsed(Node(tag.number, tag.cls, tag.constructed, length, val, children), offset + length));
  }

  /** The loop over the children of a constructed element. */
  method ParseChildren(val: bytes) returns (r: Result<seq<Node>, Error>)
    ensures r == ParseAll(val)
    decreases |val|, 1
  {
    hide Parse;
    var children: seq<Node> := [];
    var consumed := 0;
    assert val[consumed..] == val;
    PrependNothing(ParseAll(val));
    while consumed < |val|
      invariant 0 <= consumed <= |val|
      invariant ParseAll(val) == Prepend(children, ParseAll(val[consumed..]))
    {
      var rest := val[consumed..];
      var c := ParseX509(rest);
      if c.Failure? {
        return Failure(c.error);
      }
      assert rest[c.value.size..] == val[consumed + c.value.size..];
      PrependTwice(children, [c.value.node], ParseAll(rest[c.value.size..]));
      children := children + [c.value.node];
      consumed := consumed + c.value.size;
    }
    assert val[consumed..] == [] && children + [] == children;
    return Success(children);
  }

  // ----- the encoder it inverts -----

  /** A tree as section 8.1 of X.690 describes it, before encoding. */
  datatype Der =
    | Primitive(cls: nat, number: nat, value: bytes)
    | Constructed(cls: nat, number: nat, children: seq<Der>)

  function Contents(d: Der): bytes
    decreases d, 0
  {
    if d.Primitive? then d.value else EncodeAll(d.children)
  }

  predicate Encodable(d: Der) {
    && d.cls < 4 && d.number < 31
    && (d.Constructed? ==> forall c :: c in d.children ==> Encodable(c))
    && (d.Constructed? ==> |EncodeAll(d.children)| < MAX_LENGTH)
    && (d.Primitive? ==> |d.value| < MAX_LENGTH)
  }

  function Encode(d: Der): (b: bytes)
    ensures b != []
    decreases d, 1
  {
    if d.cls < 4 && d.number < 31 then Write(Tag(d.cls, d.Constructed?, d.number), Contents(d)) else [0]
  }

  function EncodeAll(ds: seq<Der>): bytes {
    if ds == [] then [] else Encode(ds[0]) + EncodeAll(ds[1..])
  }

  function Tree(d: Der): Node {
    var children := if d.Primitive? then [] else Trees(d.children);
    Node(d.number, d.cls, d.Constructed?, |Contents(d)|, Contents(d), children)
  }

  function Trees(ds: seq<Der>): seq<Node> {
    if ds == [] then [] else [Tree(ds[0])] + Trees(ds[1..])
  }

  /** Reading inverts encoding, whatever follows. */
  lemma {:induction false} ParseInvertsEncode(d: Der, rest: bytes)
    requires Encodable(d)
    ensures Parse(Encode(d) + rest) == Success(Parsed(Tree(d), |Encode(d)|))
    decreases d, 0
  {
    var t, p := Tag(d.cls, d.Constructed?, d.number), Contents(d);
    assert Encode(d) + rest == [WriteTag(t)] + WriteLength(|p|) + (p + rest);
    HeaderRoundTrip(t, |p|, p + rest);
    var o := 1 + |WriteLength(|p|)|;
    assert (Encode(d) + rest)[o..o + |p|] == p;
    if d.Constructed? {
      ParseAllInvertsEncodeAll(d.children);
    }
  }

  lemma {:induction false} ParseAllInvertsEncodeAll(ds: seq<Der>)
    requires forall c :: c in ds ==> Encodable(c)
    ensures ParseAll(EncodeAll(ds)) == Success(Trees(ds))
    decreases ds, 1
  {
    if ds != [] {
      var rest := EncodeAll(ds[1..]);
      ParseInvertsEncode(ds[0], rest);
      assert (Encode(ds[0]) + rest)[|Encode(ds[0])|..] == rest;
      ParseAllInvertsEncodeAll(ds[1..]);
    }
  }

  // ----- what every successful read says about its input -----

  /** Only the reported octets are looked at. */
  lemma OnlyConsumedOctetsMatter(b: bytes, other: bytes)
    requires Parse(b).Success?
    ensures var n := Parse(b).value.size;
            Parse(b[..n] + other) == Parse(b)
  {
    var n, h := Parse(b).value.size, ReadHeader(b).value;
    var c := b[..n] + other;
    assert c[0] == b[0] && c[1] == b[1];
    if b[1] >= 128 {
      assert c[2..h.offset] == b[2..h.offset];
    }
    assert c[h.offset..n] == b[h.offset..n];
  }

  /** `val[lo..hi]` is one element, namely `child`. */
  ghost predicate IsPiece(val: bytes, lo: nat, hi: nat, child: Node) {
    lo < hi <= |val| && Parse(val[lo..hi]) == Success(Parsed(child, hi - lo))
  }

  /** The pieces between consecutive cuts are the encodings of the children, and nothing is left over. */
  ghost predicate Tiles(val: bytes, children: seq<Node>, cuts: seq<nat>) {
    && |cuts| == |children| + 1
    && cuts[0] == 0 && cuts[|children|] == |val|
    && forall i :: 0 <= i < |children| ==> IsPiece(val, cuts[i], cuts[i + 1], children[i])
  }

  lemma PieceInSuffix(val: bytes, k: nat, lo: nat, hi: nat, child: Node)
    requires k <= |val| && IsPiece(val[k..], lo, hi, child)
    ensures IsPiece(val, k + lo, k + hi, child)
  {
    assert val[k..][lo..hi] == val[k + lo..k + hi];
  }

  /** The first element and the ones after it. */
  lemma ParseAllFields(val: bytes) returns (p: Parsed, others: seq<Node>)
    requires val != [] && ParseAll(val).Success?
    ensures Parse(val) == Success(p) && 2 <= p.size <= |val|
    ensures ParseAll(val[p.size..]) == Success(others)
    ensures ParseAll(val).value == [p.node] + others
    ensures AllDer(val) <==> IsDer(val) && AllDer(val[p.size..])
    ensures StripAll(ParseAll(val).value) == [Strip(p.node)] + StripAll(others)
  {
    p := Parse(val).value;
    others := ParseAll(val[p.size..]).value;
    assert ([p.node] + others)[1..] == others;
  }

  lemma TilesCons(val: bytes, k: nat, child: Node, others: seq<Node>, tail: seq<nat>) returns (cuts: seq<nat>)
    requires k <= |val| && IsPiece(val, 0, k, child) && Tiles(val[k..], others, tail)
    ensures Tiles(val, [child] + others, cuts)
  {
    hide IsPiece;
    var children := [child] + others;
    cuts := [0] + seq(|tail|, i requires 0 <= i < |tail| => k + tail[i]);
    forall i | 0 <= i < |children| ensures IsPiece(val, cuts[i], cuts[i + 1], children[i]) {
      if i > 0 {
        assert children[i] == others[i - 1] && cuts[i] == k + tail[i - 1] && cuts[i + 1] == k + tail[i];
        assert IsPiece(val[k..], tail[i - 1], tail[i - 1 + 1], others[i - 1]);
        PieceInSuffix(val, k, tail[i - 1], tail[i], others[i - 1]);
      }
    }
  }

  lemma {:induction false} ChildrenTileValue(val: bytes) returns (cuts: seq<nat>)
    requires ParseAll(val).Success?
    ensures Tiles(val, ParseAll(val).value, cuts)
    decreases |val|
  {
    if val == [] {
      cuts := [0];
    } else {
      hide Parse, ParseAll, Tiles, IsDer, AllDer;
      var p, others := ParseAllFields(val);
      var k := p.size;
      OnlyConsumedOctetsMatter(val, []);
      assert val[..k] + [] == val[0..k];
      var tail := ChildrenTileValue(val[k..]);
      cuts := TilesCons(val, k, p.node, others, tail);
    }
  }

  /** A constructed element is exactly the sequence of its children. */
  lemma ConstructedValueIsTiled(b: bytes) returns (cuts: seq<nat>)
    requires Parse(b).Success? && Parse(b).value.node.constructed
    ensures var p := Parse(b).value;
            && p.node.value == b[p.size - p.node.length..p.size]
            && Tiles(p.node.value, p.node.children, cuts)
  {
    cuts := ChildrenTileValue(Parse(b).value.node.value);
  }

  // ----- when re-encoding gives the input back -----

  function Strip(n: Node): Der {
    if n.constructed then Constructed(n.cls, n.tag, StripAll(n.children)) else Primitive(n.cls, n.tag, n.value)
  }

  function StripAll(ns: seq<Node>): seq<Der> {
    if ns == [] then [] else [Strip(ns[0])] + StripAll(ns[1..])
  }

  /** Every length field, at every depth, is in its shortest form. */
  predicate IsDer(b: bytes)
    requires Parse(b).Success?
    decreases |b|, 0
  {
    var h := ReadHeader(b).value;
    && h.offset == 1 + |WriteLength(h.length)|
    && (h.tag.constructed ==> AllDer(b[h.offset..h.offset + h.length]))
  }

  predicate AllDer(val: bytes)
    requires ParseAll(val).Success?
    decreases |val|, 1
  {
    val != [] ==> IsDer(val) && AllDer(val[Parse(val).value.size..])
  }

  lemma {:induction false} SameValueSameOctets(x: bytes, y: bytes)
    requires |x| == |y| && FromBigEndian(x) == FromBigEndian(y)
    ensures x == y
    decreases |x|
  {
    if x != [] {
      var x', y' := x[..|x| - 1], y[..|y| - 1];
      SameValueSameOctets(x', y');
      assert x == x' + [x[|x| - 1]] && y == y' + [y[|y| - 1]];
    }
  }

  lemma {:induction false} FromBigEndianBound(b: bytes)
    ensures |b| == 1 ==> FromBigEndian(b) < 0x100
    ensures |b| == 2 ==> FromBigEndian(b) < 0x1_0000
    ensures |b| == 3 ==> FromBigEndian(b) < 0x100_0000
    ensures |b| == 4 ==> FromBigEndian(b) < MAX_LENGTH
    decreases |b|
  {
    if b != [] {
      FromBigEndianBound(b[..|b| - 1]);
    }
  }

  /** No accepted header is shorter than the one DER prescribes, and the shortest one is unique. */
  lemma ShortestHeader(b: bytes)
    requires ReadHeader(b).Success?
    ensures var h := ReadHeader(b).value;
            && h.length < MAX_LENGTH
            && 1 + |WriteLength(h.length)| <= h.offset
            && (1 + |WriteLength(h.length)| == h.offset ==> b[..h.offset] == [WriteTag(h.tag)] + WriteLength(h.length))
  {
    var h := ReadHeader(b).value;
    TagRoundTripBack(b[0]);
    hide WriteTag, ReadTag, BigEndian, FromBigEndian;
    if b[1] < 128 {
      assert b[..2] == [b[0], b[1]];
    } else {
      var octets := b[2..h.offset];
      FromBigEndianBound(octets);
      BigEndianSize(h.length);
      BigEndianRoundTrip(h.length);
      if h.length >= 128 && |BigEndian(h.length)| == |octets| {
        SameValueSameOctets(octets, BigEndian(h.length));
        assert b[..h.offset] == [b[0], b[1]] + octets;
      }
    }
  }

  lemma WriteLengthMonotone(m: nat, n: nat)
    requires m <= n < MAX_LENGTH
    ensures |WriteLength(m)| <= |WriteLength(n)|
  {
    BigEndianSize(m);
    BigEndianSize(n);
  }

  /** Re-encoding what was read returns the octets read exactly when they are DER, and fewer octets otherwise. */
  lemma {:induction false} EncodeInvertsParseOnDer(b: bytes)
    requires Parse(b).Success?
    ensures var p := Parse(b).value;
            && (IsDer(b) ==> Encode(Strip(p.node)) == b[..p.size])
            && (!IsDer(b) ==> |Encode(Strip(p.node))| < p.size)
    decreases |b|, 0
  {
    hide Parse, WriteLength;
    var p, h := ParseFields(b);
    var val := b[h.offset..p.size];
    ShortestHeader(b);
    var d := Strip(p.node);
    if h.tag.constructed {
      EncodeAllInvertsParseAll(val);
    }
    assert Contents(d) == if h.tag.constructed then EncodeAll(StripAll(p.node.children)) else val;
    assert |Contents(d)| <= h.length;
    WriteLengthMonotone(|Contents(d)|, h.length);
    assert |Encode(d)| == 1 + |WriteLength(|Contents(d)|)| + |Contents(d)|;
    if IsDer(b) {
      assert Contents(d) == val;
      assert b[..p.size] == b[..h.offset] + val;
    }
  }

  lemma ParseFields(b: bytes) returns (p: Parsed, h: Header)
    requires Parse(b).Success?
    ensures p == Parse(b).value && ReadHeader(b) == Success(h)
    ensures p.size == h.offset + h.length <= |b|
    ensures p.node == Node(h.tag.number, h.tag.cls, h.tag.constructed, h.length, b[h.offset..p.size], p.node.children)
    ensures h.tag.constructed ==> ParseAll(b[h.offset..p.size]) == Success(p.node.children)
    ensures IsDer(b) <==> h.offset == 1 + |WriteLength(h.length)|
                          && (h.tag.constructed ==> AllDer(b[h.offset..p.size]))
  {
    hide WriteLength, FromBigEndian, ParseAll, AllDer;
    p, h := Parse(b).value, ReadHeader(b).value;
  }

  lemma {:induction false} EncodeAllInvertsParseAll(val: bytes)
    requires ParseAll(val).Success?
    ensures var ds := StripAll(ParseAll(val).value);
            && (AllDer(val) ==> EncodeAll(ds) == val)
            && (!AllDer(val) ==> |EncodeAll(ds)| < |val|)
    decreases |val|, 1
  {
    if val != [] {
      hide *;
      var p, others := ParseAllFields(val);
      EncodeInvertsParseOnDer(val);
      EncodeAllInvertsParseAll(val[p.size..]);
      assert val == val[..p.size] + val[p.size..];
      EncodeAllCons(Strip(p.node), StripAll(others));
    } else {
      NothingToEncode();
    }
  }

  lemma NothingToEncode()
    ensures ParseAll([]) == Success([]) && EncodeAll(StripAll([])) == [] && AllDer([])
  {
  }

  lemma EncodeAllCons(d: Der, ds: seq<Der>)
    ensures EncodeAll([d] + ds) == Encode(d) + EncodeAll(ds)
  {
    assert ([d] + ds)[1..] == ds;
  }
}
