/**
  subtree_asn1.go: the DER codec of subtree specifications and their refinements, over the TLV model of section
  8.1 of ITU-T X.690.
 */
module SubtreeDer {
  import opened Bytes
  import opened Wrappers
  import opened Tlv
  import opened Refinements

  datatype Error = Malformed | UnknownTag | BadText | UnknownRefinement

  // ----- elements -----

  const UTF8_TAG := Tag(UNIVERSAL, false, TAG_UTF8_STRING)
  const INTEGER_TAG := Tag(UNIVERSAL, false, TAG_INTEGER)

  function ContextTag(n: nat): Tag { Tag(CONTEXT, true, n) }

  /** asn1.WriteConstructedTLV for a context-specific tag. */
  function Context(n: nat, payload: bytes): (b: bytes)
    requires n < 31
    ensures |b| >= |payload| + 2
  {
    Write(ContextTag(n), payload)
  }

  function Utf8Text(x: bytes): (b: bytes)
    ensures |b| >= |x| + 2
  {
    Write(UTF8_TAG, x)
  }

  /** asn1.ReadConstructedTLV, which takes primitive elements too: FilterDecode relies on it. */
  function ReadElement(b: bytes): (r: Result<Element, Error>)
    ensures r.Success? ==> Read(b) == Success(r.value)
  {
    var e := Read(b);
    if e.Success? then Success(e.value) else Failure(Malformed)
  }

  lemma ContextRoundTrip(n: nat, payload: bytes, rest: bytes)
    requires n < 31 && |payload| < MAX_LENGTH
    ensures ReadElement(Context(n, payload) + rest)
         == Success(Element(ContextTag(n), payload, |Context(n, payload)|))
    ensures (Context(n, payload) + rest)[|Context(n, payload)|..] == rest
  {
    ElementRoundTrip(ContextTag(n), payload, rest);
  }

  /** UTF8String.Decode: at least three octets, and nothing behind the value is looked at. */
  function ReadText(enc: bytes): Result<bytes, Error> {
    if |enc| < 3 || enc[0] != TAG_UTF8_STRING then Failure(BadText)
    else
      var (l, n) := ReadLength(enc[1..]);
      if n == 0 || |enc| < 1 + n + l then Failure(BadText) else Success(enc[1 + n..1 + n + l])
  }

  /** Only the empty text is not read back. */
  lemma TextRoundTrip(x: bytes)
    requires |x| < MAX_LENGTH
    ensures x != [] ==> ReadText(Utf8Text(x)) == Success(x)
    ensures x == [] ==> ReadText(Utf8Text(x)).Failure?
  {
    hide WriteLength, ReadLength;
    var b := Utf8Text(x);
    LengthRoundTrip(|x|, x);
    assert b[1..] == WriteLength(|x|) + x;
    assert b[0] == TAG_UTF8_STRING;
    var n := |WriteLength(|x|)|;
    assert b[1 + n..1 + n + |x|] == x;
  }

  // ----- INTEGER (section 8.3 of ITU-T X.690) -----

  /** Shortest two's complement. */
  function TwosComplement(n: int): (b: bytes)
    ensures |b| > 0
    decreases if n < 0 then -n else n
  {
    if -128 <= n < 128 then [n % 256] else TwosComplement(n / 256) + [n % 256]
  }

  function FromTwosComplement(b: bytes): int
    requires b != []
  {
    if |b| == 1 then (if b[0] < 128 then b[0] as int else b[0] as int - 256)
    else FromTwosComplement(b[..|b| - 1]) * 256 + b[|b| - 1]
  }

  lemma {:induction false} TwosComplementRoundTrip(n: int)
    ensures FromTwosComplement(TwosComplement(n)) == n
    decreases if n < 0 then -n else n
  {
    if !(-128 <= n < 128) {
      TwosComplementRoundTrip(n / 256);
      var b := TwosComplement(n);
      assert b[..|b| - 1] == TwosComplement(n / 256);
    }
  }

  function Half(octets: nat): int
    requires octets > 0
  {
    if octets == 1 then 128 else 256 * Half(octets - 1)
  }

  lemma {:induction false} TwosComplementSize(n: int, octets: nat)
    requires octets > 0 && -Half(octets) <= n < Half(octets)
    ensures |TwosComplement(n)| <= octets
    decreases octets
  {
    if !(-128 <= n < 128) {
      TwosComplementSize(n / 256, octets - 1);
    }
  }

  const MIN_INT64 := -0x8000_0000_0000_0000
  const MAX_INT64 := 0x7FFF_FFFF_FFFF_FFFF

  predicate IsInt64(n: int) { MIN_INT64 <= n <= MAX_INT64 }

  lemma Int64Size(n: int)
    requires IsInt64(n)
    ensures |TwosComplement(n)| <= 8
  {
    assert Half(2) == 256 * 128 && Half(3) == 256 * Half(2) && Half(4) == 256 * Half(3);
    assert Half(5) == 256 * Half(4) && Half(6) == 256 * Half(5) && Half(7) == 256 * Half(6);
    assert Half(8) == 256 * Half(7);
    TwosComplementSize(n, 8);
  }

  /** asn1.EncodeInteger. */
  function IntegerText(n: int): bytes { Write(INTEGER_TAG, TwosComplement(n)) }

  /**
    Integer.Decode and Integer.Native, with errors disregarded as decodeChop does: anything that is no INTEGER of
    at most eight octets leaves zero.
   */
  function ReadNative(enc: bytes): int {
    if |enc| < 2 || enc[0] != TAG_INTEGER || |enc| > 10 then 0
    else
      var e := Read(enc);
      if e.Failure? || e.value.payload == [] || |e.value.payload| > 8 then 0
      else FromTwosComplement(e.value.payload)
  }

  /** Anything else, and anything of more than ten octets, leaves zero. */
  lemma NoNative(enc: bytes)
    requires |enc| > 10 || enc == [] || enc[0] != 0x02 || Read(enc).Failure?
    ensures ReadNative(enc) == 0
  {
  }

  lemma NativeRoundTrip(n: int)
    requires IsInt64(n)
    ensures ReadNative(IntegerText(n)) == n
    ensures |IntegerText(n)| <= 10
  {
    hide TwosComplement, FromTwosComplement;
    Int64Size(n);
    TwosComplementRoundTrip(n);
    var b := IntegerText(n);
    ElementRoundTrip(INTEGER_TAG, TwosComplement(n), []);
    assert b + [] == b;
    assert b[0] == TAG_INTEGER;
  }

  // ----- refinements -----

  /** The context tag numbers of the alternatives (the `Tag` methods of subtree.go). */
  function TagNumber(r: Refinement): nat
    requires !r.Invalid? && !r.Nil?
  {
    match r
    case And(_) => 0
    case Or(_) => 1
    case Not(_) => 2
    case Item(_) => 3
  }

  function Payload(r: Refinement): Result<bytes, Error>
    requires !r.Invalid? && !r.Nil?
    decreases r, 0
  {
    match r
    case And(refs) => EncodeAll(refs)
    case Or(refs) => EncodeAll(refs)
    case Not(ref) => Encode(ref)
    case Item(oid) => Success(Utf8Text(oid))
  }

  function Encode(r: Refinement): Result<bytes, Error>
    decreases r, 1
  {
    if r.Nil? then Success([])
    else if r.Invalid? then Failure(UnknownRefinement)
    else
      var p :- Payload(r);
      Success(Context(TagNumber(r), p))
  }

  function EncodeAll(refs: seq<Refinement>): Result<bytes, Error>
    decreases refs, 0
  {
    if refs == [] then Success([])
    else
      var b :- Encode(refs[0]);
      var bs :- EncodeAll(refs[1..]);
      Success(b + bs)
  }

  lemma EncodeStep(r: Refinement)
    requires !r.Invalid? && !r.Nil?
    ensures Encode(r) == if Payload(r).Success? then Success(Context(TagNumber(r), Payload(r).value)) else Payload(r)
  {
  }

  function Decode(b: bytes): Result<Refinement, Error>
    decreases |b|, 1
  {
    var e :- ReadElement(b);
    if e.tag.cls != CONTEXT then Failure(UnknownTag) else DecodeElement(e.tag.number, e.payload)
  }

  function DecodeElement(number: nat, payload: bytes): Result<Refinement, Error>
    decreases |payload|, 2
  {
    if number == 0 then
      var refs :- DecodeAll(payload);
      Success(And(refs))
    else if number == 1 then
      var refs :- DecodeAll(payload);
      Success(Or(refs))
    else if number == 2 then
      var ref :- Decode(payload);
      Success(Not(ref))
    else if number == 3 then
      var x :- ReadText(payload);
      Success(Item(x))
    else Failure(UnknownTag)
  }

  function DecodeAll(payload: bytes): Result<seq<Refinement>, Error>
    decreases |payload|, 0
  {
    if payload == [] then Success([])
    else
      var e :- ReadElement(payload);
      if e.tag.cls != CONTEXT then Failure(UnknownTag)
      else
        var child :- DecodeElement(e.tag.number, e.payload);
        var rest :- DecodeAll(payload[e.size..]);
        Success([child] + rest)
  }

  // ----- refinements: the round trip -----

  predicate HasNoEmptyItem(r: Refinement) {
    match r
    case And(refs) => forall i :: 0 <= i < |refs| ==> HasNoEmptyItem(refs[i])
    case Or(refs) => forall i :: 0 <= i < |refs| ==> HasNoEmptyItem(refs[i])
    case Not(ref) => HasNoEmptyItem(ref)
    case Item(oid) => oid != []
    case _ => true
  }

  lemma {:induction false} CompleteIsEncoded(r: Refinement)
    requires IsComplete(r)
    ensures Encode(r).Success? && Payload(r).Success?
    decreases r, 1
  {
    if r.And? || r.Or? {
      AllAreEncoded(r.refs);
    } else if r.Not? {
      CompleteIsEncoded(r.ref);
    }
  }

  lemma AllAreEncoded(refs: seq<Refinement>)
    requires forall i :: 0 <= i < |refs| ==> IsComplete(refs[i])
    ensures EncodeAll(refs).Success?
    decreases refs, 0
  {
    hide Encode;
    if refs != [] {
      CompleteIsEncoded(refs[0]);
      AllAreEncoded(refs[1..]);
    }
  }

  /** Decoding the front element of what was encoded is decoding its payload. */
  lemma FrontElement(r: Refinement, rest: bytes)
    requires IsComplete(r) && Encode(r).Success? && |Encode(r).value| < MAX_LENGTH
    ensures Payload(r).Success? && |Payload(r).value| < |Encode(r).value|
    ensures var b := Encode(r).value + rest;
            && ReadElement(b) == Success(Element(ContextTag(TagNumber(r)), Payload(r).value, |Encode(r).value|))
            && b[|Encode(r).value|..] == rest
            && Decode(b) == DecodeElement(TagNumber(r), Payload(r).value)
  {
    hide Payload, DecodeElement, ReadElement;
    CompleteIsEncoded(r);
    EncodeStep(r);
    hide Encode;
    ContextRoundTrip(TagNumber(r), Payload(r).value, rest);
  }

  /**
    A refinement comes back from its DER form, whatever follows it, exactly when no operand is missing and no item
    is empty.
   */
  lemma RefinementRoundTrip(r: Refinement, rest: bytes)
    requires Encode(r).Success? && |Encode(r).value| < MAX_LENGTH
    ensures Decode(Encode(r).value + rest) == Success(r) <==> IsComplete(r) && HasNoEmptyItem(r)
  {
    hide Encode, Decode, IsComplete, HasNoEmptyItem;
    if IsComplete(r) {
      CompleteRoundTrip(r, rest);
    }
    DecodedIsComplete(Encode(r).value + rest);
  }

  /** The decoder never makes a nil or invalid refinement. */
  lemma {:induction false} DecodedIsComplete(b: bytes)
    ensures Decode(b).Success? ==> IsComplete(Decode(b).value)
    decreases |b|, 1
  {
    hide DecodeElement;
    var e := ReadElement(b);
    if e.Success? && e.value.tag.cls == CONTEXT {
      ElementIsComplete(e.value.tag.number, e.value.payload);
    }
  }

  lemma ElementIsComplete(number: nat, payload: bytes)
    ensures var r := DecodeElement(number, payload); r.Success? ==> IsComplete(r.value)
    decreases |payload|, 2
  {
    hide Decode, DecodeAll, ReadText;
    if number < 2 {
      PartsAreComplete(payload);
    } else if number == 2 {
      DecodedIsComplete(payload);
    }
  }

  lemma PartsAreComplete(payload: bytes)
    ensures var r := DecodeAll(payload);
            r.Success? ==> forall i :: 0 <= i < |r.value| ==> IsComplete(r.value[i])
    decreases |payload|, 0
  {
    hide DecodeElement, IsComplete;
    if payload != [] {
      var e := ReadElement(payload);
      if e.Success? && e.value.tag.cls == CONTEXT {
        ElementIsComplete(e.value.tag.number, e.value.payload);
        PartsAreComplete(payload[e.value.size..]);
      }
    }
  }

  lemma {:induction false} CompleteRoundTrip(r: Refinement, rest: bytes)
    requires IsComplete(r) && Encode(r).Success? && |Encode(r).value| < MAX_LENGTH
    ensures Decode(Encode(r).value + rest) == Success(r) <==> HasNoEmptyItem(r)
    decreases r, 1
  {
    FrontElement(r, rest);
    PayloadRoundTrip(r);
  }

  lemma PayloadRoundTrip(r: Refinement)
    requires IsComplete(r) && Payload(r).Success? && |Payload(r).value| < MAX_LENGTH
    ensures DecodeElement(TagNumber(r), Payload(r).value) == Success(r) <==> HasNoEmptyItem(r)
    decreases r, 0
  {
    hide Encode, Decode, DecodeAll, EncodeAll, ReadText, Utf8Text;
    if r.And? || r.Or? {
      ListRoundTrip(r.refs);
    } else if r.Not? {
      CompleteRoundTrip(r.ref, []);
      assert Encode(r.ref).value + [] == Encode(r.ref).value;
    } else {
      TextRoundTrip(r.oid);
    }
  }

  lemma ListRoundTrip(refs: seq<Refinement>)
    requires forall i :: 0 <= i < |refs| ==> IsComplete(refs[i])
    requires EncodeAll(refs).Success? && |EncodeAll(refs).value| < MAX_LENGTH
    ensures DecodeAll(EncodeAll(refs).value) == Success(refs)
       <==> forall i :: 0 <= i < |refs| ==> HasNoEmptyItem(refs[i])
    decreases refs, 0
  {
    hide Encode, Decode, HasNoEmptyItem, IsComplete;
    if refs != [] {
      var b, bs := Encode(refs[0]).value, EncodeAll(refs[1..]).value;
      hide EncodeAll;
      CompleteRoundTrip(refs[0], bs);
      ListRoundTrip(refs[1..]);
      ListHead(refs[0], bs);
      hide DecodeAll;
      ListsMatch(refs, Decode(b + bs), DecodeAll(bs));
      assert (forall i :: 0 <= i < |refs| ==> HasNoEmptyItem(refs[i])) <==>
             HasNoEmptyItem(refs[0]) && forall i :: 0 <= i < |refs[1..]| ==> HasNoEmptyItem(refs[1..][i]) by {
        assert forall i :: 0 < i < |refs| ==> refs[i] == refs[1..][i - 1];
      }
    }
  }

  function Combine(child: Result<Refinement, Error>, rest: Result<seq<Refinement>, Error>)
    : Result<seq<Refinement>, Error>
  {
    if child.Failure? then Failure(child.error) else Prepend([child.value], rest)
  }

  lemma ListHead(r: Refinement, bs: bytes)
    requires IsComplete(r) && Encode(r).Success? && |Encode(r).value| < MAX_LENGTH
    ensures DecodeAll(Encode(r).value + bs) == Combine(Decode(Encode(r).value + bs), DecodeAll(bs))
  {
    hide Encode, Payload, DecodeElement, IsComplete, ReadElement, Decode, DecodeAll;
    var b := Encode(r).value;
    CompleteHasTag(r);
    FrontElement(r, bs);
    ListUnfold(b + bs, Element(ContextTag(TagNumber(r)), Payload(r).value, |b|), bs);
  }

  lemma ListsMatch(refs: seq<Refinement>, child: Result<Refinement, Error>, others: Result<seq<Refinement>, Error>)
    requires refs != []
    ensures Combine(child, others) == Success(refs) <==> child == Success(refs[0]) && others == Success(refs[1..])
  {
    assert refs == [refs[0]] + refs[1..];
    if child.Success? && others.Success? {
      assert ([child.value] + others.value)[1..] == others.value;
    }
  }

  lemma CompleteHasTag(r: Refinement)
    requires IsComplete(r)
    ensures !r.Invalid? && !r.Nil?
  {
  }

  lemma ListUnfold(payload: bytes, e: Element, next: bytes)
    requires payload != [] && ReadElement(payload) == Success(e) && e.tag.cls == CONTEXT && payload[e.size..] == next
    ensures var child, rest := DecodeElement(e.tag.number, e.payload), DecodeAll(next);
            DecodeAll(payload) == Combine(child, rest)
  {
  }

  // ----- refinements: the loops -----

  function Append(dst: bytes, r: Result<bytes, Error>): Result<bytes, Error> {
    if r.Success? then Success(dst + r.value) else r
  }

  lemma AppendNothing(r: Result<bytes, Error>)
    ensures Append([], r) == r
  {
    if r.Success? {
      assert [] + r.value == r.value;
    }
  }

  lemma EncodeAllSnoc(refs: seq<Refinement>, r: Refinement)
    ensures var front := EncodeAll(refs);
            EncodeAll(refs + [r]) == if front.Success? then Append(front.value, Encode(r)) else front
    decreases |refs|
  {
    hide Encode;
    if refs == [] {
      assert [] + [r] == [r] && [r][1..] == [];
      AppendNothing(Encode(r));
      if Encode(r).Success? {
        assert Encode(r).value + [] == Encode(r).value;
      }
    } else {
      assert (refs + [r])[1..] == refs[1..] + [r];
      EncodeAllSnoc(refs[1..], r);
      var a, b, c := Encode(refs[0]), EncodeAll(refs[1..]), Encode(r);
      if a.Success? && b.Success? && c.Success? {
        assert a.value + (b.value + c.value) == a.value + b.value + c.value;
      }
    }
  }

  lemma EncodeAllFails(refs: seq<Refinement>, i: nat)
    requires i <= |refs| && EncodeAll(refs[..i]).Failure?
    ensures EncodeAll(refs) == EncodeAll(refs[..i])
    decreases |refs| - i
  {
    hide EncodeAll;
    if i == |refs| {
      assert refs[..i] == refs;
    } else {
      assert refs[..i + 1] == refs[..i] + [refs[i]];
      EncodeAllSnoc(refs[..i], refs[i]);
      EncodeAllFails(refs, i + 1);
    }
  }

  /** encodeRefinementDER: what is there already stays in front. */
  method EncodeRefinementDer(dst: bytes, r: Refinement) returns (out: Result<bytes, Error>)
    ensures out == Append(dst, Encode(r))
    decreases r
  {
    hide Encode, EncodeAll;
    if r.Nil? {
      NilIsNothing();
      assert dst + [] == dst;
      return Success(dst);
    } else if r.Invalid? {
      InvalidIsRefused();
      return Failure(UnknownRefinement);
    }
    EncodeStep(r);
    if r.Item? {
      return Success(dst + Context(TagNumber(r), Utf8Text(r.oid)));
    } else if r.Not? {
      var child := EncodeRefinementDer([], r.ref);
      AppendNothing(Encode(r.ref));
      if child.Failure? {
        return child;
      }
      return Success(dst + Context(TagNumber(r), child.value));
    }
    var inner: bytes := [];
    var refs := r.refs;
    NothingEncoded();
    assert refs[..0] == [];
    for i := 0 to |refs|
      invariant EncodeAll(refs[..i]) == Success(inner)
    {
      assert refs[..i + 1] == refs[..i] + [refs[i]];
      EncodeAllSnoc(refs[..i], refs[i]);
      var next := EncodeRefinementDer(inner, refs[i]);
      if next.Failure? {
        EncodeAllFails(refs, i + 1);
        return next;
      }
      inner := next.value;
    }
    assert refs[..|refs|] == refs;
    return Success(dst + Context(TagNumber(r), inner));
  }

  lemma NilIsNothing()
    ensures Encode(Nil) == Success([])
  {
  }

  lemma InvalidIsRefused()
    ensures Encode(Invalid) == Failure(UnknownRefinement)
  {
  }

  lemma NothingEncoded()
    ensures EncodeAll([]) == Success([])
  {
  }

  /** An element that has been read is short enough to be written again with the same length. */
  lemma {:induction false} FourOctets(b: bytes)
    requires |b| <= 4
    ensures FromBigEndian(b) < (if |b| == 4 then MAX_LENGTH else if |b| == 3 then 0x100_0000
                                else if |b| == 2 then 0x1_0000 else if |b| == 1 then 0x100 else 1)
    decreases |b|
  {
    if b != [] {
      FourOctets(b[..|b| - 1]);
    }
  }

  lemma PayloadIsShort(b: bytes)
    requires Read(b).Success?
    ensures |Read(b).value.payload| < MAX_LENGTH
  {
    if b[1] >= 128 {
      FourOctets(b[2..2 + (b[1] - 128)]);
    }
  }

  /** decodeSlice rebuilds every element before it decodes it; that changes nothing. */
  lemma RebuiltElement(e: Element)
    requires e.tag.Valid() && |e.payload| < MAX_LENGTH
    ensures var full := Write(e.tag, e.payload);
            && Read(full).Success? && |Read(full).value.payload| == |e.payload|
            && Decode(full) == if e.tag.cls != CONTEXT then Failure(UnknownTag)
                               else DecodeElement(e.tag.number, e.payload)
  {
    hide Read, DecodeElement;
    var full := Write(e.tag, e.payload);
    ElementRoundTrip(e.tag, e.payload, []);
    hide Write;
    assert full + [] == full;
  }

  /** The measure of the recursion: elements nest strictly. */
  function Room(b: bytes): nat { if Read(b).Success? then 1 + |Read(b).value.payload| else 0 }

  lemma RoomOfPart(payload: bytes)
    ensures Room(payload) <= |payload|
  {
  }

  method DecodeRefinementDer(b: bytes) returns (r: Result<Refinement, Error>)
    ensures r == Decode(b)
    decreases Room(b), 1
  {
    hide DecodeAll, ReadText, Read;
    var first := ReadElement(b);
    if first.Failure? {
      return Failure(first.error);
    }
    var tag, payload := first.value.tag, first.value.payload;
    RoomOfPart(payload);
    if tag.cls != CONTEXT {
      return Failure(UnknownTag);
    } else if tag.number == 0 {
      var refs := DecodeSlice(payload);
      return if refs.Success? then Success(And(refs.value)) else Failure(refs.error);
    } else if tag.number == 1 {
      var refs := DecodeSlice(payload);
      return if refs.Success? then Success(Or(refs.value)) else Failure(refs.error);
    } else if tag.number == 2 {
      var child := DecodeRefinementDer(payload);
      return if child.Success? then Success(Not(child.value)) else Failure(child.error);
    } else if tag.number == 3 {
      var x := ReadText(payload);
      return if x.Success? then Success(Item(x.value)) else Failure(x.error);
    }
    return Failure(UnknownTag);
  }

  method DecodeSlice(payload: bytes) returns (r: Result<seq<Refinement>, Error>)
    ensures r == DecodeAll(payload)
    decreases |payload|, 2
  {
    hide DecodeAll, DecodeElement, Read, Decode;
    var slice: seq<Refinement> := [];
    var q := 0;
    assert payload[0..] == payload;
    PrependNothing(DecodeAll(payload));
    while q < |payload|
      invariant 0 <= q <= |payload|
      invariant DecodeAll(payload) == Prepend(slice, DecodeAll(payload[q..]))
    {
      var rest := payload[q..];
      var e := ReadElement(rest);
      DecodeAllStep(rest);
      if e.Failure? {
        return Failure(e.error);
      }
      PayloadIsShort(rest);
      RebuiltElement(e.value);
      var full := Write(e.value.tag, e.value.payload);
      var child := DecodeRefinementDer(full);
      if child.Failure? {
        return Failure(child.error);
      }
      assert rest[e.value.size..] == payload[q + e.value.size..];
      q := q + e.value.size;
      PrependTwice(slice, [child.value], DecodeAll(payload[q..]));
      slice := slice + [child.value];
    }
    assert payload[q..] == [];
    NothingDecoded();
    assert slice + [] == slice;
    return Success(slice);
  }

  lemma NothingDecoded()
    ensures DecodeAll([]) == Success([])
  {
  }

  lemma DecodeAllStep(payload: bytes)
    requires payload != []
    ensures var e := ReadElement(payload);
            DecodeAll(payload) ==
              if e.Failure? then Failure(e.error)
              else if e.value.tag.cls != CONTEXT then Failure(UnknownTag)
              else Combine(DecodeElement(e.value.tag.number, e.value.payload), DecodeAll(payload[e.value.size..]))
  {
  }

  // ----- literal octets -----

  /** The identifier octets of the alternatives, innermost first: item, not, or, and. */
  lemma RefinementOctets()
    ensures Encode(Item([99])) == Success([0xA3, 0x03, 0x0C, 0x01, 99])
    ensures Encode(Not(Item([99]))) == Success([0xA2, 0x05, 0xA3, 0x03, 0x0C, 0x01, 99])
    ensures Encode(Or([])) == Success([0xA1, 0x00]) && Encode(And([])) == Success([0xA0, 0x00])
  {
    hide Write;
    UniversalTags([99]);
    ShortElement(3, [0x0C, 0x01, 99]);
    ShortElement(2, [0xA3, 0x03, 0x0C, 0x01, 99]);
    ShortElement(1, []);
    ShortElement(0, []);
    assert [0x0C, 0x01] + [99] == [0x0C, 0x01, 99];
    assert [0xA3, 0x03] + [0x0C, 0x01, 99] == [0xA3, 0x03, 0x0C, 0x01, 99];
    assert [0xA2, 0x05] + [0xA3, 0x03, 0x0C, 0x01, 99] == [0xA2, 0x05, 0xA3, 0x03, 0x0C, 0x01, 99];
    assert [0xA1, 0x00] + [] == [0xA1, 0x00] && [0xA0, 0x00] + [] == [0xA0, 0x00];
  }

  /** The shortest two's complement forms on both sides of the sign bit of the first octet. */
  lemma IntegerOctets()
    ensures IntegerText(127) == [0x02, 0x01, 0x7F] && IntegerText(128) == [0x02, 0x02, 0x00, 0x80]
    ensures IntegerText(-128) == [0x02, 0x01, 0x80] && IntegerText(-129) == [0x02, 0x02, 0xFF, 0x7F]
  {
    assert TwosComplement(128) == TwosComplement(0) + [0x80] == [0x00, 0x80];
    assert TwosComplement(-129) == TwosComplement(-1) + [0x7F] == [0xFF, 0x7F];
    hide TwosComplement, Write;
    UniversalTags([0x7F]);
    UniversalTags([0x00, 0x80]);
    UniversalTags([0x80]);
    UniversalTags([0xFF, 0x7F]);
  }
}
