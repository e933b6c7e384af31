/**
  filter_asn1.go: search filters in BER (section 2 of RFC 4515, section 4.5.1 of RFC 4511). Substring assertions
  are not part of this codec model.
 */
module FilterBer {
  import opened Bytes
  import opened Wrappers
  import opened Tlv
  import opened Filters
  import opened Oids
  import AssertionValue
  import FilterText

  datatype CodecError = BadElement | BadDescriptor | NoFilter | UnknownTag

  const OCTETS := Tag(UNIVERSAL, false, TAG_OCTET_STRING)

  // context tag numbers of the alternatives (filter.go:1268-1279)
  const AND_TAG := 0
  const OR_TAG := 1
  const NOT_TAG := 2
  const PRESENT_TAG := 7
  const EXTENSIBLE_TAG := 9

  function AssertionTag(op: Operator): nat {
    match op
    case Equal => 3
    case GreaterOrEqual => 5
    case LessOrEqual => 6
    case Approximate => 8
  }

  function Outer(n: nat): Tag { Tag(CONTEXT, true, n) }

  function Inner(n: nat): Tag { Tag(CONTEXT, false, n) }

  function Octets(x: bytes): (b: bytes)
    ensures |b| >= |x| + 2
  {
    Write(OCTETS, x)
  }

  // ----- encoding -----

  /** What stands inside an AttributeValueAssertion. */
  function AssertionPayload(desc: bytes, value: bytes): (b: bytes)
    ensures |b| >= |desc| + |value| + 4
  {
    Octets(desc) + Octets(value)
  }

  function OptionalField(n: nat, x: bytes): bytes
    requires n < 31
  {
    if x == [] then [] else Write(Inner(n), x)
  }

  function MatchPayload(rule: bytes, typ: bytes, value: bytes, dn: bool): bytes {
    OptionalField(1, rule) +
    (OptionalField(2, typ) + (Write(Inner(3), value) + OptionalField(4, if dn then [255] else [])))
  }

  predicate HasNoSubstrings(f: Filter) {
    match f
    case And(fs) => forall i :: 0 <= i < |fs| ==> HasNoSubstrings(fs[i])
    case Or(fs) => forall i :: 0 <= i < |fs| ==> HasNoSubstrings(fs[i])
    case Not(g) => HasNoSubstrings(g)
    case Substrings(_, _) => false
    case _ => true
  }

  function Encode(f: Filter): Result<bytes, CodecError>
    requires HasNoSubstrings(f)
    decreases f, 1
  {
    match f
    case And(fs) =>
      var p :- EncodeAll(fs);
      Success(Write(Outer(AND_TAG), p))
    case Or(fs) =>
      var p :- EncodeAll(fs);
      Success(Write(Outer(OR_TAG), p))
    case Not(g) =>
      var p :- Encode(g);
      Success(Write(Outer(NOT_TAG), p))
    case Assertion(op, desc, value) =>
      if IsDescr(desc) then Success(Write(Outer(AssertionTag(op)), AssertionPayload(desc, value)))
      else Failure(BadDescriptor)
    case Present(desc) => Success(Write(Inner(PRESENT_TAG), desc))
    case Extensible(rule, typ, value, dn) =>
      Success(Write(Outer(EXTENSIBLE_TAG), MatchPayload(rule, typ, value, dn)))
    case Invalid => Failure(NoFilter)
    case Nil => Failure(NoFilter)
  }

  function EncodeAll(fs: seq<Filter>): Result<bytes, CodecError>
    requires forall i :: 0 <= i < |fs| ==> HasNoSubstrings(fs[i])
    decreases fs, 0
  {
    if fs == [] then Success([])
    else
      var b :- Encode(fs[0]);
      var bs :- EncodeAll(fs[1..]);
      Success(b + bs)
  }

  // ----- decoding -----

  /** readCTLV. */
  function ReadAny(b: bytes): (r: Result<Element, CodecError>)
    ensures r.Success? ==> Read(b) == Success(r.value)
  {
    var e := Read(b);
    if e.Success? then Success(e.value) else Failure(BadElement)
  }

  /** The payload of an element that must carry the tag. */
  function Unwrap(b: bytes, t: Tag): (r: Result<bytes, CodecError>)
    ensures r.Success? ==> |r.value| + 2 <= |b|
  {
    var e := ReadExpected(b, t);
    if e.Success? then Success(e.value.payload) else Failure(BadElement)
  }

  /** AttributeValueAssertion.Decode behind its SEQUENCE header. */
  function DecodeAssertion(payload: bytes): Result<(bytes, bytes), CodecError> {
    var d := ReadExpected(payload, OCTETS);
    if d.Failure? then Failure(BadElement)
    else
      var v := ReadExpected(payload[d.value.size..], OCTETS);
      if v.Failure? then Failure(BadElement) else Success((d.value.payload, v.value.payload))
  }

  /** The fields of a MatchingRuleAssertion. */
  datatype Rule = Rule(rule: bytes, typ: bytes, value: bytes, dn: bool)

  const NO_RULE := Rule([], [], [], false)

  predicate IsBoolean(payload: bytes) { payload == [0] || payload == [255] }

  /** One component; a Boolean that cannot be read still leaves false behind. */
  function RuleStep(m: Rule, e: Element): (Rule, bool) {
    if e.tag.cls != CONTEXT || e.tag.constructed then (m, false)
    else if e.tag.number == 1 then (m.(rule := e.payload), true)
    else if e.tag.number == 2 then (m.(typ := e.payload), true)
    else if e.tag.number == 3 then (m.(value := e.payload), true)
    else if e.tag.number == 4 then (m.(dn := e.payload == [255]), IsBoolean(e.payload))
    else (m, false)
  }

  function DecodeRule(m: Rule, rest: bytes): (Rule, bool)
    decreases |rest|
  {
    if rest == [] then (m, true)
    else
      var r := ReadAny(rest);
      if r.Failure? then (m, false)
      else
        var (next, ok) := RuleStep(m, r.value);
        if ok then DecodeRule(next, rest[r.value.size..]) else (next, false)
  }

  function OperatorOf(tag: nat): Option<Operator> {
    if tag == 3 then Some(Equal)
    else if tag == 5 then Some(GreaterOrEqual)
    else if tag == 6 then Some(LessOrEqual)
    else if tag == 8 then Some(Approximate)
    else None
  }

  /** decodeFilterByTag; tag 4, the substring assertion, is outside the model. */
  function DecodeByTag(tag: nat, enc: bytes): Result<Filter, CodecError>
    decreases |enc|, 0
  {
    if tag == AND_TAG then
      var payload :- Unwrap(enc, Outer(AND_TAG));
      var fs :- DecodeAll(payload);
      Success(And(fs))
    else if tag == OR_TAG then
      var payload :- Unwrap(enc, Outer(OR_TAG));
      var fs :- DecodeAll(payload);
      Success(Or(fs))
    else if tag == NOT_TAG then
      var payload :- Unwrap(enc, Outer(NOT_TAG));
      var e :- ReadAny(payload);
      var f :- DecodeByTag(e.tag.number, payload[..e.size]);
      Success(Not(f))
    else if OperatorOf(tag).Some? then
      var payload :- Unwrap(enc, Outer(tag));
      var a :- DecodeAssertion(payload);
      Success(Assertion(OperatorOf(tag).value, a.0, a.1))
    else if tag == PRESENT_TAG then
      var payload :- Unwrap(enc, Inner(PRESENT_TAG));
      Success(Present(payload))
    else if tag == EXTENSIBLE_TAG then
      var payload :- Unwrap(enc, Outer(EXTENSIBLE_TAG));
      var (m, ok) := DecodeRule(NO_RULE, payload);
      if ok then Success(Extensible(m.rule, m.typ, m.value, m.dn)) else Failure(BadElement)
    else Failure(UnknownTag)
  }

  function DecodeAll(payload: bytes): Result<seq<Filter>, CodecError>
    decreases |payload|, 1
  {
    if payload == [] then Success([])
    else
      var e :- ReadAny(payload);
      var f :- DecodeByTag(e.tag.number, payload[..e.size]);
      var fs :- DecodeAll(payload[e.size..]);
      Success([f] + fs)
  }

  /** FilterDecode. */
  function Decode(enc: bytes): Result<Filter, CodecError> {
    var e :- ReadAny(enc);
    DecodeByTag(e.tag.number, enc)
  }

  // ----- which filters are encoded -----

  /** The leaves that hold an attribute value assertion name their attribute with a bare descriptor. */
  predicate IsEncodable(f: Filter) {
    match f
    case And(fs) => forall i :: 0 <= i < |fs| ==> IsEncodable(fs[i])
    case Or(fs) => forall i :: 0 <= i < |fs| ==> IsEncodable(fs[i])
    case Not(g) => IsEncodable(g)
    case Assertion(_, desc, _) => IsDescr(desc)
    case Present(_) => true
    case Substrings(_, _) => false
    case Extensible(_, _, _, _) => true
    case Invalid => false
    case Nil => false
  }

  /** Numeric identifiers and attribute options, which the text form takes, are refused here. */
  lemma {:induction false} EncodesExactly(f: Filter)
    requires HasNoSubstrings(f)
    ensures Encode(f).Success? <==> IsEncodable(f)
    decreases f, 1
  {
    hide IsDescr, Write, AssertionPayload, MatchPayload, Octets;
    if f.And? || f.Or? {
      EncodesAllExactly(f.filters);
    } else if f.Not? {
      EncodesExactly(f.filter);
    }
  }

  lemma EncodesAllExactly(fs: seq<Filter>)
    requires forall i :: 0 <= i < |fs| ==> HasNoSubstrings(fs[i])
    ensures EncodeAll(fs).Success? <==> forall i :: 0 <= i < |fs| ==> IsEncodable(fs[i])
    decreases fs, 0
  {
    hide Encode, IsEncodable, HasNoSubstrings;
    if fs != [] {
      EncodesExactly(fs[0]);
      EncodesAllExactly(fs[1..]);
      assert forall i :: 0 < i < |fs| ==> fs[i] == fs[1..][i - 1];
    }
  }

  /** `(2.5=b)` is restored from its text, and has no BER form. */
  lemma NumericTypeHasNoBer()
    ensures var f := Assertion(Equal, [50, 46, 53], [98]);
            && FilterText.WellFormed(f) && Parse(Print(f)) == Success(f)
            && Encode(f) == Failure(BadDescriptor)
  {
    NumericName();
    TextOnly([50, 46, 53]);
  }

  /** `(a;b=b)` is restored from its text, and has no BER form. */
  lemma OptionHasNoBer()
    ensures var f := Assertion(Equal, [97, 59, 98], [98]);
            && FilterText.WellFormed(f) && Parse(Print(f)) == Success(f)
            && Encode(f) == Failure(BadDescriptor)
  {
    OptionName();
    TextOnly([97, 59, 98]);
  }

  lemma TextOnly(desc: bytes)
    requires FilterText.IsName(desc) && !IsDescr(desc)
    ensures var f := Assertion(Equal, desc, [98]);
            && FilterText.WellFormed(f) && Parse(Print(f)) == Success(f)
            && Encode(f) == Failure(BadDescriptor)
  {
    hide FilterText.IsName, IsDescr, Parse, Print, AssertionValue.Escape;
    AssertionValue.EscapeKeepsExactlyAscii([98]);
    FilterText.AsciiFiltersComeBack(Assertion(Equal, desc, [98]));
  }

  lemma NumericName()
    ensures FilterText.IsName([50, 46, 53]) && !IsDescr([50, 46, 53])
  {
    DecimalStep(2);
    DecimalStep(5);
    hide Decimal;
    assert [2, 5][1..] == [5];
    assert AreArcs([2, 5]) && Dotted([2, 5]) == [50, 46, 53];
    FilterText.BareName([50, 46, 53]);
  }

  lemma OptionName()
    ensures FilterText.IsName([97, 59, 98]) && !IsDescr([97, 59, 98])
  {
    var typ, options: bytes := [97], [59, 98];
    assert IsOid(typ) && FilterText.IsOptions(options) && [97, 59, 98] == typ + options;
    assert [97, 59, 98][1] == 59;
  }

  // ----- the round trip -----

  lemma UnwrapRoundTrip(t: Tag, payload: bytes)
    requires t.Valid() && |payload| < MAX_LENGTH
    ensures Unwrap(Write(t, payload), t) == Success(payload)
  {
    hide Write;
    ExpectedRoundTrip(t, payload, []);
    assert Write(t, payload) + [] == Write(t, payload);
  }

  lemma AssertionRoundTrip(desc: bytes, value: bytes)
    requires |desc| < MAX_LENGTH && |value| < MAX_LENGTH
    ensures DecodeAssertion(AssertionPayload(desc, value)) == Success((desc, value))
  {
    hide Write, ReadExpected;
    var d, v := Octets(desc), Octets(value);
    ExpectedRoundTrip(OCTETS, desc, v);
    ExpectedRoundTrip(OCTETS, value, []);
    assert v + [] == v && (d + v)[|d|..] == v;
  }

  lemma RuleUnfold(m: Rule, n: nat, x: bytes, rest: bytes)
    requires n < 31 && |x| < MAX_LENGTH
    ensures var (next, ok) := RuleStep(m, Element(Inner(n), x, |Write(Inner(n), x)|));
            DecodeRule(m, Write(Inner(n), x) + rest) == if ok then DecodeRule(next, rest) else (next, false)
  {
    var b := Write(Inner(n), x);
    ElementRoundTrip(Inner(n), x, rest);
    hide Write, Read, RuleStep;
    assert (b + rest)[|b|..] == rest && b + rest != [];
  }

  lemma RuleRoundTrip(rule: bytes, typ: bytes, value: bytes, dn: bool)
    requires |rule| < MAX_LENGTH && |typ| < MAX_LENGTH && |value| < MAX_LENGTH
    ensures DecodeRule(NO_RULE, MatchPayload(rule, typ, value, dn)) == (Rule(rule, typ, value, dn), true)
  {
    hide DecodeRule, Write;
    var d := OptionalField(4, if dn then [255] else []);
    var c := Write(Inner(3), value) + d;
    var b := OptionalField(2, typ) + c;
    var m1, m2, m3 := NO_RULE.(rule := rule), Rule(rule, typ, [], false), Rule(rule, typ, value, false);
    if rule == [] {
      assert [] + b == b;
    } else {
      RuleUnfold(NO_RULE, 1, rule, b);
    }
    if typ == [] {
      assert [] + c == c;
    } else {
      RuleUnfold(m1, 2, typ, c);
    }
    RuleUnfold(m2, 3, value, d);
    if dn {
      assert d + [] == d;
      RuleUnfold(m3, 4, [255], []);
    }
    RuleEnd(Rule(rule, typ, value, dn));
  }

  lemma RuleEnd(m: Rule)
    ensures DecodeRule(m, []) == (m, true)
  {
  }

  function Number(f: Filter): nat
    requires IsEncodable(f)
  {
    match f
    case And(_) => AND_TAG
    case Or(_) => OR_TAG
    case Not(_) => NOT_TAG
    case Assertion(op, _, _) => AssertionTag(op)
    case Present(_) => PRESENT_TAG
    case Extensible(_, _, _, _) => EXTENSIBLE_TAG
  }

  lemma FrontElement(f: Filter, rest: bytes)
    requires HasNoSubstrings(f) && IsEncodable(f) && Encode(f).Success? && |Encode(f).value| < MAX_LENGTH
    ensures var b := Encode(f).value + rest; var n := |Encode(f).value|;
            && ReadAny(b).Success? && ReadAny(b).value.size == n && ReadAny(b).value.tag.number == Number(f)
            && b[..n] == Encode(f).value && b[n..] == rest && n > 0
  {
    hide IsDescr, AssertionPayload, MatchPayload, EncodeAll;
    match f
    case And(fs) => ElementRoundTrip(Outer(AND_TAG), EncodeAll(fs).value, rest);
    case Or(fs) => ElementRoundTrip(Outer(OR_TAG), EncodeAll(fs).value, rest);
    case Not(g) => ElementRoundTrip(Outer(NOT_TAG), Encode(g).value, rest);
    case Assertion(op, desc, value) => ElementRoundTrip(Outer(AssertionTag(op)), AssertionPayload(desc, value), rest);
    case Present(desc) => ElementRoundTrip(Inner(PRESENT_TAG), desc, rest);
    case Extensible(rule, typ, value, dn) =>
      ElementRoundTrip(Outer(EXTENSIBLE_TAG), MatchPayload(rule, typ, value, dn), rest);
  }

  lemma MatchPayloadSize(rule: bytes, typ: bytes, value: bytes, dn: bool)
    ensures var p := MatchPayload(rule, typ, value, dn); |rule| <= |p| && |typ| <= |p| && |value| <= |p|
  {
    hide Write;
  }

  /** Every encodable tree comes back from its BER form. */
  lemma {:induction false} RoundTripByTag(f: Filter)
    requires HasNoSubstrings(f) && IsEncodable(f) && Encode(f).Success? && |Encode(f).value| < MAX_LENGTH
    ensures DecodeByTag(Number(f), Encode(f).value) == Success(f)
    decreases f, 1
  {
    if f.And? || f.Or? {
      SetRoundTrip(f);
    } else if f.Not? {
      NotRoundTrip(f);
    } else {
      LeafRoundTrip(f);
    }
  }

  lemma LeafRoundTrip(f: Filter)
    requires HasNoSubstrings(f) && IsEncodable(f) && !f.And? && !f.Or? && !f.Not?
    requires Encode(f).Success? && |Encode(f).value| < MAX_LENGTH
    ensures DecodeByTag(Number(f), Encode(f).value) == Success(f)
  {
    hide EncodeAll, DecodeAll, Unwrap, Write, IsDescr, AssertionPayload, DecodeAssertion, MatchPayload, DecodeRule;
    match f
    case Assertion(op, desc, value) =>
      UnwrapRoundTrip(Outer(AssertionTag(op)), AssertionPayload(desc, value));
      AssertionRoundTrip(desc, value);
    case Present(desc) =>
      UnwrapRoundTrip(Inner(PRESENT_TAG), desc);
    case Extensible(rule, typ, value, dn) =>
      MatchPayloadSize(rule, typ, value, dn);
      UnwrapRoundTrip(Outer(EXTENSIBLE_TAG), MatchPayload(rule, typ, value, dn));
      RuleRoundTrip(rule, typ, value, dn);
  }

  lemma SetRoundTrip(f: Filter)
    requires (f.And? || f.Or?) && HasNoSubstrings(f) && IsEncodable(f)
    requires Encode(f).Success? && |Encode(f).value| < MAX_LENGTH
    ensures DecodeByTag(Number(f), Encode(f).value) == Success(f)
    decreases f, 0
  {
    hide EncodeAll, DecodeAll, Unwrap, Write, DecodeByTag;
    var fs, n := f.filters, Number(f);
    var p := EncodeAll(fs).value;
    assert Encode(f).value == Write(Outer(n), p);
    UnwrapRoundTrip(Outer(n), p);
    ListRoundTrip(fs);
    SetUnfold(n, Write(Outer(n), p), p);
  }

  lemma SetUnfold(n: nat, enc: bytes, payload: bytes)
    requires (n == AND_TAG || n == OR_TAG) && Unwrap(enc, Outer(n)) == Success(payload)
    ensures var fs := DecodeAll(payload);
            DecodeByTag(n, enc) ==
              if fs.Failure? then Failure(fs.error) else Success(if n == AND_TAG then And(fs.value) else Or(fs.value))
  {
    hide DecodeAll, Unwrap;
  }

  lemma NotRoundTrip(f: Filter)
    requires f.Not? && HasNoSubstrings(f) && IsEncodable(f) && Encode(f).Success? && |Encode(f).value| < MAX_LENGTH
    ensures DecodeByTag(NOT_TAG, Encode(f).value) == Success(f)
    decreases f, 0
  {
    hide EncodeAll, DecodeAll, Unwrap, Write, ReadAny, DecodeByTag;
    var g := f.filter;
    var p := Encode(g).value;
    assert Encode(f).value == Write(Outer(NOT_TAG), p);
    UnwrapRoundTrip(Outer(NOT_TAG), p);
    FrontElement(g, []);
    assert p + [] == p;
    RoundTripByTag(g);
    NotUnfold(Write(Outer(NOT_TAG), p), p);
  }

  lemma NotUnfold(enc: bytes, payload: bytes)
    requires Unwrap(enc, Outer(NOT_TAG)) == Success(payload) && ReadAny(payload).Success?
    ensures var e := ReadAny(payload).value; var r := DecodeByTag(e.tag.number, payload[..e.size]);
            DecodeByTag(NOT_TAG, enc) == if r.Success? then Success(Not(r.value)) else r
  {
  }

  lemma ListRoundTrip(fs: seq<Filter>)
    requires forall i :: 0 <= i < |fs| ==> HasNoSubstrings(fs[i])
    requires forall i :: 0 <= i < |fs| ==> IsEncodable(fs[i])
    requires EncodeAll(fs).Success? && |EncodeAll(fs).value| < MAX_LENGTH
    ensures DecodeAll(EncodeAll(fs).value) == Success(fs)
    decreases fs, 0
  {
    hide Encode, DecodeByTag, HasNoSubstrings, IsEncodable, ReadAny;
    if fs != [] {
      var b, bs := Encode(fs[0]).value, EncodeAll(fs[1..]).value;
      hide EncodeAll, DecodeAll;
      FrontElement(fs[0], bs);
      RoundTripByTag(fs[0]);
      ListRoundTrip(fs[1..]);
      DecodeAllStep(b + bs);
      assert fs == [fs[0]] + fs[1..];
    } else {
      NothingDecoded();
    }
  }

  /** FilterDecode inverts Encode on every tree without substring assertions that Encode accepts. */
  lemma DecodeInvertsEncode(f: Filter)
    requires HasNoSubstrings(f) && Encode(f).Success? && |Encode(f).value| < MAX_LENGTH
    ensures Decode(Encode(f).value) == Success(f)
  {
    hide Encode, DecodeByTag, HasNoSubstrings, IsEncodable, ReadAny;
    EncodesExactly(f);
    FrontElement(f, []);
    assert Encode(f).value + [] == Encode(f).value;
    RoundTripByTag(f);
  }

  /** FilterDefaultEncoding is the encoding of the default filter. */
  lemma DefaultEncoding()
    ensures Encode(DEFAULT) == Success([0x87, 0x0b] + OBJECT_CLASS)
  {
    assert WriteTag(Inner(PRESENT_TAG)) == 0x87;
    assert Write(Inner(PRESENT_TAG), OBJECT_CLASS) == [0x87] + [0x0b] + OBJECT_CLASS == [0x87, 0x0b] + OBJECT_CLASS;
  }

  // ----- the loops -----

  lemma DecodeAllStep(payload: bytes)
    requires payload != []
    ensures var e := ReadAny(payload);
            DecodeAll(payload) ==
              if e.Failure? then Failure(e.error)
              else
                var f := DecodeByTag(e.value.tag.number, payload[..e.value.size]);
                if f.Failure? then Failure(f.error) else Prepend([f.value], DecodeAll(payload[e.value.size..]))
  {
  }

  lemma NothingDecoded()
    ensures DecodeAll([]) == Success([])
  {
  }

  /** The loop of decodeFilterSet behind the outer element. */
  method DecodeFilterSet(payload: bytes) returns (r: Result<seq<Filter>, CodecError>)
    ensures r == DecodeAll(payload)
    decreases |payload|, 1
  {
    hide DecodeAll, DecodeByTag;
    var out: seq<Filter> := [];
    var p := 0;
    assert payload[0..] == payload;
    PrependNothing(DecodeAll(payload));
    while p < |payload|
      invariant 0 <= p <= |payload|
      invariant DecodeAll(payload) == Prepend(out, DecodeAll(payload[p..]))
    {
      var start := p;
      var rest := payload[p..];
      DecodeAllStep(rest);
      var child := ReadAny(rest);
      if child.Failure? {
        return Failure(child.error);
      }
      p := p + child.value.size;
      assert rest[..child.value.size] == payload[start..p] && rest[child.value.size..] == payload[p..];
      var f := DecodeFilterByTag(child.value.tag.number, payload[start..p]);
      if f.Failure? {
        return Failure(f.error);
      }
      PrependTwice(out, [f.value], DecodeAll(payload[p..]));
      out := out + [f.value];
    }
    assert payload[p..] == [];
    NothingDecoded();
    assert out + [] == out;
    return Success(out);
  }

  method DecodeFilterByTag(tag: nat, enc: bytes) returns (r: Result<Filter, CodecError>)
    ensures r == DecodeByTag(tag, enc)
    decreases |enc|, 0
  {
    hide DecodeAll, DecodeRule, DecodeAssertion, Unwrap, ReadAny;
    if tag == AND_TAG || tag == OR_TAG {
      var payload := Unwrap(enc, Outer(tag));
      if payload.Failure? {
        return Failure(payload.error);
      }
      var fs := DecodeFilterSet(payload.value);
      if fs.Failure? {
        return Failure(fs.error);
      }
      return Success(if tag == AND_TAG then And(fs.value) else Or(fs.value));
    } else if tag == NOT_TAG {
      var payload := Unwrap(enc, Outer(NOT_TAG));
      if payload.Failure? {
        return Failure(payload.error);
      }
      var child := ReadAny(payload.value);
      if child.Failure? {
        return Failure(child.error);
      }
      var f := DecodeFilterByTag(child.value.tag.number, payload.value[..child.value.size]);
      return if f.Success? then Success(Not(f.value)) else f;
    } else if tag == 3 || tag == 5 || tag == 6 || tag == 8 {
      var payload := Unwrap(enc, Outer(tag));
      if payload.Failure? {
        return Failure(payload.error);
      }
      var ava := new AttributeValueAssertion();
      var ok := ava.Decode(payload.value);
      if !ok {
        return Failure(BadElement);
      }
      return Success(Assertion(OperatorOf(tag).value, ava.desc, ava.value));
    } else if tag == PRESENT_TAG {
      var payload := Unwrap(enc, Inner(PRESENT_TAG));
      return if payload.Success? then Success(Present(payload.value)) else Failure(payload.error);
    } else if tag == EXTENSIBLE_TAG {
      var payload := Unwrap(enc, Outer(EXTENSIBLE_TAG));
      if payload.Failure? {
        return Failure(payload.error);
      }
      var mra := new MatchingRuleAssertion();
      var ok := mra.Decode(payload.value);
      if !ok {
        return Failure(BadElement);
      }
      return Success(Extensible(mra.rule, mra.typ, mra.value, mra.dn));
    }
    return Failure(UnknownTag);
  }

  class AttributeValueAssertion {
    var desc: bytes
    var value: bytes

    constructor ()
      ensures desc == [] && value == []
    {
      desc, value := [], [];
    }

    /** Behind the SEQUENCE header; the description is set even when the value cannot be read. */
    method Decode(payload: bytes) returns (ok: bool)
      modifies this
      ensures ok <==> DecodeAssertion(payload).Success?
      ensures !ok ==> DecodeAssertion(payload) == Failure(BadElement)
      ensures ok ==> (desc, value) == DecodeAssertion(payload).value
      ensures var d := ReadExpected(payload, OCTETS);
              if d.Failure? then desc == [] && value == old(value)
              else desc == d.value.payload && (!ok ==> value == [])
    {
      var d := ReadExpected(payload, OCTETS);
      if d.Failure? {
        desc := [];
        return false;
      }
      desc := d.value.payload;
      var p := d.value.size;
      var v := ReadExpected(payload[p..], OCTETS);
      if v.Failure? {
        value := [];
        return false;
      }
      value := v.value.payload;
      return true;
    }
  }

  class MatchingRuleAssertion {
    var rule: bytes
    var typ: bytes
    var value: bytes
    var dn: bool

    function View(): Rule
      reads this
    {
      Rule(rule, typ, value, dn)
    }

    constructor ()
      ensures View() == NO_RULE
    {
      rule, typ, value, dn := [], [], [], false;
    }

    /** Behind the SEQUENCE header; the receiver is reset first. */
    method Decode(payload: bytes) returns (ok: bool)
      modifies this
      ensures (View(), ok) == DecodeRule(NO_RULE, payload)
    {
      hide ReadAny, DecodeRule;
      rule, typ, value, dn := [], [], [], false;
      ok := true;
      var p2 := 0;
      assert payload[0..] == payload;
      while p2 < |payload| && ok
        invariant 0 <= p2 <= |payload|
        invariant DecodeRule(NO_RULE, payload) == if ok then DecodeRule(View(), payload[p2..]) else (View(), false)
        decreases |payload| - p2, ok
      {
        RuleUnrolled(View(), payload[p2..]);
        var child := ReadAny(payload[p2..]);
        if child.Failure? {
          ok := false;
          break;
        }
        var e := child.value;
        assert payload[p2..][e.size..] == payload[p2 + e.size..];
        p2 := p2 + e.size;
        if e.tag.cls != CONTEXT || e.tag.constructed {
          ok := false;
        } else if e.tag.number == 1 {
          rule := e.payload;
        } else if e.tag.number == 2 {
          typ := e.payload;
        } else if e.tag.number == 3 {
          value := e.payload;
        } else if e.tag.number == 4 {
          ok := |e.payload| == 1 && (e.payload[0] == 0 || e.payload[0] == 255);
          dn := ok && e.payload[0] == 255;
          assert ok <==> IsBoolean(e.payload);
        } else {
          ok := false;
        }
      }
      if ok {
        assert payload[p2..] == [];
        RuleEnd(View());
      }
    }
  }

  lemma RuleUnrolled(m: Rule, rest: bytes)
    requires rest != []
    ensures var r := ReadAny(rest);
            DecodeRule(m, rest) ==
              if r.Failure? then (m, false)
              else var (next, ok) := RuleStep(m, r.value);
                   if ok then DecodeRule(next, rest[r.value.size..]) else (next, false)
  {
  }

  lemma EncodeAllSnoc(fs: seq<Filter>, f: Filter)
    requires (forall i :: 0 <= i < |fs| ==> HasNoSubstrings(fs[i])) && HasNoSubstrings(f)
    ensures var a, b := EncodeAll(fs), Encode(f);
            EncodeAll(fs + [f]) == if a.Failure? then a else if b.Failure? then b else Success(a.value + b.value)
    decreases |fs|
  {
    hide Encode, HasNoSubstrings;
    if fs == [] {
      assert [] + [f] == [f] && [f][1..] == [];
      var b := Encode(f);
      if b.Success? {
        assert [] + b.value == b.value + [];
      }
    } else {
      assert (fs + [f])[1..] == fs[1..] + [f];
      EncodeAllSnoc(fs[1..], f);
      var a, b, c := Encode(fs[0]), EncodeAll(fs[1..]), Encode(f);
      if a.Success? && b.Success? && c.Success? {
        assert a.value + (b.value + c.value) == a.value + b.value + c.value;
      }
    }
  }

  lemma EncodeAllFails(fs: seq<Filter>, i: nat)
    requires forall k :: 0 <= k < |fs| ==> HasNoSubstrings(fs[k])
    requires i <= |fs| && EncodeAll(fs[..i]).Failure?
    ensures EncodeAll(fs) == EncodeAll(fs[..i])
    decreases |fs| - i
  {
    hide EncodeAll, HasNoSubstrings;
    if i == |fs| {
      assert fs[..i] == fs;
    } else {
      assert fs[..i + 1] == fs[..i] + [fs[i]];
      EncodeAllSnoc(fs[..i], fs[i]);
      EncodeAllFails(fs, i + 1);
    }
  }

  /** The loop of encodeFilterSet. */
  method EncodeFilterSet(tag: nat, fs: seq<Filter>) returns (r: Result<bytes, CodecError>)
    requires tag < 31 && forall i :: 0 <= i < |fs| ==> HasNoSubstrings(fs[i])
    ensures r == if EncodeAll(fs).Success? then Success(Write(Outer(tag), EncodeAll(fs).value)) else EncodeAll(fs)
    decreases fs, 0
  {
    hide EncodeAll, Encode, HasNoSubstrings, Write;
    var payload: bytes := [];
    var i := 0;
    assert fs[..0] == [];
    NothingEncoded();
    while i < |fs|
      invariant 0 <= i <= |fs|
      invariant EncodeAll(fs[..i]) == Success(payload)
    {
      assert fs[..i + 1] == fs[..i] + [fs[i]];
      EncodeAllSnoc(fs[..i], fs[i]);
      var enc := EncodeFilter(fs[i]);
      if enc.Failure? {
        EncodeAllFails(fs, i + 1);
        return enc;
      }
      payload := payload + enc.value;
      i := i + 1;
    }
    assert fs[..i] == fs;
    return Success(Write(Outer(tag), payload));
  }

  lemma NothingEncoded()
    ensures EncodeAll([]) == Success([])
  {
  }

  /** The Encode methods of the filter types. */
  method EncodeFilter(f: Filter) returns (r: Result<bytes, CodecError>)
    requires HasNoSubstrings(f)
    ensures r == Encode(f)
    decreases f, 1
  {
    hide EncodeAll, IsDescr, Write, AssertionPayload, MatchPayload;
    match f
    case And(fs) => r := EncodeFilterSet(AND_TAG, fs);
    case Or(fs) => r := EncodeFilterSet(OR_TAG, fs);
    case Not(g) =>
      var enc := EncodeFilter(g);
      r := if enc.Success? then Success(Write(Outer(NOT_TAG), enc.value)) else enc;
    case Assertion(op, desc, value) =>
      var ok := IsDescrLoop(desc);
      var enc := Write(Outer(AssertionTag(op)), AssertionPayload(desc, value));
      r := if ok then Success(enc) else Failure(BadDescriptor);
    case Present(desc) => r := Success(Write(Inner(PRESENT_TAG), desc));
    case Extensible(rule, typ, value, dn) =>
      r := Success(Write(Outer(EXTENSIBLE_TAG), MatchPayload(rule, typ, value, dn)));
    case Invalid => r := Failure(NoFilter);
    case Nil => r := Failure(NoFilter);
  }

  // ----- literal octets -----

  /** The identifier octets of section 4.5.1 of RFC 4511, on short filters. */
  lemma FilterOctets()
    ensures Encode(And([])) == Success([0xA0, 0x00]) && Encode(Or([])) == Success([0xA1, 0x00])
    ensures Encode(Not(Present([99]))) == Success([0xA2, 0x03, 0x87, 0x01, 99])
    ensures Encode(Assertion(Equal, [99], [1])) == Success([0xA3, 0x06, 0x04, 0x01, 99, 0x04, 0x01, 1])
    ensures Encode(Assertion(GreaterOrEqual, [99], [1])) == Success([0xA5, 0x06, 0x04, 0x01, 99, 0x04, 0x01, 1])
    ensures Encode(Assertion(LessOrEqual, [99], [1])) == Success([0xA6, 0x06, 0x04, 0x01, 99, 0x04, 0x01, 1])
    ensures Encode(Assertion(Approximate, [99], [1])) == Success([0xA8, 0x06, 0x04, 0x01, 99, 0x04, 0x01, 1])
    ensures Encode(Extensible([114], [116], [118], true))
         == Success([0xA9, 0x0C, 0x81, 0x01, 114, 0x82, 0x01, 116, 0x83, 0x01, 118, 0x84, 0x01, 0xFF])
  {
    hide Write, IsDescr;
    ListOctets();
    NotOctets();
    hide Encode;
    forall op ensures Encode(Assertion(op, [99], [1]))
                   == Success([0xA0 + AssertionTag(op), 0x06, 0x04, 0x01, 99, 0x04, 0x01, 1]) {
      AssertionOctets(op);
    }
    ExtensibleOctets();
  }

  lemma ListOctets()
    ensures Encode(And([])) == Success([0xA0, 0x00]) && Encode(Or([])) == Success([0xA1, 0x00])
  {
    hide Write;
    ShortElement(AND_TAG, []);
    ShortElement(OR_TAG, []);
    assert [0xA0, 0x00] + [] == [0xA0, 0x00] && [0xA1, 0x00] + [] == [0xA1, 0x00];
  }

  lemma NotOctets()
    ensures Encode(Not(Present([99]))) == Success([0xA2, 0x03, 0x87, 0x01, 99])
  {
    hide Write;
    ShortElement(PRESENT_TAG, [99]);
    ShortElement(NOT_TAG, [0x87, 0x01, 99]);
    assert [0x87, 0x01] + [99] == [0x87, 0x01, 99];
    assert [0xA2, 0x03] + [0x87, 0x01, 99] == [0xA2, 0x03, 0x87, 0x01, 99];
  }

  lemma AssertionOctets(op: Operator)
    ensures Encode(Assertion(op, [99], [1])) == Success([0xA0 + AssertionTag(op), 0x06, 0x04, 0x01, 99, 0x04, 0x01, 1])
  {
    hide Write;
    var payload: bytes := [0x04, 0x01, 99, 0x04, 0x01, 1];
    assert IsDescr([99]);
    ShortElement(4, [99]);
    ShortElement(4, [1]);
    assert AssertionPayload([99], [1]) == [0x04, 0x01] + [99] + ([0x04, 0x01] + [1]) == payload;
    ShortElement(AssertionTag(op), payload);
    assert [0xA0 + AssertionTag(op), 0x06] + payload == [0xA0 + AssertionTag(op), 0x06, 0x04, 0x01, 99, 0x04, 0x01, 1];
  }

  lemma ExtensibleOctets()
    ensures Encode(Extensible([114], [116], [118], true))
         == Success([0xA9, 0x0C, 0x81, 0x01, 114, 0x82, 0x01, 116, 0x83, 0x01, 118, 0x84, 0x01, 0xFF])
  {
    hide Write;
    ShortElement(1, [114]);
    ShortElement(2, [116]);
    ShortElement(3, [118]);
    ShortElement(4, [255]);
    var payload: bytes := [0x81, 0x01, 114, 0x82, 0x01, 116, 0x83, 0x01, 118, 0x84, 0x01, 0xFF];
    assert MatchPayload([114], [116], [118], true) == payload;
    ShortElement(EXTENSIBLE_TAG, payload);
    assert [0xA9, 0x0C] + payload == [0xA9, 0x0C, 0x81, 0x01, 114, 0x82, 0x01, 116, 0x83, 0x01, 118, 0x84, 0x01, 0xFF];
  }
}
