/** subtree_asn1.go: whole subtree specifications (section 2.1 of RFC 3672) in DER and back. */
module SpecificationDer {
  import opened Bytes
  import opened Wrappers
  import opened Tlv
  import opened SubtreeDer
  import R = Refinements

  datatype Exclusion = Exclusion(before: bytes, after: bytes)

  /** The fields of a SubtreeSpecification; a filter that is not there is `Nil`. */
  datatype Fields = Fields(base: bytes, exclusions: seq<Exclusion>, minimum: int, maximum: int, filter: R.Refinement)

  const EMPTY := Fields([], [], 0, 0, R.Nil)

  // context tag numbers (subtree_asn1.go:15-28)
  const BASE := 0
  const CHOP := 1
  const FILTER := 2
  const EXCLUSIONS := 0
  const MINIMUM := 1
  const MAXIMUM := 2
  const CHOP_BEFORE := 0
  const CHOP_AFTER := 1
  const EXCLUSION := 3

  // ----- encoding -----

  /** A component that is left out when it is empty. */
  function TextField(n: nat, x: bytes): (b: bytes)
    requires n < 31
    ensures |b| >= |x|
  {
    if x == [] then [] else Context(n, Utf8Text(x))
  }

  function NumberField(n: nat, x: int): bytes
    requires n < 31
  {
    if x == 0 then [] else Context(n, IntegerText(x))
  }

  function ExclusionText(x: Exclusion): bytes {
    Context(EXCLUSION, TextField(CHOP_BEFORE, x.before) + TextField(CHOP_AFTER, x.after))
  }

  function ExclusionsText(xs: seq<Exclusion>): bytes {
    if xs == [] then [] else ExclusionText(xs[0]) + ExclusionsText(xs[1..])
  }

  function ExclusionsField(xs: seq<Exclusion>): bytes {
    if xs == [] then [] else Context(EXCLUSIONS, ExclusionsText(xs))
  }

  function ChopText(s: Fields): bytes {
    ExclusionsField(s.exclusions) + (NumberField(MINIMUM, s.minimum) + NumberField(MAXIMUM, s.maximum))
  }

  function ChopField(s: Fields): bytes {
    if ChopText(s) == [] then [] else Context(CHOP, ChopText(s))
  }

  /** A filter that cannot be encoded is dropped without an error. */
  function FilterField(f: R.Refinement): bytes {
    if f.Nil? || Encode(f).Failure? then [] else Context(FILTER, Encode(f).value)
  }

  function EncodeFields(s: Fields): bytes {
    [1] + (TextField(BASE, s.base) + (ChopField(s) + FilterField(s.filter)))
  }

  // ----- decoding -----

  /** The receiver after a step, and whether the step succeeded. */
  datatype Outcome<T> = Outcome(state: T, ok: bool)

  /** decodeSpecificExclusion: a bad text ends the loop. */
  function DecodeExclusion(x: Exclusion, rest: bytes): Outcome<Exclusion>
    decreases |rest|
  {
    if rest == [] then Outcome(x, true)
    else
      var r := ReadElement(rest);
      if r.Failure? then Outcome(x, false)
      else
        var e := r.value;
        if e.tag.cls != CONTEXT then DecodeExclusion(x, rest[e.size..])
        else
          var t := ReadText(e.payload);
          var value := if t.Success? then t.value else [];
          var y := if e.tag.number == CHOP_BEFORE then x.(before := value)
                   else if e.tag.number == CHOP_AFTER then x.(after := value) else x;
          if t.Success? then DecodeExclusion(y, rest[e.size..]) else Outcome(y, false)
  }

  /** decodeExclusions: an error only ends the loop. */
  function DecodeExclusions(xs: seq<Exclusion>, rest: bytes): seq<Exclusion>
    decreases |rest|
  {
    if rest == [] then xs
    else
      var r := ReadElement(rest);
      if r.Failure? then xs
      else
        var e := r.value;
        if e.tag.cls != CONTEXT || e.tag.number != EXCLUSION then DecodeExclusions(xs, rest[e.size..])
        else
          var o := DecodeExclusion(Exclusion([], []), e.payload);
          if o.ok then DecodeExclusions(xs + [o.state], rest[e.size..]) else xs
  }

  function ChopStep(s: Fields, e: Element): Fields {
    if e.tag.cls != CONTEXT then s
    else if e.tag.number == EXCLUSIONS then s.(exclusions := DecodeExclusions(s.exclusions, e.payload))
    else if e.tag.number == MINIMUM then s.(minimum := ReadNative(e.payload))
    else if e.tag.number == MAXIMUM then s.(maximum := ReadNative(e.payload))
    else s
  }

  function DecodeChop(s: Fields, rest: bytes): Outcome<Fields>
    decreases |rest|
  {
    if rest == [] then Outcome(s, true)
    else
      var r := ReadElement(rest);
      if r.Failure? then Outcome(s, false) else DecodeChop(ChopStep(s, r.value), rest[r.value.size..])
  }

  function DecodeBase(s: Fields, payload: bytes): Outcome<Fields> {
    if payload == [] then Outcome(s.(base := []), true)
    else
      var t := ReadText(payload);
      if t.Success? then Outcome(s.(base := t.value), true) else Outcome(s, false)
  }

  function DecodeFilter(s: Fields, payload: bytes): Outcome<Fields> {
    if payload == [] then Outcome(s.(filter := R.Nil), true)
    else
      var f := Decode(payload);
      if f.Success? then Outcome(s.(filter := f.value), true) else Outcome(s, false)
  }

  function FieldStep(s: Fields, e: Element): Outcome<Fields> {
    if e.tag.cls != CONTEXT then Outcome(s, true)
    else if e.tag.number == BASE then DecodeBase(s, e.payload)
    else if e.tag.number == CHOP then DecodeChop(s, e.payload)
    else if e.tag.number == FILTER then DecodeFilter(s, e.payload)
    else Outcome(s, true)
  }

  function DecodeRest(s: Fields, rest: bytes): Outcome<Fields>
    decreases |rest|
  {
    if rest == [] then Outcome(s, true)
    else
      var r := ReadElement(rest);
      if r.Failure? then Outcome(s, false)
      else
        var o := FieldStep(s, r.value);
        if o.ok then DecodeRest(o.state, rest[r.value.size..]) else o
  }

  /** decodeSubtreeSpecification, from what the receiver already holds. */
  function DecodeFields(s: Fields, enc: bytes): Outcome<Fields> {
    if enc == [] || enc[0] != 1 then Outcome(s, false) else DecodeRest(s, enc[1..])
  }

  // ----- unfolding -----

  lemma ExclusionStep(x: Exclusion, n: nat, v: bytes, rest: bytes)
    requires n == CHOP_BEFORE || n == CHOP_AFTER
    requires |v| + 6 < MAX_LENGTH
    ensures DecodeExclusion(x, TextField(n, v) + rest)
         == DecodeExclusion(if v == [] then x else if n == CHOP_BEFORE then x.(before := v) else x.(after := v), rest)
  {
    if v == [] {
      assert [] + rest == rest;
    } else {
      TextSize(v);
      ContextRoundTrip(n, Utf8Text(v), rest);
      TextRoundTrip(v);
      hide Context, ReadElement, ReadText, Utf8Text;
      assert TextField(n, v) + rest != [];
    }
  }

  lemma TextSize(v: bytes)
    requires |v| < MAX_LENGTH
    ensures |Utf8Text(v)| <= |v| + 6
  {
    if |v| >= 128 {
      BigEndianSize(|v|);
    }
  }

  lemma ExclusionRoundTrip(x: Exclusion)
    requires |ExclusionText(x)| < MAX_LENGTH - 8
    ensures DecodeExclusion(Exclusion([], []), TextField(CHOP_BEFORE, x.before) + TextField(CHOP_AFTER, x.after))
         == Outcome(x, true)
  {
    hide DecodeExclusion, TextField;
    var a, b := TextField(CHOP_BEFORE, x.before), TextField(CHOP_AFTER, x.after);
    ExclusionStep(Exclusion([], []), CHOP_BEFORE, x.before, b);
    assert b + [] == b;
    ExclusionStep(Exclusion(x.before, []), CHOP_AFTER, x.after, []);
    ExclusionEnd(x);
  }

  lemma ExclusionEnd(x: Exclusion)
    ensures DecodeExclusion(x, []) == Outcome(x, true)
  {
  }

  lemma {:induction false} ExclusionsRoundTrip(done: seq<Exclusion>, xs: seq<Exclusion>)
    requires |ExclusionsText(xs)| < MAX_LENGTH - 8
    ensures DecodeExclusions(done, ExclusionsText(xs)) == done + xs
    decreases |xs|
  {
    hide DecodeExclusions, ExclusionText, ExclusionsText;
    if xs == [] {
      ExclusionsEnd(done);
      assert done + xs == done;
    } else {
      ExclusionsCons(xs);
      ExclusionsStep(done, xs[0], ExclusionsText(xs[1..]));
      ExclusionsRoundTrip(done + [xs[0]], xs[1..]);
      assert done + [xs[0]] + xs[1..] == done + xs;
    }
  }

  lemma ExclusionsEnd(done: seq<Exclusion>)
    ensures ExclusionsText([]) == [] && DecodeExclusions(done, []) == done
  {
  }

  lemma ExclusionsCons(xs: seq<Exclusion>)
    requires xs != []
    ensures ExclusionsText(xs) == ExclusionText(xs[0]) + ExclusionsText(xs[1..])
  {
  }

  lemma ExclusionsStep(done: seq<Exclusion>, x: Exclusion, rest: bytes)
    requires |ExclusionText(x)| < MAX_LENGTH - 8
    ensures DecodeExclusions(done, ExclusionText(x) + rest) == DecodeExclusions(done + [x], rest)
  {
    var p := TextField(CHOP_BEFORE, x.before) + TextField(CHOP_AFTER, x.after);
    ExclusionRoundTrip(x);
    ContextRoundTrip(EXCLUSION, p, rest);
    hide Context, ReadElement, DecodeExclusion, TextField;
    assert ExclusionText(x) + rest != [];
  }

  lemma ChopUnfold(s: Fields, n: nat, p: bytes, rest: bytes)
    requires n < 31 && |p| < MAX_LENGTH
    ensures var e := Element(ContextTag(n), p, |Context(n, p)|);
            DecodeChop(s, Context(n, p) + rest) == DecodeChop(ChopStep(s, e), rest)
  {
    ContextRoundTrip(n, p, rest);
    hide Context, ReadElement, ChopStep;
    assert Context(n, p) + rest != [];
  }

  lemma NumberRoundTrip(s: Fields, n: nat, x: int, rest: bytes)
    requires IsInt64(x) && (n == MINIMUM || n == MAXIMUM)
    requires n == MINIMUM ==> s.minimum == 0
    requires n == MAXIMUM ==> s.maximum == 0
    ensures DecodeChop(s, NumberField(n, x) + rest)
         == DecodeChop(if n == MINIMUM then s.(minimum := x) else s.(maximum := x), rest)
  {
    hide DecodeChop, IntegerText, ReadNative, Context;
    if x == 0 {
      assert [] + rest == rest;
    } else {
      NativeRoundTrip(x);
      ChopUnfold(s, n, IntegerText(x), rest);
    }
  }

  lemma ExclusionsFieldRoundTrip(s: Fields, xs: seq<Exclusion>, rest: bytes)
    requires |ExclusionsField(xs)| < MAX_LENGTH - 8 && s.exclusions == []
    ensures DecodeChop(s, ExclusionsField(xs) + rest) == DecodeChop(s.(exclusions := xs), rest)
  {
    hide DecodeChop, DecodeExclusions, ExclusionsText;
    if xs == [] {
      assert [] + rest == rest;
    } else {
      ExclusionsRoundTrip([], xs);
      ChopUnfold(s, EXCLUSIONS, ExclusionsText(xs), rest);
      assert [] + xs == xs;
    }
  }

  predicate IsFresh(s: Fields) { s.exclusions == [] && s.minimum == 0 && s.maximum == 0 }

  lemma ChopRoundTrip(s: Fields, t: Fields)
    requires IsFresh(s) && IsInt64(t.minimum) && IsInt64(t.maximum) && |ChopText(t)| < MAX_LENGTH - 8
    ensures DecodeChop(s, ChopText(t))
         == Outcome(s.(exclusions := t.exclusions, minimum := t.minimum, maximum := t.maximum), true)
  {
    hide DecodeChop, ExclusionsField, NumberField;
    var a, b, c := ExclusionsField(t.exclusions), NumberField(MINIMUM, t.minimum), NumberField(MAXIMUM, t.maximum);
    ExclusionsFieldRoundTrip(s, t.exclusions, b + c);
    var s1 := s.(exclusions := t.exclusions);
    NumberRoundTrip(s1, MINIMUM, t.minimum, c);
    var s2 := s1.(minimum := t.minimum);
    assert c + [] == c;
    NumberRoundTrip(s2, MAXIMUM, t.maximum, []);
    ChopEnd(s2.(maximum := t.maximum));
  }

  lemma ChopEnd(s: Fields)
    ensures DecodeChop(s, []) == Outcome(s, true)
  {
  }

  // ----- the round trip -----

  lemma RestUnfold(s: Fields, n: nat, p: bytes, rest: bytes)
    requires n < 31 && |p| < MAX_LENGTH
    ensures var o := FieldStep(s, Element(ContextTag(n), p, |Context(n, p)|));
            DecodeRest(s, Context(n, p) + rest) == if o.ok then DecodeRest(o.state, rest) else o
  {
    ContextRoundTrip(n, p, rest);
    hide Context, ReadElement, FieldStep;
    assert Context(n, p) + rest != [];
  }

  lemma RestEnd(s: Fields)
    ensures DecodeRest(s, []) == Outcome(s, true)
  {
  }

  lemma BaseRoundTrip(s: Fields, x: bytes, rest: bytes)
    requires |x| < MAX_LENGTH - 8 && s.base == []
    ensures DecodeRest(s, TextField(BASE, x) + rest) == DecodeRest(s.(base := x), rest)
  {
    hide DecodeRest, Utf8Text, ReadText;
    if x == [] {
      assert [] + rest == rest;
    } else {
      TextSize(x);
      TextRoundTrip(x);
      RestUnfold(s, BASE, Utf8Text(x), rest);
    }
  }

  lemma ChopFieldRoundTrip(s: Fields, t: Fields, rest: bytes)
    requires IsFresh(s) && IsInt64(t.minimum) && IsInt64(t.maximum) && |ChopText(t)| < MAX_LENGTH - 8
    ensures DecodeRest(s, ChopField(t) + rest)
         == DecodeRest(s.(exclusions := t.exclusions, minimum := t.minimum, maximum := t.maximum), rest)
  {
    hide DecodeRest, DecodeChop, ChopText;
    ChopRoundTrip(s, t);
    if ChopText(t) == [] {
      ChopEnd(s);
      assert [] + rest == rest;
    } else {
      RestUnfold(s, CHOP, ChopText(t), rest);
    }
  }

  /** The filter comes back, counts as missing, or makes the decoder fail. */
  lemma FilterRoundTrip(s: Fields, f: R.Refinement)
    requires s.filter.Nil? && |FilterField(f)| < MAX_LENGTH
    ensures DecodeRest(s, FilterField(f)) == Outcome(s.(filter := f), true)
       <==> f.Nil? || (R.IsComplete(f) && HasNoEmptyItem(f))
  {
    hide DecodeRest, Encode, Decode, R.IsComplete, HasNoEmptyItem;
    RestEnd(s);
    EncodedKinds(f);
    if !f.Nil? && Encode(f).Success? {
      var b := Encode(f).value;
      assert b + [] == b && FilterField(f) + [] == FilterField(f);
      RestUnfold(s, FILTER, b, []);
      RefinementRoundTrip(f, []);
      RestEnd(DecodeFilter(s, b).state);
    }
  }

  /** What fails to encode is incomplete, and nothing but nil encodes to nothing. */
  lemma EncodedKinds(f: R.Refinement)
    ensures Encode(f).Failure? ==> !R.IsComplete(f)
    ensures Encode(f).Success? && !f.Nil? ==> Encode(f).value != []
  {
    if R.IsComplete(f) {
      CompleteIsEncoded(f);
    }
    if !f.Nil? && !f.Invalid? {
      EncodeStep(f);
    }
  }

  /** Lengths that fit the four-octet form, and BaseDistance values that fit an int64. */
  predicate IsInRange(s: Fields) {
    IsInt64(s.minimum) && IsInt64(s.maximum) && |EncodeFields(s)| < MAX_LENGTH - 8
  }

  /**
    Base, every exclusion in order, both distances and the whole refinement are restored exactly when there is no
    refinement, or a complete one in which no item is empty.
   */
  lemma SpecificationRoundTrip(s: Fields)
    requires IsInRange(s)
    ensures DecodeFields(EMPTY, EncodeFields(s)) == Outcome(s, true)
       <==> s.filter.Nil? || (R.IsComplete(s.filter) && HasNoEmptyItem(s.filter))
  {
    hide DecodeRest, TextField, ChopField, FilterField, R.IsComplete, HasNoEmptyItem, Encode;
    var a, b, c := TextField(BASE, s.base), ChopField(s), FilterField(s.filter);
    assert EncodeFields(s)[1..] == a + (b + c);
    ChopTextFits(s);
    BaseRoundTrip(EMPTY, s.base, b + c);
    var s1 := EMPTY.(base := s.base);
    ChopFieldRoundTrip(s1, s, c);
    var s2 := s1.(exclusions := s.exclusions, minimum := s.minimum, maximum := s.maximum);
    FilterRoundTrip(s2, s.filter);
  }

  /** With the negation of an invalid refinement, the specification is encoded and decoded as if it had none. */
  lemma InvalidFilterIsLost()
    ensures var s := EMPTY.(filter := R.Not(R.Invalid));
            IsInRange(s) && DecodeFields(EMPTY, EncodeFields(s)) == Outcome(EMPTY, true)
  {
    InvalidIsNotEncoded();
    hide DecodeFields, Encode;
    SpecificationRoundTrip(EMPTY);
  }

  lemma InvalidIsNotEncoded()
    ensures Encode(R.Not(R.Invalid)).Failure?
  {
  }

  lemma ChopTextFits(s: Fields)
    ensures |ChopText(s)| <= |ChopField(s)|
  {
  }

  // ----- the receiver -----

  method EncodeExclusions(xs: seq<Exclusion>) returns (exSeq: bytes)
    ensures exSeq == ExclusionsText(xs)
  {
    hide ExclusionsText, Context, Utf8Text;
    exSeq := [];
    ExclusionsEnd([]);
    assert xs[..0] == [];
    for i := 0 to |xs|
      invariant exSeq == ExclusionsText(xs[..i])
    {
      var one: bytes := [];
      if |xs[i].before| > 0 {
        one := one + Context(CHOP_BEFORE, Utf8Text(xs[i].before));
      }
      if |xs[i].after| > 0 {
        one := one + Context(CHOP_AFTER, Utf8Text(xs[i].after));
      }
      assert one == TextField(CHOP_BEFORE, xs[i].before) + TextField(CHOP_AFTER, xs[i].after);
      assert xs[..i + 1] == xs[..i] + [xs[i]];
      ExclusionsSnoc(xs[..i], xs[i]);
      exSeq := exSeq + Context(EXCLUSION, one);
    }
    assert xs[..|xs|] == xs;
  }

  lemma {:induction false} ExclusionsSnoc(xs: seq<Exclusion>, x: Exclusion)
    ensures ExclusionsText(xs + [x]) == ExclusionsText(xs) + ExclusionText(x)
    decreases |xs|
  {
    hide ExclusionsText, ExclusionText;
    ExclusionsEnd([]);
    ExclusionsCons(xs + [x]);
    if xs == [] {
      assert [] + [x] == [x] && [x][1..] == [];
      assert ExclusionText(x) + [] == [] + ExclusionText(x);
    } else {
      ExclusionsCons(xs);
      assert (xs + [x])[1..] == xs[1..] + [x];
      ExclusionsSnoc(xs[1..], x);
      assert ExclusionText(xs[0]) + (ExclusionsText(xs[1..]) + ExclusionText(x))
          == ExclusionText(xs[0]) + ExclusionsText(xs[1..]) + ExclusionText(x);
    }
  }

  method DecodeSpecificExclusion(payload: bytes) returns (x: Exclusion, ok: bool)
    ensures Outcome(x, ok) == DecodeExclusion(Exclusion([], []), payload)
  {
    hide ReadText, DecodeExclusion;
    x, ok := Exclusion([], []), true;
    var p := 0;
    assert payload[0..] == payload;
    ExclusionUnrolled(x, payload);
    while p < |payload| && ok
      invariant 0 <= p <= |payload|
      invariant DecodeExclusion(Exclusion([], []), payload)
             == if ok then DecodeExclusion(x, payload[p..]) else Outcome(x, false)
      decreases |payload| - p, ok
    {
      ExclusionUnrolled(x, payload[p..]);
      var it := ReadElement(payload[p..]);
      if it.Failure? {
        ok := false;
      } else {
        var e := it.value;
        assert payload[p..][e.size..] == payload[p + e.size..];
        p := p + e.size;
        if e.tag.cls != CONTEXT {
          continue;
        }
        var t := ReadText(e.payload);
        ok := t.Success?;
        var value := if ok then t.value else [];
        if e.tag.number == CHOP_BEFORE {
          x := x.(before := value);
        } else if e.tag.number == CHOP_AFTER {
          x := x.(after := value);
        }
      }
    }
    ExclusionUnrolled(x, []);
  }

  lemma ExclusionUnrolled(x: Exclusion, rest: bytes)
    ensures rest == [] ==> DecodeExclusion(x, rest) == Outcome(x, true)
    ensures rest != [] ==>
              var r := ReadElement(rest);
              DecodeExclusion(x, rest) ==
                if r.Failure? then Outcome(x, false)
                else if r.value.tag.cls != CONTEXT then DecodeExclusion(x, rest[r.value.size..])
                else
                  var e, t := r.value, ReadText(r.value.payload);
                  var value := if t.Success? then t.value else [];
                  var y := if e.tag.number == CHOP_BEFORE then x.(before := value)
                           else if e.tag.number == CHOP_AFTER then x.(after := value) else x;
                  if t.Success? then DecodeExclusion(y, rest[e.size..]) else Outcome(y, false)
  {
    hide ReadText;
  }

  lemma ChopUnrolled(s: Fields, rest: bytes)
    requires rest != []
    ensures var r := ReadElement(rest);
            DecodeChop(s, rest) == if r.Failure? then Outcome(s, false)
                                   else DecodeChop(ChopStep(s, r.value), rest[r.value.size..])
  {
  }

  lemma ExclusionsUnrolled(xs: seq<Exclusion>, rest: bytes)
    requires rest != []
    ensures var r := ReadElement(rest);
            DecodeExclusions(xs, rest) ==
              if r.Failure? then xs
              else if r.value.tag.cls != CONTEXT || r.value.tag.number != EXCLUSION
              then DecodeExclusions(xs, rest[r.value.size..])
              else var o := DecodeExclusion(Exclusion([], []), r.value.payload);
                   if o.ok then DecodeExclusions(xs + [o.state], rest[r.value.size..]) else xs
  {
  }

  class SubtreeSpecification {
    var base: bytes
    var exclusions: seq<Exclusion>
    var minimum: int
    var maximum: int
    var filter: R.Refinement

    function View(): Fields
      reads this
    {
      Fields(base, exclusions, minimum, maximum, filter)
    }

    constructor ()
      ensures View() == EMPTY
    {
      base, exclusions, minimum, maximum, filter := [], [], 0, 0, R.Nil;
    }

    method Encode() returns (out: bytes)
      ensures out == EncodeFields(View())
    {
      hide Context, Utf8Text, ChopText, SubtreeDer.Encode;
      out := [1];
      if |base| > 0 {
        out := out + Context(BASE, Utf8Text(base));
      }
      assert out == [1] + TextField(BASE, base);
      var chopInner := EncodeChop();
      if |chopInner| > 0 {
        out := out + Context(CHOP, chopInner);
      }
      assert out == [1] + (TextField(BASE, base) + ChopField(View()));
      hide TextField, ChopField;
      if !filter.Nil? {
        var fbuf := EncodeRefinementDer([], filter);
        AppendNothing(SubtreeDer.Encode(filter));
        if fbuf.Success? {
          out := out + Context(FILTER, fbuf.value);
        }
      }
      assert out == [1] + (TextField(BASE, base) + ChopField(View())) + FilterField(filter);
    }

    method EncodeChop() returns (chopInner: bytes)
      ensures chopInner == ChopText(View())
    {
      hide Context, IntegerText, ExclusionsText;
      chopInner := [];
      if |exclusions| > 0 {
        var exSeq := EncodeExclusions(exclusions);
        chopInner := chopInner + Context(EXCLUSIONS, exSeq);
      }
      assert chopInner == ExclusionsField(exclusions);
      hide ExclusionsField;
      if minimum != 0 {
        chopInner := chopInner + Context(MINIMUM, IntegerText(minimum));
      }
      if maximum != 0 {
        chopInner := chopInner + Context(MAXIMUM, IntegerText(maximum));
      }
    }

    method Decode(enc: bytes) returns (ok: bool)
      modifies this
      ensures Outcome(View(), ok) == DecodeFields(old(View()), enc)
    {
      hide FieldStep;
      if |enc| == 0 {
        return false;
      }
      var p := 0;
      var ver := enc[p];
      p := p + 1;
      if ver != 1 {
        return false;
      }
      ok := true;
      while p < |enc| && ok
        invariant 1 <= p <= |enc|
        invariant DecodeRest(old(View()), enc[1..])
               == if ok then DecodeRest(View(), enc[p..]) else Outcome(View(), false)
        decreases |enc| - p, ok
      {
        var r := ReadElement(enc[p..]);
        if r.Failure? {
          ok := false;
        } else {
          assert enc[p..][r.value.size..] == enc[p + r.value.size..];
          p := p + r.value.size;
          ok := DecodeField(r.value);
        }
      }
    }

    method DecodeField(e: Element) returns (ok: bool)
      modifies this
      ensures Outcome(View(), ok) == FieldStep(old(View()), e)
    {
      hide SubtreeDer.Decode, ReadText, DecodeChop;
      ok := true;
      if e.tag.cls != CONTEXT {
        return;
      }
      if e.tag.number == BASE {
        if |e.payload| == 0 {
          base := [];
        } else {
          var x := ReadText(e.payload);
          ok := x.Success?;
          if ok {
            base := x.value;
          }
        }
      } else if e.tag.number == CHOP {
        ok := DecodeChopSpecification(e.payload);
      } else if e.tag.number == FILTER {
        if |e.payload| == 0 {
          filter := R.Nil;
        } else {
          var ref := DecodeRefinementDer(e.payload);
          ok := ref.Success?;
          if ok {
            filter := ref.value;
          }
        }
      }
    }

    method DecodeChopSpecification(payload: bytes) returns (ok: bool)
      modifies this
      ensures Outcome(View(), ok) == DecodeChop(old(View()), payload)
    {
      hide ReadNative, DecodeExclusions, DecodeChop, ReadElement;
      ok := true;
      var p := 0;
      assert payload[0..] == payload;
      while p < |payload| && ok
        invariant 0 <= p <= |payload|
        invariant DecodeChop(old(View()), payload)
               == if ok then DecodeChop(View(), payload[p..]) else Outcome(View(), false)
        decreases |payload| - p, ok
      {
        ChopUnrolled(View(), payload[p..]);
        var ct := ReadElement(payload[p..]);
        if ct.Failure? {
          ok := false;
        } else {
          var e := ct.value;
          assert payload[p..][e.size..] == payload[p + e.size..];
          p := p + e.size;
          if e.tag.cls != CONTEXT {
            continue;
          }
          if e.tag.number == EXCLUSIONS {
            DecodeExclusionList(e.payload);
          } else if e.tag.number == MINIMUM {
            minimum := ReadNative(e.payload);
          } else if e.tag.number == MAXIMUM {
            maximum := ReadNative(e.payload);
          }
        }
      }
      if ok {
        assert payload[p..] == [];
        ChopEnd(View());
      }
    }

    method DecodeExclusionList(payload: bytes)
      modifies this`exclusions
      ensures exclusions == DecodeExclusions(old(exclusions), payload)
    {
      hide DecodeExclusion, DecodeExclusions, ReadElement;
      var p := 0;
      var ok := true;
      assert payload[0..] == payload;
      while p < |payload| && ok
        invariant 0 <= p <= |payload|
        invariant DecodeExclusions(old(exclusions), payload)
               == if ok then DecodeExclusions(exclusions, payload[p..]) else exclusions
        decreases |payload| - p, ok
      {
        ExclusionsUnrolled(exclusions, payload[p..]);
        var r := ReadElement(payload[p..]);
        if r.Failure? {
          ok := false;
        } else {
          var e := r.value;
          assert payload[p..][e.size..] == payload[p + e.size..];
          p := p + e.size;
          if e.tag.cls != CONTEXT || e.tag.number != EXCLUSION {
            continue;
          }
          var x, good := DecodeSpecificExclusion(e.payload);
          ok := good;
          if ok {
            exclusions := exclusions + [x];
          }
        }
      }
      if ok {
        assert payload[p..] == [];
        ExclusionsEnd(exclusions);
      }
    }
  }

  // ----- literal octets -----

  /** Every field of a specification in its place: base, exclusions before and after, distances, refinement. */
  lemma SpecificationOctets()
    ensures var s := Fields([111], [Exclusion([98], [97])], 1, 2, R.Item([99]));
            EncodeFields(s) == [1] + ([0xA0, 0x03, 0x0C, 0x01, 111] + (ChopOctets() + FilterOctets()))
  {
    hide Write, ChopField, FilterField, ChopOctets, FilterOctets;
    TextOctets(BASE, 111);
    ChopIsOctets();
    FilterIsOctets();
  }

  function ChopOctets(): bytes {
    [0xA1, 0x18] +
    ([0xA0, 0x0C, 0xA3, 0x0A, 0xA0, 0x03, 0x0C, 0x01, 98, 0xA1, 0x03, 0x0C, 0x01, 97] +
     ([0xA1, 0x03, 0x02, 0x01, 1] + [0xA2, 0x03, 0x02, 0x01, 2]))
  }

  function FilterOctets(): bytes { [0xA2, 0x05, 0xA3, 0x03, 0x0C, 0x01, 99] }

  lemma TextOctets(n: nat, c: byte)
    requires n < 31
    ensures TextField(n, [c]) == [0xA0 + n, 0x03, 0x0C, 0x01, c]
  {
    hide Write;
    UniversalTags([c]);
    assert [0x0C, 0x01] + [c] == [0x0C, 0x01, c];
    ShortElement(n, [0x0C, 0x01, c]);
    assert [0xA0 + n, 0x03] + [0x0C, 0x01, c] == [0xA0 + n, 0x03, 0x0C, 0x01, c];
  }

  lemma NumberOctets(n: nat, x: byte)
    requires n < 31 && 0 < x < 128
    ensures NumberField(n, x) == [0xA0 + n, 0x03, 0x02, 0x01, x]
  {
    hide Write;
    assert TwosComplement(x) == [x];
    UniversalTags([x]);
    assert [0x02, 0x01] + [x] == [0x02, 0x01, x];
    ShortElement(n, [0x02, 0x01, x]);
    assert [0xA0 + n, 0x03] + [0x02, 0x01, x] == [0xA0 + n, 0x03, 0x02, 0x01, x];
  }

  lemma ExclusionOctets()
    ensures ExclusionsField([Exclusion([98], [97])])
         == [0xA0, 0x0C, 0xA3, 0x0A, 0xA0, 0x03, 0x0C, 0x01, 98, 0xA1, 0x03, 0x0C, 0x01, 97]
  {
    hide Write, TextField;
    TextOctets(CHOP_BEFORE, 98);
    TextOctets(CHOP_AFTER, 97);
    var x: bytes := [0xA0, 0x03, 0x0C, 0x01, 98, 0xA1, 0x03, 0x0C, 0x01, 97];
    assert [0xA0, 0x03, 0x0C, 0x01, 98] + [0xA1, 0x03, 0x0C, 0x01, 97] == x;
    ShortElement(3, x);
    var y: bytes := [0xA3, 0x0A, 0xA0, 0x03, 0x0C, 0x01, 98, 0xA1, 0x03, 0x0C, 0x01, 97];
    assert [0xA3, 0x0A] + x == y;
    var xs := [Exclusion([98], [97])];
    assert xs[1..] == [] && ExclusionsText([]) == [] && y + [] == y;
    ShortElement(0, y);
    assert [0xA0, 0x0C] + y == [0xA0, 0x0C, 0xA3, 0x0A, 0xA0, 0x03, 0x0C, 0x01, 98, 0xA1, 0x03, 0x0C, 0x01, 97];
  }

  lemma ChopIsOctets()
    ensures ChopField(Fields([111], [Exclusion([98], [97])], 1, 2, R.Item([99]))) == ChopOctets()
  {
    hide Write, ExclusionsField, NumberField;
    ExclusionOctets();
    NumberOctets(MINIMUM, 1);
    NumberOctets(MAXIMUM, 2);
    ShortElement(1, [0xA0, 0x0C, 0xA3, 0x0A, 0xA0, 0x03, 0x0C, 0x01, 98, 0xA1, 0x03, 0x0C, 0x01, 97]
                      + ([0xA1, 0x03, 0x02, 0x01, 1] + [0xA2, 0x03, 0x02, 0x01, 2]));
  }

  lemma FilterIsOctets()
    ensures FilterField(R.Item([99])) == FilterOctets()
  {
    hide Write;
    RefinementOctets();
    ShortElement(2, [0xA3, 0x03, 0x0C, 0x01, 99]);
  }
}
