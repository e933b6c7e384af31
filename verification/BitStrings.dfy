/**
  bitstr.go: bit strings (section 3.3.2 of RFC 4517) with the most significant bit first, their text form and
  their BER form (section 8.6 of ITU-T X.690).
 */
module BitStrings {
  import opened Bytes
  import opened Wrappers
  import opened Bits
  import Tlv

  const LETTER_B: byte := 66
  const ZERO: byte := 48
  const ONE: byte := 49

  lemma DigitLiterals()
    ensures [SQUOTE, ONE, ZERO, SQUOTE, LETTER_B] == Ascii("'10'B")
  {
  }

  /** The two fields of a BitString. */
  datatype Value = Value(octets: bytes, length: int)

  /** Position `p` counts from the most significant bit of the first octet. */
  predicate HasBit(s: bytes, p: int) {
    0 <= p && p / 8 < |s| && Bit(s[p / 8], 7 - p % 8)
  }

  function Ceiling(length: int): int { (length + 7) / 8 }

  /** As many octets as the length calls for, and nothing set behind it. */
  predicate IsCanonical(v: Value) {
    && 0 <= v.length && |v.octets| == Ceiling(v.length)
    && forall p :: v.length <= p < 8 * |v.octets| ==> !HasBit(v.octets, p)
  }

  /** A canonical value is determined by its length and its set positions. */
  lemma CanonicalIsUnique(v: Value, w: Value)
    requires IsCanonical(v) && IsCanonical(w) && v.length == w.length
    requires forall p :: 0 <= p < v.length ==> (HasBit(v.octets, p) <==> HasBit(w.octets, p))
    ensures v == w
  {
    forall i | 0 <= i < |v.octets| ensures v.octets[i] == w.octets[i] {
      Eight();
      forall k | 0 <= k < 8 ensures Bit(v.octets[i], k) <==> Bit(w.octets[i], k) {
        var p := 8 * i + 7 - k;
        assert p / 8 == i && 7 - p % 8 == k;
        assert HasBit(v.octets, p) <==> Bit(v.octets[i], k);
        assert HasBit(w.octets, p) <==> Bit(w.octets[i], k);
      }
      SameBits(v.octets[i], w.octets[i], 8);
    }
  }

  // ----- Set, Unset, Has -----

  /** `old | mask` turns on one position, whatever lies behind the octet. */
  lemma SetOctet(s: bytes, pos: nat, t: bytes)
    requires pos / 8 < |s| && t == s[pos / 8 := ByteOr(s[pos / 8], Mask(7 - pos % 8))]
    ensures forall p :: HasBit(t, p) <==> HasBit(s, p) || p == pos
  {
    forall p ensures HasBit(t, p) <==> HasBit(s, p) || p == pos {
      if 0 <= p && p / 8 == pos / 8 {
        var k := 7 - p % 8;
        OrBit(s[pos / 8], Mask(7 - pos % 8), k);
        PowBit(7 - pos % 8, k);
      }
    }
  }

  lemma ClearOctet(s: bytes, pos: nat, t: bytes)
    requires pos / 8 < |s| && t == s[pos / 8 := ByteAndNot(s[pos / 8], Mask(7 - pos % 8))]
    ensures forall p :: HasBit(t, p) <==> HasBit(s, p) && p != pos
  {
    forall p ensures HasBit(t, p) <==> HasBit(s, p) && p != pos {
      if 0 <= p && p / 8 == pos / 8 {
        var k := 7 - p % 8;
        AndNotBit(s[pos / 8], Mask(7 - pos % 8), k);
        PowBit(7 - pos % 8, k);
      }
    }
  }

  /** Zero octets add nothing. */
  lemma PaddedBits(s: bytes, t: bytes)
    requires s <= t && forall i :: |s| <= i < |t| ==> t[i] == 0
    ensures forall p :: HasBit(t, p) <==> HasBit(s, p)
  {
    forall p ensures HasBit(t, p) <==> HasBit(s, p) {
      if 0 <= p && |s| <= p / 8 < |t| {
        NoBits(7 - p % 8);
      }
    }
  }

  class BitString {
    var octets: array<byte>
    var bitLength: int

    function View(): Value
      reads this, octets
    {
      Value(octets[..], bitLength)
    }

    constructor ()
      ensures View() == Value([], 0) && fresh(octets)
    {
      octets := new byte[0];
      bitLength := 0;
    }

    method Set(pos: int)
      modifies this, octets
      ensures octets == old(octets) || fresh(octets)
      ensures pos < 0 ==> View() == old(View())
      ensures pos >= 0 ==> forall p :: HasBit(View().octets, p) <==> HasBit(old(View().octets), p) || p == pos
      ensures pos >= 0 ==> bitLength == if pos + 1 > old(bitLength) then pos + 1 else old(bitLength)
      ensures pos >= 0 ==> var n := |old(View().octets)|; |View().octets| == if pos / 8 >= n then pos / 8 + 1 else n
    {
      if pos < 0 {
        return;
      }
      var byteIndex := pos / 8;
      var bitOffset := 7 - pos % 8;
      ghost var before := octets[..];
      if byteIndex >= octets.Length {
        var newBytes := Extended(byteIndex + 1);
        octets := newBytes;
        PaddedBits(before, octets[..]);
      }
      ghost var padded := octets[..];
      octets[byteIndex] := ByteOr(octets[byteIndex], Mask(bitOffset));
      SetOctet(padded, pos, octets[..]);
      if pos + 1 > bitLength {
        bitLength := pos + 1;
      }
    }

    /** A longer array with the same front and zeros behind it: make and copy. */
    method Extended(length: nat) returns (a: array<byte>)
      requires octets.Length < length
      ensures fresh(a) && a.Length == length && octets[..] <= a[..]
      ensures forall i :: octets.Length <= i < length ==> a[..][i] == 0
    {
      a := new byte[length](i => 0);
      for i := 0 to octets.Length
        invariant forall k :: 0 <= k < i ==> a[k] == octets[k]
        invariant forall k :: i <= k < length ==> a[k] == 0
      {
        a[i] := octets[i];
      }
    }

    method Unset(pos: int)
      modifies octets
      ensures forall p :: HasBit(View().octets, p) <==> HasBit(old(View().octets), p) && p != pos
      ensures bitLength == old(bitLength) && octets == old(octets)
    {
      if pos < 0 {
        return;
      }
      var byteIndex := pos / 8;
      if byteIndex >= octets.Length {
        return;
      }
      var bitOffset := 7 - pos % 8;
      ghost var before := octets[..];
      octets[byteIndex] := ByteAndNot(octets[byteIndex], Mask(bitOffset));
      ClearOctet(before, pos, octets[..]);
    }

    method Has(pos: int) returns (r: bool)
      ensures r <==> HasBit(View().octets, pos)
    {
      if pos < 0 {
        return false;
      }
      var byteIndex := pos / 8;
      if byteIndex >= octets.Length {
        return false;
      }
      return Bit(octets[byteIndex], 7 - pos % 8);
    }

    method Encode() returns (enc: Option<bytes>)
      ensures enc == EncodeValue(View())
    {
      if bitLength < 0 {
        return None;
      }
      if octets.Length == 0 && bitLength != 0 {
        return None;
      }
      var pad := Padding(bitLength);
      return Some(Tlv.Write(BIT_STRING, [pad] + octets[..]));
    }

    method Decode(enc: bytes) returns (ok: bool)
      modifies this
      ensures ok <==> DecodeValue(enc).Some?
      ensures ok ==> View() == DecodeValue(enc).value && fresh(octets)
      ensures !ok ==> View() == old(View())
    {
      hide Tlv.ReadExpected, LowBits, DecodeValue, PayloadValue;
      DecodeStep(enc);
      var e := Tlv.ReadExpected(enc, BIT_STRING);
      if e.Failure? {
        return false;
      }
      var v := e.value.payload;
      PayloadStep(v);
      if |v| == 0 {
        return false;
      }
      var pad := v[0];
      if pad > 7 || (|v| == 1 && pad != 0) {
        return false;
      }
      if pad > 0 {
        var last := v[|v| - 1];
        if LowBits(last, pad) != 0 {
          return false;
        }
      }
      bitLength := (|v| - 1) * 8 - pad;
      octets := new byte[|v| - 1](i requires 0 <= i < |v| - 1 => v[i + 1]);
      assert octets[..] == v[1..];
      return true;
    }
  }

  // ----- runs -----

  datatype Op = SetBit(pos: int) | UnsetBit(pos: int)

  /** The plain set of positions after a run from the empty string. */
  function Positions(ops: seq<Op>): set<int> {
    if ops == [] then {}
    else
      Applied(Positions(ops[..|ops| - 1]), ops[|ops| - 1])
  }

  function Applied(s: set<int>, op: Op): set<int> {
    match op
    case SetBit(pos) => if pos < 0 then s else s + {pos}
    case UnsetBit(pos) => s - {pos}
  }

  /** One more than the highest position ever set. */
  function HighWater(ops: seq<Op>): nat {
    if ops == [] then 0
    else
      var n, op := HighWater(ops[..|ops| - 1]), ops[|ops| - 1];
      if op.SetBit? && op.pos + 1 > n then op.pos + 1 else n
  }

  lemma {:induction false} PositionsBelowHighWater(ops: seq<Op>)
    ensures forall p :: p in Positions(ops) ==> 0 <= p < HighWater(ops)
  {
    if ops != [] {
      PositionsBelowHighWater(ops[..|ops| - 1]);
    }
  }

  lemma RunStep(ops: seq<Op>, op: Op)
    ensures Positions(ops + [op]) == Applied(Positions(ops), op)
    ensures HighWater(ops + [op]) == if op.SetBit? && op.pos + 1 > HighWater(ops) then op.pos + 1 else HighWater(ops)
  {
    assert (ops + [op])[..|ops|] == ops;
  }

  /**
    Every run of Set and Unset from the empty string: the positions agree with a plain set, there are exactly as
    many octets as the length calls for, and the padding is zero.
   */
  method Run(ops: seq<Op>) returns (b: BitString)
    ensures fresh(b) && b.bitLength == HighWater(ops)
    ensures forall p :: HasBit(b.View().octets, p) <==> p in Positions(ops)
    ensures IsCanonical(b.View())
  {
    b := new BitString();
    for i := 0 to |ops|
      invariant fresh(b) && fresh(b.octets)
      invariant b.bitLength == HighWater(ops[..i]) && |b.View().octets| == Ceiling(b.bitLength)
      invariant forall p :: HasBit(b.View().octets, p) <==> p in Positions(ops[..i])
    {
      assert ops[..i + 1] == ops[..i] + [ops[i]];
      RunStep(ops[..i], ops[i]);
      match ops[i]
      case SetBit(pos) => b.Set(pos);
      case UnsetBit(pos) => b.Unset(pos);
    }
    assert ops[..|ops|] == ops;
    PositionsBelowHighWater(ops);
  }

  // ----- RightAlign -----

  function Shift(length: nat): nat { if length % 8 == 0 then 0 else 8 - length % 8 }

  /** One output octet from two neighbours. */
  function Joined(x: byte, y: byte, shift: nat): byte
    requires 0 < shift < 8
  {
    ByteOr(Left(x, 8 - shift), Right(y, shift))
  }

  lemma JoinedIsSum(x: byte, y: byte, shift: nat)
    requires 0 < shift < 8
    ensures Joined(x, y, shift) as int == x as int % Pow2(shift) * Pow2(8 - shift) + y as int / Pow2(shift)
  {
    Eight();
    var low := x as int % Pow2(shift);
    LeftIsLow(x, shift);
    OrIsSum(low, Right(y, shift), 8 - shift);
  }

  lemma PowersSplit(shift: nat)
    requires 0 < shift < 8
    ensures Pow2(shift) * Pow2(8 - shift) == 256
  {
    Eight();
  }

  lemma LeftIsLow(x: byte, shift: nat)
    requires 0 < shift < 8
    ensures Left(x, 8 - shift) as int == x as int % Pow2(shift) * Pow2(8 - shift)
    ensures Right(x, shift) as int < Pow2(8 - shift)
  {
    PowersSplit(shift);
    LeftArithmetic(x as int, Pow2(shift), Pow2(8 - shift));
  }

  lemma LeftArithmetic(x: int, p: int, r: int)
    requires 0 <= x < 256 && p > 0 && r > 0 && p * r == 256
    ensures x * r % 256 == x % p * r && x / p < r
  {
    var q, m := x / p, x % p;
    assert x == q * p + m;
    assert x * r == q * 256 + m * r by {
      assert (q * p + m) * r == q * (p * r) + m * r;
    }
    assert 0 <= m * r < p * r;
    DivisionIsUnique(x * r, 256, q, m * r);
    assert q >= r ==> q * p >= r * p;
  }

  /** Appending an octet and shifting right is shifting right and appending the joined octet. */
  lemma ShiftedStep(q: nat, x: byte, y: byte, shift: nat)
    requires 0 < shift < 8
    ensures var n := q * 256 + x as int;
            (n * 256 + y as int) / Pow2(shift) == n / Pow2(shift) * 256 + Joined(x, y, shift) as int
  {
    JoinedIsSum(x, y, shift);
    ShiftedSum(q, x, y, shift);
  }

  lemma ShiftedSum(q: nat, x: int, y: int, shift: nat)
    requires 0 < shift < 8 && 0 <= x < 256 && 0 <= y < 256
    ensures var n := q * 256 + x;
            (n * 256 + y) / Pow2(shift) == n / Pow2(shift) * 256 + x % Pow2(shift) * Pow2(8 - shift) + y / Pow2(shift)
  {
    PowersSplit(shift);
    ShiftedArithmetic(q, x, y, Pow2(shift), Pow2(8 - shift));
  }

  lemma ShiftedArithmetic(q: nat, x: int, y: int, p: int, r: int)
    requires 0 <= x && 0 <= y && p > 0 && r > 0 && p * r == 256
    ensures var n := q * 256 + x; (n * 256 + y) / p == n / p * 256 + x % p * r + y / p
  {
    var n := q * 256 + x;
    SameRemainder(q * r, x, p);
    assert q * r * p == q * 256 by {
      assert q * r * p == q * (p * r);
    }
    var a, m, b := n / p, n % p, y / p;
    assert n == a * p + m && y == b * p + y % p;
    assert n * 256 == a * 256 * p + m * r * p by {
      assert (a * p + m) * 256 == a * p * 256 + m * 256;
      assert m * r * p == m * (p * r);
      assert a * p * 256 == a * 256 * p;
    }
    assert (a * 256 + m * r + b) * p == a * 256 * p + m * r * p + b * p;
    DivisionIsUnique(n * 256 + y, p, a * 256 + m * r + b, y % p);
  }

  lemma SameRemainder(k: int, x: int, p: int)
    requires p > 0
    ensures (k * p + x) % p == x % p
  {
    var q, m := x / p, x % p;
    assert k * p + x == (k + q) * p + m by {
      assert x == q * p + m;
      assert (k + q) * p == k * p + q * p;
    }
    DivisionIsUnique(k * p + x, p, k + q, m);
  }

  lemma BigEndianSnoc(s: bytes, c: byte)
    ensures Tlv.FromBigEndian(s + [c]) == Tlv.FromBigEndian(s) * 256 + c as int
  {
    assert (s + [c])[..|s|] == s;
  }

  lemma BigEndianOne(c: byte)
    ensures Tlv.FromBigEndian([c]) == c as int
  {
    assert [c][..0] == [];
  }

  /** RightAlign moves the padding to the front: the big-endian number is divided by two to the padding. */
  method RightAlign(v: Value) returns (a: bytes)
    requires v.length >= 0
    ensures |a| == |v.octets|
    ensures Tlv.FromBigEndian(a) == Tlv.FromBigEndian(v.octets) / Pow2(Shift(v.length))
  {
    hide Tlv.FromBigEndian, Pow2, Joined;
    var shift := 8 - v.length % 8;
    Eight();
    if shift == 8 || |v.octets| == 0 {
      assert |v.octets| == 0 ==> v.octets == [];
      NoNumber();
      return v.octets;
    }
    var out := new byte[|v.octets|];
    out[0] := Right(v.octets[0], shift);
    assert out[..1] == [out[0]] && v.octets[..1] == [v.octets[0]];
    BigEndianOne(out[0]);
    BigEndianOne(v.octets[0]);
    ghost var p := Pow2(shift);
    for i := 1 to |v.octets|
      invariant Tlv.FromBigEndian(out[..i]) == Tlv.FromBigEndian(v.octets[..i]) / p
    {
      ghost var done := out[..i];
      var c := Left(v.octets[i - 1], 8 - shift);
      out[i] := ByteOr(c, Right(v.octets[i], shift));
      assert out[..i + 1] == done + [out[i]];
      assert v.octets[..i + 1] == v.octets[..i] + [v.octets[i]];
      assert v.octets[..i] == v.octets[..i - 1] + [v.octets[i - 1]];
      JoinedIs(v.octets[i - 1], v.octets[i], shift);
      NextOctet(done, v.octets[..i - 1], v.octets[i - 1], v.octets[i], shift);
    }
    assert out[..|v.octets|] == out[..] && v.octets[..|v.octets|] == v.octets;
    return out[..];
  }

  lemma NoNumber()
    ensures Tlv.FromBigEndian([]) == 0
  {
  }

  lemma JoinedIs(x: byte, y: byte, shift: nat)
    requires 0 < shift < 8
    ensures Joined(x, y, shift) == ByteOr(Left(x, 8 - shift), Right(y, shift))
  {
  }

  lemma NextOctet(done: bytes, front: bytes, x: byte, y: byte, shift: nat)
    requires 0 < shift < 8
    requires Tlv.FromBigEndian(done) == Tlv.FromBigEndian(front + [x]) / Pow2(shift)
    ensures Tlv.FromBigEndian(done + [Joined(x, y, shift)]) == Tlv.FromBigEndian(front + [x] + [y]) / Pow2(shift)
  {
    hide Tlv.FromBigEndian, Joined, Pow2;
    BigEndianSnoc(done, Joined(x, y, shift));
    BigEndianSnoc(front + [x], y);
    BigEndianSnoc(front, x);
    ShiftedStep(Tlv.FromBigEndian(front), x, y, shift);
  }

  // ----- text form -----

  function Digit(set_: bool): byte { if set_ then ONE else ZERO }

  /** The first `n` positions as binary digits. */
  function Digits(s: bytes, n: nat): (d: bytes)
    ensures |d| == n && forall i :: 0 <= i < n ==> d[i] == Digit(HasBit(s, i))
  {
    seq(n, i requires 0 <= i < n => Digit(HasBit(s, i)))
  }

  function Quoted(d: bytes): bytes { [SQUOTE] + d + [SQUOTE, LETTER_B] }

  function Text(v: Value): bytes
    requires 0 <= v.length
  {
    Quoted(Digits(v.octets, v.length))
  }

  /** BitString.String; the octets have to reach as far as the length says. */
  method String(v: Value) returns (text: bytes)
    requires 0 <= v.length <= 8 * |v.octets|
    ensures text == Text(v)
  {
    if v.length == 0 {
      assert Digits(v.octets, 0) == [];
      return [SQUOTE, SQUOTE, LETTER_B];
    }
    var out := new byte[v.length];
    for i := 0 to v.length
      invariant forall k :: 0 <= k < i ==> out[k] == Digit(HasBit(v.octets, k))
    {
      var byteIndex := i / 8;
      var bitPos := 7 - i % 8;
      if !Bit(v.octets[byteIndex], bitPos) {
        out[i] := ZERO;
      } else {
        out[i] := ONE;
      }
    }
    assert out[..] == Digits(v.octets, v.length);
    return Quoted(out[..]);
  }

  predicate IsBinary(d: bytes) { forall i :: 0 <= i < |d| ==> d[i] == ZERO || d[i] == ONE }

  /** verifyBitStringContents. */
  function Contents(raw: bytes): Option<bytes> {
    if raw == [] || raw[|raw| - 1] != LETTER_B then None
    else
      var t := raw[..|raw| - 1];
      if |t| < 3 || t[0] != SQUOTE || t[|t| - 1] != SQUOTE || !IsBinary(t[1..|t| - 1]) then None
      else Some(t[1..|t| - 1])
  }

  method VerifyContents(input: bytes) returns (ok: bool, raw: bytes)
    requires input != []
    ensures ok ==> Contents(input) == Some(raw)
    ensures !ok ==> Contents(input).None?
  {
    raw := input;
    if raw[|raw| - 1] != LETTER_B {
      return false, raw;
    }
    raw := raw[..|raw| - 1];
    if |raw| < 3 {
      return false, raw;
    }
    if raw[0] != SQUOTE || raw[|raw| - 1] != SQUOTE {
      return false, raw;
    }
    raw := raw[1..|raw| - 1];
    ok := true;
    for i := 0 to |raw|
      invariant ok && forall k :: 0 <= k < i ==> raw[k] == ZERO || raw[k] == ONE
    {
      if raw[i] != ZERO && raw[i] != ONE {
        ok := false;
        break;
      }
    }
  }

  /** One more digit behind `n` packed ones. */
  function PackInto(s: bytes, n: nat, c: byte): (t: bytes)
    requires |s| == Ceiling(n)
    ensures |t| == Ceiling(n + 1)
  {
    var u := if n % 8 == 0 then s + [0] else s;
    if c == ZERO then u else u[n / 8 := ByteOr(u[n / 8], Mask(7 - n % 8))]
  }

  /** Packing digit by digit, most significant bit first. */
  function Pack(d: bytes): (s: bytes)
    ensures |s| == Ceiling(|d|)
  {
    if d == [] then [] else PackInto(Pack(d[..|d| - 1]), |d| - 1, d[|d| - 1])
  }

  lemma PackSnoc(d: bytes, c: byte)
    ensures Pack(d + [c]) == PackInto(Pack(d), |d|, c)
  {
    hide PackInto;
    assert (d + [c])[..|d|] == d;
  }

  /** A packed position is set exactly where the digit is not zero. */
  lemma {:induction false} PackedBits(d: bytes, p: int)
    ensures HasBit(Pack(d), p) <==> 0 <= p < |d| && d[p] != ZERO
    decreases |d|
  {
    if d != [] {
      var n := |d| - 1;
      var t := Pack(d[..n]);
      PackedBits(d[..n], p);
      assert d == d[..n] + [d[n]];
      PackSnoc(d[..n], d[n]);
      hide Pack;
      PackIntoBits(t, n, d[n], p);
    }
  }

  lemma PackIntoBits(s: bytes, n: nat, c: byte, p: int)
    requires |s| == Ceiling(n)
    ensures HasBit(PackInto(s, n, c), p) <==> HasBit(s, p) || (p == n && c != ZERO)
  {
    var u := if n % 8 == 0 then s + [0] else s;
    PaddedBits(s, u);
    assert HasBit(u, p) <==> HasBit(s, p);
    if c != ZERO {
      SetOctet(u, n, PackInto(s, n, c));
    }
  }

  lemma PackIsCanonical(d: bytes)
    ensures IsCanonical(Value(Pack(d), |d|))
  {
    forall p | |d| <= p < 8 * |Pack(d)| ensures !HasBit(Pack(d), p) {
      PackedBits(d, p);
    }
  }

  /** marshalBitString. */
  function Parse(raw: bytes): Option<Value> {
    var d := Contents(raw);
    if d.None? || d.value == [] then None else Some(Value(Pack(d.value), |d.value|))
  }

  method MarshalBitString(input: bytes) returns (r: Option<Value>)
    ensures r == Parse(input)
  {
    hide Pack, ByteOr;
    if |input| == 0 {
      return None;
    }
    var ok, raw := VerifyContents(input);
    if !ok {
      return None;
    }
    var n := |raw|;
    if n == 0 {
      return None;
    }
    var packed := new byte[Ceiling(n)](i => 0);
    assert raw[..0] == [];
    for i := 0 to n
      invariant packed[..Ceiling(i)] == Pack(raw[..i])
      invariant forall k :: Ceiling(i) <= k < packed.Length ==> packed[k] == 0
    {
      assert raw[..i + 1] == raw[..i] + [raw[i]];
      PackSnoc(raw[..i], raw[i]);
      ghost var s := packed[..Ceiling(i + 1)];
      assert s == if i % 8 == 0 then Pack(raw[..i]) + [0] else Pack(raw[..i]);
      assert i / 8 < |s|;
      if raw[i] == ZERO {
        continue;
      }
      var byteIndex := i / 8;
      var bitPos := 7 - i % 8;
      packed[byteIndex] := ByteOr(packed[byteIndex], Mask(bitPos));
      assert packed[..Ceiling(i + 1)] == s[byteIndex := packed[byteIndex]];
    }
    assert raw[..n] == raw && packed[..packed.Length] == packed[..];
    return Some(Value(packed[..], n));
  }

  lemma ContentsOfQuoted(d: bytes)
    ensures Contents(Quoted(d)) == if d != [] && IsBinary(d) then Some(d) else None
  {
    var raw := Quoted(d);
    var t := raw[..|raw| - 1];
    assert t == [SQUOTE] + d + [SQUOTE];
    assert t[1..|t| - 1] == d;
  }

  lemma QuotedOfContents(raw: bytes)
    requires Contents(raw).Some?
    ensures raw == Quoted(Contents(raw).value) && IsBinary(Contents(raw).value) && Contents(raw).value != []
  {
    var t := raw[..|raw| - 1];
    assert t == [SQUOTE] + t[1..|t| - 1] + [SQUOTE];
    assert raw == t + [LETTER_B];
  }

  /** The digits of packed digits. */
  lemma DigitsOfPacked(d: bytes)
    requires IsBinary(d)
    ensures Digits(Pack(d), |d|) == d
  {
    forall i | 0 <= i < |d| ensures Digits(Pack(d), |d|)[i] == d[i] {
      PackedBits(d, i);
    }
  }

  /** Accepted text is printed again as it was, from a canonical value. */
  lemma TextAfterParse(raw: bytes)
    requires Parse(raw).Some?
    ensures var v := Parse(raw).value; IsCanonical(v) && v.length > 0 && Text(v) == raw
  {
    QuotedOfContents(raw);
    PackIsCanonical(Contents(raw).value);
    DigitsOfPacked(Contents(raw).value);
  }

  /** Canonical values come back from their text, all but the empty one, whose text is refused. */
  lemma ParseAfterText(v: Value)
    requires v.length >= 0
    ensures Parse(Text(v)) == Some(v) <==> v.length > 0 && IsCanonical(v)
    ensures v.length == 0 ==> Parse(Text(v)).None?
  {
    var d := Digits(v.octets, v.length);
    ContentsOfQuoted(d);
    PackIsCanonical(d);
    if v.length > 0 && IsCanonical(v) {
      var w := Value(Pack(d), |d|);
      forall p | 0 <= p < v.length ensures HasBit(v.octets, p) <==> HasBit(w.octets, p) {
        PackedBits(d, p);
      }
      CanonicalIsUnique(v, w);
    }
  }

  // ----- BER form -----

  const BIT_STRING := Tlv.Tag(Tlv.UNIVERSAL, false, Tlv.TAG_BIT_STRING)

  /** (8 - (length & 7)) & 7. */
  function Padding(length: nat): byte { (8 - length % 8) % 8 }

  /** BitString.Encode refuses negative lengths and lengths without octets. */
  function EncodeValue(v: Value): Option<bytes> {
    if v.length < 0 || (v.octets == [] && v.length != 0) then None
    else Some(Tlv.Write(BIT_STRING, [Padding(v.length)] + v.octets))
  }

  /** What stands in the element: the low bits of the last octet that the padding covers must be zero. */
  function PayloadValue(v: bytes): Option<Value> {
    if v == [] then None
    else
      var pad := v[0];
      if pad > 7 || (|v| == 1 && pad != 0) || (pad > 0 && LowBits(v[|v| - 1], pad) != 0) then None
      else Some(Value(v[1..], (|v| - 1) * 8 - pad))
  }

  /** BitString.Decode. */
  function DecodeValue(enc: bytes): Option<Value> {
    var e := Tlv.ReadExpected(enc, BIT_STRING);
    if e.Failure? then None else PayloadValue(e.value.payload)
  }

  lemma DecodeStep(enc: bytes)
    ensures var e := Tlv.ReadExpected(enc, BIT_STRING);
            DecodeValue(enc) == if e.Failure? then None else PayloadValue(e.value.payload)
  {
  }

  lemma PayloadStep(v: bytes)
    ensures PayloadValue(v) ==
              if v == [] || v[0] > 7 || (|v| == 1 && v[0] != 0) then None
              else if v[0] > 0 && LowBits(v[|v| - 1], v[0]) != 0 then None
              else Some(Value(v[1..], (|v| - 1) * 8 - v[0] as int))
  {
  }

  /** The positions from the length on lie in the last octet, under the padding. */
  lemma PaddingPositions(length: nat, p: int)
    requires length <= p < 8 * Ceiling(length)
    ensures p / 8 == Ceiling(length) - 1 && 7 - p % 8 < Padding(length)
  {
  }

  lemma PaddingPosition(length: nat, j: nat)
    requires j < Padding(length)
    ensures var p := 8 * Ceiling(length) - 1 - j; length <= p && p / 8 == Ceiling(length) - 1 && 7 - p % 8 == j
  {
  }

  lemma PaddingBits(v: Value)
    requires v.length >= 0 && |v.octets| == Ceiling(v.length) && v.octets != []
    ensures IsCanonical(v) <==> LowBits(v.octets[|v.octets| - 1], Padding(v.length)) == 0
  {
    hide LowBits, Padding, Ceiling, Bit, NoBitsBelow;
    var last, pad := v.octets[|v.octets| - 1], Padding(v.length);
    NoLowBits(last, pad);
    if NoBitsBelow(last, pad) {
      forall p | v.length <= p < 8 * |v.octets| ensures !HasBit(v.octets, p) {
        PaddingPositions(v.length, p);
        NoneBelow(last, pad, 7 - p % 8);
      }
    }
    if IsCanonical(v) {
      forall j | 0 <= j < pad ensures !Bit(last, j) {
        PaddingPosition(v.length, j);
        assert !HasBit(v.octets, 8 * |v.octets| - 1 - j);
      }
      AllClear(last, pad);
    }
  }

  lemma PaddingRange(length: nat, n: nat)
    ensures Padding(length) < 8
    ensures 8 * n - Padding(length) as int == length <==> n == Ceiling(length)
    ensures n == 0 && n == Ceiling(length) ==> Padding(length) == 0
  {
  }

  /** What Decode finds in an encoded value. */
  lemma DecodedForm(v: Value)
    requires EncodeValue(v).Some? && |v.octets| + 1 < Tlv.MAX_LENGTH
    ensures var pad, n := Padding(v.length), |v.octets|;
            DecodeValue(EncodeValue(v).value) ==
              if pad > 7 || (n == 0 && pad != 0) || (pad > 0 && LowBits(v.octets[n - 1], pad) != 0) then None
              else Some(Value(v.octets, 8 * n - pad as int))
  {
    hide Tlv.Write, Tlv.ReadExpected, LowBits, Padding, DecodeValue, PayloadValue;
    var p := [Padding(v.length)] + v.octets;
    Tlv.ExpectedRoundTrip(BIT_STRING, p, []);
    var enc := EncodeValue(v).value;
    assert enc + [] == enc;
    assert p[1..] == v.octets;
    DecodeStep(enc);
    PayloadStep(p);
    if v.octets != [] {
      assert p[|p| - 1] == v.octets[|v.octets| - 1];
    }
  }

  /** What Decode makes of an encoded value: the same value exactly when it was canonical. */
  lemma DecodeAfterEncode(v: Value)
    requires EncodeValue(v).Some? && |v.octets| + 1 < Tlv.MAX_LENGTH
    ensures DecodeValue(EncodeValue(v).value) == Some(v) <==> IsCanonical(v)
  {
    DecodedForm(v);
    assert v.length >= 0 && (v.octets == [] ==> v.length == 0);
    PaddingRange(v.length, |v.octets|);
    hide EncodeValue, DecodeValue, LowBits, Padding, HasBit;
    if v.octets != [] {
      hide Ceiling;
      NoPadding(v.octets[|v.octets| - 1]);
      if |v.octets| == Ceiling(v.length) {
        PaddingBits(v);
        hide IsCanonical;
      }
    }
  }

  lemma NoPadding(x: byte)
    ensures LowBits(x, 0) == 0
  {
  }

  /** Only canonical values are ever decoded. */
  lemma DecodedIsCanonical(enc: bytes)
    requires DecodeValue(enc).Some?
    ensures IsCanonical(DecodeValue(enc).value)
  {
    hide Tlv.ReadExpected, LowBits, HasBit;
    var w := DecodeValue(enc).value;
    if w.octets != [] {
      hide IsCanonical;
      PaddingBits(w);
      NoPadding(w.octets[|w.octets| - 1]);
    }
  }

  /** The three bits 101 in BER, with five bits of padding. */
  lemma BitOctets()
    ensures EncodeValue(Value([0xA0], 3)) == Some([0x03, 0x02, 0x05, 0xA0])
    ensures EncodeValue(Value([], 0)) == Some([0x03, 0x01, 0x00])
  {
    hide Tlv.Write;
    Tlv.UniversalTags([0x05, 0xA0]);
    Tlv.UniversalTags([0x00]);
    assert [5] + [0xA0] == [0x05, 0xA0] && [0] + [] == [0x00];
    assert [0x03, 0x02] + [0x05, 0xA0] == [0x03, 0x02, 0x05, 0xA0] && [0x03, 0x01] + [0x00] == [0x03, 0x01, 0x00];
  }
}
