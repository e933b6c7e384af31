/**
  Runes and their UTF-8 form, as package unicode/utf8 defines them (section 3 of RFC 3629), and the
  white-space trimming of packages bytes and strings.
 */
module Utf8 {
  import opened Bytes

  const RUNE_ERROR := 0xFFFD

  predicate IsSurrogate(r: int) { 0xD800 <= r <= 0xDFFF }

  predicate IsScalar(r: int) { 0 <= r <= 0x10FFFF && !IsSurrogate(r) }

  /** Octets announced by a leading octet; 0 for an octet that leads nothing. */
  function Announced(lead: byte): nat {
    if lead < 0x80 then 1
    else if 0xC2 <= lead <= 0xDF then 2
    else if 0xE0 <= lead <= 0xEF then 3
    else if 0xF0 <= lead <= 0xF4 then 4
    else 0
  }

  predicate IsContinuation(c: byte) { 0x80 <= c <= 0xBF }

  /** The second octet is narrowed after E0, ED, F0 and F4: no overlong forms, surrogates or values above 10FFFF. */
  predicate SecondFits(lead: byte, c: byte) {
    && IsContinuation(c)
    && (lead == 0xE0 ==> 0xA0 <= c)
    && (lead == 0xED ==> c <= 0x9F)
    && (lead == 0xF0 ==> 0x90 <= c)
    && (lead == 0xF4 ==> c <= 0x8F)
  }

  /** A well-formed sequence stands at the front of `b`. */
  predicate Proper(b: bytes) {
    && b != []
    && var n := Announced(b[0]);
       && n > 0 && n <= |b|
       && (n > 1 ==> SecondFits(b[0], b[1]))
       && (n > 2 ==> IsContinuation(b[2]))
       && (n > 3 ==> IsContinuation(b[3]))
  }

  /** The payload bits of a leading octet that announces `n` octets, and of a continuation. */
  function HeadBits(lead: byte, n: nat): int {
    if n == 1 then lead else if n == 2 then lead % 32 else if n == 3 then lead % 16 else lead % 8
  }

  function TailBits(c: byte): int { c % 64 }

  /** The value spelled by the first `n` octets. */
  function Value(b: bytes, n: nat): int
    requires 1 <= n <= |b| && n <= 4
  {
    var h := HeadBits(b[0], n);
    if n == 1 then h
    else if n == 2 then h * 64 + TailBits(b[1])
    else if n == 3 then (h * 64 + TailBits(b[1])) * 64 + TailBits(b[2])
    else ((h * 64 + TailBits(b[1])) * 64 + TailBits(b[2])) * 64 + TailBits(b[3])
  }

  function RuneValue(b: bytes): (r: int)
    requires Proper(b)
    ensures IsScalar(r)
    ensures r < 128 <==> Announced(b[0]) == 1
  {
    Value(b, Announced(b[0]))
  }

  /** utf8.DecodeRune: anything malformed is one octet of RUNE_ERROR. */
  function DecodeRune(b: bytes): (r: (int, nat))
    ensures IsScalar(r.0)
    ensures b != [] ==> 1 <= r.1 <= 4 && r.1 <= |b|
    ensures b == [] ==> r.1 == 0
  {
    if b == [] then (RUNE_ERROR, 0)
    else if Proper(b) then (RuneValue(b), Announced(b[0]))
    else (RUNE_ERROR, 1)
  }

  /** utf8.EncodeRune: values that are no scalar values become RUNE_ERROR. */
  function EncodeRune(r: int): (b: bytes)
    ensures 1 <= |b| <= 4
    ensures |b| == 1 <==> 0 <= r < 128
    ensures |b| == 1 ==> b == [r]
    ensures |b| > 1 ==> forall i :: 0 <= i < |b| ==> b[i] >= 128
  {
    if !IsScalar(r) then [0xEF, 0xBF, 0xBD]
    else if r < 0x80 then [r]
    else if r < 0x800 then [0xC0 + r / 64, 0x80 + r % 64]
    else if r < 0x1_0000 then [0xE0 + r / 4096, 0x80 + r / 64 % 64, 0x80 + r % 64]
    else [0xF0 + r / 262144, 0x80 + r / 4096 % 64, 0x80 + r / 64 % 64, 0x80 + r % 64]
  }

  /** Base-64 digits of a rune. */
  lemma Digits(r: int)
    requires 0 <= r
    ensures r == r / 64 * 64 + r % 64
    ensures r / 64 == r / 4096 * 64 + r / 64 % 64
    ensures r / 4096 == r / 262144 * 64 + r / 4096 % 64
  {
  }

  lemma DecodeInvertsEncode(r: int, rest: bytes)
    requires IsScalar(r)
    ensures Proper(EncodeRune(r) + rest)
    ensures DecodeRune(EncodeRune(r) + rest) == (r, |EncodeRune(r)|)
  {
    var e := EncodeRune(r);
    var b, n := e + rest, |e|;
    assert forall i :: 0 <= i < n ==> b[i] == e[i];
    EncodedIsProper(r);
    assert Proper(b);
    ValueOfEncoded(r);
    assert Value(b, n) == Value(e, n);
  }

  lemma EncodedIsProper(r: int)
    requires IsScalar(r)
    ensures Proper(EncodeRune(r)) && Announced(EncodeRune(r)[0]) == |EncodeRune(r)|
  {
  }

  lemma ValueOfEncoded(r: int)
    requires IsScalar(r)
    ensures Value(EncodeRune(r), |EncodeRune(r)|) == r
  {
    if r < 0x80 {
      assert EncodeRune(r) == [r];
    } else if r < 0x800 {
      ValueOfTwo(r);
    } else if r < 0x1_0000 {
      ValueOfThree(r);
    } else {
      ValueOfFour(r);
    }
    hide Value;
  }

  lemma ValueOfTwo(r: int)
    requires 0x80 <= r < 0x800
    ensures Value(EncodeRune(r), 2) == r && |EncodeRune(r)| == 2
  {
    hide HeadBits;
    Digits(r);
    HeadOf(0xC0 + r / 64, r / 64, 2);
  }

  lemma ValueOfThree(r: int)
    requires IsScalar(r) && 0x800 <= r < 0x1_0000
    ensures Value(EncodeRune(r), 3) == r && |EncodeRune(r)| == 3
  {
    hide HeadBits;
    Digits(r);
    HeadOf(0xE0 + r / 4096, r / 4096, 3);
  }

  lemma ValueOfFour(r: int)
    requires IsScalar(r) && 0x1_0000 <= r
    ensures Value(EncodeRune(r), 4) == r && |EncodeRune(r)| == 4
  {
    hide HeadBits;
    Digits(r);
    HeadOf(0xF0 + r / 262144, r / 262144, 4);
  }

  lemma HeadOf(lead: byte, h: int, n: nat)
    requires n == 2 ==> lead == 0xC0 + h && 0 <= h < 32
    requires n == 3 ==> lead == 0xE0 + h && 0 <= h < 16
    requires n == 4 ==> lead == 0xF0 + h && 0 <= h < 8
    requires 2 <= n <= 4
    ensures HeadBits(lead, n) == h
  {
  }

  lemma EncodeInvertsDecode(b: bytes)
    requires Proper(b)
    ensures EncodeRune(DecodeRune(b).0) == b[..DecodeRune(b).1]
  {
    var n, r := Announced(b[0]), RuneValue(b);
    if n == 1 {
      assert b[..1] == [b[0]];
    } else if n == 2 {
      EncodeTwo(b);
    } else if n == 3 {
      EncodeThree(b);
    } else {
      EncodeFour(b);
    }
  }

  lemma EncodeTwo(b: bytes)
    requires Proper(b) && Announced(b[0]) == 2
    ensures EncodeRune(RuneValue(b)) == b[..2]
  {
    var x, y := HeadBits(b[0], 2), TailBits(b[1]);
    BackToDigits(0, 0, x, y);
    assert EncodeRune(RuneValue(b)) == [0xC0 + x, 0x80 + y];
    assert b[..2] == [b[0], b[1]];
  }

  lemma EncodeThree(b: bytes)
    requires Proper(b) && Announced(b[0]) == 3
    ensures EncodeRune(RuneValue(b)) == b[..3]
  {
    var x, y, z := HeadBits(b[0], 3), TailBits(b[1]), TailBits(b[2]);
    BackToDigits(0, x, y, z);
    assert EncodeRune(RuneValue(b)) == [0xE0 + x, 0x80 + y, 0x80 + z];
    assert b[..3] == [b[0], b[1], b[2]];
  }

  lemma EncodeFour(b: bytes)
    requires Proper(b) && Announced(b[0]) == 4
    ensures EncodeRune(RuneValue(b)) == b[..4]
  {
    var w, x, y, z := HeadBits(b[0], 4), TailBits(b[1]), TailBits(b[2]), TailBits(b[3]);
    BackToDigits(w, x, y, z);
    assert EncodeRune(RuneValue(b)) == [0xF0 + w, 0x80 + x, 0x80 + y, 0x80 + z];
    assert b[..4] == [b[0], b[1], b[2], b[3]];
  }

  lemma BackToDigits(w: int, x: int, y: int, z: int)
    requires 0 <= w && 0 <= x < 64 && 0 <= y < 64 && 0 <= z < 64
    ensures var r := ((w * 64 + x) * 64 + y) * 64 + z;
            r % 64 == z && r / 64 % 64 == y && r / 4096 % 64 == x && r / 262144 == w
            && r / 64 == (w * 64 + x) * 64 + y && r / 4096 == w * 64 + x
  {
  }

  /** utf8.Valid. */
  predicate Valid(b: bytes) {
    b == [] || (Proper(b) && Valid(b[DecodeRune(b).1..]))
  }

  /** What converting to runes and back leaves of an octet string. */
  function Sanitize(b: bytes): bytes {
    if b == [] then [] else EncodeRune(DecodeRune(b).0) + Sanitize(b[DecodeRune(b).1..])
  }

  /** Malformed octets are replaced by three-octet errors, so only valid strings survive unchanged. */
  lemma {:induction false} SanitizeKeepsExactlyValid(b: bytes)
    ensures |Sanitize(b)| >= |b|
    ensures Sanitize(b) == b <==> Valid(b)
    ensures !Valid(b) ==> |Sanitize(b)| > |b|
    decreases |b|
  {
    hide EncodeRune, RuneValue;
    if b != [] {
      var n := DecodeRune(b).1;
      SanitizeKeepsExactlyValid(b[n..]);
      assert b == b[..n] + b[n..];
      if Proper(b) {
        EncodeInvertsDecode(b);
      } else {
        ErrorIsThreeOctets();
      }
    }
  }

  lemma ErrorIsThreeOctets()
    ensures |EncodeRune(RUNE_ERROR)| == 3
  {
  }

  lemma {:induction false} AsciiIsValid(b: bytes)
    requires IsAscii(b)
    ensures Valid(b) && Sanitize(b) == b
    decreases |b|
  {
    if b != [] {
      AsciiIsValid(b[1..]);
      assert b == [b[0]] + b[1..];
    }
  }

  /** An ASCII octet ends whatever precedes it: decoding never runs across it. */
  lemma DecodeStopsAtAscii(a: bytes, c: byte, rest: bytes)
    requires a != [] && c < 128
    ensures DecodeRune(a + [c] + rest) == DecodeRune(a)
    ensures Proper(a + [c] + rest) == Proper(a)
  {
    hide RuneValue;
    var b := a + [c] + rest;
    assert forall i :: 0 <= i < |a| ==> b[i] == a[i];
    assert b[|a|] == c;
    if Proper(a) || Proper(b) {
      assert Proper(a) && Proper(b);
      SameRune(a, b);
    }
  }

  lemma SameRune(a: bytes, b: bytes)
    requires Proper(a) && Proper(b)
    requires forall i :: 0 <= i < |a| && i < |b| && i < 4 ==> a[i] == b[i]
    ensures RuneValue(a) == RuneValue(b)
  {
  }

  // ----- white space -----

  /** unicode.IsSpace. */
  predicate IsSpace(r: int) {
    || 9 <= r <= 13 || r == 32 || r == 0x85 || r == 0xA0 || r == 0x1680 || 0x2000 <= r <= 0x200A
    || r == 0x2028 || r == 0x2029 || r == 0x202F || r == 0x205F || r == 0x3000
  }

  lemma SpaceLiterals(r: int)
    ensures IsSpace(r) <==>
              r in {9, 10, 11, 12, 13, 32, 133, 160, 5760, 8192, 8193, 8194, 8195, 8196, 8197, 8198, 8199, 8200, 8201,
                    8202, 8232, 8233, 8239, 8287, 12288}
  {
  }

  /** utf8.DecodeLastRune: the longest of the last four octets that is exactly one sequence. */
  function DecodeLastRune(b: bytes): (r: (int, nat))
    ensures b != [] ==> 1 <= r.1 <= |b|
    ensures b == [] ==> r.1 == 0
    ensures b != [] && b[|b| - 1] < 128 ==> r == (b[|b| - 1], 1)
  {
    var n := |b|;
    if n == 0 then (RUNE_ERROR, 0)
    else if b[n - 1] < 128 then (b[n - 1], 1)
    else if n >= 2 && EndsWithSequence(b, 2) then (RuneValue(b[n - 2..]), 2)
    else if n >= 3 && EndsWithSequence(b, 3) then (RuneValue(b[n - 3..]), 3)
    else if n >= 4 && EndsWithSequence(b, 4) then (RuneValue(b[n - 4..]), 4)
    else (RUNE_ERROR, 1)
  }

  predicate EndsWithSequence(b: bytes, k: nat)
    requires 0 < k <= |b|
    ensures EndsWithSequence(b, k) ==> Proper(b[|b| - k..])
  {
    Proper(b[|b| - k..]) && Announced(b[|b| - k]) == k
  }

  function TrimLeft(b: bytes): (r: bytes)
    ensures |r| <= |b|
  {
    if b != [] && IsSpace(DecodeRune(b).0) then TrimLeft(b[DecodeRune(b).1..]) else b
  }

  function TrimRight(b: bytes): (r: bytes)
    ensures r <= b
    decreases |b|
  {
    if b != [] && IsSpace(DecodeLastRune(b).0) then TrimRight(b[..|b| - DecodeLastRune(b).1]) else b
  }

  /** bytes.TrimSpace and strings.TrimSpace. */
  function TrimSpace(b: bytes): (r: bytes)
    ensures |r| <= |b|
  {
    TrimRight(TrimLeft(b))
  }

  lemma {:induction false} TrimLeftKeepsAscii(b: bytes)
    requires IsAscii(b)
    ensures IsAscii(TrimLeft(b))
    decreases |b|
  {
    if b != [] && IsSpace(DecodeRune(b).0) {
      TrimLeftKeepsAscii(b[DecodeRune(b).1..]);
    }
  }

  lemma TrimKeepsAscii(b: bytes)
    requires IsAscii(b)
    ensures IsAscii(TrimSpace(b))
  {
    TrimLeftKeepsAscii(b);
  }

  lemma {:induction false} TrimLeftAddsNothing(b: bytes, c: byte)
    requires c !in b
    ensures c !in TrimLeft(b)
    decreases |b|
  {
    if b != [] && IsSpace(DecodeRune(b).0) {
      TrimLeftAddsNothing(b[DecodeRune(b).1..], c);
    }
  }

  lemma TrimAddsNothing(b: bytes, c: byte)
    requires c !in b
    ensures c !in TrimSpace(b)
  {
    TrimLeftAddsNothing(b, c);
  }

  /** Nothing is trimmed between two printable ASCII characters. */
  lemma TrimKeeps(b: bytes)
    requires b != [] && 32 < b[0] < 128 && 32 < b[|b| - 1] < 128
    ensures TrimSpace(b) == b
  {
  }

  /** Printing characters stay. */
  lemma {:induction false} TrimLeftKeepsInk(b: bytes, c: byte)
    requires c in b && 32 < c < 127
    ensures c in TrimLeft(b)
    decreases |b|
  {
    hide IsSpace, DecodeRune;
    FirstIsNoInk(b, c);
    var n := DecodeRune(b).1;
    assert b == b[..n] + b[n..];
    if IsSpace(DecodeRune(b).0) {
      TrimLeftKeepsInk(b[n..], c);
    }
  }

  lemma FirstIsNoInk(b: bytes, c: byte)
    requires b != [] && 32 < c < 127
    ensures IsSpace(DecodeRune(b).0) ==> c !in b[..DecodeRune(b).1]
  {
    if b[0] >= 128 && Proper(b) {
      assert forall i :: 0 <= i < Announced(b[0]) ==> b[i] >= 128;
    }
  }

  lemma {:induction false} TrimRightKeepsInk(b: bytes, c: byte)
    requires c in b && 32 < c < 127
    ensures c in TrimRight(b)
    decreases |b|
  {
    hide IsSpace, DecodeLastRune;
    LastIsNoInk(b, c);
    var n := |b| - DecodeLastRune(b).1;
    assert b == b[..n] + b[n..];
    if IsSpace(DecodeLastRune(b).0) {
      TrimRightKeepsInk(b[..n], c);
    }
  }

  lemma LastIsNoInk(b: bytes, c: byte)
    requires b != [] && 32 < c < 127
    ensures IsSpace(DecodeLastRune(b).0) ==> c !in b[|b| - DecodeLastRune(b).1..]
  {
    hide Proper, RuneValue, EndsWithSequence;
    if b[|b| - 1] >= 128 {
      var k := DecodeLastRune(b).1;
      if k > 1 {
        SequenceIsNoInk(b, k);
      }
    }
  }

  lemma SequenceIsNoInk(b: bytes, k: nat)
    requires 1 < k <= |b| && EndsWithSequence(b, k)
    ensures forall i :: |b| - k <= i < |b| ==> b[i] >= 128
  {
    var t := b[|b| - k..];
    assert forall i :: 0 <= i < k ==> t[i] >= 128;
    assert forall i :: |b| - k <= i < |b| ==> b[i] == t[i - (|b| - k)];
  }

  lemma TrimKeepsInk(b: bytes, c: byte)
    requires c in b && 32 < c < 127
    ensures c in TrimSpace(b)
  {
    TrimLeftKeepsInk(b, c);
    TrimRightKeepsInk(TrimLeft(b), c);
  }

  // ----- case and white space -----

  /** Lower-casing touches neither leading octets nor continuations. */
  lemma LowerKeepsRunes(b: bytes)
    requires b != []
    ensures Proper(Lower(b)) <==> Proper(b)
    ensures DecodeRune(Lower(b)) == if b[0] < 128 then (LowerByte(b[0]), 1) else DecodeRune(b)
  {
    hide RuneValue;
    var c := Lower(b);
    AsciiFirst(c);
    AsciiFirst(b);
    assert forall i :: 0 <= i < |b| ==> (b[i] >= 128 ==> c[i] == b[i]) && (b[i] < 128 ==> c[i] < 128);
    if b[0] >= 128 && Proper(b) {
      assert forall i :: 0 <= i < Announced(b[0]) ==> c[i] == b[i];
      SameValue(c, b);
    }
  }

  lemma SameValue(a: bytes, b: bytes)
    requires Proper(a) && Proper(b) && a[0] == b[0]
    requires forall i :: 0 <= i < Announced(b[0]) ==> a[i] == b[i]
    ensures RuneValue(a) == RuneValue(b)
  {
  }

  /** Whether the last `k` octets are one sequence, and its rune. */
  function LastSequence(b: bytes, k: nat): (bool, int)
    requires k > 0
  {
    if k <= |b| && EndsWithSequence(b, k) then (true, RuneValue(b[|b| - k..])) else (false, 0)
  }

  lemma LastRuneBySequences(b: bytes)
    requires b != [] && b[|b| - 1] >= 128
    ensures DecodeLastRune(b) == if LastSequence(b, 2).0 then (LastSequence(b, 2).1, 2)
                                 else if LastSequence(b, 3).0 then (LastSequence(b, 3).1, 3)
                                 else if LastSequence(b, 4).0 then (LastSequence(b, 4).1, 4)
                                 else (RUNE_ERROR, 1)
  {
    hide RuneValue, EndsWithSequence;
  }

  lemma LowerKeepsLastSequence(b: bytes, k: nat)
    requires k >= 2
    ensures LastSequence(Lower(b), k) == LastSequence(b, k)
  {
    hide RuneValue, EndsWithSequence;
    if k <= |b| {
      LowerKeepsSequence(b, k);
    }
  }

  lemma LowerKeepsLastRune(b: bytes)
    requires b != []
    ensures DecodeLastRune(Lower(b)).1 == DecodeLastRune(b).1
    ensures IsSpace(DecodeLastRune(Lower(b)).0) <==> IsSpace(DecodeLastRune(b).0)
  {
    hide DecodeLastRune, IsSpace, LastSequence, Lower, LowerByte;
    LastOfLower(b);
    LetterIsNoSpace(b[|b| - 1]);
    if b[|b| - 1] >= 128 {
      LastRuneBySequences(b);
      LastRuneBySequences(Lower(b));
      LowerKeepsLastSequence(b, 2);
      LowerKeepsLastSequence(b, 3);
      LowerKeepsLastSequence(b, 4);
    }
  }

  lemma LastOfLower(b: bytes)
    requires b != []
    ensures |Lower(b)| == |b| && Lower(b)[|b| - 1] == LowerByte(b[|b| - 1])
    ensures LowerByte(b[|b| - 1]) < 128 <==> b[|b| - 1] < 128
  {
  }

  lemma LowerKeepsSequence(b: bytes, k: nat)
    requires 2 <= k <= |b|
    ensures EndsWithSequence(Lower(b), k) <==> EndsWithSequence(b, k)
    ensures EndsWithSequence(b, k) ==> RuneValue(Lower(b)[|b| - k..]) == RuneValue(b[|b| - k..])
  {
    hide RuneValue;
    var t := b[|b| - k..];
    LowerSlice(b, |b| - k, |b|);
    assert Lower(b)[|b| - k..] == Lower(t);
    LowerKeepsRunes(t);
    if EndsWithSequence(b, k) {
      assert forall i :: 0 <= i < Announced(t[0]) ==> Lower(t)[i] == t[i];
      SameValue(Lower(t), t);
    }
  }

  lemma LetterIsNoSpace(c: byte)
    ensures IsSpace(LowerByte(c)) <==> IsSpace(c)
  {
  }

  lemma {:induction false} LowerTrimLeft(b: bytes)
    ensures TrimLeft(Lower(b)) == Lower(TrimLeft(b))
    decreases |b|
  {
    hide DecodeRune, IsSpace;
    if b != [] {
      var n := DecodeRune(b).1;
      LowerKeepsRunes(b);
      AsciiFirst(b);
      LetterIsNoSpace(b[0]);
      LowerSlice(b, n, |b|);
      assert Lower(b)[n..] == Lower(b[n..]);
      if IsSpace(DecodeRune(b).0) {
        LowerTrimLeft(b[n..]);
      }
    } else {
      assert Lower(b) == b;
    }
  }

  lemma AsciiFirst(b: bytes)
    requires b != []
    ensures b[0] < 128 ==> DecodeRune(b) == (b[0], 1)
  {
  }

  lemma {:induction false} LowerTrimRight(b: bytes)
    ensures TrimRight(Lower(b)) == Lower(TrimRight(b))
    decreases |b|
  {
    hide DecodeLastRune, IsSpace;
    if b != [] {
      var n := |b| - DecodeLastRune(b).1;
      LowerKeepsLastRune(b);
      LowerSlice(b, 0, n);
      assert Lower(b)[..n] == Lower(b[..n]);
      if IsSpace(DecodeLastRune(b).0) {
        LowerTrimRight(b[..n]);
      }
    } else {
      assert Lower(b) == b;
    }
  }

  /** Trimming and lower-casing may change places. */
  lemma LowerTrimSpace(b: bytes)
    ensures TrimSpace(Lower(b)) == Lower(TrimSpace(b))
  {
    LowerTrimLeft(b);
    LowerTrimRight(TrimLeft(b));
  }

  // ----- white space around text -----

  /** The last rune of a text is found whatever stands in front of it. */
  lemma LastOfEncoded(x: bytes, r: int)
    requires IsScalar(r)
    ensures DecodeLastRune(x + EncodeRune(r)) == (r, |EncodeRune(r)|)
  {
    hide RuneValue, EncodeRune, Proper;
    var e := EncodeRune(r);
    var b := x + e;
    DecodeInvertsEncode(r, []);
    assert e + [] == e;
    ProperEncoded(r);
    if |e| == 1 {
      assert b[|b| - 1] == e[0] == r;
    } else {
      assert b[|b| - 1] == e[|e| - 1] >= 128;
      forall k | 2 <= k < |e| ensures !EndsWithSequence(b, k) {
        assert b[|b| - k] == e[|e| - k];
      }
      assert b[|b| - |e|..] == e;
    }
  }

  lemma ProperEncoded(r: int)
    requires IsScalar(r)
    ensures var e := EncodeRune(r);
            && Proper(e) && Announced(e[0]) == |e| && forall i :: 0 < i < |e| ==> Announced(e[i]) == 0
  {
    EncodedIsProper(r);
    hide EncodeRune;
  }

  function Runes(rs: seq<int>): bytes {
    if rs == [] then [] else Runes(rs[..|rs| - 1]) + EncodeRune(rs[|rs| - 1])
  }

  /** White space on both sides of a text between printing characters is trimmed, and nothing else. */
  lemma TrimAround(before: seq<int>, t: bytes, after: seq<int>)
    requires t != [] && 32 < t[0] < 127 && 32 < t[|t| - 1] < 127
    requires forall i :: 0 <= i < |before| ==> IsSpace(before[i])
    requires forall i :: 0 <= i < |after| ==> IsSpace(after[i])
    ensures TrimSpace(Runes(before) + t + Runes(after)) == t
  {
    hide TrimLeft, TrimRight, Runes, IsSpace;
    TrimLeftRunes(before, t + Runes(after));
    assert Runes(before) + t + Runes(after) == Runes(before) + (t + Runes(after));
    InkStays(t + Runes(after));
    InkStays(t);
    TrimRightRunes(t, after);
    TrimKeeps(t);
  }

  lemma InkStays(b: bytes)
    requires b != [] && 32 < b[0] < 127
    ensures TrimLeft(b) == b
  {
  }

  lemma {:induction false} TrimLeftRunes(rs: seq<int>, t: bytes)
    requires forall i :: 0 <= i < |rs| ==> IsSpace(rs[i])
    ensures TrimLeft(Runes(rs) + t) == TrimLeft(t)
    decreases |rs|
  {
    hide DecodeRune, EncodeRune, IsSpace;
    if rs == [] {
      assert [] + t == t;
    } else {
      var n := |rs| - 1;
      var e := EncodeRune(rs[n]);
      assert Runes(rs) + t == Runes(rs[..n]) + (e + t);
      TrimLeftRunes(rs[..n], e + t);
      SpaceIsScalar(rs[n]);
      DecodeInvertsEncode(rs[n], t);
      assert (e + t)[|e|..] == t;
    }
  }

  lemma SpaceIsScalar(r: int)
    requires IsSpace(r)
    ensures IsScalar(r)
  {
  }

  lemma {:induction false} TrimRightRunes(t: bytes, rs: seq<int>)
    requires forall i :: 0 <= i < |rs| ==> IsSpace(rs[i])
    ensures TrimRight(t + Runes(rs)) == TrimRight(t)
    decreases |rs|
  {
    hide DecodeLastRune, EncodeRune, IsSpace;
    if rs == [] {
      assert t + [] == t;
    } else {
      var n := |rs| - 1;
      var e := EncodeRune(rs[n]);
      var x := t + Runes(rs[..n]);
      assert t + Runes(rs) == x + e;
      SpaceIsScalar(rs[n]);
      LastOfEncoded(x, rs[n]);
      assert (x + e)[..|x|] == x;
      TrimRightRunes(t, rs[..n]);
    }
  }
}
