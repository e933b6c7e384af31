/** ustr.go: UniversalString, held as UTF-8 and encoded with four octets a character (UCS-4). */
module UniversalStrings {
  import opened Bytes
  import opened Wrappers
  import Tlv
  import Utf8

  const UNIVERSAL_STRING := Tlv.Tag(Tlv.UNIVERSAL, false, Tlv.TAG_UNIVERSAL_STRING)

  // ----- four octets a character -----

  /** binary.BigEndian.PutUint32. */
  function Word(n: nat): (w: bytes)
    requires n < 0x1_0000_0000
    ensures |w| == 4
  {
    [n / 0x100_0000, n / 0x1_0000 % 256, n / 256 % 256, n % 256]
  }

  function WordValue(w: bytes): (n: nat)
    requires |w| == 4
    ensures n < 0x1_0000_0000
  {
    ((w[0] as int * 256 + w[1] as int) * 256 + w[2] as int) * 256 + w[3] as int
  }

  lemma WordRoundTrip(n: nat)
    requires n < 0x1_0000_0000
    ensures WordValue(Word(n)) == n
  {
    assert n == n / 256 * 256 + n % 256;
    assert n / 256 == n / 0x1_0000 * 256 + n / 256 % 256;
    assert n / 0x1_0000 == n / 0x100_0000 * 256 + n / 0x1_0000 % 256;
  }

  lemma WordRoundTripBack(w: bytes)
    requires |w| == 4
    ensures Word(WordValue(w)) == w
  {
    var a, b, c, d := w[0] as int, w[1] as int, w[2] as int, w[3] as int;
    var n := ((a * 256 + b) * 256 + c) * 256 + d;
    assert n / 256 == (a * 256 + b) * 256 + c && n % 256 == d;
    assert n / 0x1_0000 == a * 256 + b && n / 256 % 256 == c;
    assert n / 0x100_0000 == a && n / 0x1_0000 % 256 == b;
  }

  /** rune(cp): a 32-bit value read as signed. */
  function Signed(cp: nat): int
    requires cp < 0x1_0000_0000
  {
    if cp < 0x8000_0000 then cp else cp - 0x1_0000_0000
  }

  /** universalStringCharacterOutOfBounds. */
  predicate OutOfBounds(r: int) { r > 0x10FFFF || 0xD800 <= r <= 0xDFFF }

  /** The words of a UTF-8 string; a malformed octet ends the encoding. */
  function Words(x: bytes): Option<bytes>
    decreases |x|
  {
    if x == [] then Some([])
    else
      var (r, n) := Utf8.DecodeRune(x);
      if r == Utf8.RUNE_ERROR && n == 1 then None else PrependSome(Word(r), Words(x[n..]))
  }

  /** The UTF-8 of a sequence of words. */
  function Characters(v: bytes): Option<bytes>
    requires |v| % 4 == 0
    decreases |v|
  {
    if v == [] then Some([])
    else
      var r := Signed(WordValue(v[..4]));
      if OutOfBounds(r) then None else PrependSome(Utf8.EncodeRune(r), Characters(v[4..]))
  }

  function Encode(x: bytes): Option<bytes> {
    var w := Words(x);
    if w.Some? then Some(Tlv.Write(UNIVERSAL_STRING, w.value)) else None
  }

  function Decode(enc: bytes): Option<bytes> {
    if |enc| < 3 || enc[0] != Tlv.TAG_UNIVERSAL_STRING then None
    else
      var (l, n) := Tlv.ReadLength(enc[1..]);
      if n == 0 || |enc| < 1 + n + l || l % 4 != 0 then None else Characters(enc[1 + n..1 + n + l])
  }

  // ----- the loops -----

  lemma WordsStep(x: bytes)
    requires x != []
    ensures var (r, n) := Utf8.DecodeRune(x);
            Words(x) == if r == Utf8.RUNE_ERROR && n == 1 then None else PrependSome(Word(r), Words(x[n..]))
  {
  }

  lemma NoWords()
    ensures Words([]) == Some([]) && Characters([]) == Some([])
  {
  }

  lemma CharactersStep(v: bytes)
    requires v != [] && |v| % 4 == 0
    ensures var r := Signed(WordValue(v[..4]));
            Characters(v) == if OutOfBounds(r) then None else PrependSome(Utf8.EncodeRune(r), Characters(v[4..]))
  {
  }

  method EncodeString(r: bytes) returns (enc: Option<bytes>)
    ensures enc == Encode(r)
  {
    hide Words, Utf8.DecodeRune, Tlv.Write, Word;
    var out := new byte[4 * |r|](i => 0);
    var pos, i := 0, 0;
    assert r[0..] == r && out[..0] == [];
    PrependSomeNothing(Words(r));
    while i < |r|
      invariant 0 <= i <= |r| && 0 <= pos <= 4 * i
      invariant Words(r) == PrependSome(out[..pos], Words(r[i..]))
    {
      WordsStep(r[i..]);
      var (roon, sz) := NextRune(r[i..]);
      if roon == Utf8.RUNE_ERROR && sz == 1 {
        return None;
      }
      ghost var done := out[..pos];
      var w := Word(roon);
      out[pos], out[pos + 1], out[pos + 2], out[pos + 3] := w[0], w[1], w[2], w[3];
      assert out[..pos + 4] == done + w;
      assert r[i..][sz..] == r[i + sz..];
      PrependSomeTwice(done, w, Words(r[i + sz..]));
      pos := pos + 4;
      i := i + sz;
    }
    assert r[i..] == [];
    NoWords();
    assert out[..pos] + [] == out[..pos];
    return Some(Tlv.Write(UNIVERSAL_STRING, out[..pos]));
  }

  function NextRune(b: bytes): (r: (int, nat))
    requires b != []
    ensures r == Utf8.DecodeRune(b) && 1 <= r.1 <= |b| && 0 <= r.0 <= 0x10FFFF
  {
    Utf8.DecodeRune(b)
  }

  method DecodeString(enc: bytes) returns (r: Option<bytes>)
    ensures r == Decode(enc)
  {
    hide Characters, Utf8.EncodeRune, WordValue, Tlv.ReadLength;
    if |enc| < 3 || enc[0] != Tlv.TAG_UNIVERSAL_STRING {
      return None;
    }
    var (l, n) := Tlv.ReadLength(enc[1..]);
    if n == 0 || |enc| < 1 + n + l {
      return None;
    }
    var v := enc[1 + n..1 + n + l];
    if |v| % 4 != 0 {
      return None;
    }
    var sb: bytes := [];
    var i := 0;
    assert v[0..] == v;
    PrependSomeNothing(Characters(v));
    while i < |v|
      invariant 0 <= i <= |v| && i % 4 == 0
      invariant Characters(v) == PrependSome(sb, Characters(v[i..]))
    {
      CharactersStep(v[i..]);
      assert v[i..][..4] == v[i..i + 4] && v[i..][4..] == v[i + 4..];
      var cp := WordValue(v[i..i + 4]);
      if OutOfBounds(Signed(cp)) {
        return None;
      }
      PrependSomeTwice(sb, Utf8.EncodeRune(Signed(cp)), Characters(v[i + 4..]));
      sb := sb + Utf8.EncodeRune(Signed(cp));
      i := i + 4;
    }
    assert v[i..] == [];
    NoWords();
    assert sb + [] == sb;
    return Some(sb);
  }

  // ----- properties -----

  /** Four octets for every character, so never more than four octets for one. */
  lemma {:induction false} WordsExactlyForValid(x: bytes)
    ensures Words(x).Some? <==> Utf8.Valid(x)
    ensures Words(x).Some? ==>
              var w := Words(x).value; |w| % 4 == 0 && |w| <= 4 * |x| && (w == [] <==> x == [])
    decreases |x|
  {
    hide Words, Utf8.DecodeRune, Utf8.Proper;
    NoWords();
    if x != [] {
      var (r, n) := NextRune(x);
      WordsStep(x);
      ErrorOrProper(x);
      WordsExactlyForValid(x[n..]);
    }
  }

  lemma ErrorOrProper(x: bytes)
    requires x != []
    ensures var (r, n) := Utf8.DecodeRune(x); Utf8.Proper(x) <==> !(r == Utf8.RUNE_ERROR && n == 1)
  {
  }

  lemma {:induction false} CharactersOfWords(x: bytes)
    requires Utf8.Valid(x)
    ensures Words(x).Some? && |Words(x).value| % 4 == 0
    ensures Characters(Words(x).value) == Some(x)
    decreases |x|
  {
    hide Words, Characters, Utf8.DecodeRune, Utf8.Proper, Word, WordValue;
    WordsExactlyForValid(x);
    NoWords();
    if x != [] {
      var (r, n) := NextRune(x);
      WordsStep(x);
      ErrorOrProper(x);
      CharactersOfWords(x[n..]);
      var v, w := Words(x).value, Words(x[n..]).value;
      assert v == Word(r) + w;
      assert v[..4] == Word(r) && v[4..] == w;
      WordRoundTrip(r);
      CharactersStep(v);
      ProperRune(x);
      assert x == x[..n] + x[n..];
    }
  }

  lemma ProperRune(x: bytes)
    requires Utf8.Proper(x)
    ensures var (r, n) := Utf8.DecodeRune(x); Utf8.EncodeRune(r) == x[..n] && Utf8.IsScalar(r)
  {
    Utf8.EncodeInvertsDecode(x);
  }

  /** Valid UTF-8 is exactly what is encoded, and all of it but the empty string is decoded again. */
  lemma DecodeAfterEncode(x: bytes)
    requires 4 * |x| < Tlv.MAX_LENGTH
    ensures Encode(x).Some? <==> Utf8.Valid(x)
    ensures Utf8.Valid(x) ==> (Decode(Encode(x).value) == Some(x) <==> x != [])
  {
    hide Words, Characters, Tlv.WriteLength, Tlv.ReadLength;
    WordsExactlyForValid(x);
    if Utf8.Valid(x) {
      CharactersOfWords(x);
      var w := Words(x).value;
      var enc := Encode(x).value;
      Tlv.LengthRoundTrip(|w|, w);
      assert enc[1..] == Tlv.WriteLength(|w|) + w;
      var n := |Tlv.WriteLength(|w|)|;
      assert enc[1 + n..1 + n + |w|] == w;
    }
  }

  /** Some word is 80000000 or more: it would be negative as a rune. */
  predicate HasHighWord(v: bytes)
    requires |v| % 4 == 0
    decreases |v|
  {
    v != [] && (WordValue(v[..4]) >= 0x8000_0000 || HasHighWord(v[4..]))
  }

  /**
    Decoded text is valid UTF-8, and its words are the ones it was decoded from unless one of them was high: those
    are taken for the replacement character instead of being refused.
   */
  lemma {:induction false} WordsOfCharacters(v: bytes)
    requires |v| % 4 == 0 && Characters(v).Some?
    ensures Utf8.Valid(Characters(v).value)
    ensures Words(Characters(v).value) == Some(v) <==> !HasHighWord(v)
    decreases |v|
  {
    hide Words, Characters, Utf8.EncodeRune, Utf8.DecodeRune, Word, WordValue, Utf8.Proper;
    NoWords();
    if v != [] {
      CharactersStep(v);
      WordsOfCharacters(v[4..]);
      var cp := WordValue(v[..4]);
      var e, y := Utf8.EncodeRune(Signed(cp)), Characters(v[4..]).value;
      assert v == v[..4] + v[4..];
      WordRoundTripBack(v[..4]);
      EncodedRune(Signed(cp), y);
      var r := if cp < 0x8000_0000 then cp else Utf8.RUNE_ERROR;
      assert (e + y)[|e|..] == y;
      WordsStep(e + y);
      ErrorOrProper(e + y);
      WordRoundTrip(r);
      var w := Words(y);
      WordsMatch(r, w, v);
    }
  }

  /** The word 80000000 is decoded as the replacement character, whose own word is FFFD. */
  lemma HighWordIsReplaced()
    ensures Characters([128, 0, 0, 0]) == Some([0xEF, 0xBF, 0xBD])
    ensures Words([0xEF, 0xBF, 0xBD]) == Some([0, 0, 0xFF, 0xFD])
  {
    var v: bytes := [128, 0, 0, 0];
    assert v[..4] == v && v[4..] == [];
    assert WordValue(v) == 0x8000_0000 && Signed(0x8000_0000) == -0x8000_0000;
    var e: bytes := [0xEF, 0xBF, 0xBD];
    assert Utf8.EncodeRune(-0x8000_0000) == Utf8.EncodeRune(Utf8.RUNE_ERROR) == e;
    NoWords();
    assert e + [] == e && e[3..] == [];
    CharactersStep(v);
    Utf8.DecodeInvertsEncode(Utf8.RUNE_ERROR, []);
    assert Utf8.DecodeRune(e) == (Utf8.RUNE_ERROR, 3);
    var w: bytes := [0, 0, 0xFF, 0xFD];
    assert Word(Utf8.RUNE_ERROR) == w == w + [];
    WordsStep(e);
    hide Words, Characters, WordValue, Utf8.EncodeRune, Utf8.DecodeRune;
  }

  lemma WordsMatch(r: nat, w: Option<bytes>, v: bytes)
    requires r < 0x1_0000_0000 && |v| >= 4
    ensures PrependSome(Word(r), w) == Some(v) <==> Word(r) == v[..4] && w == Some(v[4..])
  {
    if w.Some? {
      assert (Word(r) + w.value)[..4] == Word(r) && (Word(r) + w.value)[4..] == w.value;
    }
    assert v == v[..4] + v[4..];
  }

  lemma EncodedRune(r: int, rest: bytes)
    requires !OutOfBounds(r)
    ensures var e := Utf8.EncodeRune(r);
            && e != [] && Utf8.Proper(e + rest)
            && Utf8.DecodeRune(e + rest) == (if r >= 0 then r else Utf8.RUNE_ERROR, |e|)
  {
    Utf8.DecodeInvertsEncode(if r >= 0 then r else Utf8.RUNE_ERROR, rest);
  }

  /** The letter A in BER. */
  lemma LetterOctets()
    ensures Encode([65]) == Some([0x1C, 0x04, 0, 0, 0, 65])
  {
    hide Tlv.Write, Utf8.DecodeRune;
    LetterWord();
    Tlv.UniversalTags([0, 0, 0, 65]);
    assert [0x1C, 0x04] + [0, 0, 0, 65] == [0x1C, 0x04, 0, 0, 0, 65];
  }

  lemma LetterWord()
    ensures Words([65]) == Some([0, 0, 0, 65])
  {
    Utf8.AsciiFirst([65]);
    WordsStep([65]);
    NoWords();
    assert [65][1..] == [];
    assert Word(65) + [] == [0, 0, 0, 65];
  }
}
