/** at.go: escaping and unescaping of the two halves of an attribute type and value pair (RFC 4514). */
module AttributeText {
  import opened Bytes
  import opened Wrappers
  import Utf8
  import Tlv

  datatype Error = IncompletePair | UnescapedCharacter | CorruptedEscape | BadHexValue

  // ----- encodeATV -----

  function HexDigit(n: int): (c: byte)
    requires 0 <= n < 16
    ensures IsHex(c)
  {
    if n < 10 then 48 + n else 87 + n
  }

  function HexValue(c: byte): (n: int)
    requires IsHex(c)
    ensures 0 <= n < 16
  {
    if c <= 57 then c - 48 else if c <= 70 then c - 55 else c - 87
  }

  /** Characters that are escaped by a backslash wherever they stand: " + , ; < > \ */
  predicate IsSpecial(c: byte) {
    c == DQUOTE || c == PLUS || c == COMMA || c == SEMI || c == LESS || c == GREATER || c == BSLASH
  }

  /** What becomes of octet `i`: itself, a backslash and itself, or a backslash and two hexadecimal digits. */
  function Piece(v: bytes, i: nat, isValue: bool): (p: bytes)
    requires i < |v|
    ensures p != []
  {
    var c := v[i];
    if i == 0 && (c == SPACE || c == HASH) then [BSLASH, c]
    else if i == |v| - 1 && c == SPACE then [BSLASH, c]
    else if IsSpecial(c) then [BSLASH, c]
    else if !isValue && c == EQUALS then [BSLASH, c]
    else if c < SPACE || c > TILDE then [BSLASH, HexDigit(c / 16), HexDigit(c % 16)]
    else [c]
  }

  /** The escaped form of the first `k` octets of `v`. */
  function EscapeTo(v: bytes, k: nat, isValue: bool): bytes
    requires k <= |v|
  {
    if k == 0 then [] else EscapeTo(v, k - 1, isValue) + Piece(v, k - 1, isValue)
  }

  function Escape(v: bytes, isValue: bool): bytes { EscapeTo(v, |v|, isValue) }

  method EncodeAtv(value: bytes, isValue: bool) returns (bld: bytes)
    ensures bld == Escape(value, isValue)
  {
    bld := [];
    for i := 0 to |value|
      invariant bld == EscapeTo(value, i, isValue)
    {
      var c := value[i];
      if i == 0 && (c == SPACE || c == HASH) {
        bld := bld + [BSLASH, c];
        continue;
      }
      if i == |value| - 1 && c == SPACE {
        bld := bld + [BSLASH, c];
        continue;
      }
      if IsSpecial(c) {
        bld := bld + [BSLASH, c];
        continue;
      }
      if !isValue && c == EQUALS {
        bld := bld + [BSLASH, c];
        continue;
      }
      if c < SPACE || c > TILDE {
        bld := bld + [BSLASH, HexDigit(c / 16), HexDigit(c % 16)];
        continue;
      }
      bld := bld + [c];
    }
  }

  // ----- stripLeadingAndTrailingSpaces -----

  function TrimLeftSpaces(s: bytes): (r: bytes)
    ensures |r| <= |s|
    ensures r != [] ==> r[0] != SPACE
  {
    if s != [] && s[0] == SPACE then TrimLeftSpaces(s[1..]) else s
  }

  function TrimRightSpaces(s: bytes): (r: bytes)
    ensures r <= s
    ensures r != [] ==> r[|r| - 1] != SPACE
    decreases |s|
  {
    if s != [] && s[|s| - 1] == SPACE then TrimRightSpaces(s[..|s| - 1]) else s
  }

  /** Backslashes at the end of `s`. */
  function TrailingBackslashes(s: bytes): (n: nat)
    decreases |s|
  {
    if s != [] && s[|s| - 1] == BSLASH then 1 + TrailingBackslashes(s[..|s| - 1]) else 0
  }

  function Strip(s: bytes): bytes {
    var t := TrimRightSpaces(TrimLeftSpaces(s));
    if t != [] && s[|s| - 1] == SPACE && TrailingBackslashes(t) % 2 == 1 then t + [SPACE] else t
  }

  method StripLeadingAndTrailingSpaces(s: bytes) returns (noSpaces: bytes)
    ensures noSpaces == Strip(s)
  {
    noSpaces := TrimRightSpaces(TrimLeftSpaces(s));
    if |noSpaces| > 0 && s[|s| - 1] == SPACE {
      var backslashes := 0;
      var i := |noSpaces| - 1;
      assert noSpaces[..i + 1] == noSpaces;
      while i >= 0 && noSpaces[i] == BSLASH
        invariant -1 <= i < |noSpaces|
        invariant backslashes + TrailingBackslashes(noSpaces[..i + 1]) == TrailingBackslashes(noSpaces)
      {
        assert noSpaces[..i + 1][..i] == noSpaces[..i];
        backslashes := backslashes + 1;
        i := i - 1;
      }
      if backslashes % 2 == 1 {
        noSpaces := noSpaces + [SPACE];
      }
    }
  }

  // ----- decodeString -----

  /** Characters that may follow a backslash literally. */
  predicate IsEscapable(c: byte) { IsSpecial(c) || c == SPACE || c == HASH || c == EQUALS }

  /** Characters that must not stand unescaped. */
  predicate IsForbidden(c: byte) { c == DQUOTE || c == SEMI || c == LESS || c == GREATER || c == 0 }

  /** The unescaping loop over valid UTF-8; all characters it looks for are ASCII. */
  function Unescape(s: bytes): Result<bytes, Error> {
    if s == [] then Success([])
    else if s[0] != BSLASH then
      if IsForbidden(s[0]) then Failure(UnescapedCharacter) else Prepend([s[0]], Unescape(s[1..]))
    else if |s| < 2 then Failure(CorruptedEscape)
    else if IsEscapable(s[1]) then Prepend([s[1]], Unescape(s[2..]))
    else if |s| < 3 || !IsHex(s[1]) || !IsHex(s[2]) then Failure(CorruptedEscape)
    else Prepend([HexValue(s[1]) * 16 + HexValue(s[2])], Unescape(s[3..]))
  }

  function DecodeString(s: bytes): Result<bytes, Error> {
    Unescape(Utf8.Sanitize(Strip(s)))
  }

  /** hex.DecodeString. */
  function DecodeHex(s: bytes): Result<bytes, Error> {
    if s == [] then Success([])
    else if |s| < 2 || !IsHex(s[0]) || !IsHex(s[1]) then Failure(BadHexValue)
    else Prepend([HexValue(s[0]) * 16 + HexValue(s[1])], DecodeHex(s[2..]))
  }

  /** decodeEncodedString: the hexadecimal form of exactly one OCTET STRING element. */
  function DecodeEncodedString(s: bytes): Result<bytes, Error> {
    var b :- DecodeHex(s);
    var e := Tlv.Read(b);
    if e.Failure? || e.value.size != |b| then Failure(BadHexValue)
    else if e.value.tag != Tlv.Tag(Tlv.UNIVERSAL, false, Tlv.TAG_OCTET_STRING) then Failure(BadHexValue)
    else Success(e.value.payload)
  }

  function DecodeValue(s: bytes): Result<bytes, Error> {
    if s != [] && s[0] == HASH then DecodeEncodedString(s[1..]) else DecodeString(s)
  }

  method DecodeStringLoop(str: bytes) returns (r: Result<bytes, Error>)
    ensures r == DecodeString(str)
  {
    hide HexValue, IsEscapable, IsForbidden, Strip, Utf8.Sanitize;
    var s := StripLeadingAndTrailingSpaces(str);
    s := Utf8.Sanitize(s);
    var bld: bytes := [];
    var i := 0;
    PrependNothing(Unescape(s));
    assert s[0..] == s;
    while i < |s|
      invariant 0 <= i <= |s|
      invariant Unescape(s) == Prepend(bld, Unescape(s[i..]))
    {
      var rest := s[i..];
      var c := s[i];
      if c != BSLASH {
        if IsForbidden(c) {
          return Failure(UnescapedCharacter);
        }
        assert rest[1..] == s[i + 1..];
        PrependTwice(bld, [c], Unescape(rest[1..]));
        bld := bld + [c];
        i := i + 1;
        continue;
      }
      if i + 1 >= |s| {
        return Failure(CorruptedEscape);
      }
      if IsEscapable(s[i + 1]) {
        assert rest[2..] == s[i + 2..];
        PrependTwice(bld, [s[i + 1]], Unescape(rest[2..]));
        bld := bld + [s[i + 1]];
        i := i + 2;
        continue;
      }
      if i + 2 >= |s| {
        return Failure(CorruptedEscape);
      }
      if !IsHex(s[i + 1]) || !IsHex(s[i + 2]) {
        return Failure(CorruptedEscape);
      }
      var x := HexValue(s[i + 1]) * 16 + HexValue(s[i + 2]);
      assert rest[3..] == s[i + 3..];
      PrependTwice(bld, [x], Unescape(rest[3..]));
      bld := bld + [x];
      i := i + 3;
    }
    assert s[i..] == [] && bld + [] == bld;
    return Success(bld);
  }

  /** AttributeTypeAndValue as parseDN fills it in. */
  class Pair {
    var typ: bytes
    var value: bytes

    constructor ()
      ensures typ == [] && value == []
    {
      typ, value := [], [];
    }

    /** The type is replaced on success only. */
    method SetType(s: bytes) returns (err: Option<Error>)
      modifies this
      ensures value == old(value)
      ensures match DecodeString(s)
              case Success(t) => err == None && typ == t
              case Failure(e) => err == Some(e) && typ == old(typ)
    {
      var r := DecodeStringLoop(s);
      if r.Failure? {
        return Some(r.error);
      }
      typ := r.value;
      return None;
    }

    /** The value is replaced on success only. */
    method SetValue(s: bytes) returns (err: Option<Error>)
      modifies this
      ensures typ == old(typ)
      ensures match DecodeValue(s)
              case Success(v) => err == None && value == v
              case Failure(e) => err == Some(e) && value == old(value)
    {
      var r;
      if |s| > 0 && s[0] == HASH {
        r := DecodeEncodedString(s[1..]);
      } else {
        r := DecodeStringLoop(s);
      }
      if r.Failure? {
        return Some(r.error);
      }
      value := r.value;
      return None;
    }
  }

  // ----- the grammar of escaped text -----

  const UPPER_DIGITS: string := "0123456789ABCDEF"
  const LOWER_DIGITS: string := "0123456789abcdef"

  /** What may follow a backslash, and what must not stand without one (section 3 of RFC 4514). */
  const ESCAPABLE: string := " \"#+,;<=>\\"
  const FORBIDDEN: string := "\";<>\\\0"

  /** An octet of text: as it is, behind a backslash, or as a backslash and two digits in either case. */
  datatype Unit = Bare(c: byte) | Marked(c: byte) | Spelled(c: byte, upperHigh: bool, upperLow: bool)

  function Digit(n: nat, upper: bool): byte
    requires n < 16
  {
    (if upper then UPPER_DIGITS[n] else LOWER_DIGITS[n]) as int
  }

  predicate IsUnit(u: Unit) {
    match u
    case Bare(c) => c as char !in FORBIDDEN
    case Marked(c) => c as char in ESCAPABLE
    case Spelled(_, _, _) => true
  }

  predicate AreUnits(us: seq<Unit>) { forall i :: 0 <= i < |us| ==> IsUnit(us[i]) }

  function UnitText(u: Unit): (t: bytes)
    ensures t != []
  {
    match u
    case Bare(c) => [c]
    case Marked(c) => [BSLASH, c]
    case Spelled(c, high, low) => [BSLASH, Digit(c / 16, high), Digit(c % 16, low)]
  }

  function Text(us: seq<Unit>): bytes {
    if us == [] then [] else Text(us[..|us| - 1]) + UnitText(us[|us| - 1])
  }

  function Octets(us: seq<Unit>): (v: bytes)
    ensures |v| == |us|
    ensures forall i :: 0 <= i < |us| ==> v[i] == us[i].c
  {
    seq(|us|, i requires 0 <= i < |us| => us[i].c)
  }

  /** The value of a digit is its place among the sixteen, in either case. */
  lemma DigitValue(n: nat, upper: bool)
    requires n < 16
    ensures var h := Digit(n, upper); IsHex(h) && HexValue(h) == n && h as char !in ESCAPABLE
  {
    var digits := if upper then UPPER_DIGITS else LOWER_DIGITS;
    assert digits[0] == '0' && digits[1] == '1' && digits[2] == '2' && digits[3] == '3';
    assert digits[4] == '4' && digits[5] == '5' && digits[6] == '6' && digits[7] == '7';
    assert digits[8] == '8' && digits[9] == '9';
  }

  lemma DigitIsWritten(n: nat)
    requires n < 16
    ensures HexDigit(n) == Digit(n, false)
  {
  }

  lemma HexIsDigit(h: byte)
    requires IsHex(h)
    ensures h == Digit(HexValue(h), h < 97)
  {
  }

  lemma Characters(c: byte)
    ensures IsEscapable(c) <==> c as char in ESCAPABLE
    ensures IsForbidden(c) || c == BSLASH <==> c as char in FORBIDDEN
  {
    assert forall k :: 0 <= k < 10 ==> ESCAPABLE[k] in ESCAPABLE;
    assert forall k :: 0 <= k < 6 ==> FORBIDDEN[k] in FORBIDDEN;
  }

  lemma TextSnoc(us: seq<Unit>, u: Unit)
    ensures Text(us + [u]) == Text(us) + UnitText(u)
    ensures Octets(us + [u]) == Octets(us) + [u.c]
  {
    assert (us + [u])[..|us|] == us;
  }

  lemma NoUnits()
    ensures Text([]) == [] && Octets([]) == []
  {
  }

  lemma {:induction false} TextConcat(a: seq<Unit>, b: seq<Unit>)
    ensures Text(a + b) == Text(a) + Text(b) && Octets(a + b) == Octets(a) + Octets(b)
    decreases |b|
  {
    hide Text, UnitText;
    NoUnits();
    if b == [] {
      assert a + b == a;
    } else {
      var b', u := b[..|b| - 1], b[|b| - 1];
      assert b == b' + [u] && a + b == a + b' + [u];
      TextConcat(a, b');
      TextSnoc(b', u);
      TextSnoc(a + b', u);
    }
  }

  /** One unit in front of anything. */
  lemma UnescapeUnit(u: Unit, rest: bytes)
    requires IsUnit(u)
    ensures Unescape(UnitText(u) + rest) == Prepend([u.c], Unescape(rest))
  {
    hide Unescape, IsEscapable, IsForbidden;
    Characters(u.c);
    match u
    case Bare(c) => UnescapeBare(c, rest);
    case Marked(c) => UnescapeMarked(c, rest);
    case Spelled(_, _, _) => UnescapeSpelled(u, rest);
  }

  lemma UnescapeBare(c: byte, rest: bytes)
    requires !IsForbidden(c) && c != BSLASH
    ensures Unescape([c] + rest) == Prepend([c], Unescape(rest))
  {
    assert ([c] + rest)[1..] == rest;
  }

  lemma UnescapeMarked(c: byte, rest: bytes)
    requires IsEscapable(c)
    ensures Unescape([BSLASH, c] + rest) == Prepend([c], Unescape(rest))
  {
    assert ([BSLASH, c] + rest)[2..] == rest;
  }

  /** Two digits behind a backslash mean the octet they spell, each in either case. */
  lemma UnescapeSpelled(u: Unit, rest: bytes)
    requires u.Spelled?
    ensures Unescape(UnitText(u) + rest) == Prepend([u.c], Unescape(rest))
  {
    var h, l := Digit(u.c / 16, u.upperHigh), Digit(u.c % 16, u.upperLow);
    var s := [BSLASH, h, l] + rest;
    DigitValue(u.c / 16, u.upperHigh);
    DigitValue(u.c % 16, u.upperLow);
    Characters(h);
    assert s[1] == h && s[2] == l && s[3..] == rest;
    hide Digit, HexValue, IsEscapable;
  }

  lemma {:induction false} UnescapeText(us: seq<Unit>, rest: bytes)
    requires AreUnits(us)
    ensures Unescape(Text(us) + rest) == Prepend(Octets(us), Unescape(rest))
    decreases |us|
  {
    hide Unescape, UnitText, IsUnit;
    if us == [] {
      assert Text([]) + rest == rest && Octets([]) == [];
      PrependNothing(Unescape(rest));
    } else {
      var us', u := us[..|us| - 1], us[|us| - 1];
      assert us == us' + [u];
      TextSnoc(us', u);
      assert Text(us) + rest == Text(us') + (UnitText(u) + rest);
      UnescapeText(us', UnitText(u) + rest);
      UnescapeUnit(u, rest);
      PrependTwice(Octets(us'), [u.c], Unescape(rest));
    }
  }

  /** Whatever is accepted is made of units, and means their octets. */
  lemma {:induction false} AcceptedIsText(s: bytes) returns (us: seq<Unit>)
    requires Unescape(s).Success?
    ensures AreUnits(us) && Text(us) == s && Unescape(s) == Success(Octets(us))
    decreases |s|
  {
    hide IsUnit, UnitText, Text, Digit;
    if s == [] {
      us := [];
      NoUnits();
    } else {
      var u := FirstUnit(s);
      var rest := s[|UnitText(u)|..];
      var others := AcceptedIsText(rest);
      us := [u] + others;
      TextConcat([u], others);
      NoUnits();
      TextSnoc([], u);
      assert [] + [u] == [u] && [] + UnitText(u) == UnitText(u);
      assert Octets(us) == [u.c] + Octets(others);
      assert s == UnitText(u) + rest;
    }
  }

  lemma FirstUnit(s: bytes) returns (u: Unit)
    requires s != [] && Unescape(s).Success?
    ensures IsUnit(u) && UnitText(u) <= s
    ensures Unescape(s) == Prepend([u.c], Unescape(s[|UnitText(u)|..]))
  {
    Characters(s[0]);
    if s[0] != BSLASH {
      u := Bare(s[0]);
    } else {
      Characters(s[1]);
      if IsEscapable(s[1]) {
        u := Marked(s[1]);
        assert UnitText(u) == s[..2];
      } else {
        u := SpelledUnit(s[1], s[2]);
        assert UnitText(u) == s[..3];
      }
    }
    hide UnitText;
    UnescapeUnit(u, s[|UnitText(u)|..]);
    assert s == UnitText(u) + s[|UnitText(u)|..];
  }

  lemma SpelledUnit(h: byte, l: byte) returns (u: Unit)
    requires IsHex(h) && IsHex(l)
    ensures u.Spelled? && UnitText(u) == [BSLASH, h, l]
  {
    HexIsDigit(h);
    HexIsDigit(l);
    var c := HexValue(h) * 16 + HexValue(l);
    assert c / 16 == HexValue(h) && c % 16 == HexValue(l);
    hide HexValue, Digit;
    u := Spelled(c, h < 97, l < 97);
  }

  // ----- white space around escaped text -----

  function Blanks(n: nat): (b: bytes)
    ensures |b| == n
  {
    seq(n, i => SPACE)
  }

  lemma {:induction false} TrimLeftBlanks(n: nat, t: bytes)
    ensures TrimLeftSpaces(Blanks(n) + t) == TrimLeftSpaces(t)
    decreases n
  {
    if n == 0 {
      assert Blanks(n) + t == t;
    } else {
      assert (Blanks(n) + t)[1..] == Blanks(n - 1) + t;
      TrimLeftBlanks(n - 1, t);
    }
  }

  lemma {:induction false} TrimRightBlanks(t: bytes, n: nat)
    ensures TrimRightSpaces(t + Blanks(n)) == TrimRightSpaces(t)
    decreases n
  {
    if n == 0 {
      assert t + Blanks(n) == t;
    } else {
      var s := t + Blanks(n);
      assert s[..|s| - 1] == t + Blanks(n - 1);
      TrimRightBlanks(t, n - 1);
    }
  }

  lemma TrimLeftStays(s: bytes)
    requires s != [] ==> s[0] != SPACE
    ensures TrimLeftSpaces(s) == s
  {
  }

  lemma TrimRightStays(s: bytes)
    requires s != [] ==> s[|s| - 1] != SPACE
    ensures TrimRightSpaces(s) == s
  {
  }

  lemma TrimRightOne(s: bytes)
    ensures TrimRightSpaces(s + [SPACE]) == TrimRightSpaces(s)
  {
    assert (s + [SPACE])[..|s|] == s;
  }

  lemma OneMoreBackslash(s: bytes)
    ensures TrailingBackslashes(s + [BSLASH]) == 1 + TrailingBackslashes(s)
  {
    assert (s + [BSLASH])[..|s|] == s;
  }

  lemma UnitEnd(front: bytes, u: Unit)
    requires IsUnit(u)
    ensures var n := TrailingBackslashes(front + UnitText(u));
            if u == Marked(BSLASH) then n == TrailingBackslashes(front) + 2 else n == 0
    ensures var t := UnitText(u); t[|t| - 1] == SPACE <==> u == Bare(SPACE) || u == Marked(SPACE)
    ensures var t := UnitText(u); t[0] == SPACE <==> u == Bare(SPACE)
  {
    hide Digit;
    var t := UnitText(u);
    var e := front + t;
    Characters(u.c);
    if u.Spelled? {
      DigitValue(u.c % 16, u.upperLow);
    }
    if u == Marked(BSLASH) {
      assert e == front + [BSLASH] + [BSLASH];
      hide TrailingBackslashes;
      OneMoreBackslash(front);
      OneMoreBackslash(front + [BSLASH]);
    } else {
      assert e[|e| - 1] == t[|t| - 1] != BSLASH;
    }
  }

  /** Backslashes at the end of escaped text come in pairs. */
  lemma {:induction false} BackslashPairs(us: seq<Unit>)
    requires AreUnits(us)
    ensures TrailingBackslashes(Text(us)) % 2 == 0
    decreases |us|
  {
    hide IsUnit, UnitText;
    if us != [] {
      var us', u := us[..|us| - 1], us[|us| - 1];
      BackslashPairs(us');
      UnitEnd(Text(us'), u);
    }
  }

  /** The first and the last octet of escaped text. */
  lemma {:induction false} TextEnds(us: seq<Unit>)
    requires us != []
    ensures var t, f, l := Text(us), UnitText(us[0]), UnitText(us[|us| - 1]);
            t != [] && t[0] == f[0] && t[|t| - 1] == l[|l| - 1]
    decreases |us|
  {
    hide UnitText;
    if |us| > 1 {
      TextEnds(us[..|us| - 1]);
    } else {
      assert us[..0] == [] && Text(us) == Text([]) + UnitText(us[0]);
    }
  }

  /** Escaped text whose outer octets are no bare spaces, in well-formed UTF-8. */
  predicate IsChunk(us: seq<Unit>) {
    && AreUnits(us) && Utf8.Valid(Text(us))
    && (us != [] ==> us[0] != Bare(SPACE) && us[|us| - 1] != Bare(SPACE))
  }

  /** Stripping leaves the text between the blanks: an escaped space at its end is put back. */
  lemma StripBlanks(m: nat, us: seq<Unit>, n: nat)
    requires IsChunk(us)
    ensures Strip(Blanks(m) + Text(us) + Blanks(n)) == Text(us)
  {
    hide TrimLeftSpaces, TrimRightSpaces, TrailingBackslashes, UnitText, Text, Utf8.Valid;
    var t := Text(us);
    var s := Blanks(m) + t + Blanks(n);
    assert s == Blanks(m) + (t + Blanks(n));
    TrimLeftBlanks(m, t + Blanks(n));
    if us == [] {
      NoUnits();
      assert [] + Blanks(n) == Blanks(n) + [];
      TrimLeftBlanks(n, []);
      TrimLeftStays([]);
      TrimRightStays([]);
    } else {
      var us', u := us[..|us| - 1], us[|us| - 1];
      UnitEnd([], us[0]);
      UnitEnd([], u);
      TextEnds(us);
      TrimLeftStays(t + Blanks(n));
      TrimRightBlanks(t, n);
      if u == Marked(SPACE) {
        assert us == us' + [u];
        TextSnoc(us', u);
        MarkedText(SPACE);
        StripPutsBack(s, us');
      } else {
        TrimRightStays(t);
        BackslashPairs(us);
      }
    }
  }

  lemma MarkedText(c: byte)
    ensures UnitText(Marked(c)) == [BSLASH, c]
  {
  }

  lemma StripPutsBack(s: bytes, us: seq<Unit>)
    requires AreUnits(us) && s != [] && s[|s| - 1] == SPACE
    requires TrimRightSpaces(TrimLeftSpaces(s)) == TrimRightSpaces(Text(us) + [BSLASH, SPACE])
    ensures Strip(s) == Text(us) + [BSLASH, SPACE]
  {
    hide TrimLeftSpaces, TrimRightSpaces, TrailingBackslashes, Text;
    var front := Text(us);
    var t := front + [BSLASH];
    assert front + [BSLASH, SPACE] == t + [SPACE];
    BackslashPairs(us);
    OneMoreBackslash(front);
    TrimRightOne(t);
    TrimRightStays(t);
  }

  /** Escaped text means its octets, in every spelling and with any blanks around it. */
  lemma DecodeStringOfText(m: nat, us: seq<Unit>, n: nat)
    requires IsChunk(us)
    ensures DecodeString(Blanks(m) + Text(us) + Blanks(n)) == Success(Octets(us))
  {
    hide Unescape, Strip, Text, Utf8.Valid, Utf8.Sanitize;
    StripBlanks(m, us, n);
    Utf8.SanitizeKeepsExactlyValid(Text(us));
    UnescapeText(us, []);
    UnescapeNothing();
    assert Text(us) + [] == Text(us) && Octets(us) + [] == Octets(us);
  }

  lemma UnescapeNothing()
    ensures Unescape([]) == Success([])
  {
  }

  /** The same for values, unless a number sign in front announces the hexadecimal form. */
  lemma DecodeValueOfText(m: nat, us: seq<Unit>, n: nat)
    requires IsChunk(us) && (m == 0 && us != [] ==> us[0] != Bare(HASH))
    ensures DecodeValue(Blanks(m) + Text(us) + Blanks(n)) == Success(Octets(us))
  {
    hide DecodeString, Text;
    DecodeStringOfText(m, us, n);
    var s := Blanks(m) + Text(us) + Blanks(n);
    if m == 0 && us != [] {
      TextEnds(us);
      assert s[0] == Text(us)[0];
    } else {
      NoUnits();
      assert s != [] ==> s[0] == SPACE;
    }
  }

  // ----- the hexadecimal form -----

  /** Two digits an octet, each in either case. */
  function HexText(b: bytes, upper: seq<(bool, bool)>): bytes
    requires |upper| == |b|
  {
    if b == [] then []
    else [Digit(b[0] / 16, upper[0].0), Digit(b[0] % 16, upper[0].1)] + HexText(b[1..], upper[1..])
  }

  lemma {:induction false} DecodeHexText(b: bytes, upper: seq<(bool, bool)>)
    requires |upper| == |b|
    ensures DecodeHex(HexText(b, upper)) == Success(b)
    decreases |b|
  {
    hide Digit, HexValue;
    if b != [] {
      DecodeHexText(b[1..], upper[1..]);
      DigitValue(b[0] / 16, upper[0].0);
      DigitValue(b[0] % 16, upper[0].1);
      assert HexText(b, upper)[2..] == HexText(b[1..], upper[1..]);
      assert b == [b[0]] + b[1..];
    }
  }

  /** A number sign and the digits of an OCTET STRING element mean the contents of the element. */
  lemma DecodeValueOfElement(v: bytes, upper: seq<(bool, bool)>)
    requires |v| < Tlv.MAX_LENGTH
    requires var e := Tlv.Write(Tlv.Tag(0, false, 4), v); |upper| == |e|
    ensures var e := Tlv.Write(Tlv.Tag(0, false, 4), v); DecodeValue([HASH] + HexText(e, upper)) == Success(v)
  {
    hide HexText, DecodeHex, Tlv.Write, Tlv.Read;
    var e := Tlv.Write(Tlv.Tag(0, false, 4), v);
    DecodeHexText(e, upper);
    Tlv.ElementRoundTrip(Tlv.Tag(0, false, 4), v, []);
    assert e + [] == e;
    assert ([HASH] + HexText(e, upper))[1..] == HexText(e, upper);
  }

  // ----- escaped text is in the grammar -----

  /** The unit that becomes of octet `i`. */
  function PieceUnit(v: bytes, i: nat, isValue: bool): (u: Unit)
    requires i < |v|
    ensures u.c == v[i]
  {
    var p := Piece(v, i, isValue);
    if |p| == 1 then Bare(v[i]) else if |p| == 2 then Marked(v[i]) else Spelled(v[i], false, false)
  }

  function Units(v: bytes, isValue: bool): (us: seq<Unit>)
    ensures |us| == |v|
    ensures forall i :: 0 <= i < |v| ==> us[i] == PieceUnit(v, i, isValue)
  {
    seq(|v|, i requires 0 <= i < |v| => PieceUnit(v, i, isValue))
  }

  lemma PieceIsUnit(v: bytes, i: nat, isValue: bool)
    requires i < |v|
    ensures var u := PieceUnit(v, i, isValue);
            && IsUnit(u) && UnitText(u) == Piece(v, i, isValue)
            && (u.Bare? ==> SPACE <= u.c <= TILDE && (u.c == EQUALS ==> isValue) && u.c != COMMA && u.c != PLUS)
            && (u == Bare(SPACE) ==> 0 < i < |v| - 1) && (u == Bare(HASH) ==> 0 < i)
  {
    hide HexDigit, Digit;
    DigitIsWritten(v[i] / 16);
    DigitIsWritten(v[i] % 16);
    Characters(v[i]);
  }

  lemma {:induction false} EscapeIsText(v: bytes, k: nat, isValue: bool)
    requires k <= |v|
    ensures EscapeTo(v, k, isValue) == Text(Units(v, isValue)[..k])
    decreases k
  {
    hide Piece, PieceUnit, UnitText, Text;
    if k == 0 {
      NoUnits();
    } else {
      var us := Units(v, isValue);
      EscapeIsText(v, k - 1, isValue);
      PieceIsUnit(v, k - 1, isValue);
      assert us[..k] == us[..k - 1] + [us[k - 1]];
      TextSnoc(us[..k - 1], us[k - 1]);
    }
  }

  /** Text whose bare octets are printable is printable. */
  lemma {:induction false} PrintableText(us: seq<Unit>)
    requires AreUnits(us) && forall i :: 0 <= i < |us| && us[i].Bare? ==> SPACE <= us[i].c <= TILDE
    ensures forall i :: 0 <= i < |Text(us)| ==> SPACE <= Text(us)[i] <= TILDE
    decreases |us|
  {
    hide Digit;
    if us != [] {
      var us', u := us[..|us| - 1], us[|us| - 1];
      PrintableText(us');
      Characters(u.c);
      if u.Spelled? {
        DigitValue(u.c / 16, u.upperHigh);
        DigitValue(u.c % 16, u.upperLow);
      }
    }
  }

  /** The escaped form of any octet string is printable text that means it. */
  lemma EscapedIsChunk(v: bytes, isValue: bool)
    ensures var us := Units(v, isValue);
            && Escape(v, isValue) == Text(us) && Octets(us) == v && IsChunk(us)
            && (us != [] ==> us[0] != Bare(HASH))
            && (forall i :: 0 <= i < |us| && us[i].Bare? ==>
                  (us[i].c == EQUALS ==> isValue) && us[i].c != COMMA && us[i].c != PLUS)
    ensures forall i :: 0 <= i < |Escape(v, isValue)| ==> SPACE <= Escape(v, isValue)[i] <= TILDE
  {
    hide PieceUnit, Text, EscapeTo, IsUnit;
    var us := Units(v, isValue);
    EscapeIsText(v, |v|, isValue);
    assert us[..|v|] == us;
    forall i | 0 <= i < |us|
      ensures IsUnit(us[i])
      ensures us[i].Bare? ==>
                SPACE <= us[i].c <= TILDE && (us[i].c == EQUALS ==> isValue) && us[i].c != COMMA && us[i].c != PLUS
      ensures (us[i] == Bare(SPACE) ==> 0 < i < |v| - 1) && (us[i] == Bare(HASH) ==> 0 < i)
    {
      PieceIsUnit(v, i, isValue);
    }
    PrintableText(us);
    Utf8.AsciiIsValid(Text(us));
  }

  lemma DecodeStringInvertsEscape(v: bytes, isValue: bool)
    ensures DecodeString(Escape(v, isValue)) == Success(v)
  {
    hide DecodeString, Text, EscapeTo, IsChunk;
    var us := Units(v, isValue);
    EscapedIsChunk(v, isValue);
    DecodeStringOfText(0, us, 0);
    assert Blanks(0) + Text(us) + Blanks(0) == Text(us);
  }

  /** Reading a printed value gives the value back, whatever its octets are. */
  lemma DecodeValueInvertsEscape(v: bytes)
    ensures DecodeValue(Escape(v, true)) == Success(v)
  {
    hide DecodeValue, Text, EscapeTo, IsChunk;
    var us := Units(v, true);
    EscapedIsChunk(v, true);
    DecodeValueOfText(0, us, 0);
    assert Blanks(0) + Text(us) + Blanks(0) == Text(us);
  }
}
