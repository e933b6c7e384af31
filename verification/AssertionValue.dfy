/** substr.go and misc.go: escaping, unescaping and the character checks of assertion values. */
module AssertionValue {
  import opened Bytes
  import opened Wrappers
  import opened Utf8
  import AttributeText

  // ----- escapeString -----

  /** Every octet as a backslash and two hexadecimal digits. */
  function HexPairs(b: bytes): (r: bytes)
    ensures |r| == 3 * |b|
    ensures IsAscii(r)
  {
    if b == [] then []
    else [BSLASH, AttributeText.HexDigit(b[0] / 16), AttributeText.HexDigit(b[0] % 16)] + HexPairs(b[1..])
  }

  function EscapeRune(r: int): (b: bytes)
    ensures IsAscii(b)
    ensures 0 <= r < 128 ==> b == [r]
    ensures !(0 <= r < 128) ==> |b| == 3 * |EncodeRune(r)|
  {
    if 0 <= r < 128 then [r] else HexPairs(EncodeRune(r))
  }

  /** AssertionValue.Escaped: ASCII stays, the octets of other runes are spelled in hexadecimal. */
  function Escape(x: bytes): (r: bytes)
    ensures IsAscii(r)
  {
    if x == [] then [] else EscapeRune(DecodeRune(x).0) + Escape(x[DecodeRune(x).1..])
  }

  lemma EscapeStep(x: bytes)
    ensures x == [] ==> Escape(x) == []
    ensures x != [] ==> Escape(x) == EscapeRune(DecodeRune(x).0) + Escape(x[DecodeRune(x).1..])
  {
  }

  lemma {:induction false} HexPairsSnoc(b: bytes, c: byte)
    ensures HexPairs(b + [c]) == HexPairs(b) + [BSLASH, AttributeText.HexDigit(c / 16), AttributeText.HexDigit(c % 16)]
  {
    hide AttributeText.HexDigit;
    if b == [] {
      assert b + [c] == [c];
      assert HexPairs([c][1..]) == [];
    } else {
      HexPairsSnoc(b[1..], c);
      assert (b + [c])[1..] == b[1..] + [c];
    }
  }

  method EscapeString(x: bytes) returns (bld: bytes)
    ensures bld == Escape(x)
  {
    hide DecodeRune, EncodeRune, Escape, HexPairs;
    EscapeStep([]);
    bld := [];
    var rest := x;
    while |rest| > 0
      invariant Escape(x) == bld + Escape(rest)
      decreases |rest|
    {
      EscapeStep(rest);
      var (z, size) := DecodeRune(rest);
      ghost var before, tail := bld, Escape(rest[size..]);
      if z > 127 {
        var octets := EncodeRune(z);
        NoPairs();
        for k := 0 to |octets|
          invariant bld == before + HexPairs(octets[..k])
        {
          assert octets[..k + 1] == octets[..k] + [octets[k]];
          HexPairsSnoc(octets[..k], octets[k]);
          bld := bld + [BSLASH];
          bld := bld + [AttributeText.HexDigit(octets[k] / 16), AttributeText.HexDigit(octets[k] % 16)];
        }
        assert octets[..|octets|] == octets;
        assert bld == before + EscapeRune(z);
      } else {
        bld := bld + [z];
      }
      assert before + (EscapeRune(z) + tail) == before + EscapeRune(z) + tail;
      rest := rest[size..];
    }
  }

  lemma NoPairs()
    ensures HexPairs([]) == []
  {
  }

  lemma AsciiStep(x: bytes)
    requires x != [] && x[0] < 128
    ensures DecodeRune(x) == (x[0], 1)
  {
  }

  /** Only ASCII is left alone; everything else grows. */
  lemma {:induction false} EscapeKeepsExactlyAscii(x: bytes)
    ensures IsAscii(x) ==> Escape(x) == x
    ensures !IsAscii(x) ==> |Escape(x)| > |x|
    decreases |x|
  {
    hide DecodeRune, Escape;
    EscapeStep(x);
    if x != [] {
      var (r, n) := DecodeRune(x);
      EscapeKeepsExactlyAscii(x[n..]);
      RuneGrows(x);
      if IsAscii(x) {
        AsciiStep(x);
        assert x == [x[0]] + x[1..];
      }
    }
  }

  lemma RuneGrows(x: bytes)
    requires x != []
    ensures |EscapeRune(DecodeRune(x).0)| >= DecodeRune(x).1
    ensures x[0] >= 128 ==> |EscapeRune(DecodeRune(x).0)| > DecodeRune(x).1
  {
    var (r, n) := DecodeRune(x);
    if Proper(x) {
      EncodeInvertsDecode(x);
    }
  }

  /** Escaping works piecewise around any ASCII character. */
  lemma {:induction false} EscapeAroundAscii(a: bytes, c: byte, b: bytes)
    requires c < 128
    ensures Escape(a + [c] + b) == Escape(a) + [c] + Escape(b)
    decreases |a|
  {
    hide DecodeRune, Escape, EscapeRune;
    var x := a + [c] + b;
    EscapeStep(x);
    EscapeStep(a);
    if a == [] {
      AsciiStep(x);
      assert x[1..] == b;
      AsciiRune(c);
      assert [] + [c] + Escape(b) == [c] + Escape(b);
    } else {
      DecodeStopsAtAscii(a, c, b);
      var n := DecodeRune(a).1;
      DecodeSize(a);
      assert x[n..] == a[n..] + [c] + b;
      EscapeAroundAscii(a[n..], c, b);
    }
  }

  lemma AsciiRune(c: byte)
    requires c < 128
    ensures EscapeRune(c) == [c]
  {
  }

  lemma DecodeSize(a: bytes)
    requires a != []
    ensures 1 <= DecodeRune(a).1 <= |a|
  {
  }

  // ----- hexDecode -----

  /** The decoding loop; None stands for the malformed escape at which the loop gives up. */
  function HexDecode(r: bytes): Option<bytes> {
    if r == [] then Some([])
    else if r[0] == BSLASH && |r| >= 3 then
      if IsHex(r[1]) && IsHex(r[2])
      then PrependSome([AttributeText.HexValue(r[1]) * 16 + AttributeText.HexValue(r[2])], HexDecode(r[3..]))
      else None
    else PrependSome(EncodeRune(r[0]), HexDecode(r[1..]))
  }

  /** AssertionValue.Unescaped: nothing at all after a malformed escape. */
  function Unescaped(r: bytes): bytes {
    var d := HexDecode(r);
    if d.Some? then d.value else []
  }

  method HexDecodeLoop(r: bytes) returns (d: bytes)
    ensures d == Unescaped(r)
  {
    hide EncodeRune, AttributeText.HexValue;
    d := [];
    var i := 0;
    assert r[0..] == r;
    PrependSomeNothing(HexDecode(r));
    while i < |r|
      invariant 0 <= i <= |r|
      invariant HexDecode(r) == PrependSome(d, HexDecode(r[i..]))
    {
      var rest := r[i..];
      if r[i] == BSLASH && i + 3 <= |r| {
        if !IsHex(r[i + 1]) || !IsHex(r[i + 2]) {
          return [];
        }
        var x := AttributeText.HexValue(r[i + 1]) * 16 + AttributeText.HexValue(r[i + 2]);
        assert rest[3..] == r[i + 3..];
        PrependSomeTwice(d, [x], HexDecode(rest[3..]));
        d := d + [x];
        i := i + 3;
      } else {
        assert rest[1..] == r[i + 1..];
        PrependSomeTwice(d, EncodeRune(r[i]), HexDecode(rest[1..]));
        d := d + EncodeRune(r[i]);
        i := i + 1;
      }
    }
    assert r[i..] == [] && d + [] == d;
  }

  /** A backslash and two digits, each in either case, mean the octet they spell. */
  lemma DecodeSpelled(c: byte, upperHigh: bool, upperLow: bool, rest: bytes)
    ensures HexDecode(AttributeText.UnitText(AttributeText.Spelled(c, upperHigh, upperLow)) + rest)
         == PrependSome([c], HexDecode(rest))
  {
    hide AttributeText.Digit, AttributeText.HexValue;
    var h, l := AttributeText.Digit(c / 16, upperHigh), AttributeText.Digit(c % 16, upperLow);
    var r := [BSLASH, h, l] + rest;
    AttributeText.DigitValue(c / 16, upperHigh);
    AttributeText.DigitValue(c % 16, upperLow);
    assert r[1] == h && r[2] == l && r[3..] == rest;
  }

  /** ASCII as it is, or octets behind backslashes. */
  predicate IsHexUnit(u: AttributeText.Unit) { u.Spelled? || (u.Bare? && u.c < 128 && u.c != BSLASH) }

  /** Unescaped is exact on every spelling of every octet string. */
  lemma {:induction false} DecodeUnits(us: seq<AttributeText.Unit>, rest: bytes)
    requires forall i :: 0 <= i < |us| ==> IsHexUnit(us[i])
    ensures HexDecode(AttributeText.Text(us) + rest) == PrependSome(AttributeText.Octets(us), HexDecode(rest))
    decreases |us|
  {
    hide HexDecode, AttributeText.UnitText;
    if us == [] {
      AttributeText.NoUnits();
      assert AttributeText.Text(us) + rest == rest;
      PrependSomeNothing(HexDecode(rest));
    } else {
      var us', u := us[..|us| - 1], us[|us| - 1];
      assert us == us' + [u];
      AttributeText.TextSnoc(us', u);
      var t := AttributeText.UnitText(u);
      assert AttributeText.Text(us) + rest == AttributeText.Text(us') + (t + rest);
      DecodeUnits(us', t + rest);
      DecodeHexUnit(u, rest);
      PrependSomeTwice(AttributeText.Octets(us'), [u.c], HexDecode(rest));
    }
  }

  lemma DecodeHexUnit(u: AttributeText.Unit, rest: bytes)
    requires IsHexUnit(u)
    ensures HexDecode(AttributeText.UnitText(u) + rest) == PrependSome([u.c], HexDecode(rest))
  {
    if u.Spelled? {
      DecodeSpelled(u.c, u.upperHigh, u.upperLow, rest);
    } else {
      hide AttributeText.HexValue;
      assert ([u.c] + rest)[1..] == rest;
    }
  }

  lemma UnescapedOfText(us: seq<AttributeText.Unit>)
    requires forall i :: 0 <= i < |us| ==> IsHexUnit(us[i])
    ensures Unescaped(AttributeText.Text(us)) == AttributeText.Octets(us)
  {
    hide HexDecode, AttributeText.Text;
    DecodeUnits(us, []);
    NothingToDecode();
    assert AttributeText.Text(us) + [] == AttributeText.Text(us);
  }

  /** `\C3\A9` means the octets C3 A9. */
  lemma UpperCaseEscapes()
    ensures Unescaped([BSLASH, 67, 51, BSLASH, 65, 57]) == [0xC3, 0xA9]
  {
    var a, b := AttributeText.Spelled(0xC3, true, true), AttributeText.Spelled(0xA9, true, true);
    UpperCasePairs();
    AttributeText.NoUnits();
    AttributeText.TextSnoc([], a);
    AttributeText.TextSnoc([a], b);
    hide AttributeText.UnitText, AttributeText.Text, HexDecode;
    assert [] + [a] == [a] && [a] + [b] == [a, b];
    assert [] + [BSLASH, 67, 51] + [BSLASH, 65, 57] == [BSLASH, 67, 51, BSLASH, 65, 57];
    UnescapedOfText([a, b]);
  }

  lemma UpperCasePairs()
    ensures AttributeText.UnitText(AttributeText.Spelled(0xC3, true, true)) == [BSLASH, 67, 51]
    ensures AttributeText.UnitText(AttributeText.Spelled(0xA9, true, true)) == [BSLASH, 65, 57]
  {
  }

  lemma DecodePair(c: byte, rest: bytes)
    ensures HexDecode([BSLASH, AttributeText.HexDigit(c / 16), AttributeText.HexDigit(c % 16)] + rest)
         == PrependSome([c], HexDecode(rest))
  {
    hide AttributeText.HexDigit, AttributeText.Digit, HexDecode;
    AttributeText.DigitIsWritten(c / 16);
    AttributeText.DigitIsWritten(c % 16);
    DecodeSpelled(c, false, false, rest);
  }

  lemma {:induction false} DecodeHexPairs(b: bytes, rest: bytes)
    ensures HexDecode(HexPairs(b) + rest) == PrependSome(b, HexDecode(rest))
    decreases |b|
  {
    hide AttributeText.HexDigit, AttributeText.HexValue;
    if b == [] {
      assert HexPairs(b) + rest == rest;
      PrependSomeNothing(HexDecode(rest));
    } else {
      hide HexDecode;
      var pair := [BSLASH, AttributeText.HexDigit(b[0] / 16), AttributeText.HexDigit(b[0] % 16)];
      assert HexPairs(b) + rest == pair + (HexPairs(b[1..]) + rest);
      DecodePair(b[0], HexPairs(b[1..]) + rest);
      DecodeHexPairs(b[1..], rest);
      assert b == [b[0]] + b[1..];
      PrependSomeTwice([b[0]], b[1..], HexDecode(rest));
    }
  }

  /** Decoding one escaped rune that is not a backslash. */
  lemma DecodeEscapedRune(r: int, rest: bytes)
    requires IsScalar(r) && r != BSLASH
    ensures HexDecode(EscapeRune(r) + rest) == PrependSome(EncodeRune(r), HexDecode(rest))
  {
    if r < 128 {
      assert ([r] + rest)[1..] == rest;
    } else {
      DecodeHexPairs(EncodeRune(r), rest);
    }
  }

  /** Without backslashes, unescaping after Set leaves what a conversion to runes leaves. */
  lemma {:induction false} UnescapedAfterSet(x: bytes)
    requires BSLASH !in x
    ensures Unescaped(Escape(x)) == Sanitize(x)
    ensures Unescaped(Escape(x)) == x <==> Valid(x)
    ensures HexDecode(Escape(x)) == Some(Sanitize(x))
    decreases |x|
  {
    hide DecodeRune, EncodeRune, EscapeRune, Escape, HexDecode, Valid;
    SanitizeKeepsExactlyValid(x);
    EscapeStep(x);
    NothingToDecode();
    if x != [] {
      var (r, n) := DecodeRune(x);
      RuneIsNoBackslash(x);
      UnescapedAfterSet(x[n..]);
      DecodeEscapedRune(r, Escape(x[n..]));
    }
  }

  lemma NothingToDecode()
    ensures HexDecode([]) == Some([])
  {
  }

  lemma RuneIsNoBackslash(x: bytes)
    requires x != []
    ensures DecodeRune(x).0 == BSLASH <==> x[0] == BSLASH
    ensures x[0] == BSLASH ==> DecodeRune(x).1 == 1
  {
    if Proper(x) && x[0] >= 128 {
      assert RuneValue(x) >= 128;
    }
  }

  /** Every backslash is among the last two octets, with nothing but ASCII after it. */
  predicate BackslashesAtEnd(x: bytes) {
    forall i :: 0 <= i < |x| && x[i] == BSLASH ==> |x| - i <= 2 && IsAscii(x[i..])
  }

  lemma BackslashesAtEndTail(x: bytes, n: nat)
    requires n <= |x|
    ensures BackslashesAtEnd(x) ==> BackslashesAtEnd(x[n..])
    ensures BackslashesAtEnd(x[n..]) && BSLASH !in x[..n] ==> BackslashesAtEnd(x)
  {
    if BackslashesAtEnd(x) {
      forall i | 0 <= i < |x| - n && x[n..][i] == BSLASH ensures |x| - n - i <= 2 && IsAscii(x[n..][i..]) {
        assert x[n..][i..] == x[n + i..];
      }
    }
    if BackslashesAtEnd(x[n..]) && BSLASH !in x[..n] {
      forall k | 0 <= k < n ensures x[k] != BSLASH {
        assert x[k] == x[..n][k];
      }
      forall i | 0 <= i < |x| && x[i] == BSLASH ensures |x| - i <= 2 && IsAscii(x[i..]) {
        assert x[n..][i - n] == BSLASH;
        assert x[n..][i - n..] == x[i..];
      }
    }
  }

  /**
    For valid UTF-8, unescaping after Set gives the value back exactly when no backslash starts something that
    is long enough to be taken for an escape.
   */
  lemma {:induction false} UnescapedAfterSetExactly(x: bytes)
    requires Valid(x)
    ensures Unescaped(Escape(x)) == x <==> BackslashesAtEnd(x)
    ensures BackslashesAtEnd(x) ==> HexDecode(Escape(x)) == Some(x)
    ensures !BackslashesAtEnd(x) ==> var d := HexDecode(Escape(x)); d == None || |d.value| < |x|
    decreases |x|
  {
    hide DecodeRune, EncodeRune, EscapeRune, Escape, HexDecode, BackslashesAtEnd;
    EscapeStep(x);
    NothingToDecode();
    if x == [] {
      NoBackslashes();
    } else {
      var (r, n) := DecodeRune(x);
      RuneIsNoBackslash(x);
      DecodeSize(x);
      BackslashesAtEndTail(x, n);
      ValidStep(x);
      UnescapedAfterSetExactly(x[n..]);
      if r == BSLASH {
        AfterBackslash(x);
      } else {
        NoBackslashInRune(x);
        DecodeEscapedRune(r, Escape(x[n..]));
        assert x == x[..n] + x[n..];
      }
    }
  }

  lemma NoBackslashes()
    ensures BackslashesAtEnd([])
  {
  }

  lemma ValidStep(x: bytes)
    requires Valid(x) && x != []
    ensures Proper(x) && Valid(x[DecodeRune(x).1..])
    ensures EncodeRune(DecodeRune(x).0) == x[..DecodeRune(x).1]
  {
    EncodeInvertsDecode(x);
  }

  lemma NoBackslashInRune(x: bytes)
    requires Proper(x) && x[0] != BSLASH
    ensures BSLASH !in x[..DecodeRune(x).1]
  {
    EncodeInvertsDecode(x);
  }

  lemma EscapeBackslash(y: bytes)
    ensures Escape([BSLASH] + y) == [BSLASH] + Escape(y)
  {
    var x := [BSLASH] + y;
    hide Escape;
    AsciiStep(x);
    AsciiRune(BSLASH);
    assert x[1..] == y;
    EscapeStep(x);
  }

  /** The loop body at a backslash. */
  lemma HexDecodeStep(r: bytes)
    requires r != [] && r[0] == BSLASH
    ensures HexDecode(r) ==
              if |r| < 3 then PrependSome([BSLASH], HexDecode(r[1..]))
              else if IsHex(r[1]) && IsHex(r[2])
              then PrependSome([AttributeText.HexValue(r[1]) * 16 + AttributeText.HexValue(r[2])], HexDecode(r[3..]))
              else None
  {
    assert EncodeRune(BSLASH) == [BSLASH];
    hide AttributeText.HexValue, EncodeRune, IsHex;
  }

  /** What the loop does at a backslash in front of `e`. */
  lemma DecodeAtBackslash(e: bytes)
    ensures HexDecode([BSLASH] + e) ==
              if |e| < 2 then PrependSome([BSLASH], HexDecode(e))
              else if IsHex(e[0]) && IsHex(e[1])
              then PrependSome([AttributeText.HexValue(e[0]) * 16 + AttributeText.HexValue(e[1])], HexDecode(e[2..]))
              else None
  {
    hide AttributeText.HexValue, HexDecode, IsHex, PrependSome;
    var r := [BSLASH] + e;
    assert r[1..] == e;
    if |e| >= 2 {
      assert r[1] == e[0] && r[2] == e[1] && r[3..] == e[2..];
    }
    HexDecodeStep(r);
  }

  lemma BackslashAtFront(y: bytes)
    ensures BackslashesAtEnd([BSLASH] + y) <==> |y| <= 1 && IsAscii(y) && BackslashesAtEnd(y)
  {
    var x := [BSLASH] + y;
    assert x[0..] == x && x[1..] == y;
    BackslashesAtEndTail(x, 1);
    if BackslashesAtEnd(x) {
      assert x[0] == BSLASH && IsAscii(x);
      assert forall k :: 0 <= k < |y| ==> y[k] == x[k + 1];
    }
  }

  lemma AfterBackslash(x: bytes)
    requires x != [] && x[0] == BSLASH && Valid(x[1..])
    requires BackslashesAtEnd(x[1..]) ==> HexDecode(Escape(x[1..])) == Some(x[1..])
    ensures BackslashesAtEnd(x) ==> HexDecode(Escape(x)) == Some(x)
    ensures !BackslashesAtEnd(x) ==> var d := HexDecode(Escape(x)); d == None || |d.value| < |x|
  {
    hide Escape, HexDecode, BackslashesAtEnd, AttributeText.HexValue;
    var y := x[1..];
    var e := Escape(y);
    assert x == [BSLASH] + y;
    BackslashAtFront(y);
    EscapeBackslash(y);
    DecodeAtBackslash(e);
    EscapeKeepsExactlyAscii(y);
    if |e| < 2 {
      ShortTail(y);
    } else if IsHex(e[0]) && IsHex(e[1]) {
      TwoPlain(y);
      HexDecodeShrinks(y[2..]);
    }
  }

  lemma ShortTail(x: bytes)
    requires |x| <= 2 && IsAscii(x)
    ensures BackslashesAtEnd(x)
  {
  }

  /** A plain character at the front of an escaped text was there before escaping. */
  lemma OnePlain(y: bytes)
    requires Escape(y) != [] && Escape(y)[0] != BSLASH
    ensures y != [] && y[0] < 128 && Escape(y) == [y[0]] + Escape(y[1..])
    ensures Valid(y) ==> Valid(y[1..])
  {
    EscapeStep(y);
    hide Escape;
    BackslashStartsBeyondAscii(y);
    AsciiStep(y);
  }

  lemma BackslashStartsBeyondAscii(y: bytes)
    requires y != []
    ensures y[0] >= 128 ==> EscapeRune(DecodeRune(y).0)[0] == BSLASH
  {
    var r := DecodeRune(y).0;
    if y[0] >= 128 {
      assert r >= 128;
      assert EncodeRune(r) != [];
      assert HexPairs(EncodeRune(r))[0] == BSLASH;
    }
  }

  lemma TwoPlain(y: bytes)
    requires |Escape(y)| >= 2 && Escape(y)[0] != BSLASH && Escape(y)[1] != BSLASH
    ensures |y| >= 2 && Escape(y)[2..] == Escape(y[2..])
    ensures Valid(y) ==> Valid(y[2..])
  {
    hide Escape, Valid;
    OnePlain(y);
    OnePlain(y[1..]);
    assert y[1..][1..] == y[2..];
  }

  /** Valid text never grows through escaping and unescaping. */
  lemma {:induction false} HexDecodeShrinks(x: bytes)
    requires Valid(x)
    ensures var d := HexDecode(Escape(x)); d.Some? ==> |d.value| <= |x|
    decreases |x|
  {
    hide DecodeRune, EncodeRune, EscapeRune, Escape, HexDecode;
    EscapeStep(x);
    NothingToDecode();
    if x != [] {
      var (r, n) := DecodeRune(x);
      RuneIsNoBackslash(x);
      ValidStep(x);
      if r == BSLASH {
        ShrinkAfterBackslash(x);
      } else {
        HexDecodeShrinks(x[n..]);
        DecodeEscapedRune(r, Escape(x[n..]));
      }
    }
  }

  lemma ShrinkAfterBackslash(x: bytes)
    requires x != [] && x[0] == BSLASH && Valid(x[1..])
    ensures var d := HexDecode(Escape(x)); d.Some? ==> |d.value| <= |x|
    decreases |x|, 0
  {
    hide Escape, HexDecode, AttributeText.HexValue;
    var y := x[1..];
    var e := Escape(y);
    assert x == [BSLASH] + y;
    EscapeBackslash(y);
    DecodeAtBackslash(e);
    if |e| < 2 {
      HexDecodeShrinks(y);
    } else if IsHex(e[0]) && IsHex(e[1]) {
      TwoPlain(y);
      HexDecodeShrinks(y[2..]);
    }
  }

  // ----- character checks -----

  /** IsAssertionValue, zero length allowed: escapes are complete and no parenthesis, asterisk or NUL stands bare. */
  predicate IsAssertionText(s: bytes) {
    if s == [] then true
    else if s[0] == BSLASH then |s| >= 3 && IsHex(s[1]) && IsHex(s[2]) && IsAssertionText(s[3..])
    else s[0] != 0 && s[0] != LPAREN && s[0] != RPAREN && s[0] != STAR && IsAssertionText(s[1..])
  }

  lemma {:induction false} AssertionTextIsBare(s: bytes)
    requires IsAssertionText(s)
    ensures LPAREN !in s && RPAREN !in s && STAR !in s
  {
    if s != [] {
      if s[0] == BSLASH {
        AssertionTextIsBare(s[3..]);
        assert s == [s[0], s[1], s[2]] + s[3..];
      } else {
        AssertionTextIsBare(s[1..]);
        assert s == [s[0]] + s[1..];
      }
    }
  }

  /** An octet of a value as section 3 of RFC 4515 spells it: in digits, or bare if it is not special. */
  predicate IsTextUnit(u: AttributeText.Unit) { u.Spelled? || (u.Bare? && u.c as char !in "\0()*\\") }

  predicate AreTextUnits(us: seq<AttributeText.Unit>) { forall i :: 0 <= i < |us| ==> IsTextUnit(us[i]) }

  lemma SpecialOctets(c: byte)
    ensures c as char in "\0()*\\" <==> c == 0 || c == LPAREN || c == RPAREN || c == STAR || c == BSLASH
  {
    assert forall k :: 0 <= k < 5 ==> "\0()*\\"[k] in "\0()*\\";
  }

  lemma TextUnitPasses(u: AttributeText.Unit, rest: bytes)
    requires IsTextUnit(u)
    ensures IsAssertionText(AttributeText.UnitText(u) + rest) <==> IsAssertionText(rest)
  {
    hide AttributeText.Digit;
    SpecialOctets(u.c);
    var t := AttributeText.UnitText(u);
    var s := t + rest;
    assert s[|t|..] == rest;
    if u.Spelled? {
      AttributeText.DigitValue(u.c / 16, u.upperHigh);
      AttributeText.DigitValue(u.c % 16, u.upperLow);
      assert s[1] == t[1] && s[2] == t[2];
    }
  }

  lemma {:induction false} TextIsAssertion(us: seq<AttributeText.Unit>, rest: bytes)
    requires AreTextUnits(us)
    ensures IsAssertionText(AttributeText.Text(us) + rest) <==> IsAssertionText(rest)
    decreases |us|
  {
    hide IsAssertionText, IsTextUnit, AttributeText.UnitText, AttributeText.Text;
    if us == [] {
      AttributeText.NoUnits();
      assert [] + rest == rest;
    } else {
      var us', u := us[..|us| - 1], us[|us| - 1];
      assert us == us' + [u];
      AttributeText.TextSnoc(us', u);
      var t := AttributeText.UnitText(u);
      assert AttributeText.Text(us) + rest == AttributeText.Text(us') + (t + rest);
      TextIsAssertion(us', t + rest);
      TextUnitPasses(u, rest);
    }
  }

  lemma {:induction false} AssertionIsText(s: bytes) returns (us: seq<AttributeText.Unit>)
    requires IsAssertionText(s)
    ensures AreTextUnits(us) && AttributeText.Text(us) == s
    decreases |s|
  {
    hide AttributeText.UnitText, AttributeText.Text, IsTextUnit;
    if s == [] {
      us := [];
      AttributeText.NoUnits();
    } else {
      var u := FirstTextUnit(s);
      var t := AttributeText.UnitText(u);
      var rest := AssertionIsText(s[|t|..]);
      us := [u] + rest;
      AttributeText.TextConcat([u], rest);
      AttributeText.NoUnits();
      AttributeText.TextSnoc([], u);
      assert [] + [u] == [u] && [] + t == t;
      assert s == t + s[|t|..];
    }
  }

  lemma FirstTextUnit(s: bytes) returns (u: AttributeText.Unit)
    requires s != [] && IsAssertionText(s)
    ensures IsTextUnit(u) && AttributeText.UnitText(u) <= s
    ensures IsAssertionText(s[|AttributeText.UnitText(u)|..])
  {
    if s[0] == BSLASH {
      u := AttributeText.SpelledUnit(s[1], s[2]);
      assert AttributeText.UnitText(u) == s[..3];
    } else {
      SpecialOctets(s[0]);
      u := AttributeText.Bare(s[0]);
    }
  }

  /** The values that are accepted are exactly the ones of the grammar. */
  lemma AssertionTextExactly(s: bytes)
    ensures IsAssertionText(s) <==> exists us :: AreTextUnits(us) && AttributeText.Text(us) == s
  {
    hide IsAssertionText, AreTextUnits, AttributeText.Text;
    if IsAssertionText(s) {
      var us := AssertionIsText(s);
    }
    if us :| AreTextUnits(us) && AttributeText.Text(us) == s {
      TextIsAssertion(us, []);
      assert s + [] == s;
      NothingIsAssertion();
    }
  }

  lemma NothingIsAssertion()
    ensures IsAssertionText([])
  {
  }

  /** assertionValueBytes: escapes are complete; a well-formed rune beyond ASCII ends the check early. */
  predicate IsSegment(s: bytes) { s != [] && SegmentRest(s) }

  predicate SegmentRest(s: bytes) {
    if s == [] then true
    else if s[0] == BSLASH then |s| >= 3 && IsHex(s[1]) && IsHex(s[2]) && SegmentRest(s[3..])
    else if s[0] < 128 then SegmentRest(s[1..])
    else Proper(s)
  }

  method AssertionValueBytes(raw: bytes) returns (ok: bool)
    ensures ok <==> IsSegment(raw)
  {
    hide Proper;
    if |raw| == 0 {
      return false;
    }
    var i := 0;
    assert raw[0..] == raw;
    while i < |raw|
      invariant 0 <= i <= |raw|
      invariant SegmentRest(raw) <==> SegmentRest(raw[i..])
    {
      var rest := raw[i..];
      var b := raw[i];
      if b < 128 {
        if b == BSLASH {
          if i + 3 > |raw| {
            return false;
          }
          if !IsHex(raw[i + 1]) || !IsHex(raw[i + 2]) {
            return false;
          }
          assert rest[3..] == raw[i + 3..];
          i := i + 3;
          continue;
        }
        assert rest[1..] == raw[i + 1..];
        i := i + 1;
        continue;
      }
      return Proper(rest);
    }
    assert raw[i..] == [];
    return true;
  }
}
