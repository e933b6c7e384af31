/** oid.go: the syntax of object identifiers in text form, dotted or as a descriptor. */
module Oids {
  import opened Bytes
  import opened Wrappers

  /** splitOnByte. */
  function SplitOnByte(s: bytes, sep: byte): (ps: seq<bytes>)
    ensures ps != []
    ensures s != [] && s[0] != sep ==> ps[0] != [] && ps[0][0] == s[0]
  {
    if s == [] then [[]]
    else
      var ps := SplitOnByte(s[1..], sep);
      if s[0] == sep then [[]] + ps else [[s[0]] + ps[0]] + ps[1..]
  }

  lemma {:induction false} SplitOnByteAbsent(s: bytes, sep: byte)
    requires sep !in s
    ensures SplitOnByte(s, sep) == [s]
  {
    if s != [] {
      SplitOnByteAbsent(s[1..], sep);
      assert [s[0]] + s[1..] == s;
    }
  }

  predicate AllDigits(x: bytes) { forall i :: 0 <= i < |x| ==> IsDigit(x[i]) }

  function DecimalValue(x: bytes): int
    requires AllDigits(x)
  {
    if x == [] then 0 else DecimalValue(x[..|x| - 1]) * 10 + (x[|x| - 1] as int - 48)
  }

  const MAX_INT := 0x7FFF_FFFF_FFFF_FFFF

  lemma IntWidth()
    ensures MAX_INT + 1 == 0x8000_0000 * 0x1_0000_0000
  {
  }

  /** strconv.Atoi on a 64-bit platform: an optional sign and decimal digits that fit. */
  function Atoi(x: bytes): (r: Option<int>)
    ensures r.Some? ==> -MAX_INT - 1 <= r.value <= MAX_INT
  {
    var digits := if x != [] && (x[0] == PLUS || x[0] == HYPHEN) then x[1..] else x;
    if digits == [] || !AllDigits(digits) then None
    else
      var n := if x[0] == HYPHEN then -DecimalValue(digits) else DecimalValue(digits);
      if -MAX_INT - 1 <= n <= MAX_INT then Some(n) else None
  }

  /** isDescr: a letter, then letters, digits and single hyphens, with a letter or digit at the end. */
  predicate IsDescr(x: bytes) {
    && x != [] && IsAlpha(x[0]) && IsAlnum(x[|x| - 1])
    && (forall i :: 0 <= i < |x| ==> IsAlnum(x[i]) || x[i] == HYPHEN)
    && (forall i :: 0 < i < |x| ==> !(x[i - 1] == HYPHEN && x[i] == HYPHEN))
  }

  method IsDescrLoop(val: bytes) returns (ok: bool)
    ensures ok <==> IsDescr(val)
  {
    if |val| == 0 || !IsAlpha(val[0]) {
      return false;
    }
    var last := |val| - 1;
    if !IsAlnum(val[last]) {
      return false;
    }
    var lastHyphen := false;
    ok := true;
    var i := 1;
    while i < last && ok
      invariant 1 <= i <= last || (i == 1 && last == 0)
      invariant ok ==> forall k :: 0 <= k < i ==> IsAlnum(val[k]) || val[k] == HYPHEN
      invariant ok ==> forall k :: 0 < k < i ==> !(val[k - 1] == HYPHEN && val[k] == HYPHEN)
      invariant ok ==> (lastHyphen <==> val[i - 1] == HYPHEN)
      invariant !ok ==> !IsDescr(val)
    {
      if IsAlnum(val[i]) {
        lastHyphen := false;
      } else if val[i] == HYPHEN {
        if lastHyphen {
          assert val[i - 1] == HYPHEN && val[i] == HYPHEN;
          ok := false;
        }
        lastHyphen := true;
      } else {
        ok := false;
      }
      i := i + 1;
    }
  }

  /** An arc after the second: isDigits is content with one digit anywhere. */
  predicate IsArc(a: bytes) {
    (exists i :: 0 <= i < |a| && IsDigit(a[i])) && (|a| > 1 ==> a[0] != 48)
  }

  /** checkFirstArcs. */
  predicate AreFirstArcs(a: bytes, b: bytes) {
    var m, n := Atoi(a), Atoi(b);
    m.Some? && n.Some? && n.value >= 0 && (m.value == 2 || ((m.value == 0 || m.value == 1) && n.value <= 39))
  }

  /** marshalLDAPOID succeeds. */
  predicate IsLdapOid(x: bytes) {
    var arcs := SplitOnByte(x, DOT);
    |x| >= 3 && |arcs| >= 2 && AreFirstArcs(arcs[0], arcs[1]) && forall i :: 2 <= i < |arcs| ==> IsArc(arcs[i])
  }

  /** isDigits: one digit is enough. */
  method IsDigits(x: bytes) returns (found: bool)
    ensures found <==> exists i :: 0 <= i < |x| && IsDigit(x[i])
  {
    found := false;
    var i := 0;
    while i < |x| && !found
      invariant 0 <= i <= |x|
      invariant found <==> exists k :: 0 <= k < i && IsDigit(x[k])
    {
      found := IsDigit(x[i]);
      i := i + 1;
    }
  }

  method CheckFirstArcs(a: bytes, b: bytes) returns (ok: bool)
    ensures ok <==> AreFirstArcs(a, b)
  {
    hide Atoi;
    var m, n := Atoi(a), Atoi(b);
    if m.None? || n.None? {
      return false;
    }
    var notNeg := m.value >= 0 && n.value >= 0;
    var badArc2 := false;
    if m.value == 0 || m.value == 1 {
      badArc2 := n.value > 39;
    } else if m.value != 2 {
      return false;
    }
    return notNeg && !badArc2;
  }

  method MarshalLdapOid(x: bytes) returns (ok: bool)
    ensures ok <==> IsLdapOid(x)
  {
    hide SplitOnByte, AreFirstArcs;
    if |x| < 3 {
      return false;
    }
    var parts := SplitOnByte(x, DOT);
    if |parts| < 2 {
      return false;
    }
    ok := CheckFirstArcs(parts[0], parts[1]);
    if ok {
      var i := 2;
      while i < |parts| && ok
        invariant 2 <= i <= |parts|
        invariant ok <==> forall k :: 2 <= k < i ==> IsArc(parts[k])
      {
        var digits := IsDigits(parts[i]);
        ok := |parts[i]| != 0 && digits && !(|parts[i]| > 1 && HasPrefix(parts[i], [48]));
        i := i + 1;
      }
    }
  }

  /** The default of IsObjectClass: a text that starts with neither a letter nor a digit is not looked at. */
  predicate IsObjectClass(x: bytes) {
    x != [] && (if IsDigit(x[0]) then IsLdapOid(x) else IsAlpha(x[0]) ==> IsDescr(x))
  }

  // ----- object identifiers of section 1.4 of RFC 4512 -----

  const DIGITS: string := "0123456789"

  function DecimalDigit(n: nat): byte
    requires n < 10
  {
    DIGITS[n] as int
  }

  /** A number without leading zeros. */
  function Decimal(n: nat): (x: bytes)
    ensures x != []
  {
    (if n < 10 then [] else Decimal(n / 10)) + [DecimalDigit(n % 10)]
  }

  /** Numbers with dots between them. */
  function Dotted(arcs: seq<nat>): bytes
    requires arcs != []
  {
    if |arcs| == 1 then Decimal(arcs[0]) else Decimal(arcs[0]) + ([DOT] + Dotted(arcs[1..]))
  }

  /** At least two arcs, of which the first is at most two and the second below 40 under zero and one. */
  predicate AreArcs(arcs: seq<nat>) {
    |arcs| >= 2 && (arcs[0] == 2 || (arcs[0] <= 1 && arcs[1] <= 39))
  }

  function Decimals(arcs: seq<nat>): (ps: seq<bytes>)
    ensures |ps| == |arcs|
    ensures forall i :: 0 <= i < |arcs| ==> ps[i] == Decimal(arcs[i])
  {
    seq(|arcs|, i requires 0 <= i < |arcs| => Decimal(arcs[i]))
  }

  lemma DigitIs(n: nat)
    requires n < 10
    ensures DecimalDigit(n) == 48 + n
  {
  }

  lemma DecimalStep(n: nat)
    ensures Decimal(n) == if n < 10 then [48 + n] else Decimal(n / 10) + [48 + n % 10]
  {
    hide DecimalDigit;
    DigitIs(n % 10);
    if n < 10 {
      assert [] + [48 + n] == [48 + n];
    }
  }

  lemma ValueStep(x: bytes, d: nat)
    requires AllDigits(x) && d < 10
    ensures AllDigits(x + [48 + d]) && DecimalValue(x + [48 + d]) == DecimalValue(x) * 10 + d
    ensures DecimalValue([]) == 0
  {
    assert (x + [48 + d])[..|x|] == x;
  }

  /** Digits without a leading zero, which are worth the number. */
  lemma {:induction false} DecimalShape(n: nat)
    ensures var x := Decimal(n);
            && AllDigits(x) && DecimalValue(x) == n
            && (|x| == 1 <==> n < 10) && (x[0] == 48 <==> n == 0)
  {
    hide Decimal, DecimalValue;
    DecimalStep(n);
    if n >= 10 {
      DecimalShape(n / 10);
      ValueStep(Decimal(n / 10), n % 10);
    } else {
      ValueStep([], n);
      assert [] + [48 + n] == [48 + n];
    }
  }

  /** Digits that do not start with a zero are the number they are worth. */
  lemma {:induction false} DigitsAreDecimal(x: bytes)
    requires x != [] && AllDigits(x) && (|x| > 1 ==> x[0] != 48)
    ensures DecimalValue(x) >= 0 && x == Decimal(DecimalValue(x))
    ensures x[0] != 48 ==> DecimalValue(x) > 0
    decreases |x|
  {
    hide Decimal, DecimalValue;
    var front, d := x[..|x| - 1], x[|x| - 1] - 48;
    assert x == front + [48 + d];
    ValueStep(front, d);
    if |x| == 1 {
      assert front == [];
      DecimalStep(d);
    } else {
      DigitsAreDecimal(front);
      DecimalStep(DecimalValue(front) * 10 + d);
    }
  }

  lemma AtoiOfDecimal(n: nat)
    ensures Atoi(Decimal(n)) == if n <= MAX_INT then Some(n) else None
  {
    hide Decimal, DecimalValue;
    DecimalShape(n);
    assert IsDigit(Decimal(n)[0]);
  }

  lemma SplitOnByteCons(a: bytes, sep: byte, b: bytes)
    requires sep !in a
    ensures SplitOnByte(a + ([sep] + b), sep) == [a] + SplitOnByte(b, sep)
    decreases |a|
  {
    var s := a + ([sep] + b);
    if a == [] {
      assert s[1..] == b;
    } else {
      assert s[1..] == a[1..] + ([sep] + b);
      SplitOnByteCons(a[1..], sep, b);
      var ps := SplitOnByte(s[1..], sep);
      assert ps[0] == a[1..] && ps[1..] == SplitOnByte(b, sep);
      assert [s[0]] + a[1..] == a;
    }
  }

  /** Splitting a dotted identifier at its dots gives its arcs. */
  lemma {:induction false} SplitDotted(arcs: seq<nat>)
    requires arcs != []
    ensures SplitOnByte(Dotted(arcs), DOT) == Decimals(arcs)
    decreases |arcs|
  {
    hide SplitOnByte, Decimal;
    DecimalHasNo(arcs[0], DOT);
    if |arcs| == 1 {
      SplitOnByteAbsent(Dotted(arcs), DOT);
    } else {
      SplitDotted(arcs[1..]);
      SplitOnByteCons(Decimal(arcs[0]), DOT, Dotted(arcs[1..]));
      assert Decimals(arcs) == [Decimal(arcs[0])] + Decimals(arcs[1..]);
    }
  }

  lemma DecimalHasNo(n: nat, c: byte)
    requires !IsDigit(c)
    ensures c !in Decimal(n)
  {
    hide Decimal;
    DecimalShape(n);
  }

  /** A dotted identifier is digits and dots, and starts with the first digit of its first arc. */
  lemma {:induction false} DottedShape(arcs: seq<nat>)
    requires arcs != []
    ensures var x := Dotted(arcs);
            && (forall i :: 0 <= i < |x| ==> IsDigit(x[i]) || x[i] == DOT)
            && |x| >= 2 * |arcs| - 1 && x[0] == Decimal(arcs[0])[0]
    decreases |arcs|
  {
    hide Decimal, DecimalValue;
    DecimalShape(arcs[0]);
    if |arcs| > 1 {
      DottedShape(arcs[1..]);
    }
  }

  lemma DecimalIsArc(n: nat)
    ensures IsArc(Decimal(n))
  {
    hide Decimal, DecimalValue;
    DecimalShape(n);
    assert IsDigit(Decimal(n)[0]);
  }

  /** Of the texts of digits, the arcs are the numbers without leading zeros. */
  lemma DigitsAreArc(x: bytes)
    requires x != [] && AllDigits(x)
    ensures IsArc(x) <==> exists n: nat :: x == Decimal(n)
  {
    hide Decimal, DecimalValue;
    if IsArc(x) {
      DigitsAreDecimal(x);
    }
    if n: nat :| x == Decimal(n) {
      DecimalIsArc(n);
    }
  }

  /** Two or more numbers are accepted exactly when they are arcs, and the second fits an int. */
  lemma LdapOidExactly(arcs: seq<nat>)
    requires |arcs| >= 2
    ensures IsLdapOid(Dotted(arcs)) <==> AreArcs(arcs) && arcs[1] <= MAX_INT
  {
    hide Decimal, Dotted, SplitOnByte, Atoi, IsArc;
    DottedShape(arcs);
    SplitDotted(arcs);
    AtoiOfDecimal(arcs[0]);
    AtoiOfDecimal(arcs[1]);
    forall i | 2 <= i < |arcs| ensures IsArc(Decimals(arcs)[i]) {
      DecimalIsArc(arcs[i]);
    }
  }

  /** A sign in front of a number. */
  lemma AtoiOfSigned(n: nat)
    requires n <= MAX_INT
    ensures var m: int := 0 - n; Atoi([HYPHEN] + Decimal(n)) == Some(m)
    ensures Atoi([PLUS] + Decimal(n)) == Some(n)
    ensures Atoi([]) == None && Atoi([HYPHEN]) == None
  {
    hide Decimal, DecimalValue;
    DecimalShape(n);
    assert ([HYPHEN] + Decimal(n))[1..] == Decimal(n) && ([PLUS] + Decimal(n))[1..] == Decimal(n);
  }
}
