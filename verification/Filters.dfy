/** filter.go: search filters, their printer and their parser (section 3 of RFC 4515). */
module Filters {
  import opened Bytes
  import opened Wrappers
  import opened AssertionValue
  import opened Oids
  import SubstringText
  import Utf8

  datatype Operator = Equal | GreaterOrEqual | LessOrEqual | Approximate

  /** Filter; `Invalid` is invalidFilter and `Nil` a nil interface. */
  datatype Filter =
    | And(filters: seq<Filter>)
    | Or(filters: seq<Filter>)
    | Not(filter: Filter)
    | Assertion(op: Operator, desc: bytes, value: bytes)
    | Present(desc: bytes)
    | Substrings(typ: bytes, subs: SubstringText.Substrings)
    | Extensible(rule: bytes, typ: bytes, value: bytes, dnAttributes: bool)
    | Invalid
    | Nil

  /** OutOfBounds stands for the run-time panic of a slice expression whose bounds are out of order. */
  datatype Error = EndOfFilter | InvalidFilter | BadOid | BadSubstrings | OutOfBounds

  const OBJECT_CLASS: bytes := [111, 98, 106, 101, 99, 116, 67, 108, 97, 115, 115] // objectClass
  const LOWER_DN: bytes := [COLON, 100, 110, COLON] // :dn:
  const UPPER_DN: bytes := [COLON, 68, 78, COLON] // :DN:

  const DEFAULT := Present(OBJECT_CLASS)

  // ----- String -----

  function OperatorText(op: Operator): bytes {
    match op
    case Equal => [EQUALS]
    case GreaterOrEqual => [GREATER, EQUALS]
    case LessOrEqual => [LESS, EQUALS]
    case Approximate => [TILDE, EQUALS]
  }

  lemma OperatorLiterals()
    ensures OperatorText(Equal) == Ascii("=") && OperatorText(GreaterOrEqual) == Ascii(">=")
    ensures OperatorText(LessOrEqual) == Ascii("<=") && OperatorText(Approximate) == Ascii("~=")
    ensures LOWER_DN == Ascii(":dn:") && UPPER_DN == Ascii(":DN:") && OBJECT_CLASS == Ascii("objectClass")
  {
  }

  /** The part of an extensible match in front of its equals sign. */
  function ExtensibleHead(rule: bytes, typ: bytes, dn: bool): bytes {
    if typ != [] && rule == [] then typ + (if dn then LOWER_DN else [COLON])
    else if typ == [] then (if dn then LOWER_DN else [COLON]) + rule + [COLON]
    else typ + (if dn then LOWER_DN else [COLON]) + rule + [COLON]
  }

  function Enclose(body: bytes): bytes { [LPAREN] + body + [RPAREN] }

  function Print(f: Filter): bytes {
    match f
    case And(fs) => Enclose([AMPERSAND] + PrintAll(fs))
    case Or(fs) => Enclose([PIPE] + PrintAll(fs))
    case Not(g) => if g.Nil? then [] else Enclose([BANG] + Print(g))
    case Assertion(op, desc, value) =>
      if desc == [] && value == [] then [] else Enclose(desc + OperatorText(op) + Escape(value))
    case Present(desc) => if desc == [] then [] else Enclose(desc + [EQUALS, STAR])
    case Substrings(typ, subs) =>
      if typ == [] && subs == [] then [] else Enclose(typ + [EQUALS] + SubstringText.Print(subs))
    case Extensible(rule, typ, value, dn) =>
      if value == [] || (rule == [] && typ == []) then []
      else Enclose(ExtensibleHead(rule, typ, dn) + [EQUALS] + Escape(value))
    case Invalid => []
    case Nil => []
  }

  /** A filter without any part prints as nothing; one part is enough for a text, except for a match without value. */
  lemma MissingParts(op: Operator, x: bytes, dn: bool)
    requires x != []
    ensures Print(Assertion(op, [], [])) == [] && Print(Present([])) == [] && Print(Substrings([], [])) == []
    ensures Print(Assertion(op, x, [])) == Enclose(x + OperatorText(op))
    ensures Print(Assertion(op, [], x)) == Enclose(OperatorText(op) + Escape(x))
    ensures Print(Extensible(x, x, [], dn)) == [] && Print(Extensible([], [], x, dn)) == []
    ensures Print(Not(Nil)) == [] && Print(Invalid) == [] && Print(Nil) == []
  {
    hide Escape;
    NothingEscaped();
    assert x + OperatorText(op) + [] == x + OperatorText(op);
    assert [] + OperatorText(op) == OperatorText(op);
  }

  lemma NothingEscaped()
    ensures Escape([]) == []
  {
  }

  function PrintAll(fs: seq<Filter>): bytes {
    if fs == [] then [] else Print(fs[0]) + PrintAll(fs[1..])
  }

  // ----- splitFilterParts -----

  function NewDepth(depth: int, c: byte): int {
    if c == LPAREN then depth + 1 else if c == RPAREN then depth - 1 else depth
  }

  /** The loop from the state in which `buf` has been collected at nesting `depth`. */
  function SplitFrom(s: bytes, buf: bytes, depth: int): (parts: seq<bytes>)
    ensures forall p :: p in parts ==> |p| <= |s| + |buf|
    decreases |s|
  {
    if s == [] then (if buf == [] then [] else [buf])
    else if s[0] == LPAREN && depth == 0 && buf != [] then [buf] + SplitFrom(s[1..], [s[0]], 1)
    else SplitFrom(s[1..], buf + [s[0]], NewDepth(depth, s[0]))
  }

  lemma SplitStep(s: bytes, buf: bytes, depth: int)
    requires s != []
    ensures SplitFrom(s, buf, depth) ==
            if s[0] == LPAREN && depth == 0 && buf != [] then [buf] + SplitFrom(s[1..], [s[0]], 1)
            else SplitFrom(s[1..], buf + [s[0]], NewDepth(depth, s[0]))
  {
  }

  method SplitFilterParts(input: bytes) returns (parts: seq<bytes>)
    ensures parts == SplitFrom(input, [], 0)
  {
    hide SplitFrom;
    parts := [];
    var current: bytes := [];
    var depth := 0;
    assert input[0..] == input;
    ghost var all := SplitFrom(input, [], 0);
    for i := 0 to |input|
      invariant all == parts + SplitFrom(input[i..], current, depth)
    {
      var c := input[i];
      SplitStep(input[i..], current, depth);
      assert input[i..][1..] == input[i + 1..];
      ghost var rest := SplitFrom(input[i + 1..], [c], 1);
      if c == LPAREN {
        if depth == 0 && |current| > 0 {
          assert parts + ([current] + rest) == parts + [current] + rest;
          parts := parts + [current];
          current := [];
          assert current + [c] == [c];
        }
        depth := depth + 1;
      } else if c == RPAREN {
        depth := depth - 1;
      }
      current := current + [c];
    }
    assert input[|input|..] == [];
    SplitNothing(current, depth);
    if |current| > 0 {
      parts := parts + [current];
    }
  }

  lemma SplitNothing(buf: bytes, depth: int)
    ensures SplitFrom([], buf, depth) == if buf == [] then [] else [buf]
  {
  }

  // ----- descriptors and object identifiers -----

  /** A keystring: letters, digits and single hyphens, with a letter or digit at the end. */
  predicate IsDescriptor(x: bytes) {
    && x != [] && IsAlnum(x[|x| - 1])
    && (forall i :: 0 <= i < |x| ==> IsAlnum(x[i]) || x[i] == HYPHEN)
    && (forall i :: 0 < i < |x| ==> !(x[i - 1] == HYPHEN && x[i] == HYPHEN))
  }

  method DescrSyntaxCheck(x: bytes) returns (ok: bool)
    requires x != []
    ensures ok <==> IsDescriptor(x)
  {
    if !IsAlnum(x[|x| - 1]) {
      return false;
    }
    var lastHyphen := false;
    for i := 0 to |x|
      invariant forall k :: 0 <= k < i ==> IsAlnum(x[k]) || x[k] == HYPHEN
      invariant forall k :: 0 < k < i ==> !(x[k - 1] == HYPHEN && x[k] == HYPHEN)
      invariant lastHyphen <==> i > 0 && x[i - 1] == HYPHEN
    {
      if IsAlnum(x[i]) {
        lastHyphen := false;
      } else if x[i] == HYPHEN {
        if lastHyphen {
          assert x[i - 1] == HYPHEN && x[i] == HYPHEN;
          return false;
        }
        lastHyphen := true;
      } else {
        return false;
      }
    }
    return true;
  }

  /** strconv.Atoi accepts the text and the number lies between 0 and 39. */
  predicate IsSmallNumber(x: bytes) {
    var n := Atoi(x);
    n.Some? && 0 <= n.value <= 39
  }

  predicate IsValidArc(arc: bytes) {
    !(|arc| > 1 && arc[0] == 48) && AllDigits(arc)
  }

  /** oIDSyntaxCheck: the first and the last arc are not looked at beyond the first digit of the first. */
  predicate IsNumericOid(o: bytes)
    requires o != [] && o[0] != DOT
  {
    var arcs := SplitOnByte(o, DOT);
    && |arcs| >= 2
    && (arcs[0][0] == 50 || ((arcs[0][0] == 48 || arcs[0][0] == 49) && IsSmallNumber(arcs[1])))
    && forall i :: 1 <= i < |arcs| - 1 ==> IsValidArc(arcs[i])
  }

  method ValidArc(arc: bytes) returns (ok: bool)
    ensures ok <==> IsValidArc(arc)
  {
    if |arc| > 0 && arc[0] == HYPHEN {
      return false;
    }
    if |arc| > 1 && arc[0] == 48 {
      return false;
    }
    for i := 0 to |arc|
      invariant forall k :: 0 <= k < i ==> IsDigit(arc[k])
    {
      if !(48 <= arc[i] <= 57) {
        return false;
      }
    }
    return true;
  }

  method OidSyntaxCheck(o: bytes) returns (ok: bool)
    requires o != [] && o[0] != DOT
    ensures ok <==> IsNumericOid(o)
  {
    hide Atoi, IsValidArc, SplitOnByte;
    var arcs := SplitOnByte(o, DOT);
    if |arcs| < 2 {
      return false;
    }
    var c := arcs[0][0];
    if c == 48 || c == 49 {
      var n := Atoi(arcs[1]);
      if n.None? || !(0 <= n.value <= 39) {
        return false;
      }
    } else if c != 50 {
      return false;
    }
    ok := true;
    var i := 1;
    while i < |arcs| - 1 && ok
      invariant 1 <= i <= |arcs| - 1
      invariant ok <==> forall k :: 1 <= k < i ==> IsValidArc(arcs[k])
    {
      ok := ValidArc(arcs[i]);
      i := i + 1;
    }
  }

  predicate IsOidOrDescr(x: bytes) {
    x != [] && (if IsAlpha(x[0]) then IsDescriptor(x) else IsDigit(x[0]) && IsNumericOid(x))
  }

  /** checkFilterOIDs: options after the first semicolon are disregarded. */
  predicate CheckOids(t: bytes, m: bytes) {
    && (t != [] ==> IsOidOrDescr(SplitOnByte(t, SEMI)[0]))
    && (m != [] ==> IsOidOrDescr(m))
  }

  /** Of the arcs that are looked at, exactly the numbers without leading zeros and the empty ones are accepted. */
  lemma ValidArcExactly(x: bytes)
    ensures IsValidArc(x) <==> x == [] || exists n: nat :: x == Decimal(n)
  {
    hide Decimal, DecimalValue;
    if x != [] && IsValidArc(x) {
      DigitsAreDecimal(x);
    }
    if n: nat :| x == Decimal(n) {
      DecimalIsValid(n);
    }
  }

  lemma DecimalIsValid(n: nat)
    ensures IsValidArc(Decimal(n))
  {
    hide Decimal, DecimalValue;
    DecimalShape(n);
  }

  /**
    Numbers with dots between them are accepted exactly when the first one starts with a two, or with a zero or a
    one while the second is below 40.
   */
  lemma NumericOidExactly(arcs: seq<nat>)
    requires |arcs| >= 2
    ensures var c := Decimal(arcs[0])[0] as char;
            IsOidOrDescr(Dotted(arcs)) <==> c == '2' || ((c == '0' || c == '1') && arcs[1] <= 39)
  {
    hide Decimal, Dotted, IsNumericOid, AllDigits, DecimalValue;
    DottedShape(arcs);
    FirstOfDecimal(arcs[0]);
    DottedOidExactly(arcs);
  }

  lemma FirstOfDecimal(n: nat)
    ensures IsDigit(Decimal(n)[0]) && !IsAlpha(Decimal(n)[0]) && Decimal(n)[0] != DOT
  {
    hide Decimal, DecimalValue;
    DecimalShape(n);
  }

  lemma DottedOidExactly(arcs: seq<nat>)
    requires |arcs| >= 2 && Dotted(arcs) != [] && Dotted(arcs)[0] != DOT
    ensures var c := Decimal(arcs[0])[0];
            IsNumericOid(Dotted(arcs)) <==> c == 50 || ((c == 48 || c == 49) && arcs[1] <= 39)
  {
    hide Decimal, Dotted, SplitOnByte, Atoi, IsValidArc;
    SplitDotted(arcs);
    AtoiOfDecimal(arcs[1]);
    forall i | 0 <= i < |arcs| ensures IsValidArc(Decimals(arcs)[i]) {
      DecimalIsValid(arcs[i]);
    }
  }

  lemma FirstDigit(n: nat)
    requires n <= 2
    ensures Decimal(n) == [48 + n]
  {
    DecimalStep(n);
  }

  /** Object identifiers and descriptors, and nothing else the grammar of section 1.4 of RFC 4512 has. */
  ghost predicate IsOid(x: bytes) { IsDescr(x) || exists arcs :: AreArcs(arcs) && x == Dotted(arcs) }

  /** Every object identifier of the grammar is accepted, as an attribute type and as a matching rule. */
  lemma OidsAreAccepted(x: bytes)
    requires IsOid(x)
    ensures x != [] && IsOidOrDescr(x)
    ensures forall i :: 0 <= i < |x| ==> IsAlnum(x[i]) || x[i] == HYPHEN || x[i] == DOT
  {
    hide Decimal, Dotted, IsNumericOid;
    if !IsDescr(x) {
      var arcs :| AreArcs(arcs) && x == Dotted(arcs);
      NumericOidExactly(arcs);
      FirstDigit(arcs[0]);
      DottedShape(arcs);
    }
  }

  // ----- parseExtensibleMatch -----

  /** bytes.Split by a separator that is not empty. */
  function SplitOn(x: bytes, sep: bytes): (ps: seq<bytes>)
    requires sep != []
    ensures ps != []
    decreases |x|
  {
    var i := Index(x, sep);
    if i < 0 then [x] else [x[..i]] + SplitOn(x[i + |sep|..], sep)
  }

  function TrimColonsLeft(x: bytes): (r: bytes)
    ensures |r| <= |x|
  {
    if x != [] && x[0] == COLON then TrimColonsLeft(x[1..]) else x
  }

  function TrimColonsRight(x: bytes): (r: bytes)
    ensures r <= x
    decreases |x|
  {
    if x != [] && x[|x| - 1] == COLON then TrimColonsRight(x[..|x| - 1]) else x
  }

  /** bytes.Trim(x, ":"). */
  function TrimColons(x: bytes): bytes { TrimColonsRight(TrimColonsLeft(x)) }

  /** The pieces around ":dn:" if only the lower-case form occurs, around ":DN:" if only the upper-case one does. */
  function DnAttrSplit(a: bytes): seq<bytes> {
    if Contains(a, LOWER_DN) && !Contains(a, UPPER_DN) then SplitOn(a, LOWER_DN)
    else if !Contains(a, LOWER_DN) && Contains(a, UPPER_DN) then SplitOn(a, UPPER_DN)
    else []
  }

  /** A filter without any component stays a nil interface. */
  function OrNil(f: Filter): Filter
    requires f.Extensible?
  {
    if f.rule == [] && f.typ == [] && f.value == [] && !f.dnAttributes then Nil else f
  }

  function Checked(t: bytes, m: bytes, f: Filter): Result<Filter, Error>
    requires f.Extensible?
  {
    if CheckOids(t, m) then Success(OrNil(f)) else Failure(BadOid)
  }

  /** `a` stands before and `val` after the equals sign. */
  function ParseExtensible(a: bytes, val: bytes): Result<Filter, Error> {
    if !HasPrefix(a, [COLON]) then
      if !Contains(a, LOWER_DN) && !Contains(a, UPPER_DN) then
        var i := Index(a, [COLON]);
        if i < 0 then Success(OrNil(Extensible([], [], val, false)))
        else
          var mr := TrimColons(a[i + 1..]);
          Checked(a[..i], mr, Extensible(mr, a[..i], val, false))
      else
        var c := DnAttrSplit(a);
        if |c| != 2 then Success(Extensible([], [], val, true))
        else
          var mr := TrimColons(c[1]);
          Checked(c[0], mr,
            if c[0] != [] && c[1] != [] then Extensible(mr, c[0], val, true)
            else Extensible([], c[0], val, true))
    else if HasPrefix(a, LOWER_DN) || HasPrefix(a, UPPER_DN) then
      if |a| < 5 then Failure(OutOfBounds)
      else
        var mr := a[4..|a| - 1];
        Checked([], mr, Extensible(mr, [], val, true))
    else if |a| < 2 then Failure(OutOfBounds)
    else
      var mr := a[1..|a| - 1];
      Checked([], mr, Extensible(mr, [], val, false))
  }

  // ----- parseItemFilter -----

  /** A bad assertion value makes the filter invalid without an error. */
  /** With the keyword in both cases, neither a type nor a rule is found. */
  lemma BothKeywords(a: bytes, val: bytes)
    requires !HasPrefix(a, [COLON]) && Contains(a, LOWER_DN) && Contains(a, UPPER_DN)
    ensures ParseExtensible(a, val) == Success(Extensible([], [], val, true))
  {
    hide Contains;
  }

  /** Without a colon in front of the equals sign, a match has neither a type nor a rule. */
  lemma NoColon(a: bytes, val: bytes)
    requires COLON !in a && val != []
    ensures ParseExtensible(a, val) == Success(Extensible([], [], val, false))
  {
    ColonIsNowhere(a, LOWER_DN);
    ColonIsNowhere(a, UPPER_DN);
    ColonIsNowhere(a, [COLON]);
    hide Index, TrimColons, IsOidOrDescr;
  }

  lemma ColonIsNowhere(a: bytes, p: bytes)
    requires COLON !in a && p != [] && p[0] == COLON
    ensures Index(a, p) == -1
  {
    forall j | 0 <= j ensures !At(a, j, p) {
      if j + |p| <= |a| {
        assert a[j..j + |p|][0] == a[j];
      }
    }
  }

  /** A head of nothing but colons and the keyword: the shortest of each kind runs out of bounds. */
  lemma ColonEdges(val: bytes)
    requires val != []
    ensures ParseExtensible([COLON], val) == Failure(OutOfBounds)
    ensures ParseExtensible([COLON, COLON], val) == Success(Extensible([], [], val, false))
    ensures ParseExtensible(LOWER_DN, val) == Failure(OutOfBounds) == ParseExtensible(UPPER_DN, val)
    ensures ParseExtensible(LOWER_DN + [COLON], val) == Success(Extensible([], [], val, true))
    ensures ParseExtensible(UPPER_DN + [COLON], val) == Success(Extensible([], [], val, true))
  {
    hide Contains, TrimColons, IsOidOrDescr;
    assert [COLON, COLON][1..1] == [];
    assert (LOWER_DN + [COLON])[4..4] == [] && (UPPER_DN + [COLON])[4..4] == [];
  }

  function ValueChecked(after: bytes, f: Filter): Filter {
    if IsAssertionText(after) then f else Invalid
  }

  function MakeAssertion(op: Operator, desc: bytes, after: bytes): Result<Filter, Error> {
    if CheckOids(desc, []) then Success(ValueChecked(after, Assertion(op, desc, after))) else Failure(BadOid)
  }

  /** The kind of item, from the text on both sides of the first equals sign. */
  function Classify(pre: bytes, after: bytes): Result<Filter, Error> {
    if after == [STAR] then
      if CheckOids(pre, []) then Success(Present(pre)) else Failure(BadOid)
    else if HasSuffix(pre, [GREATER]) then MakeAssertion(GreaterOrEqual, pre[..|pre| - 1], after)
    else if HasSuffix(pre, [LESS]) then MakeAssertion(LessOrEqual, pre[..|pre| - 1], after)
    else if HasSuffix(pre, [TILDE]) then MakeAssertion(Approximate, pre[..|pre| - 1], after)
    else if STAR in after then
      var subs := SubstringText.Parse(after);
      if subs.Failure? then Failure(BadSubstrings)
      else if CheckOids(pre, []) then Success(Substrings(pre, subs.value))
      else Failure(BadOid)
    else if COLON in pre then
      var f :- ParseExtensible(pre, after);
      Success(ValueChecked(after, f))
    else MakeAssertion(Equal, pre, after)
  }

  function ParseItem(input: bytes): Result<Filter, Error> {
    var i := Index(input, [EQUALS]);
    if i < 0 then Failure(InvalidFilter)
    else
      var pre, after := input[..i], input[i + 1..];
      if HasPrefix(pre, [LPAREN]) != HasSuffix(after, [RPAREN]) then Failure(EndOfFilter)
      else Classify(Without(pre, LPAREN), Without(after, RPAREN))
  }

  // ----- parseSubFilter -----

  predicate IsBalanced(s: bytes) { CountOf(s, LPAREN) == CountOf(s, RPAREN) }

  /** No opening parenthesis directly after another. */
  predicate NoDoubleOpen(s: bytes) { forall i :: 0 < i < |s| ==> !(s[i - 1] == LPAREN && s[i] == LPAREN) }

  /** A balanced text that opens with a parenthesis and one more character has room for a body. */
  lemma BalancedIsLonger(t: bytes, c: byte)
    requires [LPAREN, c] <= t && IsBalanced(t) && c != RPAREN
    ensures |t| >= 3
  {
    assert t[0] == LPAREN && t[1] == c && t[1..][1..] == t[2..];
    CountOfStep(t, LPAREN);
    CountOfStep(t, RPAREN);
    CountOfStep(t[1..], RPAREN);
    assert CountOf(t[2..], RPAREN) > 0;
  }

  function ParseSub(input: bytes): Result<Filter, Error>
    decreases |input|, 0
  {
    var t := Utf8.TrimSpace(input);
    if t == [] then Success(DEFAULT)
    else if !NoDoubleOpen(t) || !IsBalanced(t) then Failure(EndOfFilter)
    else if [LPAREN, AMPERSAND] <= t then
      BalancedIsLonger(t, AMPERSAND);
      var parts := SplitFrom(t[2..|t| - 1], [], 0);
      var fs :- ParseParts(parts, |t| - 3);
      Success(And(fs))
    else if [LPAREN, PIPE] <= t then
      BalancedIsLonger(t, PIPE);
      var parts := SplitFrom(t[2..|t| - 1], [], 0);
      var fs :- ParseParts(parts, |t| - 3);
      Success(Or(fs))
    else if [LPAREN, BANG] <= t then
      if |t| < 8 then Failure(InvalidFilter)
      else
        var f :- ParseSub(t[2..|t| - 1]);
        Success(Not(f))
    else ParseItem(t)
  }

  function ParseParts(parts: seq<bytes>, longest: nat): Result<seq<Filter>, Error>
    requires forall p :: p in parts ==> |p| <= longest
    decreases longest, 1 + |parts|
  {
    if parts == [] then Success([])
    else
      var f :- ParseSub(parts[0]);
      var fs :- ParseParts(parts[1..], longest);
      Success([f] + fs)
  }

  /** The branches of parseSubFilter, for a text that has been trimmed. */
  lemma SubBranches(raw: bytes)
    ensures var t := Utf8.TrimSpace(raw);
            ParseSub(raw) ==
              if t == [] then Success(DEFAULT)
              else if !NoDoubleOpen(t) || !IsBalanced(t) then Failure(EndOfFilter)
              else if [LPAREN, AMPERSAND] <= t then AndOf(BodyFilters(t))
              else if [LPAREN, PIPE] <= t then OrOf(BodyFilters(t))
              else if [LPAREN, BANG] <= t && |t| < 8 then Failure(InvalidFilter)
              else if [LPAREN, BANG] <= t then NotOf(ParseSub(t[2..|t| - 1]))
              else ParseItem(t)
  {
    hide IsBalanced, NoDoubleOpen, SplitFrom, ParseItem, ParseParts, Utf8.TrimSpace;
    var t := Utf8.TrimSpace(raw);
    if [LPAREN, AMPERSAND] <= t && IsBalanced(t) {
      BalancedIsLonger(t, AMPERSAND);
    } else if [LPAREN, PIPE] <= t && IsBalanced(t) {
      BalancedIsLonger(t, PIPE);
    }
  }

  function AndOf(r: Result<seq<Filter>, Error>): Result<Filter, Error> {
    if r.Success? then Success(And(r.value)) else Failure(r.error)
  }

  function OrOf(r: Result<seq<Filter>, Error>): Result<Filter, Error> {
    if r.Success? then Success(Or(r.value)) else Failure(r.error)
  }

  function NotOf(r: Result<Filter, Error>): Result<Filter, Error> {
    if r.Success? then Success(Not(r.value)) else r
  }

  function BodyFilters(t: bytes): Result<seq<Filter>, Error> {
    if |t| < 3 then Success([]) else ParseParts(SplitFrom(t[2..|t| - 1], [], 0), |t| - 3)
  }

  method ParseSubFilter(raw: bytes) returns (r: Result<Filter, Error>)
    ensures r == ParseSub(raw)
    decreases |raw|, 0
  {
    hide ParseSub, ParseParts, ParseItem, SplitFrom, IsBalanced, NoDoubleOpen, Utf8.TrimSpace;
    SubBranches(raw);
    var input := Utf8.TrimSpace(raw);
    if |input| == 0 {
      return Success(DEFAULT);
    } else if !NoDoubleOpen(input) || !IsBalanced(input) {
      return Failure(EndOfFilter);
    }
    if [LPAREN, AMPERSAND] <= input {
      BalancedIsLonger(input, AMPERSAND);
      var fs := ParseComplexFilter(input[2..|input| - 1]);
      return AndOf(fs);
    } else if [LPAREN, PIPE] <= input {
      BalancedIsLonger(input, PIPE);
      var fs := ParseComplexFilter(input[2..|input| - 1]);
      return OrOf(fs);
    } else if [LPAREN, BANG] <= input {
      if |input| < 8 {
        return Failure(InvalidFilter);
      }
      var f := ParseSubFilter(input[2..|input| - 1]);
      return NotOf(f);
    } else {
      return ParseItem(input);
    }
  }

  method ParseComplexFilter(input: bytes) returns (r: Result<seq<Filter>, Error>)
    ensures r == ParseParts(SplitFrom(input, [], 0), |input|)
    decreases |input|, 1
  {
    hide ParseSub, SplitFrom;
    var refs: seq<Filter> := [];
    var parts := SplitFilterParts(input);
    PrependNothing(ParseParts(parts, |input|));
    assert parts[0..] == parts;
    for i := 0 to |parts|
      invariant ParseParts(parts, |input|) == Prepend(refs, ParseParts(parts[i..], |input|))
    {
      var part := parts[i];
      assert part in parts;
      var subRef := ParseSubFilter(part);
      if subRef.Failure? {
        return Failure(subRef.error);
      }
      assert parts[i..][1..] == parts[i + 1..];
      PrependTwice(refs, [subRef.value], ParseParts(parts[i + 1..], |input|));
      refs := refs + [subRef.value];
    }
    assert parts[|parts|..] == [] && refs + [] == refs;
    return Success(refs);
  }

  /** NewFilter on text: a nil result is turned into an error. */
  function Parse(raw: bytes): Result<Filter, Error> {
    if raw == [] then Success(DEFAULT)
    else
      var f :- ParseSub(raw);
      if f.Nil? then Failure(InvalidFilter) else Success(f)
  }
}
