/** dn.go: printing and parsing of distinguished names (RFC 4514), and the lineage computed through them. */
module DnText {
  import opened Bytes
  import opened Wrappers
  import opened Names
  import opened AttributeText
  import Utf8

  // ----- sort.Strings -----

  predicate LexLeq(a: bytes, b: bytes) {
    a == [] || (b != [] && (a[0] < b[0] || (a[0] == b[0] && LexLeq(a[1..], b[1..]))))
  }

  function Insert(x: bytes, s: seq<bytes>): seq<bytes> {
    if s == [] || LexLeq(x, s[0]) then [x] + s else [s[0]] + Insert(x, s[1..])
  }

  function Sort(s: seq<bytes>): seq<bytes> {
    if s == [] then [] else Insert(s[0], Sort(s[1..]))
  }

  predicate Sorted(s: seq<bytes>) {
    |s| > 1 ==> LexLeq(s[0], s[1]) && Sorted(s[1..])
  }

  /** A prefix comes first, and otherwise the smaller of the first octets that differ decides. */
  lemma {:induction false} LexLeqExactly(a: bytes, b: bytes)
    ensures LexLeq(a, b) <==>
              a <= b || exists k :: 0 <= k < |a| && k < |b| && a[..k] == b[..k] && a[k] < b[k]
  {
    if a != [] && b != [] {
      LexLeqExactly(a[1..], b[1..]);
      if a[0] == b[0] {
        var c, d := a[1..], b[1..];
        if k :| 0 <= k < |c| && k < |d| && c[..k] == d[..k] && c[k] < d[k] {
          assert a[..k + 1] == [a[0]] + c[..k] && b[..k + 1] == [b[0]] + d[..k];
          assert a[k + 1] < b[k + 1];
        }
        if k :| 0 <= k < |a| && k < |b| && a[..k] == b[..k] && a[k] < b[k] {
          assert k > 0;
          assert c[..k - 1] == a[..k][1..] == b[..k][1..] == d[..k - 1];
          assert c[k - 1] < d[k - 1];
        }
        assert a <= b <==> c <= d;
      } else if a[0] < b[0] {
        assert a[..0] == b[..0];
      } else {
        assert forall k :: 0 < k < |a| && k < |b| ==> a[..k][0] != b[..k][0];
      }
    }
  }

  lemma {:induction false} LexTotal(a: bytes, b: bytes)
    ensures LexLeq(a, b) || LexLeq(b, a)
  {
    if a != [] && b != [] {
      LexTotal(a[1..], b[1..]);
    }
  }

  lemma {:induction false} InsertSorts(x: bytes, s: seq<bytes>)
    requires Sorted(s)
    ensures Sorted(Insert(x, s))
    ensures multiset(Insert(x, s)) == multiset(s) + multiset{x}
    ensures Insert(x, s)[0] == x || (s != [] && Insert(x, s)[0] == s[0])
  {
    if s == [] || LexLeq(x, s[0]) {
      assert ([x] + s)[1..] == s;
    } else {
      LexTotal(x, s[0]);
      InsertSorts(x, s[1..]);
      assert s == [s[0]] + s[1..];
      assert Insert(x, s)[1..] == Insert(x, s[1..]);
    }
  }

  /** The order of the printed pairs is sorted, and none is lost or repeated. */
  lemma {:induction false} SortSorts(s: seq<bytes>)
    ensures Sorted(Sort(s)) && multiset(Sort(s)) == multiset(s)
  {
    if s != [] {
      SortSorts(s[1..]);
      InsertSorts(s[0], Sort(s[1..]));
      assert s == [s[0]] + s[1..];
    }
  }

  lemma {:induction false} SortKeepsSorted(s: seq<bytes>)
    requires Sorted(s)
    ensures Sort(s) == s
  {
    if s != [] {
      SortKeepsSorted(s[1..]);
      assert s == [s[0]] + s[1..];
    }
  }

  // ----- String -----

  /** AttributeTypeAndValue.String. */
  function PairString(a: Atv): bytes {
    Escape(Lower(a.typ), false) + [EQUALS] + Escape(a.value, true)
  }

  function PairStrings(r: Rdn): (s: seq<bytes>)
    ensures |s| == |r|
  {
    if r == [] then [] else [PairString(r[0])] + PairStrings(r[1..])
  }

  /** RelativeDistinguishedName.String. */
  function RdnString(r: Rdn): bytes { Join(Sort(PairStrings(r)), PLUS) }

  function RdnStrings(rs: seq<Rdn>): (s: seq<bytes>)
    ensures |s| == |rs|
  {
    if rs == [] then [] else [RdnString(rs[0])] + RdnStrings(rs[1..])
  }

  /** DistinguishedName.String, with no cached text. */
  function DnString(d: Dn): bytes { Join(RdnStrings(d.rdns), COMMA) }

  // ----- parseDN -----

  /** The local variables of the scanning loop. */
  datatype Scanner = Scanner(rdns: seq<Rdn>, rdn: Rdn, typ: bytes, escaping: bool, start: nat)

  const INITIAL := Scanner([], [], [], false, 0)

  predicate IsDelimiter(c: byte) { c == PLUS || c == COMMA || c == SEMI }

  /** One turn of the loop, at position `i`. */
  function Step(str: bytes, i: nat, st: Scanner): (r: Result<Scanner, Error>)
    requires i < |str| && st.start <= i
    ensures r.Success? ==> r.value.start <= i + 1
  {
    var c := str[i];
    if st.escaping then Success(st.(escaping := false))
    else if c == BSLASH then Success(st.(escaping := true))
    else if c == EQUALS && st.typ == [] then
      var t :- DecodeString(str[st.start..i]);
      Success(st.(typ := t, start := i + 1))
    else if IsDelimiter(c) then
      if st.typ == [] then Failure(IncompletePair)
      else
        var v :- DecodeValue(str[st.start..i]);
        var rdn := st.rdn + [Atv(st.typ, v)];
        Success(if c == PLUS then Scanner(st.rdns, rdn, [], false, i + 1)
                else Scanner(st.rdns + [rdn], [], [], false, i + 1))
    else Success(st)
  }

  function Scan(str: bytes, i: nat, st: Scanner): (r: Result<Scanner, Error>)
    requires i <= |str| && st.start <= i
    ensures r.Success? ==> r.value.start <= |str|
    decreases |str| - i
  {
    if i == |str| then Success(st)
    else
      var next :- Step(str, i, st);
      Scan(str, i + 1, next)
  }

  function Finish(str: bytes, st: Scanner): Result<Dn, Error>
    requires st.start <= |str|
  {
    if st.typ == [] then Failure(IncompletePair)
    else
      var v :- DecodeValue(str[st.start..]);
      Success(Dn(st.rdns + [st.rdn + [Atv(st.typ, v)]], 0))
  }

  function Parse(str: bytes): Result<Dn, Error> {
    if Utf8.TrimSpace(str) == [] then Success(Dn([], 0))
    else
      var st :- Scan(str, 0, INITIAL);
      Finish(str, st)
  }

  method ParseDn(str: bytes) returns (r: Result<Dn, Error>)
    ensures r == Parse(str)
  {
    hide DecodeString, DecodeValue, Utf8.TrimSpace, Scan;
    if |Utf8.TrimSpace(str)| == 0 {
      return Success(Dn([], 0));
    }
    var rdns: seq<Rdn>, rdn: Rdn := [], [];
    var attr := new Pair();
    var escaping, startPos := false, 0;
    var i := 0;
    while i < |str|
      invariant 0 <= startPos <= i <= |str|
      invariant fresh(attr)
      invariant Scan(str, 0, INITIAL) == Scan(str, i, Scanner(rdns, rdn, attr.typ, escaping, startPos))
    {
      ScanStep(str, i, Scanner(rdns, rdn, attr.typ, escaping, startPos));
      var c := str[i];
      if escaping {
        escaping := false;
      } else if c == BSLASH {
        escaping := true;
      } else if c == EQUALS && |attr.typ| == 0 {
        var err := attr.SetType(str[startPos..i]);
        if err.Some? {
          return Failure(err.value);
        }
        startPos := i + 1;
      } else if IsDelimiter(c) {
        if |attr.typ| == 0 {
          return Failure(IncompletePair);
        }
        var err := attr.SetValue(str[startPos..i]);
        if err.Some? {
          return Failure(err.value);
        }
        startPos := i + 1;
        rdn := rdn + [Atv(attr.typ, attr.value)];
        attr := new Pair();
        if c == COMMA || c == SEMI {
          rdns := rdns + [rdn];
          rdn := [];
        }
      }
      i := i + 1;
    }
    ScanEnd(str, Scanner(rdns, rdn, attr.typ, escaping, startPos));
    if |attr.typ| == 0 {
      return Failure(IncompletePair);
    }
    var err := attr.SetValue(str[startPos..]);
    if err.Some? {
      return Failure(err.value);
    }
    return Success(Dn(rdns + [rdn + [Atv(attr.typ, attr.value)]], 0));
  }

  lemma ScanStep(str: bytes, i: nat, st: Scanner)
    requires i < |str| && st.start <= i
    ensures Scan(str, i, st) == match Step(str, i, st)
                                case Success(next) => Scan(str, i + 1, next)
                                case Failure(e) => Failure(e)
  {
  }

  lemma ScanEnd(str: bytes, st: Scanner)
    requires st.start <= |str|
    ensures Scan(str, |str|, st) == Success(st)
  {
  }

  // ----- scanning text -----

  /** The texts on both sides of the first equals sign of a pair. */
  datatype PairText = PairText(typ: bytes, value: bytes)

  /** Escapes are complete, and no delimiter stands bare, nor an equals sign in a type. */
  predicate IsClear(s: bytes, escaped: bool, isValue: bool) {
    if s == [] then !escaped
    else if escaped then IsClear(s[1..], false, isValue)
    else if s[0] as char == '\\' then IsClear(s[1..], true, isValue)
    else s[0] as char !in "+,;" && (isValue || s[0] as char != '=') && IsClear(s[1..], false, isValue)
  }

  predicate IsPair(p: PairText) {
    && IsClear(p.typ, false, false) && IsClear(p.value, false, true)
    && DecodeString(p.typ).Success? && DecodeString(p.typ).value != [] && DecodeValue(p.value).Success?
  }

  predicate AllPairs(ps: seq<PairText>) { forall i :: 0 <= i < |ps| ==> IsPair(ps[i]) }

  predicate ArePairs(ps: seq<PairText>) { ps != [] && AllPairs(ps) }

  predicate AreRdns(rs: seq<seq<PairText>>) { forall k :: 0 <= k < |rs| ==> ArePairs(rs[k]) }

  predicate AreSeparators(seps: bytes) { forall k :: 0 <= k < |seps| ==> seps[k] as char in ",;" }

  /** What a pair means: its unescaped type and value. */
  function Meaning(p: PairText): Atv
    requires IsPair(p)
  {
    Atv(DecodeString(p.typ).value, DecodeValue(p.value).value)
  }

  function Meanings(ps: seq<PairText>): (r: Rdn)
    requires AllPairs(ps)
    ensures |r| == |ps|
    ensures forall i :: 0 <= i < |ps| ==> r[i] == Meaning(ps[i])
  {
    seq(|ps|, i requires 0 <= i < |ps| => Meaning(ps[i]))
  }

  function PairLine(p: PairText): bytes { p.typ + [EQUALS] + p.value }

  /** The pairs of an RDN, with plus signs between them. */
  function RdnLine(ps: seq<PairText>): bytes {
    if ps == [] then []
    else if |ps| == 1 then PairLine(ps[0]) else PairLine(ps[0]) + ([PLUS] + RdnLine(ps[1..]))
  }

  /** The RDNs of a name, with a comma or a semicolon behind every RDN but the last. */
  function NameLine(rs: seq<seq<PairText>>, seps: bytes): bytes
    requires rs != [] && |seps| == |rs| - 1
  {
    if |rs| == 1 then RdnLine(rs[0]) else RdnLine(rs[0]) + ([seps[0]] + NameLine(rs[1..], seps[1..]))
  }

  function NameMeaning(rs: seq<seq<PairText>>): (r: seq<Rdn>)
    requires AreRdns(rs)
    ensures |r| == |rs|
    ensures forall k :: 0 <= k < |rs| ==> r[k] == Meanings(rs[k])
  {
    seq(|rs|, k requires 0 <= k < |rs| && ArePairs(rs[k]) => Meanings(rs[k]))
  }

  /** Clear text leaves the scanner as it was. */
  lemma {:induction false} ScanClear(str: bytes, i: nat, st: Scanner, s: bytes, isValue: bool)
    requires At(str, i, s) && st.start <= i && IsClear(s, st.escaping, isValue) && (isValue ==> st.typ != [])
    ensures Scan(str, i, st) == Scan(str, i + |s|, st.(escaping := false))
    decreases |s|
  {
    hide Scan, DecodeString, DecodeValue;
    if s != [] {
      assert s == [s[0]] + s[1..];
      AtConcat(str, i, [s[0]], s[1..]);
      assert str[i] == str[i..i + 1][0] == s[0];
      ScanStep(str, i, st);
      Delimiters(s[0]);
      var next := if st.escaping then st.(escaping := false) else st.(escaping := s[0] == BSLASH);
      ScanClear(str, i + 1, next, s[1..], isValue);
    }
  }

  lemma Delimiters(c: byte)
    ensures IsDelimiter(c) <==> c as char in "+,;"
  {
    assert "+,;"[0] in "+,;" && "+,;"[1] in "+,;" && "+,;"[2] in "+,;";
  }

  /** A pair leaves its type and the start of its value behind. */
  lemma ScanPair(str: bytes, i: nat, st: Scanner, p: PairText) returns (start: nat)
    requires At(str, i, PairLine(p)) && IsPair(p)
    requires !st.escaping && st.typ == [] && st.start == i
    ensures start <= i + |PairLine(p)| && str[start..i + |PairLine(p)|] == p.value
    ensures Scan(str, i, st) == Scan(str, i + |PairLine(p)|, st.(typ := Meaning(p).typ, start := start))
  {
    hide Scan, DecodeString, DecodeValue, IsClear;
    var t, v := p.typ, p.value;
    AtConcat(str, i, t + [EQUALS], v);
    AtConcat(str, i, t, [EQUALS]);
    ScanClear(str, i, st, t, false);
    var e := i + |t|;
    assert str[e] == str[e..e + 1][0] == EQUALS;
    assert str[i..e] == t;
    ScanStep(str, e, st);
    start := e + 1;
    ScanClear(str, start, st.(typ := Meaning(p).typ, start := start), v, true);
  }

  /** A delimiter after a pair completes it. */
  lemma ScanDelimiter(str: bytes, q: nat, st: Scanner, value: bytes)
    requires q < |str| && str[q] as char in "+,;" && st.start <= q && !st.escaping && st.typ != []
    requires DecodeValue(str[st.start..q]) == Success(value)
    ensures var rdn := st.rdn + [Atv(st.typ, value)];
            Scan(str, q, st) == Scan(str, q + 1,
              if str[q] as char == '+' then Scanner(st.rdns, rdn, [], false, q + 1)
              else Scanner(st.rdns + [rdn], [], [], false, q + 1))
  {
    hide Scan, DecodeString, DecodeValue;
    Delimiters(str[q]);
    ScanStep(str, q, st);
  }

  lemma RdnLineStep(ps: seq<PairText>)
    requires ps != []
    ensures RdnLine(ps) == if |ps| == 1 then PairLine(ps[0]) else PairLine(ps[0]) + ([PLUS] + RdnLine(ps[1..]))
  {
  }

  lemma MeaningsStep(ps: seq<PairText>)
    requires ArePairs(ps)
    ensures Meanings(ps) == [Meaning(ps[0])] + Meanings(ps[1..])
    ensures |ps| > 1 ==> ArePairs(ps[1..])
  {
    hide IsPair, Meaning;
    assert forall i :: 0 < i < |ps| ==> ps[i] == ps[1..][i - 1];
  }

  /** From position `i` on the scanner completes the RDN at `end`: the text ends there, or an RDN separator follows. */
  predicate Completes(str: bytes, i: nat, st: Scanner, end: nat, rdn: Rdn)
    requires i <= end <= |str| && st.start <= i
  {
    var rdns := st.rdns + [rdn];
    if end == |str| then
      Scan(str, i, st).Success? && Finish(str, Scan(str, i, st).value) == Success(Dn(rdns, 0))
    else
      str[end] as char in ",;" ==> Scan(str, i, st) == Scan(str, end + 1, Scanner(rdns, [], [], false, end + 1))
  }

  /** All pairs of an RDN. */
  lemma {:induction false} ScanPairs(str: bytes, i: nat, st: Scanner, ps: seq<PairText>)
    requires ArePairs(ps) && At(str, i, RdnLine(ps))
    requires !st.escaping && st.typ == [] && st.start == i
    ensures Completes(str, i, st, i + |RdnLine(ps)|, st.rdn + Meanings(ps))
    decreases |ps|
  {
    hide Scan, RdnLine, PairLine, Meaning, Meanings, AllPairs, DecodeValue, DecodeString, Completes, At;
    RdnLineStep(ps);
    MeaningsStep(ps);
    var p := ps[0];
    FirstIsPair(ps);
    if |ps| == 1 {
      LastPair(str, i, st, p);
      OneMeaning(ps);
    } else {
      var rest := RdnLine(ps[1..]);
      var q := i + |PairLine(p)| + 1;
      var next := Scanner(st.rdns, st.rdn + [Meaning(p)], [], false, q);
      FirstPair(str, i, st, p, rest);
      ScanPairs(str, q, next, ps[1..]);
      assert st.rdn + [Meaning(p)] + Meanings(ps[1..]) == st.rdn + ([Meaning(p)] + Meanings(ps[1..]));
      SameCompletion(str, i, st, q, next, q + |rest|, st.rdn + Meanings(ps));
    }
  }

  lemma FirstIsPair(ps: seq<PairText>)
    requires ArePairs(ps)
    ensures IsPair(ps[0])
  {
    hide IsPair;
  }

  lemma OneMeaning(ps: seq<PairText>)
    requires ArePairs(ps) && |ps| == 1
    ensures Meanings(ps) == [Meaning(ps[0])]
  {
    hide IsPair, Meaning;
  }

  lemma SameCompletion(str: bytes, i: nat, st: Scanner, q: nat, next: Scanner, end: nat, rdn: Rdn)
    requires i <= q <= end <= |str| && st.start <= i && next.start <= q && st.rdns == next.rdns
    requires Scan(str, i, st) == Scan(str, q, next) && Completes(str, q, next, end, rdn)
    ensures Completes(str, i, st, end, rdn)
  {
    hide Scan, Finish;
  }

  /** A pair with a plus sign behind it. */
  lemma FirstPair(str: bytes, i: nat, st: Scanner, p: PairText, rest: bytes)
    requires IsPair(p) && At(str, i, PairLine(p) + ([PLUS] + rest))
    requires !st.escaping && st.typ == [] && st.start == i
    ensures var q := i + |PairLine(p)| + 1;
            && At(str, q, rest) && q + |rest| <= |str|
            && Scan(str, i, st) == Scan(str, q, Scanner(st.rdns, st.rdn + [Meaning(p)], [], false, q))
  {
    hide Scan, PairLine, Meaning, IsPair;
    var s := PairLine(p);
    AtConcat(str, i, s, [PLUS] + rest);
    AtConcat(str, i + |s|, [PLUS], rest);
    assert str[i + |s|] == str[i + |s|..i + |s| + 1][0] == PLUS;
    MiddlePair(str, i, st, p);
  }

  lemma MiddlePair(str: bytes, i: nat, st: Scanner, p: PairText)
    requires IsPair(p) && At(str, i, PairLine(p)) && i + |PairLine(p)| < |str| && str[i + |PairLine(p)|] == PLUS
    requires !st.escaping && st.typ == [] && st.start == i
    ensures var q := i + |PairLine(p)|;
            Scan(str, i, st) == Scan(str, q + 1, Scanner(st.rdns, st.rdn + [Meaning(p)], [], false, q + 1))
  {
    hide Scan, PairLine, DecodeValue, DecodeString, IsClear;
    var start := ScanPair(str, i, st, p);
    assert "+,;"[0] in "+,;";
    ScanDelimiter(str, i + |PairLine(p)|, st.(typ := Meaning(p).typ, start := start), Meaning(p).value);
  }

  lemma LastPair(str: bytes, i: nat, st: Scanner, p: PairText)
    requires IsPair(p) && At(str, i, PairLine(p))
    requires !st.escaping && st.typ == [] && st.start == i
    ensures Completes(str, i, st, i + |PairLine(p)|, st.rdn + [Meaning(p)])
  {
    hide Scan, PairLine, DecodeValue, DecodeString, IsClear;
    var end := i + |PairLine(p)|;
    var start := ScanPair(str, i, st, p);
    var open := st.(typ := Meaning(p).typ, start := start);
    if end == |str| {
      ScanEnd(str, open);
      assert str[start..] == str[start..|str|];
    } else if str[end] as char in ",;" {
      TwoDelimiters(str[end]);
      ScanDelimiter(str, end, open, Meaning(p).value);
    }
  }

  lemma TwoDelimiters(c: byte)
    requires c as char in ",;"
    ensures c as char in "+,;" && c as char != '+'
  {
    assert "+,;"[1] in "+,;" && "+,;"[2] in "+,;";
  }

  /** A whole name is read pair by pair. */
  lemma {:induction false} ScanName(str: bytes, i: nat, st: Scanner, rs: seq<seq<PairText>>, seps: bytes)
    requires rs != [] && |seps| == |rs| - 1 && AreRdns(rs) && AreSeparators(seps)
    requires At(str, i, NameLine(rs, seps)) && i + |NameLine(rs, seps)| == |str|
    requires !st.escaping && st.typ == [] && st.rdn == [] && st.start == i
    ensures Scan(str, i, st).Success?
    ensures Finish(str, Scan(str, i, st).value) == Success(Dn(st.rdns + NameMeaning(rs), 0))
    decreases |rs|
  {
    hide Scan, RdnLine, Meanings, NameMeaning, AllPairs, Finish, NameLine, AreRdns, AreSeparators, At;
    var r := rs[0];
    NameStep(rs, seps);
    NameLineStep(rs, seps);
    if |rs| == 1 {
      ScanLast(str, i, st, r);
    } else {
      var rest := NameLine(rs[1..], seps[1..]);
      var q := i + |RdnLine(r)| + 1;
      ScanFirst(str, i, st, r, seps[0], rest);
      ScanName(str, q, Scanner(st.rdns + [Meanings(r)], [], [], false, q), rs[1..], seps[1..]);
      assert st.rdns + [Meanings(r)] + NameMeaning(rs[1..]) == st.rdns + ([Meanings(r)] + NameMeaning(rs[1..]));
    }
  }

  /** The RDN at the end of the text. */
  lemma ScanLast(str: bytes, i: nat, st: Scanner, r: seq<PairText>)
    requires ArePairs(r) && At(str, i, RdnLine(r)) && i + |RdnLine(r)| == |str|
    requires !st.escaping && st.typ == [] && st.rdn == [] && st.start == i
    ensures Scan(str, i, st).Success?
    ensures Finish(str, Scan(str, i, st).value) == Success(Dn(st.rdns + [Meanings(r)], 0))
  {
    hide Scan, RdnLine, Meanings, AllPairs, Finish;
    assert [] + Meanings(r) == Meanings(r);
    ScanPairs(str, i, st, r);
  }

  /** An RDN with a delimiter behind it. */
  lemma ScanFirst(str: bytes, i: nat, st: Scanner, r: seq<PairText>, c: byte, rest: bytes)
    requires ArePairs(r) && c as char in ",;" && At(str, i, RdnLine(r) + ([c] + rest))
    requires !st.escaping && st.typ == [] && st.rdn == [] && st.start == i
    ensures var q := i + |RdnLine(r)| + 1;
            && At(str, q, rest)
            && Scan(str, i, st) == Scan(str, q, Scanner(st.rdns + [Meanings(r)], [], [], false, q))
  {
    hide Scan, RdnLine, Meanings, AllPairs, Finish;
    var s := RdnLine(r);
    AtConcat(str, i, s, [c] + rest);
    AtConcat(str, i + |s|, [c], rest);
    assert str[i + |s|] == str[i + |s|..i + |s| + 1][0] == c;
    assert [] + Meanings(r) == Meanings(r);
    ScanPairs(str, i, st, r);
  }

  lemma NameStep(rs: seq<seq<PairText>>, seps: bytes)
    requires rs != [] && |seps| == |rs| - 1 && AreRdns(rs) && AreSeparators(seps)
    ensures ArePairs(rs[0]) && AreRdns(rs[1..])
    ensures NameMeaning(rs) == [Meanings(rs[0])] + NameMeaning(rs[1..])
    ensures |rs| == 1 ==> NameMeaning(rs) == [Meanings(rs[0])]
    ensures |rs| > 1 ==> seps[0] as char in ",;" && AreSeparators(seps[1..])
  {
    hide ArePairs, Meanings;
  }

  lemma {:induction false} LineHasEquals(rs: seq<seq<PairText>>, seps: bytes)
    requires rs != [] && |seps| == |rs| - 1 && rs[0] != []
    ensures EQUALS in NameLine(rs, seps)
  {
    hide NameLine, RdnLine;
    var p := rs[0][0];
    assert PairLine(p)[|p.typ|] == EQUALS;
    RdnLineStep(rs[0]);
    NameLineStep(rs, seps);
  }

  lemma NameLineStep(rs: seq<seq<PairText>>, seps: bytes)
    requires rs != [] && |seps| == |rs| - 1
    ensures NameLine(rs, seps)
         == if |rs| == 1 then RdnLine(rs[0]) else RdnLine(rs[0]) + ([seps[0]] + NameLine(rs[1..], seps[1..]))
  {
  }

  /**
    Every text of section 3 of RFC 4514 is read as what it says, in every spelling of its types and values, with
    commas or semicolons between the RDNs and plus signs between the pairs.
   */
  lemma ParseOfText(rs: seq<seq<PairText>>, seps: bytes)
    requires rs != [] && |seps| == |rs| - 1 && AreRdns(rs) && AreSeparators(seps)
    ensures Parse(NameLine(rs, seps)) == Success(Dn(NameMeaning(rs), 0))
  {
    hide NameLine, Scan, Finish, Meanings, IsPair, Utf8.TrimSpace;
    var str := NameLine(rs, seps);
    LineHasEquals(rs, seps);
    Utf8.TrimKeepsInk(str, EQUALS);
    assert str[0..|str|] == str;
    ScanName(str, 0, INITIAL, rs, seps);
    assert [] + NameMeaning(rs) == NameMeaning(rs);
  }

  // ----- escaped text between delimiters -----

  /** No unit is a bare delimiter, nor, in a type, a bare equals sign. */
  predicate IsInner(us: seq<Unit>, isValue: bool) {
    forall i :: 0 <= i < |us| && us[i].Bare? ==> us[i].c as char !in "+,;" && (isValue || us[i].c as char != '=')
  }

  lemma UnitIsClear(u: Unit, rest: bytes, isValue: bool)
    requires IsUnit(u) && (u.Bare? ==> u.c as char !in "+,;" && (isValue || u.c as char != '='))
    requires IsClear(rest, false, isValue)
    ensures IsClear(UnitText(u) + rest, false, isValue)
  {
    hide Digit;
    var t := UnitText(u);
    var s := t + rest;
    assert s[|t|..] == rest;
    if u.Bare? {
      Characters(u.c);
      assert s[1..] == rest;
    } else {
      assert s[0] == BSLASH && s[1..][1..] == s[2..];
      assert IsClear(s, false, isValue) == IsClear(s[1..], true, isValue) == IsClear(s[2..], false, isValue);
      if u.Spelled? {
        DigitIsPlain(u.c % 16, u.upperLow);
        assert s[2] == t[2] && s[2..][1..] == rest;
      }
    }
  }

  lemma DigitIsPlain(n: nat, upper: bool)
    requires n < 16
    ensures Digit(n, upper) as char !in "+,;" && Digit(n, upper) != EQUALS && Digit(n, upper) != BSLASH
  {
    DigitValue(n, upper);
  }

  lemma {:induction false} TextIsClear(us: seq<Unit>, rest: bytes, isValue: bool)
    requires AreUnits(us) && IsInner(us, isValue) && IsClear(rest, false, isValue)
    ensures IsClear(Text(us) + rest, false, isValue)
    decreases |us|
  {
    hide IsUnit, UnitText, IsClear, Text;
    if us == [] {
      NoUnits();
      assert [] + rest == rest;
    } else {
      var us', u := us[..|us| - 1], us[|us| - 1];
      assert us == us' + [u];
      TextSnoc(us', u);
      UnitIsClear(u, rest, isValue);
      TextIsClear(us', UnitText(u) + rest, isValue);
      assert Text(us) + rest == Text(us') + (UnitText(u) + rest);
    }
  }

  lemma {:induction false} BlanksAreClear(n: nat, rest: bytes, isValue: bool)
    requires IsClear(rest, false, isValue)
    ensures IsClear(Blanks(n) + rest, false, isValue)
    decreases n
  {
    if n == 0 {
      assert Blanks(n) + rest == rest;
    } else {
      BlanksAreClear(n - 1, rest, isValue);
      assert (Blanks(n) + rest)[1..] == Blanks(n - 1) + rest;
    }
  }

  lemma NothingIsClear(isValue: bool)
    ensures IsClear([], false, isValue)
  {
  }

  /** A spelled text with blanks around it. */
  datatype Spelling = Spelling(before: nat, units: seq<Unit>, after: nat)

  function Line(s: Spelling): bytes { Blanks(s.before) + Text(s.units) + Blanks(s.after) }

  /** Spelled types and values make a pair that means their octets. */
  lemma SpelledPair(t: Spelling, v: Spelling)
    requires IsChunk(t.units) && t.units != [] && IsInner(t.units, false)
    requires IsChunk(v.units) && IsInner(v.units, true)
    requires v.before == 0 && v.units != [] ==> v.units[0] != Bare(HASH)
    ensures var p := PairText(Line(t), Line(v));
            IsPair(p) && Meaning(p) == Atv(Octets(t.units), Octets(v.units))
  {
    hide DecodeString, DecodeValue, IsClear, Text, IsUnit;
    DecodeStringOfText(t.before, t.units, t.after);
    DecodeValueOfText(v.before, v.units, v.after);
    LineIsClear(t, false);
    LineIsClear(v, true);
  }

  lemma LineIsClear(s: Spelling, isValue: bool)
    requires AreUnits(s.units) && IsInner(s.units, isValue)
    ensures IsClear(Line(s), false, isValue)
  {
    hide IsClear, IsUnit, IsInner;
    NothingIsClear(isValue);
    BlanksAreClear(s.after, [], isValue);
    assert Blanks(s.after) + [] == Blanks(s.after);
    TextIsClear(s.units, Blanks(s.after), isValue);
    BlanksAreClear(s.before, Text(s.units) + Blanks(s.after), isValue);
    assert Line(s) == Blanks(s.before) + (Text(s.units) + Blanks(s.after));
  }

  /** `cn=\C3\A9` names the octets C3 A9. */
  lemma UpperCaseDigits()
    ensures Parse(Ascii("cn=\\C3\\A9")) == Success(Dn([[Atv(Ascii("cn"), [0xC3, 0xA9])]], 0))
  {
    hide *;
    var t, v := [Bare(99), Bare(110)], [Spelled(0xC3, true, true), Spelled(0xA9, true, true)];
    LettersAreType();
    EscapesAreValue();
    SpelledPair(Spelling(0, t, 0), Spelling(0, v, 0));
    var p := PairText(Line(Spelling(0, t, 0)), Line(Spelling(0, v, 0)));
    OnePair(p);
    LineOfPair(t, v);
  }

  lemma OnePair(p: PairText)
    requires IsPair(p)
    ensures Parse(PairLine(p)) == Success(Dn([[Meaning(p)]], 0))
  {
    hide Parse, IsPair, NameLine, RdnLine, PairLine;
    assert Meanings([p]) == [Meaning(p)] && NameMeaning([[p]]) == [[Meaning(p)]];
    NameLineStep([[p]], []);
    RdnLineStep([p]);
    ParseOfText([[p]], []);
  }

  lemma LineOfPair(t: seq<Unit>, v: seq<Unit>)
    requires Text(t) == [99, 110] && Text(v) == [BSLASH, 67, 51, BSLASH, 65, 57]
    ensures PairLine(PairText(Line(Spelling(0, t, 0)), Line(Spelling(0, v, 0)))) == Ascii("cn=\\C3\\A9")
  {
    hide Text, Ascii;
    assert Line(Spelling(0, t, 0)) == [99, 110] && Line(Spelling(0, v, 0)) == [BSLASH, 67, 51, BSLASH, 65, 57];
    LineOctets();
  }

  lemma LineOctets()
    ensures Ascii("cn=\\C3\\A9") == [99, 110] + [EQUALS] + [BSLASH, 67, 51, BSLASH, 65, 57]
  {
  }

  lemma TextOfTwo(a: Unit, b: Unit)
    ensures Text([a, b]) == UnitText(a) + UnitText(b)
  {
    hide UnitText;
    NoUnits();
    TextSnoc([], a);
    TextSnoc([a], b);
    assert [] + [a] == [a] && [a] + [b] == [a, b] && [] + UnitText(a) == UnitText(a);
  }

  lemma LettersAreType()
    ensures var t := [Bare(99), Bare(110)];
            && t != [] && IsChunk(t) && IsInner(t, false) && Text(t) == [99, 110] && Octets(t) == Ascii("cn")
  {
    hide Text, Utf8.Valid;
    TextOfTwo(Bare(99), Bare(110));
    assert [99] + [110] == [99, 110];
    Utf8.AsciiIsValid([99, 110]);
    assert Octets([Bare(99), Bare(110)]) == Ascii("cn");
  }

  /** Octets that are all spelled in digits can stand anywhere. */
  lemma SpelledIsInner(us: seq<Unit>, isValue: bool)
    requires forall i :: 0 <= i < |us| ==> us[i].Spelled?
    ensures IsChunk(us) && IsInner(us, isValue)
  {
    hide Text, Utf8.Valid;
    PrintableText(us);
    Utf8.AsciiIsValid(Text(us));
  }

  lemma EscapesAreValue()
    ensures var v := [Spelled(0xC3, true, true), Spelled(0xA9, true, true)];
            && v[0] != Bare(HASH) && IsChunk(v) && IsInner(v, true)
            && Text(v) == [BSLASH, 67, 51, BSLASH, 65, 57] && Octets(v) == [0xC3, 0xA9]
  {
    hide Text, IsChunk, IsInner, UnitText;
    var v := [Spelled(0xC3, true, true), Spelled(0xA9, true, true)];
    SpelledIsInner(v, true);
    TextOfTwo(v[0], v[1]);
    EscapedDigits();
    assert [BSLASH, 67, 51] + [BSLASH, 65, 57] == [BSLASH, 67, 51, BSLASH, 65, 57];
  }

  lemma EscapedDigits()
    ensures UnitText(Spelled(0xC3, true, true)) == [BSLASH, 67, 51]
    ensures UnitText(Spelled(0xA9, true, true)) == [BSLASH, 65, 57]
  {
  }

  // ----- printed names are in the grammar -----

  /** The pair a printed pair is read back as. */
  function Lowered(a: Atv): Atv { Atv(Lower(a.typ), a.value) }

  function LoweredAll(r: Rdn): (s: Rdn)
    ensures |s| == |r|
    ensures forall i :: 0 <= i < |r| ==> s[i] == Lowered(r[i])
  {
    seq(|r|, i requires 0 <= i < |r| => Lowered(r[i]))
  }

  predicate Typed(r: Rdn) { r != [] && forall a :: a in r ==> a.typ != [] }

  /** Printed RDNs whose pairs are already in printing order. */
  function Printed(rs: seq<Rdn>): (s: seq<bytes>)
    ensures |s| == |rs|
  {
    if rs == [] then [] else [Join(PairStrings(rs[0]), PLUS)] + Printed(rs[1..])
  }

  function LoweredRdns(rs: seq<Rdn>): (s: seq<Rdn>)
    ensures |s| == |rs|
    ensures forall i :: 0 <= i < |rs| ==> s[i] == LoweredAll(rs[i])
  {
    seq(|rs|, i requires 0 <= i < |rs| => LoweredAll(rs[i]))
  }

  function PrintedPair(a: Atv): PairText { PairText(Escape(Lower(a.typ), false), Escape(a.value, true)) }

  function PrintedPairs(r: Rdn): (ps: seq<PairText>)
    ensures |ps| == |r|
    ensures forall i :: 0 <= i < |r| ==> ps[i] == PrintedPair(r[i])
  {
    seq(|r|, i requires 0 <= i < |r| => PrintedPair(r[i]))
  }

  lemma PrintedPairIsPair(a: Atv)
    requires a.typ != []
    ensures IsPair(PrintedPair(a)) && Meaning(PrintedPair(a)) == Lowered(a)
    ensures PairLine(PrintedPair(a)) == PairString(a)
  {
    hide DecodeString, DecodeValue, IsClear, Text, EscapeTo, IsUnit, IsChunk, Units;
    var t, v := Units(Lower(a.typ), false), Units(a.value, true);
    EscapedIsInner(Lower(a.typ), false);
    EscapedIsInner(a.value, true);
    SpelledPair(Spelling(0, t, 0), Spelling(0, v, 0));
    assert Blanks(0) + Text(t) + Blanks(0) == Text(t) && Blanks(0) + Text(v) + Blanks(0) == Text(v);
  }

  lemma EscapedIsInner(v: bytes, isValue: bool)
    ensures var us := Units(v, isValue);
            && Escape(v, isValue) == Text(us) && Octets(us) == v && IsChunk(us) && IsInner(us, isValue)
            && (us != [] ==> us[0] != Bare(HASH))
  {
    hide EscapeTo, Text, IsUnit;
    var us := Units(v, isValue);
    EscapedIsChunk(v, isValue);
    forall i | 0 <= i < |us| && us[i].Bare? ensures us[i].c as char !in "+,;" {
      assert IsUnit(us[i]);
      Characters(us[i].c);
      BareIsForbidden(us[i]);
    }
  }

  lemma BareIsForbidden(u: Unit)
    requires IsUnit(u) && u.Bare? && u.c != PLUS && u.c != COMMA
    ensures u.c as char !in "+,;"
  {
    Characters(u.c);
  }

  lemma {:induction false} PrintedRdnLine(r: Rdn)
    requires Typed(r)
    ensures ArePairs(PrintedPairs(r)) && Meanings(PrintedPairs(r)) == LoweredAll(r)
    ensures RdnLine(PrintedPairs(r)) == Join(PairStrings(r), PLUS)
    decreases |r|
  {
    hide PrintedPair, IsPair, Meaning, PairLine, PairString, Join, RdnLine;
    forall i | 0 <= i < |r|
      ensures IsPair(PrintedPairs(r)[i]) && Meaning(PrintedPairs(r)[i]) == Lowered(r[i])
      ensures PairLine(PrintedPairs(r)[i]) == PairString(r[i])
    {
      assert r[i] in r;
      PrintedPairIsPair(r[i]);
    }
    RdnLineStep(PrintedPairs(r));
    JoinCons(PairStrings(r), PLUS);
    if |r| > 1 {
      PrintedRdnLine(r[1..]);
      assert PrintedPairs(r)[1..] == PrintedPairs(r[1..]);
      assert PairStrings(r)[1..] == PairStrings(r[1..]);
      var a, b := PairString(r[0]), Join(PairStrings(r[1..]), PLUS);
      assert a + [PLUS] + b == a + ([PLUS] + b);
    }
  }

  function PrintedNames(rs: seq<Rdn>): (ts: seq<seq<PairText>>)
    ensures |ts| == |rs|
    ensures forall k :: 0 <= k < |rs| ==> ts[k] == PrintedPairs(rs[k])
  {
    seq(|rs|, k requires 0 <= k < |rs| => PrintedPairs(rs[k]))
  }

  function Commas(n: nat): (s: bytes)
    ensures |s| == n
  {
    seq(n, k => COMMA)
  }

  lemma PrintedNamesMean(rs: seq<Rdn>)
    requires forall k :: 0 <= k < |rs| ==> Typed(rs[k])
    ensures AreRdns(PrintedNames(rs)) && NameMeaning(PrintedNames(rs)) == LoweredRdns(rs)
  {
    hide PrintedPairs, AllPairs, Meanings, Typed;
    forall k | 0 <= k < |rs|
      ensures ArePairs(PrintedNames(rs)[k]) && Meanings(PrintedNames(rs)[k]) == LoweredAll(rs[k])
    {
      PrintedRdnLine(rs[k]);
    }
  }

  lemma {:induction false} PrintedNameLine(rs: seq<Rdn>)
    requires rs != [] && forall k :: 0 <= k < |rs| ==> Typed(rs[k])
    ensures NameLine(PrintedNames(rs), Commas(|rs| - 1)) == Join(Printed(rs), COMMA)
    decreases |rs|
  {
    hide RdnLine, PairStrings, Join, Typed, NameLine, PrintedNames, Commas, Printed;
    PrintedRdnLine(rs[0]);
    NameLineStep(PrintedNames(rs), Commas(|rs| - 1));
    JoinCons(Printed(rs), COMMA);
    PrintedStep(rs);
    if |rs| > 1 {
      PrintedNameLine(rs[1..]);
      var a, b := Printed(rs)[0], Join(Printed(rs[1..]), COMMA);
      assert a + [COMMA] + b == a + ([COMMA] + b);
    }
  }

  lemma PrintedStep(rs: seq<Rdn>)
    requires rs != []
    ensures PrintedNames(rs)[0] == PrintedPairs(rs[0]) && PrintedNames(rs)[1..] == PrintedNames(rs[1..])
    ensures Printed(rs)[0] == Join(PairStrings(rs[0]), PLUS) && Printed(rs)[1..] == Printed(rs[1..])
    ensures |rs| > 1 ==> Commas(|rs| - 1)[0] == COMMA && Commas(|rs| - 1)[1..] == Commas(|rs| - 2)
  {
    hide PrintedNames, Printed, Commas, PrintedPairs, PairStrings, Join;
    PrintedNamesStep(rs);
    PrintedJoinStep(rs);
    if |rs| > 1 {
      CommasStep(|rs| - 1);
    }
  }

  lemma PrintedNamesStep(rs: seq<Rdn>)
    requires rs != []
    ensures PrintedNames(rs)[0] == PrintedPairs(rs[0]) && PrintedNames(rs)[1..] == PrintedNames(rs[1..])
  {
    hide PrintedPairs;
  }

  lemma PrintedJoinStep(rs: seq<Rdn>)
    requires rs != []
    ensures Printed(rs)[0] == Join(PairStrings(rs[0]), PLUS) && Printed(rs)[1..] == Printed(rs[1..])
  {
    hide PairStrings, Join;
  }

  lemma CommasStep(n: nat)
    requires n > 0
    ensures Commas(n)[0] == COMMA && Commas(n)[1..] == Commas(n - 1)
  {
  }

  // ----- the pairs behind the sorted strings -----

  function InsertPair(a: Atv, r: Rdn): (s: Rdn)
    ensures multiset(s) == multiset(r) + multiset{a}
  {
    if r == [] || LexLeq(PairString(a), PairString(r[0])) then [a] + r
    else
      assert r == [r[0]] + r[1..];
      [r[0]] + InsertPair(a, r[1..])
  }

  function SortPairs(r: Rdn): (s: Rdn)
    ensures multiset(s) == multiset(r)
  {
    if r == [] then []
    else
      assert r == [r[0]] + r[1..];
      InsertPair(r[0], SortPairs(r[1..]))
  }

  lemma {:induction false} InsertPairStrings(a: Atv, r: Rdn)
    ensures PairStrings(InsertPair(a, r)) == Insert(PairString(a), PairStrings(r))
  {
    hide PairString, LexLeq;
    if r == [] {
      assert PairStrings([a][1..]) == [];
    } else if LexLeq(PairString(a), PairString(r[0])) {
      assert ([a] + r)[1..] == r;
    } else {
      InsertPairStrings(a, r[1..]);
      assert InsertPair(a, r)[1..] == InsertPair(a, r[1..]);
      assert PairStrings(r)[1..] == PairStrings(r[1..]);
    }
  }

  lemma {:induction false} SortPairStrings(r: Rdn)
    ensures PairStrings(SortPairs(r)) == Sort(PairStrings(r))
  {
    if r != [] {
      SortPairStrings(r[1..]);
      InsertPairStrings(r[0], SortPairs(r[1..]));
      assert PairStrings(r)[1..] == PairStrings(r[1..]);
    }
  }

  // ----- the round trip -----

  /** Every RDN has a pair, and every pair a type. */
  predicate WellFormed(d: Dn) { forall k :: 0 <= k < |d.rdns| ==> Typed(d.rdns[k]) }

  /** The RDN a printed RDN is read back as. */
  function CanonicalRdn(r: Rdn): Rdn { LoweredAll(SortPairs(r)) }

  function Canonical(d: Dn): Dn {
    Dn(seq(|d.rdns|, i requires 0 <= i < |d.rdns| => CanonicalRdn(d.rdns[i])), 0)
  }

  lemma KeyOfLowered(r: Rdn, fold: bool)
    ensures Keys(LoweredAll(r), fold) == Keys(r, fold)
  {
    forall i | 0 <= i < |r| ensures Key(Lowered(r[i]), fold) == Key(r[i], fold) {
      LowerTwice(r[i].typ);
    }
  }

  lemma SameBagSameKeys(r: Rdn, s: Rdn, fold: bool)
    requires multiset(r) == multiset(s)
    ensures SameRdn(r, s, fold)
  {
    var f := (a: Atv) => Key(a, fold);
    MapBag(f, r, s);
    assert Map(f, r) == Keys(r, fold) && Map(f, s) == Keys(s, fold);
  }

  lemma CanonicalRdnIsSame(r: Rdn)
    ensures SameRdn(CanonicalRdn(r), r, false)
    ensures Typed(r) ==> Typed(CanonicalRdn(r)) && Typed(SortPairs(r))
  {
    var s := SortPairs(r);
    KeyOfLowered(s, false);
    SameBagSameKeys(s, r, false);
    if Typed(r) {
      assert |multiset(s)| == |multiset(r)|;
      forall a | a in s ensures a.typ != [] {
        assert a in multiset(r);
      }
      forall a | a in CanonicalRdn(r) ensures a.typ != [] {
        var i :| 0 <= i < |s| && CanonicalRdn(r)[i] == a;
        assert s[i] in s;
      }
    }
  }

  lemma {:induction false} LoweredStrings(r: Rdn)
    ensures PairStrings(LoweredAll(r)) == PairStrings(r)
  {
    if r != [] {
      LoweredStrings(r[1..]);
      LowerTwice(r[0].typ);
      assert LoweredAll(r)[1..] == LoweredAll(r[1..]);
    }
  }

  /** Printing again changes nothing. */
  lemma CanonicalRdnPrintsTheSame(r: Rdn)
    ensures RdnString(CanonicalRdn(r)) == RdnString(r)
    ensures Join(PairStrings(SortPairs(r)), PLUS) == RdnString(r)
  {
    LoweredStrings(SortPairs(r));
    SortPairStrings(r);
    SortSorts(PairStrings(r));
    SortKeepsSorted(Sort(PairStrings(r)));
  }

  function SortedRdns(rs: seq<Rdn>): (s: seq<Rdn>)
    ensures |s| == |rs|
    ensures forall i :: 0 <= i < |rs| ==> s[i] == SortPairs(rs[i])
  {
    seq(|rs|, i requires 0 <= i < |rs| => SortPairs(rs[i]))
  }

  lemma {:induction false} PrintedSorted(rs: seq<Rdn>)
    ensures Printed(SortedRdns(rs)) == RdnStrings(rs)
    ensures RdnStrings(LoweredRdns(SortedRdns(rs))) == RdnStrings(rs)
  {
    hide RdnString, Join;
    if rs != [] {
      PrintedSorted(rs[1..]);
      CanonicalRdnPrintsTheSame(rs[0]);
      assert SortedRdns(rs)[1..] == SortedRdns(rs[1..]);
      assert LoweredRdns(SortedRdns(rs))[1..] == LoweredRdns(SortedRdns(rs[1..]));
    }
  }

  lemma CanonicalIsSame(d: Dn)
    ensures Canonical(d).rdns == LoweredRdns(SortedRdns(d.rdns))
    ensures DnString(Canonical(d)) == DnString(d)
    ensures SameDn(Canonical(d), d, false)
    ensures WellFormed(d) ==> forall k :: 0 <= k < |d.rdns| ==> Typed(SortedRdns(d.rdns)[k])
  {
    var rs := SortedRdns(d.rdns);
    PrintedSorted(d.rdns);
    assert Canonical(d).rdns == LoweredRdns(rs);
    forall k | 0 <= k < |d.rdns|
      ensures SameRdn(Canonical(d).rdns[k], d.rdns[k], false)
      ensures WellFormed(d) ==> Typed(rs[k])
    {
      CanonicalRdnIsSame(d.rdns[k]);
    }
  }

  /** Reading a printed name. */
  lemma ParseOfPrinted(d: Dn)
    requires WellFormed(d)
    ensures Parse(DnString(d)) == Success(Canonical(d))
    ensures DnString(Canonical(d)) == DnString(d)
    ensures SameDn(Canonical(d), d, false)
  {
    CanonicalIsSame(d);
    hide SameDn, LoweredRdns, Scan, Finish, Canonical, Typed, Join;
    var rs, str := SortedRdns(d.rdns), DnString(d);
    if d.rdns == [] {
      JoinNothing(COMMA);
      assert Utf8.TrimSpace([]) == [];
      assert Canonical(d).rdns == [];
    } else {
      PrintedSorted(d.rdns);
      PrintedNamesMean(rs);
      PrintedNameLine(rs);
      CommasSeparate(|rs| - 1);
      ParseOfText(PrintedNames(rs), Commas(|rs| - 1));
    }
    CanonicalHasNoBoundary(d);
  }

  lemma CommasSeparate(n: nat)
    ensures AreSeparators(Commas(n))
  {
    assert ",;"[0] in ",;";
  }

  lemma CanonicalHasNoBoundary(d: Dn)
    ensures Canonical(d).boundary == 0
  {
  }

  /** Whatever is accepted has only complete pairs. */
  lemma {:induction false} ScanKeepsTyped(str: bytes, i: nat, st: Scanner)
    requires i <= |str| && st.start <= i && Scan(str, i, st).Success?
    requires (forall k :: 0 <= k < |st.rdns| ==> Typed(st.rdns[k])) && forall a :: a in st.rdn ==> a.typ != []
    ensures var end := Scan(str, i, st).value;
            (forall k :: 0 <= k < |end.rdns| ==> Typed(end.rdns[k])) && forall a :: a in end.rdn ==> a.typ != []
    decreases |str| - i
  {
    hide DecodeString, DecodeValue;
    if i < |str| {
      ScanKeepsTyped(str, i + 1, Step(str, i, st).value);
    }
  }

  lemma ParsedIsWellFormed(str: bytes)
    requires Parse(str).Success?
    ensures WellFormed(Parse(str).value)
  {
    hide Scan, DecodeValue, Utf8.TrimSpace, Finish;
    if Utf8.TrimSpace(str) != [] {
      ScanKeepsTyped(str, 0, INITIAL);
      FinishIsTyped(str, Scan(str, 0, INITIAL).value);
    }
  }

  lemma FinishIsTyped(str: bytes, st: Scanner)
    requires st.start <= |str| && Finish(str, st).Success?
    requires (forall k :: 0 <= k < |st.rdns| ==> Typed(st.rdns[k])) && forall a :: a in st.rdn ==> a.typ != []
    ensures WellFormed(Finish(str, st).value)
  {
    hide DecodeValue;
  }

  /**
    Printing and parsing gives an equal name back exactly for the names without empty RDNs and empty types;
    the octets of the values do not matter.
   */
  lemma PrintParseRoundTrip(d: Dn)
    ensures Parse(DnString(d)).Success? && SameDn(Parse(DnString(d)).value, d, false) <==> WellFormed(d)
  {
    if WellFormed(d) {
      ParseOfPrinted(d);
    } else if Parse(DnString(d)).Success? && SameDn(Parse(DnString(d)).value, d, false) {
      var e := Parse(DnString(d)).value;
      ParsedIsWellFormed(DnString(d));
      forall k | 0 <= k < |d.rdns| ensures Typed(d.rdns[k]) {
        SameKeepsTyped(e.rdns[k], d.rdns[k]);
      }
    }
  }

  lemma SameKeepsTyped(r: Rdn, s: Rdn)
    requires SameRdn(r, s, false) && Typed(r)
    ensures Typed(s)
  {
    assert |Bag(r, false)| == |r| && |Bag(s, false)| == |s|;
    forall a | a in s ensures a.typ != [] {
      var i :| 0 <= i < |s| && s[i] == a;
      assert Keys(s, false)[i] in Bag(r, false);
      var j :| 0 <= j < |r| && Keys(r, false)[j] == Keys(s, false)[i];
      assert r[j] in r;
      assert |Lower(a.typ)| == |Lower(r[j].typ)|;
    }
  }

  /** Printing what was read is a normal form: it is accepted and printed unchanged. */
  lemma PrintedFormIsFixed(str: bytes)
    requires Parse(str).Success?
    ensures var t := DnString(Parse(str).value);
            Parse(t).Success? && DnString(Parse(t).value) == t && SameDn(Parse(t).value, Parse(str).value, false)
  {
    ParsedIsWellFormed(str);
    ParseOfPrinted(Parse(str).value);
  }

  // ----- Ancestry -----

  datatype AncestryError = ZeroName | BadName(error: Error)

  /** Generation `i + 1` is the superior of generation `i`, and so an ancestor of it. */
  ghost predicate FollowsSuperior(anc: seq<Dn>, i: nat)
    requires i + 1 < |anc|
  {
    SameDn(anc[i + 1], SuperiorOf(anc[i]).name, false) && IsAncestor(anc[i + 1], anc[i], false)
  }

  /** Generation `i` of `anc` is `d` without its first `i` RDNs. */
  ghost predicate IsGeneration(anc: seq<Dn>, i: nat, d: Dn)
    requires i < |anc| && i <= |d.rdns|
  {
    anc[i].boundary == 0 && SameDn(anc[i], Dn(d.rdns[i..], 0), false)
  }

  /**
    The lineage of a name without boundary, leaf first: every generation is printed and read again.
    For well-formed names it is the chain of superiors, from the name itself up to its root.
   */
  method Ancestry(d: Dn) returns (anc: seq<Dn>, err: Option<AncestryError>)
    requires d.boundary == 0
    ensures d.rdns == [] <==> err == Some(ZeroName)
    ensures WellFormed(d) && d.rdns != [] ==>
              && err == None && |anc| == |d.rdns|
              && SameDn(anc[0], d, false)
              && (forall i :: 0 <= i < |anc| - 1 ==> FollowsSuperior(anc, i))
              && SameDn(anc[|anc| - 1], RootOf(d), false)
  {
    hide SameDn, Parse, DnString, FollowsSuperior, IsGeneration;
    anc, err := [], None;
    if |d.rdns| == 0 {
      return [], Some(ZeroName);
    }
    if |d.rdns| == 1 {
      SingleGeneration(d);
      return [d], None;
    }
    var i := 0;
    while i < |d.rdns| && err == None
      invariant 0 <= i <= |d.rdns|
      invariant err != Some(ZeroName)
      invariant WellFormed(d) ==> err == None
      invariant |anc| == i
      invariant WellFormed(d) ==> forall k :: 0 <= k < i ==> IsGeneration(anc, k, d)
    {
      var slice := Dn(d.rdns[i..], 0);
      var r := ParseDn(DnString(slice));
      var gen := Dn([], 0);
      if r.Success? {
        gen := r.value;
      } else {
        err := Some(BadName(r.error));
      }
      if WellFormed(d) {
        GenerationIsRead(d, i, anc);
      }
      ghost var before := anc;
      anc := anc + [gen];
      forall k | 0 <= k < i && WellFormed(d) ensures IsGeneration(anc, k, d) {
        SameGeneration(before, anc, k, d);
      }
      i := i + 1;
    }
    if WellFormed(d) {
      LineageOfGenerations(d, anc);
    }
  }

  lemma SingleGeneration(d: Dn)
    requires |d.rdns| == 1 && d.boundary == 0
    ensures SameDn(d, d, false) && SameDn(d, RootOf(d), false)
  {
  }

  lemma SameGeneration(anc: seq<Dn>, more: seq<Dn>, k: nat, d: Dn)
    requires k < |anc| && anc <= more && k <= |d.rdns|
    requires IsGeneration(anc, k, d)
    ensures IsGeneration(more, k, d)
  {
  }

  lemma GenerationIsRead(d: Dn, i: nat, anc: seq<Dn>)
    requires WellFormed(d) && i < |d.rdns| && |anc| == i
    ensures var r := Parse(DnString(Dn(d.rdns[i..], 0)));
            r.Success? && IsGeneration(anc + [r.value], i, d)
  {
    var slice := Dn(d.rdns[i..], 0);
    assert WellFormed(slice);
    ParseOfPrinted(slice);
  }

  lemma LineageOfGenerations(d: Dn, anc: seq<Dn>)
    requires |anc| == |d.rdns| > 0 && d.boundary == 0
    requires forall k :: 0 <= k < |anc| ==> IsGeneration(anc, k, d)
    ensures SameDn(anc[0], d, false)
    ensures forall i :: 0 <= i < |anc| - 1 ==> FollowsSuperior(anc, i)
    ensures SameDn(anc[|anc| - 1], RootOf(d), false)
  {
    var n := |d.rdns|;
    assert IsGeneration(anc, 0, d) && d.rdns[0..] == d.rdns;
    assert IsGeneration(anc, n - 1, d) && d.rdns[n - 1..] == [d.rdns[n - 1]];
    forall i | 0 <= i < |anc| - 1 ensures FollowsSuperior(anc, i) {
      LineageFollowsSuperior(d, anc, i);
    }
  }

  lemma LineageFollowsSuperior(d: Dn, anc: seq<Dn>, i: nat)
    requires d.boundary == 0 && |anc| == |d.rdns| && i + 1 < |anc|
    requires IsGeneration(anc, i, d) && IsGeneration(anc, i + 1, d)
    ensures FollowsSuperior(anc, i)
  {
    hide SameRdn;
    var a := anc[i];
    var s := Dn(a.rdns[1..], 0);
    SuffixesAgree(a, d.rdns[i..], 1, false);
    assert d.rdns[i..][1..] == d.rdns[i + 1..];
    SameDnIsEquivalence(s, Dn(d.rdns[i + 1..], 0), anc[i + 1], false);
    SameDnIsEquivalence(anc[i + 1], Dn(d.rdns[i + 1..], 0), s, false);
  }
}
