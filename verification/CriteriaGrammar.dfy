/**
  The criteria rule of section 3.3.10 of RFC 4517 against the parser: every derivable text is read back as
  its derivation says, exactly when its literals are spelled in the case the parser knows.
 */
module CriteriaGrammar {
  import opened Bytes
  import opened Wrappers
  import opened Criteria
  import Utf8

  // ----- derivations -----

  /** criteria = and-term *( BAR and-term ) */
  datatype CriteriaTree = LastOr(last: AndTree) | OrThen(first: AndTree, others: CriteriaTree)

  /** and-term = term *( AMPERSAND term ) */
  datatype AndTree = LastAnd(last: TermTree) | AndThen(first: TermTree, others: AndTree)

  /** term; string literals of the grammar match in any case (section 2.3 of RFC 5234), so the spelling is kept. */
  datatype TermTree =
    | Exclaim(term: TermTree)
    | Match(attr: bytes, kind: Kind, spelling: bytes)
    | Parens(inner: CriteriaTree)
    | Constant(value: bool, spelling: bytes)

  function ConstantName(v: bool): bytes { if v then TRUE else FALSE }

  /** Characters of an OID or a descriptor. */
  predicate IsAttrChar(c: byte) { IsAlnum(c) || c == HYPHEN || c == DOT }

  predicate IsAttr(a: bytes) { a != [] && forall i :: 0 <= i < |a| ==> IsAttrChar(a[i]) }

  /** The text a derivation stands for. */
  function CriteriaText(t: CriteriaTree): bytes {
    match t
    case LastOr(a) => AndText(a)
    case OrThen(a, others) => AndText(a) + [PIPE] + CriteriaText(others)
  }

  function AndText(t: AndTree): bytes {
    match t
    case LastAnd(a) => TermText(a)
    case AndThen(a, others) => TermText(a) + [AMPERSAND] + AndText(others)
  }

  function TermText(t: TermTree): bytes {
    match t
    case Exclaim(a) => [BANG] + TermText(a)
    case Match(attr, _, spelling) => attr + [DOLLAR] + spelling
    case Parens(c) => [LPAREN] + CriteriaText(c) + [RPAREN]
    case Constant(_, spelling) => [QUESTION] + spelling
  }

  /** Attribute types are well-formed and literals are spelled in some case. */
  predicate CriteriaDerives(t: CriteriaTree) {
    match t
    case LastOr(a) => AndDerives(a)
    case OrThen(a, others) => AndDerives(a) && CriteriaDerives(others)
  }

  predicate AndDerives(t: AndTree) {
    match t
    case LastAnd(a) => TermDerives(a)
    case AndThen(a, others) => TermDerives(a) && AndDerives(others)
  }

  predicate TermDerives(t: TermTree) {
    match t
    case Exclaim(a) => TermDerives(a)
    case Match(attr, kind, spelling) => IsAttr(attr) && Lower(spelling) == Lower(Name(kind))
    case Parens(c) => CriteriaDerives(c)
    case Constant(v, spelling) => Lower(spelling) == Lower(ConstantName(v))
  }

  /** Match types in upper case and constants in lower case. */
  predicate CriteriaInCase(t: CriteriaTree) {
    match t
    case LastOr(a) => AndInCase(a)
    case OrThen(a, others) => AndInCase(a) && CriteriaInCase(others)
  }

  predicate AndInCase(t: AndTree) {
    match t
    case LastAnd(a) => TermInCase(a)
    case AndThen(a, others) => TermInCase(a) && AndInCase(others)
  }

  predicate TermInCase(t: TermTree) {
    match t
    case Exclaim(a) => TermInCase(a)
    case Match(_, kind, spelling) => spelling == Name(kind)
    case Parens(c) => CriteriaInCase(c)
    case Constant(v, spelling) => spelling == ConstantName(v)
  }

  /** What a derivation means: the ampersand binds tighter than the bar, single operands stand for themselves. */
  function CriteriaMeaning(t: CriteriaTree): Criteria { CollapseOr(OrMeanings(t)) }

  function OrMeanings(t: CriteriaTree): (r: seq<Criteria>)
    ensures r != []
  {
    match t
    case LastOr(a) => [CollapseAnd(AndMeanings(a))]
    case OrThen(a, others) => [CollapseAnd(AndMeanings(a))] + OrMeanings(others)
  }

  function AndMeanings(t: AndTree): (r: seq<Criteria>)
    ensures r != []
  {
    match t
    case LastAnd(a) => [TermMeaning(a)]
    case AndThen(a, others) => [TermMeaning(a)] + AndMeanings(others)
  }

  function TermMeaning(t: TermTree): Criteria {
    match t
    case Exclaim(a) => Not(TermMeaning(a))
    case Match(attr, kind, _) => Item(kind, attr)
    case Parens(c) => CollapseOr(OrMeanings(c))
    case Constant(v, _) => if v then And([]) else Or([])
  }

  // ----- trees without a spoiled leaf -----

  predicate Sound(c: Criteria) {
    match c
    case And(ts) => forall t :: t in ts ==> Sound(t)
    case Or(ts) => forall t :: t in ts ==> Sound(t)
    case Not(t) => Sound(t)
    case Item(_, attr) => IsAttr(attr)
    case Invalid => false
  }

  predicate AllSound(ts: seq<Criteria>) { forall t :: t in ts ==> Sound(t) }

  lemma CollapseSound(ts: seq<Criteria>)
    requires ts != []
    ensures Sound(CollapseAnd(ts)) <==> AllSound(ts)
    ensures Sound(CollapseOr(ts)) <==> AllSound(ts)
  {
    if |ts| == 1 {
      assert ts[0] in ts;
    }
  }

  lemma AllSoundCons(t: Criteria, ts: seq<Criteria>)
    ensures AllSound([t] + ts) <==> Sound(t) && AllSound(ts)
  {
    if AllSound([t] + ts) {
      assert t in [t] + ts;
      assert forall u :: u in ts ==> u in [t] + ts;
    }
  }

  lemma AllSoundOne(t: Criteria)
    ensures AllSound([t]) <==> Sound(t)
  {
    assert t in [t];
  }

  lemma {:induction false} TermMeaningSound(t: TermTree)
    requires TermDerives(t)
    ensures Sound(TermMeaning(t))
  {
    match t
    case Exclaim(a) => TermMeaningSound(a);
    case Match(_, _, _) =>
    case Parens(c) => OrMeaningsSound(c);
      CollapseSound(OrMeanings(c));
    case Constant(_, _) =>
  }

  lemma {:induction false} AndMeaningsSound(t: AndTree)
    requires AndDerives(t)
    ensures AllSound(AndMeanings(t))
  {
    match t
    case LastAnd(a) => TermMeaningSound(a);
    case AndThen(a, others) =>
      TermMeaningSound(a);
      AndMeaningsSound(others);
  }

  lemma {:induction false} OrMeaningsSound(t: CriteriaTree)
    requires CriteriaDerives(t)
    ensures AllSound(OrMeanings(t))
  {
    match t
    case LastOr(a) =>
      AndMeaningsSound(a);
      CollapseSound(AndMeanings(a));
    case OrThen(a, others) =>
      AndMeaningsSound(a);
      CollapseSound(AndMeanings(a));
      OrMeaningsSound(others);
  }

  // ----- literals -----

  lemma MatchTypeInCase(s: bytes, p: nat, k: Kind)
    requires p <= |s| && At(s, p, Name(k))
    ensures MatchType(s, p) == (Some(k), p + |Name(k)|)
  {
    FirstLetterDecides(s, p);
  }

  lemma MatchTypeOutOfCase(s: bytes, p: nat, k: Kind, spelling: bytes)
    requires At(s, p, spelling) && Lower(spelling) == Lower(Name(k)) && spelling != Name(k)
    ensures MatchType(s, p).0 == None
  {
    FirstLetterDecides(s, p);
    assert |spelling| == |Lower(spelling)| == |Name(k)|;
    assert s[p] == s[p..p + |spelling|][0] == spelling[0];
    assert LowerByte(spelling[0]) == Lower(spelling)[0] == LowerByte(Name(k)[0]);
    assert !At(s, p, Name(k));
  }

  lemma UntilIs(s: bytes, p: nat, q: nat, d: byte)
    requires p <= q <= |s| && (q < |s| ==> s[q] == d) && forall k :: p <= k < q ==> s[k] != d
    ensures Until(s, p, d) == q
  {
  }

  /** What may follow a term inside a derivation. */
  predicate EndsTerm(s: bytes, q: nat) {
    q == |s| || (q < |s| && (s[q] == AMPERSAND || s[q] == PIPE || s[q] == RPAREN))
  }

  predicate EndsAnd(s: bytes, q: nat) { q == |s| || (q < |s| && (s[q] == PIPE || s[q] == RPAREN)) }

  predicate EndsCriteria(s: bytes, q: nat) { q == |s| || (q < |s| && s[q] == RPAREN) }

  // ----- terms -----

  /** The result and position agree with the derivation if the literals are in case; otherwise a leaf is spoiled. */
  ghost predicate Reads(t: Criteria, q: nat, inCase: bool, meaning: Criteria, end: nat) {
    (inCase ==> t == meaning && q == end) && (!inCase ==> !Sound(t))
  }

  ghost predicate ReadsAll(ts: seq<Criteria>, q: nat, inCase: bool, meanings: seq<Criteria>, end: nat) {
    (inCase ==> ts == meanings && q == end) && (!inCase ==> !AllSound(ts))
  }

  /** An attribute type and its dollar sign, found in the text. */
  lemma AttributeAt(s: bytes, p: nat, attr: bytes, spelling: bytes)
    requires IsAttr(attr) && At(s, p, attr + [DOLLAR] + spelling)
    ensures var q := p + |attr|;
            && q < |s| && s[q] == DOLLAR && IsAttrChar(s[p]) && s[p..q] == attr
            && Until(s, p, DOLLAR) == q && At(s, q + 1, spelling)
  {
    hide Until;
    var n := |attr|;
    assert attr + [DOLLAR] + spelling == attr + ([DOLLAR] + spelling);
    AtConcat(s, p, attr, [DOLLAR] + spelling);
    AtConcat(s, p + n, [DOLLAR], spelling);
    assert s[p] == s[p..p + n][0] == attr[0];
    assert s[p + n] == s[p + n..p + n + 1][0] == DOLLAR;
    forall k | p <= k < p + n ensures s[k] != DOLLAR {
      assert s[k] == s[p..p + n][k - p] == attr[k - p];
    }
    UntilIs(s, p, p + n, DOLLAR);
  }

  lemma ReadMatch(s: bytes, p: nat, t: TermTree)
    requires t.Match? && TermDerives(t) && At(s, p, TermText(t))
    ensures var (c, q) := ParseTerm(s, p); Reads(c, q, TermInCase(t), TermMeaning(t), p + |TermText(t)|)
  {
    hide MatchType, Until;
    var n := |t.attr|;
    AttributeAt(s, p, t.attr, t.spelling);
    if TermInCase(t) {
      MatchTypeInCase(s, p + n + 1, t.kind);
    } else {
      MatchTypeOutOfCase(s, p + n + 1, t.kind, t.spelling);
    }
  }

  lemma ReadConstant(s: bytes, p: nat, t: TermTree)
    requires t.Constant? && TermDerives(t) && At(s, p, TermText(t)) && EndsTerm(s, p + |TermText(t)|)
    ensures var (c, q) := ParseTerm(s, p); Reads(c, q, TermInCase(t), TermMeaning(t), p + |TermText(t)|)
  {
    hide ParseItem;
    var name, n := t.spelling, |t.spelling|;
    AtConcat(s, p, [QUESTION], name);
    assert s[p] == s[p..p + 1][0] == QUESTION;
    var v := ConstantName(t.value);
    assert |name| == |Lower(name)| == |v|;
    assert s[p + 1] == s[p + 1..p + 1 + n][0] == name[0];
    assert LowerByte(name[0]) == Lower(name)[0] == LowerByte(v[0]);
    FirstOfConstant(s, p + 1);
    if name != v {
      assert !At(s, p + 1, v);
      forall k | p + 1 <= k < p + 1 + n ensures s[k] != DOLLAR {
        assert s[k] == s[p + 1..p + 1 + n][k - p - 1] == name[k - p - 1];
        assert LowerByte(name[k - p - 1]) == Lower(name)[k - p - 1] == LowerByte(v[k - p - 1]);
      }
      ReadMisspelled(s, p + 1, n);
    }
  }

  lemma FirstOfConstant(s: bytes, p: nat)
    ensures At(s, p, TRUE) ==> s[p] == 116
    ensures At(s, p, FALSE) ==> s[p] == 102
  {
    if At(s, p, TRUE) {
      assert s[p..p + 4][0] == s[p];
    }
    if At(s, p, FALSE) {
      assert s[p..p + 5][0] == s[p];
    }
  }

  /** A constant in the wrong case is taken for an attribute type and swallows what follows. */
  lemma ReadMisspelled(s: bytes, p: nat, n: nat)
    requires p + n <= |s| && EndsTerm(s, p + n)
    requires forall k :: p <= k < p + n ==> s[k] != DOLLAR
    ensures !Sound(ParseItem(s, p).0)
  {
    hide MatchType;
    var q := Until(s, p, DOLLAR);
    if p + n < |s| {
      assert q > p + n;
      assert s[p..q][n] == s[p + n] && !IsAttrChar(s[p + n]);
    } else {
      NoMatchTypeAtEnd(s);
    }
  }

  lemma NoMatchTypeAtEnd(s: bytes)
    ensures MatchType(s, |s|).0 == None
  {
  }

  lemma {:induction false} ReadTerm(s: bytes, p: nat, t: TermTree)
    requires TermDerives(t) && At(s, p, TermText(t)) && EndsTerm(s, p + |TermText(t)|)
    ensures var (c, q) := ParseTerm(s, p); Reads(c, q, TermInCase(t), TermMeaning(t), p + |TermText(t)|)
    decreases t
  {
    hide ParseItem, ParseCriteria;
    match t
    case Exclaim(a) =>
      AtConcat(s, p, [BANG], TermText(a));
      assert s[p] == s[p..p + 1][0] == BANG;
      ReadTerm(s, p + 1, a);
    case Match(_, _, _) =>
      ReadMatch(s, p, t);
    case Constant(_, _) =>
      ReadConstant(s, p, t);
    case Parens(c) =>
      var text := CriteriaText(c);
      assert [LPAREN] + text + [RPAREN] == [LPAREN] + (text + [RPAREN]);
      AtConcat(s, p, [LPAREN], text + [RPAREN]);
      AtConcat(s, p + 1, text, [RPAREN]);
      assert s[p] == s[p..p + 1][0] == LPAREN;
      var q := p + 1 + |text|;
      assert s[q] == s[q..q + 1][0] == RPAREN;
      ReadCriteria(s, p + 1, c);
      hide ParseTerm;
      TermInParens(s, p);
  }

  lemma TermInParens(s: bytes, p: nat)
    requires p < |s| && s[p] == LPAREN
    ensures ParseTerm(s, p) == (ParseCriteria(s, p + 1).0, Next(s, ParseCriteria(s, p + 1).1))
  {
  }

  lemma AndsUnfold(s: bytes, p: nat)
    requires p <= |s|
    ensures var (t, q) := ParseTerm(s, p);
            ParseAnds(s, p) == if Peek(s, q) == AMPERSAND && q < |s|
                               then ([t] + ParseAnds(s, q + 1).0, ParseAnds(s, q + 1).1) else ([t], q)
  {
  }

  lemma OrsUnfold(s: bytes, p: nat)
    requires p <= |s|
    ensures var (ts, q) := ParseAnds(s, p);
            ParseOrs(s, p) == if Peek(s, q) == PIPE && q < |s|
                              then ([CollapseAnd(ts)] + ParseOrs(s, q + 1).0, ParseOrs(s, q + 1).1)
                              else ([CollapseAnd(ts)], q)
  {
  }

  lemma {:induction false} ReadAnds(s: bytes, p: nat, t: AndTree)
    requires AndDerives(t) && At(s, p, AndText(t)) && EndsAnd(s, p + |AndText(t)|)
    ensures var (ts, q) := ParseAnds(s, p); ReadsAll(ts, q, AndInCase(t), AndMeanings(t), p + |AndText(t)|)
    decreases t
  {
    hide ParseTerm, ParseAnds, TermText, TermInCase, TermMeaning, TermDerives, Sound, AllSound;
    AndsUnfold(s, p);
    var (c, q) := ParseTerm(s, p);
    if t.LastAnd? {
      ReadTerm(s, p, t.last);
    } else {
      var text, rest := TermText(t.first), AndText(t.others);
      assert text + [AMPERSAND] + rest == text + ([AMPERSAND] + rest);
      AtConcat(s, p, text, [AMPERSAND] + rest);
      var m := p + |text|;
      AtConcat(s, m, [AMPERSAND], rest);
      assert s[m] == s[m..m + 1][0] == AMPERSAND;
      ReadTerm(s, p, t.first);
      ReadAnds(s, m + 1, t.others);
    }
    if Peek(s, q) == AMPERSAND && q < |s| {
      AllSoundCons(c, ParseAnds(s, q + 1).0);
    } else {
      AllSoundOne(c);
    }
  }

  lemma {:induction false} ReadOrs(s: bytes, p: nat, t: CriteriaTree)
    requires CriteriaDerives(t) && At(s, p, CriteriaText(t)) && EndsCriteria(s, p + |CriteriaText(t)|)
    ensures var (us, q) := ParseOrs(s, p); ReadsAll(us, q, CriteriaInCase(t), OrMeanings(t), p + |CriteriaText(t)|)
    decreases t, 0
  {
    hide ParseAnds, ParseOrs, AndText, AndInCase, AndMeanings, AndDerives, Sound, AllSound, CollapseAnd;
    OrsUnfold(s, p);
    var (ts, q) := ParseAnds(s, p);
    CollapseSound(ts);
    var c := CollapseAnd(ts);
    if t.LastOr? {
      ReadAnds(s, p, t.last);
    } else {
      var text, rest := AndText(t.first), CriteriaText(t.others);
      assert text + [PIPE] + rest == text + ([PIPE] + rest);
      AtConcat(s, p, text, [PIPE] + rest);
      var m := p + |text|;
      AtConcat(s, m, [PIPE], rest);
      assert s[m] == s[m..m + 1][0] == PIPE;
      ReadAnds(s, p, t.first);
      ReadOrs(s, m + 1, t.others);
    }
    if Peek(s, q) == PIPE && q < |s| {
      AllSoundCons(c, ParseOrs(s, q + 1).0);
    } else {
      AllSoundOne(c);
    }
  }

  lemma {:induction false} ReadCriteria(s: bytes, p: nat, t: CriteriaTree)
    requires CriteriaDerives(t) && At(s, p, CriteriaText(t)) && EndsCriteria(s, p + |CriteriaText(t)|)
    ensures var (c, q) := ParseCriteria(s, p); Reads(c, q, CriteriaInCase(t), CriteriaMeaning(t), p + |CriteriaText(t)|)
    decreases t, 1
  {
    hide ParseOrs, CriteriaText, CriteriaDerives, CriteriaInCase, OrMeanings, Sound, AllSound;
    ReadOrs(s, p, t);
    CollapseSound(ParseOrs(s, p).0);
  }

  // ----- whole inputs -----

  predicate Printable(c: byte) { 32 < c < 128 }

  predicate Bounded(s: bytes) { s != [] && Printable(s[0]) && Printable(s[|s| - 1]) }

  lemma SpellingIsBounded(spelling: bytes, name: bytes)
    requires Lower(spelling) == Lower(name) && Bounded(name)
    ensures Bounded(spelling)
  {
    assert |spelling| == |Lower(spelling)| == |Lower(name)| == |name|;
    var n := |name| - 1;
    assert LowerByte(spelling[0]) == Lower(spelling)[0] == LowerByte(name[0]);
    assert LowerByte(spelling[n]) == Lower(spelling)[n] == LowerByte(name[n]);
  }

  lemma {:induction false} TermIsBounded(t: TermTree)
    requires TermDerives(t)
    ensures Bounded(TermText(t))
  {
    hide Lower;
    match t
    case Exclaim(a) => TermIsBounded(a);
    case Match(attr, kind, spelling) => SpellingIsBounded(spelling, Name(kind));
    case Parens(c) => CriteriaIsBounded(c);
    case Constant(v, spelling) => SpellingIsBounded(spelling, ConstantName(v));
  }

  lemma {:induction false} AndIsBounded(t: AndTree)
    requires AndDerives(t)
    ensures Bounded(AndText(t))
  {
    match t
    case LastAnd(a) => TermIsBounded(a);
    case AndThen(a, others) =>
      TermIsBounded(a);
      AndIsBounded(others);
  }

  lemma {:induction false} CriteriaIsBounded(t: CriteriaTree)
    requires CriteriaDerives(t)
    ensures Bounded(CriteriaText(t))
  {
    match t
    case LastOr(a) => AndIsBounded(a);
    case OrThen(a, others) =>
      AndIsBounded(a);
      CriteriaIsBounded(others);
  }

  /**
    For every derivation of the grammar: the parser returns its meaning exactly when every literal is in case,
    and then the whole text is consumed.
   */
  lemma ParserMeetsGrammar(t: CriteriaTree)
    requires CriteriaDerives(t)
    ensures Parse(CriteriaText(t)).0 == CriteriaMeaning(t) <==> CriteriaInCase(t)
    ensures CriteriaInCase(t) ==> Parse(CriteriaText(t)).1 == |CriteriaText(t)|
  {
    var s := CriteriaText(t);
    CriteriaIsBounded(t);
    Utf8.TrimKeeps(s);
    assert s[0..|s|] == s;
    ReadCriteria(s, 0, t);
    OrMeaningsSound(t);
    CollapseSound(OrMeanings(t));
    hide ParseCriteria, CriteriaText, OrMeanings, CriteriaInCase;
  }

  // ----- printing -----

  /** String. */
  function Text(c: Criteria): bytes {
    match c
    case And(ts) => if ts == [] then [QUESTION] + TRUE else Enclose(Join(Texts(ts), AMPERSAND), |ts| > 1)
    case Or(ts) => if ts == [] then [QUESTION] + FALSE else Enclose(Join(Texts(ts), PIPE), |ts| > 1)
    case Not(t) => [BANG] + Text(t)
    case Item(kind, attr) => attr + [DOLLAR] + Name(kind)
    case Invalid => []
  }

  function Texts(ts: seq<Criteria>): (r: seq<bytes>)
    ensures |r| == |ts|
  {
    if ts == [] then [] else [Text(ts[0])] + Texts(ts[1..])
  }

  function Enclose(s: bytes, several: bool): bytes {
    if several then [LPAREN] + s + [RPAREN] else s
  }

  /** No conjunction or disjunction of one. */
  predicate Normal(c: Criteria) {
    match c
    case And(ts) => |ts| != 1 && forall t :: t in ts ==> Normal(t)
    case Or(ts) => |ts| != 1 && forall t :: t in ts ==> Normal(t)
    case Not(t) => Normal(t)
    case _ => true
  }

  /** The derivation of a printed tree. */
  function Derivation(c: Criteria): TermTree
    requires Normal(c) && Sound(c)
    decreases c, 0
  {
    match c
    case And(ts) =>
      if ts == [] then Constant(true, TRUE) else Parens(LastOr(AndDerivation(ts)))
    case Or(ts) =>
      if ts == [] then Constant(false, FALSE) else Parens(OrDerivation(ts))
    case Not(t) => Exclaim(Derivation(t))
    case Item(kind, attr) => Match(attr, kind, Name(kind))
  }

  function AndDerivation(ts: seq<Criteria>): AndTree
    requires ts != [] && forall t :: t in ts ==> Normal(t) && Sound(t)
    decreases ts, 1
  {
    if |ts| == 1 then LastAnd(Derivation(ts[0])) else AndThen(Derivation(ts[0]), AndDerivation(ts[1..]))
  }

  function OrDerivation(ts: seq<Criteria>): CriteriaTree
    requires ts != [] && forall t :: t in ts ==> Normal(t) && Sound(t)
    decreases ts, 1
  {
    var first := LastAnd(Derivation(ts[0]));
    if |ts| == 1 then LastOr(first) else OrThen(first, OrDerivation(ts[1..]))
  }

  lemma {:induction false} DerivationIsFaithful(c: Criteria)
    requires Normal(c) && Sound(c)
    ensures var d := Derivation(c);
            TermDerives(d) && TermInCase(d) && TermText(d) == Text(c) && TermMeaning(d) == c
    decreases c, 0
  {
    match c
    case And(ts) =>
      if ts != [] {
        AndDerivationIsFaithful(ts);
      }
    case Or(ts) =>
      if ts != [] {
        OrDerivationIsFaithful(ts);
      }
    case Not(t) => DerivationIsFaithful(t);
    case Item(_, _) =>
  }

  lemma {:induction false} AndDerivationIsFaithful(ts: seq<Criteria>)
    requires ts != [] && forall t :: t in ts ==> Normal(t) && Sound(t)
    ensures var d := AndDerivation(ts);
            AndDerives(d) && AndInCase(d) && AndText(d) == Join(Texts(ts), AMPERSAND) && AndMeanings(d) == ts
    decreases ts, 1
  {
    hide Text, TermText, TermMeaning, TermDerives, TermInCase, Normal, Sound, Join;
    DerivationIsFaithful(ts[0]);
    assert Texts(ts)[1..] == Texts(ts[1..]);
    JoinCons(Texts(ts), AMPERSAND);
    if |ts| > 1 {
      AndDerivationIsFaithful(ts[1..]);
      assert [ts[0]] + ts[1..] == ts;
    } else {
      assert [ts[0]] == ts;
    }
  }

  lemma {:induction false} OrDerivationIsFaithful(ts: seq<Criteria>)
    requires ts != [] && forall t :: t in ts ==> Normal(t) && Sound(t)
    ensures var d := OrDerivation(ts);
            CriteriaDerives(d) && CriteriaInCase(d) && CriteriaText(d) == Join(Texts(ts), PIPE) && OrMeanings(d) == ts
    decreases ts, 1
  {
    hide Text, TermText, TermMeaning, TermDerives, TermInCase, Normal, Sound, Join;
    DerivationIsFaithful(ts[0]);
    assert Texts(ts)[1..] == Texts(ts[1..]);
    JoinCons(Texts(ts), PIPE);
    if |ts| > 1 {
      OrDerivationIsFaithful(ts[1..]);
      assert [ts[0]] + ts[1..] == ts;
    } else {
      assert [ts[0]] == ts;
    }
  }

  lemma SingleTerm(d: TermTree)
    ensures var t := LastOr(LastAnd(d));
            && CriteriaText(t) == TermText(d)
            && CriteriaMeaning(t) == TermMeaning(d)
            && (CriteriaDerives(t) <==> TermDerives(d))
            && (CriteriaInCase(t) <==> TermInCase(d))
  {
    hide TermText, TermMeaning, TermDerives, TermInCase;
    assert OrMeanings(LastOr(LastAnd(d))) == [CollapseAnd(AndMeanings(LastAnd(d)))];
  }

  /** Printing a tree in normal form and reading it gives the tree back and leaves nothing unread. */
  lemma PrintParseRoundTrip(c: Criteria)
    requires Normal(c) && Sound(c)
    ensures Parse(Text(c)) == (c, |Text(c)|)
  {
    DerivationIsFaithful(c);
    hide *;
    SingleTerm(Derivation(c));
    ParserMeetsGrammar(LastOr(LastAnd(Derivation(c))));
  }

  lemma CollapseNormal(ts: seq<Criteria>)
    requires ts != [] && forall t :: t in ts ==> Normal(t)
    ensures Normal(CollapseAnd(ts)) && Normal(CollapseOr(ts))
  {
    if |ts| == 1 {
      assert ts[0] in ts;
    }
  }

  lemma {:induction false} TermIsNormal(s: bytes, p: nat)
    requires p <= |s|
    ensures Normal(ParseTerm(s, p).0)
    decreases |s| - p, 0
  {
    if p < |s| && s[p] == BANG {
      TermIsNormal(s, p + 1);
    } else if p < |s| && s[p] == LPAREN {
      OrsAreNormal(s, p + 1);
      CollapseNormal(ParseOrs(s, p + 1).0);
    }
  }

  lemma {:induction false} AndsAreNormal(s: bytes, p: nat)
    requires p <= |s|
    ensures forall t :: t in ParseAnds(s, p).0 ==> Normal(t)
    decreases |s| - p, 1
  {
    hide ParseTerm, ParseAnds, Normal;
    AndsUnfold(s, p);
    TermIsNormal(s, p);
    var q := ParseTerm(s, p).1;
    if Peek(s, q) == AMPERSAND && q < |s| {
      AndsAreNormal(s, q + 1);
    }
  }

  lemma {:induction false} OrsAreNormal(s: bytes, p: nat)
    requires p <= |s|
    ensures forall t :: t in ParseOrs(s, p).0 ==> Normal(t)
    decreases |s| - p, 2
  {
    hide ParseAnds, ParseOrs, Normal;
    OrsUnfold(s, p);
    AndsAreNormal(s, p);
    CollapseNormal(ParseAnds(s, p).0);
    var q := ParseAnds(s, p).1;
    if Peek(s, q) == PIPE && q < |s| {
      OrsAreNormal(s, q + 1);
    }
  }

  /**
    On any input whatsoever the parser stops inside the (trimmed) text with a tree in normal form; if no leaf of
    it is spoiled, printing and reading it again changes nothing.
   */
  lemma ParserBuildsNormalForms(input: bytes)
    ensures Parse(input).1 <= |Utf8.TrimSpace(input)|
    ensures var c := Parse(input).0; Normal(c) && (Sound(c) ==> Parse(Text(c)) == (c, |Text(c)|))
  {
    var s := Utf8.TrimSpace(input);
    OrsAreNormal(s, 0);
    CollapseNormal(ParseOrs(s, 0).0);
    var c := Parse(input).0;
    if Sound(c) {
      PrintParseRoundTrip(c);
    }
  }

  // ----- Valid -----

  /** Trees with proper attributes are valid. */
  lemma {:induction false} SoundIsValid(c: Criteria)
    requires Sound(c)
    ensures IsValid(c)
    decreases c
  {
    hide IsAttr;
    match c
    case And(ts) =>
      forall i | 0 <= i < |ts| ensures IsValid(ts[i]) {
        SoundIsValid(ts[i]);
      }
    case Or(ts) =>
      forall i | 0 <= i < |ts| ensures IsValid(ts[i]) {
        SoundIsValid(ts[i]);
      }
    case Not(t) => SoundIsValid(t);
    case Item(_, _) =>
  }

  /** The text `a$eq` is derivable, and no criteria are made of it. */
  lemma LowerCaseIsInvalid()
    ensures var t := LastOr(LastAnd(Match([97], Equality, [101, 113])));
            && CriteriaDerives(t) && CriteriaText(t) == [97, DOLLAR, 101, 113]
            && Parse(CriteriaText(t)).0 == Invalid
  {
    var s: bytes := [97, DOLLAR, 101, 113];
    Utf8.TrimKeeps(s);
    assert [97] + [DOLLAR] + [101, 113] == s;
    assert Until(s, 0, DOLLAR) == 1 && MatchType(s, 2) == (None, 2);
    assert ParseTerm(s, 0) == (Invalid, 2);
    AndsUnfold(s, 0);
    OrsUnfold(s, 0);
  }

  /** The text `$EQ` names no attribute at all, and the tree made of it passes for valid. */
  lemma EmptyAttributeIsValid()
    ensures var c := Parse([DOLLAR] + Name(Equality)).0; c == Item(Equality, []) && IsValid(c) && !Sound(c)
  {
    var s := [DOLLAR] + Name(Equality);
    Utf8.TrimKeeps(s);
    assert s == [DOLLAR, 69, 81];
    assert At(s, 1, Name(Equality));
    assert Until(s, 0, DOLLAR) == 0 && MatchType(s, 1) == (Some(Equality), 3);
    assert ParseTerm(s, 0) == (Item(Equality, s[0..0]), 3);
    AndsUnfold(s, 0);
    OrsUnfold(s, 0);
    assert CollapseAnd([Item(Equality, [])]) == Item(Equality, []);
  }
}
