/** guide.go: the recursive-descent parser and the printer of search guide criteria (section 3.3.10 of RFC 4517). */
module Criteria {
  import opened Bytes
  import opened Wrappers
  import Utf8

  datatype Kind = Equality | Substrings | GreaterOrEqual | LessOrEqual | Approximate

  /** Criteria with the CHOICE items folded in; `Invalid` is invalidCriteriaItem. */
  datatype Criteria =
    | And(terms: seq<Criteria>)
    | Or(terms: seq<Criteria>)
    | Not(term: Criteria)
    | Item(kind: Kind, attr: bytes)
    | Invalid

  const DOLLAR: byte := 36
  const QUESTION: byte := 63
  const TRUE: bytes := [116, 114, 117, 101]
  const FALSE: bytes := [102, 97, 108, 115, 101]

  /** EQ, SUBSTR, GE, LE, APPROX. */
  function Name(k: Kind): bytes {
    match k
    case Equality => [69, 81]
    case Substrings => [83, 85, 66, 83, 84, 82]
    case GreaterOrEqual => [71, 69]
    case LessOrEqual => [76, 69]
    case Approximate => [65, 80, 80, 82, 79, 88]
  }

  // ----- what the parser computes -----

  /** The octet at `p`, 0 at the end. */
  function Peek(s: bytes, p: nat): byte { if p < |s| then s[p] else 0 }

  function Next(s: bytes, p: nat): nat { if p < |s| then p + 1 else p }

  /** First position from `p` on that holds `d`, or the end. */
  function Until(s: bytes, p: nat, d: byte): (q: nat)
    requires p <= |s|
    ensures p <= q <= |s|
    ensures forall k :: p <= k < q ==> s[k] != d
    ensures q < |s| ==> s[q] == d
    decreases |s| - p
  {
    if p == |s| || s[p] == d then p else Until(s, p + 1, d)
  }

  function MatchType(s: bytes, p: nat): (r: (Option<Kind>, nat))
    requires p <= |s|
    ensures p <= r.1 <= |s|
  {
    if At(s, p, Name(Equality)) then (Some(Equality), p + 2)
    else if At(s, p, Name(Substrings)) then (Some(Substrings), p + 6)
    else if At(s, p, Name(GreaterOrEqual)) then (Some(GreaterOrEqual), p + 2)
    else if At(s, p, Name(LessOrEqual)) then (Some(LessOrEqual), p + 2)
    else if At(s, p, Name(Approximate)) then (Some(Approximate), p + 6)
    else (None, p)
  }

  function ParseItem(s: bytes, p: nat): (r: (Criteria, nat))
    requires p <= |s|
    ensures p <= r.1 <= |s|
  {
    var q := Until(s, p, DOLLAR);
    var (kind, end) := MatchType(s, Next(s, q));
    (if kind.Some? then Item(kind.value, s[p..q]) else Invalid, end)
  }

  function ParseTerm(s: bytes, p: nat): (r: (Criteria, nat))
    requires p <= |s|
    ensures p <= r.1 <= |s|
    decreases |s| - p, 0
  {
    if Peek(s, p) == BANG && p < |s| then
      var (t, q) := ParseTerm(s, p + 1);
      (Not(t), q)
    else if Peek(s, p) == LPAREN && p < |s| then
      var (c, q) := ParseCriteria(s, p + 1);
      (c, Next(s, q))
    else if Peek(s, p) == QUESTION && p < |s| then
      if At(s, p + 1, TRUE) then (And([]), p + 5)
      else if At(s, p + 1, FALSE) then (Or([]), p + 6)
      else ParseItem(s, p + 1)
    else ParseItem(s, p)
  }

  /** Terms separated by ampersands. */
  function ParseAnds(s: bytes, p: nat): (r: (seq<Criteria>, nat))
    requires p <= |s|
    ensures p <= r.1 <= |s| && r.0 != []
    decreases |s| - p, 1
  {
    var (t, q) := ParseTerm(s, p);
    if Peek(s, q) == AMPERSAND && q < |s| then
      var (ts, end) := ParseAnds(s, q + 1);
      ([t] + ts, end)
    else ([t], q)
  }

  function CollapseAnd(ts: seq<Criteria>): Criteria
    requires ts != []
  {
    if |ts| == 1 then ts[0] else And(ts)
  }

  function CollapseOr(ts: seq<Criteria>): Criteria
    requires ts != []
  {
    if |ts| == 1 then ts[0] else Or(ts)
  }

  /** And-terms separated by vertical bars. */
  function ParseOrs(s: bytes, p: nat): (r: (seq<Criteria>, nat))
    requires p <= |s|
    ensures p <= r.1 <= |s| && r.0 != []
    decreases |s| - p, 2
  {
    var (ts, q) := ParseAnds(s, p);
    if Peek(s, q) == PIPE && q < |s| then
      var (us, end) := ParseOrs(s, q + 1);
      ([CollapseAnd(ts)] + us, end)
    else ([CollapseAnd(ts)], q)
  }

  function ParseCriteria(s: bytes, p: nat): (r: (Criteria, nat))
    requires p <= |s|
    ensures p <= r.1 <= |s|
    decreases |s| - p, 3
  {
    var (us, q) := ParseOrs(s, p);
    (CollapseOr(us), q)
  }

  /** What the loop over and-terms still has to read after `done`, from `q` on. */
  function AndsFrom(s: bytes, done: seq<Criteria>, q: nat): (seq<Criteria>, nat)
    requires q <= |s|
  {
    if Peek(s, q) == AMPERSAND && q < |s|
    then (done + ParseAnds(s, q + 1).0, ParseAnds(s, q + 1).1)
    else (done, q)
  }

  lemma AndsStart(s: bytes, p: nat)
    requires p <= |s|
    ensures var (t, q) := ParseTerm(s, p); ParseAnds(s, p) == AndsFrom(s, [t], q)
  {
  }

  lemma AndsStep(s: bytes, done: seq<Criteria>, q: nat)
    requires q < |s| && Peek(s, q) == AMPERSAND
    ensures var (t, r) := ParseTerm(s, q + 1); AndsFrom(s, done, q) == AndsFrom(s, done + [t], r)
  {
    hide ParseTerm, ParseAnds;
    AndsStart(s, q + 1);
    var (t, r) := ParseTerm(s, q + 1);
    if Peek(s, r) == AMPERSAND && r < |s| {
      var others := ParseAnds(s, r + 1).0;
      assert done + ([t] + others) == done + [t] + others;
    }
  }

  lemma AndsEnd(s: bytes, done: seq<Criteria>, q: nat)
    requires q <= |s| && Peek(s, q) != AMPERSAND
    ensures AndsFrom(s, done, q) == (done, q)
  {
  }

  /** newCriteriaParser followed by tokenizeCriteria, with the final position. */
  function Parse(input: bytes): (Criteria, nat) { ParseCriteria(Utf8.TrimSpace(input), 0) }

  // ----- criteriaParser -----

  class CriteriaParser {
    const input: bytes
    var pos: nat

    constructor (raw: bytes)
      ensures input == Utf8.TrimSpace(raw) && pos == 0
    {
      input := Utf8.TrimSpace(raw);
      pos := 0;
    }

    method NextByte() returns (ch: byte)
      requires pos <= |input|
      modifies this`pos
      ensures pos == Next(input, old(pos)) <= |input|
      ensures ch == Peek(input, old(pos))
    {
      if pos >= |input| {
        return 0;
      }
      ch := input[pos];
      pos := pos + 1;
    }

    function PeekByte(): byte
      reads this
    {
      Peek(input, pos)
    }

    method TokenizeUntil(d: byte) returns (text: bytes)
      requires pos <= |input|
      modifies this`pos
      ensures pos == Until(input, old(pos), d) && text == input[old(pos)..pos]
    {
      var start := pos;
      while pos < |input|
        invariant start <= pos <= |input|
        invariant Until(input, start, d) == Until(input, pos, d)
      {
        if input[pos] == d {
          return input[start..pos];
        }
        pos := pos + 1;
      }
      return input[start..pos];
    }

    method TokenizeMatchType() returns (kind: Option<Kind>)
      requires pos <= |input|
      modifies this`pos
      ensures (kind, pos) == MatchType(input, old(pos))
    {
      var ch := PeekByte();
      kind := None;
      if ch == 69 { // E
        if At(input, pos, Name(Equality)) {
          pos, kind := pos + 2, Some(Equality);
        }
      } else if ch == 83 { // S
        if At(input, pos, Name(Substrings)) {
          pos, kind := pos + 6, Some(Substrings);
        }
      } else if ch == 71 { // G
        if At(input, pos, Name(GreaterOrEqual)) {
          pos, kind := pos + 2, Some(GreaterOrEqual);
        }
      } else if ch == 76 { // L
        if At(input, pos, Name(LessOrEqual)) {
          pos, kind := pos + 2, Some(LessOrEqual);
        }
      } else if ch == 65 { // A
        if At(input, pos, Name(Approximate)) {
          pos, kind := pos + 6, Some(Approximate);
        }
      }
      FirstLetterDecides(input, old(pos));
    }

    method TokenizeTerm() returns (c: Criteria)
      requires pos <= |input|
      modifies this`pos
      ensures pos <= |input| && (c, pos) == ParseTerm(input, old(pos))
      decreases |input| - pos, 0
    {
      hide MatchType, ParseCriteria;
      var ch := PeekByte();
      if ch == BANG {
        var _ := NextByte();
        var t := TokenizeTerm();
        return Not(t);
      } else if ch == LPAREN {
        var _ := NextByte();
        c := TokenizeCriteria();
        var _ := NextByte();
        return;
      } else if ch == QUESTION {
        var _ := NextByte();
        if At(input, pos, TRUE) {
          pos := pos + 4;
          return And([]);
        } else if At(input, pos, FALSE) {
          pos := pos + 5;
          return Or([]);
        }
      }
      var attrType := TokenizeUntil(DOLLAR);
      var _ := NextByte();
      var matchType := TokenizeMatchType();
      c := if matchType.Some? then Item(matchType.value, attrType) else Invalid;
    }

    method TokenizeAndTerm() returns (c: Criteria)
      requires pos <= |input|
      modifies this`pos
      ensures pos <= |input|
      ensures var (ts, q) := ParseAnds(input, old(pos)); c == CollapseAnd(ts) && pos == q
      decreases |input| - pos, 1
    {
      hide ParseTerm, ParseAnds, AndsFrom;
      AndsStart(input, pos);
      var t := TokenizeTerm();
      var and := [t];
      while PeekByte() == AMPERSAND
        invariant old(pos) <= pos <= |input| && and != []
        invariant ParseAnds(input, old(pos)) == AndsFrom(input, and, pos)
        decreases |input| - pos
      {
        AndsStep(input, and, pos);
        var _ := NextByte();
        t := TokenizeTerm();
        and := and + [t];
      }
      AndsEnd(input, and, pos);
      if |and| == 1 {
        return and[0];
      }
      return And(and);
    }

    method TokenizeCriteria() returns (c: Criteria)
      requires pos <= |input|
      modifies this`pos
      ensures pos <= |input| && (c, pos) == ParseCriteria(input, old(pos))
      decreases |input| - pos, 2
    {
      hide ParseAnds;
      var t := TokenizeAndTerm();
      var ors := [t];
      while PeekByte() == PIPE
        invariant old(pos) <= pos <= |input| && ors != []
        invariant ParseOrs(input, old(pos)) ==
                    if Peek(input, pos) == PIPE && pos < |input|
                    then (ors + ParseOrs(input, pos + 1).0, ParseOrs(input, pos + 1).1)
                    else (ors, pos)
        decreases |input| - pos
      {
        var _ := NextByte();
        t := TokenizeAndTerm();
        assert ors + ([t] + (if Peek(input, pos) == PIPE && pos < |input| then ParseOrs(input, pos + 1).0 else []))
            == (ors + [t]) + (if Peek(input, pos) == PIPE && pos < |input| then ParseOrs(input, pos + 1).0 else []);
        ors := ors + [t];
      }
      if |ors| == 1 {
        return ors[0];
      }
      return Or(ors);
    }
  }

  lemma FirstLetterDecides(s: bytes, p: nat)
    requires p <= |s|
    ensures forall k :: At(s, p, Name(k)) ==> Peek(s, p) == Name(k)[0]
  {
    forall k | At(s, p, Name(k)) ensures Peek(s, p) == Name(k)[0] {
      assert s[p..p + |Name(k)|][0] == s[p];
    }
  }

  // ----- Valid -----

  /**
    What Valid asks of a tree: no invalid leaf. The attribute of an item is handed to a type switch that does not
    know the named slice types of the items, so nothing is asked of it.
   */
  predicate IsValid(c: Criteria) {
    match c
    case And(ts) => forall i :: 0 <= i < |ts| ==> IsValid(ts[i])
    case Or(ts) => forall i :: 0 <= i < |ts| ==> IsValid(ts[i])
    case Not(t) => IsValid(t)
    case Item(_, _) => true
    case Invalid => false
  }

  method Valid(c: Criteria) returns (ok: bool)
    ensures ok <==> IsValid(c)
    decreases c
  {
    match c
    case And(ts) => ok := AllValid(ts);
    case Or(ts) => ok := AllValid(ts);
    case Not(t) => ok := Valid(t);
    case Item(_, _) => ok := true;
    case Invalid => ok := false;
  }

  method AllValid(ts: seq<Criteria>) returns (ok: bool)
    ensures ok <==> forall i :: 0 <= i < |ts| ==> IsValid(ts[i])
    decreases ts
  {
    ok := true;
    var i := 0;
    while i < |ts| && ok
      invariant 0 <= i <= |ts|
      invariant ok <==> forall k :: 0 <= k < i ==> IsValid(ts[k])
    {
      ok := Valid(ts[i]);
      i := i + 1;
    }
  }

  // ----- literals -----

  lemma NameLiterals()
    ensures Name(Equality) == Ascii("EQ") && Name(Substrings) == Ascii("SUBSTR") && Name(GreaterOrEqual) == Ascii("GE")
    ensures Name(LessOrEqual) == Ascii("LE") && Name(Approximate) == Ascii("APPROX")
  {
  }

  lemma ConstantLiterals()
    ensures TRUE == Ascii("true") && FALSE == Ascii("false") && [DOLLAR] == Ascii("$") && [QUESTION] == Ascii("?")
  {
  }
}
