/**
  subtree.go: refinements, the specification filters of RFC 3672, in their text form, and their translation to
  search filters (filter.go). No object identifier maps are registered, so names resolve to themselves.
 */
module Refinements {
  import opened Bytes
  import opened Wrappers
  import opened Oids
  import Utf8

  /** `Invalid` is invalidRefinement and `Nil` a nil interface. */
  datatype Refinement =
    | And(refs: seq<Refinement>)
    | Or(refs: seq<Refinement>)
    | Not(ref: Refinement)
    | Item(oid: bytes)
    | Invalid
    | Nil

  datatype Error = BadLength | BadRefinement | BadItem

  const ITEM: bytes := [105, 116, 101, 109, COLON] // item:
  const AND: bytes := [97, 110, 100, COLON] // and:
  const OR: bytes := [111, 114, COLON] // or:
  const NOT: bytes := [110, 111, 116, COLON] // not:

  /** No nil and no invalid refinement anywhere. */
  predicate IsComplete(r: Refinement) {
    match r
    case And(refs) => forall i :: 0 <= i < |refs| ==> IsComplete(refs[i])
    case Or(refs) => forall i :: 0 <= i < |refs| ==> IsComplete(refs[i])
    case Not(ref) => IsComplete(ref)
    case Item(_) => true
    case Invalid => false
    case Nil => false
  }

  // ----- String -----

  lemma KeywordLiterals()
    ensures ITEM == Ascii("item:") && AND == Ascii("and:") && OR == Ascii("or:") && NOT == Ascii("not:")
  {
  }

  function Braced(body: bytes): bytes { [LBRACE] + body + [RBRACE] }

  function Print(r: Refinement): bytes {
    match r
    case And(refs) => AND + Braced(PrintAll(refs))
    case Or(refs) => OR + Braced(PrintAll(refs))
    case Not(ref) => if ref.Nil? then [] else NOT + Print(ref)
    case Item(oid) => if oid == [] then [] else ITEM + oid
    case Invalid => []
    case Nil => []
  }

  /** The operands, separated by commas. */
  function PrintAll(refs: seq<Refinement>): bytes {
    if refs == [] then []
    else if |refs| == 1 then Print(refs[0])
    else Print(refs[0]) + [COMMA] + PrintAll(refs[1..])
  }

  // ----- splitRefinementParts -----

  /** Where the scan stands: nesting of braces, inside quotes, after a backslash. */
  datatype Mode = Mode(depth: nat, quoted: bool, escaped: bool)

  /** The mode after one character, and whether the character separates two parts. */
  function Advance(m: Mode, r: int): (Mode, bool) {
    if m.escaped then (m.(escaped := false), false)
    else if r == BSLASH && m.quoted then (m.(escaped := true), false)
    else if r == DQUOTE then (m.(quoted := !m.quoted), false)
    else if m.quoted then (m, false)
    else if r == LBRACE then (m.(depth := m.depth + 1), false)
    else if r == RBRACE then (m.(depth := if m.depth > 0 then m.depth - 1 else 0), false)
    else (m, r == COMMA && m.depth == 0)
  }

  /** A collected part: trimmed, and left out if nothing remains. */
  function Part(sb: bytes): seq<bytes> {
    var t := Utf8.TrimSpace(sb);
    if t == [] then [] else [t]
  }

  function SplitFrom(rest: bytes, sb: bytes, m: Mode): seq<bytes>
    decreases |rest|
  {
    if rest == [] then Part(sb)
    else
      var (r, n) := Utf8.DecodeRune(rest);
      var (m', cut) := Advance(m, r);
      if cut then Part(sb) + SplitFrom(rest[n..], [], m')
      else SplitFrom(rest[n..], sb + Utf8.EncodeRune(r), m')
  }

  const START := Mode(0, false, false)

  lemma SplitStep(rest: bytes, sb: bytes, m: Mode)
    requires rest != []
    ensures var (r, n) := Utf8.DecodeRune(rest); var (m', cut) := Advance(m, r);
            SplitFrom(rest, sb, m) == if cut then Part(sb) + SplitFrom(rest[n..], [], m')
                                      else SplitFrom(rest[n..], sb + Utf8.EncodeRune(r), m')
  {
  }

  lemma SplitNothing(sb: bytes, m: Mode)
    ensures SplitFrom([], sb, m) == Part(sb)
  {
  }

  method SplitRefinementParts(input: bytes) returns (parts: seq<bytes>)
    ensures parts == SplitFrom(input, [], START)
  {
    hide SplitFrom, Part, Utf8.DecodeRune, Utf8.EncodeRune;
    parts := [];
    var sb: bytes := [];
    var depth, inQuote, escape := 0, false, false;
    var rest := input;
    while |rest| > 0
      invariant depth >= 0
      invariant SplitFrom(input, [], START) == parts + SplitFrom(rest, sb, Mode(depth, inQuote, escape))
      decreases |rest|
    {
      SplitStep(rest, sb, Mode(depth, inQuote, escape));
      var (r, size) := NextRune(rest);
      rest := rest[size..];
      if escape {
        sb := sb + Utf8.EncodeRune(r);
        escape := false;
        continue;
      }
      if r == BSLASH && inQuote {
        escape := true;
        sb := sb + Utf8.EncodeRune(r);
        continue;
      }
      if r == DQUOTE {
        inQuote := !inQuote;
        sb := sb + Utf8.EncodeRune(r);
        continue;
      }
      if !inQuote {
        if r == LBRACE {
          depth := depth + 1;
        } else if r == RBRACE {
          if depth > 0 {
            depth := depth - 1;
          }
        }
      }
      if r == COMMA && depth == 0 && !inQuote {
        ghost var tail := SplitFrom(rest, [], Mode(depth, inQuote, escape));
        assert parts + (Part(sb) + tail) == parts + Part(sb) + tail;
        parts := parts + Part(sb);
        sb := [];
        continue;
      }
      sb := sb + Utf8.EncodeRune(r);
    }
    SplitNothing(sb, Mode(depth, inQuote, escape));
    parts := parts + Part(sb);
  }

  /** utf8.DecodeRune with its size in view. */
  function NextRune(b: bytes): (r: (int, nat))
    requires b != []
    ensures r == Utf8.DecodeRune(b) && 1 <= r.1 <= |b|
  {
    Utf8.DecodeRune(b)
  }

  // ----- colons, the measure of the recursion -----

  function Colons(s: bytes): nat { CountOf(s, COLON) }

  lemma ColonsOfRune(rest: bytes)
    requires rest != []
    ensures var (r, n) := Utf8.DecodeRune(rest);
            Colons(Utf8.EncodeRune(r)) + Colons(rest[n..]) <= Colons(rest)
  {
    hide CountOf;
    var (r, n) := NextRune(rest);
    assert rest == rest[..n] + rest[n..];
    CountConcat(rest[..n], rest[n..], COLON);
    var e := Utf8.EncodeRune(r);
    if |e| == 1 {
      if Utf8.Proper(rest) {
        Utf8.EncodeInvertsDecode(rest);
      }
      assert rest[..n] == e;
    } else {
      CountAbsent(e, COLON);
    }
  }

  lemma {:induction false} TrimLeftColons(b: bytes)
    ensures Colons(Utf8.TrimLeft(b)) <= Colons(b)
    decreases |b|
  {
    if b != [] && Utf8.IsSpace(Utf8.DecodeRune(b).0) {
      ColonsOfRune(b);
      TrimLeftColons(b[Utf8.DecodeRune(b).1..]);
    }
  }

  lemma TrimColons(b: bytes)
    ensures Colons(Utf8.TrimSpace(b)) <= Colons(b)
  {
    hide CountOf, Utf8.TrimLeft;
    TrimLeftColons(b);
    var l := Utf8.TrimLeft(b);
    var t := Utf8.TrimSpace(b);
    assert l == t + l[|t|..];
    CountConcat(t, l[|t|..], COLON);
  }

  lemma {:induction false} PartsHaveFewerColons(rest: bytes, sb: bytes, m: Mode)
    ensures forall p :: p in SplitFrom(rest, sb, m) ==> Colons(p) <= Colons(sb) + Colons(rest)
    decreases |rest|
  {
    hide SplitFrom, CountOf, Utf8.DecodeRune, Utf8.EncodeRune, Utf8.TrimSpace;
    TrimColons(sb);
    if rest == [] {
      SplitNothing(sb, m);
    } else {
      SplitStep(rest, sb, m);
      ColonsOfRune(rest);
      var (r, n) := NextRune(rest);
      var (m', cut) := Advance(m, r);
      CountNothing(COLON);
      if cut {
        PartsHaveFewerColons(rest[n..], [], m');
      } else {
        CountConcat(sb, Utf8.EncodeRune(r), COLON);
        PartsHaveFewerColons(rest[n..], sb + Utf8.EncodeRune(r), m');
      }
    }
  }

  // ----- parsing -----

  /** strings.TrimPrefix and strings.TrimSuffix. */
  function TrimPrefix(s: bytes, p: bytes): bytes { if p <= s then s[|p|..] else s }

  function TrimSuffix(s: bytes, c: byte): bytes { if s != [] && s[|s| - 1] == c then s[..|s| - 1] else s }

  /** What parseComplexRefinement splits: the text behind the keyword without its outer braces. */
  function Body(input: bytes, prefix: bytes): bytes {
    TrimSuffix(TrimPrefix(Utf8.TrimSpace(TrimPrefix(input, prefix)), [LBRACE]), RBRACE)
  }

  lemma BodyHasFewerColons(input: bytes, prefix: bytes)
    requires prefix <= input && COLON in prefix
    ensures Colons(Body(input, prefix)) < Colons(input)
    ensures Colons(input[|prefix|..]) < Colons(input)
  {
    hide CountOf, Utf8.TrimSpace;
    var a := input[|prefix|..];
    assert input == prefix + a;
    CountConcat(prefix, a, COLON);
    CountPresent(prefix, COLON);
    TrimColons(a);
    var t := Utf8.TrimSpace(a);
    var b := TrimPrefix(t, [LBRACE]);
    assert t == t[..|t| - |b|] + b;
    CountConcat(t[..|t| - |b|], b, COLON);
    var c := TrimSuffix(b, RBRACE);
    assert b == c + b[|c|..];
    CountConcat(c, b[|c|..], COLON);
  }

  /** subtreeRefinement. */
  function Parse(x: bytes): Result<Refinement, Error>
    decreases Colons(x), 0
  {
    var input := Utf8.TrimSpace(x);
    TrimColons(x);
    if x == [] then Failure(BadLength)
    else if ITEM <= input then
      if IsObjectClass(input[5..]) then Success(Item(input[5..])) else Failure(BadItem)
    else if AND <= input then
      BodyHasFewerColons(input, AND);
      var parts := SplitFrom(Body(input, AND), [], START);
      PartsHaveFewerColons(Body(input, AND), [], START);
      CountNothing(COLON);
      var refs :- ParseParts(parts, Colons(Body(input, AND)));
      Success(And(refs))
    else if OR <= input then
      BodyHasFewerColons(input, OR);
      var parts := SplitFrom(Body(input, OR), [], START);
      PartsHaveFewerColons(Body(input, OR), [], START);
      CountNothing(COLON);
      var refs :- ParseParts(parts, Colons(Body(input, OR)));
      Success(Or(refs))
    else if NOT <= input then
      BodyHasFewerColons(input, NOT);
      var ref :- Parse(input[4..]);
      Success(Not(ref))
    else Failure(BadRefinement)
  }

  function ParseParts(parts: seq<bytes>, most: nat): Result<seq<Refinement>, Error>
    requires forall p :: p in parts ==> Colons(p) <= most
    decreases most, 1 + |parts|
  {
    if parts == [] then Success([])
    else
      var r :- Parse(parts[0]);
      var rs :- ParseParts(parts[1..], most);
      Success([r] + rs)
  }

  method SubtreeRefinement(x: bytes) returns (r: Result<Refinement, Error>)
    ensures r == Parse(x)
    decreases Colons(x), 0
  {
    hide ParseParts, SplitFrom, Body, CountOf, IsObjectClass;
    if |x| < 1 {
      return Failure(BadLength);
    }
    var input := Utf8.TrimSpace(x);
    TrimColons(x);
    if ITEM <= input {
      r := if IsObjectClass(input[5..]) then Success(Item(input[5..])) else Failure(BadItem);
    } else if AND <= input {
      BodyHasFewerColons(input, AND);
      var refs := ParseComplexRefinement(input, AND);
      r := if refs.Success? then Success(And(refs.value)) else Failure(refs.error);
    } else if OR <= input {
      BodyHasFewerColons(input, OR);
      var refs := ParseComplexRefinement(input, OR);
      r := if refs.Success? then Success(Or(refs.value)) else Failure(refs.error);
    } else if NOT <= input {
      BodyHasFewerColons(input, NOT);
      var sub := SubtreeRefinement(input[4..]);
      r := if sub.Success? then Success(Not(sub.value)) else Failure(sub.error);
    } else {
      r := Failure(BadRefinement);
    }
  }

  lemma BodyPartsHaveFewerColons(b: bytes)
    ensures forall p :: p in SplitFrom(b, [], START) ==> Colons(p) <= Colons(b)
  {
    hide CountOf, SplitFrom;
    PartsHaveFewerColons(b, [], START);
    CountNothing(COLON);
  }

  method ParseComplexRefinement(input: bytes, prefix: bytes) returns (r: Result<seq<Refinement>, Error>)
    requires prefix <= input && COLON in prefix
    ensures (forall p :: p in SplitFrom(Body(input, prefix), [], START) ==> Colons(p) <= Colons(Body(input, prefix)))
         && r == ParseParts(SplitFrom(Body(input, prefix), [], START), Colons(Body(input, prefix)))
    decreases Colons(Body(input, prefix)), 1
  {
    hide Parse, SplitFrom, CountOf, Body;
    var body := Body(input, prefix);
    BodyPartsHaveFewerColons(body);
    var parts := SplitRefinementParts(body);
    var refs: seq<Refinement> := [];
    var i := 0;
    assert parts[0..] == parts;
    PrependNothing(ParseParts(parts, Colons(body)));
    while i < |parts|
      invariant 0 <= i <= |parts|
      invariant ParseParts(parts, Colons(body)) == Prepend(refs, ParseParts(parts[i..], Colons(body)))
    {
      assert parts[i] in parts;
      var sub := SubtreeRefinement(parts[i]);
      if sub.Failure? {
        return Failure(sub.error);
      }
      assert parts[i..][1..] == parts[i + 1..];
      PrependTwice(refs, [sub.value], ParseParts(parts[i + 1..], Colons(body)));
      refs := refs + [sub.value];
      i := i + 1;
    }
    assert parts[|parts|..] == [] && refs + [] == refs;
    return Success(refs);
  }

  // ----- Push -----

  /** What Push is handed: a text, a tree, or something it passes over. */
  datatype Argument = Text(x: bytes) | Tree(r: Refinement) | Other

  /** The operands that get in; the error of a text stays in force until the next text. */
  function Accepted(xs: seq<Argument>, failed: bool): seq<Refinement> {
    if xs == [] then []
    else
      match xs[0]
      case Text(x) =>
        var r := Parse(x);
        (if r.Success? then [r.value] else []) + Accepted(xs[1..], r.Failure?)
      case Tree(r) => (if failed then [] else [r]) + Accepted(xs[1..], failed)
      case Other => Accepted(xs[1..], failed)
  }

  /** The slice behind a RefinementAnd or RefinementOr. */
  class Operands {
    var refs: seq<Refinement>

    constructor ()
      ensures refs == []
    {
      refs := [];
    }

    method Push(xs: seq<Argument>)
      modifies this
      ensures refs == old(refs) + Accepted(xs, false)
    {
      hide Parse;
      var err := false;
      assert xs[0..] == xs;
      for i := 0 to |xs|
        invariant refs + Accepted(xs[i..], err) == old(refs) + Accepted(xs, false)
      {
        assert xs[i..][1..] == xs[i + 1..];
        ghost var before, tail := refs, xs[i + 1..];
        match xs[i]
        case Text(x) =>
          var r := SubtreeRefinement(x);
          err := r.Failure?;
          if r.Success? {
            assert before + ([r.value] + Accepted(tail, false)) == before + [r.value] + Accepted(tail, false);
            refs := refs + [r.value];
          }
        case Tree(r) =>
          if !err {
            assert before + ([r] + Accepted(tail, false)) == before + [r] + Accepted(tail, false);
            refs := refs + [r];
          }
        case Other =>
      }
      assert xs[|xs|..] == [];
    }
  }

  /** The operand an argument stands for. */
  function Meaning(x: Argument): Option<Refinement> {
    match x
    case Text(t) => if Parse(t).Success? then Some(Parse(t).value) else None
    case Tree(r) => Some(r)
    case Other => None
  }

  function Meanings(xs: seq<Argument>): seq<Refinement> {
    if xs == [] then [] else (if Meaning(xs[0]).Some? then [Meaning(xs[0]).value] else []) + Meanings(xs[1..])
  }

  /** A text that cannot be read stands somewhere before a tree, with no readable text between them. */
  predicate Blocks(xs: seq<Argument>, failed: bool) {
    if xs == [] then false
    else
      match xs[0]
      case Text(x) => Blocks(xs[1..], Parse(x).Failure?)
      case Tree(_) => failed || Blocks(xs[1..], failed)
      case Other => Blocks(xs[1..], failed)
  }

  /** Push appends every operand it is handed exactly when no unreadable text shadows a tree behind it. */
  lemma {:induction false} PushKeepsExactlyUnblocked(xs: seq<Argument>, failed: bool)
    ensures Accepted(xs, failed) == Meanings(xs) <==> !Blocks(xs, failed)
    ensures |Accepted(xs, failed)| <= |Meanings(xs)|
    ensures Blocks(xs, failed) ==> |Accepted(xs, failed)| < |Meanings(xs)|
  {
    hide Parse;
    if xs != [] {
      match xs[0]
      case Text(x) => PushKeepsExactlyUnblocked(xs[1..], Parse(x).Failure?);
      case Tree(_) => PushKeepsExactlyUnblocked(xs[1..], failed);
      case Other => PushKeepsExactlyUnblocked(xs[1..], failed);
    }
  }

  /** An empty text in front of a tree hides the tree. */
  lemma EmptyTextHidesTree(r: Refinement)
    ensures Accepted([Text([]), Tree(r)], false) == []
    ensures Meanings([Text([]), Tree(r)]) == [r]
  {
    var xs := [Text([]), Tree(r)];
    var none: seq<Argument> := [];
    EmptyIsRefused();
    hide Parse;
    assert xs[1..] == [Tree(r)] && [Tree(r)][1..] == none;
    assert Accepted([Tree(r)], true) == [] + Accepted(none, true);
    assert Meanings([Tree(r)]) == [r] + Meanings(none);
  }

  lemma EmptyIsRefused()
    ensures Parse([]).Failure?
  {
  }

  // ----- trees that have a text form -----

  predicate IsItemChar(c: byte) { IsAlnum(c) || c == HYPHEN || c == DOT }

  /** OBJECT-IDENTIFIER of appendix A of RFC 3672. */
  ghost predicate IsItem(x: bytes) {
    IsDescr(x) || exists arcs :: AreArcs(arcs) && arcs[1] <= MAX_INT && x == Dotted(arcs)
  }

  /** The parser takes every object identifier of the grammar. */
  lemma ItemIsTaken(x: bytes)
    requires IsItem(x)
    ensures x != [] && IsObjectClass(x) && forall i :: 0 <= i < |x| ==> IsItemChar(x[i])
  {
    hide Dotted, Decimal, IsLdapOid;
    if !IsDescr(x) {
      var arcs :| AreArcs(arcs) && arcs[1] <= MAX_INT && x == Dotted(arcs);
      LdapOidExactly(arcs);
      DottedShape(arcs);
      FirstIsDigit(arcs[0]);
    }
  }

  lemma FirstIsDigit(n: nat)
    ensures IsDigit(Decimal(n)[0])
  {
    hide Decimal, DecimalValue;
    DecimalShape(n);
  }

  ghost predicate WellFormed(r: Refinement) {
    match r
    case And(refs) => forall i :: 0 <= i < |refs| ==> WellFormed(refs[i])
    case Or(refs) => forall i :: 0 <= i < |refs| ==> WellFormed(refs[i])
    case Not(ref) => WellFormed(ref)
    case Item(oid) => IsItem(oid)
    case Invalid => false
    case Nil => false
  }

  /** Outside quotes, after no backslash. */
  function Plain(depth: nat): Mode { Mode(depth, false, false) }

  /** One ASCII character outside quotes that is neither a quote nor a separating comma. */
  lemma AsciiPasses(c: byte, rest: bytes, sb: bytes, depth: nat)
    requires c < 128 && c != DQUOTE && !(c == COMMA && depth == 0)
    ensures SplitFrom([c] + rest, sb, Plain(depth)) == SplitFrom(rest, sb + [c], Advance(Plain(depth), c).0)
  {
    hide SplitFrom;
    var s := [c] + rest;
    SplitStep(s, sb, Plain(depth));
    assert s[1..] == rest;
    assert Utf8.DecodeRune(s) == (c, 1);
  }

  predicate IsPlainText(x: bytes) {
    forall i :: 0 <= i < |x| ==> 32 < x[i] < 127 && x[i] !in {DQUOTE, LBRACE, RBRACE, COMMA}
  }

  lemma {:induction false} PlainPasses(x: bytes, rest: bytes, sb: bytes, depth: nat)
    requires IsPlainText(x)
    ensures SplitFrom(x + rest, sb, Plain(depth)) == SplitFrom(rest, sb + x, Plain(depth))
    decreases |x|
  {
    hide SplitFrom;
    if x == [] {
      assert x + rest == rest && sb + x == sb;
    } else {
      assert x + rest == [x[0]] + (x[1..] + rest);
      AsciiPasses(x[0], x[1..] + rest, sb, depth);
      PlainPasses(x[1..], rest, sb + [x[0]], depth);
      assert sb + [x[0]] + x[1..] == sb + x;
    }
  }

  lemma KeywordsArePlain()
    ensures IsPlainText(ITEM) && IsPlainText(AND) && IsPlainText(OR) && IsPlainText(NOT)
  {
  }

  lemma ItemsArePlain(x: bytes)
    requires IsItem(x)
    ensures IsPlainText(x) && x != []
  {
    ItemIsTaken(x);
  }

  function Keyword(r: Refinement): bytes { if r.And? then AND else OR }

  lemma ListText(r: Refinement)
    requires WellFormed(r) && (r.And? || r.Or?)
    ensures Print(r) == Keyword(r) + Braced(PrintAll(r.refs)) && IsPlainText(Keyword(r))
    ensures forall i :: 0 <= i < |r.refs| ==> WellFormed(r.refs[i])
  {
  }

  lemma NotText(r: Refinement)
    requires WellFormed(r) && r.Not?
    ensures Print(r) == NOT + Print(r.ref) && WellFormed(r.ref)
  {
  }

  lemma ItemText(r: Refinement)
    requires WellFormed(r) && !r.And? && !r.Or? && !r.Not?
    ensures r.Item? && Print(r) == ITEM + r.oid && IsItem(r.oid)
  {
  }

  /** The text of a tree is never cut, at any depth of braces. */
  lemma {:induction false} TextPasses(r: Refinement, rest: bytes, sb: bytes, depth: nat)
    requires WellFormed(r)
    ensures SplitFrom(Print(r) + rest, sb, Plain(depth)) == SplitFrom(rest, sb + Print(r), Plain(depth))
    decreases r, 0
  {
    hide SplitFrom, WellFormed, Print, IsPlainText, IsItem, Braced;
    KeywordsArePlain();
    if r.And? || r.Or? {
      ListPasses(r, rest, sb, depth);
    } else if r.Not? {
      NotText(r);
      PlainPasses(NOT, Print(r.ref) + rest, sb, depth);
      TextPasses(r.ref, rest, sb + NOT, depth);
      assert Print(r) + rest == NOT + (Print(r.ref) + rest);
      assert sb + Print(r) == sb + NOT + Print(r.ref);
    } else {
      ItemText(r);
      ItemsArePlain(r.oid);
      PlainPasses(ITEM, r.oid + rest, sb, depth);
      PlainPasses(r.oid, rest, sb + ITEM, depth);
      assert Print(r) + rest == ITEM + (r.oid + rest);
      assert sb + Print(r) == sb + ITEM + r.oid;
    }
  }

  lemma ListPasses(r: Refinement, rest: bytes, sb: bytes, depth: nat)
    requires WellFormed(r) && (r.And? || r.Or?)
    ensures SplitFrom(Print(r) + rest, sb, Plain(depth)) == SplitFrom(rest, sb + Print(r), Plain(depth))
    decreases r.refs, 1
  {
    hide SplitFrom, WellFormed, Print, IsPlainText;
    ListText(r);
    var k, p := Keyword(r), PrintAll(r.refs);
    PlainPasses(k, Braced(p) + rest, sb, depth);
    assert Print(r) + rest == k + (Braced(p) + rest);
    assert Braced(p) + rest == [LBRACE] + (p + ([RBRACE] + rest));
    AsciiPasses(LBRACE, p + ([RBRACE] + rest), sb + k, depth);
    AllPass(r.refs, [RBRACE] + rest, sb + k + [LBRACE], depth + 1);
    AsciiPasses(RBRACE, rest, sb + k + [LBRACE] + p, depth + 1);
    assert sb + k + [LBRACE] + p + [RBRACE] == sb + Print(r);
  }

  lemma AllStep(refs: seq<Refinement>)
    requires refs != []
    ensures PrintAll(refs) == if |refs| == 1 then Print(refs[0]) else Print(refs[0]) + [COMMA] + PrintAll(refs[1..])
  {
  }

  lemma {:induction false} AllPass(refs: seq<Refinement>, rest: bytes, sb: bytes, depth: nat)
    requires (forall i :: 0 <= i < |refs| ==> WellFormed(refs[i])) && depth > 0
    ensures SplitFrom(PrintAll(refs) + rest, sb, Plain(depth)) == SplitFrom(rest, sb + PrintAll(refs), Plain(depth))
    decreases refs, 0
  {
    hide SplitFrom, WellFormed, Print, PrintAll;
    if refs == [] {
      NothingPrinted();
      assert [] + rest == rest && sb + [] == sb;
    } else {
      AllStep(refs);
      if |refs| == 1 {
        TextPasses(refs[0], rest, sb, depth);
      } else {
        var p, q := Print(refs[0]), PrintAll(refs[1..]);
        TextPasses(refs[0], [COMMA] + (q + rest), sb, depth);
        AllPass(refs[1..], rest, sb + p + [COMMA], depth);
        CommaPasses(p, q, rest, sb, depth);
      }
    }
  }

  lemma CommaPasses(p: bytes, q: bytes, rest: bytes, sb: bytes, depth: nat)
    requires depth > 0
    requires SplitFrom(p + ([COMMA] + (q + rest)), sb, Plain(depth))
          == SplitFrom([COMMA] + (q + rest), sb + p, Plain(depth))
    requires SplitFrom(q + rest, sb + p + [COMMA], Plain(depth)) == SplitFrom(rest, sb + p + [COMMA] + q, Plain(depth))
    ensures SplitFrom(p + [COMMA] + q + rest, sb, Plain(depth)) == SplitFrom(rest, sb + (p + [COMMA] + q), Plain(depth))
  {
    hide SplitFrom;
    AsciiPasses(COMMA, q + rest, sb + p, depth);
    assert p + [COMMA] + q + rest == p + ([COMMA] + (q + rest));
    assert sb + p + [COMMA] + q == sb + (p + [COMMA] + q);
  }

  function Texts(refs: seq<Refinement>): (r: seq<bytes>)
    ensures |r| == |refs|
    ensures forall i :: 0 <= i < |refs| ==> r[i] == Print(refs[i])
  {
    seq(|refs|, i requires 0 <= i < |refs| => Print(refs[i]))
  }

  /** Texts begin with a letter and end with a letter, digit, hyphen, dot or brace. */
  lemma {:induction false} TextShape(r: Refinement)
    requires WellFormed(r)
    ensures var t := Print(r); t != [] && 32 < t[0] < 127 && 32 < t[|t| - 1] < 127
    decreases r
  {
    hide WellFormed, IsItem;
    if r.And? || r.Or? {
      ListText(r);
    } else if r.Not? {
      NotText(r);
      TextShape(r.ref);
    } else {
      ItemText(r);
      ItemsArePlain(r.oid);
    }
  }

  lemma PartIsText(r: Refinement)
    requires WellFormed(r)
    ensures Part(Print(r)) == [Print(r)] && Utf8.TrimSpace(Print(r)) == Print(r)
  {
    hide WellFormed, Print;
    TextShape(r);
    Utf8.TrimKeeps(Print(r));
  }

  /** Commas at depth zero cut the text of an operand list exactly between the operands. */
  lemma {:induction false} SplitRecoversOperands(refs: seq<Refinement>)
    requires forall i :: 0 <= i < |refs| ==> WellFormed(refs[i])
    ensures SplitFrom(PrintAll(refs), [], START) == Texts(refs)
  {
    hide *;
    if refs == [] {
      NothingPrinted();
      SplitNothing([], START);
    } else if |refs| == 1 {
      AllStep(refs);
      LastPart(refs[0]);
    } else {
      FirstPart(refs);
      SplitRecoversOperands(refs[1..]);
      assert Texts(refs) == [Print(refs[0])] + Texts(refs[1..]);
    }
  }

  lemma FirstPart(refs: seq<Refinement>)
    requires |refs| > 1 && WellFormed(refs[0])
    ensures SplitFrom(PrintAll(refs), [], START) == [Print(refs[0])] + SplitFrom(PrintAll(refs[1..]), [], START)
  {
    hide SplitFrom, WellFormed, Print, Part, PrintAll;
    AllStep(refs);
    var p, q := Print(refs[0]), PrintAll(refs[1..]);
    assert p + [COMMA] + q == p + ([COMMA] + q) && [] + p == p;
    TextPasses(refs[0], [COMMA] + q, [], 0);
    PartIsText(refs[0]);
    CommaCuts(q, p);
  }

  lemma LastPart(r: Refinement)
    requires WellFormed(r)
    ensures SplitFrom(Print(r), [], START) == [Print(r)]
  {
    hide SplitFrom, WellFormed, Print, Part;
    var p := Print(r);
    assert p + [] == p && [] + p == p;
    PartIsText(r);
    TextPasses(r, [], [], 0);
    SplitNothing(p, START);
  }

  lemma NothingPrinted()
    ensures PrintAll([]) == [] && Part([]) == []
  {
  }

  lemma CommaCuts(q: bytes, sb: bytes)
    ensures SplitFrom([COMMA] + q, sb, START) == Part(sb) + SplitFrom(q, [], START)
  {
    hide SplitFrom, Part;
    var s := [COMMA] + q;
    SplitStep(s, sb, START);
    assert s[1..] == q;
    assert Utf8.DecodeRune(s) == (COMMA, 1);
  }

  lemma BodyOfList(keyword: bytes, p: bytes)
    ensures Body(keyword + Braced(p), keyword) == p
  {
    hide Utf8.TrimSpace;
    var t := keyword + Braced(p);
    assert t[|keyword|..] == Braced(p);
    Utf8.TrimKeeps(Braced(p));
    assert Braced(p)[1..] == p + [RBRACE];
    assert (p + [RBRACE])[..|p|] == p;
  }

  lemma {:induction false} PartsComeBack(refs: seq<Refinement>, most: nat)
    requires forall i :: 0 <= i < |refs| ==> Parse(Print(refs[i])) == Success(refs[i])
    requires forall p :: p in Texts(refs) ==> Colons(p) <= most
    ensures ParseParts(Texts(refs), most) == Success(refs)
    decreases |refs|
  {
    hide Parse, Print, CountOf;
    if refs != [] {
      assert Texts(refs)[1..] == Texts(refs[1..]);
      PartsComeBack(refs[1..], most);
      assert refs == [refs[0]] + refs[1..];
    }
  }

  lemma ListComesBack(r: Refinement)
    requires WellFormed(r) && (r.And? || r.Or?)
    requires forall i :: 0 <= i < |r.refs| ==> Parse(Print(r.refs[i])) == Success(r.refs[i])
    ensures Parse(Print(r)) == Success(r)
  {
    hide WellFormed, Utf8.TrimSpace, SplitFrom, ParseParts, PrintAll, Body, CountOf, Braced;
    PartIsText(r);
    ListText(r);
    var k, p := Keyword(r), PrintAll(r.refs);
    BodyOfList(k, p);
    SplitRecoversOperands(r.refs);
    PartsHaveFewerColons(p, [], START);
    CountNothing(COLON);
    PartsComeBack(r.refs, Colons(p));
    hide Print;
    var t := Print(r);
    assert k <= t && t[..|k|] == k;
    assert t[0] == k[0];
  }

  lemma NotComesBack(r: Refinement)
    requires WellFormed(r) && r.Not? && Parse(Print(r.ref)) == Success(r.ref)
    ensures Parse(Print(r)) == Success(r)
  {
    hide WellFormed, Utf8.TrimSpace, SplitFrom, ParseParts, PrintAll, Body, CountOf, Braced;
    PartIsText(r);
    NotText(r);
    hide Print;
    var t := Print(r);
    assert NOT <= t && t[4..] == Print(r.ref);
    assert t[0] == NOT[0];
  }

  lemma ItemComesBack(r: Refinement)
    requires WellFormed(r) && r.Item?
    ensures Parse(Print(r)) == Success(r)
  {
    hide WellFormed, Utf8.TrimSpace, SplitFrom, ParseParts, PrintAll, Body, CountOf, Braced;
    PartIsText(r);
    ItemText(r);
    ItemIsTaken(r.oid);
    hide Print, IsItem, IsObjectClass;
    var t := Print(r);
    assert ITEM <= t && t[5..] == r.oid;
  }

  /** Every tree of object identifiers is read back from its text (appendix A of RFC 3672). */
  lemma {:induction false} PrintParseRoundTrip(r: Refinement)
    requires WellFormed(r)
    ensures Parse(Print(r)) == Success(r)
    decreases r
  {
    hide Parse, Print;
    if r.And? || r.Or? {
      forall i | 0 <= i < |r.refs| ensures Parse(Print(r.refs[i])) == Success(r.refs[i]) {
        PrintParseRoundTrip(r.refs[i]);
      }
      ListComesBack(r);
    } else if r.Not? {
      PrintParseRoundTrip(r.ref);
      NotComesBack(r);
    } else {
      ItemComesBack(r);
    }
  }
}
