/**
  filter.go: printing a filter and reading it back. The splitter recovers exactly the operands of an and/or,
  every kind of item is recognised again, and the only trees that do not come back are the ones with a short
  operand under "not", a matching rule that reads as the "dn" keyword, or a value with a bare special character.
 */
module FilterText {
  import opened Bytes
  import opened Wrappers
  import opened AssertionValue
  import opened Filters
  import opened Oids
  import SubstringText
  import Utf8

  // ----- trees that have a text form -----

  /** The alphabet of attribute descriptions (section 2.5 of RFC 4512). */
  predicate IsNameChar(c: byte) { IsAlnum(c) || c == HYPHEN || c == DOT || c == SEMI }

  predicate IsNameText(x: bytes) { forall i :: 0 <= i < |x| ==> IsNameChar(x[i]) }

  /** A name the parser takes. */
  predicate IsReadName(x: bytes) { x != [] && IsNameText(x) && CheckOids(x, []) }

  predicate IsReadRule(x: bytes) { IsNameText(x) && CheckOids([], x) }

  predicate IsValue(x: bytes) { IsAssertionText(Escape(x)) }

  /** A substring assertion in the form the parser builds. */
  predicate IsSubstringForm(subs: SubstringText.Substrings) {
    subs == SubstringText.Build(SubstringText.InitialOf(subs), SubstringText.FinalOf(subs), SubstringText.AnyOf(subs))
  }

  predicate SubstringsSurvive(subs: SubstringText.Substrings) {
    && SubstringText.Survives(SubstringText.InitialOf(subs), SubstringText.AnyOf(subs), SubstringText.FinalOf(subs))
    && NoParens(SubstringText.Print(subs))
  }

  /** A tree whose names the parser takes. */
  predicate IsReadable(f: Filter) {
    match f
    case And(fs) => forall i :: 0 <= i < |fs| ==> IsReadable(fs[i])
    case Or(fs) => forall i :: 0 <= i < |fs| ==> IsReadable(fs[i])
    case Not(g) => IsReadable(g)
    case Assertion(op, desc, value) => IsReadName(desc)
    case Present(desc) => IsReadName(desc)
    case Substrings(typ, subs) => IsReadName(typ) && IsSubstringForm(subs)
    case Extensible(rule, typ, value, dn) =>
      && (typ == [] || IsReadName(typ)) && (rule == [] || IsReadRule(rule)) && (typ != [] || rule != []) && value != []
    case Invalid => false
    case Nil => false
  }

  predicate NoParens(x: bytes) { LPAREN !in x && RPAREN !in x }

  /** The text of a value. */
  function ValueText(f: Filter): bytes {
    match f
    case Assertion(_, _, value) => Escape(value)
    case Present(_) => [STAR]
    case Substrings(_, subs) => SubstringText.Print(subs)
    case Extensible(_, _, value, _) => Escape(value)
    case _ => []
  }

  /** A well-formed tree without parentheses in its values. */
  predicate IsPlain(f: Filter) {
    match f
    case And(fs) => forall i :: 0 <= i < |fs| ==> IsPlain(fs[i])
    case Or(fs) => forall i :: 0 <= i < |fs| ==> IsPlain(fs[i])
    case Not(g) => IsPlain(g)
    case _ => IsReadable(f) && NoParens(ValueText(f))
  }

  const LOWER_KEY: bytes := [100, 110]
  const UPPER_KEY: bytes := [68, 78]

  /** The matching rule reads as the keyword that asks for DN attributes. */
  predicate IsAmbiguous(rule: bytes, typ: bytes, dn: bool) {
    if dn then typ != [] && rule == UPPER_KEY else rule == LOWER_KEY || rule == UPPER_KEY
  }

  /** What has to hold of a well-formed tree for its text to be read back. */
  predicate Survives(f: Filter) {
    match f
    case And(fs) => forall i :: 0 <= i < |fs| ==> Survives(fs[i])
    case Or(fs) => forall i :: 0 <= i < |fs| ==> Survives(fs[i])
    case Not(g) => |Print(g)| >= 5 && Survives(g)
    case Assertion(_, _, value) => IsValue(value)
    case Substrings(_, subs) => SubstringsSurvive(subs)
    case Extensible(rule, typ, value, dn) => !IsAmbiguous(rule, typ, dn) && IsValue(value)
    case _ => true
  }

  function SpelledSubs(subs: SubstringText.Substrings): SubstringText.Substrings {
    SubstringText.Build(Escape(SubstringText.InitialOf(subs)), Escape(SubstringText.FinalOf(subs)),
                        SubstringText.EscapeAll(SubstringText.AnyOf(subs)))
  }

  /** The tree with every octet beyond ASCII spelled out in its values. */
  function Spelled(f: Filter): Filter {
    match f
    case And(fs) => And(seq(|fs|, i requires 0 <= i < |fs| => Spelled(fs[i])))
    case Or(fs) => Or(seq(|fs|, i requires 0 <= i < |fs| => Spelled(fs[i])))
    case Not(g) => Not(Spelled(g))
    case Assertion(op, desc, value) => Assertion(op, desc, Escape(value))
    case Substrings(typ, subs) => Substrings(typ, SpelledSubs(subs))
    case Extensible(rule, typ, value, dn) => Extensible(rule, typ, Escape(value), dn)
    case _ => f
  }

  predicate HasAsciiValues(f: Filter) {
    match f
    case And(fs) => forall i :: 0 <= i < |fs| ==> HasAsciiValues(fs[i])
    case Or(fs) => forall i :: 0 <= i < |fs| ==> HasAsciiValues(fs[i])
    case Not(g) => HasAsciiValues(g)
    case Assertion(_, _, value) => IsAscii(value)
    case Substrings(_, subs) =>
      && IsAscii(SubstringText.InitialOf(subs)) && IsAscii(SubstringText.FinalOf(subs))
      && var anys := SubstringText.AnyOf(subs); forall k :: 0 <= k < |anys| ==> IsAscii(anys[k])
    case Extensible(_, _, value, _) => IsAscii(value)
    case _ => true
  }

  // ----- the text of an item -----

  /** What stands before the first equals sign of a printed item; the text of its value stands behind it. */
  function ItemHead(f: Filter): bytes
    requires IsReadable(f) && !f.And? && !f.Or? && !f.Not?
  {
    match f
    case Assertion(op, desc, _) => desc + OperatorText(op)[..|OperatorText(op)| - 1]
    case Present(desc) => desc
    case Substrings(typ, _) => typ
    case Extensible(rule, typ, _, dn) => ExtensibleHead(rule, typ, dn)
  }

  lemma NameIsPlain(x: bytes)
    requires IsNameText(x)
    ensures NoParens(x) && EQUALS !in x && COLON !in x && STAR !in x
    ensures x != [] ==> x[0] !in {AMPERSAND, PIPE, BANG} && x[|x| - 1] !in {GREATER, LESS, TILDE}
  {
  }

  lemma HeadIsPlain(rule: bytes, typ: bytes, dn: bool)
    requires IsNameText(rule) && IsNameText(typ) && (rule != [] || typ != [])
    ensures var h := ExtensibleHead(rule, typ, dn);
            && h != [] && NoParens(h) && EQUALS !in h && COLON in h && h[|h| - 1] == COLON
            && h[0] !in {AMPERSAND, PIPE, BANG}
  {
    NameIsPlain(rule);
    NameIsPlain(typ);
  }

  lemma ItemText(f: Filter)
    requires IsReadable(f) && !f.And? && !f.Or? && !f.Not?
    ensures Print(f) == Enclose(ItemHead(f) + [EQUALS] + ValueText(f))
    ensures var h := ItemHead(f); h != [] && NoParens(h) && EQUALS !in h && h[0] !in {AMPERSAND, PIPE, BANG}
  {
    hide IsNameText, Escape, CheckOids, SubstringText.Print, IsSubstringForm, NoParens;
    match f
    case Assertion(op, desc, value) =>
      AssertionHead(op, desc);
      assert desc + OperatorText(op) + Escape(value) == ItemHead(f) + [EQUALS] + Escape(value);
    case Present(desc) =>
      AssertionHead(Equal, desc);
      assert desc + [EQUALS, STAR] == desc + [EQUALS] + [STAR];
    case Substrings(typ, subs) =>
      AssertionHead(Equal, typ);
    case Extensible(rule, typ, value, dn) =>
      EmptyIsName();
      HeadIsPlain(rule, typ, dn);
  }

  lemma PlainItem(f: Filter)
    requires IsPlain(f) && !f.And? && !f.Or? && !f.Not?
    ensures IsReadable(f) && NoParens(ValueText(f))
  {
  }

  lemma EmptyIsName()
    ensures IsNameText([])
  {
  }

  lemma AssertionTextHasNoParens(x: bytes)
    requires IsAssertionText(x)
    ensures NoParens(x) && STAR !in x
  {
    AssertionTextIsBare(x);
  }

  lemma AssertionHead(op: Operator, desc: bytes)
    requires IsNameText(desc) && desc != []
    ensures var o := OperatorText(op); var h := desc + o[..|o| - 1];
            && h != [] && NoParens(h) && EQUALS !in h && COLON !in h && h[0] !in {AMPERSAND, PIPE, BANG}
            && desc + o == h + [EQUALS]
            && (op != Equal ==> h == desc + [o[0]])
            && (op == Equal ==> h == desc && o == [EQUALS])
  {
    NameIsPlain(desc);
    hide IsNameText;
    OperatorShape(op);
    var o := OperatorText(op);
    var front := o[..|o| - 1];
    hide OperatorText;
    assert o == front + [EQUALS];
    assert desc + o == desc + front + [EQUALS];
  }

  lemma OperatorShape(op: Operator)
    ensures var o := OperatorText(op); o != [] && o[|o| - 1] == EQUALS
    ensures var o := OperatorText(op); op == Equal ==> o == [EQUALS] && o[..|o| - 1] == []
    ensures var o := OperatorText(op);
            op != Equal ==> |o| == 2 && o[..|o| - 1] == [o[0]] && o[0] in {GREATER, LESS, TILDE}
  {
  }

  // ----- splitting -----

  /** Text without parentheses never splits. */
  lemma {:induction false} PlainPasses(x: bytes, rest: bytes, buf: bytes, depth: int)
    requires NoParens(x)
    ensures SplitFrom(x + rest, buf, depth) == SplitFrom(rest, buf + x, depth)
    decreases |x|
  {
    hide SplitFrom;
    if x == [] {
      assert x + rest == rest && buf + x == buf;
    } else {
      var s := x + rest;
      SplitStep(s, buf, depth);
      assert s[1..] == x[1..] + rest;
      PlainPasses(x[1..], rest, buf + [x[0]], depth);
      assert buf + [x[0]] + x[1..] == buf + x;
    }
  }

  /** A parenthesised body that passes one level further in passes as a whole. */
  lemma EnclosedPasses(body: bytes, rest: bytes, buf: bytes, depth: nat)
    requires depth > 0 || buf == []
    requires SplitFrom(body + ([RPAREN] + rest), buf + [LPAREN], depth + 1)
          == SplitFrom([RPAREN] + rest, buf + [LPAREN] + body, depth + 1)
    ensures SplitFrom(Enclose(body) + rest, buf, depth) == SplitFrom(rest, buf + Enclose(body), depth)
  {
    hide SplitFrom;
    var s := Enclose(body) + rest;
    SplitStep(s, buf, depth);
    assert s[1..] == body + ([RPAREN] + rest);
    SplitStep([RPAREN] + rest, buf + [LPAREN] + body, depth + 1);
    assert ([RPAREN] + rest)[1..] == rest;
    assert buf + [LPAREN] + body + [RPAREN] == buf + Enclose(body);
  }

  /** The operator octet of an and/or, and the text it makes. */
  function ListOperator(f: Filter): byte { if f.And? then AMPERSAND else PIPE }

  lemma ListText(f: Filter)
    requires IsPlain(f) && (f.And? || f.Or?)
    ensures Print(f) == Enclose([ListOperator(f)] + PrintAll(f.filters))
    ensures forall i :: 0 <= i < |f.filters| ==> IsPlain(f.filters[i])
    ensures NoParens([ListOperator(f)])
  {
  }

  lemma NotText(f: Filter)
    requires IsPlain(f) && f.Not?
    ensures Print(f) == Enclose([BANG] + Print(f.filter))
    ensures IsPlain(f.filter)
    ensures NoParens([BANG])
  {
  }

  lemma {:induction false} FilterPasses(f: Filter, rest: bytes, buf: bytes, depth: nat)
    requires IsPlain(f) && (depth > 0 || buf == [])
    ensures SplitFrom(Print(f) + rest, buf, depth) == SplitFrom(rest, buf + Print(f), depth)
    decreases f, 0
  {
    hide SplitFrom, IsPlain, Print, Enclose;
    if f.And? || f.Or? {
      var op := ListOperator(f);
      ListText(f);
      ListPasses(op, f.filters, [RPAREN] + rest, buf + [LPAREN], depth + 1);
      EnclosedPasses([op] + PrintAll(f.filters), rest, buf, depth);
    } else if f.Not? {
      NotText(f);
      OperandPasses(f.filter, [RPAREN] + rest, buf + [LPAREN], depth + 1);
      EnclosedPasses([BANG] + Print(f.filter), rest, buf, depth);
    } else {
      ItemPasses(f, rest, buf, depth);
    }
  }

  lemma ItemPasses(f: Filter, rest: bytes, buf: bytes, depth: nat)
    requires IsPlain(f) && !f.And? && !f.Or? && !f.Not? && (depth > 0 || buf == [])
    ensures SplitFrom(Print(f) + rest, buf, depth) == SplitFrom(rest, buf + Print(f), depth)
  {
    hide SplitFrom, IsPlain, IsReadable, Print, Enclose, ItemHead, ValueText;
    PlainItem(f);
    ItemText(f);
    var body := ItemHead(f) + [EQUALS] + ValueText(f);
    PlainPasses(body, [RPAREN] + rest, buf + [LPAREN], depth + 1);
    EnclosedPasses(body, rest, buf, depth);
  }

  lemma OperandPasses(g: Filter, rest: bytes, buf: bytes, depth: nat)
    requires IsPlain(g) && depth > 0
    ensures SplitFrom([BANG] + Print(g) + rest, buf, depth) == SplitFrom(rest, buf + ([BANG] + Print(g)), depth)
    decreases g, 1
  {
    hide SplitFrom, Print, IsPlain;
    BangIsPlain();
    PlainPasses([BANG], Print(g) + rest, buf, depth);
    FilterPasses(g, rest, buf + [BANG], depth);
    assert [BANG] + Print(g) + rest == [BANG] + (Print(g) + rest);
    assert buf + [BANG] + Print(g) == buf + ([BANG] + Print(g));
  }

  lemma BangIsPlain()
    ensures NoParens([BANG])
  {
  }

  lemma ListPasses(op: byte, fs: seq<Filter>, rest: bytes, buf: bytes, depth: nat)
    requires (forall i :: 0 <= i < |fs| ==> IsPlain(fs[i])) && depth > 0 && NoParens([op])
    ensures SplitFrom([op] + PrintAll(fs) + rest, buf, depth) == SplitFrom(rest, buf + ([op] + PrintAll(fs)), depth)
    decreases fs, 1
  {
    hide SplitFrom, Print, PrintAll, IsPlain;
    PlainPasses([op], PrintAll(fs) + rest, buf, depth);
    AllPass(fs, rest, buf + [op], depth);
    assert [op] + PrintAll(fs) + rest == [op] + (PrintAll(fs) + rest);
    assert buf + [op] + PrintAll(fs) == buf + ([op] + PrintAll(fs));
  }

  lemma {:induction false} AllPass(fs: seq<Filter>, rest: bytes, buf: bytes, depth: nat)
    requires (forall i :: 0 <= i < |fs| ==> IsPlain(fs[i])) && depth > 0
    ensures SplitFrom(PrintAll(fs) + rest, buf, depth) == SplitFrom(rest, buf + PrintAll(fs), depth)
    decreases fs, 0
  {
    hide SplitFrom, IsPlain, Print;
    if fs == [] {
      assert PrintAll(fs) + rest == rest && buf + PrintAll(fs) == buf;
    } else {
      var p, q := Print(fs[0]), PrintAll(fs[1..]);
      FilterPasses(fs[0], q + rest, buf, depth);
      AllPass(fs[1..], rest, buf + p, depth);
      assert PrintAll(fs) + rest == p + (q + rest);
      assert buf + p + q == buf + PrintAll(fs);
    }
  }

  function Texts(fs: seq<Filter>): (r: seq<bytes>)
    ensures |r| == |fs|
    ensures forall i :: 0 <= i < |fs| ==> r[i] == Print(fs[i])
  {
    seq(|fs|, i requires 0 <= i < |fs| => Print(fs[i]))
  }

  /** The printed text of a tree is one group. */
  lemma TextShape(f: Filter)
    requires IsPlain(f)
    ensures var t := Print(f); |t| >= 3 && t[0] == LPAREN && t[|t| - 1] == RPAREN && t[1] != LPAREN
  {
    hide IsPlain;
    if !f.And? && !f.Or? {
      NotOrItemShape(f);
    }
  }

  lemma NotOrItemShape(f: Filter)
    requires IsPlain(f) && !f.And? && !f.Or?
    ensures var t := Print(f); |t| >= 3 && t[0] == LPAREN && t[|t| - 1] == RPAREN && t[1] != LPAREN
  {
    if !f.Not? {
      PlainItem(f);
      ItemText(f);
      hide Print;
      assert ItemHead(f)[0] != LPAREN;
    }
  }

  /** Depth counting cuts the text of an operand list exactly between the operands. */
  lemma {:induction false} SplitRecoversOperands(fs: seq<Filter>)
    requires forall i :: 0 <= i < |fs| ==> IsPlain(fs[i])
    ensures SplitFrom(PrintAll(fs), [], 0) == Texts(fs)
  {
    hide SplitFrom, IsPlain, Print;
    if fs == [] {
      SplitNothing([], 0);
    } else {
      var p, q := Print(fs[0]), PrintAll(fs[1..]);
      FilterPasses(fs[0], q, [], 0);
      assert [] + p == p;
      TextShape(fs[0]);
      SplitRecoversOperands(fs[1..]);
      assert Texts(fs) == [p] + Texts(fs[1..]);
      SplitAfterGroup(fs[1..], p);
    }
  }

  lemma SplitAfterGroup(fs: seq<Filter>, p: bytes)
    requires (forall i :: 0 <= i < |fs| ==> IsPlain(fs[i])) && p != []
    ensures SplitFrom(PrintAll(fs), p, 0) == [p] + SplitFrom(PrintAll(fs), [], 0)
  {
    hide SplitFrom, IsPlain, Print;
    var q := PrintAll(fs);
    if fs == [] {
      SplitNothing(p, 0);
      SplitNothing([], 0);
    } else {
      TextShape(fs[0]);
      assert q[0] == LPAREN;
      SplitStep(q, p, 0);
      SplitStep(q, [], 0);
      assert [] + [q[0]] == [q[0]];
    }
  }

  // ----- the two checks in front of the dispatch -----

  predicate IsSound(x: bytes) { IsBalanced(x) && NoDoubleOpen(x) }

  lemma PlainIsSound(x: bytes)
    requires NoParens(x)
    ensures IsSound(x)
  {
    CountAbsent(x, LPAREN);
    CountAbsent(x, RPAREN);
  }

  lemma SoundConcat(a: bytes, b: bytes)
    requires IsSound(a) && IsSound(b)
    requires a == [] || a[|a| - 1] != LPAREN || b == [] || b[0] != LPAREN
    ensures IsSound(a + b)
  {
    hide CountOf;
    CountConcat(a, b, LPAREN);
    CountConcat(a, b, RPAREN);
    var s := a + b;
    forall i | 0 < i < |s| ensures !(s[i - 1] == LPAREN && s[i] == LPAREN) {
      if i < |a| {
        assert a[i - 1] == s[i - 1] && a[i] == s[i];
      } else if i > |a| {
        assert b[i - 1 - |a|] == s[i - 1] && b[i - |a|] == s[i];
      }
    }
  }

  lemma EnclosedIsSound(body: bytes)
    requires IsSound(body) && (body == [] || body[0] != LPAREN)
    ensures IsSound(Enclose(body))
  {
    hide CountOf;
    CountOne(LPAREN, LPAREN);
    CountOne(LPAREN, RPAREN);
    CountOne(RPAREN, LPAREN);
    CountOne(RPAREN, RPAREN);
    var s := Enclose(body);
    CountConcat([LPAREN] + body, [RPAREN], LPAREN);
    CountConcat([LPAREN] + body, [RPAREN], RPAREN);
    CountConcat([LPAREN], body, LPAREN);
    CountConcat([LPAREN], body, RPAREN);
    forall i | 0 < i < |s| ensures !(s[i - 1] == LPAREN && s[i] == LPAREN) {
      if 1 < i < |s| - 1 {
        assert body[i - 2] == s[i - 1] && body[i - 1] == s[i];
      }
    }
  }

  lemma {:induction false} FilterIsSound(f: Filter)
    requires IsPlain(f)
    ensures IsSound(Print(f))
    decreases f
  {
    hide IsSound;
    if f.And? || f.Or? {
      var op := if f.And? then AMPERSAND else PIPE;
      AllSound(f.filters);
      PlainIsSound([op]);
      SoundConcat([op], PrintAll(f.filters));
      EnclosedIsSound([op] + PrintAll(f.filters));
    } else if f.Not? {
      FilterIsSound(f.filter);
      PlainIsSound([BANG]);
      SoundConcat([BANG], Print(f.filter));
      EnclosedIsSound([BANG] + Print(f.filter));
    } else {
      PlainItem(f);
      ItemText(f);
      hide Print;
      var body := ItemHead(f) + [EQUALS] + ValueText(f);
      PlainIsSound(body);
      EnclosedIsSound(body);
    }
  }

  lemma {:induction false} AllSound(fs: seq<Filter>)
    requires forall i :: 0 <= i < |fs| ==> IsPlain(fs[i])
    ensures IsSound(PrintAll(fs))
    decreases fs
  {
    hide IsSound, Print, IsPlain;
    if fs == [] {
      PlainIsSound([]);
    } else {
      FilterIsSound(fs[0]);
      AllSound(fs[1..]);
      TextShape(fs[0]);
      SoundConcat(Print(fs[0]), PrintAll(fs[1..]));
    }
  }

  // ----- items are recognised again -----

  lemma IndexOfFirst(a: bytes, c: byte, b: bytes)
    requires c !in a
    ensures Index(a + [c] + b, [c]) == |a|
  {
    hide Index;
    var s := a + [c] + b;
    assert s[|a|..|a| + 1] == [c];
    assert At(s, |a|, [c]);
    forall j | 0 <= j < |a| ensures !At(s, j, [c]) {
      assert s[j..j + 1][0] == a[j];
    }
  }

  lemma ItemParts(head: bytes, tail: bytes)
    requires NoParens(head) && NoParens(tail) && EQUALS !in head
    ensures ParseItem(Enclose(head + [EQUALS] + tail)) == Classify(head, tail)
  {
    hide Classify, Index, Without;
    var t := Enclose(head + [EQUALS] + tail);
    var pre, after := [LPAREN] + head, tail + [RPAREN];
    assert t == pre + [EQUALS] + after;
    IndexOfFirst(pre, EQUALS, after);
    assert t[..|pre|] == pre && t[|pre| + 1..] == after;
    WithoutConcat([LPAREN], head, LPAREN);
    WithoutConcat(tail, [RPAREN], RPAREN);
    WithoutShort(LPAREN, LPAREN);
    WithoutShort(RPAREN, RPAREN);
    WithoutAbsent(head, LPAREN);
    WithoutAbsent(tail, RPAREN);
    assert [] + head == head && tail + [] == tail;
  }

  /** An item without its parentheses is read like one with them, even with nothing in front of the equals sign. */
  lemma BareItemParts(head: bytes, tail: bytes)
    requires NoParens(head) && NoParens(tail) && EQUALS !in head
    ensures ParseItem(head + [EQUALS] + tail) == Classify(head, tail)
  {
    hide Classify, Index, Without;
    var t := head + [EQUALS] + tail;
    IndexOfFirst(head, EQUALS, tail);
    assert t[..|head|] == head && t[|head| + 1..] == tail;
    WithoutAbsent(head, LPAREN);
    WithoutAbsent(tail, RPAREN);
    NoOuterParen(head);
    NoOuterParen(tail);
  }

  lemma NoOuterParen(x: bytes)
    requires NoParens(x)
    ensures !HasPrefix(x, [LPAREN]) && !HasSuffix(x, [RPAREN])
  {
    var p, q: bytes := [LPAREN], [RPAREN];
    assert p[0] == LPAREN && q[0] == RPAREN;
    if x != [] {
      LastIs(x);
      assert x[0] in x;
    }
  }

  lemma WithoutAbsent(s: bytes, c: byte)
    requires c !in s
    ensures Without(s, c) == s
  {
  }

  lemma TextsHaveNoStar(x: bytes)
    ensures IsAssertionText(x) ==> STAR !in x
  {
    if IsAssertionText(x) {
      AssertionTextHasNoParens(x);
    }
  }

  /** A malformed value makes neither a value assertion nor an extensible match. */
  lemma BadValueIsNoItem(pre: bytes, after: bytes)
    requires !IsAssertionText(after)
    ensures var r := Classify(pre, after); r.Success? ==> !r.value.Assertion? && !r.value.Extensible?
  {
    hide ParseExtensible, CheckOids, IsAssertionText, SubstringText.Parse, HasSuffix;
  }

  lemma AssertionIsRecognised(op: Operator, desc: bytes, value: bytes)
    requires IsReadName(desc)
    ensures var o := OperatorText(op);
            var r := Classify(desc + o[..|o| - 1], Escape(value));
            r == Success(Assertion(op, desc, Escape(value))) <==> IsValue(value)
  {
    hide CheckOids, IsAssertionText, Escape, IsNameText;
    TextsHaveNoStar(Escape(value));
    if !IsValue(value) {
      BadValueIsNoItem(desc + OperatorText(op)[..|OperatorText(op)| - 1], Escape(value));
    }
    AssertionHead(op, desc);
    NameIsPlain(desc);
    var o := OperatorText(op);
    var h := desc + o[..|o| - 1];
    if op != Equal {
      assert h[..|h| - 1] == desc && h[|h| - 1..] == [o[0]];
    } else {
      LastIs(desc);
    }
  }

  lemma LastIs(x: bytes)
    requires x != []
    ensures forall c: byte :: HasSuffix(x, [c]) <==> x[|x| - 1] == c
  {
    assert x[|x| - 1..] == [x[|x| - 1]];
  }

  lemma SubstringsAreRecognised(typ: bytes, subs: SubstringText.Substrings)
    requires IsReadName(typ) && IsSubstringForm(subs)
    ensures var r := Classify(typ, SubstringText.Print(subs));
            var init, anys := SubstringText.InitialOf(subs), SubstringText.AnyOf(subs);
            r == Success(Substrings(typ, SpelledSubs(subs))) <==>
              SubstringText.Survives(init, anys, SubstringText.FinalOf(subs))
  {
    hide CheckOids, Escape, IsNameText, SubstringText.Print, SubstringText.Parse, SubstringText.Build, Utf8.TrimSpace;
    hide IsAssertionText;
    var init, anys, fin := SubstringText.InitialOf(subs), SubstringText.AnyOf(subs), SubstringText.FinalOf(subs);
    hide SubstringText.InitialOf, SubstringText.AnyOf, SubstringText.FinalOf, SubstringText.IsTriple;
    SubstringText.ParseAfterPrint(init, anys, fin);
    if SubstringText.Survives(init, anys, fin) {
      SubstringTextHasStar(init, anys, fin);
    }
    hide SubstringText.Survives;
    NameIsPlain(typ);
    LastIs(typ);
  }

  lemma SubstringTextHasStar(init: bytes, anys: seq<bytes>, fin: bytes)
    requires SubstringText.IsTriple(init, anys, fin)
    ensures var t := SubstringText.Print(SubstringText.Build(init, fin, anys)); STAR in t && t != [STAR]
  {
    hide SubstringText.Print, SubstringText.Build, SubstringText.Pieces, Escape, SubstringText.IsPiece;
    var t := SubstringText.Print(SubstringText.Build(init, fin, anys));
    SubstringText.PrintedTriple(init, anys, fin);
    SubstringText.PiecesShape(t);
    SubstringText.EscapeEmpty(init);
    SubstringText.EscapeEmpty(fin);
    if anys != [] {
      SubstringText.EscapeEmpty(anys[0]);
    }
    StarPieces();
  }

  lemma StarPieces()
    ensures SubstringText.Pieces([STAR]) == [[], []]
  {
    var none: bytes := [];
    SubstringText.PiecesSnoc(none, STAR);
    assert none + [STAR] == [STAR];
  }

  // ----- extensible matches -----

  predicate IsColonFree(x: bytes) { COLON !in x }

  lemma ContainsIffAt(s: bytes, p: bytes)
    ensures Contains(s, p) <==> exists j :: 0 <= j && At(s, j, p)
  {
    hide Index;
  }

  /** Where a keyword between colons can stand in a text with one, two or three colons. */
  lemma KeyBetweenTwoColons(t: bytes, r: bytes, key: bytes)
    requires IsColonFree(t) && IsColonFree(r) && |key| == 2 && IsColonFree(key)
    ensures var s := t + [COLON] + r + [COLON]; var p := [COLON] + key + [COLON];
            && (Contains(s, p) <==> r == key)
            && (r == key ==> Index(s, p) == |t|)
  {
    hide Index;
    var s, p := t + [COLON] + r + [COLON], [COLON] + key + [COLON];
    ContainsIffAt(s, p);
    forall j | 0 <= j && At(s, j, p) ensures j == |t| && r == key {
      assert s[j..j + 4][0] == s[j] && s[j..j + 4][3] == s[j + 3];
      assert j == |t|;
      assert |r| == 2;
      assert s[j + 1..j + 3] == s[j..j + 4][1..3] == key;
      assert s[j + 1..j + 3] == r;
    }
    if r == key {
      assert s[|t|..|t| + 4] == p;
      assert At(s, |t|, p);
    }
  }

  lemma NoKeyBeforeOneColon(r: bytes, key: bytes)
    requires IsColonFree(r) && |key| == 2
    ensures !Contains(r + [COLON], [COLON] + key + [COLON])
  {
    hide Index;
    var s, p := r + [COLON], [COLON] + key + [COLON];
    ContainsIffAt(s, p);
    forall j | 0 <= j ensures !At(s, j, p) {
      if j + 4 <= |s| {
        assert s[j..j + 4][0] == s[j] == r[j];
      }
    }
  }

  /** The keyword at the first of three colons, with `r` between the other two. */
  function ThreeColons(t: bytes, key: bytes, r: bytes): bytes {
    t + ([COLON] + key + [COLON]) + r + [COLON]
  }

  lemma ColonsOfThree(t: bytes, key: bytes, r: bytes, j: nat)
    requires IsColonFree(t) && IsColonFree(r) && |key| == 2 && IsColonFree(key)
    requires j < |ThreeColons(t, key, r)|
    ensures ThreeColons(t, key, r)[j] == COLON <==> j in {|t|, |t| + 3, |t| + 4 + |r|}
  {
    var s := ThreeColons(t, key, r);
    if j < |t| {
      assert s[j] == t[j];
    } else if j == |t| + 1 || j == |t| + 2 {
      assert s[j] == key[j - |t| - 1];
    } else if |t| + 4 <= j < |t| + 4 + |r| {
      assert s[j] == r[j - |t| - 4];
    }
  }

  lemma FirstOfThree(t: bytes, key: bytes, r: bytes)
    requires IsColonFree(t) && IsColonFree(r) && |key| == 2 && IsColonFree(key)
    ensures Index(ThreeColons(t, key, r), [COLON] + key + [COLON]) == |t|
  {
    hide Index, IsColonFree;
    var s, k := ThreeColons(t, key, r), [COLON] + key + [COLON];
    assert s[|t|..|t| + 4] == k;
    hide ThreeColons;
    assert At(s, |t|, k);
    forall j | 0 <= j < |t| ensures !At(s, j, k) {
      ColonsOfThree(t, key, r, j);
      assert s[j..j + 4][0] == s[j];
    }
  }

  lemma OtherOfThree(t: bytes, key: bytes, r: bytes, other: bytes, j: nat)
    requires IsColonFree(t) && IsColonFree(r) && |key| == 2 && IsColonFree(key) && |other| == 2 && key != other
    requires At(ThreeColons(t, key, r), j, [COLON] + other + [COLON])
    ensures r == other
  {
    hide IsColonFree;
    var s, o := ThreeColons(t, key, r), [COLON] + other + [COLON];
    assert s[j..j + 4][0] == s[j] && s[j..j + 4][3] == s[j + 3];
    ColonsOfThree(t, key, r, j);
    ColonsOfThree(t, key, r, j + 3);
    assert s[j + 1..j + 3] == s[j..j + 4][1..3] == other;
    assert s[|t| + 1..|t| + 3] == key;
    assert j == |t| + 3 && |r| == 2;
    assert s[j + 1..j + 3] == r;
  }

  lemma KeyBetweenThreeColons(t: bytes, r: bytes, key: bytes, other: bytes)
    requires IsColonFree(t) && IsColonFree(r) && |key| == 2 && IsColonFree(key) && |other| == 2 && key != other
    ensures var s := ThreeColons(t, key, r);
            && Index(s, [COLON] + key + [COLON]) == |t|
            && (Contains(s, [COLON] + other + [COLON]) <==> r == other)
  {
    hide Index, IsColonFree;
    var s, o := ThreeColons(t, key, r), [COLON] + other + [COLON];
    FirstOfThree(t, key, r);
    ContainsIffAt(s, o);
    if r == other {
      assert s[|t| + 3..|t| + 7] == o;
      assert At(s, |t| + 3, o);
    } else {
      hide ThreeColons;
      forall j | 0 <= j ensures !At(s, j, o) {
        if At(s, j, o) {
          OtherOfThree(t, key, r, other, j);
          assert false;
        }
      }
    }
  }

  lemma SplitOnAbsent(x: bytes, sep: bytes)
    requires sep != [] && !Contains(x, sep)
    ensures SplitOn(x, sep) == [x]
  {
    hide Index;
  }

  lemma SplitOnOnce(a: bytes, sep: bytes, b: bytes)
    requires sep != [] && Index(a + sep + b, sep) == |a| && !Contains(b, sep)
    ensures SplitOn(a + sep + b, sep) == [a, b]
  {
    hide Index;
    var x := a + sep + b;
    assert x[..|a|] == a && x[|a| + |sep|..] == b;
    SplitOnAbsent(b, sep);
  }

  lemma TrimOneColon(r: bytes)
    requires IsColonFree(r)
    ensures TrimColons(r + [COLON]) == r && TrimColons(r) == r && TrimColons([]) == []
  {
    var x := r + [COLON];
    assert x[..|x| - 1] == r;
    if r == [] {
      assert x[1..] == [];
      assert TrimColonsLeft(x) == TrimColonsLeft([]) == [];
      assert TrimColons(x) == [];
    } else {
      assert x[0] == r[0] && r[0] != COLON;
      assert r[|r| - 1] != COLON;
      assert TrimColonsRight(r) == r;
    }
  }

  /** The four texts with a type, as the branch without a leading colon sees them. */
  predicate HasTypeShape(rule: bytes, typ: bytes) {
    typ != [] && IsColonFree(typ) && IsColonFree(rule) && CheckOids(typ, rule)
  }

  lemma TypeWithoutDn(rule: bytes, typ: bytes, val: bytes)
    requires HasTypeShape(rule, typ) && rule != []
    ensures ParseExtensible(typ + [COLON] + rule + [COLON], val) == Success(Extensible(rule, typ, val, false))
        <==> rule != LOWER_KEY && rule != UPPER_KEY
  {
    hide Index, CheckOids, SplitOn, TrimColons;
    var a := typ + [COLON] + rule + [COLON];
    KeyBetweenTwoColons(typ, rule, LOWER_KEY);
    KeyBetweenTwoColons(typ, rule, UPPER_KEY);
    assert LOWER_DN == [COLON] + LOWER_KEY + [COLON] && UPPER_DN == [COLON] + UPPER_KEY + [COLON];
    assert a == typ + [COLON] + (rule + [COLON]);
    IndexOfFirst(typ, COLON, rule + [COLON]);
    assert a[..|typ|] == typ && a[|typ| + 1..] == rule + [COLON];
    TrimOneColon(rule);
    assert a[0] == typ[0];
  }

  lemma TypeAlone(typ: bytes, val: bytes)
    requires HasTypeShape([], typ)
    ensures ParseExtensible(typ + [COLON], val) == Success(Extensible([], typ, val, false))
  {
    hide Index, CheckOids, SplitOn, TrimColons;
    var a := typ + [COLON];
    NoKeyBeforeOneColon(typ, LOWER_KEY);
    NoKeyBeforeOneColon(typ, UPPER_KEY);
    assert LOWER_DN == [COLON] + LOWER_KEY + [COLON] && UPPER_DN == [COLON] + UPPER_KEY + [COLON];
    assert a == typ + [COLON] + [];
    IndexOfFirst(typ, COLON, []);
    assert a[..|typ|] == typ && a[|typ| + 1..] == [];
    TrimOneColon([]);
    assert a[0] == typ[0];
  }

  lemma TypeAndDn(typ: bytes, val: bytes)
    requires HasTypeShape([], typ)
    ensures ParseExtensible(typ + LOWER_DN, val) == Success(Extensible([], typ, val, true))
  {
    hide Index, CheckOids, SplitOn, TrimColons;
    var a := typ + LOWER_DN;
    KeyBetweenTwoColons(typ, LOWER_KEY, LOWER_KEY);
    KeyBetweenTwoColons(typ, LOWER_KEY, UPPER_KEY);
    assert a == typ + [COLON] + LOWER_KEY + [COLON];
    assert LOWER_DN == [COLON] + LOWER_KEY + [COLON] && UPPER_DN == [COLON] + UPPER_KEY + [COLON];
    assert a == typ + LOWER_DN + [];
    NothingContains(LOWER_DN);
    SplitOnOnce(typ, LOWER_DN, []);
    TrimOneColon([]);
    assert a[0] == typ[0];
  }

  lemma NothingContains(p: bytes)
    requires p != []
    ensures !Contains([], p)
  {
  }

  lemma TypeDnAndRule(rule: bytes, typ: bytes, val: bytes)
    requires HasTypeShape(rule, typ) && rule != []
    ensures ParseExtensible(typ + LOWER_DN + rule + [COLON], val) == Success(Extensible(rule, typ, val, true))
        <==> rule != UPPER_KEY
  {
    hide Index, CheckOids, SplitOn, TrimColons;
    var a := typ + LOWER_DN + rule + [COLON];
    assert a == ThreeColons(typ, LOWER_KEY, rule);
    assert LOWER_DN == [COLON] + LOWER_KEY + [COLON] && UPPER_DN == [COLON] + UPPER_KEY + [COLON];
    KeyBetweenThreeColons(typ, rule, LOWER_KEY, UPPER_KEY);
    assert a == typ + LOWER_DN + (rule + [COLON]);
    NoKeyBeforeOneColon(rule, LOWER_KEY);
    SplitOnOnce(typ, LOWER_DN, rule + [COLON]);
    TrimOneColon(rule);
    assert a[0] == typ[0];
  }

  lemma RuleAlone(rule: bytes, val: bytes, dn: bool)
    requires rule != [] && IsColonFree(rule) && CheckOids([], rule)
    ensures ParseExtensible((if dn then LOWER_DN else [COLON]) + rule + [COLON], val)
         == Success(Extensible(rule, [], val, dn))
        <==> dn || (rule != LOWER_KEY && rule != UPPER_KEY)
  {
    hide Index, CheckOids, SplitOn, TrimColons;
    var a := (if dn then LOWER_DN else [COLON]) + rule + [COLON];
    if dn {
      assert a[4..|a| - 1] == rule && LOWER_DN <= a;
    } else {
      assert a[1..|a| - 1] == rule;
      PrefixOfRule(rule, LOWER_KEY);
      PrefixOfRule(rule, UPPER_KEY);
      assert LOWER_DN == [COLON] + LOWER_KEY + [COLON] && UPPER_DN == [COLON] + UPPER_KEY + [COLON];
      assert a[0] == COLON;
    }
  }

  lemma PrefixOfRule(rule: bytes, key: bytes)
    requires IsColonFree(rule) && |key| == 2 && IsColonFree(key)
    ensures HasPrefix([COLON] + rule + [COLON], [COLON] + key + [COLON]) <==> rule == key
  {
    var a, p := [COLON] + rule + [COLON], [COLON] + key + [COLON];
    if p <= a {
      assert a[3] == p[3] == COLON;
      assert |rule| == 2;
      assert rule == a[1..3] == p[1..3] == key;
    }
  }

  lemma NamesAreColonFree(x: bytes)
    requires IsNameText(x)
    ensures IsColonFree(x)
  {
    NameIsPlain(x);
  }

  /** All extensible shapes are read back, except where the matching rule is taken for the keyword. */
  lemma ExtensibleIsParsed(rule: bytes, typ: bytes, val: bytes, dn: bool)
    requires (typ == [] || IsReadName(typ)) && (rule == [] || IsReadRule(rule)) && (typ != [] || rule != [])
    ensures ParseExtensible(ExtensibleHead(rule, typ, dn), val) == Success(Extensible(rule, typ, val, dn))
        <==> !IsAmbiguous(rule, typ, dn)
  {
    hide ParseExtensible, IsOidOrDescr, SplitOnByte, IsNameText;
    EmptyIsName();
    NamesAreColonFree(rule);
    NamesAreColonFree(typ);
    if typ == [] {
      RuleAlone(rule, val, dn);
    } else if rule == [] {
      if dn {
        TypeAndDn(typ, val);
      } else {
        TypeAlone(typ, val);
      }
    } else if dn {
      TypeDnAndRule(rule, typ, val);
    } else {
      TypeWithoutDn(rule, typ, val);
    }
  }

  lemma ExtensibleIsRecognised(rule: bytes, typ: bytes, value: bytes, dn: bool)
    requires IsReadable(Extensible(rule, typ, value, dn))
    ensures Classify(ExtensibleHead(rule, typ, dn), Escape(value)) == Success(Extensible(rule, typ, Escape(value), dn))
        <==> !IsAmbiguous(rule, typ, dn) && IsValue(value)
  {
    hide ParseExtensible, CheckOids, IsNameText, IsAssertionText, Escape, IsAmbiguous, ExtensibleHead;
    TextsHaveNoStar(Escape(value));
    if !IsValue(value) {
      BadValueIsNoItem(ExtensibleHead(rule, typ, dn), Escape(value));
    }
    EmptyIsName();
    HeadIsPlain(rule, typ, dn);
    var h := ExtensibleHead(rule, typ, dn);
    LastIs(h);
    ExtensibleIsParsed(rule, typ, Escape(value), dn);
  }

  // ----- whole trees -----

  /** Reading the printed text of an item. */
  lemma ItemComesBack(f: Filter)
    requires IsPlain(f) && !f.And? && !f.Or? && !f.Not?
    ensures ParseItem(Print(f)) == Success(Spelled(f)) <==> Survives(f)
  {
    hide ParseItem, Print, Classify, Survives, ValueText, ItemHead, IsReadable, IsPlain;
    PlainItem(f);
    ItemText(f);
    ItemParts(ItemHead(f), ValueText(f));
    ItemIsRecognised(f);
  }

  lemma ItemIsRecognised(f: Filter)
    requires IsPlain(f) && IsReadable(f) && !f.And? && !f.Or? && !f.Not?
    ensures Classify(ItemHead(f), ValueText(f)) == Success(Spelled(f)) <==> Survives(f)
  {
    match f
    case Assertion(op, desc, value) =>
      hide *;
      AssertionCase(op, desc, value);
    case Present(desc) =>
    case Substrings(typ, subs) =>
      hide *;
      SubstringsCase(typ, subs);
    case Extensible(rule, typ, value, dn) =>
      hide *;
      ExtensibleCase(rule, typ, value, dn);
  }

  lemma AssertionCase(op: Operator, desc: bytes, value: bytes)
    requires IsReadable(Assertion(op, desc, value))
    ensures var f := Assertion(op, desc, value);
            Classify(ItemHead(f), ValueText(f)) == Success(Spelled(f)) <==> Survives(f)
  {
    hide Classify, IsReadName, IsValue, Escape;
    AssertionIsRecognised(op, desc, value);
  }

  lemma SubstringsCase(typ: bytes, subs: SubstringText.Substrings)
    requires IsPlain(Substrings(typ, subs)) && IsReadable(Substrings(typ, subs))
    ensures var f := Substrings(typ, subs);
            Classify(ItemHead(f), ValueText(f)) == Success(Spelled(f)) <==> Survives(f)
  {
    hide Classify, IsReadName, IsSubstringForm, SubstringText.Survives, SubstringText.Print, SpelledSubs, NoParens;
    SubstringsAreRecognised(typ, subs);
  }

  lemma ExtensibleCase(rule: bytes, typ: bytes, value: bytes, dn: bool)
    requires IsReadable(Extensible(rule, typ, value, dn))
    ensures var f := Extensible(rule, typ, value, dn);
            Classify(ItemHead(f), ValueText(f)) == Success(Spelled(f)) <==> Survives(f)
  {
    ExtensibleIsRecognised(rule, typ, value, dn);
    hide Classify, IsAmbiguous, IsReadName, IsReadRule, IsValue, Escape;
  }

  /** The dispatch of parseSubFilter on the text of a tree. */
  lemma ReachesDispatch(f: Filter)
    requires IsPlain(f)
    ensures var t := Print(f); t != [] && Utf8.TrimSpace(t) == t && NoDoubleOpen(t) && IsBalanced(t)
  {
    hide IsPlain, Print, Utf8.TrimSpace, IsBalanced, NoDoubleOpen;
    TextShape(f);
    FilterIsSound(f);
    Utf8.TrimKeeps(Print(f));
  }

  /** Operand lists come back operand by operand. */
  predicate AllComeBack(fs: seq<Filter>) {
    forall i :: 0 <= i < |fs| ==> ParseSub(Print(fs[i])) == Success(Spelled(fs[i]))
  }

  function AllSpelled(fs: seq<Filter>): (r: seq<Filter>)
    ensures |r| == |fs|
    ensures forall i :: 0 <= i < |fs| ==> r[i] == Spelled(fs[i])
  {
    seq(|fs|, i requires 0 <= i < |fs| => Spelled(fs[i]))
  }

  lemma {:induction false} PartsComeBack(fs: seq<Filter>, longest: nat)
    requires forall p :: p in Texts(fs) ==> |p| <= longest
    ensures ParseParts(Texts(fs), longest) == Success(AllSpelled(fs)) <==> AllComeBack(fs)
    decreases |fs|
  {
    hide ParseSub, Print, Spelled;
    if fs != [] {
      ListStep(fs);
      ComeBackSplit(fs);
      hide AllComeBack, Texts, AllSpelled;
      PartsComeBack(fs[1..], longest);
      var head, rest := ParseSub(Print(fs[0])), ParseParts(Texts(fs[1..]), longest);
      if head.Success? && rest.Success? {
        assert ([head.value] + rest.value)[1..] == rest.value;
      }
    }
  }

  lemma ListStep(fs: seq<Filter>)
    requires fs != []
    ensures Texts(fs)[0] == Print(fs[0]) && Texts(fs)[1..] == Texts(fs[1..])
    ensures AllSpelled(fs) == [Spelled(fs[0])] + AllSpelled(fs[1..])
  {
    hide Print, Spelled;
  }

  lemma ComeBackSplit(fs: seq<Filter>)
    requires fs != []
    ensures AllComeBack(fs) <==> ParseSub(Print(fs[0])) == Success(Spelled(fs[0])) && AllComeBack(fs[1..])
  {
    hide ParseSub, Print, Spelled;
    assert forall i :: 0 < i < |fs| ==> fs[i] == fs[1..][i - 1];
  }

  /** And, or and not come back exactly when their operands do, and "not" only with five octets to read. */
  lemma ListComesBack(f: Filter)
    requires IsPlain(f) && (f.And? || f.Or?)
    ensures ParseSub(Print(f)) == Success(Spelled(f)) <==> AllComeBack(f.filters)
  {
    hide IsPlain, Utf8.TrimSpace, IsBalanced, NoDoubleOpen, SplitFrom, PrintAll, ParseParts, ParseItem, AllComeBack;
    ReachesDispatch(f);
    ListText(f);
    var t, op, fs := Print(f), ListOperator(f), f.filters;
    hide Print;
    assert t[0] == LPAREN && t[1] == op;
    assert [LPAREN, op] <= t;
    assert t[2..|t| - 1] == PrintAll(fs);
    SplitRecoversOperands(fs);
    PartsFit(fs);
    PartsComeBack(fs, |t| - 3);
    assert Spelled(f) == if f.And? then And(AllSpelled(fs)) else Or(AllSpelled(fs));
  }

  lemma {:induction false} PartsFit(fs: seq<Filter>)
    ensures forall p :: p in Texts(fs) ==> |p| <= |PrintAll(fs)|
  {
    hide Print;
    if fs != [] {
      PartsFit(fs[1..]);
      assert Texts(fs) == [Print(fs[0])] + Texts(fs[1..]);
    }
  }

  lemma NotDispatch(f: Filter)
    requires IsPlain(f) && f.Not?
    ensures |Print(f)| == 3 + |Print(f.filter)|
    ensures ParseSub(Print(f)) ==
              if |Print(f)| < 8 then Failure(InvalidFilter)
              else var r := ParseSub(Print(f.filter)); if r.Failure? then r else Success(Not(r.value))
  {
    hide IsPlain, Utf8.TrimSpace, IsBalanced, NoDoubleOpen, SplitFrom, PrintAll, ParseParts, ParseItem;
    ReachesDispatch(f);
    NotText(f);
    var t, p := Print(f), Print(f.filter);
    hide Print;
    assert t[0] == LPAREN && t[1] == BANG;
    assert [LPAREN, BANG] <= t;
    assert t[2..|t| - 1] == p;
  }

  lemma NotComesBack(f: Filter)
    requires IsPlain(f) && f.Not?
    ensures ParseSub(Print(f)) == Success(Spelled(f)) <==>
              |Print(f.filter)| >= 5 && ParseSub(Print(f.filter)) == Success(Spelled(f.filter))
  {
    hide IsPlain, ParseSub, Print;
    NotDispatch(f);
  }

  lemma ItemDispatch(f: Filter)
    requires IsPlain(f) && !f.And? && !f.Or? && !f.Not?
    ensures ParseSub(Print(f)) == ParseItem(Print(f))
  {
    hide IsPlain, Utf8.TrimSpace, IsBalanced, NoDoubleOpen, SplitFrom, ParseParts, ParseItem, ItemHead, ValueText;
    hide IsReadable;
    ReachesDispatch(f);
    PlainItem(f);
    ItemText(f);
    var t, h := Print(f), ItemHead(f);
    hide Print;
    assert t[1] == h[0];
  }

  /** Trees without parentheses in their values come back exactly when they survive. */
  lemma {:induction false} PlainComesBack(f: Filter)
    requires IsPlain(f)
    ensures ParseSub(Print(f)) == Success(Spelled(f)) <==> Survives(f)
    decreases f
  {
    if f.And? || f.Or? {
      hide Spelled, Print, ParseSub;
      ListComesBack(f);
      forall i | 0 <= i < |f.filters|
        ensures ParseSub(Print(f.filters[i])) == Success(Spelled(f.filters[i])) <==> Survives(f.filters[i])
      {
        PlainComesBack(f.filters[i]);
      }
    } else if f.Not? {
      hide Spelled, Print, ParseSub;
      NotComesBack(f);
      PlainComesBack(f.filter);
    } else {
      hide *;
      ItemDispatch(f);
      ItemComesBack(f);
    }
  }

  // ----- parentheses in values -----

  /** No value has a closing parenthesis. */
  predicate NeverCloses(f: Filter) {
    match f
    case And(fs) => forall i :: 0 <= i < |fs| ==> NeverCloses(fs[i])
    case Or(fs) => forall i :: 0 <= i < |fs| ==> NeverCloses(fs[i])
    case Not(g) => NeverCloses(g)
    case _ => RPAREN !in ValueText(f)
  }

  lemma EscapeNeverCloses(x: bytes)
    ensures RPAREN in Escape(x) <==> RPAREN in x
  {
    hide *;
    ClosingIsNoDigit();
    SubstringText.NoNewStars(x, RPAREN);
  }

  lemma ClosingIsNoDigit()
    ensures RPAREN < 128 && RPAREN != BSLASH && !IsHex(RPAREN)
  {
  }

  /** Without a closing parenthesis there is none in a substring value made of it. */
  lemma SubstringsNeverClose(x: bytes)
    requires RPAREN !in x && SubstringText.Parse(x).Success?
    ensures RPAREN !in SubstringText.Print(SubstringText.Parse(x).value)
  {
    hide *;
    SubstringText.PrintAfterParse(x);
    Utf8.TrimAddsNothing(x, RPAREN);
    EscapeNeverCloses(Utf8.TrimSpace(x));
  }

  lemma ClassifiedNeverCloses(pre: bytes, after: bytes)
    requires RPAREN !in after
    ensures var r := Classify(pre, after); r.Success? ==> NeverCloses(r.value)
  {
    hide SubstringText.Parse, SubstringText.Print, ParseExtensible, CheckOids, IsAssertionText, HasSuffix, Escape;
    if SubstringText.Parse(after).Success? {
      SubstringsNeverClose(after);
    }
    ExtensibleNeverCloses(pre, after);
    EscapeNeverCloses(after);
  }

  lemma ExtensibleNeverCloses(a: bytes, val: bytes)
    requires RPAREN !in val
    ensures var r := ParseExtensible(a, val); r.Success? ==> NeverCloses(r.value)
  {
    hide Contains, Index, HasPrefix, DnAttrSplit, TrimColons, CheckOids, IsOidOrDescr, Escape;
    EscapeNeverCloses(val);
  }

  lemma ItemNeverCloses(x: bytes)
    ensures var r := ParseItem(x); r.Success? ==> NeverCloses(r.value)
  {
    hide Classify, Index, Without, NeverCloses;
    var i := Index(x, [EQUALS]);
    if i >= 0 {
      ClassifiedNeverCloses(Without(x[..i], LPAREN), Without(x[i + 1..], RPAREN));
    }
  }

  /** The parser drops the closing parentheses of values. */
  lemma {:induction false} ParsedNeverCloses(x: bytes)
    ensures var r := ParseSub(x); r.Success? ==> NeverCloses(r.value)
    decreases |x|, 0
  {
    hide ParseSub, ParseItem, ParseParts, SplitFrom, IsBalanced, NoDoubleOpen, Utf8.TrimSpace;
    hide ValueText;
    SubBranches(x);
    var t := Utf8.TrimSpace(x);
    ItemNeverCloses(t);
    ListNeverCloses([]);
    hide NoneCloses;
    if |t| >= 3 {
      ParsedNeverCloses(t[2..|t| - 1]);
      var parts := SplitFrom(t[2..|t| - 1], [], 0);
      PartsNeverClose(parts, |t| - 3);
      if ParseParts(parts, |t| - 3).Success? {
        ListNeverCloses(ParseParts(parts, |t| - 3).value);
      }
    }
    hide NeverCloses;
  }

  predicate NoneCloses(fs: seq<Filter>) { forall i :: 0 <= i < |fs| ==> NeverCloses(fs[i]) }

  lemma ListNeverCloses(fs: seq<Filter>)
    requires NoneCloses(fs)
    ensures NeverCloses(And(fs)) && NeverCloses(Or(fs)) && NeverCloses(DEFAULT)
  {
  }

  lemma {:induction false} PartsNeverClose(parts: seq<bytes>, longest: nat)
    requires forall p :: p in parts ==> |p| <= longest
    ensures var r := ParseParts(parts, longest);
            r.Success? ==> NoneCloses(r.value)
    decreases longest, 1 + |parts|
  {
    hide ParseSub, NeverCloses;
    if parts != [] {
      ParsedNeverCloses(parts[0]);
      PartsNeverClose(parts[1..], longest);
    }
  }

  /** Spelling keeps the text of substring values. */
  lemma {:induction false} SpelledCloses(f: Filter)
    requires IsReadable(f)
    ensures NeverCloses(Spelled(f)) <==> NeverCloses(f)
    decreases f
  {
    hide IsReadName, IsReadRule, Escape, IsSubstringForm, SpelledSubs, SubstringText.Print;
    match f
    case And(fs) =>
      forall i | 0 <= i < |fs| ensures NeverCloses(Spelled(fs[i])) <==> NeverCloses(fs[i]) {
        SpelledCloses(fs[i]);
      }
      assert Spelled(f).filters == AllSpelled(fs);
    case Or(fs) =>
      forall i | 0 <= i < |fs| ensures NeverCloses(Spelled(fs[i])) <==> NeverCloses(fs[i]) {
        SpelledCloses(fs[i]);
      }
      assert Spelled(f).filters == AllSpelled(fs);
    case Not(g) => SpelledCloses(g);
    case Assertion(_, _, value) => SubstringText.EscapeTwice(value);
    case Substrings(_, subs) => SpelledSubsPrint(subs);
    case Extensible(_, _, value, _) => SubstringText.EscapeTwice(value);
    case _ =>
  }

  lemma SpelledSubsPrint(subs: SubstringText.Substrings)
    requires IsSubstringForm(subs)
    ensures SubstringText.Print(SpelledSubs(subs)) == SubstringText.Print(subs)
  {
    hide SubstringText.Print, SubstringText.Build, SubstringText.InitialOf, SubstringText.AnyOf, SubstringText.FinalOf;
    SubstringText.PrintSpelled(SubstringText.InitialOf(subs), SubstringText.AnyOf(subs), SubstringText.FinalOf(subs));
  }

  lemma EnclosedCount(body: bytes)
    ensures CountOf(Enclose(body), LPAREN) == 1 + CountOf(body, LPAREN)
    ensures CountOf(Enclose(body), RPAREN) == 1 + CountOf(body, RPAREN)
  {
    hide CountOf;
    CountOne(LPAREN, LPAREN);
    CountOne(LPAREN, RPAREN);
    CountOne(RPAREN, LPAREN);
    CountOne(RPAREN, RPAREN);
    CountConcat([LPAREN] + body, [RPAREN], LPAREN);
    CountConcat([LPAREN] + body, [RPAREN], RPAREN);
    CountConcat([LPAREN], body, LPAREN);
    CountConcat([LPAREN], body, RPAREN);
  }

  lemma PlainFrontCount(front: bytes, x: bytes)
    requires NoParens(front)
    ensures CountOf(front + x, LPAREN) == CountOf(x, LPAREN) && CountOf(front + x, RPAREN) == CountOf(x, RPAREN)
  {
    hide CountOf;
    CountConcat(front, x, LPAREN);
    CountConcat(front, x, RPAREN);
    CountAbsent(front, LPAREN);
    CountAbsent(front, RPAREN);
  }

  /** How many parentheses are open at the end of a text. */
  function Excess(x: bytes): int { CountOf(x, LPAREN) - CountOf(x, RPAREN) }

  lemma EnclosedExcess(front: bytes, x: bytes)
    requires NoParens(front)
    ensures Excess(Enclose(front + x)) == Excess(x)
  {
    hide CountOf, Enclose;
    EnclosedCount(front + x);
    PlainFrontCount(front, x);
  }

  lemma ItemExcess(f: Filter)
    requires IsReadable(f) && !f.And? && !f.Or? && !f.Not? && RPAREN !in ValueText(f)
    ensures if LPAREN in ValueText(f) then Excess(Print(f)) > 0 else Excess(Print(f)) == 0
  {
    hide CountOf, ValueText, IsReadable, Print, ItemHead, Enclose;
    ItemText(f);
    var text := ValueText(f);
    EnclosedExcess(ItemHead(f) + [EQUALS], text);
    CountAbsent(text, RPAREN);
    if LPAREN in text {
      CountPresent(text, LPAREN);
    } else {
      CountAbsent(text, LPAREN);
    }
  }

  /** A tree with an opening parenthesis in some value, and a closing one in none, has an unbalanced text. */
  lemma {:induction false} OpenExcess(f: Filter)
    requires IsReadable(f) && NeverCloses(f)
    ensures if IsPlain(f) then Excess(Print(f)) == 0 else Excess(Print(f)) > 0
    decreases f, 0
  {
    hide Excess, Enclose, PrintAll, ValueText, IsReadName, IsReadRule, IsSubstringForm;
    FrontsArePlain();
    match f
    case And(fs) =>
      AllExcess(fs);
      EnclosedExcess([AMPERSAND], PrintAll(fs));
    case Or(fs) =>
      AllExcess(fs);
      EnclosedExcess([PIPE], PrintAll(fs));
    case Not(g) =>
      OpenExcess(g);
      EnclosedExcess([BANG], Print(g));
    case Assertion(_, _, _) => ItemExcess(f);
    case Present(_) => ItemExcess(f);
    case Substrings(_, _) => ItemExcess(f);
    case Extensible(_, _, _, _) => ItemExcess(f);
  }

  lemma FrontsArePlain()
    ensures NoParens([AMPERSAND]) && NoParens([PIPE]) && NoParens([BANG])
  {
  }

  lemma {:induction false} AllExcess(fs: seq<Filter>)
    requires forall i :: 0 <= i < |fs| ==> IsReadable(fs[i]) && NeverCloses(fs[i])
    ensures if forall i :: 0 <= i < |fs| ==> IsPlain(fs[i]) then Excess(PrintAll(fs)) == 0
            else Excess(PrintAll(fs)) > 0
    decreases fs, 0
  {
    hide Print, IsReadable, NeverCloses, IsPlain, CountOf;
    if fs == [] {
      CountNothing(LPAREN);
      CountNothing(RPAREN);
    } else {
      OpenExcess(fs[0]);
      AllExcess(fs[1..]);
      CountConcat(Print(fs[0]), PrintAll(fs[1..]), LPAREN);
      CountConcat(Print(fs[0]), PrintAll(fs[1..]), RPAREN);
      assert forall i :: 0 < i < |fs| ==> fs[i] == fs[1..][i - 1];
    }
  }

  /** What survives has no parentheses in its values. */
  lemma {:induction false} SurvivorsArePlain(f: Filter)
    requires IsReadable(f) && Survives(f)
    ensures IsPlain(f)
    decreases f
  {
    hide IsReadName, IsReadRule, IsAssertionText, IsSubstringForm, IsAmbiguous, Escape;
    hide SubstringText.Print, SubstringText.Survives;
    match f
    case And(fs) =>
      forall i | 0 <= i < |fs| ensures IsPlain(fs[i]) {
        SurvivorsArePlain(fs[i]);
      }
    case Or(fs) =>
      forall i | 0 <= i < |fs| ensures IsPlain(fs[i]) {
        SurvivorsArePlain(fs[i]);
      }
    case Not(g) => SurvivorsArePlain(g);
    case Assertion(_, _, value) => AssertionTextHasNoParens(Escape(value));
    case Extensible(_, _, value, _) => AssertionTextHasNoParens(Escape(value));
    case _ =>
  }

  /** The text of a tree has no white space at its ends. */
  lemma TextIsTrimmed(f: Filter)
    requires IsReadable(f)
    ensures |Print(f)| >= 3 && Utf8.TrimSpace(Print(f)) == Print(f)
  {
    TextIsEnclosed(f);
    hide Print;
    Utf8.TrimKeeps(Print(f));
  }

  lemma TextIsEnclosed(f: Filter)
    requires IsReadable(f)
    ensures var t := Print(f); |t| >= 3 && t[0] == LPAREN && t[|t| - 1] == RPAREN
  {
    hide IsReadable, PrintAll;
    if f.Not? {
      NegationIsEnclosed(f);
    } else if !f.And? && !f.Or? {
      ItemText(f);
      hide Print;
    }
  }

  lemma NegationIsEnclosed(f: Filter)
    requires IsReadable(f) && f.Not?
    ensures Print(f) == Enclose([BANG] + Print(f.filter))
  {
  }

  /** Parentheses in a value are dropped, or leave the text unbalanced. */
  lemma ParensAreLost(f: Filter)
    requires IsReadable(f) && !IsPlain(f)
    ensures ParseSub(Print(f)) != Success(Spelled(f))
  {
    hide *;
    SpelledCloses(f);
    ParsedNeverCloses(Print(f));
    if NeverCloses(f) {
      OpenExcess(f);
      TextIsTrimmed(f);
      UnbalancedIsRefused(Print(f));
    }
  }

  lemma UnbalancedIsRefused(t: bytes)
    requires t != [] && Utf8.TrimSpace(t) == t && Excess(t) > 0
    ensures ParseSub(t).Failure?
  {
    hide CountOf, Utf8.TrimSpace, NoDoubleOpen;
  }

  /**
    Every tree whose names the parser takes comes back from its text, up to the spelling of octets beyond ASCII,
    exactly when it survives.
   */
  lemma ReadableComesBack(f: Filter)
    requires IsReadable(f)
    ensures ParseSub(Print(f)) == Success(Spelled(f)) <==> Survives(f)
  {
    hide *;
    if IsPlain(f) {
      PlainComesBack(f);
    } else {
      ParensAreLost(f);
      if Survives(f) {
        SurvivorsArePlain(f);
      }
    }
  }

  // ----- trees of the grammar -----

  /** Options behind an attribute type, each with a semicolon in front. */
  predicate IsOptions(x: bytes) {
    x != [] ==> x[0] as char == ';' && forall i :: 0 <= i < |x| ==> IsAlnum(x[i]) || x[i] as char in "-;"
  }

  /** An attribute description of section 2.5 of RFC 4512. */
  ghost predicate IsName(x: bytes) { exists typ, options :: IsOid(typ) && IsOptions(options) && x == typ + options }

  /**
    A tree of section 2 of RFC 4515: attribute descriptions and matching rules are those of RFC 4512, and an
    extensible match has one of them and a value.
   */
  ghost predicate WellFormed(f: Filter) {
    match f
    case And(fs) => forall i :: 0 <= i < |fs| ==> WellFormed(fs[i])
    case Or(fs) => forall i :: 0 <= i < |fs| ==> WellFormed(fs[i])
    case Not(g) => WellFormed(g)
    case Assertion(op, desc, value) => IsName(desc)
    case Present(desc) => IsName(desc)
    case Substrings(typ, subs) => IsName(typ) && IsSubstringForm(subs)
    case Extensible(rule, typ, value, dn) =>
      && (typ == [] || IsName(typ)) && (rule == [] || IsOid(rule)) && (typ != [] || rule != []) && value != []
    case Invalid => false
    case Nil => false
  }

  lemma RuleIsRead(x: bytes)
    requires IsOid(x)
    ensures x != [] && IsReadRule(x) && IsReadName(x) && SEMI !in x
  {
    hide IsOidOrDescr, IsOid, SplitOnByte;
    OidsAreAccepted(x);
    SplitOnByteAbsent(x, SEMI);
  }

  /** The parser takes every attribute description of the grammar. */
  lemma NameIsRead(x: bytes)
    requires IsName(x)
    ensures IsReadName(x)
  {
    hide IsOidOrDescr, IsOid, SplitOnByte;
    var typ, options :| IsOid(typ) && IsOptions(options) && x == typ + options;
    RuleIsRead(typ);
    SplitOnByteAbsent(typ, SEMI);
    OptionChars(options);
    if options == [] {
      assert x == typ;
    } else {
      assert options == [SEMI] + options[1..];
      SplitOnByteCons(typ, SEMI, options[1..]);
    }
  }

  lemma OptionChars(x: bytes)
    requires IsOptions(x)
    ensures IsNameText(x)
  {
    forall i | 0 <= i < |x| ensures IsNameChar(x[i]) {
    }
  }

  lemma {:induction false} WellFormedIsReadable(f: Filter)
    requires WellFormed(f)
    ensures IsReadable(f)
    decreases f
  {
    hide IsName, IsReadName, IsReadRule, IsOid, IsSubstringForm;
    match f
    case And(fs) =>
      forall i | 0 <= i < |fs| ensures IsReadable(fs[i]) {
        WellFormedIsReadable(fs[i]);
      }
    case Or(fs) =>
      forall i | 0 <= i < |fs| ensures IsReadable(fs[i]) {
        WellFormedIsReadable(fs[i]);
      }
    case Not(g) => WellFormedIsReadable(g);
    case Assertion(_, desc, _) => NameIsRead(desc);
    case Present(desc) => NameIsRead(desc);
    case Substrings(typ, _) => NameIsRead(typ);
    case Extensible(rule, typ, _, _) =>
      if typ != [] {
        NameIsRead(typ);
      }
      if rule != [] {
        RuleIsRead(rule);
      }
  }

  /**
    Section 3 of RFC 4515 promises that a filter survives its text. The tree comes back, up to the spelling of
    octets beyond ASCII, if and only if every operand of a "not" takes up five octets, no matching rule reads as
    the keyword for DN attributes, and every value is written as RFC 4515 demands: a value assertion without bare
    parentheses, asterisks or backslashes, and substrings that survive their own text, without parentheses.
   */
  lemma PrintParseRoundTrip(f: Filter)
    requires WellFormed(f)
    ensures ParseSub(Print(f)) == Success(Spelled(f)) <==> Survives(f)
  {
    hide *;
    WellFormedIsReadable(f);
    ReadableComesBack(f);
  }

  /** The spelling changes nothing exactly when all values are ASCII. */
  lemma {:induction false} SpelledKeepsExactlyAscii(f: Filter)
    requires IsReadable(f)
    ensures Spelled(f) == f <==> HasAsciiValues(f)
    decreases f
  {
    hide IsReadName, IsReadRule, IsValue, Escape;
    match f
    case And(fs) => AllSpelledKeepAscii(f);
    case Or(fs) => AllSpelledKeepAscii(f);
    case Not(g) => SpelledKeepsExactlyAscii(g);
    case Assertion(_, _, value) => EscapeKeepsExactlyAscii(value);
    case Present(_) =>
    case Substrings(_, subs) => SpelledSubsKeepAscii(subs);
    case Extensible(_, _, value, _) => EscapeKeepsExactlyAscii(value);
  }

  lemma AllSpelledKeepAscii(f: Filter)
    requires IsReadable(f) && (f.And? || f.Or?)
    ensures Spelled(f) == f <==> HasAsciiValues(f)
    decreases f, 0
  {
    var fs := f.filters;
    assert Spelled(f) == if f.And? then And(AllSpelled(fs)) else Or(AllSpelled(fs));
    assert AllSpelled(fs) == fs <==> forall i :: 0 <= i < |fs| ==> Spelled(fs[i]) == fs[i];
    hide Spelled, AllSpelled;
    forall i | 0 <= i < |fs| ensures Spelled(fs[i]) == fs[i] <==> HasAsciiValues(fs[i]) {
      SpelledKeepsExactlyAscii(fs[i]);
    }
  }

  lemma SpelledSubsKeepAscii(subs: SubstringText.Substrings)
    requires IsSubstringForm(subs)
    ensures SpelledSubs(subs) == subs <==> HasAsciiValues(Substrings([], subs))
  {
    hide SubstringText.IsTriple, SubstringText.Print, Utf8.TrimSpace, Escape;
    var init, anys, fin := SubstringText.InitialOf(subs), SubstringText.AnyOf(subs), SubstringText.FinalOf(subs);
    SubstringText.BuiltParts(Escape(init), Escape(fin), SubstringText.EscapeAll(anys));
    hide SubstringText.Build, SubstringText.InitialOf, SubstringText.AnyOf, SubstringText.FinalOf;
    EscapeKeepsExactlyAscii(init);
    EscapeKeepsExactlyAscii(fin);
    forall k | 0 <= k < |anys| ensures Escape(anys[k]) == anys[k] <==> IsAscii(anys[k]) {
      EscapeKeepsExactlyAscii(anys[k]);
    }
    assert SubstringText.EscapeAll(anys) == anys <==> forall k :: 0 <= k < |anys| ==> Escape(anys[k]) == anys[k];
  }

  /** NewFilter on the text of an ASCII tree gives the tree itself, under exactly the same condition. */
  lemma AsciiFiltersComeBack(f: Filter)
    requires WellFormed(f) && HasAsciiValues(f)
    ensures Parse(Print(f)) == Success(f) <==> Survives(f)
  {
    hide ParseSub, Print, HasAsciiValues, Survives, Spelled;
    PrintParseRoundTrip(f);
    WellFormedIsReadable(f);
    SpelledKeepsExactlyAscii(f);
    TextIsTrimmed(f);
  }

  lemma OneLetterName()
    ensures IsName([97])
  {
    BareName([97]);
  }

  /** A name without options. */
  lemma BareName(x: bytes)
    requires IsOid(x)
    ensures IsName(x)
  {
    assert IsOptions([]) && x == x + [];
  }

  /** `(!(a=))` is well-formed and seven octets long: it is refused. */
  lemma ShortOperandIsRefused()
    ensures var f := Not(Assertion(Equal, [97], []));
            && WellFormed(f) && HasAsciiValues(f)
            && Print(f) == [LPAREN, BANG, LPAREN, 97, EQUALS, RPAREN, RPAREN]
            && Parse(Print(f)) == Failure(InvalidFilter)
  {
    var f := Not(Assertion(Equal, [97], []));
    OneLetterName();
    ShortText();
    hide IsName, Print, ParseSub;
    WellFormedIsReadable(f);
    hide IsReadable;
    NotDispatch(f);
  }

  lemma ShortText()
    ensures var f := Not(Assertion(Equal, [97], []));
            Print(f) == [LPAREN, BANG, LPAREN, 97, EQUALS, RPAREN, RPAREN]
  {
    assert [97] + OperatorText(Equal) + Escape([]) == [97, EQUALS];
  }

  /** `(a=(b))` is the text of a value in parentheses, which is not read back. */
  lemma BareParenthesesAreLost()
    ensures var f := Assertion(Equal, [97], [LPAREN, 98, RPAREN]);
            && WellFormed(f) && HasAsciiValues(f)
            && Print(f) == [LPAREN, 97, EQUALS, LPAREN, 98, RPAREN, RPAREN]
            && Parse(Print(f)) != Success(f)
  {
    var f := Assertion(Equal, [97], [LPAREN, 98, RPAREN]);
    OneLetterName();
    ParensAreNoValue();
    BareText();
    hide Parse, Print, Escape, IsValue, IsName, IsAscii;
    AsciiFiltersComeBack(f);
  }

  lemma BareText()
    requires Escape([LPAREN, 98, RPAREN]) == [LPAREN, 98, RPAREN]
    ensures var f := Assertion(Equal, [97], [LPAREN, 98, RPAREN]);
            Print(f) == [LPAREN, 97, EQUALS, LPAREN, 98, RPAREN, RPAREN]
  {
    hide Escape;
    assert [97] + OperatorText(Equal) + [LPAREN, 98, RPAREN] == [97, EQUALS, LPAREN, 98, RPAREN];
  }

  lemma ParensAreNoValue()
    ensures var x: bytes := [LPAREN, 98, RPAREN]; IsAscii(x) && Escape(x) == x && !IsValue(x)
  {
    var x: bytes := [LPAREN, 98, RPAREN];
    EscapeKeepsExactlyAscii(x);
    if IsAssertionText(x) {
      hide Escape, IsAssertionText;
      AssertionTextHasNoParens(x);
    }
  }

  /** `(a:dn:=b)` is the text of a match with the rule "dn" and of one that asks for DN attributes. */
  lemma RuleReadsAsKeyword()
    ensures var f, g := Extensible(LOWER_KEY, [97], [98], false), Extensible([], [97], [98], true);
            && WellFormed(f) && WellFormed(g) && Print(f) == Print(g)
            && Parse(Print(f)) == Success(g)
  {
    var f, g := Extensible(LOWER_KEY, [97], [98], false), Extensible([], [97], [98], true);
    OneLetterName();
    EscapeKeepsExactlyAscii([98]);
    KeywordIsRule();
    hide Parse, Escape, IsName, IsOid, IsAssertionText, IsAscii;
    assert [97] + [COLON] + LOWER_KEY + [COLON] == [97] + LOWER_DN;
    AsciiFiltersComeBack(g);
  }

  lemma KeywordIsRule()
    ensures IsOid(LOWER_KEY) && IsAscii([98]) && IsAssertionText([98])
  {
    assert [98][1..] == [];
  }

  /** `(1.3.6.1.4.1.1466.0=\04\02\48\69)`, an example of section 4 of RFC 4515, is read as what it says. */
  lemma NumericTypeIsRead()
    ensures Parse(Ascii("(1.3.6.1.4.1.1466.0=\\04\\02\\48\\69)"))
         == Success(Assertion(Equal, Ascii("1.3.6.1.4.1.1466.0"), Ascii("\\04\\02\\48\\69")))
  {
    hide *;
    var f := Assertion(Equal, Ascii("1.3.6.1.4.1.1466.0"), Ascii("\\04\\02\\48\\69"));
    ExampleOid();
    BareName(Ascii("1.3.6.1.4.1.1466.0"));
    ExampleValue();
    ExampleText();
    AsciiAssertion(Equal, f.desc, f.value);
    AsciiFiltersComeBack(f);
  }

  lemma AsciiAssertion(op: Operator, desc: bytes, value: bytes)
    requires IsName(desc) && IsAscii(value) && IsAssertionText(value)
    ensures var f := Assertion(op, desc, value); WellFormed(f) && HasAsciiValues(f) && Survives(f)
  {
    hide IsName, Escape, IsAssertionText;
    EscapeKeepsExactlyAscii(value);
  }

  lemma ExampleOid()
    ensures IsOid(Ascii("1.3.6.1.4.1.1466.0"))
  {
    hide Decimal, Dotted, Ascii, IsDescr;
    var a, b: seq<nat> := [1, 1466, 0], [1, 4, 1, 1466, 0];
    LastArcs();
    DigitArc(1, [1466, 0]);
    DigitArc(4, a);
    DigitArc(1, [4] + a);
    DigitArc(6, b);
    DigitArc(3, [6] + b);
    DigitArc(1, [3, 6] + b);
    var arcs: seq<nat> := [1, 3, 6] + b;
    assert [1] + [1466, 0] == a && [1] + ([4] + a) == b && [3] + ([6] + b) == [3, 6] + b && [1] + ([3, 6] + b) == arcs;
    var front: bytes := [49, DOT, 51, DOT, 54, DOT, 49, DOT, 52, DOT, 49, DOT];
    assert Dotted(arcs) == front + [49, 52, 54, 54, DOT, 48];
    ExampleOctets();
    assert AreArcs(arcs);
  }

  lemma DigitArc(n: nat, arcs: seq<nat>)
    requires n < 10 && arcs != []
    ensures Dotted([n] + arcs) == [48 + n, DOT] + Dotted(arcs)
  {
    hide Decimal;
    DecimalStep(n);
    assert ([n] + arcs)[1..] == arcs;
  }

  lemma LastArcs()
    ensures Dotted([1466, 0]) == [49, 52, 54, 54, DOT, 48]
  {
    hide Decimal;
    DecimalStep(0);
    DecimalStep(1);
    DecimalStep(14);
    DecimalStep(146);
    DecimalStep(1466);
    assert [1466, 0][1..] == [0];
    assert Dotted([0]) == [48];
  }

  lemma ExampleOctets()
    ensures Ascii("1.3.6.1.4.1.1466.0")
         == [49, DOT, 51, DOT, 54, DOT, 49, DOT, 52, DOT, 49, DOT] + [49, 52, 54, 54, DOT, 48]
  {
  }

  lemma ExampleValue()
    ensures var v := Ascii("\\04\\02\\48\\69"); IsAscii(v) && IsAssertionText(v) && Escape(v) == v
  {
    hide Ascii, IsAssertionText, Escape;
    ValueOctets();
    var v: bytes := [BSLASH, 48, 52, BSLASH, 48, 50, BSLASH, 52, 56, BSLASH, 54, 57];
    EscapeKeepsExactlyAscii(v);
    NothingIsAssertion();
    PairIsAssertion(54, 57, []);
    assert [BSLASH, 54, 57] + [] == [BSLASH, 54, 57];
    PairIsAssertion(52, 56, [BSLASH, 54, 57]);
    assert [BSLASH, 52, 56] + [BSLASH, 54, 57] == [BSLASH, 52, 56, BSLASH, 54, 57];
    PairIsAssertion(48, 50, [BSLASH, 52, 56, BSLASH, 54, 57]);
    assert [BSLASH, 48, 50] + [BSLASH, 52, 56, BSLASH, 54, 57] == [BSLASH, 48, 50, BSLASH, 52, 56, BSLASH, 54, 57];
    PairIsAssertion(48, 52, [BSLASH, 48, 50, BSLASH, 52, 56, BSLASH, 54, 57]);
    assert v == [BSLASH, 48, 52] + [BSLASH, 48, 50, BSLASH, 52, 56, BSLASH, 54, 57];
  }

  lemma ValueOctets()
    ensures Ascii("\\04\\02\\48\\69") == [BSLASH, 48, 52, BSLASH, 48, 50, BSLASH, 52, 56, BSLASH, 54, 57]
  {
  }

  lemma PairIsAssertion(h: byte, l: byte, rest: bytes)
    requires IsHex(h) && IsHex(l) && IsAssertionText(rest)
    ensures IsAssertionText([BSLASH, h, l] + rest)
  {
    assert ([BSLASH, h, l] + rest)[3..] == rest;
  }

  lemma ExampleText()
    requires var v := Ascii("\\04\\02\\48\\69"); Escape(v) == v
    ensures Print(Assertion(Equal, Ascii("1.3.6.1.4.1.1466.0"), Ascii("\\04\\02\\48\\69")))
         == Ascii("(1.3.6.1.4.1.1466.0=\\04\\02\\48\\69)")
  {
    hide Escape, Print, Ascii;
    TextOfEquality(Ascii("1.3.6.1.4.1.1466.0"), Ascii("\\04\\02\\48\\69"));
    ExampleOctets();
    ValueOctets();
    LineOctets();
  }

  lemma TextOfEquality(desc: bytes, value: bytes)
    requires desc != [] && Escape(value) == value
    ensures Print(Assertion(Equal, desc, value)) == [LPAREN] + desc + [EQUALS] + value + [RPAREN]
  {
    hide Escape;
  }

  lemma LineOctets()
    ensures Ascii("(1.3.6.1.4.1.1466.0=\\04\\02\\48\\69)")
         == [LPAREN] + ([49, DOT, 51, DOT, 54, DOT, 49, DOT, 52, DOT, 49, DOT] + [49, 52, 54, 54, DOT, 48]) + [EQUALS]
            + [BSLASH, 48, 52, BSLASH, 48, 50, BSLASH, 52, 56, BSLASH, 54, 57] + [RPAREN]
  {
  }
}
