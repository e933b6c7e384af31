/**
  aci/aci.go: bind rules and their text. A phrase is a text of the grammar with its spelling: connectives and keywords
  in any case, and blanks wherever they may stand. It is tokenized, fused and parsed to the rule it means, with the
  same parentheses, exactly when no expression is empty or contains an operator that the search prefers. Printed rules
  in normal form are phrases.
 */
module BindRuleText {
  import opened Bytes
  import opened Wrappers
  import opened BindRules
  import Utf8

  // ----- normal forms -----

  /** An expression that fits between quotation marks. */
  predicate IsExpression(v: bytes) { DQUOTE !in v }

  /**
    Groups are in parentheses and have at least two operands; a negation stands only behind AND, and never over
    another negation.
   */
  predicate IsNormal(r: Rule, negatable: bool) {
    match r
    case Item(_, _, value, _, _) => IsExpression(value)
    case And(rules, paren, _) =>
      paren && |rules| >= 2 && IsNormal(rules[0], false) && forall i :: 1 <= i < |rules| ==> IsNormal(rules[i], true)
    case Or(rules, paren, _) => paren && |rules| >= 2 && forall i :: 0 <= i < |rules| ==> IsNormal(rules[i], false)
    case Not(x) => negatable && IsNormal(x, false)
    case Nil => false
  }

  /** The same rule with all padding switched off. */
  function Unpadded(r: Rule): Rule {
    match r
    case Item(k, op, value, paren, _) => Item(k, op, value, paren, false)
    case And(rules, paren, _) => And(seq(|rules|, i requires 0 <= i < |rules| => Unpadded(rules[i])), paren, false)
    case Or(rules, paren, _) => Or(seq(|rules|, i requires 0 <= i < |rules| => Unpadded(rules[i])), paren, false)
    case Not(x) => Not(Unpadded(x))
    case Nil => Nil
  }

  /** No operator that is searched for before `op` occurs in the expression. */
  predicate IsUnclouded(op: Operator, v: bytes) {
    match op
    case Le => true
    case Ge => !Contains(v, LESS_EQUALS)
    case Ne => !Contains(v, LESS_EQUALS) && !Contains(v, GREATER_EQUALS)
    case Eq => !Contains(v, LESS_EQUALS) && !Contains(v, GREATER_EQUALS) && !Contains(v, BANG_EQUALS)
    case Lt => EQUALS !in v
    case Gt => EQUALS !in v && LESS !in v
  }

  /** Every expression is unclouded, and what is left of it without its outer blanks means itself to its keyword. */
  predicate IsReadable(read: Reader, r: Rule) {
    match r
    case Item(k, op, value, _, _) => IsUnclouded(op, value) && read(k, Utf8.TrimSpace(value)) == Some(value)
    case And(rules, _, _) => forall i :: 0 <= i < |rules| ==> IsReadable(read, rules[i])
    case Or(rules, _, _) => forall i :: 0 <= i < |rules| ==> IsReadable(read, rules[i])
    case Not(x) => IsReadable(read, x)
    case Nil => true
  }

  /** No expression is empty. */
  predicate IsFilled(r: Rule) {
    match r
    case Item(_, _, value, _, _) => value != []
    case And(rules, _, _) => forall i :: 0 <= i < |rules| ==> IsFilled(rules[i])
    case Or(rules, _, _) => forall i :: 0 <= i < |rules| ==> IsFilled(rules[i])
    case Not(x) => IsFilled(x)
    case Nil => true
  }

  // ----- phrases -----

  /** Blanks inside the parentheses, if there are any. */
  datatype Frame = Frame(paren: bool, before: bytes, after: bytes)

  /** A connective as it is spelled, with the blanks around it. */
  datatype Link = Link(before: bytes, word: bytes, after: bytes)

  /** The further operands of a group, each behind its connective. */
  datatype Operands = End | More(link: Link, phrase: Phrase, next: Operands)

  datatype Phrase =
    | Test(word: bytes, keyword: Keyword, operator: Operator, value: bytes, left: bytes, right: bytes, frame: Frame)
    | Group(conjunction: bool, first: Phrase, others: Operands, frame: Frame)
    | Negation(word: bytes, gap: bytes, phrase: Phrase)

  /** Runs of the four blanks. */
  predicate IsGap(g: bytes) { forall i :: 0 <= i < |g| ==> g[i] as char in " \t\n\r" }

  predicate SameLetter(c: byte, d: byte) {
    || c == d
    || ('A' <= c as char <= 'Z' && d == c + 32)
    || ('A' <= d as char <= 'Z' && c == d + 32)
  }

  /** The word in any case. */
  predicate IsSpelling(w: bytes, word: bytes) {
    |w| == |word| && forall i :: 0 <= i < |w| ==> SameLetter(w[i], word[i])
  }

  function Connective(conjunction: bool): bytes { if conjunction then AND_WORD else OR_WORD }

  predicate IsLink(l: Link, conjunction: bool) {
    IsGap(l.before) && IsSpelling(l.word, Connective(conjunction)) && IsGap(l.after) && l.after != []
  }

  predicate IsFrame(f: Frame) { IsGap(f.before) && IsGap(f.after) }

  /**
    Groups are in parentheses and have at least two operands; a negation stands only behind AND, and never over
    another negation.
   */
  predicate IsPhrase(d: Phrase, negatable: bool) {
    match d
    case Test(word, k, _, value, left, right, frame) =>
      IsSpelling(word, KeywordText(k)) && IsExpression(value) && IsGap(left) && IsGap(right) && IsFrame(frame)
    case Group(conjunction, first, others, frame) =>
      && frame.paren && IsFrame(frame) && others.More?
      && IsPhrase(first, false) && AreOperands(others, conjunction)
    case Negation(word, gap, x) =>
      negatable && IsSpelling(word, NOT_WORD) && IsGap(gap) && gap != [] && IsPhrase(x, false)
  }

  predicate AreOperands(others: Operands, conjunction: bool) {
    others.More? ==>
      && IsLink(others.link, conjunction) && IsPhrase(others.phrase, conjunction)
      && AreOperands(others.next, conjunction)
  }

  function Framed(body: bytes, f: Frame): bytes {
    if f.paren then [LPAREN] + (f.before + (body + (f.after + [RPAREN]))) else body
  }

  function TestText(word: bytes, left: bytes, op: Operator, right: bytes, value: bytes): bytes {
    word + (left + (OperatorText(op) + (right + ([DQUOTE] + (value + [DQUOTE])))))
  }

  function Text(d: Phrase): bytes
    decreases d, 0
  {
    match d
    case Test(word, _, op, value, left, right, frame) => Framed(TestText(word, left, op, right, value), frame)
    case Group(_, first, others, frame) => Framed(Text(first) + OthersText(others), frame)
    case Negation(word, gap, x) => word + (gap + Text(x))
  }

  function OthersText(others: Operands): bytes
    decreases others, 0
  {
    if others.End? then []
    else
      var l := others.link;
      l.before + (l.word + (l.after + (Text(others.phrase) + OthersText(others.next))))
  }

  /** The rule a phrase spells. */
  function Meaning(d: Phrase): Rule
    decreases d, 0
  {
    match d
    case Test(_, k, op, value, _, _, frame) => Item(k, op, value, frame.paren, false)
    case Group(conjunction, first, others, frame) =>
      if conjunction then And([Meaning(first)] + Meanings(others), frame.paren, false)
      else Or([Meaning(first)] + Meanings(others), frame.paren, false)
    case Negation(_, _, x) => Not(Meaning(x))
  }

  function Meanings(others: Operands): (r: seq<Rule>)
    decreases others, 0
  {
    if others.End? then [] else [Meaning(others.phrase)] + Meanings(others.next)
  }

  // ----- the tokens of a phrase -----

  function Enclosed(ts: seq<Token>, paren: bool): seq<Token> { if paren then [Open] + (ts + [Close]) else ts }

  function ItemTokens(word: bytes, op: Operator, v: bytes): seq<Token> {
    [Value(word), Value(OperatorText(op)), Value(v)]
  }

  function ConnectiveToken(conjunction: bool): Token { if conjunction then AndToken else OrToken }

  /** Before AND NOT is fused. */
  function Raw(d: Phrase): seq<Token>
    decreases d, 0
  {
    match d
    case Test(word, _, op, v, _, _, frame) => Enclosed(ItemTokens(word, op, v), frame.paren)
    case Group(conjunction, first, others, frame) =>
      Enclosed(Raw(first) + RawTail(others, ConnectiveToken(conjunction)), frame.paren)
    case Negation(_, _, x) => [NotToken] + Raw(x)
  }

  function RawTail(others: Operands, t: Token): seq<Token>
    decreases others, 0
  {
    if others.End? then [] else [t] + (Raw(others.phrase) + RawTail(others.next, t))
  }

  /** After AND NOT is fused: every further operand with its operator in front. */
  function Tokens(d: Phrase): seq<Token>
    decreases d, 0
  {
    match d
    case Test(word, _, op, v, _, _, frame) => Enclosed(ItemTokens(word, op, v), frame.paren)
    case Group(conjunction, first, others, frame) =>
      Enclosed(Tokens(first) + Tail(others, ConnectiveToken(conjunction)), frame.paren)
    case Negation(_, _, x) => [NotToken] + Tokens(x)
  }

  /** An operand behind its operator; a negation is its own operator. */
  function Member(d: Phrase, t: Token): seq<Token>
    decreases d, 1
  {
    if d.Negation? then Tokens(d) else [t] + Tokens(d)
  }

  function Tail(others: Operands, t: Token): seq<Token>
    decreases others, 0
  {
    if others.End? then [] else Member(others.phrase, t) + Tail(others.next, t)
  }

  // ----- tokenizing step by step -----

  lemma EmptyText(buf: bytes)
    ensures TokensFrom([], buf) == Flush(buf)
  {
  }

  lemma OpenStep(s: bytes, buf: bytes)
    ensures TokensFrom([LPAREN] + s, buf) == Flush(buf) + ([Open] + TokensFrom(s, []))
  {
    assert ([LPAREN] + s)[1..] == s;
  }

  lemma CloseStep(s: bytes, buf: bytes)
    ensures TokensFrom([RPAREN] + s, buf) == Flush(buf) + ([Close] + TokensFrom(s, []))
  {
    assert ([RPAREN] + s)[1..] == s;
  }

  lemma BlankStep(c: byte, s: bytes, buf: bytes)
    requires IsBlank(c)
    ensures TokensFrom([c] + s, buf) == Flush(buf) + TokensFrom(s, [])
  {
    assert ([c] + s)[1..] == s;
  }

  lemma FourBlanks(c: byte)
    ensures IsBlank(c) <==> c as char in " \t\n\r"
  {
    assert " \t\n\r"[0] in " \t\n\r" && " \t\n\r"[1] in " \t\n\r";
    assert " \t\n\r"[2] in " \t\n\r" && " \t\n\r"[3] in " \t\n\r";
  }

  /** A gap between tokens leaves no trace. */
  lemma {:induction false} GapStep(g: bytes, s: bytes)
    requires IsGap(g)
    ensures TokensFrom(g + s, []) == TokensFrom(s, [])
    decreases |g|
  {
    hide TokensFrom;
    if g == [] {
      assert g + s == s;
    } else {
      FourBlanks(g[0]);
      assert g + s == [g[0]] + (g[1..] + s);
      BlankStep(g[0], g[1..] + s, []);
      GapStep(g[1..], s);
      assert [] + TokensFrom(s, []) == TokensFrom(s, []);
    }
  }

  /** A gap ends a word. */
  lemma GapFlushes(g: bytes, s: bytes, buf: bytes)
    requires IsGap(g) && g != []
    ensures TokensFrom(g + s, buf) == Flush(buf) + TokensFrom(s, [])
  {
    hide TokensFrom;
    FourBlanks(g[0]);
    assert g + s == [g[0]] + (g[1..] + s);
    BlankStep(g[0], g[1..] + s, buf);
    GapStep(g[1..], s);
  }

  lemma LetterStep(c: byte, s: bytes, buf: bytes)
    requires IsAlpha(c)
    ensures TokensFrom([c] + s, buf) == TokensFrom(s, buf + [c])
  {
    assert ([c] + s)[1..] == s;
  }

  predicate IsWord(w: bytes) { w != [] && forall i :: 0 <= i < |w| ==> IsAlpha(w[i]) }

  lemma {:induction false} WordStep(w: bytes, s: bytes, buf: bytes)
    requires forall i :: 0 <= i < |w| ==> IsAlpha(w[i])
    ensures TokensFrom(w + s, buf) == TokensFrom(s, buf + w)
    decreases |w|
  {
    hide TokensFrom;
    if w == [] {
      assert w + s == s && buf + w == buf;
    } else {
      assert w + s == [w[0]] + (w[1..] + s);
      LetterStep(w[0], w[1..] + s, buf);
      WordStep(w[1..], s, buf + [w[0]]);
      assert buf + [w[0]] + w[1..] == buf + w;
    }
  }

  lemma {:induction false} UpToQuoteStops(v: bytes, rest: bytes)
    requires DQUOTE !in v
    ensures UpToQuote(v + ([DQUOTE] + rest)) == v
    decreases |v|
  {
    var s := v + ([DQUOTE] + rest);
    if v != [] {
      assert s[1..] == v[1..] + ([DQUOTE] + rest);
      UpToQuoteStops(v[1..], rest);
      assert v == [v[0]] + v[1..];
    }
  }

  lemma QuoteStep(v: bytes, rest: bytes, buf: bytes)
    requires DQUOTE !in v
    ensures TokensFrom([DQUOTE] + (v + [DQUOTE]) + rest, buf) == Flush(buf) + ([Value(v)] + TokensFrom(rest, []))
  {
    var s := [DQUOTE] + (v + [DQUOTE]) + rest;
    assert s[1..] == v + ([DQUOTE] + rest);
    UpToQuoteStops(v, rest);
    assert s[2 + |v|..] == rest;
    hide UpToQuote;
  }

  /** An operator flushes what is before it and is itself flushed by anything but an equals sign. */
  lemma OperatorStep(op: Operator, s: bytes, buf: bytes)
    requires s != [] && s[0] != EQUALS
    ensures TokensFrom(OperatorText(op) + s, buf) == Flush(buf) + TokensFrom(s, OperatorText(op))
  {
    hide Flush;
    var t := OperatorText(op) + s;
    if |OperatorText(op)| == 1 {
      assert t[1..] == s;
    } else {
      assert t[2..] == s;
    }
  }

  /** Agreement up to case is agreement in lower case. */
  lemma SpellingLowers(w: bytes, word: bytes)
    requires IsSpelling(w, word)
    ensures Lower(w) == Lower(word) && |w| == |word|
    ensures IsWord(word) ==> IsWord(w)
  {
    forall i | 0 <= i < |w| ensures LowerByte(w[i]) == LowerByte(word[i]) && (IsAlpha(word[i]) ==> IsAlpha(w[i])) {
      LetterCase(w[i], word[i]);
    }
  }

  lemma LetterCase(c: byte, d: byte)
    requires SameLetter(c, d)
    ensures LowerByte(c) == LowerByte(d) && (IsAlpha(d) ==> IsAlpha(c))
  {
  }

  /** A keyword is a word of its own in every case, and so is every operator. */
  lemma WordTokens(w: bytes, k: Keyword, op: Operator)
    requires IsSpelling(w, KeywordText(k))
    ensures IsWord(w) && WordToken(w) == Value(w) && Lower(w) == KeywordText(k)
    ensures WordToken(OperatorText(op)) == Value(OperatorText(op)) && OperatorText(op) != []
  {
    hide WordToken, KeywordText, OperatorText;
    KeywordIsWord(k);
    SpellingLowers(w, KeywordText(k));
    SameWordToken(w, KeywordText(k));
    OperatorIsNoWord(op);
  }

  lemma SameWordToken(w: bytes, word: bytes)
    requires Lower(w) == Lower(word) && WordToken(word) == Value(word)
    ensures WordToken(w) == Value(w)
  {
  }

  lemma KeywordIsWord(k: Keyword)
    ensures IsWord(KeywordText(k)) && WordToken(KeywordText(k)) == Value(KeywordText(k))
    ensures Lower(KeywordText(k)) == KeywordText(k)
  {
    var x := KeywordText(k);
    KeywordIsLower(k);
    hide KeywordText;
    assert |x| == 3 ==> Lower(x)[1] == LowerByte(x[1]);
    assert Lower(AND_WORD)[0] == 97 && Lower(AND_WORD)[1] == 110;
    assert Lower(NOT_WORD)[0] == 110 && Lower(OR_WORD)[0] == 111;
  }

  /** No keyword starts like NOT or OR, and the ones of three letters do not go on like AND. */
  lemma KeywordIsLower(k: Keyword)
    ensures IsWord(KeywordText(k)) && Lower(KeywordText(k)) == KeywordText(k)
    ensures KeywordText(k)[0] != 110 && KeywordText(k)[0] != 111
    ensures |KeywordText(k)| == 3 ==> KeywordText(k)[0] != 97
  {
  }

  lemma OperatorIsNoWord(op: Operator)
    ensures WordToken(OperatorText(op)) == Value(OperatorText(op)) && OperatorText(op) != []
  {
    var x := OperatorText(op);
    assert Lower(x)[0] == LowerByte(x[0]);
    assert Lower(AND_WORD)[0] == 97 && Lower(NOT_WORD)[0] == 110 && Lower(OR_WORD)[0] == 111;
  }

  // ----- tokenizing phrases -----

  lemma FramedTokens(body: bytes, ts: seq<Token>, rest: bytes, f: Frame)
    requires IsFrame(f)
    requires var after := if f.paren then f.after + ([RPAREN] + rest) else rest;
             TokensFrom(body + after, []) == ts + TokensFrom(after, [])
    ensures TokensFrom(Framed(body, f) + rest, []) == Enclosed(ts, f.paren) + TokensFrom(rest, [])
  {
    hide TokensFrom, IsGap;
    if f.paren {
      var after := f.after + ([RPAREN] + rest);
      assert Framed(body, f) + rest == [LPAREN] + (f.before + (body + after));
      OpenStep(f.before + (body + after), []);
      GapStep(f.before, body + after);
      GapStep(f.after, [RPAREN] + rest);
      CloseStep(rest, []);
      assert [Open] + (ts + ([Close] + TokensFrom(rest, []))) == [Open] + (ts + [Close]) + TokensFrom(rest, []);
    }
  }

  lemma KeywordPart(w: bytes, k: Keyword, op: Operator, gap: bytes, z: bytes)
    requires IsSpelling(w, KeywordText(k)) && IsGap(gap) && z != [] && z[0] != EQUALS
    ensures TokensFrom(w + (gap + (OperatorText(op) + z)), []) == [Value(w)] + TokensFrom(OperatorText(op) + z, [])
  {
    hide TokensFrom, KeywordText, OperatorText, WordToken, IsSpelling, IsGap;
    WordTokens(w, k, op);
    var s := OperatorText(op) + z;
    WordStep(w, gap + s, []);
    assert [] + w == w;
    if gap != [] {
      GapFlushes(gap, s, w);
    } else {
      assert [] + s == s;
      OperatorStep(op, z, w);
      OperatorStep(op, z, []);
      assert [] + TokensFrom(z, OperatorText(op)) == TokensFrom(z, OperatorText(op));
    }
  }

  lemma GapIsNoEquals(gap: bytes, z: bytes)
    requires IsGap(gap) && z != [] && z[0] == DQUOTE
    ensures (gap + z)[0] != EQUALS
  {
    if gap != [] {
      FourBlanks(gap[0]);
    }
  }

  lemma OperatorPart(op: Operator, gap: bytes, v: bytes, rest: bytes)
    requires DQUOTE !in v && IsGap(gap)
    ensures var q := [DQUOTE] + (v + [DQUOTE]) + rest;
            TokensFrom(OperatorText(op) + (gap + q), [])
              == [Value(OperatorText(op))] + ([Value(v)] + TokensFrom(rest, []))
  {
    hide TokensFrom, OperatorText, WordToken, IsGap;
    OperatorIsNoWord(op);
    var o, q := OperatorText(op), [DQUOTE] + (v + [DQUOTE]) + rest;
    GapIsNoEquals(gap, q);
    OperatorStep(op, gap + q, []);
    assert [] + TokensFrom(gap + q, o) == TokensFrom(gap + q, o);
    QuoteStep(v, rest, o);
    QuoteStep(v, rest, []);
    assert [] + ([Value(v)] + TokensFrom(rest, [])) == [Value(v)] + TokensFrom(rest, []);
    if gap != [] {
      GapFlushes(gap, q, o);
    } else {
      assert [] + q == q;
    }
  }

  lemma TestPasses(w: bytes, k: Keyword, left: bytes, op: Operator, right: bytes, v: bytes, rest: bytes)
    requires IsSpelling(w, KeywordText(k)) && IsGap(left) && IsGap(right) && IsExpression(v)
    ensures TokensFrom(TestText(w, left, op, right, v) + rest, []) == ItemTokens(w, op, v) + TokensFrom(rest, [])
  {
    hide TokensFrom, KeywordText, OperatorText, WordToken, IsSpelling, IsGap;
    var o := OperatorText(op);
    var q := [DQUOTE] + (v + [DQUOTE]) + rest;
    var z := right + q;
    GapIsNoEquals(right, q);
    assert TestText(w, left, op, right, v) + rest == w + (left + (o + z));
    KeywordPart(w, k, op, left, z);
    OperatorPart(op, right, v, rest);
    assert [Value(w)] + ([Value(o)] + ([Value(v)] + TokensFrom(rest, [])))
        == ItemTokens(w, op, v) + TokensFrom(rest, []);
  }

  /** A connective in any case, with blanks around it. */
  lemma ConnectiveStep(l: Link, word: bytes, t: Token, s: bytes)
    requires IsGap(l.before) && IsGap(l.after) && l.after != [] && IsSpelling(l.word, word)
    requires IsWord(word) && WordToken(word) == t && !t.Value?
    ensures TokensFrom(l.before + (l.word + (l.after + s)), []) == [t] + TokensFrom(s, [])
  {
    hide TokensFrom, WordToken, IsGap, IsSpelling;
    SpellingLowers(l.word, word);
    SameConnective(l.word, word);
    GapStep(l.before, l.word + (l.after + s));
    WordStep(l.word, l.after + s, []);
    assert [] + l.word == l.word;
    GapFlushes(l.after, s, l.word);
  }

  lemma SameConnective(w: bytes, word: bytes)
    requires Lower(w) == Lower(word) && !WordToken(word).Value?
    ensures WordToken(w) == WordToken(word)
  {
  }

  lemma Connectives()
    ensures IsWord(AND_WORD) && WordToken(AND_WORD) == AndToken
    ensures IsWord(OR_WORD) && WordToken(OR_WORD) == OrToken
    ensures IsWord(NOT_WORD) && WordToken(NOT_WORD) == NotToken
  {
    assert |Lower(OR_WORD)| == 2 && Lower(NOT_WORD)[0] == 110 && Lower(AND_WORD)[0] == 97;
  }

  /** A phrase that may be negated may also stand alone. */
  lemma Relaxed(d: Phrase)
    requires IsPhrase(d, false)
    ensures IsPhrase(d, true)
  {
  }

  lemma GroupIsPhrase(d: Phrase)
    requires d.Group? && IsPhrase(d, true)
    ensures d.frame.paren && IsFrame(d.frame) && d.others.More? && AreOperands(d.others, d.conjunction)
    ensures IsPhrase(d.first, true) && !d.first.Negation?
  {
    hide IsSpelling, IsGap, IsExpression, IsLink, IsFrame;
    Relaxed(d.first);
  }

  lemma OperandsStep(others: Operands, conjunction: bool)
    requires others.More? && AreOperands(others, conjunction)
    ensures IsLink(others.link, conjunction) && IsPhrase(others.phrase, true)
    ensures AreOperands(others.next, conjunction)
    ensures !conjunction ==> !others.phrase.Negation?
  {
    hide IsSpelling, IsGap, IsExpression, IsLink, IsFrame;
    if !conjunction {
      Relaxed(others.phrase);
    }
  }

  /** The text of a phrase is its tokens, whatever follows it. */
  lemma {:induction false} PhrasePasses(d: Phrase, rest: bytes)
    requires IsPhrase(d, true)
    ensures TokensFrom(Text(d) + rest, []) == Raw(d) + TokensFrom(rest, [])
    decreases d, 1
  {
    hide TokensFrom, OthersText, RawTail, TestText, ItemTokens, Framed, Enclosed;
    hide IsExpression, IsSpelling, IsGap, IsLink;
    match d
    case Test(w, k, op, v, left, right, frame) =>
      var after := if frame.paren then frame.after + ([RPAREN] + rest) else rest;
      TestPasses(w, k, left, op, right, v, after);
      FramedTokens(TestText(w, left, op, right, v), ItemTokens(w, op, v), rest, frame);
    case Group(_, _, _, _) => GroupPasses(d, rest);
    case Negation(_, _, _) => NegationPasses(d, rest);
  }

  lemma GroupPasses(d: Phrase, rest: bytes)
    requires d.Group? && IsPhrase(d, true)
    ensures TokensFrom(Text(d) + rest, []) == Raw(d) + TokensFrom(rest, [])
    decreases d, 0
  {
    hide TokensFrom, OthersText, RawTail, Framed, Enclosed, IsPhrase, AreOperands;
    GroupIsPhrase(d);
    var t := ConnectiveToken(d.conjunction);
    var after := if d.frame.paren then d.frame.after + ([RPAREN] + rest) else rest;
    OthersPass(d.others, d.conjunction, after);
    PhrasePasses(d.first, OthersText(d.others) + after);
    GroupText(d);
    hide Text, Raw;
    var body := Text(d.first) + OthersText(d.others);
    assert body + after == Text(d.first) + (OthersText(d.others) + after);
    assert Raw(d.first) + (RawTail(d.others, t) + TokensFrom(after, []))
        == Raw(d.first) + RawTail(d.others, t) + TokensFrom(after, []);
    FramedTokens(body, Raw(d.first) + RawTail(d.others, t), rest, d.frame);
  }

  lemma GroupText(d: Phrase)
    requires d.Group?
    ensures Text(d) == Framed(Text(d.first) + OthersText(d.others), d.frame)
    ensures Raw(d) == Enclosed(Raw(d.first) + RawTail(d.others, ConnectiveToken(d.conjunction)), d.frame.paren)
  {
  }

  lemma NegationPasses(d: Phrase, rest: bytes)
    requires d.Negation? && IsPhrase(d, true)
    ensures TokensFrom(Text(d) + rest, []) == Raw(d) + TokensFrom(rest, [])
    decreases d, 0
  {
    hide TokensFrom, WordToken, IsSpelling, IsGap, Raw, Text;
    Connectives();
    Relaxed(d.phrase);
    PhrasePasses(d.phrase, rest);
    NothingIsGap();
    NegationText(d, rest, TokensFrom(rest, []));
    ConnectiveStep(Link([], d.word, d.gap), NOT_WORD, NotToken, Text(d.phrase) + rest);
  }

  lemma NegationText(d: Phrase, rest: bytes, ts: seq<Token>)
    requires d.Negation?
    ensures Text(d) + rest == [] + (d.word + (d.gap + (Text(d.phrase) + rest)))
    ensures Raw(d) + ts == [NotToken] + (Raw(d.phrase) + ts)
  {
  }

  lemma NothingIsGap()
    ensures IsGap([])
  {
  }

  lemma {:induction false} OthersPass(others: Operands, conjunction: bool, rest: bytes)
    requires AreOperands(others, conjunction)
    ensures TokensFrom(OthersText(others) + rest, [])
         == RawTail(others, ConnectiveToken(conjunction)) + TokensFrom(rest, [])
    decreases others, 0
  {
    hide TokensFrom, Text, Raw, WordToken, IsPhrase, AreOperands, IsSpelling, IsGap;
    var t := ConnectiveToken(conjunction);
    if others.End? {
      assert OthersText(others) + rest == rest;
    } else {
      OperandsStep(others, conjunction);
      var l, p := others.link, Text(others.phrase);
      var tail := OthersText(others.next) + rest;
      OthersPass(others.next, conjunction, rest);
      PhrasePasses(others.phrase, tail);
      Connectives();
      ConnectiveStep(l, Connective(conjunction), t, p + tail);
      OthersLine(l, p, OthersText(others.next), rest);
      OthersTokens(others, t, TokensFrom(rest, []));
    }
  }

  lemma OthersLine(l: Link, p: bytes, others: bytes, rest: bytes)
    ensures l.before + (l.word + (l.after + (p + others))) + rest
         == l.before + (l.word + (l.after + (p + (others + rest))))
  {
  }

  lemma OthersTokens(others: Operands, t: Token, rest: seq<Token>)
    requires others.More?
    ensures [t] + (Raw(others.phrase) + (RawTail(others.next, t) + rest)) == RawTail(others, t) + rest
  {
    hide Raw;
  }

  // ----- fusing -----

  /** A fused front does not depend on what follows, unless it ends in AND. */
  lemma {:induction false} FuseConcat(a: seq<Token>, b: seq<Token>)
    requires a == [] || !a[|a| - 1].AndToken?
    ensures Fuse(a + b) == Fuse(a) + Fuse(b)
    decreases |a|
  {
    if a == [] {
      assert a + b == b;
    } else if a[0].AndToken? && |a| > 1 && a[1].NotToken? {
      assert (a + b)[2..] == a[2..] + b;
      FuseConcat(a[2..], b);
    } else {
      assert (a + b)[1..] == a[1..] + b;
      FuseConcat(a[1..], b);
    }
  }

  lemma FuseOne(t: Token, ts: seq<Token>)
    requires !t.AndToken? || ts == [] || !ts[0].NotToken?
    ensures Fuse([t] + ts) == [t] + Fuse(ts)
  {
    assert ([t] + ts)[1..] == ts;
  }

  lemma FuseTwo(ts: seq<Token>)
    ensures Fuse([AndToken] + ([NotToken] + ts)) == [NotToken] + Fuse(ts)
  {
    assert ([AndToken] + ([NotToken] + ts))[2..] == ts;
  }

  lemma FuseEnclosed(ts: seq<Token>, paren: bool)
    requires ts != [] && !ts[|ts| - 1].AndToken?
    ensures Fuse(Enclosed(ts, paren)) == Enclosed(Fuse(ts), paren)
  {
    hide Fuse;
    if paren {
      FuseOne(Open, ts + [Close]);
      FuseConcat(ts, [Close]);
      FuseOne(Close, []);
      FuseNothing();
      assert [Close] + [] == [Close];
    }
  }

  lemma FuseNothing()
    ensures Fuse([]) == []
  {
  }

  lemma ItemFused(w: bytes, op: Operator, v: bytes)
    ensures Fuse(ItemTokens(w, op, v)) == ItemTokens(w, op, v)
  {
    hide Fuse, OperatorText;
    var a, b, c := Value(w), Value(OperatorText(op)), Value(v);
    FuseNothing();
    FuseOne(c, []);
    FuseOne(b, [c]);
    FuseOne(a, [b, c]);
    assert [c] + [] == [c] && [b] + [c] == [b, c] && [a] + [b, c] == [a, b, c];
  }

  /** The tokens of a phrase begin with a value, an opening parenthesis or NOT, and do not end with AND. */
  lemma {:induction false} RawEnds(d: Phrase)
    requires IsPhrase(d, true)
    ensures Raw(d) != [] && !Raw(d)[|Raw(d)| - 1].AndToken?
    ensures Raw(d)[0].NotToken? <==> d.Negation?
    decreases d
  {
    hide IsExpression, OperatorText, RawTail, IsSpelling, IsGap, IsLink;
    if d.Negation? {
      Relaxed(d.phrase);
      RawEnds(d.phrase);
    }
  }

  lemma {:induction false} RawTailEnds(front: seq<Token>, others: Operands, conjunction: bool)
    requires AreOperands(others, conjunction) && front != [] && !front[|front| - 1].AndToken?
    ensures var ts := front + RawTail(others, ConnectiveToken(conjunction)); ts != [] && !ts[|ts| - 1].AndToken?
    decreases others
  {
    hide IsPhrase, Raw, AreOperands;
    var t := ConnectiveToken(conjunction);
    if others.More? {
      OperandsStep(others, conjunction);
      RawEnds(others.phrase);
      RawTailEnds(Raw(others.phrase), others.next, conjunction);
      OthersTokens(others, t, []);
      assert RawTail(others, t) == [t] + (Raw(others.phrase) + RawTail(others.next, t));
    }
  }

  lemma {:induction false} FusedPhrase(d: Phrase)
    requires IsPhrase(d, true)
    ensures Fuse(Raw(d)) == Tokens(d)
    decreases d, 1
  {
    hide Fuse, RawTail, ItemTokens, IsExpression, Enclosed, Tail, IsSpelling, IsGap, IsLink;
    match d
    case Test(w, _, op, v, _, _, frame) =>
      ItemFused(w, op, v);
      ItemTokensEnd(w, op, v);
      FuseEnclosed(ItemTokens(w, op, v), frame.paren);
    case Group(_, _, _, _) => FusedGroup(d);
    case Negation(_, _, x) =>
      Relaxed(x);
      FusedPhrase(x);
      FuseOne(NotToken, Raw(x));
  }

  lemma ItemTokensEnd(w: bytes, op: Operator, v: bytes)
    ensures var ts := ItemTokens(w, op, v); ts != [] && !ts[|ts| - 1].AndToken?
  {
  }

  lemma FusedGroup(d: Phrase)
    requires d.Group? && IsPhrase(d, true)
    ensures Fuse(Raw(d)) == Tokens(d)
    decreases d, 0
  {
    hide Fuse, Enclosed, IsPhrase, RawTail, Tail, AreOperands;
    GroupIsPhrase(d);
    GroupText(d);
    GroupTokens(d);
    hide Raw, Tokens;
    var t := ConnectiveToken(d.conjunction);
    RawEnds(d.first);
    RawTailEnds(Raw(d.first), d.others, d.conjunction);
    FuseEnclosed(Raw(d.first) + RawTail(d.others, t), d.frame.paren);
    FuseConcat(Raw(d.first), RawTail(d.others, t));
    FusedPhrase(d.first);
    FusedTail(d.others, d.conjunction);
  }

  lemma GroupTokens(d: Phrase)
    requires d.Group?
    ensures Tokens(d) == Enclosed(Tokens(d.first) + Tail(d.others, ConnectiveToken(d.conjunction)), d.frame.paren)
  {
  }

  lemma NoTail(t: Token)
    ensures Tail(End, t) == [] && RawTail(End, t) == []
  {
  }

  lemma TailStep(others: Operands, t: Token)
    requires others.More?
    ensures Tail(others, t) == Member(others.phrase, t) + Tail(others.next, t)
    ensures RawTail(others, t) == [t] + (Raw(others.phrase) + RawTail(others.next, t))
  {
  }

  lemma {:induction false} FusedTail(others: Operands, conjunction: bool)
    requires AreOperands(others, conjunction)
    ensures Fuse(RawTail(others, ConnectiveToken(conjunction))) == Tail(others, ConnectiveToken(conjunction))
    decreases others, 0
  {
    hide Fuse, IsPhrase, Tail, RawTail, Member, Raw, Tokens, AreOperands;
    var t := ConnectiveToken(conjunction);
    if others.End? {
      NoTail(t);
      FuseNothing();
    } else {
      TailStep(others, t);
      OperandsStep(others, conjunction);
      FusedMember(others.phrase, conjunction, RawTail(others.next, t));
      FusedTail(others.next, conjunction);
    }
  }

  lemma FusedMember(d: Phrase, conjunction: bool, y: seq<Token>)
    requires IsPhrase(d, true) && (conjunction || !d.Negation?)
    ensures var t := ConnectiveToken(conjunction); Fuse([t] + (Raw(d) + y)) == Member(d, t) + Fuse(y)
    decreases d, 2
  {
    hide Fuse, IsPhrase, Tokens;
    var t := ConnectiveToken(conjunction);
    RawEnds(d);
    FusedPhrase(d);
    FuseConcat(Raw(d), y);
    if d.Negation? {
      FuseTwo(Raw(d.phrase) + y);
      FuseOne(NotToken, Raw(d.phrase) + y);
      assert Raw(d) + y == [NotToken] + (Raw(d.phrase) + y);
    } else {
      hide Raw;
      FuseOne(t, Raw(d) + y);
      assert [t] + (Tokens(d) + Fuse(y)) == [t] + Tokens(d) + Fuse(y);
    }
  }

  /** A token is empty exactly when an expression is. */
  lemma {:induction false} EmptyTokens(d: Phrase)
    requires IsPhrase(d, true)
    ensures Value([]) !in Tokens(d) <==> IsFilled(Meaning(d))
    decreases d, 1
  {
    hide KeywordText, OperatorText, IsSpelling, IsGap, IsLink;
    match d
    case Test(w, k, op, v, _, _, _) => WordTokens(w, k, op);
    case Group(_, _, _, _) => EmptyInGroup(d);
    case Negation(_, _, x) =>
      Relaxed(x);
      EmptyTokens(x);
  }

  lemma EmptyInGroup(d: Phrase)
    requires d.Group? && IsPhrase(d, true)
    ensures Value([]) !in Tokens(d) <==> IsFilled(Meaning(d))
    decreases d, 0
  {
    hide IsPhrase, Tail, AreOperands;
    GroupIsPhrase(d);
    EmptyTokens(d.first);
    EmptyInTail(d.others, d.conjunction);
    GroupTokens(d);
    GroupMeaning(d);
    hide Tokens, IsFilled, Meaning, Meanings;
    FilledGroup(d);
    var ts := Tokens(d.first) + Tail(d.others, ConnectiveToken(d.conjunction));
    assert Value([]) in Enclosed(ts, true) <==> Value([]) in ts;
  }

  lemma GroupMeaning(d: Phrase)
    requires d.Group?
    ensures var rules := [Meaning(d.first)] + Meanings(d.others);
            Meaning(d) == if d.conjunction then And(rules, d.frame.paren, false) else Or(rules, d.frame.paren, false)
  {
  }

  predicate AllFilled(rules: seq<Rule>) { forall i :: 0 <= i < |rules| ==> IsFilled(rules[i]) }

  lemma FilledGroup(d: Phrase)
    requires d.Group?
    ensures IsFilled(Meaning(d)) <==> IsFilled(Meaning(d.first)) && AllFilled(Meanings(d.others))
  {
    GroupMeaning(d);
    hide Meaning, Meanings;
    var rules := [Meaning(d.first)] + Meanings(d.others);
    FilledList(rules, d.frame.paren);
    FilledCons(Meaning(d.first), Meanings(d.others));
  }

  lemma FilledList(rules: seq<Rule>, paren: bool)
    ensures IsFilled(And(rules, paren, false)) <==> AllFilled(rules)
    ensures IsFilled(Or(rules, paren, false)) <==> AllFilled(rules)
  {
  }

  lemma FilledCons(r: Rule, rules: seq<Rule>)
    ensures AllFilled([r] + rules) <==> IsFilled(r) && AllFilled(rules)
  {
    hide IsFilled;
    var all := [r] + rules;
    if AllFilled(all) {
      assert IsFilled(all[0]);
      forall i | 0 <= i < |rules| ensures IsFilled(rules[i]) {
        assert IsFilled(all[i + 1]);
      }
    }
  }

  lemma {:induction false} EmptyInTail(others: Operands, conjunction: bool)
    requires AreOperands(others, conjunction)
    ensures Value([]) !in Tail(others, ConnectiveToken(conjunction)) <==> AllFilled(Meanings(others))
    decreases others, 0
  {
    hide IsPhrase, Tokens, IsFilled, Meaning, AreOperands;
    if others.More? {
      OperandsStep(others, conjunction);
      EmptyTokens(others.phrase);
      EmptyInTail(others.next, conjunction);
      FilledCons(Meaning(others.phrase), Meanings(others.next));
    }
  }

  /** A phrase is tokenized as its operands and operators, or refused for an empty expression. */
  lemma TokenizePhrase(d: Phrase)
    requires IsPhrase(d, true)
    ensures Tokenize(Text(d)) == if IsFilled(Meaning(d)) then Some(Tokens(d)) else None
  {
    hide TokensFrom, Fuse, Text, Raw, Tokens, IsPhrase, IsFilled, Meaning;
    PhrasePasses(d, []);
    EmptyText([]);
    assert Text(d) + [] == Text(d) && Raw(d) + [] == Raw(d);
    FusedPhrase(d);
    EmptyTokens(d);
  }

  // ----- one item -----

  lemma PairAt(s: bytes, i: int, x: byte, y: byte)
    ensures At(s, i, [x, y]) <==> 0 <= i && i + 2 <= |s| && s[i] == x && s[i + 1] == y
  {
    if 0 <= i && i + 2 <= |s| {
      assert s[i..i + 2] == [s[i], s[i + 1]];
    }
  }

  ghost predicate HasPair(s: bytes, x: byte, y: byte) { exists i :: 0 <= i < |s| - 1 && s[i] == x && s[i + 1] == y }

  lemma ContainsPair(s: bytes, x: byte, y: byte)
    ensures Contains(s, [x, y]) <==> HasPair(s, x, y)
  {
    hide Index, At;
    var i := Index(s, [x, y]);
    PairAt(s, i, x, y);
    if HasPair(s, x, y) {
      var k :| 0 <= k < |s| - 1 && s[k] == x && s[k + 1] == y;
      PairAt(s, k, x, y);
    }
  }

  lemma PairAcrossBlank(a: bytes, b: bytes, x: byte, y: byte)
    requires x != SPACE && y != SPACE
    ensures HasPair(a + [SPACE] + b, x, y) <==> HasPair(a, x, y) || HasPair(b, x, y)
  {
    var s, n := a + [SPACE] + b, |a| + 1;
    assert s[|a|] == SPACE;
    if HasPair(s, x, y) {
      var k :| 0 <= k < |s| - 1 && s[k] == x && s[k + 1] == y;
      if k + 1 < |a| {
        assert a[k] == x && a[k + 1] == y;
      } else {
        assert k >= n;
        assert b[k - n] == x && b[k - n + 1] == y;
      }
    }
    if HasPair(a, x, y) {
      var k :| 0 <= k < |a| - 1 && a[k] == x && a[k + 1] == y;
      assert s[k] == x && s[k + 1] == y;
    }
    if HasPair(b, x, y) {
      var k :| 0 <= k < |b| - 1 && b[k] == x && b[k + 1] == y;
      assert s[n + k] == x && s[n + k + 1] == y;
    }
  }

  /** A two-character operator that contains no blank lies on one side of any blank. */
  lemma AcrossBlank(a: bytes, b: bytes, x: byte, y: byte)
    requires x != SPACE && y != SPACE
    ensures Contains(a + [SPACE] + b, [x, y]) <==> Contains(a, [x, y]) || Contains(b, [x, y])
  {
    hide Contains, HasPair;
    ContainsPair(a + [SPACE] + b, x, y);
    ContainsPair(a, x, y);
    ContainsPair(b, x, y);
    PairAcrossBlank(a, b, x, y);
  }

  lemma ContainsOne(s: bytes, x: byte)
    ensures Contains(s, [x]) <==> x in s
  {
    hide Index;
    var i := Index(s, [x]);
    if i >= 0 {
      assert s[i..i + 1][0] == s[i];
    }
    if x in s {
      var k :| 0 <= k < |s| && s[k] == x;
      assert s[k..k + 1] == [x];
      assert At(s, k, [x]);
    }
  }

  /** Three values joined by blanks. */
  function Joined(w: bytes, op: Operator, v: bytes): bytes {
    w + [SPACE] + (OperatorText(op) + [SPACE] + v)
  }

  lemma NoOperatorInWord(w: bytes, x: byte, y: byte)
    requires IsWord(w) && !IsAlpha(x)
    ensures !Contains(w, [x, y]) && x !in w
  {
    hide Index;
    forall j | 0 <= j ensures !At(w, j, [x, y]) {
      if j + 2 <= |w| {
        assert w[j..j + 2][0] == w[j];
      }
    }
  }

  lemma PairIn(w: bytes, op: Operator, v: bytes, x: byte)
    requires IsWord(w)
    requires x == LESS || x == GREATER || x == BANG
    ensures Contains(Joined(w, op, v), [x, EQUALS]) <==> OperatorText(op) == [x, EQUALS] || Contains(v, [x, EQUALS])
  {
    hide Index;
    NoOperatorInWord(w, x, EQUALS);
    AcrossBlank(w, OperatorText(op) + [SPACE] + v, x, EQUALS);
    AcrossBlank(OperatorText(op), v, x, EQUALS);
    PairInOperator(op, x);
  }

  lemma PairInOperator(op: Operator, x: byte)
    requires x == LESS || x == GREATER || x == BANG
    ensures Contains(OperatorText(op), [x, EQUALS]) <==> OperatorText(op) == [x, EQUALS]
  {
    hide Index;
    var t, p := OperatorText(op), [x, EQUALS];
    var i := Index(t, p);
    if i >= 0 {
      assert |t| == 2 && i == 0;
      assert t[0..2] == t;
    }
    if t == p {
      assert t[0..2] == p;
      assert At(t, 0, p);
    }
  }

  lemma OneIn(w: bytes, op: Operator, v: bytes, x: byte)
    requires IsWord(w)
    requires x == EQUALS || x == LESS || x == GREATER
    ensures Contains(Joined(w, op, v), [x]) <==> x in OperatorText(op) || x in v
  {
    hide OperatorText;
    ContainsOne(Joined(w, op, v), x);
    assert x !in w by {
      NoOperatorInWord(w, x, x);
    }
  }

  /** The search finds the operator of the item exactly when the expression does not cloud it. */
  lemma OperatorIsFound(w: bytes, op: Operator, v: bytes)
    requires IsWord(w)
    ensures FindOperator(Joined(w, op, v)) == Some(op) <==> IsUnclouded(op, v)
    ensures FindOperator(Joined(w, op, v)).Some?
  {
    PairIn(w, op, v, LESS);
    PairIn(w, op, v, GREATER);
    PairIn(w, op, v, BANG);
    OneIn(w, op, v, EQUALS);
    OneIn(w, op, v, LESS);
    OneIn(w, op, v, GREATER);
    EqualsInPair(v, LESS);
    EqualsInPair(v, GREATER);
    EqualsInPair(v, BANG);
    hide Contains, Joined;
  }

  lemma EqualsInPair(v: bytes, x: byte)
    ensures Contains(v, [x, EQUALS]) ==> EQUALS in v
  {
    hide Index;
    var i := Index(v, [x, EQUALS]);
    assert i >= 0 ==> v[i..i + 2][1] == v[i + 1];
  }

  /** The operator itself is the leftmost place where its text occurs. */
  lemma OperatorPlace(w: bytes, op: Operator, v: bytes)
    requires IsWord(w)
    ensures Index(Joined(w, op, v), OperatorText(op)) == |w| + 1
  {
    OperatorStart(op);
    hide Index, OperatorText;
    var t, s := OperatorText(op), Joined(w, op, v);
    var i := |w| + 1;
    assert s == (w + [SPACE]) + t + ([SPACE] + v);
    assert s[i..i + |t|] == t;
    assert At(s, i, t);
    forall j | 0 <= j < i ensures !At(s, j, t) {
      assert s[j] == if j < |w| then w[j] else SPACE;
      assert j + |t| <= |s| ==> s[j..j + |t|][0] == s[j];
    }
  }

  lemma OperatorStart(op: Operator)
    ensures var t := OperatorText(op); t != [] && !IsAlpha(t[0]) && t[0] != SPACE
  {
  }

  lemma TrimAfterBlank(v: bytes)
    ensures Utf8.TrimSpace([SPACE] + v) == Utf8.TrimSpace(v)
  {
    assert ([SPACE] + v)[1..] == v;
  }

  lemma TrimBeforeBlank(w: bytes)
    requires IsWord(w)
    ensures Utf8.TrimSpace(w + [SPACE]) == w
  {
    var s := w + [SPACE];
    assert s[..|s| - 1] == w;
    assert Utf8.TrimLeft(s) == s;
    assert Utf8.TrimRight(w) == w;
    assert Utf8.TrimRight(s) == Utf8.TrimRight(s[..|s| - 1]);
  }

  lemma KeywordIsMatched(w: bytes, k: Keyword)
    requires Lower(w) == KeywordText(k)
    ensures MatchKeyword(w) == Some(k)
  {
    KeywordsDiffer(k);
    AllKeywords(k);
    KeywordAt(w, k, KEYWORDS);
  }

  lemma KeywordsDiffer(k: Keyword)
    ensures forall j: Keyword :: KeywordText(j) == KeywordText(k) ==> j == k
  {
    forall j: Keyword | KeywordText(j) == KeywordText(k) ensures j == k {
      var a, b := KeywordText(j), KeywordText(k);
      assert |a| == |b| && a[0] == b[0] && a[1] == b[1];
    }
  }

  lemma {:induction false} KeywordAt(w: bytes, k: Keyword, among: seq<Keyword>)
    requires Lower(w) == KeywordText(k)
    requires forall j: Keyword :: KeywordText(j) == KeywordText(k) ==> j == k
    ensures FindKeyword(w, among) == if k in among then Some(k) else None
    decreases |among|
  {
    hide KeywordText;
    if among != [] && among[0] != k {
      KeywordAt(w, k, among[1..]);
      assert k in among <==> k in among[1..];
    }
  }

  lemma AllKeywords(k: Keyword)
    ensures k in KEYWORDS
  {
    var i := match k
      case UserDn => 0 case RoleDn => 1 case GroupDn => 2 case UserAttr => 3 case GroupAttr => 4 case Ip => 5
      case Dns => 6 case DayOfWeek => 7 case TimeOfDay => 8 case AuthMethod => 9 case Ssf => 10;
    assert KEYWORDS[i] == k;
  }

  /** What the parser makes of the three values of an item. */
  lemma ItemIsMade(read: Reader, w: bytes, k: Keyword, op: Operator, v: bytes)
    requires IsSpelling(w, KeywordText(k)) && IsExpression(v)
    ensures var m := MakeItem(read, Joined(w, op, v));
            && (m == Some(Item(k, op, v, false, false)) <==>
                IsUnclouded(op, v) && read(k, Utf8.TrimSpace(v)) == Some(v))
            && (m.Some? ==> m.value.Item? && !m.value.paren)
            && (IsUnclouded(op, v) ==>
                  var x := read(k, Utf8.TrimSpace(v));
                  m == if x.None? then None else Some(Item(k, op, x.value, false, false)))
  {
    hide Index, KeywordText, FindOperator, MatchKeyword, IsUnclouded, Utf8.TrimSpace, OperatorText, IsSpelling;
    WordTokens(w, k, op);
    OperatorIsFound(w, op, v);
    if IsUnclouded(op, v) {
      OperatorPlace(w, op, v);
      var s, t := Joined(w, op, v), OperatorText(op);
      assert s[..|w| + 1] == w + [SPACE];
      assert s[|w| + 1 + |t|..] == [SPACE] + v;
      TrimBeforeBlank(w);
      TrimAfterBlank(v);
      KeywordIsMatched(w, k);
    }
  }

  // ----- whole phrases -----

  /** What the parser makes of a phrase: the operands in place, or an error as soon as one of them is refused. */
  function Made(read: Reader, d: Phrase): Option<Rule>
    decreases d, 0
  {
    match d
    case Test(word, _, op, v, _, _, frame) =>
      var m := MakeItem(read, Joined(word, op, v));
      if m.None? || m.value.Nil? then None else Some(if frame.paren then SetParen(m.value, true) else m.value)
    case Group(conjunction, first, others, _) =>
      var m, ms := Made(read, first), MadeAll(read, others);
      if m.None? || ms.None? then None
      else if conjunction then Some(And([m.value] + ms.value, true, false))
      else Some(Or([m.value] + ms.value, true, false))
    case Negation(_, _, x) =>
      var m := Made(read, x);
      if m.None? then None else Some(Not(m.value))
  }

  function MadeAll(read: Reader, others: Operands): Option<seq<Rule>>
    decreases others, 0
  {
    if others.End? then Some([])
    else
      var m, ms := Made(read, others.phrase), MadeAll(read, others.next);
      if m.None? || ms.None? then None else Some([m.value] + ms.value)
  }

  predicate AllReadable(read: Reader, rules: seq<Rule>) { forall i :: 0 <= i < |rules| ==> IsReadable(read, rules[i]) }

  lemma ReadableCons(read: Reader, r: Rule, rules: seq<Rule>)
    ensures AllReadable(read, [r] + rules) <==> IsReadable(read, r) && AllReadable(read, rules)
  {
    hide IsReadable;
    var all := [r] + rules;
    if AllReadable(read, all) {
      assert IsReadable(read, all[0]);
      forall i | 0 <= i < |rules| ensures IsReadable(read, rules[i]) {
        assert IsReadable(read, all[i + 1]);
      }
    }
  }

  lemma ReadableList(read: Reader, rules: seq<Rule>, paren: bool)
    ensures IsReadable(read, And(rules, paren, false)) <==> AllReadable(read, rules)
    ensures IsReadable(read, Or(rules, paren, false)) <==> AllReadable(read, rules)
  {
  }

  /** The parser makes what the phrase means exactly when every expression is readable. */
  lemma {:induction false} MadeExactly(read: Reader, d: Phrase)
    requires IsPhrase(d, true)
    ensures Made(read, d) == Some(Meaning(d)) <==> IsReadable(read, Meaning(d))
    ensures Made(read, d).Some? ==> (Made(read, d).value.Not? <==> d.Negation?) && !Made(read, d).value.Nil?
    decreases d, 1
  {
    hide MadeAll, MakeItem, Joined, IsExpression, IsUnclouded, IsSpelling, IsGap, IsLink, AreOperands, Meanings;
    match d
    case Test(w, k, op, v, _, _, _) => ItemIsMade(read, w, k, op, v);
    case Group(_, _, _, _) => GroupMadeExactly(read, d);
    case Negation(_, _, x) =>
      Relaxed(x);
      MadeExactly(read, x);
  }

  lemma GroupMadeExactly(read: Reader, d: Phrase)
    requires d.Group? && IsPhrase(d, true)
    ensures Made(read, d) == Some(Meaning(d)) <==> IsReadable(read, Meaning(d))
    ensures Made(read, d).Some? ==> !Made(read, d).value.Not? && !Made(read, d).value.Nil?
    decreases d, 0
  {
    hide IsPhrase, AreOperands, IsReadable;
    GroupIsPhrase(d);
    MadeExactly(read, d.first);
    MadeAllExactly(read, d.others, d.conjunction);
    GroupMade(read, d);
    GroupMeaning(d);
    hide Made, MadeAll, Meaning, Meanings, AllReadable;
    var rules := [Meaning(d.first)] + Meanings(d.others);
    ReadableList(read, rules, d.frame.paren);
    ReadableCons(read, Meaning(d.first), Meanings(d.others));
    var m, ms := Made(read, d.first), MadeAll(read, d.others);
    if m.Some? && ms.Some? {
      var made := [m.value] + ms.value;
      assert made[1..] == ms.value && rules[1..] == Meanings(d.others) && made[0] == m.value;
    }
  }

  lemma GroupMade(read: Reader, d: Phrase)
    requires d.Group?
    ensures var m, ms := Made(read, d.first), MadeAll(read, d.others);
            Made(read, d) == if m.None? || ms.None? then None
                             else if d.conjunction then Some(And([m.value] + ms.value, true, false))
                             else Some(Or([m.value] + ms.value, true, false))
  {
  }

  lemma {:induction false} MadeAllExactly(read: Reader, others: Operands, conjunction: bool)
    requires AreOperands(others, conjunction)
    ensures MadeAll(read, others) == Some(Meanings(others)) <==> AllReadable(read, Meanings(others))
    decreases others, 0
  {
    hide Made, IsReadable, Meaning, IsPhrase, AreOperands;
    if others.More? {
      OperandsStep(others, conjunction);
      MadeExactly(read, others.phrase);
      MadeAllExactly(read, others.next, conjunction);
      ReadableCons(read, Meaning(others.phrase), Meanings(others.next));
      hide AllReadable;
      var m, ms := Made(read, others.phrase), MadeAll(read, others.next);
      if m.Some? && ms.Some? {
        var made := [m.value] + ms.value;
        assert made[1..] == ms.value && Meanings(others)[1..] == Meanings(others.next) && made[0] == m.value;
      }
    }
  }

  /** The parser stops in front of what follows a phrase. */
  predicate EndsValues(ts: seq<Token>) { ts == [] || !ts[0].Value? }

  function Result(m: Option<Rule>, rest: seq<Token>): Outcome {
    if m.Some? then Ok(m.value, rest) else Refused
  }

  lemma ThreeValues(w: bytes, op: Operator, v: bytes, rest: seq<Token>)
    requires EndsValues(rest)
    ensures var ts := ItemTokens(w, op, v) + rest;
            && Values(ts) == [w, OperatorText(op), v]
            && ts[3..] == rest
            && Join(Values(ts), SPACE) == Joined(w, op, v)
  {
    hide OperatorText;
    var b := OperatorText(op);
    var ts := ItemTokens(w, op, v) + rest;
    assert ts[1..] == [Value(b), Value(v)] + rest;
    assert ts[1..][1..] == [Value(v)] + rest;
    assert ts[1..][1..][1..] == rest;
    assert Values(ts[1..][1..]) == [v];
    assert Values(ts[1..]) == [b, v];
    assert Values(ts) == [w, b, v];
    JoinCons([w, b, v], SPACE);
    JoinCons([b, v], SPACE);
    JoinCons([v], SPACE);
    hide Join;
    assert [w, b, v][1..] == [b, v] && [b, v][1..] == [v];
  }

  lemma BareItem(read: Reader, w: bytes, op: Operator, v: bytes, rest: seq<Token>)
    requires EndsValues(rest)
    ensures var m := MakeItem(read, Joined(w, op, v));
            Process(read, ItemTokens(w, op, v) + rest) == if m.None? then Refused else Ok(m.value, rest)
  {
    hide MakeItem, Join, Joined, Values;
    ThreeValues(w, op, v, rest);
  }

  lemma GroupUnfold(read: Reader, ts: seq<Token>)
    ensures var first := Process(read, ts);
            Process(read, [Open] + ts) == if first.Ok? then GroupRest(read, [first.rule], [], first.rest) else first
  {
    hide GroupRest;
    assert ([Open] + ts)[1..] == ts;
  }

  lemma RestUnfold(read: Reader, operands: seq<Rule>, operators: seq<Token>, t: Token, ts: seq<Token>)
    requires |operands| == |operators| + 1 && IsBoolean(t)
    ensures var next := Process(read, ts);
            GroupRest(read, operands, operators, [t] + ts)
              == if next.Ok? then GroupRest(read, operands + [next.rule], operators + [t], next.rest) else next
  {
    hide Process;
    assert ([t] + ts)[1..] == ts;
  }

  lemma RestEnd(read: Reader, operands: seq<Rule>, operators: seq<Token>, ts: seq<Token>)
    requires |operands| == |operators| + 1
    ensures GroupRest(read, operands, operators, [Close] + ts) == Finish(operands, operators, ts)
  {
    hide Finish;
    assert ([Close] + ts)[1..] == ts;
  }

  lemma TestIsProcessed(read: Reader, d: Phrase, rest: seq<Token>)
    requires d.Test? && IsPhrase(d, true) && EndsValues(rest)
    ensures Process(read, Tokens(d) + rest) == Result(Made(read, d), rest)
  {
    hide MakeItem, Joined, ItemTokens, Process, IsExpression, IsUnclouded, GroupRest, IsSpelling, IsGap;
    var w, k, op, v := d.word, d.keyword, d.operator, d.value;
    ItemIsMade(read, w, k, op, v);
    var ts := ItemTokens(w, op, v);
    if d.frame.paren {
      assert Tokens(d) + rest == [Open] + (ts + ([Close] + rest));
      GroupUnfold(read, ts + ([Close] + rest));
      BareItem(read, w, op, v, [Close] + rest);
      var m := MakeItem(read, Joined(w, op, v));
      if m.Some? {
        RestEnd(read, [m.value], [], rest);
      }
    } else {
      BareItem(read, w, op, v, rest);
    }
  }

  function Bare(d: Phrase): Phrase { if d.Negation? then d.phrase else d }

  /** The operators in front of the further operands, as the parser collects them. */
  function Operators(others: Operands, t: Token): seq<Token> {
    if others.End? then []
    else [if others.phrase.Negation? then NotToken else t] + Operators(others.next, t)
  }

  /** The further operands, as the parser collects them: without their negations. */
  function MadeBare(read: Reader, others: Operands): Option<seq<Rule>> {
    if others.End? then Some([])
    else
      var m, ms := Made(read, Bare(others.phrase)), MadeBare(read, others.next);
      if m.None? || ms.None? then None else Some([m.value] + ms.value)
  }

  lemma {:induction false} BareLengths(read: Reader, others: Operands, t: Token)
    ensures MadeBare(read, others).Some? ==> |MadeBare(read, others).value| == |Operators(others, t)|
    decreases others
  {
    hide Made;
    if others.More? {
      BareLengths(read, others.next, t);
    }
  }

  lemma MemberTokens(d: Phrase, t: Token)
    ensures Member(d, t) == [if d.Negation? then NotToken else t] + Tokens(Bare(d))
  {
  }

  lemma BareIsPhrase(d: Phrase)
    requires IsPhrase(d, true)
    ensures IsPhrase(Bare(d), true) && !Bare(d).Negation?
  {
    if d.Negation? {
      Relaxed(d.phrase);
    }
  }

  /** Operands made first and negated afterwards are the members. */
  lemma {:induction false} WrappedMade(read: Reader, others: Operands)
    requires AreOperands(others, true)
    ensures var ms := MadeBare(read, others);
            && (ms.Some? ==> |ms.value| == |Operators(others, AndToken)|)
            && MadeAll(read, others) == if ms.None? then None else Some(Wrapped(ms.value, Operators(others, AndToken)))
    decreases others
  {
    hide Made, IsPhrase, MakeItem, AreOperands;
    BareLengths(read, others, AndToken);
    if others.More? {
      OperandsStep(others, true);
      WrappedMade(read, others.next);
      BareIsPhrase(others.phrase);
      MadeExactly(read, Bare(others.phrase));
      MemberMade(read, others.phrase);
      var m, ms := Made(read, Bare(others.phrase)), MadeBare(read, others.next);
      if m.Some? && ms.Some? {
        assert ([m.value] + ms.value)[1..] == ms.value;
        assert Operators(others, AndToken)[1..] == Operators(others.next, AndToken);
      }
    }
  }

  lemma MemberMade(read: Reader, d: Phrase)
    ensures var m := Made(read, Bare(d));
            Made(read, d) == if m.None? then None else Some(if d.Negation? then Not(m.value) else m.value)
  {
  }

  lemma {:induction false} OrHasNoNegation(read: Reader, others: Operands)
    requires AreOperands(others, false)
    ensures MadeBare(read, others) == MadeAll(read, others)
    ensures forall i :: 0 <= i < |Operators(others, OrToken)| ==> Operators(others, OrToken)[i].OrToken?
    decreases others
  {
    hide Made, IsPhrase, AreOperands;
    if others.More? {
      OperandsStep(others, false);
      OrHasNoNegation(read, others.next);
    }
  }

  lemma {:induction false} AndOperators(others: Operands)
    ensures forall i :: 0 <= i < |Operators(others, AndToken)| ==> !Operators(others, AndToken)[i].OrToken?
    ensures forall i :: 0 <= i < |Operators(others, AndToken)| ==>
              Operators(others, AndToken)[i].AndToken? || Operators(others, AndToken)[i].NotToken?
    decreases others
  {
    if others.More? {
      AndOperators(others.next);
    }
  }

  /** The loop of the group parser over the further operands. */
  lemma {:induction false} TailIsProcessed(read: Reader, operands: seq<Rule>, operators: seq<Token>,
                                           others: Operands, conjunction: bool, rest: seq<Token>)
    requires |operands| == |operators| + 1 && AreOperands(others, conjunction)
    ensures var ms, t := MadeBare(read, others), ConnectiveToken(conjunction);
            && (ms.Some? ==> |ms.value| == |Operators(others, t)|)
            && GroupRest(read, operands, operators, Tail(others, t) + ([Close] + rest))
                 == if ms.None? then Refused
                    else Finish(operands + ms.value, operators + Operators(others, t), rest)
    decreases others, 1
  {
    hide Process, GroupRest, Finish, IsPhrase, AreOperands, Made, Tokens, Member, Tail;
    var t := ConnectiveToken(conjunction);
    BareLengths(read, others, t);
    if others.End? {
      NoTail(t);
      assert [] + ([Close] + rest) == [Close] + rest;
      assert operands + [] == operands && operators + [] == operators;
      RestEnd(read, operands, operators, rest);
    } else {
      OperandsStep(others, conjunction);
      MoreIsProcessed(read, operands, operators, others, conjunction, rest);
    }
  }

  lemma MoreIsProcessed(read: Reader, operands: seq<Rule>, operators: seq<Token>,
                        others: Operands, conjunction: bool, rest: seq<Token>)
    requires |operands| == |operators| + 1 && others.More?
    requires IsPhrase(others.phrase, true) && AreOperands(others.next, conjunction)
    ensures var ms, t := MadeBare(read, others), ConnectiveToken(conjunction);
            && (ms.Some? ==> |ms.value| == |Operators(others, t)|)
            && GroupRest(read, operands, operators, Tail(others, t) + ([Close] + rest))
                 == if ms.None? then Refused
                    else Finish(operands + ms.value, operators + Operators(others, t), rest)
    decreases others, 0
  {
    hide Process, GroupRest, Finish, IsPhrase, AreOperands, Made, Tokens, Member, Tail;
    var t := ConnectiveToken(conjunction);
    var word := if others.phrase.Negation? then NotToken else t;
    var x, y := Bare(others.phrase), Tail(others.next, t) + ([Close] + rest);
    BareLengths(read, others, t);
    TailStep(others, t);
    MemberTokens(others.phrase, t);
    assert Tail(others, t) + ([Close] + rest) == [word] + (Tokens(x) + y);
    RestUnfold(read, operands, operators, word, Tokens(x) + y);
    TailEndsValues(others.next, conjunction, rest);
    BareIsProcessed(read, others.phrase, y);
    var m := Made(read, x);
    if m.Some? {
      TailIsProcessed(read, operands + [m.value], operators + [word], others.next, conjunction, rest);
      var ms := MadeBare(read, others.next);
      if ms.Some? {
        assert operands + [m.value] + ms.value == operands + ([m.value] + ms.value);
        assert operators + [word] + Operators(others.next, t) == operators + ([word] + Operators(others.next, t));
      }
    }
  }

  lemma BareIsProcessed(read: Reader, d: Phrase, rest: seq<Token>)
    requires IsPhrase(d, true) && EndsValues(rest)
    ensures Process(read, Tokens(Bare(d)) + rest) == Result(Made(read, Bare(d)), rest)
    decreases d, 2
  {
    hide Process, Tokens, Made, IsPhrase;
    BareIsPhrase(d);
    if d.Negation? {
      PhraseIsProcessed(read, d.phrase, rest);
    } else {
      PhraseIsProcessed(read, d, rest);
    }
  }

  lemma TailEndsValues(others: Operands, conjunction: bool, rest: seq<Token>)
    ensures EndsValues(Tail(others, ConnectiveToken(conjunction)) + ([Close] + rest))
  {
    if others.More? {
      MemberTokens(others.phrase, ConnectiveToken(conjunction));
    }
  }

  lemma GroupIsProcessed(read: Reader, d: Phrase, rest: seq<Token>)
    requires d.Group? && IsPhrase(d, true)
    ensures Process(read, Tokens(d) + rest) == Result(Made(read, d), rest)
    decreases d, 0
  {
    hide *;
    var t := ConnectiveToken(d.conjunction);
    GroupIsPhrase(d);
    var y := Tail(d.others, t) + ([Close] + rest);
    TailEndsValues(d.others, d.conjunction, rest);
    PhraseIsProcessed(read, d.first, y);
    GroupHead(read, d, rest);
    var m := Made(read, d.first);
    if m.Some? {
      TailIsProcessed(read, [m.value], [], d.others, d.conjunction, rest);
      assert [] + Operators(d.others, t) == Operators(d.others, t);
    }
    GroupFinished(read, d, rest);
  }

  lemma GroupHead(read: Reader, d: Phrase, rest: seq<Token>)
    requires d.Group? && IsPhrase(d, true)
    requires var y := Tail(d.others, ConnectiveToken(d.conjunction)) + ([Close] + rest);
             Process(read, Tokens(d.first) + y) == Result(Made(read, d.first), y)
    ensures var y := Tail(d.others, ConnectiveToken(d.conjunction)) + ([Close] + rest);
            var m := Made(read, d.first);
            Process(read, Tokens(d) + rest) == if m.None? then Refused else GroupRest(read, [m.value], [], y)
  {
    hide Process, GroupRest, IsPhrase, Made, Tail, Tokens;
    GroupIsPhrase(d);
    GroupTokens(d);
    var tail := Tail(d.others, ConnectiveToken(d.conjunction));
    Brackets(Tokens(d.first), tail, rest);
    GroupUnfold(read, Tokens(d.first) + (tail + ([Close] + rest)));
  }

  lemma Brackets(a: seq<Token>, b: seq<Token>, rest: seq<Token>)
    ensures [Open] + (a + b + [Close]) + rest == [Open] + (a + (b + ([Close] + rest)))
  {
  }

  /** What the group parser builds is what the phrase makes. */
  lemma GroupFinished(read: Reader, d: Phrase, rest: seq<Token>)
    requires d.Group? && IsPhrase(d, true)
    ensures var t := ConnectiveToken(d.conjunction);
            var m, ms := Made(read, d.first), MadeBare(read, d.others);
            && (ms.Some? ==> |ms.value| == |Operators(d.others, t)|)
            && Result(Made(read, d), rest) ==
                 if m.None? || ms.None? then Refused
                 else Finish([m.value] + ms.value, Operators(d.others, t), rest)
  {
    hide Made, MadeAll, IsPhrase, AreOperands, Wrapped, MadeBare, Operators, SetParen;
    var t := ConnectiveToken(d.conjunction);
    GroupIsPhrase(d);
    BareLengths(read, d.others, t);
    FirstOperator(d.others, t);
    var m, ms := Made(read, d.first), MadeBare(read, d.others);
    if d.conjunction {
      WrappedMade(read, d.others);
      AndOperators(d.others);
    } else {
      OrHasNoNegation(read, d.others);
    }
    GroupMade(read, d);
    var ops := Operators(d.others, t);
    if m.Some? && ms.Some? {
      assert ([m.value] + ms.value)[1..] == ms.value;
      assert d.conjunction ==> !ops[0].OrToken?;
      assert ops[..] == ops;
    }
  }

  lemma FirstOperator(others: Operands, t: Token)
    requires others.More?
    ensures |Operators(others, t)| > 0
  {
  }

  /** The parser consumes exactly the tokens of a phrase, and makes of it what it spells. */
  lemma {:induction false} PhraseIsProcessed(read: Reader, d: Phrase, rest: seq<Token>)
    requires IsPhrase(d, true) && !d.Negation? && EndsValues(rest)
    ensures Process(read, Tokens(d) + rest) == Result(Made(read, d), rest)
    decreases d, 1
  {
    hide Process, Tokens, Made;
    if d.Test? {
      TestIsProcessed(read, d, rest);
    } else {
      GroupIsProcessed(read, d, rest);
    }
  }

  /**
    Tokenizing, fusing AND NOT and parsing the text of a phrase gives the rule it means, with its parentheses, and
    uses every token, exactly when every expression is there and readable: free of operators that are searched for
    first, and read by its keyword as itself from its text without outer blanks. Connectives and keywords may be
    spelled in any case, and blanks stand wherever the grammar lets them.
   */
  lemma ParseOfPhrase(read: Reader, d: Phrase)
    requires IsPhrase(d, false)
    ensures Tokenize(Text(d)) == if IsFilled(Meaning(d)) then Some(Tokens(d)) else None
    ensures Parse(read, Text(d)) == Ok(Meaning(d), []) <==> IsFilled(Meaning(d)) && IsReadable(read, Meaning(d))
  {
    hide Tokenize, Text, Tokens, Process, Made, Meaning, IsReadable, IsFilled;
    Relaxed(d);
    NotNegated(d);
    TokenizePhrase(d);
    PhraseIsProcessed(read, d, []);
    assert Tokens(d) + [] == Tokens(d);
    MadeExactly(read, d);
  }

  lemma NotNegated(d: Phrase)
    requires IsPhrase(d, false)
    ensures !d.Negation?
  {
  }

  // ----- printed rules are phrases -----

  function AllUnpadded(rules: seq<Rule>): (r: seq<Rule>)
    ensures |r| == |rules|
    ensures forall i :: 0 <= i < |rules| ==> r[i] == Unpadded(rules[i])
  {
    seq(|rules|, i requires 0 <= i < |rules| => Unpadded(rules[i]))
  }

  function PrintedFrame(paren: bool, pad: bool): Frame { Frame(paren, Padding(pad), Padding(pad)) }

  predicate AllNormal(rules: seq<Rule>, negatable: bool) {
    forall i :: 0 <= i < |rules| ==> IsNormal(rules[i], negatable)
  }

  /** A normal form with its printed spelling. */
  function Printed(r: Rule): Phrase
    requires IsNormal(r, true)
    decreases r, 1
  {
    match r
    case Item(k, op, v, paren, pad) =>
      Test(KeywordText(k), k, op, v, Padding(pad), Padding(pad), PrintedFrame(paren, pad))
    case And(rules, paren, pad) =>
      RelaxedRule(rules[0]);
      Group(true, Printed(rules[0]), PrintedAll(rules[1..], true), PrintedFrame(paren, pad))
    case Or(rules, paren, pad) =>
      RelaxedRule(rules[0]);
      RelaxedRules(rules[1..]);
      Group(false, Printed(rules[0]), PrintedAll(rules[1..], false), PrintedFrame(paren, pad))
    case Not(x) =>
      RelaxedRule(x);
      Negation(NOT_WORD, [SPACE], Printed(x))
  }

  function PrintedAll(rules: seq<Rule>, conjunction: bool): Operands
    requires AllNormal(rules, true)
    decreases rules, 0
  {
    if rules == [] then End
    else
      More(Link([SPACE], Connective(conjunction), [SPACE]), Printed(rules[0]), PrintedAll(rules[1..], conjunction))
  }

  lemma RelaxedRule(r: Rule)
    requires IsNormal(r, false)
    ensures IsNormal(r, true)
  {
  }

  lemma RelaxedRules(rules: seq<Rule>)
    requires AllNormal(rules, false)
    ensures AllNormal(rules, true)
  {
    forall i | 0 <= i < |rules| ensures IsNormal(rules[i], true) {
      RelaxedRule(rules[i]);
    }
  }

  lemma WordSpellsItself(w: bytes)
    ensures IsSpelling(w, w)
  {
  }

  lemma PaddingIsGap(pad: bool)
    ensures IsGap(Padding(pad)) && IsGap([SPACE])
  {
    FourBlanks(SPACE);
  }

  lemma ItemIsTest(r: Rule)
    requires r.Item? && IsNormal(r, true)
    ensures var d := Printed(r); IsPhrase(d, false) && Text(d) == Print(r) && Meaning(d) == Unpadded(r)
  {
    hide KeywordText, OperatorText;
    WordSpellsItself(KeywordText(r.keyword));
    PaddingIsGap(r.pad);
  }

  /** A printed normal form is the text of a phrase that means the rule without its padding. */
  lemma {:induction false} PrintedIsPhrase(r: Rule, negatable: bool)
    requires IsNormal(r, true) && IsNormal(r, negatable)
    ensures IsPhrase(Printed(r), negatable) && Text(Printed(r)) == Print(r) && Meaning(Printed(r)) == Unpadded(r)
    decreases r, 1
  {
    hide IsSpelling, IsGap, IsExpression, PrintedAll, AllNormal, Parenthesised, PrintAll, OthersText, Meanings;
    match r
    case Item(_, _, _, _, _) =>
      ItemIsTest(r);
      if negatable {
        Relaxed(Printed(r));
      }
    case And(_, _, _) => GroupIsPrinted(r, negatable);
    case Or(_, _, _) => GroupIsPrinted(r, negatable);
    case Not(x) =>
      RelaxedRule(x);
      PrintedIsPhrase(x, false);
      WordSpellsItself(NOT_WORD);
      PaddingIsGap(true);
  }

  lemma GroupParts(r: Rule)
    requires (r.And? || r.Or?) && IsNormal(r, true)
    ensures r.paren && |r.rules| >= 2 && IsNormal(r.rules[0], false) && IsNormal(r.rules[0], true)
    ensures AllNormal(r.rules[1..], r.And?) && AllNormal(r.rules[1..], true)
    ensures Printed(r)
         == Group(r.And?, Printed(r.rules[0]), PrintedAll(r.rules[1..], r.And?), PrintedFrame(r.paren, r.pad))
  {
    RelaxedRule(r.rules[0]);
    if r.Or? {
      RelaxedRules(r.rules[1..]);
    }
  }

  lemma GroupTexts(r: Rule)
    requires (r.And? || r.Or?) && r.rules != []
    ensures Print(r) == Parenthesised(PrintAll(r.rules, Connective(r.And?)), r.paren, r.pad)
    ensures Unpadded(r) == if r.And? then And(AllUnpadded(r.rules), r.paren, false)
                           else Or(AllUnpadded(r.rules), r.paren, false)
  {
    hide Parenthesised, PrintAll;
    assert r.And? ==> Unpadded(r) == And(AllUnpadded(r.rules), r.paren, false);
    assert r.Or? ==> Unpadded(r) == Or(AllUnpadded(r.rules), r.paren, false);
  }

  lemma FramedIsParenthesised(body: bytes, paren: bool, pad: bool)
    ensures Framed(body, PrintedFrame(paren, pad)) == Parenthesised(body, paren, pad)
  {
  }

  lemma GroupIsPrinted(r: Rule, negatable: bool)
    requires (r.And? || r.Or?) && IsNormal(r, true)
    ensures IsPhrase(Printed(r), negatable) && Text(Printed(r)) == Print(r) && Meaning(Printed(r)) == Unpadded(r)
    decreases r, 0
  {
    hide IsNormal, PrintedAll, AllNormal, Parenthesised, PrintAll, OthersText, Meanings, Print, Unpadded, Framed;
    GroupParts(r);
    GroupTexts(r);
    var first, others := Printed(r.rules[0]), PrintedAll(r.rules[1..], r.And?);
    PrintedIsPhrase(r.rules[0], false);
    PrintedAreOperands(r.rules[1..], r.And?);
    PrintAllIsLine(r.rules, r.And?);
    var d := Printed(r);
    hide Printed, AreOperands;
    PrintedFrameIsFrame(r.paren, r.pad);
    GroupText(d);
    GroupMeaning(d);
    FramedIsParenthesised(Text(first) + OthersText(others), r.paren, r.pad);
    assert AllUnpadded(r.rules) == [Unpadded(r.rules[0])] + AllUnpadded(r.rules[1..]);
    OperandsAreMore(r.rules[1..], r.And?);
  }

  lemma PrintedFrameIsFrame(paren: bool, pad: bool)
    ensures IsFrame(PrintedFrame(paren, pad))
  {
    PaddingIsGap(pad);
  }

  lemma OperandsAreMore(rules: seq<Rule>, conjunction: bool)
    requires AllNormal(rules, true)
    ensures PrintedAll(rules, conjunction).More? <==> rules != []
  {
  }

  lemma {:induction false} PrintedAreOperands(rules: seq<Rule>, conjunction: bool)
    requires AllNormal(rules, true) && AllNormal(rules, conjunction)
    ensures AreOperands(PrintedAll(rules, conjunction), conjunction)
    ensures Meanings(PrintedAll(rules, conjunction)) == AllUnpadded(rules)
    ensures forall i :: 0 <= i < |rules| ==> Text(Printed(rules[i])) == Print(rules[i])
    decreases rules, 0
  {
    hide IsNormal, IsPhrase, Text, Meaning, Print, Unpadded, IsSpelling, IsGap, Printed;
    if rules != [] {
      PrintedIsPhrase(rules[0], conjunction);
      PrintedAreOperands(rules[1..], conjunction);
      WordSpellsItself(Connective(conjunction));
      PaddingIsGap(true);
      assert AllUnpadded(rules) == [Unpadded(rules[0])] + AllUnpadded(rules[1..]);
      assert forall i :: 0 < i < |rules| ==> rules[i] == rules[1..][i - 1];
    }
  }

  lemma {:induction false} PrintAllIsLine(rules: seq<Rule>, conjunction: bool)
    requires rules != [] && AllNormal(rules[1..], true)
    requires forall i :: 0 < i < |rules| ==> IsNormal(rules[i], true) && Text(Printed(rules[i])) == Print(rules[i])
    ensures PrintAll(rules, Connective(conjunction))
         == Print(rules[0]) + OthersText(PrintedAll(rules[1..], conjunction))
    decreases |rules|
  {
    hide IsNormal, Text, Print, Printed;
    if |rules| == 1 {
      assert rules[1..] == [];
      assert Print(rules[0]) + [] == Print(rules[0]);
    } else {
      var tail := rules[1..];
      assert tail[0] == rules[1] && forall i :: 0 < i < |tail| ==> tail[i] == rules[i + 1];
      PrintAllIsLine(tail, conjunction);
    }
  }

  lemma {:induction false} PaddingIsNoMatter(read: Reader, r: Rule)
    ensures IsFilled(Unpadded(r)) <==> IsFilled(r)
    ensures IsReadable(read, Unpadded(r)) <==> IsReadable(read, r)
    decreases r
  {
    hide IsUnclouded;
    match r
    case Item(_, _, _, _, _) =>
    case And(rules, paren, _) =>
      forall i | 0 <= i < |rules|
        ensures (IsFilled(Unpadded(rules[i])) <==> IsFilled(rules[i]))
             && (IsReadable(read, Unpadded(rules[i])) <==> IsReadable(read, rules[i]))
      {
        PaddingIsNoMatter(read, rules[i]);
      }
      assert Unpadded(r) == And(AllUnpadded(rules), paren, false);
    case Or(rules, paren, _) =>
      forall i | 0 <= i < |rules|
        ensures (IsFilled(Unpadded(rules[i])) <==> IsFilled(rules[i]))
             && (IsReadable(read, Unpadded(rules[i])) <==> IsReadable(read, rules[i]))
      {
        PaddingIsNoMatter(read, rules[i]);
      }
      assert Unpadded(r) == Or(AllUnpadded(rules), paren, false);
    case Not(x) => PaddingIsNoMatter(read, x);
    case Nil =>
  }

  /**
    Printing, tokenizing, fusing AND NOT and parsing give back a rule in normal form, with its parentheses and
    without its padding, and use every token, exactly when every expression is there and readable.
   */
  lemma PrintParseRoundTrip(read: Reader, r: Rule)
    requires IsNormal(r, false)
    ensures Tokenize(Print(r)).Some? <==> IsFilled(r)
    ensures Parse(read, Print(r)) == Ok(Unpadded(r), []) <==> IsFilled(r) && IsReadable(read, r)
  {
    hide *;
    RelaxedRule(r);
    PrintedIsPhrase(r, false);
    ParseOfPhrase(read, Printed(r));
    PaddingIsNoMatter(read, r);
  }

  /** `userdn="a<=b"` is in normal form, but the search finds the wrong operator in it. */
  lemma CloudedExpression(read: Reader)
    ensures var r := Item(UserDn, Eq, [97, LESS, EQUALS, 98], false, false);
            IsNormal(r, false) && IsFilled(r) && Parse(read, Print(r)) != Ok(r, [])
  {
    var v: bytes := [97, LESS, EQUALS, 98];
    var r := Item(UserDn, Eq, v, false, false);
    ContainsPair(v, LESS, EQUALS);
    assert v[1] == LESS && v[1 + 1] == EQUALS;
    hide Parse, Print, Contains, Utf8.TrimSpace;
    PrintParseRoundTrip(read, r);
  }

  /** `userdn=" a"` is in normal form, and read as `userdn="a"`. */
  lemma BlankExpression(read: Reader)
    requires read(UserDn, [97]) == Some([97])
    ensures var r := Item(UserDn, Eq, [SPACE, 97], false, false);
            && IsNormal(r, false) && IsFilled(r)
            && Parse(read, Print(r)) == Ok(Item(UserDn, Eq, [97], false, false), [])
  {
    hide *;
    var r := Item(UserDn, Eq, [SPACE, 97], false, false);
    BlankIsNormal();
    PrintedIsPhrase(r, false);
    var d := Printed(r);
    Relaxed(d);
    TokenizePhrase(d);
    BlankIsMade(read);
    PhraseIsProcessed(read, d, []);
    ParsedByTokens(read, d);
  }

  lemma BlankIsNormal()
    ensures var r := Item(UserDn, Eq, [SPACE, 97], false, false); IsNormal(r, false) && IsNormal(r, true) && IsFilled(r)
    ensures EndsValues([])
  {
  }

  lemma BlankIsMade(read: Reader)
    requires read(UserDn, [97]) == Some([97])
    ensures var d := Printed(Item(UserDn, Eq, [SPACE, 97], false, false));
            Made(read, d) == Some(Item(UserDn, Eq, [97], false, false)) && !d.Negation? && IsFilled(Meaning(d))
  {
    hide MakeItem, Joined, Contains, KeywordText;
    var v: bytes := [SPACE, 97];
    WordSpellsItself(KeywordText(UserDn));
    ItemIsMade(read, KeywordText(UserDn), UserDn, Eq, v);
    ContainsPair(v, LESS, EQUALS);
    ContainsPair(v, GREATER, EQUALS);
    ContainsPair(v, BANG, EQUALS);
    assert [SPACE] + [97] == v;
    TrimAfterBlank([97]);
    Utf8.TrimKeeps([97]);
    hide Utf8.TrimSpace;
  }

  lemma ParsedByTokens(read: Reader, d: Phrase)
    requires Tokenize(Text(d)) == Some(Tokens(d)) && Process(read, Tokens(d) + []) == Result(Made(read, d), [])
    ensures Made(read, d).Some? ==> Parse(read, Text(d)) == Ok(Made(read, d).value, [])
  {
    hide Tokenize, Text, Tokens, Process, Made;
    assert Tokens(d) + [] == Tokens(d);
  }

  /** `userdn=""` is in normal form, and refused. */
  lemma EmptyExpression(read: Reader)
    ensures var r := Item(UserDn, Eq, [], false, false);
            IsNormal(r, false) && Tokenize(Print(r)) == None && Parse(read, Print(r)) == Refused
  {
    var r := Item(UserDn, Eq, [], false, false);
    hide Tokenize, Print, Printed, Text, Tokens, Meaning;
    PrintedIsPhrase(r, false);
    Relaxed(Printed(r));
    TokenizePhrase(Printed(r));
  }

  /** `(UserDN="a" and userdn = "b")` means what `(userdn="a" AND userdn="b")` means. */
  lemma LowerCaseConnective(read: Reader)
    requires read(UserDn, [97]) == Some([97]) && read(UserDn, [98]) == Some([98])
    ensures Parse(read, Ascii("(UserDN=\"a\" and userdn = \"b\")"))
         == Ok(And([Item(UserDn, Eq, [97], false, false), Item(UserDn, Eq, [98], false, false)], true, false), [])
  {
    hide *;
    ExampleIsPhrase();
    ExampleText();
    ExampleMeaning(read);
    ParseOfPhrase(read, Example());
  }

  function ExampleTest(word: bytes, c: byte, gap: bytes): Phrase {
    Test(word, UserDn, Eq, [c], gap, gap, Frame(false, [], []))
  }

  function Example(): Phrase {
    Group(true, ExampleTest([85, 115, 101, 114, 68, 78], 97, []),
          More(Link([SPACE], [97, 110, 100], [SPACE]), ExampleTest([117, 115, 101, 114, 100, 110], 98, [SPACE]), End),
          Frame(true, [], []))
  }

  lemma ExampleIsPhrase()
    ensures IsPhrase(Example(), false)
  {
    hide *;
    UpperSpelling();
    WordSpellsItself(KeywordText(UserDn));
    LowerSpelling();
    PaddingIsGap(true);
    NothingIsGap();
    TestIsPhrase([85, 115, 101, 114, 68, 78], 97, []);
    TestIsPhrase([117, 115, 101, 114, 100, 110], 98, [SPACE]);
    GroupOfTwo(ExampleTest([85, 115, 101, 114, 68, 78], 97, []), [97, 110, 100],
               ExampleTest([117, 115, 101, 114, 100, 110], 98, [SPACE]));
    ExampleParts();
  }

  lemma ExampleParts()
    ensures Example() == Group(true, ExampleTest([85, 115, 101, 114, 68, 78], 97, []),
                               More(Link([SPACE], [97, 110, 100], [SPACE]),
                                    ExampleTest([117, 115, 101, 114, 100, 110], 98, [SPACE]), End),
                               Frame(true, [], []))
  {
  }

  lemma UpperSpelling()
    ensures IsSpelling([85, 115, 101, 114, 68, 78], KeywordText(UserDn))
    ensures KeywordText(UserDn) == [117, 115, 101, 114, 100, 110]
  {
    assert SameLetter(85, 117) && SameLetter(68, 100) && SameLetter(78, 110);
    hide SameLetter;
    EqualLetters(115);
    EqualLetters(101);
    EqualLetters(114);
  }

  lemma LowerSpelling()
    ensures IsSpelling([97, 110, 100], AND_WORD)
  {
    assert SameLetter(97, 65) && SameLetter(110, 78) && SameLetter(100, 68);
    hide SameLetter;
  }

  lemma EqualLetters(c: byte)
    ensures SameLetter(c, c)
  {
  }

  lemma TestIsPhrase(word: bytes, c: byte, gap: bytes)
    requires IsSpelling(word, KeywordText(UserDn)) && IsGap(gap) && IsGap([]) && c > 90
    ensures IsPhrase(ExampleTest(word, c, gap), false) && IsPhrase(ExampleTest(word, c, gap), true)
  {
    hide IsSpelling, IsGap, KeywordText;
  }

  lemma GroupOfTwo(p: Phrase, word: bytes, q: Phrase)
    requires IsPhrase(p, false) && IsPhrase(q, true) && IsSpelling(word, AND_WORD) && IsGap([SPACE]) && IsGap([])
    ensures IsPhrase(Group(true, p, More(Link([SPACE], word, [SPACE]), q, End), Frame(true, [], [])), false)
  {
    hide IsSpelling, IsGap;
    assert AreOperands(End, true);
    assert IsLink(Link([SPACE], word, [SPACE]), true);
    hide IsLink;
    assert AreOperands(More(Link([SPACE], word, [SPACE]), q, End), true);
  }

  lemma ExampleTestText(word: bytes, c: byte)
    ensures Text(ExampleTest(word, c, [])) == word + [EQUALS, DQUOTE, c, DQUOTE]
    ensures Text(ExampleTest(word, c, [SPACE])) == word + [SPACE, EQUALS, SPACE, DQUOTE, c, DQUOTE]
  {
  }

  lemma ExampleText()
    ensures Text(Example()) == Ascii("(UserDN=\"a\" and userdn = \"b\")")
  {
    hide Text;
    ExampleTestText([85, 115, 101, 114, 68, 78], 97);
    ExampleTestText([117, 115, 101, 114, 100, 110], 98);
    GroupText(Example());
    var a: bytes := [85, 115, 101, 114, 68, 78] + [EQUALS, DQUOTE, 97, DQUOTE];
    var b: bytes := [117, 115, 101, 114, 100, 110] + [SPACE, EQUALS, SPACE, DQUOTE, 98, DQUOTE];
    assert OthersText(End) == [];
    assert OthersText(Example().others) == [SPACE] + ([97, 110, 100] + ([SPACE] + (b + [])));
    ExampleOctets();
    hide OthersText, Ascii;
    var body := a + ([SPACE] + ([97, 110, 100] + ([SPACE] + (b + []))));
    assert Text(Example()) == [LPAREN] + ([] + (body + ([] + [RPAREN])));
  }

  lemma ExampleOctets()
    ensures Ascii("(UserDN=\"a\" and userdn = \"b\")")
         == [LPAREN] + [85, 115, 101, 114, 68, 78] + [EQUALS, DQUOTE, 97, DQUOTE] + [SPACE, 97, 110, 100, SPACE]
            + [117, 115, 101, 114, 100, 110] + [SPACE, EQUALS, SPACE, DQUOTE, 98, DQUOTE] + [RPAREN]
  {
  }

  lemma ExampleMeaning(read: Reader)
    requires read(UserDn, [97]) == Some([97]) && read(UserDn, [98]) == Some([98])
    ensures Meaning(Example())
         == And([Item(UserDn, Eq, [97], false, false), Item(UserDn, Eq, [98], false, false)], true, false)
    ensures IsFilled(Meaning(Example())) && IsReadable(read, Meaning(Example()))
  {
    var a, b := Item(UserDn, Eq, [97], false, false), Item(UserDn, Eq, [98], false, false);
    assert Meanings(End) == [];
    assert Meanings(Example().others) == [b] + [] == [b];
    assert Meaning(Example()) == And([a] + [b], true, false);
    assert [a] + [b] == [a, b];
    LetterIsUnclouded(97);
    LetterIsUnclouded(98);
    Utf8.TrimKeeps([97]);
    Utf8.TrimKeeps([98]);
    hide IsUnclouded, Meaning, Utf8.TrimSpace;
    assert IsReadable(read, a) && IsReadable(read, b);
  }

  lemma LetterIsUnclouded(c: byte)
    requires c == 97 || c == 98
    ensures IsUnclouded(Eq, [c])
  {
    ContainsPair([c], LESS, EQUALS);
    ContainsPair([c], GREATER, EQUALS);
    ContainsPair([c], BANG, EQUALS);
    hide Contains;
  }
}
