/**
  aci/aci.go: ACIv3 bind rules. A tokenizer, a pass that fuses AND NOT, a group parser that keeps parentheses, and
  the printer. What an expression means to its keyword (names, addresses, times, levels) is a parameter: a reader
  that yields the text of the typed value, or nothing.
 */
module BindRules {
  import opened Bytes
  import opened Wrappers
  import Utf8

  datatype Keyword =
    | UserDn | RoleDn | GroupDn | UserAttr | GroupAttr | Ip | Dns | DayOfWeek | TimeOfDay | AuthMethod | Ssf

  datatype Operator = Eq | Ne | Lt | Le | Gt | Ge

  /** `Nil` is badACIv3BindRule, a nil interface. */
  datatype Rule =
    | Item(keyword: Keyword, operator: Operator, value: bytes, paren: bool, pad: bool)
    | And(rules: seq<Rule>, paren: bool, pad: bool)
    | Or(rules: seq<Rule>, paren: bool, pad: bool)
    | Not(rule: Rule)
    | Nil

  /** The typed value behind a keyword, as the text it prints to. */
  type Reader = (Keyword, bytes) -> Option<bytes>

  // ----- names -----

  /** aCIBindKeywordMap. */
  function KeywordText(k: Keyword): bytes {
    match k
    case UserDn => [117, 115, 101, 114, 100, 110]
    case RoleDn => [114, 111, 108, 101, 100, 110]
    case GroupDn => [103, 114, 111, 117, 112, 100, 110]
    case UserAttr => [117, 115, 101, 114, 97, 116, 116, 114]
    case GroupAttr => [103, 114, 111, 117, 112, 97, 116, 116, 114]
    case Ip => [105, 112]
    case Dns => [100, 110, 115]
    case DayOfWeek => [100, 97, 121, 111, 102, 119, 101, 101, 107]
    case TimeOfDay => [116, 105, 109, 101, 111, 102, 100, 97, 121]
    case AuthMethod => [97, 117, 116, 104, 109, 101, 116, 104, 111, 100]
    case Ssf => [115, 115, 102]
  }

  lemma SubjectLiterals()
    ensures KeywordText(UserDn) == Ascii("userdn") && KeywordText(RoleDn) == Ascii("roledn")
    ensures KeywordText(GroupDn) == Ascii("groupdn") && KeywordText(UserAttr) == Ascii("userattr")
    ensures KeywordText(GroupAttr) == Ascii("groupattr") && KeywordText(Ip) == Ascii("ip")
  {
  }

  lemma ContextLiterals()
    ensures KeywordText(Dns) == Ascii("dns") && KeywordText(DayOfWeek) == Ascii("dayofweek")
    ensures KeywordText(TimeOfDay) == Ascii("timeofday") && KeywordText(AuthMethod) == Ascii("authmethod")
    ensures KeywordText(Ssf) == Ascii("ssf")
  {
  }

  const KEYWORDS := [UserDn, RoleDn, GroupDn, UserAttr, GroupAttr, Ip, Dns, DayOfWeek, TimeOfDay, AuthMethod, Ssf]

  function FindKeyword(x: bytes, among: seq<Keyword>): Option<Keyword> {
    if among == [] then None
    else if Lower(x) == KeywordText(among[0]) then Some(among[0])
    else FindKeyword(x, among[1..])
  }

  /** matchBKW, for ASCII text. */
  function MatchKeyword(x: bytes): Option<Keyword> { FindKeyword(x, KEYWORDS) }

  const BANG_EQUALS: bytes := [BANG, EQUALS]
  const LESS_EQUALS: bytes := [LESS, EQUALS]
  const GREATER_EQUALS: bytes := [GREATER, EQUALS]

  function OperatorText(op: Operator): bytes {
    match op
    case Eq => [EQUALS]
    case Ne => BANG_EQUALS
    case Lt => [LESS]
    case Le => LESS_EQUALS
    case Gt => [GREATER]
    case Ge => GREATER_EQUALS
  }

  lemma OperatorLiterals()
    ensures OperatorText(Eq) == Ascii("=") && OperatorText(Ne) == Ascii("!=") && OperatorText(Lt) == Ascii("<")
    ensures OperatorText(Le) == Ascii("<=") && OperatorText(Gt) == Ascii(">") && OperatorText(Ge) == Ascii(">=")
    ensures AND_WORD == Ascii("AND") && OR_WORD == Ascii("OR") && NOT_WORD == Ascii("NOT")
  {
  }

  // ----- String -----

  const AND_WORD: bytes := [65, 78, 68]
  const OR_WORD: bytes := [79, 82]
  const NOT_WORD: bytes := [78, 79, 84]

  function Padding(pad: bool): bytes { if pad then [SPACE] else [] }

  function Parenthesised(body: bytes, paren: bool, pad: bool): bytes {
    if paren then [LPAREN] + (Padding(pad) + (body + (Padding(pad) + [RPAREN]))) else body
  }

  function Quoted(value: bytes): bytes {
    if value != [] && value[0] == DQUOTE && value[|value| - 1] == DQUOTE then value else [DQUOTE] + (value + [DQUOTE])
  }

  function ItemText(k: Keyword, op: Operator, value: bytes, pad: bool): bytes {
    KeywordText(k) + (Padding(pad) + (OperatorText(op) + (Padding(pad) + Quoted(value))))
  }

  /** String; the fixed texts for malformed rules are left empty here. */
  function Print(r: Rule): bytes {
    match r
    case Item(k, op, value, paren, pad) => Parenthesised(ItemText(k, op, value, pad), paren, pad)
    case And(rules, paren, pad) =>
      if rules == [] then [] else Parenthesised(PrintAll(rules, AND_WORD), paren, pad)
    case Or(rules, paren, pad) =>
      if rules == [] then [] else Parenthesised(PrintAll(rules, OR_WORD), paren, pad)
    case Not(rule) => if rule.Nil? then [] else NOT_WORD + ([SPACE] + Print(rule))
    case Nil => []
  }

  function PrintAll(rules: seq<Rule>, word: bytes): bytes
    requires rules != []
  {
    if |rules| == 1 then Print(rules[0])
    else Print(rules[0]) + ([SPACE] + (word + ([SPACE] + PrintAll(rules[1..], word))))
  }

  // ----- tokens -----

  /** brAnd to brParenClose; only values carry text that matters. */
  datatype Token = AndToken | OrToken | NotToken | Open | Close | Value(text: bytes)

  predicate IsBoolean(t: Token) { t.AndToken? || t.OrToken? || t.NotToken? }

  predicate IsBlank(c: byte) { c == SPACE || c == 9 || c == 10 || c == 13 }

  /** tokenizeACIv3BindRuleBooleanOperator, for ASCII text. */
  function WordToken(x: bytes): Token {
    if Lower(x) == Lower(AND_WORD) then AndToken
    else if Lower(x) == Lower(OR_WORD) then OrToken
    else if Lower(x) == Lower(NOT_WORD) then NotToken
    else Value(x)
  }

  function Flush(buf: bytes): seq<Token> { if buf == [] then [] else [WordToken(buf)] }

  /** What stands before the next quotation mark, or all there is. */
  function UpToQuote(s: bytes): (r: bytes)
    ensures r <= s && DQUOTE !in r
    ensures r == s || s[|r|] == DQUOTE
  {
    if s == [] || s[0] == DQUOTE then [] else [s[0]] + UpToQuote(s[1..])
  }

  function TokensFrom(s: bytes, buf: bytes): seq<Token>
    decreases |s|
  {
    if s == [] then Flush(buf)
    else if s[0] == DQUOTE then
      var v := UpToQuote(s[1..]);
      Flush(buf) + ([Value(v)] + TokensFrom(if 2 + |v| <= |s| then s[2 + |v|..] else [], []))
    else if s[0] == LPAREN then Flush(buf) + ([Open] + TokensFrom(s[1..], []))
    else if s[0] == RPAREN then Flush(buf) + ([Close] + TokensFrom(s[1..], []))
    else if IsBlank(s[0]) then Flush(buf) + TokensFrom(s[1..], [])
    else if s[0] == EQUALS then Flush(buf) + TokensFrom(s[1..], [s[0]])
    else if s[0] == GREATER || s[0] == LESS || s[0] == BANG then
      if |s| > 1 && s[1] == EQUALS then Flush(buf) + TokensFrom(s[2..], [s[0], s[1]])
      else Flush(buf) + TokensFrom(s[1..], [s[0]])
    else TokensFrom(s[1..], buf + [s[0]])
  }

  /** The first pass of combineACIv3BindRuleTokens: AND NOT becomes one operator. */
  function Fuse(ts: seq<Token>): (r: seq<Token>)
    ensures |r| <= |ts|
  {
    if ts == [] then []
    else if ts[0].AndToken? && |ts| > 1 && ts[1].NotToken? then [NotToken] + Fuse(ts[2..])
    else [ts[0]] + Fuse(ts[1..])
  }

  /** tokenizeACIv3BindRule: an empty value is an error. */
  function Tokenize(s: bytes): Option<seq<Token>> {
    var ts := Fuse(TokensFrom(s, []));
    if Value([]) in ts then None else Some(ts)
  }

  // ----- parsing -----

  /** Stopped for an error, or for a method call on a nil rule. */
  datatype Outcome = Ok(rule: Rule, rest: seq<Token>) | Refused | Panic

  /** The values at the front. */
  function Values(ts: seq<Token>): (r: seq<bytes>)
    ensures |r| <= |ts|
  {
    if ts != [] && ts[0].Value? then [ts[0].text] + Values(ts[1..]) else []
  }

  /** The first operator, in the order of the search, that occurs anywhere. */
  function FindOperator(x: bytes): Option<Operator> {
    if Contains(x, LESS_EQUALS) then Some(Le)
    else if Contains(x, GREATER_EQUALS) then Some(Ge)
    else if Contains(x, BANG_EQUALS) then Some(Ne)
    else if Contains(x, [EQUALS]) then Some(Eq)
    else if Contains(x, [LESS]) then Some(Lt)
    else if Contains(x, [GREATER]) then Some(Gt)
    else None
  }

  /** What the joined values say; None is an error, and a text without operator leaves a nil rule. */
  function MakeItem(read: Reader, joined: bytes): Option<Rule> {
    var op := FindOperator(joined);
    if op.None? then Some(Nil)
    else
      var t := OperatorText(op.value);
      var i := Index(joined, t);
      var k := MatchKeyword(Utf8.TrimSpace(joined[..i]));
      if k.None? then None
      else
        var v := read(k.value, Utf8.TrimSpace(joined[i + |t|..]));
        if v.None? then None else Some(Item(k.value, op.value, v.value, false, false))
  }

  function SetParen(r: Rule, paren: bool): Rule
    requires !r.Nil?
  {
    match r
    case Item(k, op, value, _, pad) => Item(k, op, value, paren, pad)
    case And(rules, _, pad) => And(rules, paren, pad)
    case Or(rules, _, pad) => Or(rules, paren, pad)
    case Not(_) => r
  }

  /** newACIv3BindRuleNot: no negation of a negation. */
  function Negated(r: Rule): Rule { Not(if r.Not? then Nil else r) }

  /** The operands behind the first, negated where the operator says so. */
  function Wrapped(operands: seq<Rule>, operators: seq<Token>): seq<Rule>
    requires |operands| == |operators|
  {
    if operands == [] then []
    else [if operators[0].NotToken? then Negated(operands[0]) else operands[0]] + Wrapped(operands[1..], operators[1..])
  }

  /** getAndOrBool and what is made of it; OR wins when both hold. */
  function Build(operands: seq<Rule>, operators: seq<Token>): Option<Rule>
    requires |operands| == |operators| + 1
  {
    if forall i :: 0 <= i < |operators| ==> operators[i].OrToken? then Some(Or(operands, true, false))
    else if forall i :: 0 <= i < |operators| ==> operators[i].AndToken? || operators[i].NotToken?
    then Some(And([operands[0]] + Wrapped(operands[1..], operators), true, false))
    else None
  }

  /** What the operands and operators of a group become. */
  function Conclude(operands: seq<Rule>, operators: seq<Token>): Outcome
    requires |operands| == |operators| + 1
  {
    if operators == [] then (if operands[0].Nil? then Panic else Ok(SetParen(operands[0], true), []))
    else
      var r := Build(operands, operators);
      if r.Some? then Ok(r.value, []) else Refused
  }

  function Finish(operands: seq<Rule>, operators: seq<Token>, rest: seq<Token>): Outcome
    requires |operands| == |operators| + 1
  {
    var o := Conclude(operands, operators);
    if o.Ok? then Ok(o.rule, rest) else o
  }

  /** processACIv3BindRule. */
  function Process(read: Reader, ts: seq<Token>): (r: Outcome)
    ensures r.Ok? ==> |r.rest| <= |ts|
    decreases |ts|, 1
  {
    if ts == [] then Refused
    else if ts[0].Open? then Group(read, ts)
    else
      var vs := Values(ts);
      var item := MakeItem(read, Join(vs, SPACE));
      if item.None? then Refused else Ok(item.value, ts[|vs|..])
  }

  /** parseACIv3BindRuleGroup. */
  function Group(read: Reader, ts: seq<Token>): (r: Outcome)
    requires ts != []
    ensures r.Ok? ==> |r.rest| < |ts|
    decreases |ts|, 0
  {
    if !ts[0].Open? then Refused
    else
      var first := Process(read, ts[1..]);
      if !first.Ok? then first else GroupRest(read, [first.rule], [], first.rest)
  }

  function GroupRest(read: Reader, operands: seq<Rule>, operators: seq<Token>, ts: seq<Token>): (r: Outcome)
    requires |operands| == |operators| + 1
    ensures r.Ok? ==> |r.rest| <= |ts|
    decreases |ts|, 2
  {
    if ts == [] then Refused
    else if ts[0].Close? then Finish(operands, operators, ts[1..])
    else if !IsBoolean(ts[0]) then Refused
    else
      var next := Process(read, ts[1..]);
      if !next.Ok? then next else GroupRest(read, operands + [next.rule], operators + [ts[0]], next.rest)
  }

  /** parseACIv3BindRuleTokens: every token has to be used. */
  function ParseTokens(read: Reader, ts: seq<Token>): Outcome {
    var r := Process(read, ts);
    if r.Ok? && r.rest != [] then Refused else r
  }

  function Parse(read: Reader, s: bytes): Outcome {
    var ts := Tokenize(s);
    if ts.None? then Refused else ParseTokens(read, ts.value)
  }

  // ----- the loops -----

  lemma {:induction false} UpToQuoteIs(s: bytes, n: nat)
    requires n <= |s| && DQUOTE !in s[..n] && (n == |s| || s[n] == DQUOTE)
    ensures UpToQuote(s) == s[..n]
    decreases n
  {
    if n > 0 {
      assert s[0] == s[..n][0];
      assert s[1..][..n - 1] == s[..n][1..];
      UpToQuoteIs(s[1..], n - 1);
      assert s[..n] == [s[0]] + s[1..][..n - 1];
    }
  }

  /** A quoted value, from its opening mark on. */
  lemma QuotedStep(s: bytes, buf: bytes, n: nat)
    requires s != [] && s[0] == DQUOTE && n < |s|
    requires DQUOTE !in s[1..1 + n] && (1 + n == |s| || s[1 + n] == DQUOTE)
    ensures TokensFrom(s, buf)
         == Flush(buf) + ([Value(s[1..1 + n])] + TokensFrom(if 2 + n <= |s| then s[2 + n..] else [], []))
  {
    assert s[1..][..n] == s[1..1 + n];
    UpToQuoteIs(s[1..], n);
    hide UpToQuote;
  }

  /** One character outside quotation marks: what is emitted, what is collected, and how much is used up. */
  lemma PlainStep(s: bytes, buf: bytes)
    requires s != [] && s[0] != DQUOTE
    ensures TokensFrom(s, buf) ==
              if s[0] == LPAREN then Flush(buf) + ([Open] + TokensFrom(s[1..], []))
              else if s[0] == RPAREN then Flush(buf) + ([Close] + TokensFrom(s[1..], []))
              else if IsBlank(s[0]) then Flush(buf) + TokensFrom(s[1..], [])
              else if s[0] == EQUALS then Flush(buf) + TokensFrom(s[1..], [s[0]])
              else if s[0] == GREATER || s[0] == LESS || s[0] == BANG then
                if |s| > 1 && s[1] == EQUALS then Flush(buf) + TokensFrom(s[2..], [s[0], s[1]])
                else Flush(buf) + TokensFrom(s[1..], [s[0]])
              else TokensFrom(s[1..], buf + [s[0]])
  {
  }

  lemma EndStep(buf: bytes)
    ensures TokensFrom([], buf) == Flush(buf)
  {
  }

  lemma Regroup(a: seq<Token>, b: seq<Token>, c: seq<Token>)
    ensures a + (b + c) == a + b + c
  {
  }

  lemma RegroupFour(a: seq<Token>, b: seq<Token>, c: seq<Token>, d: seq<Token>)
    ensures a + (b + (c + d)) == a + b + c + d
  {
  }

  /** The scanning loop of tokenizeACIv3BindRule. */
  method ScanTokens(input: bytes) returns (tokens: seq<Token>)
    ensures tokens == TokensFrom(input, [])
  {
    hide TokensFrom, WordToken;
    tokens := [];
    var bld: bytes := [];
    var i := 0;
    assert input[0..] == input;
    ghost var all := TokensFrom(input, []);
    while i < |input|
      invariant 0 <= i <= |input|
      invariant all == tokens + TokensFrom(input[i..], bld)
      decreases |input| - i
    {
      var ch := input[i];
      if ch == DQUOTE {
        var n := QuotedLength(input[i..]);
        QuotedStep(input[i..], bld, n);
        var v := input[i..][1..1 + n];
        ghost var rest := if 2 + n <= |input[i..]| then input[i..][2 + n..] else [];
        RegroupFour(tokens, Flush(bld), [Value(v)], TokensFrom(rest, []));
        tokens := tokens + Flush(bld) + [Value(v)];
        bld := [];
        i := if i + 2 + n <= |input| then i + 2 + n else |input|;
        assert input[i..] == rest;
      } else {
        PlainStep(input[i..], bld);
        assert input[i..][1..] == input[i + 1..];
        if ch == LPAREN || ch == RPAREN {
          var t := if ch == LPAREN then Open else Close;
          RegroupFour(tokens, Flush(bld), [t], TokensFrom(input[i + 1..], []));
          tokens := tokens + Flush(bld) + [t];
          bld := [];
        } else if IsBlank(ch) {
          Regroup(tokens, Flush(bld), TokensFrom(input[i + 1..], []));
          tokens := tokens + Flush(bld);
          bld := [];
        } else if ch == EQUALS {
          Regroup(tokens, Flush(bld), TokensFrom(input[i + 1..], [ch]));
          tokens := tokens + Flush(bld);
          bld := [ch];
        } else if ch == GREATER || ch == LESS || ch == BANG {
          if i + 1 < |input| && input[i + 1] == EQUALS {
            assert input[i..][2..] == input[i + 2..];
            Regroup(tokens, Flush(bld), TokensFrom(input[i + 2..], [ch, EQUALS]));
            tokens := tokens + Flush(bld);
            bld := [ch, EQUALS];
            i := i + 1;
          } else {
            Regroup(tokens, Flush(bld), TokensFrom(input[i + 1..], [ch]));
            tokens := tokens + Flush(bld);
            bld := [ch];
          }
        } else {
          bld := bld + [ch];
        }
        i := i + 1;
      }
    }
    assert input[i..] == [];
    EndStep(bld);
    tokens := tokens + Flush(bld);
  }

  /** How many characters stand between a quotation mark and the next one or the end. */
  method QuotedLength(s: bytes) returns (n: nat)
    requires s != []
    ensures n < |s| && DQUOTE !in s[1..1 + n] && (1 + n == |s| || s[1 + n] == DQUOTE)
  {
    n := 0;
    while 1 + n < |s| && s[1 + n] != DQUOTE
      invariant n < |s| && DQUOTE !in s[1..1 + n]
    {
      assert s[1..1 + (n + 1)] == s[1..1 + n] + [s[1 + n]];
      n := n + 1;
    }
  }

  lemma FuseStep(ts: seq<Token>)
    requires ts != []
    ensures Fuse(ts) == if ts[0].AndToken? && |ts| > 1 && ts[1].NotToken? then [NotToken] + Fuse(ts[2..])
                        else [ts[0]] + Fuse(ts[1..])
  {
  }

  /** combineACIv3BindRuleTokens. */
  method CombineTokens(tokens: seq<Token>) returns (combined: Option<seq<Token>>)
    ensures combined == if Value([]) in Fuse(tokens) then None else Some(Fuse(tokens))
  {
    hide Fuse;
    var out: seq<Token> := [];
    var i := 0;
    assert tokens[0..] == tokens;
    while i < |tokens|
      invariant 0 <= i <= |tokens|
      invariant Fuse(tokens) == out + Fuse(tokens[i..])
    {
      FuseStep(tokens[i..]);
      if tokens[i].AndToken? && i + 1 < |tokens| && tokens[i + 1].NotToken? {
        assert tokens[i..][2..] == tokens[i + 2..];
        Regroup(out, [NotToken], Fuse(tokens[i + 2..]));
        out := out + [NotToken];
        i := i + 2;
      } else {
        assert tokens[i..][1..] == tokens[i + 1..];
        Regroup(out, [tokens[i]], Fuse(tokens[i + 1..]));
        out := out + [tokens[i]];
        i := i + 1;
      }
    }
    FuseEnd();
    assert tokens[i..] == [] && out + [] == out;
    for k := 0 to |out|
      invariant Value([]) !in out[..k]
    {
      assert out[..k + 1] == out[..k] + [out[k]];
      if out[k] == Value([]) {
        return None;
      }
    }
    assert out[..|out|] == out;
    return Some(out);
  }

  lemma FuseEnd()
    ensures Fuse([]) == []
  {
  }

  method TokenizeBindRule(input: bytes) returns (r: Option<seq<Token>>)
    ensures r == Tokenize(input)
  {
    var tokens := ScanTokens(input);
    r := CombineTokens(tokens);
  }

  /** getAndOrBool. */
  method GetAndOrBool(operators: seq<Token>) returns (allAnd: bool, allOr: bool)
    ensures allOr <==> forall i :: 0 <= i < |operators| ==> operators[i].OrToken?
    ensures allAnd <==> forall i :: 0 <= i < |operators| ==> operators[i].AndToken? || operators[i].NotToken?
  {
    allOr, allAnd := true, true;
    for i := 0 to |operators|
      invariant allOr <==> forall k :: 0 <= k < i ==> operators[k].OrToken?
      invariant allAnd <==> forall k :: 0 <= k < i ==> operators[k].AndToken? || operators[k].NotToken?
    {
      if !operators[i].OrToken? {
        allOr := false;
      }
      if !operators[i].AndToken? && !operators[i].NotToken? {
        allAnd := false;
      }
    }
  }

  datatype Status = Good | Bad | Panicked

  function StatusOf(o: Outcome): Status {
    match o
    case Ok(_, _) => Good
    case Refused => Bad
    case Panic => Panicked
  }

  lemma ValuesStep(ts: seq<Token>)
    ensures Values(ts) == if ts != [] && ts[0].Value? then [ts[0].text] + Values(ts[1..]) else []
  {
  }

  lemma RestStep(read: Reader, operands: seq<Rule>, operators: seq<Token>, ts: seq<Token>)
    requires |operands| == |operators| + 1
    ensures GroupRest(read, operands, operators, ts) ==
              if ts == [] then Refused
              else if ts[0].Close? then Finish(operands, operators, ts[1..])
              else if !IsBoolean(ts[0]) then Refused
              else
                var next := Process(read, ts[1..]);
                if !next.Ok? then next else GroupRest(read, operands + [next.rule], operators + [ts[0]], next.rest)
  {
  }

  lemma ProcessStep(read: Reader, ts: seq<Token>)
    ensures Process(read, ts) ==
              if ts == [] then Refused
              else if ts[0].Open? then Group(read, ts)
              else
                var vs := Values(ts);
                var item := MakeItem(read, Join(vs, SPACE));
                if item.None? then Refused else Ok(item.value, ts[|vs|..])
  {
    hide Group, MakeItem, Values, Join;
  }

  /** The token list with the position that the two parsers share and advance. */
  class Cursor {
    const tokens: seq<Token>
    const read: Reader
    var pos: nat

    constructor (ts: seq<Token>, reader: Reader)
      ensures tokens == ts && read == reader && pos == 0
    {
      tokens, read, pos := ts, reader, 0;
    }

    method ProcessRule() returns (status: Status, rule: Rule)
      requires pos <= |tokens|
      modifies this
      ensures old(pos) <= pos <= |tokens|
      ensures var o := Process(read, tokens[old(pos)..]);
              status == StatusOf(o) && (status.Good? ==> o == Ok(rule, tokens[pos..]))
      decreases |tokens| - pos, 1
    {
      hide Group, MakeItem, Values, Process, Join;
      rule := Nil;
      ProcessStep(read, tokens[pos..]);
      if pos >= |tokens| {
        return Bad, Nil;
      }
      if tokens[pos].Open? {
        status, rule := ParseGroup();
        return;
      }
      var parts: seq<bytes> := [];
      ghost var start := pos;
      ValuesStep(tokens[pos..]);
      while pos < |tokens| && tokens[pos].Value?
        invariant start <= pos <= |tokens|
        invariant Values(tokens[start..]) == parts + Values(tokens[pos..])
        invariant |parts| == pos - start
        decreases |tokens| - pos
      {
        ValuesStep(tokens[pos..]);
        assert tokens[pos..][1..] == tokens[pos + 1..];
        ghost var others := Values(tokens[pos + 1..]);
        assert parts + ([tokens[pos].text] + others) == parts + [tokens[pos].text] + others;
        parts := parts + [tokens[pos].text];
        pos := pos + 1;
      }
      ValuesStep(tokens[pos..]);
      assert parts + [] == parts;
      assert tokens[start..][|parts|..] == tokens[pos..];
      var item := MakeItem(read, Join(parts, SPACE));
      if item.None? {
        return Bad, Nil;
      }
      return Good, item.value;
    }

    method ParseGroup() returns (status: Status, rule: Rule)
      requires pos < |tokens|
      modifies this
      ensures old(pos) <= pos <= |tokens|
      ensures var o := Group(read, tokens[old(pos)..]);
              status == StatusOf(o) && (status.Good? ==> o == Ok(rule, tokens[pos..]))
      decreases |tokens| - pos, 0
    {
      hide Process, GroupRest, Conclude;
      if !tokens[pos].Open? {
        return Bad, Nil;
      }
      ghost var start := pos;
      pos := pos + 1;
      assert tokens[start..][1..] == tokens[pos..];
      var operand: Rule;
      status, operand := ProcessRule();
      if !status.Good? {
        return status, Nil;
      }
      var operands := [operand];
      var operators: seq<Token> := [];
      ghost var goal := Group(read, tokens[start..]);
      while pos < |tokens| && !tokens[pos].Close?
        invariant start < pos <= |tokens| && |operands| == |operators| + 1
        invariant goal == GroupRest(read, operands, operators, tokens[pos..])
        decreases |tokens| - pos
      {
        RestStep(read, operands, operators, tokens[pos..]);
        if !IsBoolean(tokens[pos]) {
          return Bad, Nil;
        }
        var op := tokens[pos];
        assert tokens[pos..][1..] == tokens[pos + 1..];
        pos := pos + 1;
        var next: Rule;
        status, next := ProcessRule();
        if !status.Good? {
          return status, Nil;
        }
        operands, operators := operands + [next], operators + [op];
      }
      RestStep(read, operands, operators, tokens[pos..]);
      if pos >= |tokens| {
        return Bad, Nil;
      }
      assert tokens[pos..][1..] == tokens[pos + 1..];
      pos := pos + 1;
      status, rule := Assemble(operands, operators);
    }
  }

  /** The end of parseACIv3BindRuleGroup. */
  method Assemble(operands: seq<Rule>, operators: seq<Token>) returns (status: Status, rule: Rule)
    requires |operands| == |operators| + 1
    ensures var o := Conclude(operands, operators);
            status == StatusOf(o) && (status.Good? ==> o.rule == rule)
  {
    hide Wrapped, SetParen;
    if |operators| == 0 {
      if operands[0].Nil? {
        return Panicked, Nil;
      }
      return Good, SetParen(operands[0], true);
    }
    var allAnd, allOr := GetAndOrBool(operators);
    if allOr {
      return Good, Or(operands, true, false);
    } else if allAnd {
      var negated := NegateOperands(operands[1..], operators);
      return Good, And([operands[0]] + negated, true, false);
    }
    return Bad, Nil;
  }

  method NegateOperands(operands: seq<Rule>, operators: seq<Token>) returns (out: seq<Rule>)
    requires |operands| == |operators|
    ensures out == Wrapped(operands, operators)
  {
    out := [];
    assert operands[0..] == operands && operators[0..] == operators;
    for i := 0 to |operators|
      invariant Wrapped(operands, operators) == out + Wrapped(operands[i..], operators[i..])
    {
      assert operands[i..][1..] == operands[i + 1..] && operators[i..][1..] == operators[i + 1..];
      var x := if operators[i].NotToken? then Negated(operands[i]) else operands[i];
      ghost var others := Wrapped(operands[i + 1..], operators[i + 1..]);
      assert out + ([x] + others) == out + [x] + others;
      out := out + [x];
    }
    assert out + [] == out;
  }

  method ParseBindRuleTokens(tokens: seq<Token>, read: Reader) returns (status: Status, rule: Rule)
    ensures var o := ParseTokens(read, tokens);
            status == StatusOf(o) && (status.Good? ==> o == Ok(rule, []))
  {
    hide Process;
    var c := new Cursor(tokens, read);
    assert tokens[0..] == tokens;
    status, rule := c.ProcessRule();
    if status.Good? && c.pos != |tokens| {
      return Bad, Nil;
    }
  }

  /** An expression that brings its quotation marks is not quoted again. */
  lemma QuotedOnce(v: bytes)
    ensures Quoted([DQUOTE] + (v + [DQUOTE])) == [DQUOTE] + (v + [DQUOTE])
    ensures DQUOTE !in v ==> Quoted(v) == [DQUOTE] + (v + [DQUOTE])
    ensures v != [] && v[|v| - 1] != DQUOTE ==> Quoted([DQUOTE] + v) == [DQUOTE] + ([DQUOTE] + v + [DQUOTE])
  {
  }
}
