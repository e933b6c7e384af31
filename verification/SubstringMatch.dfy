/** cbm.go: substring matching by greedy leftmost search. */
module SubstringMatch {
  import opened Bytes
  import opened Wrappers
  import opened SubstringText
  import opened AssertionValue
  import Utf8

  datatype MatchError = EmptyValue | BadPattern(error: Error) | NoAny | RepeatedInitial | RepeatedFinal

  // ----- what a match is -----

  /** A gap before every segment. */
  function Interleave(gaps: seq<bytes>, segments: seq<bytes>): bytes
    requires |gaps| == |segments|
  {
    if segments == [] then [] else gaps[0] + segments[0] + Interleave(gaps[1..], segments[1..])
  }

  predicate Fills(gaps: seq<bytes>, value: bytes, anys: seq<bytes>, fin: bytes)
    requires |gaps| == |anys| + 1
  {
    value == Interleave(gaps[..|anys|], anys) + gaps[|anys|] + fin
  }

  /** The value is the initial part, the segments in order with gaps around them, and the final part. */
  ghost predicate Decomposes(value: bytes, init: bytes, anys: seq<bytes>, fin: bytes) {
    init <= value && exists gaps :: |gaps| == |anys| + 1 && Fills(gaps, value[|init|..], anys, fin)
  }

  // ----- the search -----

  /** What is left of `value` after each segment has been found at its leftmost place. */
  function Greedy(value: bytes, anys: seq<bytes>): Option<bytes> {
    if anys == [] then Some(value)
    else if anys[0] == [] then Greedy(value, anys[1..])
    else
      var idx := Index(value, anys[0]);
      if idx < 0 then None else Greedy(value[idx + |anys[0]|..], anys[1..])
  }

  predicate GreedyFits(value: bytes, anys: seq<bytes>, fin: bytes) {
    var rest := Greedy(value, anys);
    rest.Some? && HasSuffix(rest.value, fin)
  }

  /** More text in front never hurts. */
  lemma {:induction false} LongerFits(value: bytes, k: nat, anys: seq<bytes>, fin: bytes)
    requires k <= |value| && GreedyFits(value[k..], anys, fin)
    ensures GreedyFits(value, anys, fin)
    decreases |anys|
  {
    hide Index;
    var tail := value[k..];
    if anys == [] {
      assert value[|value| - |fin|..] == tail[|tail| - |fin|..];
    } else if anys[0] == [] {
      LongerFits(value, k, anys[1..], fin);
    } else {
      var a := anys[0];
      var j := Index(tail, a);
      assert At(tail, j, a);
      assert tail[j..j + |a|] == value[k + j..k + j + |a|];
      assert At(value, k + j, a);
      var i := Index(value, a);
      assert 0 <= i <= k + j;
      assert tail[j + |a|..] == value[i + |a|..][k + j - i..];
      LongerFits(value[i + |a|..], k + j - i, anys[1..], fin);
    }
  }

  /** Whatever fills the gaps, the leftmost search succeeds. */
  lemma {:induction false} GreedyIsComplete(gaps: seq<bytes>, value: bytes, anys: seq<bytes>, fin: bytes)
    requires |gaps| == |anys| + 1 && Fills(gaps, value, anys, fin)
    ensures GreedyFits(value, anys, fin)
    decreases |anys|
  {
    hide Index;
    var n := |anys|;
    if n == 0 {
      assert value == gaps[0] + fin;
      assert value[|value| - |fin|..] == fin;
    } else {
      var a, g := anys[0], gaps[0];
      var rest := Interleave(gaps[1..][..n - 1], anys[1..]) + gaps[1..][n - 1] + fin;
      assert gaps[..n][1..] == gaps[1..][..n - 1];
      assert value == g + a + rest;
      GreedyIsComplete(gaps[1..], rest, anys[1..], fin);
      var k := |g| + |a|;
      assert value[k..] == rest;
      if a == [] {
        LongerFits(value, k, anys[1..], fin);
      } else {
        assert At(value, |g|, a);
        var i := Index(value, a);
        assert 0 <= i <= |g|;
        assert value[i + |a|..][|g| - i..] == rest;
        LongerFits(value[i + |a|..], |g| - i, anys[1..], fin);
      }
    }
  }

  /** The places found by the search leave gaps that fill the value. */
  lemma {:induction false} GreedyIsSound(value: bytes, anys: seq<bytes>, fin: bytes) returns (gaps: seq<bytes>)
    requires GreedyFits(value, anys, fin)
    ensures |gaps| == |anys| + 1 && Fills(gaps, value, anys, fin)
    decreases |anys|
  {
    hide Index;
    var n := |anys|;
    if n == 0 {
      var g := value[..|value| - |fin|];
      gaps := [g];
      assert gaps[..0] == [];
      assert value == g + fin;
    } else {
      var a := anys[0];
      var i := if a == [] then 0 else Index(value, a);
      assert At(value, i, a);
      var rest := value[i + |a|..];
      assert a == [] ==> rest == value;
      var tail := GreedyIsSound(rest, anys[1..], fin);
      gaps := [value[..i]] + tail;
      FillsCons(value[..i], a, tail, rest, anys[1..], fin);
      assert value == value[..i] + a + rest && anys == [a] + anys[1..];
    }
  }

  lemma FillsCons(g: bytes, a: bytes, tail: seq<bytes>, rest: bytes, anys: seq<bytes>, fin: bytes)
    requires |tail| == |anys| + 1 && Fills(tail, rest, anys, fin)
    ensures Fills([g] + tail, g + a + rest, [a] + anys, fin)
  {
    var n := |anys|;
    assert ([g] + tail)[..n + 1] == [g] + tail[..n];
    assert ([g] + tail[..n])[1..] == tail[..n] && ([a] + anys)[1..] == anys;
    assert Interleave([g] + tail[..n], [a] + anys) == g + a + Interleave(tail[..n], anys);
  }

  /** Leftmost search loses no match. */
  lemma GreedyDecides(value: bytes, init: bytes, anys: seq<bytes>, fin: bytes)
    requires init <= value
    ensures Decomposes(value, init, anys, fin) <==> GreedyFits(value[|init|..], anys, fin)
  {
    hide Fills, GreedyFits;
    var v := value[|init|..];
    if GreedyFits(v, anys, fin) {
      var gaps := GreedyIsSound(v, anys, fin);
    }
    if gaps :| |gaps| == |anys| + 1 && Fills(gaps, v, anys, fin) {
      GreedyIsComplete(gaps, v, anys, fin);
    }
  }

  // ----- substringsMatch -----

  function LowerAll(vs: seq<bytes>): (r: seq<bytes>)
    ensures |r| == |vs|
    ensures forall k :: 0 <= k < |vs| ==> r[k] == Lower(vs[k])
  {
    seq(|vs|, k requires 0 <= k < |vs| => Lower(vs[k]))
  }

  /** caseHandler. */
  method Folded(v: bytes, ignoreCase: bool) returns (r: bytes)
    ensures r == if ignoreCase then Lower(v) else v
  {
    if ignoreCase {
      r := Lc(v);
    } else {
      r := v;
    }
  }

  method FoldedAll(vs: seq<bytes>, ignoreCase: bool) returns (r: seq<bytes>)
    ensures r == if ignoreCase then LowerAll(vs) else vs
  {
    r := [];
    for i := 0 to |vs|
      invariant r == if ignoreCase then LowerAll(vs[..i]) else vs[..i]
    {
      var x := Folded(vs[i], ignoreCase);
      assert LowerAll(vs[..i + 1]) == LowerAll(vs[..i]) + [Lower(vs[i])];
      r := r + [x];
    }
    assert vs[..|vs|] == vs;
  }

  /** The matching part of substringsMatch: the value is shortened as its parts are found. */
  method MatchParts(whole: bytes, init: bytes, anys: seq<bytes>, fin: bytes) returns (result: bool)
    ensures result <==> Decomposes(whole, init, anys, fin)
  {
    hide Decomposes;
    var value := whole;
    if |init| > 0 {
      var found := HasPfx(value, init);
      if !found {
        NoPrefix(whole, init, anys, fin);
        return false;
      }
      value := value[|init|..];
    }
    GreedyDecides(whole, init, anys, fin);
    assert value == whole[|init|..];
    for k := 0 to |anys|
      invariant Greedy(whole[|init|..], anys) == Greedy(value, anys[k..])
    {
      var seg := anys[k];
      assert anys[k..][1..] == anys[k + 1..];
      if |seg| == 0 {
        continue;
      }
      var idx := BytesIndex(value, seg);
      if idx < 0 {
        return false;
      }
      value := value[idx + |seg|..];
    }
    assert anys[|anys|..] == [];
    if |fin| > 0 {
      result := HasSfx(value, fin);
      return;
    }
    return true;
  }

  lemma NoPrefix(value: bytes, init: bytes, anys: seq<bytes>, fin: bytes)
    requires !(init <= value)
    ensures !Decomposes(value, init, anys, fin)
  {
  }

  /** All any segments, in order of appearance. */
  function AllAny(subs: Substrings): seq<bytes> {
    if subs == [] then []
    else AllAny(subs[..|subs| - 1]) + if subs[|subs| - 1].Any? then subs[|subs| - 1].values else []
  }

  function Count(subs: Substrings, initial: bool): nat {
    if subs == [] then 0
    else
      var s := subs[|subs| - 1];
      Count(subs[..|subs| - 1], initial) + if (if initial then s.Initial? else s.Final?) then 1 else 0
  }

  /** substringsSplit: at least one any segment, at most one initial and one final. */
  method SubstringsSplit(subs: Substrings, ignoreCase: bool)
    returns (init: bytes, fin: bytes, anys: seq<bytes>, err: Option<MatchError>)
    ensures init == if ignoreCase then Lower(InitialOf(subs)) else InitialOf(subs)
    ensures fin == if ignoreCase then Lower(FinalOf(subs)) else FinalOf(subs)
    ensures anys == if ignoreCase then LowerAll(AllAny(subs)) else AllAny(subs)
    ensures err == if AllAny(subs) == [] then Some(NoAny)
                   else if Count(subs, true) > 1 then Some(RepeatedInitial)
                   else if Count(subs, false) > 1 then Some(RepeatedFinal)
                   else None
  {
    hide Lower, LowerAll;
    var inits, fins := 0, 0;
    init, fin, anys := [], [], [];
    assert Lower([]) == [] && LowerAll([]) == [];
    for k := 0 to |subs|
      invariant init == if ignoreCase then Lower(InitialOf(subs[..k])) else InitialOf(subs[..k])
      invariant fin == if ignoreCase then Lower(FinalOf(subs[..k])) else FinalOf(subs[..k])
      invariant anys == if ignoreCase then LowerAll(AllAny(subs[..k])) else AllAny(subs[..k])
      invariant inits == Count(subs[..k], true) && fins == Count(subs[..k], false)
    {
      assert subs[..k + 1][..k] == subs[..k];
      match subs[k] {
        case Initial(v) =>
          init := Folded(v, ignoreCase);
          inits := inits + 1;
        case Final(v) =>
          fin := Folded(v, ignoreCase);
          fins := fins + 1;
        case Any(vs) =>
          var more := FoldedAll(vs, ignoreCase);
          LowerAllConcat(AllAny(subs[..k]), vs);
          anys := anys + more;
      }
    }
    assert subs[..|subs|] == subs;
    err := None;
    if |anys| == 0 {
      err := Some(NoAny);
    } else if inits > 1 {
      err := Some(RepeatedInitial);
    } else if fins > 1 {
      err := Some(RepeatedFinal);
    }
  }

  lemma LowerAllConcat(a: seq<bytes>, b: seq<bytes>)
    ensures LowerAll(a + b) == LowerAll(a) + LowerAll(b)
  {
  }

  lemma BuiltCounts(init: bytes, fin: bytes, anys: seq<bytes>)
    ensures var subs := Build(init, fin, anys);
            AllAny(subs) == anys && Count(subs, true) <= 1 && Count(subs, false) <= 1
  {
    hide AllAny, Count;
    var none: Substrings := [];
    NothingCounted();
    CountSnoc(none, Initial(init));
    assert none + [Initial(init)] == [Initial(init)];
    var first: Substrings := if init != [] then [Initial(init)] else [];
    CountSnoc(first, Any(anys));
    CountSnoc(first + [Any(anys)], Final(fin));
    assert first + [Any(anys)] + [] == first + [Any(anys)];
    assert [] + anys == anys && anys + [] == anys;
  }

  lemma NothingCounted()
    ensures AllAny([]) == [] && Count([], true) == 0 && Count([], false) == 0
  {
  }

  lemma CountSnoc(subs: Substrings, s: Substring)
    ensures AllAny(subs + [s]) == AllAny(subs) + if s.Any? then s.values else []
    ensures Count(subs + [s], true) == Count(subs, true) + if s.Initial? then 1 else 0
    ensures Count(subs + [s], false) == Count(subs, false) + if s.Final? then 1 else 0
  {
    assert (subs + [s])[..|subs|] == subs;
  }

  /**
    A pattern of text against a value.  A pattern without inner segment is an error even though it has an
    asterisk; otherwise the answer is whether the value decomposes, with all sides in lower case if case is ignored.
   */
  ghost function Answer(actual: bytes, pattern: bytes, ignoreCase: bool): Result<bool, MatchError> {
    var subs := Parse(pattern);
    if actual == [] then Failure(EmptyValue)
    else if subs.Failure? then Failure(BadPattern(subs.error))
    else
      var init, anys, fin := InitialOf(subs.value), AnyOf(subs.value), FinalOf(subs.value);
      if anys == [] then Failure(NoAny)
      else if ignoreCase then Success(Decomposes(Lower(actual), Lower(init), LowerAll(anys), Lower(fin)))
      else Success(Decomposes(actual, init, anys, fin))
  }

  method SubstringsMatch(actual: bytes, pattern: bytes, ignoreCase: bool) returns (r: Result<bool, MatchError>)
    ensures r == Answer(actual, pattern, ignoreCase)
  {
    hide Decomposes, InitialOf, FinalOf, AnyOf, AllAny, Count, Outcome;
    if |actual| == 0 {
      return Failure(EmptyValue);
    }
    var subs := MarshalSubstrings(pattern);
    if subs.Failure? {
      return Failure(BadPattern(subs.error));
    }
    ParsedAny(pattern);
    var value := Folded(actual, ignoreCase);
    var init, fin, anys, err := SubstringsSplit(subs.value, ignoreCase);
    if err.Some? {
      return Failure(err.value);
    }
    var found := MatchParts(value, init, anys, fin);
    return Success(found);
  }

  /** Text never yields two components of a kind. */
  lemma ParsedAny(pattern: bytes)
    requires Parse(pattern).Success?
    ensures var subs := Parse(pattern).value;
            AllAny(subs) == AnyOf(subs) && Count(subs, true) <= 1 && Count(subs, false) <= 1
  {
    hide AllAny, Count, InitialOf, FinalOf, AnyOf, Outcome, Build;
    var t := Utf8.TrimSpace(pattern);
    AcceptedParts(t);
    var ps := Pieces(t);
    BuiltCounts(ps[0], ps[|ps| - 1], ps[1..|ps| - 1]);
    BuiltParts(ps[0], ps[|ps| - 1], ps[1..|ps| - 1]);
  }

  lemma {:induction false} PiecesCountStars(s: bytes)
    ensures |Pieces(s)| == multiset(s)[STAR] + 1
    decreases |s|
  {
    if s != [] {
      PiecesCountStars(s[..|s| - 1]);
      assert s == s[..|s| - 1] + [s[|s| - 1]];
    }
  }

  /** The accepted patterns the matcher refuses are exactly those with a single asterisk. */
  lemma RefusedPatterns(pattern: bytes)
    requires Parse(pattern).Success?
    ensures AnyOf(Parse(pattern).value) == [] <==> multiset(Utf8.TrimSpace(pattern))[STAR] == 1
  {
    hide AnyOf, Outcome, Build;
    var t := Utf8.TrimSpace(pattern);
    var ps := Pieces(t);
    AcceptedParts(t);
    BuiltParts(ps[0], ps[|ps| - 1], ps[1..|ps| - 1]);
    PiecesCountStars(t);
  }

  /** The asterisk pattern "a*b" of section 3.3.30 of RFC 4517 parses but is refused by the matcher. */
  lemma InitialFinalPatternIsRefused()
    ensures var p := [97, STAR, 98]; Parse(p).Success? && AnyOf(Parse(p).value) == []
  {
    var p: bytes := [97, STAR, 98];
    Utf8.TrimKeeps(p);
    PiecesOfPlain([97]);
    PiecesAfterStar([97], [98]);
    assert [97] + [STAR] + [98] == p;
    assert Pieces(p) == [[97], [98]];
    LetterIsSegment(97);
    LetterIsSegment(98);
    BuiltParts([97], [98], []);
    assert Pieces(p)[1..1] == [];
  }

  lemma LetterIsSegment(c: byte)
    requires IsAlpha(c)
    ensures IsSegment([c])
  {
    assert [c][1..] == [];
  }

  // ----- case -----

  lemma {:induction false} PiecesOfLower(s: bytes)
    ensures Pieces(Lower(s)) == LowerAll(Pieces(s))
    decreases |s|
  {
    if s == [] {
      assert Lower(s) == s && LowerAll([[]]) == [[]];
    } else {
      var n := |s| - 1;
      var s', c := s[..n], s[n];
      var ps := Pieces(s');
      PiecesOfLower(s');
      LowerConcat(s', [c]);
      assert s == s' + [c] && Lower([c]) == [LowerByte(c)];
      hide Pieces, Lower, LowerAll;
      PiecesSnoc(s', c);
      PiecesSnoc(Lower(s'), LowerByte(c));
      LowerGrown(ps, c);
    }
  }

  lemma LowerGrown(ps: seq<bytes>, c: byte)
    requires ps != []
    ensures LowerAll(ps + [[]]) == LowerAll(ps) + [[]]
    ensures LowerAll(ps[..|ps| - 1] + [ps[|ps| - 1] + [c]])
         == LowerAll(ps)[..|ps| - 1] + [LowerAll(ps)[|ps| - 1] + [LowerByte(c)]]
    ensures LowerByte(c) == STAR <==> c == STAR
  {
    LowerConcat(ps[|ps| - 1], [c]);
    assert Lower([c]) == [LowerByte(c)];
    assert Lower([]) == [];
  }

  lemma {:induction false} SegmentRestOfLower(s: bytes)
    ensures SegmentRest(Lower(s)) <==> SegmentRest(s)
    decreases |s|
  {
    hide Utf8.Proper;
    if s != [] {
      LowerSlice(s, 1, |s|);
      assert Lower(s)[1..] == Lower(s[1..]);
      SegmentRestOfLower(s[1..]);
      Utf8.LowerKeepsRunes(s);
      if |s| >= 3 {
        LowerSlice(s, 3, |s|);
        assert Lower(s)[3..] == Lower(s[3..]);
        SegmentRestOfLower(s[3..]);
      }
    }
  }

  /** The pieces are accepted or refused alike, for the same reason, and lower-cased. */
  lemma OutcomeOfLower(t: bytes)
    ensures Outcome(t).Failure? ==> Outcome(Lower(t)) == Outcome(t)
    ensures Outcome(t).Success? ==>
              var ps := Pieces(t);
              var n := |ps| - 1;
              n > 0 && Outcome(t).value == Build(ps[0], ps[n], ps[1..n]) &&
              Outcome(Lower(t)) == Success(Build(Lower(ps[0]), Lower(ps[n]), LowerAll(ps[1..n])))
  {
    hide Pieces, SegmentRest, Build;
    var ps := Pieces(t);
    PiecesOfLower(t);
    forall k | 0 <= k < |ps| ensures IsSegment(LowerAll(ps)[k]) <==> IsSegment(ps[k]) {
      SegmentRestOfLower(ps[k]);
    }
    hide IsSegment;
    if |ps| > 1 {
      assert LowerAll(ps)[1..|ps| - 1] == LowerAll(ps[1..|ps| - 1]);
    }
    assert InteriorEmpty(LowerAll(ps)) <==> InteriorEmpty(ps);
    assert forall k :: 0 <= k < |ps| ==> (LowerAll(ps)[k] == [] <==> ps[k] == []);
  }

  /** Ignoring case, a lower-cased pattern answers as the pattern does. */
  lemma LowerPattern(actual: bytes, pattern: bytes)
    ensures Answer(actual, Lower(pattern), true) == Answer(actual, pattern, true)
  {
    hide Decomposes, Outcome, Pieces, Build, InitialOf, FinalOf, AnyOf;
    var t := Utf8.TrimSpace(pattern);
    Utf8.LowerTrimSpace(pattern);
    OutcomeOfLower(t);
    if Outcome(t).Success? {
      var ps := Pieces(t);
      var n := |ps| - 1;
      BuiltParts(ps[0], ps[n], ps[1..n]);
      BuiltParts(Lower(ps[0]), Lower(ps[n]), LowerAll(ps[1..n]));
      LowerTwice(ps[0]);
      LowerTwice(ps[n]);
      forall k | 0 <= k < n - 1 ensures Lower(Lower(ps[1..n][k])) == Lower(ps[1..n][k]) {
        LowerTwice(ps[1..n][k]);
      }
      assert LowerAll(LowerAll(ps[1..n])) == LowerAll(ps[1..n]);
    }
  }

  /** Ignoring case, values and patterns that agree up to ASCII case get the same answer, errors included. */
  lemma CaseIsIgnored(a: bytes, b: bytes, p: bytes, q: bytes)
    requires Lower(a) == Lower(b) && Lower(p) == Lower(q)
    ensures Answer(a, p, true) == Answer(b, q, true)
  {
    LowerPattern(a, p);
    LowerPattern(a, q);
    hide Decomposes, Parse, InitialOf, FinalOf, AnyOf;
    assert |a| == |b|;
  }

  /** "Jesse" matches `*ESS*` if case is ignored, and only then. */
  lemma CaseMatters()
    ensures var value, pattern := [74, 101, 115, 115, 101], [STAR, 69, 83, 83, STAR];
            && Answer(value, pattern, true) == Success(true)
            && Answer(value, pattern, false) == Success(false)
  {
    hide *;
    PatternIsParsed();
    MatchesLowered();
    MatchesNowhere();
    AnswerOf([74, 101, 115, 115, 101], [STAR, 69, 83, 83, STAR], [69, 83, 83]);
  }

  /** A parsed pattern with nothing but one inner segment. */
  lemma AnswerOf(actual: bytes, pattern: bytes, segment: bytes)
    requires actual != [] && Parse(pattern) == Success(Build([], [], [segment]))
    ensures Answer(actual, pattern, true) == Success(Decomposes(Lower(actual), [], [Lower(segment)], []))
    ensures Answer(actual, pattern, false) == Success(Decomposes(actual, [], [segment], []))
  {
    hide Decomposes, Parse, Build, InitialOf, FinalOf, AnyOf;
    BuiltParts([], [], [segment]);
    assert LowerAll([segment]) == [Lower(segment)];
    assert Lower([]) == [];
  }

  lemma PatternIsParsed()
    ensures Parse([STAR, 69, 83, 83, STAR]) == Success(Build([], [], [[69, 83, 83]]))
  {
    var none: bytes := [];
    var ps: seq<bytes> := [none, [69, 83, 83], none];
    var p: bytes := [STAR, 69, 83, 83, STAR];
    Utf8.TrimKeeps(p);
    PiecesOfJoin(ps);
    var two: seq<bytes> := [[69, 83, 83], none];
    assert ps[1..] == two && two[1..] == [none];
    JoinCons(ps, STAR);
    JoinCons(two, STAR);
    JoinCons([none], STAR);
    assert none + [STAR] + ([69, 83, 83] + [STAR] + none) == p;
    hide Pieces, Build;
    SegmentOfLetters();
    assert ps[1..2] == [[69, 83, 83]];
  }

  lemma SegmentOfLetters()
    ensures IsSegment([69, 83, 83])
  {
    assert [69, 83, 83][1..] == [83, 83] && [83, 83][1..] == [83] && [83][1..] == [];
  }

  lemma MatchesLowered()
    ensures Decomposes(Lower([74, 101, 115, 115, 101]), [], [Lower([69, 83, 83])], [])
  {
    var v, a: bytes := [106, 101, 115, 115, 101], [101, 115, 115];
    assert Lower([74, 101, 115, 115, 101]) == v && Lower([69, 83, 83]) == a;
    var gaps: seq<bytes> := [[106], [101]];
    assert gaps[..1] == [[106]] && [[106]][1..] == [] && [a][1..] == [] && v[0..] == v;
    assert Interleave([[106]], [a]) == [106] + a + Interleave([], []);
    assert Fills(gaps, v, [a], []);
  }

  lemma MatchesNowhere()
    ensures !Decomposes([74, 101, 115, 115, 101], [], [[69, 83, 83]], [])
  {
    var v, a: bytes := [74, 101, 115, 115, 101], [69, 83, 83];
    GreedyDecides(v, [], [a], []);
    assert v[0..] == v;
    forall j | 0 <= j ensures !At(v, j, a) {
      if j + 3 <= |v| {
        assert v[j..j + 3][0] == v[j];
      }
    }
    assert Index(v, a) == -1;
  }
}
