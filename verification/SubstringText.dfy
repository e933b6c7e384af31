/** substr.go: the text form of substring assertions (section 3.3.30 of RFC 4517). */
module SubstringText {
  import opened Bytes
  import opened Wrappers
  import opened AssertionValue
  import Utf8

  datatype Substring = Initial(value: bytes) | Any(values: seq<bytes>) | Final(value: bytes)

  type Substrings = seq<Substring>

  datatype Error = MinAsterisk | ConsecutiveAsterisks | BadSegment

  // ----- Substrings.String -----

  /** Later components of a kind replace earlier ones. */
  function InitialOf(subs: Substrings): bytes {
    if subs == [] then []
    else if subs[|subs| - 1].Initial? then subs[|subs| - 1].value else InitialOf(subs[..|subs| - 1])
  }

  function FinalOf(subs: Substrings): bytes {
    if subs == [] then []
    else if subs[|subs| - 1].Final? then subs[|subs| - 1].value else FinalOf(subs[..|subs| - 1])
  }

  function AnyOf(subs: Substrings): seq<bytes> {
    if subs == [] then []
    else if subs[|subs| - 1].Any? then subs[|subs| - 1].values else AnyOf(subs[..|subs| - 1])
  }

  /** An asterisk, and one more after every segment. */
  function Stars(anys: seq<bytes>): bytes {
    if anys == [] then [STAR] else Stars(anys[..|anys| - 1]) + Escape(anys[|anys| - 1]) + [STAR]
  }

  function PrintParts(init: bytes, anys: seq<bytes>, fin: bytes): bytes {
    if init == [] && fin == [] && anys == [] then [] else Escape(init) + Stars(anys) + Escape(fin)
  }

  function Print(subs: Substrings): bytes { PrintParts(InitialOf(subs), AnyOf(subs), FinalOf(subs)) }

  method SubstringsString(subs: Substrings) returns (b: bytes)
    ensures b == Print(subs)
  {
    hide Escape;
    var init: bytes, fin: bytes, anys: seq<bytes> := [], [], [];
    for i := 0 to |subs|
      invariant init == InitialOf(subs[..i]) && fin == FinalOf(subs[..i]) && anys == AnyOf(subs[..i])
    {
      assert subs[..i + 1][..i] == subs[..i];
      match subs[i]
      case Initial(v) => init := v;
      case Final(v) => fin := v;
      case Any(vs) => anys := vs;
    }
    assert subs[..|subs|] == subs;
    if |init| == 0 && |fin| == 0 && |anys| == 0 {
      return [];
    }
    EscapeStep([]);
    b := [];
    if |init| > 0 {
      b := b + Escape(init);
    }
    ghost var front := b;
    b := b + [STAR];
    for i := 0 to |anys|
      invariant b == front + Stars(anys[..i])
    {
      assert anys[..i + 1][..i] == anys[..i];
      b := b + Escape(anys[i]);
      b := b + [STAR];
    }
    assert anys[..|anys|] == anys;
    if |fin| > 0 {
      b := b + Escape(fin);
    }
  }

  // ----- the pieces between asterisks -----

  function Pieces(s: bytes): (ps: seq<bytes>)
    ensures ps != []
  {
    if s == [] then [[]]
    else
      var ps, c := Pieces(s[..|s| - 1]), s[|s| - 1];
      if c == STAR then ps + [[]] else ps[..|ps| - 1] + [ps[|ps| - 1] + [c]]
  }

  lemma PiecesSnoc(s: bytes, c: byte)
    ensures var ps := Pieces(s);
            Pieces(s + [c]) == if c == STAR then ps + [[]] else ps[..|ps| - 1] + [ps[|ps| - 1] + [c]]
  {
    assert (s + [c])[..|s|] == s;
  }

  /** Some piece other than the first and the last is empty. */
  predicate InteriorEmpty(ps: seq<bytes>) { exists k :: 0 < k < |ps| - 1 && ps[k] == [] }

  predicate HasDoubleStar(s: bytes) { exists k :: 0 < k < |s| && s[k - 1] == s[k] == STAR }

  lemma {:induction false} PiecesShape(s: bytes)
    ensures var ps := Pieces(s);
            && (|ps| > 1 <==> STAR in s)
            && (ps[|ps| - 1] == [] <==> s == [] || s[|s| - 1] == STAR)
            && (ps[0] == [] <==> s == [] || s[0] == STAR)
            && (InteriorEmpty(ps) <==> HasDoubleStar(s))
            && forall k :: 0 <= k < |ps| ==> STAR !in ps[k]
    decreases |s|
  {
    if s != [] {
      var n := |s| - 1;
      var s', c := s[..n], s[n];
      var ps := Pieces(s');
      PiecesShape(s');
      PiecesSnoc(s', c);
      assert s == s' + [c];
      DoubleStarSnoc(s', c);
      InteriorSnoc(ps, c);
      hide Pieces, HasDoubleStar, InteriorEmpty;
    } else {
      assert Pieces([]) == [[]];
    }
  }

  lemma DoubleStarSnoc(s: bytes, c: byte)
    ensures HasDoubleStar(s + [c]) <==> HasDoubleStar(s) || (s != [] && s[|s| - 1] == STAR && c == STAR)
  {
    var t := s + [c];
    if HasDoubleStar(s) {
      var k :| 0 < k < |s| && s[k - 1] == s[k] == STAR;
      assert t[k - 1] == t[k] == STAR;
    }
    if s != [] && s[|s| - 1] == STAR && c == STAR {
      assert t[|s| - 1] == t[|s|] == STAR;
    }
  }

  lemma InteriorSnoc(ps: seq<bytes>, c: byte)
    requires ps != []
    ensures InteriorEmpty(ps + [[]]) <==> InteriorEmpty(ps) || (|ps| > 1 && ps[|ps| - 1] == [])
    ensures InteriorEmpty(ps[..|ps| - 1] + [ps[|ps| - 1] + [c]]) <==> InteriorEmpty(ps)
  {
    var n := |ps| - 1;
    var q, r := ps + [[]], ps[..n] + [ps[n] + [c]];
    if InteriorEmpty(ps) {
      var k :| 0 < k < n && ps[k] == [];
      assert q[k] == [] && r[k] == [];
    }
    if n > 0 && ps[n] == [] {
      assert q[n] == [];
    }
    if InteriorEmpty(q) {
      var k :| 0 < k < |q| - 1 && q[k] == [];
      assert ps[k] == [];
    }
    if InteriorEmpty(r) {
      var k :| 0 < k < |r| - 1 && r[k] == [];
      assert ps[k] == [];
    }
  }

  lemma {:induction false} JoinSnoc(ps: seq<bytes>, x: bytes)
    requires ps != []
    ensures Join(ps + [x], STAR) == Join(ps, STAR) + [STAR] + x
    decreases |ps|
  {
    hide Join;
    JoinCons(ps, STAR);
    JoinCons(ps + [x], STAR);
    assert (ps + [x])[1..] == ps[1..] + [x];
    if |ps| == 1 {
      assert ps[1..] + [x] == [x];
      JoinCons([x], STAR);
    } else {
      JoinSnoc(ps[1..], x);
      assert ps[0] + [STAR] + (Join(ps[1..], STAR) + [STAR] + x) == ps[0] + [STAR] + Join(ps[1..], STAR) + [STAR] + x;
    }
  }

  lemma JoinLonger(ps: seq<bytes>, x: bytes, c: byte)
    ensures Join(ps + [x + [c]], STAR) == Join(ps + [x], STAR) + [c]
  {
    hide Join;
    if ps == [] {
      assert [] + [x] == [x] && [] + [x + [c]] == [x + [c]];
      JoinCons([x], STAR);
      JoinCons([x + [c]], STAR);
    } else {
      JoinSnoc(ps, x);
      JoinSnoc(ps, x + [c]);
      assert Join(ps, STAR) + [STAR] + (x + [c]) == Join(ps, STAR) + [STAR] + x + [c];
    }
  }

  /** Splitting loses nothing. */
  lemma {:induction false} JoinPieces(s: bytes)
    ensures Join(Pieces(s), STAR) == s
    decreases |s|
  {
    hide Join;
    if s == [] {
      JoinCons([[]], STAR);
      assert Pieces([]) == [[]];
    } else {
      var s', c := s[..|s| - 1], s[|s| - 1];
      var ps := Pieces(s');
      JoinPieces(s');
      assert s == s' + [c];
      if c == STAR {
        JoinSnoc(ps, []);
        assert s' + [STAR] + [] == s;
      } else {
        assert ps[..|ps| - 1] + [ps[|ps| - 1]] == ps;
        JoinLonger(ps[..|ps| - 1], ps[|ps| - 1], c);
      }
    }
  }

  lemma {:induction false} PiecesAfterStar(a: bytes, x: bytes)
    requires STAR !in x
    ensures Pieces(a + [STAR] + x) == Pieces(a) + [x]
    decreases |x|
  {
    if x == [] {
      assert a + [STAR] + [] == a + [STAR];
      PiecesSnoc(a, STAR);
    } else {
      var x', c := x[..|x| - 1], x[|x| - 1];
      PiecesAfterStar(a, x');
      assert a + [STAR] + x == (a + [STAR] + x') + [c];
      PiecesSnoc(a + [STAR] + x', c);
      hide Pieces;
      assert x == x' + [c];
    }
  }

  lemma {:induction false} PiecesOfPlain(x: bytes)
    requires STAR !in x
    ensures Pieces(x) == [x]
    decreases |x|
  {
    if x != [] {
      PiecesOfPlain(x[..|x| - 1]);
      assert x == x[..|x| - 1] + [x[|x| - 1]];
    }
  }

  /** Star-free pieces are recovered from their join. */
  lemma {:induction false} PiecesOfJoin(ps: seq<bytes>)
    requires ps != [] && forall k :: 0 <= k < |ps| ==> STAR !in ps[k]
    ensures Pieces(Join(ps, STAR)) == ps
    decreases |ps|
  {
    hide Join, Pieces;
    var n := |ps| - 1;
    if n == 0 {
      JoinCons(ps, STAR);
      PiecesOfPlain(ps[0]);
      assert ps == [ps[0]];
    } else {
      PiecesOfJoin(ps[..n]);
      assert ps == ps[..n] + [ps[n]];
      JoinSnoc(ps[..n], ps[n]);
      PiecesAfterStar(Join(ps[..n], STAR), ps[n]);
    }
  }

  // ----- marshalSubstrings -----

  /** buildSubstrings. */
  function Build(init: bytes, fin: bytes, anys: seq<bytes>): Substrings {
    (if init != [] then [Initial(init)] else []) + [Any(anys)] + (if fin != [] then [Final(fin)] else [])
  }

  /** What a trimmed text means: the first piece is initial, the last final, the others any. */
  function Outcome(t: bytes): Result<Substrings, Error> {
    var ps := Pieces(t);
    var n := |ps| - 1;
    if t == [] then Failure(MinAsterisk)
    else if InteriorEmpty(ps) then Failure(ConsecutiveAsterisks)
    else if n == 0 then Failure(MinAsterisk)
    else if exists k :: 0 <= k <= n && ps[k] != [] && !IsSegment(ps[k]) then Failure(BadSegment)
    else if n == 1 && ps[0] == [] && ps[1] == [] then Failure(MinAsterisk)
    else Success(Build(ps[0], ps[n], ps[1..n]))
  }

  function Parse(x: bytes): Result<Substrings, Error> { Outcome(Utf8.TrimSpace(x)) }

  function NonEmpty(ps: seq<bytes>): seq<bytes> {
    if ps == [] then []
    else NonEmpty(ps[..|ps| - 1]) + if ps[|ps| - 1] == [] then [] else [ps[|ps| - 1]]
  }

  lemma NonEmptySnoc(ps: seq<bytes>, x: bytes)
    ensures NonEmpty(ps + [x]) == NonEmpty(ps) + if x == [] then [] else [x]
  {
    assert (ps + [x])[..|ps|] == ps;
  }

  predicate AllSegments(ps: seq<bytes>) { forall k :: 0 <= k < |ps| && ps[k] != [] ==> IsSegment(ps[k]) }

  method MarshalSubstrings(z: bytes) returns (r: Result<Substrings, Error>)
    ensures r == Parse(z)
  {
    hide Outcome, Pieces, NonEmpty, AllSegments, HasDoubleStar, Tokens;
    var x := Utf8.TrimSpace(z);
    OutcomeByLoops(x);
    if |x| == 0 {
      return Failure(MinAsterisk);
    }
    var f := x[0] == STAR;
    var l := x[|x| - 1] == STAR;
    var single, hasStar := CheckStars(x);
    if !single {
      return Failure(ConsecutiveAsterisks);
    }
    if !hasStar {
      return Failure(MinAsterisk);
    }
    var ok, parts := CollectParts(x);
    if !ok {
      return Failure(BadSegment);
    }
    if |parts| == 0 {
      return Failure(MinAsterisk);
    }
    var subs := GetSubstringTokens(parts, f, l);
    return Success(subs);
  }

  /** What the two loops and the four cases compute is the meaning of the pieces. */
  lemma OutcomeByLoops(t: bytes)
    ensures Outcome(t) ==
              if t == [] then Failure(MinAsterisk)
              else if HasDoubleStar(t) then Failure(ConsecutiveAsterisks)
              else if STAR !in t then Failure(MinAsterisk)
              else if !AllSegments(Pieces(t)) then Failure(BadSegment)
              else if NonEmpty(Pieces(t)) == [] then Failure(MinAsterisk)
              else Success(Tokens(NonEmpty(Pieces(t)), t[0] == STAR, t[|t| - 1] == STAR))
  {
    hide Pieces, IsSegment, InteriorEmpty, HasDoubleStar, NonEmpty, Tokens;
    PiecesShape(t);
    var ps := Pieces(t);
    var n := |ps| - 1;
    if t != [] && !InteriorEmpty(ps) && n > 0 {
      assert AllSegments(ps) <==> !exists k :: 0 <= k <= n && ps[k] != [] && !IsSegment(ps[k]);
      if NonEmpty(ps) == [] {
        NothingButStars(ps);
      } else {
        PartsOfPieces(ps);
        SomePart(ps);
      }
    }
  }

  lemma SomePart(ps: seq<bytes>)
    requires |ps| > 1 && !InteriorEmpty(ps) && NonEmpty(ps) != []
    ensures !(|ps| == 2 && ps[0] == [] && ps[1] == [])
  {
    PartsSplit(ps);
  }

  /** The first loop: no two asterisks in a row, and at least one. */
  method CheckStars(x: bytes) returns (single: bool, hasStar: bool)
    ensures single <==> !HasDoubleStar(x)
    ensures single ==> (hasStar <==> STAR in x)
  {
    single, hasStar := true, false;
    var prevStar := false;
    for i := 0 to |x|
      invariant single && !HasDoubleStar(x[..i])
      invariant hasStar <==> STAR in x[..i]
      invariant prevStar <==> i > 0 && x[i - 1] == STAR
    {
      assert x[..i + 1] == x[..i] + [x[i]];
      DoubleStarSnoc(x[..i], x[i]);
      if x[i] == STAR {
        if prevStar {
          assert x[i - 1] == x[i] == STAR;
          return false, hasStar;
        }
        hasStar := true;
        prevStar := true;
      } else {
        prevStar := false;
      }
    }
    assert x[..|x|] == x;
  }

  /** Pieces that an asterisk has closed never change again. */
  lemma {:induction false} ClosedPiecesStay(x: bytes, i: nat)
    requires i <= |x|
    ensures var ps := Pieces(x[..i]); ps[..|ps| - 1] <= Pieces(x)
    decreases |x| - i
  {
    hide Pieces;
    if i == |x| {
      assert x[..i] == x;
    } else {
      assert x[..i + 1] == x[..i] + [x[i]];
      PiecesSnoc(x[..i], x[i]);
      ClosedPiecesStay(x, i + 1);
    }
  }

  /** The second loop: the checked non-empty pieces. */
  method CollectParts(x: bytes) returns (ok: bool, parts: seq<bytes>)
    ensures ok <==> AllSegments(Pieces(x))
    ensures ok ==> parts == NonEmpty(Pieces(x))
  {
    hide IsSegment, Pieces, NonEmpty;
    parts := [];
    var start := 0;
    ghost var done: seq<bytes> := [];
    PiecesOfPlain([]);
    NonEmptyNothing();
    for i := 0 to |x|
      invariant 0 <= start <= i
      invariant Pieces(x[..i]) == done + [x[start..i]]
      invariant AllSegments(done) && parts == NonEmpty(done)
    {
      assert x[..i + 1] == x[..i] + [x[i]];
      PiecesSnoc(x[..i], x[i]);
      var seg := x[start..i];
      if x[i] == STAR {
        ClosedPiecesStay(x, i + 1);
        assert Pieces(x)[|done|] == seg by {
          assert Pieces(x[..i + 1])[|done|] == seg;
        }
        NonEmptySnoc(done, seg);
        if start < i {
          var good := AssertionValueBytes(seg);
          if !good {
            return false, [];
          }
          parts := parts + [seg];
        }
        done := done + [seg];
        start := i + 1;
        assert x[start..i + 1] == [];
      } else {
        assert x[start..i + 1] == seg + [x[i]];
      }
    }
    assert x[..|x|] == x;
    var seg := x[start..];
    NonEmptySnoc(done, seg);
    assert Pieces(x)[|done|] == seg;
    if start < |x| {
      var good := AssertionValueBytes(seg);
      if !good {
        return false, [];
      }
      parts := parts + [seg];
    }
    return true, parts;
  }

  lemma NonEmptyNothing()
    ensures NonEmpty([]) == []
  {
  }

  /** getSubstringTokens: the four combinations of leading and trailing asterisk. */
  function Tokens(parts: seq<bytes>, f: bool, l: bool): Substrings
    requires parts != []
  {
    var n := |parts|;
    if !f && !l then
      Build(parts[0], if n > 1 then parts[n - 1] else [], if n > 2 then parts[1..n - 1] else [])
    else if !f && l then Build(parts[0], [], parts[1..])
    else if f && !l then Build([], parts[n - 1], parts[..n - 1])
    else Build([], [], parts)
  }

  method GetSubstringTokens(parts: seq<bytes>, f: bool, l: bool) returns (subs: Substrings)
    requires parts != []
    ensures subs == Tokens(parts, f, l)
  {
    var initVal: bytes, finalVal: bytes, anyVals: seq<bytes> := [], [], [];
    var n := |parts|;
    if !f && !l {
      initVal := parts[0];
      if n > 1 {
        finalVal := parts[n - 1];
      }
      if n > 2 {
        anyVals := CopyRange(parts, 1, n - 1);
      }
    } else if !f && l {
      initVal := parts[0];
      if n > 1 {
        anyVals := CopyRange(parts, 1, n);
      }
    } else if f && !l {
      if n > 1 {
        finalVal := parts[n - 1];
        anyVals := CopyRange(parts, 0, n - 1);
      } else {
        finalVal := parts[0];
      }
    } else {
      anyVals := CopyRange(parts, 0, n);
    }
    assert parts[0..n] == parts && parts[1..n] == parts[1..] && parts[0..n - 1] == parts[..n - 1];
    assert n == 1 ==> parts[1..] == [] && parts[..n - 1] == [];
    return Build(initVal, finalVal, anyVals);
  }

  method CopyRange(parts: seq<bytes>, lo: nat, hi: nat) returns (vals: seq<bytes>)
    requires lo <= hi <= |parts|
    ensures vals == parts[lo..hi]
  {
    vals := [];
    for i := lo to hi
      invariant vals == parts[lo..i]
    {
      vals := vals + [parts[i]];
    }
  }

  lemma {:induction false} NonEmptyFrom(ps: seq<bytes>)
    requires ps != [] && forall k :: 0 < k < |ps| ==> ps[k] != []
    ensures NonEmpty(ps) == (if ps[0] == [] then [] else [ps[0]]) + ps[1..]
    decreases |ps|
  {
    var n := |ps| - 1;
    assert ps == ps[..n] + [ps[n]];
    NonEmptySnoc(ps[..n], ps[n]);
    if n == 0 {
      NonEmptyNothing();
    } else {
      NonEmptyFrom(ps[..n]);
      assert ps[1..] == ps[..n][1..] + [ps[n]];
    }
  }

  /** The parts of a text without empty interior pieces: the outer pieces if they are not empty, and the rest. */
  lemma PartsSplit(ps: seq<bytes>)
    requires |ps| > 1 && !InteriorEmpty(ps)
    ensures var n := |ps| - 1;
            NonEmpty(ps) == (if ps[0] == [] then [] else [ps[0]]) + ps[1..n] + (if ps[n] == [] then [] else [ps[n]])
  {
    var n := |ps| - 1;
    assert ps == ps[..n] + [ps[n]];
    NonEmptySnoc(ps[..n], ps[n]);
    NonEmptyFrom(ps[..n]);
    assert ps[..n][1..] == ps[1..n];
  }

  /** The four cases of getSubstringTokens all say the same. */
  lemma PartsOfPieces(ps: seq<bytes>)
    requires |ps| > 1 && !InteriorEmpty(ps) && NonEmpty(ps) != []
    ensures var n := |ps| - 1;
            Tokens(NonEmpty(ps), ps[0] == [], ps[n] == []) == Build(ps[0], ps[n], ps[1..n])
  {
    hide NonEmpty, InteriorEmpty;
    PartsSplit(ps);
    var n, parts := |ps| - 1, NonEmpty(ps);
    var m := |parts|;
    if ps[0] == [] && ps[n] == [] {
      assert parts == ps[1..n];
    } else if ps[0] == [] {
      assert parts[..m - 1] == ps[1..n];
    } else if ps[n] == [] {
      assert parts[1..] == ps[1..n];
    } else {
      assert parts[1..m - 1] == ps[1..n];
    }
  }

  lemma NothingButStars(ps: seq<bytes>)
    requires |ps| > 1 && !InteriorEmpty(ps) && NonEmpty(ps) == []
    ensures |ps| == 2 && ps[0] == [] && ps[1] == []
  {
    PartsSplit(ps);
  }

  // ----- printing after parsing -----

  lemma PartsSnoc(subs: Substrings, s: Substring)
    ensures InitialOf(subs + [s]) == if s.Initial? then s.value else InitialOf(subs)
    ensures FinalOf(subs + [s]) == if s.Final? then s.value else FinalOf(subs)
    ensures AnyOf(subs + [s]) == if s.Any? then s.values else AnyOf(subs)
  {
    assert (subs + [s])[..|subs|] == subs;
  }

  lemma BuiltParts(init: bytes, fin: bytes, anys: seq<bytes>)
    ensures InitialOf(Build(init, fin, anys)) == init
    ensures FinalOf(Build(init, fin, anys)) == fin
    ensures AnyOf(Build(init, fin, anys)) == anys
  {
    var none: Substrings := [];
    assert InitialOf(none) == [] && FinalOf(none) == [] && AnyOf(none) == [];
    hide InitialOf, FinalOf, AnyOf;
    PartsSnoc(none, Initial(init));
    assert none + [Initial(init)] == [Initial(init)];
    var first: Substrings := if init != [] then [Initial(init)] else [];
    PartsSnoc(first, Any(anys));
    PartsSnoc(first + [Any(anys)], Final(fin));
    assert first + [Any(anys)] + [] == first + [Any(anys)];
  }

  function EscapeAll(ps: seq<bytes>): (r: seq<bytes>)
    ensures |r| == |ps|
    ensures forall k :: 0 <= k < |ps| ==> r[k] == Escape(ps[k])
  {
    seq(|ps|, k requires 0 <= k < |ps| => Escape(ps[k]))
  }

  /** An asterisk-separated text, first piece, inner pieces, last piece. */
  lemma {:induction false} EscapeOfJoin(x: bytes, anys: seq<bytes>, y: bytes)
    ensures Escape(Join([x] + anys + [y], STAR)) == Escape(x) + Stars(anys) + Escape(y)
    decreases |anys|
  {
    hide Escape, Join;
    var n := |anys|;
    if n == 0 {
      assert [x] + [] + [y] == [x] + [y];
      JoinSnoc([x], y);
      JoinCons([x], STAR);
      EscapeAroundAscii(x, STAR, y);
    } else {
      var front, z := anys[..n - 1], anys[n - 1];
      assert [x] + anys + [y] == ([x] + front + [z]) + [y];
      JoinSnoc([x] + front + [z], y);
      EscapeOfJoin(x, front, z);
      EscapeAroundAscii(Join([x] + front + [z], STAR), STAR, y);
      assert Escape(x) + (Stars(front) + Escape(z) + [STAR]) + Escape(y)
          == Escape(x) + Stars(front) + Escape(z) + [STAR] + Escape(y);
    }
  }

  lemma AcceptedParts(t: bytes)
    requires Outcome(t).Success?
    ensures var ps := Pieces(t); var n := |ps| - 1;
            n > 0 && Outcome(t).value == Build(ps[0], ps[n], ps[1..n]) && (n == 1 ==> ps[0] != [] || ps[1] != [])
  {
    hide Pieces, IsSegment;
  }

  /** Printing an accepted text gives the trimmed text, with everything beyond ASCII spelled out. */
  lemma PrintAfterParse(x: bytes)
    requires Parse(x).Success?
    ensures Print(Parse(x).value) == Escape(Utf8.TrimSpace(x))
    ensures Print(Parse(x).value) == x <==> Utf8.TrimSpace(x) == x && IsAscii(x)
  {
    hide Pieces, Outcome, Escape, Build, InitialOf, FinalOf, AnyOf, Stars, Join;
    var t := Utf8.TrimSpace(x);
    var ps := Pieces(t);
    var n := |ps| - 1;
    AcceptedParts(t);
    JoinPieces(t);
    assert ps == [ps[0]] + ps[1..n] + [ps[n]];
    BuiltParts(ps[0], ps[n], ps[1..n]);
    EscapeOfJoin(ps[0], ps[1..n], ps[n]);
    EscapeKeepsExactlyAscii(t);
    if Escape(t) == x {
      Utf8.TrimKeepsAscii(x);
    }
  }

  lemma EscapeTwice(x: bytes)
    ensures Escape(Escape(x)) == Escape(x)
  {
    EscapeKeepsExactlyAscii(Escape(x));
  }

  // ----- parsing after printing -----

  /** Escaping spells nothing but backslashes and hexadecimal digits. */
  lemma {:induction false} NoNewStars(x: bytes, c: byte)
    requires c < 128 && c != BSLASH && !IsHex(c)
    ensures c in Escape(x) <==> c in x
    decreases |x|
  {
    hide Utf8.DecodeRune, EscapeRune, Escape;
    EscapeStep(x);
    if x != [] {
      var (r, n) := Utf8.DecodeRune(x);
      DecodeSize(x);
      NoNewStars(x[n..], c);
      NoStarInRune(x, c);
      assert x == x[..n] + x[n..];
    }
  }

  lemma NoStarInRune(x: bytes, c: byte)
    requires x != [] && c < 128 && c != BSLASH && !IsHex(c)
    ensures var (r, n) := Utf8.DecodeRune(x); c in EscapeRune(r) <==> c in x[..n]
  {
    var (r, n) := Utf8.DecodeRune(x);
    if x[0] < 128 {
      AsciiStep(x);
      AsciiRune(x[0]);
      assert x[..1] == [x[0]];
    } else {
      if Utf8.Proper(x) {
        Utf8.EncodeInvertsDecode(x);
      }
      assert r >= 128;
      NoStarInPairs(Utf8.EncodeRune(r), c);
      if !Utf8.Proper(x) {
        assert x[..1] == [x[0]];
      }
    }
  }

  lemma {:induction false} NoStarInPairs(b: bytes, c: byte)
    requires c != BSLASH && !IsHex(c)
    ensures c !in HexPairs(b)
  {
    if b != [] {
      NoStarInPairs(b[1..], c);
    }
  }

  /** A component that can stand between asterisks. */
  predicate IsPiece(p: bytes) { STAR !in p && IsSegment(Escape(p)) }

  /** Initial, any and final components of which at least one is there, all without asterisks. */
  predicate IsTriple(init: bytes, anys: seq<bytes>, fin: bytes) {
    && (init != [] || anys != [] || fin != [])
    && (init == [] || IsPiece(init))
    && (fin == [] || IsPiece(fin))
    && (forall k :: 0 <= k < |anys| ==> anys[k] != [] && IsPiece(anys[k]))
  }

  lemma EscapeEmpty(p: bytes)
    ensures Escape(p) == [] <==> p == []
  {
    EscapeKeepsExactlyAscii(p);
  }

  /** The pieces of a printed triple are its components. */
  lemma PrintedTriple(init: bytes, anys: seq<bytes>, fin: bytes)
    requires IsTriple(init, anys, fin)
    ensures var t := Print(Build(init, fin, anys));
            t != [] && Pieces(t) == [Escape(init)] + EscapeAll(anys) + [Escape(fin)]
  {
    hide Escape, IsSegment, Pieces;
    BuiltParts(init, fin, anys);
    var ps := [Escape(init)] + EscapeAll(anys) + [Escape(fin)];
    forall k | 0 <= k < |ps| ensures STAR !in ps[k] && IsAscii(ps[k]) {
      EscapeEmpty([]);
      NoNewStars(if k == 0 then init else if k == |ps| - 1 then fin else anys[k - 1], STAR);
    }
    PiecesOfJoin(ps);
    EscapeOfJoin(Escape(init), EscapeAll(anys), Escape(fin));
    EscapeTwice(init);
    EscapeTwice(fin);
    StarsTwice(anys);
    JoinIsAscii(ps);
    EscapeKeepsExactlyAscii(Join(ps, STAR));
    assert PrintParts(init, anys, fin) == Join(ps, STAR);
    PiecesOfPlain([]);
  }

  lemma {:induction false} StarsTwice(anys: seq<bytes>)
    ensures Stars(EscapeAll(anys)) == Stars(anys)
    decreases |anys|
  {
    hide Escape;
    if anys != [] {
      StarsTwice(anys[..|anys| - 1]);
      EscapeTwice(anys[|anys| - 1]);
      assert EscapeAll(anys)[..|anys| - 1] == EscapeAll(anys[..|anys| - 1]);
    }
  }

  lemma {:induction false} JoinIsAscii(ps: seq<bytes>)
    requires forall k :: 0 <= k < |ps| ==> IsAscii(ps[k])
    ensures IsAscii(Join(ps, STAR))
    decreases |ps|
  {
    if |ps| > 1 {
      JoinIsAscii(ps[1..]);
    }
  }

  /** A printed triple with its components spelled out prints the same again. */
  lemma PrintSpelled(init: bytes, anys: seq<bytes>, fin: bytes)
    ensures Print(Build(Escape(init), Escape(fin), EscapeAll(anys))) == Print(Build(init, fin, anys))
  {
    hide Escape, Build, InitialOf, FinalOf, AnyOf, Stars;
    BuiltParts(init, fin, anys);
    BuiltParts(Escape(init), Escape(fin), EscapeAll(anys));
    EscapeTwice(init);
    EscapeTwice(fin);
    StarsTwice(anys);
    EscapeEmpty(init);
    EscapeEmpty(fin);
  }

  /** A trimmed text that prints as a triple is read as that triple. */
  lemma ParseTrimmed(init: bytes, anys: seq<bytes>, fin: bytes)
    requires IsTriple(init, anys, fin)
    requires var t := Print(Build(init, fin, anys)); Utf8.TrimSpace(t) == t
    ensures Parse(Print(Build(init, fin, anys))) == Success(Build(Escape(init), Escape(fin), EscapeAll(anys)))
  {
    hide Escape, IsSegment, Pieces, Print, Build;
    PrintedTriple(init, anys, fin);
    EscapeEmpty(init);
    EscapeEmpty(fin);
    forall k | 0 <= k < |anys| ensures Escape(anys[k]) != [] {
      EscapeEmpty(anys[k]);
    }
    var ps := [Escape(init)] + EscapeAll(anys) + [Escape(fin)];
    assert ps[1..|ps| - 1] == EscapeAll(anys);
    forall k | 0 <= k < |ps| && ps[k] != [] ensures IsSegment(ps[k]) {
      assert 0 < k < |ps| - 1 ==> ps[k] == Escape(anys[k - 1]);
    }
  }

  lemma PrintIsAscii(subs: Substrings)
    ensures IsAscii(Print(subs))
  {
    hide Escape, InitialOf, FinalOf, AnyOf;
    StarsAreAscii(AnyOf(subs));
  }

  lemma {:induction false} StarsAreAscii(anys: seq<bytes>)
    ensures IsAscii(Stars(anys))
    decreases |anys|
  {
    hide Escape;
    if anys != [] {
      StarsAreAscii(anys[..|anys| - 1]);
    }
  }

  lemma AcceptedPieces(t: bytes)
    requires Outcome(t).Success?
    ensures var ps := Pieces(t);
            forall k :: 0 <= k < |ps| ==>
              STAR !in ps[k] && (ps[k] != [] ==> IsSegment(ps[k])) && (0 < k < |ps| - 1 ==> ps[k] != [])
  {
    hide IsSegment;
    PiecesShape(t);
    hide Pieces;
  }

  /** A component that is read with octets beyond ASCII spelled out is free of asterisks. */
  lemma ReadPiece(p: bytes, piece: bytes)
    requires piece == Escape(p) && STAR !in piece && (piece != [] ==> IsSegment(piece))
    ensures (p == [] <==> piece == []) && (p == [] || IsPiece(p))
  {
    hide Escape, IsSegment;
    NoNewStars(p, STAR);
    EscapeEmpty(p);
  }

  /** No text is read as components that could not stand between asterisks. */
  lemma ReadIsTriple(x: bytes, init: bytes, anys: seq<bytes>, fin: bytes)
    requires Parse(x) == Success(Build(Escape(init), Escape(fin), EscapeAll(anys)))
    ensures IsTriple(init, anys, fin)
  {
    hide Escape, Outcome, Pieces, Build, IsPiece, InitialOf, FinalOf, AnyOf, Utf8.TrimSpace, IsSegment;
    var t := Utf8.TrimSpace(x);
    var ps := Pieces(t);
    var n := |ps| - 1;
    AcceptedParts(t);
    AcceptedPieces(t);
    BuiltParts(ps[0], ps[n], ps[1..n]);
    BuiltParts(Escape(init), Escape(fin), EscapeAll(anys));
    ReadPiece(init, ps[0]);
    ReadPiece(fin, ps[n]);
    forall k | 0 <= k < |anys| ensures anys[k] != [] && IsPiece(anys[k]) {
      assert ps[1..n][k] == ps[k + 1];
      ReadPiece(anys[k], ps[k + 1]);
    }
    assert n > 1 ==> |anys| > 0;
  }

  /** At least one component, each fit to stand between asterisks, and no white space at the ends of the text. */
  predicate Survives(init: bytes, anys: seq<bytes>, fin: bytes) {
    var t := Print(Build(init, fin, anys));
    IsTriple(init, anys, fin) && Utf8.TrimSpace(t) == t
  }

  /**
    Printing components and reading the text gives them back, octets beyond ASCII spelled out, in all four
    combinations of missing outer components, exactly when they survive: the parser trims the text.
   */
  lemma ParseAfterPrint(init: bytes, anys: seq<bytes>, fin: bytes)
    ensures var r := Parse(Print(Build(init, fin, anys)));
            r == Success(Build(Escape(init), Escape(fin), EscapeAll(anys))) <==> Survives(init, anys, fin)
    ensures IsAscii(init) && IsAscii(fin) && (forall k :: 0 <= k < |anys| ==> IsAscii(anys[k])) ==>
              var r := Parse(Print(Build(init, fin, anys)));
              r == Success(Build(init, fin, anys)) <==> Survives(init, anys, fin)
  {
    hide Escape, Parse, Print, Build, IsPiece, Utf8.TrimSpace, IsTriple;
    var t, spelled := Print(Build(init, fin, anys)), Build(Escape(init), Escape(fin), EscapeAll(anys));
    if IsTriple(init, anys, fin) && Utf8.TrimSpace(t) == t {
      ParseTrimmed(init, anys, fin);
    }
    if Parse(t) == Success(spelled) {
      ReadIsTriple(t, init, anys, fin);
      PrintAfterParse(t);
      PrintSpelled(init, anys, fin);
      PrintIsAscii(Build(init, fin, anys));
      Utf8.TrimKeepsAscii(t);
      EscapeKeepsExactlyAscii(Utf8.TrimSpace(t));
    }
    if IsAscii(init) && IsAscii(fin) && (forall k :: 0 <= k < |anys| ==> IsAscii(anys[k])) {
      EscapeKeepsExactlyAscii(init);
      EscapeKeepsExactlyAscii(fin);
      forall k | 0 <= k < |anys| ensures Escape(anys[k]) == anys[k] {
        EscapeKeepsExactlyAscii(anys[k]);
      }
      assert EscapeAll(anys) == anys;
    }
  }

  /** The initial component " a" prints as " a*", and that text is read with the initial component "a". */
  lemma BlankEdgeIsLost()
    ensures IsTriple([SPACE, 97], [], []) && Print(Build([SPACE, 97], [], [])) == [SPACE, 97, STAR]
    ensures Parse([SPACE, 97, STAR]) == Success(Build([97], [], []))
  {
    hide *;
    InitialAlone([SPACE, 97]);
    InitialAlone([97]);
    JoinedLetters();
    ParseTrimmedInitial();
    TrimBlank([97, STAR]);
  }

  lemma JoinedLetters()
    ensures [SPACE] + [97, STAR] == [SPACE, 97, STAR] == [SPACE, 97] + [STAR] && [97] + [STAR] == [97, STAR]
  {
  }

  /** One letter, or a blank and a letter, as the only component. */
  lemma InitialAlone(x: bytes)
    requires x == [97] || x == [SPACE, 97]
    ensures IsTriple(x, [], []) && Escape(x) == x && Escape([]) == []
    ensures Print(Build(x, [], [])) == x + [STAR]
  {
    PlainSegment(x);
    EscapeKeepsExactlyAscii(x);
    EscapeEmpty([]);
    hide Escape, IsSegment, Build, InitialOf, FinalOf, AnyOf;
    BuiltParts(x, [], []);
    assert Stars([]) == [STAR];
    assert x + [STAR] + [] == x + [STAR];
  }

  lemma PlainSegment(x: bytes)
    requires x == [97] || x == [SPACE, 97]
    ensures IsAscii(x) && IsSegment(x)
  {
    assert x[1..] == [] || x[1..] == [97];
    assert [97][1..] == [];
    assert AssertionValue.SegmentRest([97]);
  }

  lemma ParseTrimmedInitial()
    ensures Parse([97, STAR]) == Success(Build([97], [], []))
  {
    hide *;
    InitialAlone([97]);
    JoinedLetters();
    TrimmedLetters();
    ParseTrimmed([97], [], []);
    NoneToEscape();
  }

  lemma TrimmedLetters()
    ensures Utf8.TrimSpace([97, STAR]) == [97, STAR]
  {
    Utf8.TrimKeeps([97, STAR]);
  }

  lemma NoneToEscape()
    ensures EscapeAll([]) == []
  {
  }

  lemma TrimBlank(t: bytes)
    ensures Utf8.TrimSpace([SPACE] + t) == Utf8.TrimSpace(t)
    ensures Parse([SPACE] + t) == Parse(t)
  {
    hide Outcome;
    assert ([SPACE] + t)[1..] == t;
  }
}
