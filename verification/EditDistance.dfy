/** approx.go: the two-row Levenshtein programme and the approximate matching rule built on it. */
module EditDistance {
  import opened Bytes

  // ----- what an edit distance is -----

  /** One insertion, deletion or substitution at a position of the current string. */
  datatype Edit = Insert(at: nat, c: byte) | Delete(at: nat) | Substitute(at: nat, c: byte)

  predicate Applicable(e: Edit, s: bytes) {
    if e.Insert? then e.at <= |s| else e.at < |s|
  }

  function Apply(e: Edit, s: bytes): bytes
    requires Applicable(e, s)
  {
    match e
    case Insert(i, c) => s[..i] + [c] + s[i..]
    case Delete(i) => s[..i] + s[i + 1..]
    case Substitute(i, c) => s[..i] + [c] + s[i + 1..]
  }

  /** `script` turns `a` into `b`, one edit after the other. */
  predicate Transforms(script: seq<Edit>, a: bytes, b: bytes) {
    if script == [] then a == b
    else Applicable(script[0], a) && Transforms(script[1..], Apply(script[0], a), b)
  }

  /** `d` is the length of a shortest script from `a` to `b`. */
  ghost predicate IsEditDistance(d: int, a: bytes, b: bytes) {
    && (exists script :: Transforms(script, a, b) && |script| == d)
    && (forall script :: Transforms(script, a, b) ==> d <= |script|)
  }

  // ----- the recurrence behind the table -----

  function Min3(x: int, y: int, z: int): int {
    var m := if y < x then y else x;
    if z < m then z else m
  }

  function Cost(x: byte, y: byte): int { if x != y then 1 else 0 }

  /** Cell (|a|, |b|) of the table. */
  function Distance(a: bytes, b: bytes): int
    decreases |a| + |b|
  {
    if a == [] then |b|
    else if b == [] then |a|
    else
      Min3(Distance(Init(a), b) + 1, Distance(a, Init(b)) + 1, Distance(Init(a), Init(b)) + Cost(Last(a), Last(b)))
  }

  function Init(s: bytes): bytes
    requires s != []
  {
    s[..|s| - 1]
  }

  function Last(s: bytes): byte
    requires s != []
  {
    s[|s| - 1]
  }

  /** One cell from its three neighbours. */
  lemma Cell(a: bytes, x: byte, b: bytes, y: byte)
    ensures Distance(a + [x], b + [y])
         == Min3(Distance(a, b + [y]) + 1, Distance(a + [x], b) + 1, Distance(a, b) + Cost(x, y))
  {
    assert Init(a + [x]) == a && Init(b + [y]) == b;
  }

  lemma Edge(a: bytes)
    ensures Distance(a, []) == |a| == Distance([], a)
  {
  }

  /** Between the length difference and the larger length; zero exactly on equal strings. */
  lemma {:induction false} DistanceBounds(a: bytes, b: bytes)
    ensures |a| - |b| <= Distance(a, b) && |b| - |a| <= Distance(a, b)
    ensures Distance(a, b) <= |a| || Distance(a, b) <= |b|
    ensures Distance(a, b) == 0 <==> a == b
    decreases |a| + |b|
  {
    hide Distance;
    if a == [] || b == [] {
      Edge(a);
      Edge(b);
    } else {
      var a', x, b', y := Init(a), Last(a), Init(b), Last(b);
      assert a == a' + [x] && b == b' + [y];
      Cell(a', x, b', y);
      DistanceBounds(a', b);
      DistanceBounds(a, b');
      DistanceBounds(a', b');
    }
  }

  lemma {:induction false} DistanceSymmetric(a: bytes, b: bytes)
    ensures Distance(a, b) == Distance(b, a)
    decreases |a| + |b|
  {
    hide Distance;
    if a == [] || b == [] {
      Edge(a);
      Edge(b);
    } else {
      var a', x, b', y := Init(a), Last(a), Init(b), Last(b);
      assert a == a' + [x] && b == b' + [y];
      Cell(a', x, b', y);
      Cell(b', y, a', x);
      DistanceSymmetric(a', b);
      DistanceSymmetric(a, b');
      DistanceSymmetric(a', b');
    }
  }

  lemma {:induction false} DistanceTriangle(a: bytes, b: bytes, c: bytes)
    ensures Distance(a, c) <= Distance(a, b) + Distance(b, c)
    decreases |a| + |b| + |c|
  {
    hide Distance;
    DistanceBounds(a, b);
    DistanceBounds(b, c);
    if a == [] || b == [] || c == [] {
      DistanceBounds(a, c);
      Edge(a);
      Edge(b);
      Edge(c);
    } else {
      var a', x, b', y, c', z := Init(a), Last(a), Init(b), Last(b), Init(c), Last(c);
      assert a == a' + [x] && b == b' + [y] && c == c' + [z];
      Cell(a', x, b', y);
      Cell(b', y, c', z);
      Cell(a', x, c', z);
      DistanceTriangle(a', b, c);
      DistanceTriangle(a, b, c');
      DistanceTriangle(a, b', c);
      DistanceTriangle(a', b', c);
      DistanceTriangle(a, b', c');
      DistanceTriangle(a', b', c');
    }
  }

  /** A common suffix never makes the distance larger. */
  lemma {:induction false} DistanceCommonSuffix(a: bytes, b: bytes, w: bytes)
    ensures Distance(a + w, b + w) <= Distance(a, b)
    decreases |w|
  {
    hide Distance;
    if w == [] {
      assert a + w == a && b + w == b;
    } else {
      var w', z := Init(w), Last(w);
      assert a + w == (a + w') + [z] && b + w == (b + w') + [z];
      Cell(a + w', z, b + w', z);
      DistanceCommonSuffix(a, b, w');
    }
  }

  /** A character appended on one side costs at most one, a replaced one as well. */
  lemma LastCharacter(p: bytes, x: byte, y: byte)
    ensures Distance(p, p + [x]) <= 1 && Distance(p + [x], p) <= 1
    ensures Distance(p + [x], p + [y]) <= 1
  {
    hide Distance;
    DistanceBounds(p, p);
    Cell(p, x, p, y);
    DistanceSymmetric(p, p + [x]);
    if p == [] {
      Edge(p + [x]);
    } else {
      var q, z := Init(p), Last(p);
      assert p == q + [z];
      Cell(q, z, p, x);
    }
  }

  /** One edit moves a string by at most one. */
  lemma OneEdit(e: Edit, s: bytes)
    requires Applicable(e, s)
    ensures Distance(s, Apply(e, s)) <= 1
  {
    hide Distance;
    var p := s[..e.at];
    if e.Insert? {
      LastCharacter(p, e.c, e.c);
      DistanceCommonSuffix(p, p + [e.c], s[e.at..]);
      assert s == p + s[e.at..];
    } else {
      var x, rest := s[e.at], s[e.at + 1..];
      assert s == p + [x] + rest;
      LastCharacter(p, x, if e.Delete? then x else e.c);
      DistanceCommonSuffix(p + [x], if e.Delete? then p else p + [e.c], rest);
    }
  }

  /** No script is shorter than the recurrence says. */
  lemma {:induction false} ScriptsAreNoShorter(script: seq<Edit>, a: bytes, b: bytes)
    requires Transforms(script, a, b)
    ensures Distance(a, b) <= |script|
    decreases |script|
  {
    if script == [] {
      DistanceBounds(a, b);
    } else {
      var s := Apply(script[0], a);
      ScriptsAreNoShorter(script[1..], s, b);
      OneEdit(script[0], a);
      DistanceTriangle(a, s, b);
    }
  }

  lemma {:induction false} TransformsThen(s1: seq<Edit>, s2: seq<Edit>, a: bytes, b: bytes, c: bytes)
    requires Transforms(s1, a, b) && Transforms(s2, b, c)
    ensures Transforms(s1 + s2, a, c)
    decreases |s1|
  {
    hide Apply;
    if s1 == [] {
      assert s1 + s2 == s2;
    } else {
      TransformsThen(s1[1..], s2, Apply(s1[0], a), b, c);
      assert (s1 + s2)[1..] == s1[1..] + s2;
    }
  }

  lemma ApplyBefore(e: Edit, a: bytes, x: byte)
    requires Applicable(e, a)
    ensures Applicable(e, a + [x]) && Apply(e, a + [x]) == Apply(e, a) + [x]
  {
  }

  /** A script still works in front of one more character. */
  lemma {:induction false} TransformsBefore(script: seq<Edit>, a: bytes, b: bytes, x: byte)
    requires Transforms(script, a, b)
    ensures Transforms(script, a + [x], b + [x])
    decreases |script|
  {
    hide Applicable, Apply;
    if script != [] {
      ApplyBefore(script[0], a, x);
      TransformsBefore(script[1..], Apply(script[0], a), b, x);
    }
  }

  /** Append one edit. */
  lemma TransformsAndThen(script: seq<Edit>, e: Edit, a: bytes, b: bytes, c: bytes)
    requires Transforms(script, a, b) && Applicable(e, b) && Apply(e, b) == c
    ensures Transforms(script + [e], a, c)
  {
    assert Transforms([e][1..], c, c);
    TransformsThen(script, [e], a, b, c);
  }

  /** A script as short as the recurrence says. */
  lemma {:induction false} ShortestScript(a: bytes, b: bytes) returns (script: seq<Edit>)
    ensures Transforms(script, a, b) && |script| == Distance(a, b)
    decreases |a| + |b|
  {
    hide Distance, Transforms;
    Edge(a);
    Edge(b);
    if a == [] && b == [] {
      script := NoEdit(a);
    } else if a == [] {
      Edge(Init(b));
      script := ShortestScript(a, Init(b));
      script := WithLastInserted(script, a, b);
    } else if b == [] {
      Edge(Init(a));
      script := ShortestScript(Init(a), b);
      script := WithLastDeleted(script, a, b);
    } else {
      var a', x, b', y := Init(a), Last(a), Init(b), Last(b);
      assert a == a' + [x] && b == b' + [y];
      Cell(a', x, b', y);
      if Distance(a, b) == Distance(a', b) + 1 {
        script := ShortestScript(a', b);
        script := WithLastDeleted(script, a, b);
      } else if Distance(a, b) == Distance(a, b') + 1 {
        script := ShortestScript(a, b');
        script := WithLastInserted(script, a, b);
      } else {
        script := ShortestScript(a', b');
        script := WithLastReplaced(script, a, b);
      }
    }
  }

  lemma NoEdit(a: bytes) returns (script: seq<Edit>)
    ensures Transforms(script, a, a) && |script| == 0
  {
    script := [];
  }

  lemma WithLastInserted(script: seq<Edit>, a: bytes, b: bytes) returns (more: seq<Edit>)
    requires b != [] && Transforms(script, a, Init(b))
    ensures Transforms(more, a, b) && |more| == |script| + 1
  {
    var e := Insert(|b| - 1, Last(b));
    assert Apply(e, Init(b)) == b;
    TransformsAndThen(script, e, a, Init(b), b);
    more := script + [e];
  }

  lemma WithLastDeleted(script: seq<Edit>, a: bytes, b: bytes) returns (more: seq<Edit>)
    requires a != [] && Transforms(script, Init(a), b)
    ensures Transforms(more, a, b) && |more| == |script| + 1
  {
    var e := Delete(|a| - 1);
    assert Apply(e, a) == Init(a);
    more := [e] + script;
    assert more[1..] == script;
  }

  lemma WithLastReplaced(script: seq<Edit>, a: bytes, b: bytes) returns (more: seq<Edit>)
    requires a != [] && b != [] && Transforms(script, Init(a), Init(b))
    ensures Transforms(more, a, b) && |more| == |script| + Cost(Last(a), Last(b))
  {
    hide Transforms;
    var x, y := Last(a), Last(b);
    TransformsBefore(script, Init(a), Init(b), x);
    assert a == Init(a) + [x] && b == Init(b) + [y];
    more := script;
    if x != y {
      var e := Substitute(|b| - 1, y);
      assert Apply(e, Init(b) + [x]) == b;
      TransformsAndThen(script, e, a, Init(b) + [x], b);
      more := script + [e];
    }
  }

  /** The recurrence is the edit distance. */
  lemma DistanceIsEditDistance(a: bytes, b: bytes)
    ensures IsEditDistance(Distance(a, b), a, b)
  {
    var script := ShortestScript(a, b);
    forall other | Transforms(other, a, b) ensures Distance(a, b) <= |other| {
      ScriptsAreNoShorter(other, a, b);
    }
  }

  // ----- levenshtein -----

  /** Row `i` of the table, up to and including column `n`. */
  ghost predicate Row(row: array<int>, n: int, a: bytes, i: int, b: bytes)
    requires 0 <= n < row.Length && n <= |b| && 0 <= i <= |a|
    reads row
  {
    forall k :: 0 <= k <= n ==> row[k] == Distance(a[..i], b[..k])
  }

  lemma TableCell(a: bytes, i: int, b: bytes, j: int)
    requires 0 <= i < |a| && 0 <= j < |b|
    ensures Distance(a[..i + 1], b[..j + 1])
         == Min3(Distance(a[..i], b[..j + 1]) + 1, Distance(a[..i + 1], b[..j]) + 1,
                 Distance(a[..i], b[..j]) + Cost(a[i], b[j]))
  {
    hide Distance;
    assert a[..i + 1] == a[..i] + [a[i]] && b[..j + 1] == b[..j] + [b[j]];
    Cell(a[..i], a[i], b[..j], b[j]);
  }

  /** The two-row programme: `prev` and `curr` are filled left to right and swapped after every row. */
  method Levenshtein(a: bytes, b: bytes) returns (d: int)
    ensures d == Distance(a, b)
    ensures IsEditDistance(d, a, b)
  {
    hide Distance, IsEditDistance;
    DistanceIsEditDistance(a, b);
    Edge(a);
    Edge(b);
    var la, lb := |a|, |b|;
    if la == 0 {
      return lb;
    }
    if lb == 0 {
      return la;
    }
    var prev := new int[lb + 1];
    var curr := new int[lb + 1];
    for j := 0 to lb + 1
      invariant j > 0 ==> Row(prev, j - 1, a, 0, b)
    {
      Edge(b[..j]);
      prev[j] := j;
    }
    for i := 0 to la
      invariant prev.Length == curr.Length == lb + 1 && prev != curr
      invariant fresh(prev) && fresh(curr)
      invariant Row(prev, lb, a, i, b)
    {
      Edge(a[..i + 1]);
      curr[0] := i + 1;
      var ai := a[i];
      for j := 0 to lb
        invariant Row(prev, lb, a, i, b)
        invariant Row(curr, j, a, i + 1, b)
      {
        TableCell(a, i, b, j);
        var cost := 0;
        if ai != b[j] {
          cost := 1;
        }
        var del := prev[j + 1] + 1;
        var ins := curr[j] + 1;
        var sub := prev[j] + cost;
        var m := del;
        if ins < m {
          m := ins;
        }
        if sub < m {
          m := sub;
        }
        curr[j + 1] := m;
      }
      prev, curr := curr, prev;
    }
    assert a[..la] == a && b[..lb] == b;
    return prev[lb];
  }

  // ----- phonetic codes -----

  /** The consonant groups; every other octet belongs to none. */
  const GROUPS: seq<string> := ["bfpv", "cgjkqsxz", "dt", "l", "mn", "r"]

  predicate InGroup(c: byte, g: nat)
    requires g < |GROUPS|
  {
    c as char in GROUPS[g]
  }

  /** classTable: the group of a lower-case consonant as an ASCII digit, 0 for everything else. */
  function Class(c: byte): byte {
    if c == 98 || c == 102 || c == 112 || c == 118 then 49      // b f p v
    else if c == 99 || c == 103 || c == 106 || c == 107 then 50 // c g j k
    else if c == 113 || c == 115 || c == 120 || c == 122 then 50 // q s x z
    else if c == 100 || c == 116 then 51                        // d t
    else if c == 108 then 52                                    // l
    else if c == 109 || c == 110 then 53                        // m n
    else if c == 114 then 54                                    // r
    else 0
  }

  /** The table holds the digit of the group, counted from one, and nothing for octets without a group. */
  lemma ClassIsGroup(c: byte)
    ensures forall g :: 0 <= g < |GROUPS| ==> (Class(c) == 49 + g <==> InGroup(c, g))
    ensures Class(c) == 0 <==> forall g :: 0 <= g < |GROUPS| ==> !InGroup(c, g)
  {
    assert forall k :: 0 <= k < 4 ==> "bfpv"[k] in "bfpv";
    assert forall k :: 0 <= k < 8 ==> "cgjkqsxz"[k] in "cgjkqsxz";
    assert "dt"[0] in "dt" && "dt"[1] in "dt" && "mn"[0] in "mn" && "mn"[1] in "mn";
    if Class(c) != 0 {
      assert InGroup(c, Class(c) - 49);
    }
  }

  /** Two octets share a non-zero class exactly when they stand in the same group. */
  lemma SameClassIsSameGroup(c: byte, d: byte)
    ensures Class(c) == Class(d) != 0 <==> exists g :: 0 <= g < |GROUPS| && InGroup(c, g) && InGroup(d, g)
  {
    hide Class, InGroup;
    ClassIsGroup(c);
    ClassIsGroup(d);
  }

  /** The digit of the group of an octet, from group `g` on, if it has one. */
  function DigitFrom(c: byte, g: nat): bytes
    requires g <= |GROUPS|
    decreases |GROUPS| - g
  {
    if g == |GROUPS| then [] else if InGroup(c, g) then [49 + g] else DigitFrom(c, g + 1)
  }

  function GroupDigit(c: byte): bytes { DigitFrom(c, 0) }

  /** The digits of all groups in order; octets without a group leave no trace. */
  function GroupDigits(s: bytes): bytes {
    if s == [] then [] else GroupDigit(s[0]) + GroupDigits(s[1..])
  }

  /** Without the elements that repeat their predecessor. */
  function Collapsed(s: bytes): bytes {
    if |s| <= 1 then s
    else if Last(s) == Last(Init(s)) then Collapsed(Init(s))
    else Collapsed(Init(s)) + [Last(s)]
  }

  /** The phonetic code: the groups of the lower-cased letters, a first letter without a group standing for itself. */
  function Phonetic(s: bytes): bytes {
    if s == [] then []
    else
      var b := Lower(s);
      Collapsed((if GroupDigit(b[0]) == [] then [b[0]] else GroupDigit(b[0])) + GroupDigits(b[1..]))
  }

  lemma {:induction false} DigitIsClass(c: byte, g: nat)
    requires g <= |GROUPS| && forall k :: 0 <= k < g ==> !InGroup(c, k)
    ensures DigitFrom(c, g) == if Class(c) == 0 then [] else [Class(c)]
    decreases |GROUPS| - g
  {
    hide Class, InGroup;
    ClassIsGroup(c);
    if g < |GROUPS| && !InGroup(c, g) {
      DigitIsClass(c, g + 1);
    }
  }

  lemma {:induction false} GroupDigitsConcat(a: bytes, b: bytes)
    ensures GroupDigits(a + b) == GroupDigits(a) + GroupDigits(b)
    decreases |a|
  {
    hide GroupDigit;
    if a == [] {
      assert a + b == b;
    } else {
      assert (a + b)[1..] == a[1..] + b;
      GroupDigitsConcat(a[1..], b);
    }
  }

  lemma OneDigit(c: byte)
    ensures GroupDigits([c]) == GroupDigit(c) && GroupDigits([]) == []
  {
    hide GroupDigit;
    assert [c][1..] == [];
  }

  /** No neighbours are equal, and the ends stay. */
  lemma {:induction false} CollapsedShape(s: bytes)
    ensures forall i :: 0 < i < |Collapsed(s)| ==> Collapsed(s)[i] != Collapsed(s)[i - 1]
    ensures s != [] ==> Collapsed(s) != [] && Last(Collapsed(s)) == Last(s) && Collapsed(s)[0] == s[0]
    decreases |s|
  {
    if |s| > 1 {
      CollapsedShape(Init(s));
    }
  }

  lemma CollapsedSnoc(s: bytes, x: byte)
    ensures Collapsed(s + [x]) == if s != [] && Last(s) == x then Collapsed(s) else Collapsed(s) + [x]
  {
    assert Init(s + [x]) == s;
  }

  /** A repeated element counts once, wherever it stands. */
  lemma {:induction false} CollapsedRepeat(a: bytes, x: byte, b: bytes)
    ensures Collapsed(a + [x, x] + b) == Collapsed(a + [x] + b)
    decreases |b|
  {
    hide Collapsed;
    if b == [] {
      assert a + [x, x] + [] == a + [x] + [x] && a + [x] + [] == a + [x];
      CollapsedSnoc(a + [x], x);
    } else {
      var b', y := Init(b), Last(b);
      assert a + [x, x] + b == (a + [x, x] + b') + [y] && a + [x] + b == (a + [x] + b') + [y];
      CollapsedRepeat(a, x, b');
      CollapsedSnoc(a + [x, x] + b', y);
      CollapsedSnoc(a + [x] + b', y);
    }
  }

  /** A vowel, or any octet without a group, separates nothing behind the first letter. */
  lemma VowelSeparatesNothing(a: bytes, v: byte, b: bytes)
    requires a != [] && forall g :: 0 <= g < |GROUPS| ==> !InGroup(LowerByte(v), g)
    ensures Phonetic(a + [v] + b) == Phonetic(a + b)
  {
    hide Collapsed, GroupDigit, InGroup;
    var x, y := Lower(a + [v] + b), Lower(a + b);
    assert x[1..] == Lower(a)[1..] + [LowerByte(v)] + Lower(b) && y[1..] == Lower(a)[1..] + Lower(b);
    GroupDigitsConcat(Lower(a)[1..] + [LowerByte(v)], Lower(b));
    GroupDigitsConcat(Lower(a)[1..], [LowerByte(v)]);
    GroupDigitsConcat(Lower(a)[1..], Lower(b));
    OneDigit(LowerByte(v));
    NoDigit(LowerByte(v));
    hide GroupDigits;
    assert GroupDigits(Lower(a)[1..]) + [] == GroupDigits(Lower(a)[1..]);
    assert GroupDigits(x[1..]) == GroupDigits(y[1..]) && x[0] == y[0];
  }

  lemma NoDigit(c: byte)
    requires forall g :: 0 <= g < |GROUPS| ==> !InGroup(c, g)
    ensures GroupDigit(c) == []
  {
    hide Class, InGroup;
    ClassIsGroup(c);
    DigitIsClass(c, 0);
  }

  method ApproxNormalize(s: bytes) returns (out: bytes)
    ensures out == Phonetic(s)
  {
    hide Collapsed, Class, DigitFrom;
    if |s| == 0 {
      return [];
    }
    var b := Lc(s);
    DigitIsClass(b[0], 0);
    var first := Class(b[0]);
    if first == 0 {
      first := b[0];
    }
    out := EncodeRest(b[1..], first);
  }

  /** The loop over the letters after the first. */
  method EncodeRest(b: bytes, first: byte) returns (out: bytes)
    ensures out == Collapsed([first] + GroupDigits(b))
  {
    hide Class, Collapsed, GroupDigits, GroupDigit;
    out := [first];
    var prev := first;
    OneDigit(0);
    FirstAlone(first);
    for i := 0 to |b|
      invariant out == Collapsed([first] + GroupDigits(b[..i]))
      invariant prev == Last([first] + GroupDigits(b[..i]))
    {
      assert b[..i + 1] == b[..i] + [b[i]];
      GroupDigitsConcat(b[..i], [b[i]]);
      OneDigit(b[i]);
      DigitOf(b[i]);
      ghost var codes := [first] + GroupDigits(b[..i]);
      assert [first] + GroupDigits(b[..i + 1]) == codes + GroupDigit(b[i]);
      var cls := Class(b[i]);
      if cls == 0 {
        assert codes + [] == codes;
        continue;
      }
      CollapsedSnoc(codes, cls);
      if cls != prev {
        out := out + [cls];
        prev := cls;
      }
    }
    assert b[..|b|] == b;
  }

  lemma FirstAlone(x: byte)
    ensures Collapsed([x] + []) == [x]
  {
  }

  lemma DigitOf(c: byte)
    ensures GroupDigit(c) == if Class(c) == 0 then [] else [Class(c)]
  {
    hide Class, DigitFrom;
    DigitIsClass(c, 0);
  }

  /** When approximate matching succeeds. */
  predicate Approximates(x: bytes, y: bytes) {
    var r, a := Phonetic(x), Phonetic(y);
    || r == a
    || (|r| == |a| && |r| > 1 && r[1..] == a[1..])
    || Distance(x, y) <= 2
  }

  method ApproxMatch(realVal: bytes, assertionVal: bytes) returns (ok: bool)
    ensures ok <==> Approximates(realVal, assertionVal)
  {
    var r := ApproxNormalize(realVal);
    var a := ApproxNormalize(assertionVal);
    var same := Beq(r, a);
    if same {
      return true;
    }
    if |r| == |a| && |r| > 1 {
      same := Beq(r[1..], a[1..]);
      if same {
        return true;
      }
    }
    var d := Levenshtein(realVal, assertionVal);
    return d <= 2;
  }

  /** Reflexive, symmetric, and blind to the case of the letters of either side. */
  lemma ApproximatesLaws(x: bytes, y: bytes)
    ensures Approximates(x, x)
    ensures Approximates(x, y) <==> Approximates(y, x)
    ensures Lower(x) == Lower(y) ==> Approximates(x, y)
    ensures (exists script :: Transforms(script, x, y) && |script| <= 2) ==> Approximates(x, y)
  {
    DistanceSymmetric(x, y);
    if Lower(x) == Lower(y) {
      assert |x| == |y|;
    }
    if script :| Transforms(script, x, y) && |script| <= 2 {
      ScriptsAreNoShorter(script, x, y);
    }
  }

  /** Every edit changes the number of occurrences of an octet by one at most. */
  lemma {:induction false} DistanceCounts(a: bytes, b: bytes, c: byte)
    ensures CountOf(a, c) - CountOf(b, c) <= Distance(a, b)
    decreases |a| + |b|
  {
    hide Distance, CountOf;
    if a == [] || b == [] {
      Edge(a);
      Edge(b);
      CountNothing(c);
      CountIsBounded(a, c);
    } else {
      var a', x, b', y := Init(a), Last(a), Init(b), Last(b);
      assert a == a' + [x] && b == b' + [y];
      Cell(a', x, b', y);
      CountConcat(a', [x], c);
      CountConcat(b', [y], c);
      CountOne(x, c);
      CountOne(y, c);
      DistanceCounts(a', b, c);
      DistanceCounts(a, b', c);
      DistanceCounts(a', b', c);
    }
  }

  lemma {:induction false} CountIsBounded(a: bytes, c: byte)
    ensures CountOf(a, c) <= |a|
  {
    if a != [] {
      CountIsBounded(a[1..], c);
    }
  }

  /** A consonant four times, with a vowel behind it each time. */
  function Lalling(c: byte): bytes { [c, 97, c, 97, c, 97, c, 97] }

  lemma LallingCode(c: byte)
    requires c == 108 || c == 114
    ensures Phonetic(Lalling(c)) == [Class(c)] && Class(c) != 0
  {
    hide GroupDigit, Class, Collapsed, GroupDigits;
    var w, d := Lalling(c), Class(c);
    LallingClass(c);
    DigitOf(c);
    DigitOf(97);
    assert Lower(w) == w;
    var p, q := [97, c], [97];
    assert w[1..] == p + p + p + q;
    GroupDigitsConcat(p + p + p, q);
    GroupDigitsConcat(p + p, p);
    GroupDigitsConcat(p, p);
    GroupDigitsConcat(q, [c]);
    assert p == q + [c];
    OneDigit(97);
    OneDigit(c);
    assert GroupDigits(p) == [] + [d] == [d];
    assert GroupDigits(w[1..]) == [d] + [d] + [d] + [] == [d, d, d];
    assert [d] + [d, d, d] == [d, d] + [d] + [d];
    CollapsedSnoc([d, d] + [d], d);
    CollapsedSnoc([d, d], d);
    CollapsedSnoc([d], d);
    assert [d] + [d] == [d, d];
    FirstAlone(d);
    assert [d] + [] == [d];
  }

  lemma LallingClass(c: byte)
    requires c == 108 || c == 114
    ensures Class(c) != 0 && Class(97) == 0 && LowerByte(c) == c && LowerByte(97) == 97
  {
  }

  lemma LallingCounts()
    ensures CountOf(Lalling(108), 108) == 4 && CountOf(Lalling(114), 108) == 0
  {
    hide CountOf;
    CountAbsent(Lalling(114), 108);
    var p: bytes := [108, 97];
    assert p == [108] + [97];
    CountConcat([108], [97], 108);
    CountOne(108, 108);
    CountOne(97, 108);
    assert Lalling(108) == p + p + p + p;
    CountConcat(p + p + p, p, 108);
    CountConcat(p + p, p, 108);
    CountConcat(p, p, 108);
  }

  /** "lalalala" and "rararara" neither sound alike nor lie within two edits. */
  lemma GroupsDiffer()
    ensures !Approximates([108, 97, 108, 97, 108, 97, 108, 97], [114, 97, 114, 97, 114, 97, 114, 97])
  {
    hide *;
    LallingCode(108);
    LallingCode(114);
    TwoClasses();
    LallingCounts();
    DistanceCounts(Lalling(108), Lalling(114), 108);
    ShortCodesDiffer(Lalling(108), Lalling(114));
  }

  lemma TwoClasses()
    ensures Class(108) == 52 && Class(114) == 54
    ensures Lalling(108) == [108, 97, 108, 97, 108, 97, 108, 97] && Lalling(114) == [114, 97, 114, 97, 114, 97, 114, 97]
  {
  }

  lemma ShortCodesDiffer(x: bytes, y: bytes)
    requires |Phonetic(x)| == 1 && Phonetic(x) != Phonetic(y) && Distance(x, y) > 2
    ensures !Approximates(x, y)
  {
    hide Phonetic, Distance;
  }
}
