/** Octets, octet strings and the small helpers of misc.go that the other modules share. */
module Bytes {

  /** One octet. */
  type byte = i: int | 0 <= i < 256

  /** An octet string; a nil slice and an empty slice are both `[]`. */
  type bytes = seq<byte>

  /** The octets of an ASCII literal. */
  function Ascii(s: string): (b: bytes)
    ensures |b| == |s|
    ensures forall i :: 0 <= i < |s| ==> b[i] == s[i] as int % 256
  {
    seq(|s|, i requires 0 <= i < |s| => s[i] as int % 256)
  }

  // ASCII characters that carry meaning in the syntaxes modelled here.
  const SPACE: byte := 32
  const BANG: byte := 33
  const DQUOTE: byte := 34
  const HASH: byte := 35
  const AMPERSAND: byte := 38
  const SQUOTE: byte := 39
  const LPAREN: byte := 40
  const RPAREN: byte := 41
  const STAR: byte := 42
  const PLUS: byte := 43
  const COMMA: byte := 44
  const HYPHEN: byte := 45
  const DOT: byte := 46
  const COLON: byte := 58
  const SEMI: byte := 59
  const LESS: byte := 60
  const EQUALS: byte := 61
  const GREATER: byte := 62
  const BSLASH: byte := 92
  const LBRACE: byte := 123
  const PIPE: byte := 124
  const RBRACE: byte := 125
  const TILDE: byte := 126

  lemma CharacterLiterals()
    ensures SPACE as char == ' ' && BANG as char == '!' && DQUOTE as char == '\"' && HASH as char == '#'
    ensures AMPERSAND as char == '&' && SQUOTE as char == '\'' && LPAREN as char == '(' && RPAREN as char == ')'
    ensures STAR as char == '*' && PLUS as char == '+' && COMMA as char == ',' && HYPHEN as char == '-'
    ensures DOT as char == '.' && COLON as char == ':' && SEMI as char == ';' && LESS as char == '<'
    ensures EQUALS as char == '=' && GREATER as char == '>' && BSLASH as char == '\\' && LBRACE as char == '{'
    ensures PIPE as char == '|' && RBRACE as char == '}' && TILDE as char == '~'
  {
  }

  predicate IsUpperAlpha(c: int) { 65 <= c <= 90 }
  predicate IsAlpha(c: int) { 65 <= c <= 90 || 97 <= c <= 122 }
  predicate IsDigit(c: int) { 48 <= c <= 57 }
  predicate IsAlnum(c: int) { IsAlpha(c) || IsDigit(c) }
  predicate IsHex(c: int) { IsDigit(c) || 65 <= c <= 70 || 97 <= c <= 102 }

  predicate IsAscii(s: bytes) { forall i :: 0 <= i < |s| ==> s[i] < 128 }

  lemma CharacterClasses(c: byte)
    ensures IsUpperAlpha(c) <==> 'A' <= c as char <= 'Z'
    ensures IsAlpha(c) <==> 'A' <= c as char <= 'Z' || 'a' <= c as char <= 'z'
    ensures IsDigit(c) <==> '0' <= c as char <= '9'
    ensures IsAlnum(c) <==> 'A' <= c as char <= 'Z' || 'a' <= c as char <= 'z' || '0' <= c as char <= '9'
    ensures IsHex(c) <==> 'A' <= c as char <= 'F' || 'a' <= c as char <= 'f' || '0' <= c as char <= '9'
  {
  }

  function LowerByte(c: byte): byte { if IsUpperAlpha(c) then c + 32 else c }

  /** ASCII lower-casing of a whole octet string. */
  function Lower(s: bytes): (r: bytes)
    ensures |r| == |s|
    ensures forall i :: 0 <= i < |s| ==> !IsUpperAlpha(r[i])
  {
    seq(|s|, i requires 0 <= i < |s| => LowerByte(s[i]))
  }

  lemma LowerSlice(s: bytes, i: nat, j: nat)
    requires i <= j <= |s|
    ensures Lower(s)[i..j] == Lower(s[i..j])
  {
  }

  lemma LowerTwice(s: bytes)
    ensures Lower(Lower(s)) == Lower(s)
  {
  }

  lemma LowerConcat(a: bytes, b: bytes)
    ensures Lower(a + b) == Lower(a) + Lower(b)
  {
  }

  predicate HasPrefix(s: bytes, p: bytes) { p <= s }

  predicate HasSuffix(s: bytes, p: bytes) { |p| <= |s| && s[|s| - |p|..] == p }

  /** `part` stands at position `i` of `s`. */
  predicate At(s: bytes, i: int, part: bytes) {
    0 <= i && i + |part| <= |s| && s[i..i + |part|] == part
  }

  lemma AtConcat(s: bytes, i: nat, a: bytes, b: bytes)
    requires At(s, i, a + b)
    ensures At(s, i, a) && At(s, i + |a|, b)
  {
    assert (a + b)[..|a|] == a && (a + b)[|a|..] == b;
    assert s[i..i + |a|] == s[i..i + |a + b|][..|a|];
    assert s[i + |a|..i + |a + b|] == s[i..i + |a + b|][|a|..];
  }

  /** Leftmost position of `sub` in `s`, or -1. */
  function Index(s: bytes, sub: bytes): (r: int)
    ensures r == -1 || At(s, r, sub)
    ensures forall j :: 0 <= j && (r == -1 || j < r) ==> !At(s, j, sub)
  {
    if sub <= s then
      0
    else if s == [] then
      -1
    else
      var r := Index(s[1..], sub);
      assert forall j :: 0 <= j ==> (At(s[1..], j, sub) <==> At(s, j + 1, sub)) by {
        forall j | 0 <= j ensures At(s[1..], j, sub) <==> At(s, j + 1, sub) {
          if j + |sub| <= |s[1..]| {
            assert s[1..][j..j + |sub|] == s[j + 1..j + 1 + |sub|];
          }
        }
      }
      assert forall j :: 1 <= j ==> (At(s, j, sub) <==> At(s[1..], j - 1, sub));
      assert !At(s, 0, sub);
      if r == -1 then -1 else r + 1
  }

  predicate Contains(s: bytes, sub: bytes) { Index(s, sub) != -1 }

  /** strings.Join with a one-octet separator. */
  function Join(parts: seq<bytes>, sep: byte): bytes {
    if parts == [] then []
    else if |parts| == 1 then parts[0]
    else parts[0] + [sep] + Join(parts[1..], sep)
  }

  lemma JoinNothing(sep: byte)
    ensures Join([], sep) == []
  {
  }

  lemma JoinCons(parts: seq<bytes>, sep: byte)
    requires parts != []
    ensures |parts| == 1 ==> Join(parts, sep) == parts[0]
    ensures |parts| > 1 ==> Join(parts, sep) == parts[0] + [sep] + Join(parts[1..], sep)
  {
  }

  /** beq: octet-wise equality. */
  method Beq(a: bytes, b: bytes) returns (eq: bool)
    ensures eq <==> a == b
  {
    eq := |a| == |b|;
    if eq {
      var i := 0;
      while i < |a| && eq
        invariant 0 <= i <= |a|
        invariant eq <==> a[..i] == b[..i]
      {
        eq := a[i] == b[i];
        assert a[..i + 1] == a[..i] + [a[i]] && b[..i + 1] == b[..i] + [b[i]];
        i := i + 1;
      }
      if eq {
        assert a == a[..i] && b == b[..i];
      }
    }
  }

  /** beqf: equality up to the case of ASCII letters. */
  method BeqFold(a: bytes, b: bytes) returns (eq: bool)
    ensures eq <==> Lower(a) == Lower(b)
  {
    eq := |a| == |b|;
    if eq {
      var i := 0;
      while i < |a| && eq
        invariant 0 <= i <= |a|
        invariant eq <==> forall k :: 0 <= k < i ==> LowerByte(a[k]) == LowerByte(b[k])
      {
        eq := LowerByte(a[i]) == LowerByte(b[i]);
        i := i + 1;
      }
      if eq {
        assert Lower(a) == Lower(b);
      } else {
        var k :| 0 <= k < i && LowerByte(a[k]) != LowerByte(b[k]);
        assert Lower(a)[k] != Lower(b)[k];
      }
    }
  }

  /** lc: the in-place style lower-casing loop. */
  method Lc(b: bytes) returns (out: bytes)
    ensures out == Lower(b)
  {
    out := [];
    for i := 0 to |b|
      invariant |out| == i
      invariant forall k :: 0 <= k < i ==> out[k] == LowerByte(b[k])
    {
      var c := b[i];
      if 65 <= c <= 90 {
        c := c + 32;
      }
      out := out + [c];
    }
  }

  /** bHasPfx. */
  method HasPfx(s: bytes, prefix: bytes) returns (found: bool)
    ensures found <==> HasPrefix(s, prefix)
  {
    if |prefix| > |s| {
      return false;
    }
    for i := 0 to |prefix|
      invariant forall k :: 0 <= k < i ==> s[k] == prefix[k]
    {
      if s[i] != prefix[i] {
        return false;
      }
    }
    return true;
  }

  /** bHasSfx. */
  method HasSfx(s: bytes, suffix: bytes) returns (found: bool)
    ensures found <==> HasSuffix(s, suffix)
  {
    if |suffix| > |s| {
      return false;
    }
    var offset := |s| - |suffix|;
    for i := 0 to |suffix|
      invariant forall k :: 0 <= k < i ==> s[offset + k] == suffix[k]
    {
      if s[offset + i] != suffix[i] {
        assert s[offset..][i] != suffix[i];
        return false;
      }
    }
    return true;
  }

  /** bytesIndex: naive leftmost search. */
  method BytesIndex(s: bytes, sub: bytes) returns (r: int)
    ensures r == Index(s, sub)
  {
    var n := |sub|;
    if n == 0 {
      return 0;
    }
    if n > |s| {
      return -1;
    }
    var i := 0;
    while i <= |s| - n
      invariant 0 <= i <= |s| - n + 1
      invariant forall j :: 0 <= j < i ==> !At(s, j, sub)
    {
      var match_ := true;
      var j := 0;
      while j < n && match_
        invariant 0 <= j <= n
        invariant match_ ==> forall k :: 0 <= k < j ==> s[i + k] == sub[k]
        invariant !match_ ==> exists k :: 0 <= k < n && s[i + k] != sub[k]
      {
        if s[i + j] != sub[j] {
          match_ := false;
        }
        j := j + 1;
      }
      if match_ {
        assert s[i..i + n] == sub;
        assert At(s, i, sub);
        return i;
      }
      assert !At(s, i, sub) by {
        var k :| 0 <= k < n && s[i + k] != sub[k];
        assert s[i..i + n][k] != sub[k];
      }
      i := i + 1;
    }
    return -1;
  }

  /** The octets of `s` other than `c`: what bRepAll leaves for a one-octet pattern and an empty replacement. */
  function Without(s: bytes, c: byte): (r: bytes)
    ensures c !in r
    ensures c !in s ==> r == s
  {
    if s == [] then [] else (if s[0] == c then [] else [s[0]]) + Without(s[1..], c)
  }

  lemma {:induction false} WithoutConcat(a: bytes, b: bytes, c: byte)
    ensures Without(a + b, c) == Without(a, c) + Without(b, c)
  {
    if a == [] {
      assert a + b == b;
    } else {
      assert (a + b)[1..] == a[1..] + b;
      WithoutConcat(a[1..], b, c);
    }
  }

  lemma WithoutShort(x: byte, c: byte)
    ensures Without([], c) == []
    ensures Without([x], c) == if x == c then [] else [x]
  {
    assert [x][1..] == [];
  }

  /** bRepAll as parseItemFilter uses it: drop every occurrence of one octet. */
  method DropAll(s: bytes, c: byte) returns (out: bytes)
    ensures out == Without(s, c)
  {
    hide Without;
    WithoutShort(0, c);
    out := [];
    var i := 0;
    while i <= |s| - 1
      invariant 0 <= i <= |s|
      invariant out == Without(s[..i], c)
    {
      assert s[..i + 1] == s[..i] + [s[i]];
      WithoutConcat(s[..i], [s[i]], c);
      WithoutShort(s[i], c);
      if s[i] != c {
        out := out + [s[i]];
      }
      i := i + 1;
    }
    assert s[..i] == s;
  }

  /** Occurrences of one octet: bytes.Count for a one-octet pattern. */
  function CountOf(s: bytes, c: byte): nat {
    if s == [] then 0 else (if s[0] == c then 1 else 0) + CountOf(s[1..], c)
  }

  lemma CountOfStep(s: bytes, c: byte)
    requires s != []
    ensures CountOf(s, c) == (if s[0] == c then 1 else 0) + CountOf(s[1..], c)
  {
  }

  lemma {:induction false} CountConcat(a: bytes, b: bytes, c: byte)
    ensures CountOf(a + b, c) == CountOf(a, c) + CountOf(b, c)
  {
    hide CountOf;
    if a == [] {
      assert a + b == b;
      CountNothing(c);
    } else {
      CountOfStep(a + b, c);
      CountOfStep(a, c);
      assert (a + b)[1..] == a[1..] + b;
      CountConcat(a[1..], b, c);
    }
  }

  lemma CountNothing(c: byte)
    ensures CountOf([], c) == 0
  {
  }

  lemma {:induction false} CountAbsent(x: bytes, c: byte)
    requires c !in x
    ensures CountOf(x, c) == 0
  {
    if x != [] {
      CountAbsent(x[1..], c);
    }
  }

  lemma CountOne(x: byte, c: byte)
    ensures CountOf([x], c) == if x == c then 1 else 0
  {
    assert [x][1..] == [];
  }

  lemma {:induction false} CountPresent(x: bytes, c: byte)
    requires c in x
    ensures CountOf(x, c) > 0
  {
    CountOfStep(x, c);
    if x[0] != c {
      assert x == [x[0]] + x[1..];
      CountPresent(x[1..], c);
    }
  }
}
