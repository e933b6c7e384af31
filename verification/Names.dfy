/** dn.go: comparison of relative distinguished names and the order of a directory tree. */
module Names {
  import opened Bytes

  /** AttributeTypeAndValue (at.go:883-886). */
  datatype Atv = Atv(typ: bytes, value: bytes)

  /** RelativeDistinguishedName: one or more pairs, in any order. */
  type Rdn = seq<Atv>

  /** DistinguishedName, leaf first, without its pre-computed text and index fields. */
  datatype Dn = Dn(rdns: seq<Rdn>, boundary: nat)

  // ----- what the comparisons mean -----

  /** What two equal pairs have in common; `fold` also disregards the case of the value (EqualFold). */
  function Key(a: Atv, fold: bool): (bytes, bytes) {
    (Lower(a.typ), if fold then Lower(a.value) else a.value)
  }

  function Keys(r: Rdn, fold: bool): (k: seq<(bytes, bytes)>)
    ensures |k| == |r|
    ensures forall i :: 0 <= i < |r| ==> k[i] == Key(r[i], fold)
  {
    seq(|r|, i requires 0 <= i < |r| => Key(r[i], fold))
  }

  /** The pairs of an RDN with their multiplicity, up to equality of pairs. */
  ghost function Bag(r: Rdn, fold: bool): multiset<(bytes, bytes)> {
    multiset(Keys(r, fold))
  }

  ghost predicate SameRdn(r: Rdn, o: Rdn, fold: bool) {
    Bag(r, fold) == Bag(o, fold)
  }

  ghost predicate SameDn(d: Dn, o: Dn, fold: bool) {
    |d.rdns| == |o.rdns| && forall i :: 0 <= i < |d.rdns| ==> SameRdn(d.rdns[i], o.rdns[i], fold)
  }

  /** `d` is what remains of `o` after dropping one or more leading RDNs. */
  ghost predicate IsAncestor(d: Dn, o: Dn, fold: bool) {
    exists k :: 0 < k <= |o.rdns| && SameDn(d, Dn(o.rdns[k..], 0), fold)
  }

  // ----- AttributeTypeAndValue.Equal and EqualFold -----

  method AtvEqual(a: Atv, o: Atv, fold: bool) returns (eq: bool)
    ensures eq <==> Key(a, fold) == Key(o, fold)
  {
    eq := BeqFold(a.typ, o.typ);
    if eq {
      if fold {
        eq := BeqFold(a.value, o.value);
      } else {
        eq := Beq(a.value, o.value);
      }
    }
  }

  // ----- hasAllAttributes -----

  /** The keys already consumed by a match. */
  ghost function Taken<K>(keys: seq<K>, matched: seq<bool>): multiset<K>
    requires |keys| == |matched|
  {
    if keys == [] then multiset{}
    else (if matched[0] then multiset{keys[0]} else multiset{}) + Taken(keys[1..], matched[1..])
  }

  lemma {:induction false} TakenNone<K>(keys: seq<K>, matched: seq<bool>)
    requires |keys| == |matched| && forall i :: 0 <= i < |matched| ==> !matched[i]
    ensures Taken(keys, matched) == multiset{}
  {
    if keys != [] {
      TakenNone(keys[1..], matched[1..]);
    }
  }

  lemma {:induction false} TakenOneMore<K>(keys: seq<K>, matched: seq<bool>, i: nat)
    requires |keys| == |matched| && i < |keys| && !matched[i]
    ensures Taken(keys, matched[i := true]) == Taken(keys, matched) + multiset{keys[i]}
  {
    if i > 0 {
      TakenOneMore(keys[1..], matched[1..], i - 1);
      assert matched[i := true][1..] == matched[1..][i - 1 := true];
    } else {
      assert matched[0 := true][1..] == matched[1..];
    }
  }

  lemma {:induction false} TakenBounds<K>(keys: seq<K>, matched: seq<bool>, k: K)
    requires |keys| == |matched|
    ensures Taken(keys, matched)[k] <= multiset(keys)[k]
    ensures (forall i :: 0 <= i < |keys| && !matched[i] ==> keys[i] != k) ==>
              Taken(keys, matched)[k] == multiset(keys)[k]
  {
    if keys != [] {
      TakenBounds(keys[1..], matched[1..], k);
      assert keys == [keys[0]] + keys[1..];
      assert multiset(keys) == multiset{keys[0]} + multiset(keys[1..]);
    }
  }

  lemma TakenIsContained<K>(keys: seq<K>, matched: seq<bool>)
    requires |keys| == |matched|
    ensures Taken(keys, matched) <= multiset(keys)
  {
    forall k | k in Taken(keys, matched) ensures Taken(keys, matched)[k] <= multiset(keys)[k] {
      TakenBounds(keys, matched, k);
    }
  }

  lemma OneMoreWanted<K>(wanted: seq<K>, n: nat)
    requires n < |wanted|
    ensures multiset(wanted[..n + 1]) == multiset(wanted[..n]) + multiset{wanted[n]}
    ensures multiset(wanted)[wanted[n]] > multiset(wanted[..n])[wanted[n]]
  {
    assert wanted[..n + 1] == wanted[..n] + [wanted[n]];
    assert wanted == wanted[..n + 1] + wanted[n + 1..];
  }

  /** A pair without unmatched partner occurs more often than it may. */
  lemma NoPartner<K>(keys: seq<K>, matched: seq<bool>, wanted: seq<K>, n: nat)
    requires |keys| == |matched| && n < |wanted|
    requires Taken(keys, matched) == multiset(wanted[..n])
    requires forall i :: 0 <= i < |keys| && !matched[i] ==> keys[i] != wanted[n]
    ensures !(multiset(wanted) <= multiset(keys))
  {
    var k := wanted[n];
    TakenBounds(keys, matched, k);
    OneMoreWanted(wanted, n);
    assert multiset(wanted)[k] > multiset(keys)[k];
  }

  /**
    Every pair of `attrs` is matched with a pair of `r` of its own, greedily from the left: this succeeds
    exactly when `attrs` is contained in `r` with multiplicity.
   */
  method HasAllAttributes(r: Rdn, attrs: Rdn, fold: bool) returns (all: bool)
    ensures all <==> Bag(attrs, fold) <= Bag(r, fold)
  {
    hide Key, Taken;
    ghost var keys, wanted := Keys(r, fold), Keys(attrs, fold);
    var matched := new bool[|r|](_ => false);
    TakenNone(keys, matched[..]);
    assert wanted[..0] == [];
    for n := 0 to |attrs|
      invariant Taken(keys, matched[..]) == multiset(wanted[..n])
    {
      var found := FindUnmatched(r, attrs[n], matched, fold);
      OneMoreWanted(wanted, n);
      if !found {
        NoPartner(keys, matched[..], wanted, n);
        return false;
      }
    }
    assert wanted[..|attrs|] == wanted;
    TakenIsContained(keys, matched[..]);
    return true;
  }

  /** The inner loop: consumes the first unmatched equal pair, if there is one. */
  method FindUnmatched(r: Rdn, attr: Atv, matched: array<bool>, fold: bool) returns (found: bool)
    requires matched.Length == |r|
    modifies matched
    ensures found ==>
              Taken(Keys(r, fold), matched[..]) == Taken(Keys(r, fold), old(matched[..])) + multiset{Key(attr, fold)}
    ensures !found ==> matched[..] == old(matched[..])
    ensures !found ==> forall i :: 0 <= i < |r| && !matched[i] ==> Keys(r, fold)[i] != Key(attr, fold)
  {
    hide Key;
    for i := 0 to |r|
      invariant matched[..] == old(matched[..])
      invariant forall j :: 0 <= j < i && !matched[j] ==> Key(r[j], fold) != Key(attr, fold)
    {
      if matched[i] {
        continue;
      }
      var eq := AtvEqual(r[i], attr, fold);
      if eq {
        TakenOneMore(Keys(r, fold), matched[..], i);
        matched[i] := true;
        assert matched[..] == old(matched[..])[i := true];
        return true;
      }
    }
    return false;
  }

  // ----- RelativeDistinguishedName.Equal, DistinguishedName.Equal, AncestorOf and their fold forms -----

  method RdnEqual(r: Rdn, o: Rdn, fold: bool) returns (eq: bool)
    ensures eq <==> SameRdn(r, o, fold)
  {
    eq := false;
    assert |Bag(r, fold)| == |r| && |Bag(o, fold)| == |o|;
    if |r| == |o| {
      eq := HasAllAttributes(r, o, fold);
      if eq {
        eq := HasAllAttributes(o, r, fold);
      }
    }
  }

  method DnEqual(d: Dn, o: Dn, fold: bool) returns (eq: bool)
    ensures eq <==> SameDn(d, o, fold)
  {
    hide SameRdn;
    eq := |d.rdns| == |o.rdns|;
    if eq {
      var i := 0;
      while i < |d.rdns| && eq
        invariant 0 <= i <= |d.rdns|
        invariant eq <==> forall k :: 0 <= k < i ==> SameRdn(d.rdns[k], o.rdns[k], fold)
      {
        eq := RdnEqual(d.rdns[i], o.rdns[i], fold);
        i := i + 1;
      }
    }
  }

  method AncestorOf(d: Dn, o: Dn, fold: bool) returns (ok: bool)
    ensures ok <==> IsAncestor(d, o, fold)
  {
    hide SameRdn;
    if |d.rdns| >= |o.rdns| {
      return false;
    }
    var k := |o.rdns| - |d.rdns|;
    var others := o.rdns[k..];
    assert IsAncestor(d, o, fold) <==> SameDn(d, Dn(others, 0), fold);
    for i := 0 to |d.rdns|
      invariant forall j :: 0 <= j < i ==> SameRdn(d.rdns[j], others[j], fold)
    {
      var eq := RdnEqual(d.rdns[i], others[i], fold);
      if !eq {
        return false;
      }
    }
    return true;
  }

  // ----- laws -----

  /** Case-exact equality is the finer of the two, and both are equivalences on names. */
  lemma SameDnIsEquivalence(a: Dn, b: Dn, c: Dn, fold: bool)
    ensures SameDn(a, a, fold)
    ensures SameDn(a, b, fold) ==> SameDn(b, a, fold)
    ensures SameDn(a, b, fold) && SameDn(b, c, fold) ==> SameDn(a, c, fold)
    ensures SameDn(a, b, false) ==> SameDn(a, b, true)
  {
    if SameDn(a, b, false) {
      forall i | 0 <= i < |a.rdns| ensures SameRdn(a.rdns[i], b.rdns[i], true) {
        FoldIsCoarser(a.rdns[i], b.rdns[i]);
      }
    }
  }

  function FoldKey(k: (bytes, bytes)): (bytes, bytes) { (k.0, Lower(k.1)) }

  function Remove<K>(t: seq<K>, i: nat): seq<K>
    requires i < |t|
  {
    t[..i] + t[i + 1..]
  }

  lemma RemoveBag<K>(t: seq<K>, i: nat)
    requires i < |t|
    ensures multiset(t) == multiset(Remove(t, i)) + multiset{t[i]}
    ensures multiset(Remove(t, i)) == multiset(t) - multiset{t[i]}
  {
    assert t == t[..i] + [t[i]] + t[i + 1..];
  }

  lemma MapRemove<K, L>(f: K -> L, t: seq<K>, i: nat)
    requires i < |t|
    ensures Map(f, Remove(t, i)) == Remove(Map(f, t), i)
  {
  }

  lemma {:induction false} MapBag<K, L>(f: K -> L, s: seq<K>, t: seq<K>)
    requires multiset(s) == multiset(t)
    ensures multiset(Map(f, s)) == multiset(Map(f, t))
    decreases |s|
  {
    hide Map;
    assert |s| == |multiset(s)| == |multiset(t)| == |t|;
    if s != [] {
      assert s[0] in multiset(t);
      var i :| 0 <= i < |t| && t[i] == s[0];
      RemoveBag(s, 0);
      RemoveBag(t, i);
      MapBag(f, Remove(s, 0), Remove(t, i));
      MapRemove(f, s, 0);
      MapRemove(f, t, i);
      RemoveBag(Map(f, s), 0);
      RemoveBag(Map(f, t), i);
    }
  }

  function Map<K, L>(f: K -> L, s: seq<K>): (r: seq<L>)
    ensures |r| == |s|
    ensures forall i :: 0 <= i < |s| ==> r[i] == f(s[i])
  {
    seq(|s|, i requires 0 <= i < |s| => f(s[i]))
  }

  lemma FoldIsCoarser(r: Rdn, o: Rdn)
    ensures SameRdn(r, o, false) ==> SameRdn(r, o, true)
  {
    if SameRdn(r, o, false) {
      MapBag(FoldKey, Keys(r, false), Keys(o, false));
      assert Map(FoldKey, Keys(r, false)) == Keys(r, true);
      assert Map(FoldKey, Keys(o, false)) == Keys(o, true);
    }
  }

  /** The ancestor relation is a strict partial order on names up to equality. */
  lemma AncestorIsStrictOrder(a: Dn, b: Dn, c: Dn, fold: bool)
    ensures !IsAncestor(a, a, fold)
    ensures IsAncestor(a, b, fold) && IsAncestor(b, c, fold) ==> IsAncestor(a, c, fold)
    ensures IsAncestor(a, b, fold) ==> !IsAncestor(b, a, fold)
    ensures IsAncestor(a, b, fold) && SameDn(a, c, fold) ==> IsAncestor(c, b, fold)
    ensures IsAncestor(a, b, fold) && SameDn(b, c, fold) ==> IsAncestor(a, c, fold)
  {
    hide SameRdn;
    if IsAncestor(a, b, fold) {
      var k :| 0 < k <= |b.rdns| && SameDn(a, Dn(b.rdns[k..], 0), fold);
      if IsAncestor(b, c, fold) {
        var l :| 0 < l <= |c.rdns| && SameDn(b, Dn(c.rdns[l..], 0), fold);
        SuffixesAgree(b, c.rdns[l..], k, fold);
        assert c.rdns[l..][k..] == c.rdns[k + l..];
        SameDnIsEquivalence(a, Dn(b.rdns[k..], 0), Dn(c.rdns[k + l..], 0), fold);
      }
      if SameDn(a, c, fold) {
        SameDnIsEquivalence(a, c, c, fold);
        SameDnIsEquivalence(c, a, Dn(b.rdns[k..], 0), fold);
      }
      if SameDn(b, c, fold) {
        SuffixesAgree(b, c.rdns, k, fold);
        SameDnIsEquivalence(a, Dn(b.rdns[k..], 0), Dn(c.rdns[k..], 0), fold);
      }
    }
  }

  lemma SuffixesAgree(b: Dn, rdns: seq<Rdn>, k: nat, fold: bool)
    requires SameDn(b, Dn(rdns, 0), fold) && k <= |b.rdns|
    ensures SameDn(Dn(b.rdns[k..], 0), Dn(rdns[k..], 0), fold)
  {
    hide SameRdn;
    forall i | 0 <= i < |b.rdns| - k ensures SameRdn(b.rdns[k..][i], rdns[k..][i], fold) {
      assert SameRdn(b.rdns[k + i], rdns[k + i], fold);
    }
  }

  // ----- Superior, Root -----

  datatype Superior = Superior(name: Dn, boundaryExceeded: bool)

  /** DistinguishedName.Superior: the name itself at the root, or with an error below the boundary. */
  function SuperiorOf(d: Dn): Superior {
    if |d.rdns| <= 1 then Superior(d, false)
    else if |d.rdns| - 1 < d.boundary then Superior(d, true)
    else Superior(Dn(d.rdns[1..], d.boundary), false)
  }

  /** An ancestor exactly when there is a level above and the boundary allows it. */
  lemma SuperiorIsAncestor(d: Dn, fold: bool)
    ensures IsAncestor(SuperiorOf(d).name, d, fold) <==> |d.rdns| > 1 && d.boundary < |d.rdns|
    ensures SuperiorOf(d).boundaryExceeded <==> |d.rdns| > 1 && d.boundary >= |d.rdns|
    ensures SuperiorOf(d).boundaryExceeded ==> SuperiorOf(d).name == d
  {
    var s := SuperiorOf(d).name;
    AncestorIsStrictOrder(d, d, d, fold);
    if |d.rdns| > 1 && d.boundary < |d.rdns| {
      SameDnIsEquivalence(s, s, s, fold);
      assert SameDn(s, Dn(d.rdns[1..], 0), fold);
    }
  }

  /** DistinguishedName.Root for a name without boundary. */
  function RootOf(d: Dn): Dn
    requires d.boundary == 0
  {
    if d.rdns == [] then Dn([], 0) else Dn([d.rdns[|d.rdns| - 1]], 0)
  }

  /** `cn=A` and `cn=a` are equal up to case only, while the case of a type never matters. */
  lemma CaseOfValues()
    ensures var upper, lower, typed := Dn([[Atv([99, 110], [65])]], 0), Dn([[Atv([99, 110], [97])]], 0),
                                       Dn([[Atv([67, 78], [97])]], 0);
            SameDn(upper, lower, true) && !SameDn(upper, lower, false) && SameDn(typed, lower, false)
  {
    var upper, lower, typed := Atv([99, 110], [65]), Atv([99, 110], [97]), Atv([67, 78], [97]);
    assert Lower([65]) == [97] == Lower([97]);
    assert Lower([67, 78]) == [99, 110] == Lower([99, 110]);
    OneLevel(upper, lower, true);
    OneLevel(typed, lower, false);
    OneLevel(upper, lower, false);
    assert Key(upper, false).1 != Key(lower, false).1;
  }

  lemma OneLevel(a: Atv, o: Atv, fold: bool)
    ensures SameDn(Dn([[a]], 0), Dn([[o]], 0), fold) <==> Key(a, fold) == Key(o, fold)
  {
    hide SameRdn, Key;
    OnePair(a, o, fold);
    assert Dn([[a]], 0).rdns[0] == [a] && Dn([[o]], 0).rdns[0] == [o];
  }

  lemma OnePair(a: Atv, o: Atv, fold: bool)
    ensures SameRdn([a], [o], fold) <==> Key(a, fold) == Key(o, fold)
  {
    hide Key;
    assert Keys([a], fold) == [Key(a, fold)] && Keys([o], fold) == [Key(o, fold)];
    assert Key(a, fold) in multiset([Key(a, fold)]);
    assert Key(a, fold) in multiset([Key(o, fold)]) ==> Key(a, fold) == Key(o, fold);
  }
}
