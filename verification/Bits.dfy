/** Bit operations on non-negative integers, as Go's operators define them on unsigned octets. */
module Bits {
  import opened Bytes

  function Pow2(k: nat): (p: nat)
    ensures p >= 1
  {
    if k == 0 then 1 else 2 * Pow2(k - 1)
  }

  /** Bit `k`, counted from the least significant. */
  predicate Bit(n: nat, k: nat) {
    if k == 0 then n % 2 == 1 else Bit(n / 2, k - 1)
  }

  function Or(a: nat, b: nat): nat {
    if a == 0 && b == 0 then 0
    else 2 * Or(a / 2, b / 2) + if a % 2 == 1 || b % 2 == 1 then 1 else 0
  }

  function AndNot(a: nat, b: nat): nat {
    if a == 0 then 0
    else 2 * AndNot(a / 2, b / 2) + if a % 2 == 1 && b % 2 == 0 then 1 else 0
  }

  lemma {:induction false} NoBits(k: nat)
    ensures !Bit(0, k)
  {
    if k > 0 {
      NoBits(k - 1);
    }
  }

  lemma {:induction false} OrBit(a: nat, b: nat, k: nat)
    ensures Bit(Or(a, b), k) <==> Bit(a, k) || Bit(b, k)
    decreases k
  {
    if a == 0 && b == 0 {
      NoBits(k);
    } else {
      var o := Or(a, b);
      assert o / 2 == Or(a / 2, b / 2);
      if k > 0 {
        OrBit(a / 2, b / 2, k - 1);
      }
    }
  }

  lemma {:induction false} AndNotBit(a: nat, b: nat, k: nat)
    ensures Bit(AndNot(a, b), k) <==> Bit(a, k) && !Bit(b, k)
    decreases k
  {
    if a == 0 {
      NoBits(k);
    } else {
      var o := AndNot(a, b);
      assert o / 2 == AndNot(a / 2, b / 2);
      if k > 0 {
        AndNotBit(a / 2, b / 2, k - 1);
      }
    }
  }

  lemma {:induction false} PowBit(m: nat, k: nat)
    ensures Bit(Pow2(m), k) <==> k == m
    decreases k
  {
    if m == 0 {
      if k > 0 {
        NoBits(k - 1);
      }
    } else if k > 0 {
      PowBit(m - 1, k - 1);
    }
  }

  lemma {:induction false} OrBound(a: nat, b: nat, m: nat)
    requires a < Pow2(m) && b < Pow2(m)
    ensures Or(a, b) < Pow2(m)
    decreases m
  {
    if m > 0 {
      OrBound(a / 2, b / 2, m - 1);
    }
  }

  lemma {:induction false} AndNotBound(a: nat, b: nat)
    ensures AndNot(a, b) <= a
    decreases a
  {
    if a > 0 {
      AndNotBound(a / 2, b / 2);
    }
  }

  /** Operands without a common bit add up. */
  lemma {:induction false} OrIsSum(a: nat, b: nat, m: nat)
    requires b < Pow2(m)
    ensures Or(a * Pow2(m), b) == a * Pow2(m) + b
    decreases m, a
  {
    if m == 0 {
      OrNothing(a);
      assert a * Pow2(0) == a;
    } else if a == 0 && b == 0 {
      assert a * Pow2(m) == 0;
    } else {
      assert a * Pow2(m) == 2 * (a * Pow2(m - 1));
      OrIsSum(a, b / 2, m - 1);
    }
  }

  lemma {:induction false} OrNothing(a: nat)
    ensures Or(a, 0) == a
  {
    if a > 0 {
      OrNothing(a / 2);
    }
  }

  lemma Eight()
    ensures Pow2(0) == 1 && Pow2(1) == 2 && Pow2(2) == 4 && Pow2(3) == 8 && Pow2(4) == 16
    ensures Pow2(5) == 32 && Pow2(6) == 64 && Pow2(7) == 128 && Pow2(8) == 256
  {
    assert Pow2(1) == 2 * Pow2(0) && Pow2(2) == 2 * Pow2(1) && Pow2(3) == 2 * Pow2(2) && Pow2(4) == 2 * Pow2(3);
    assert Pow2(5) == 2 * Pow2(4) && Pow2(6) == 2 * Pow2(5) && Pow2(7) == 2 * Pow2(6) && Pow2(8) == 2 * Pow2(7);
  }

  // ----- octets -----

  function ByteOr(a: byte, b: byte): byte {
    Eight();
    OrBound(a, b, 8);
    Or(a, b)
  }

  function ByteAndNot(a: byte, b: byte): byte {
    AndNotBound(a, b);
    AndNot(a, b)
  }

  /** 1 << k. */
  function Mask(k: nat): byte
    requires k < 8
  {
    Eight();
    Pow2(k)
  }

  /** x << k, truncated to an octet. */
  function Left(x: byte, k: nat): byte { (x as int * Pow2(k)) % 256 }

  /** x >> k. */
  function Right(x: byte, k: nat): byte { Quotient(x, Pow2(k)) }

  function Quotient(x: byte, d: nat): byte
    requires d > 0
  {
    x as int / d
  }

  /** Octets with the same eight bits are equal. */
  lemma {:induction false} SameBits(a: nat, b: nat, m: nat)
    requires a < Pow2(m) && b < Pow2(m) && forall k :: 0 <= k < m ==> (Bit(a, k) <==> Bit(b, k))
    ensures a == b
    decreases m
  {
    if m > 0 {
      assert Bit(a, 0) <==> Bit(b, 0);
      forall k | 0 <= k < m - 1 ensures Bit(a / 2, k) <==> Bit(b / 2, k) {
        assert Bit(a, k + 1) <==> Bit(b, k + 1);
      }
      SameBits(a / 2, b / 2, m - 1);
    }
  }

  /** x & (1 << k - 1). */
  function LowBits(x: nat, k: nat): nat { x % Pow2(k) }

  predicate NoBitsBelow(x: nat, k: nat) {
    k == 0 || (!Bit(x, 0) && NoBitsBelow(x / 2, k - 1))
  }

  lemma {:induction false} NoLowBits(x: nat, k: nat)
    ensures LowBits(x, k) == 0 <==> NoBitsBelow(x, k)
    decreases k
  {
    if k > 0 {
      NoLowBits(x / 2, k - 1);
      HalfLowBits(x, Pow2(k - 1));
    }
  }

  lemma {:induction false} NoneBelow(x: nat, k: nat, j: nat)
    requires NoBitsBelow(x, k) && j < k
    ensures !Bit(x, j)
    decreases j
  {
    if j > 0 {
      NoneBelow(x / 2, k - 1, j - 1);
    }
  }

  lemma {:induction false} AllClear(x: nat, k: nat)
    requires forall j :: 0 <= j < k ==> !Bit(x, j)
    ensures NoBitsBelow(x, k)
    decreases k
  {
    if k > 0 {
      assert !Bit(x, 0);
      forall j | 0 <= j < k - 1 ensures !Bit(x / 2, j) {
        assert !Bit(x, j + 1);
      }
      AllClear(x / 2, k - 1);
    }
  }

  lemma HalfLowBits(x: nat, p: nat)
    requires p >= 1
    ensures x % (2 * p) == x % 2 + 2 * (x / 2 % p)
  {
    var q, r := x / 2 / p, x / 2 % p;
    assert x / 2 == q * p + r;
    assert x == 2 * (x / 2) + x % 2;
    assert x == q * (2 * p) + (2 * r + x % 2) by {
      assert 2 * (q * p) == q * (2 * p);
    }
    DivisionIsUnique(x, 2 * p, q, 2 * r + x % 2);
  }

  lemma DivisionIsUnique(x: int, d: int, q: int, r: int)
    requires d > 0 && x == q * d + r && 0 <= r < d
    ensures x / d == q && x % d == r
  {
    var e := x / d - q;
    assert e * d == r - x % d by {
      assert x == x / d * d + x % d;
      assert (x / d - q) * d == x / d * d - q * d;
    }
    assert e > 0 ==> e * d >= d;
    assert e < 0 ==> e * d <= -d;
  }
}
