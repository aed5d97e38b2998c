/** A number seen through its bits: membership, union and intersection. */
module Bits {
  import opened Words

  predicate Has(x: nat, k: nat) {
    if k == 0 then x % 2 == 1 else Has(x / 2, k - 1)
  }

  lemma {:induction false} HasOr(a: nat, b: nat, k: nat)
    ensures Has(BitOr(a, b), k) <==> Has(a, k) || Has(b, k)
    decreases k
  {
    if a == 0 {
      ZeroHasNone(k);
    } else if b == 0 {
      ZeroHasNone(k);
    } else if k > 0 {
      HasOr(a / 2, b / 2, k - 1);
    }
  }

  lemma {:induction false} HasAnd(a: nat, b: nat, k: nat)
    ensures Has(BitAnd(a, b), k) <==> Has(a, k) && Has(b, k)
    decreases k
  {
    if a == 0 || b == 0 {
      ZeroHasNone(k);
    } else if k > 0 {
      HasAnd(a / 2, b / 2, k - 1);
    }
  }

  lemma {:induction false} ZeroHasNone(k: nat)
    ensures !Has(0, k)
  {
    if k > 0 {
      ZeroHasNone(k - 1);
    }
  }

  lemma {:induction false} SingleHas(b: nat, k: nat)
    ensures Has(Pow2(b), k) <==> b == k
  {
    if b == 0 && k > 0 {
      assert Pow2(0) / 2 == 0;
      ZeroHasNone(k - 1);
    } else if b > 0 && k > 0 {
      SingleHas(b - 1, k - 1);
    }
  }

  /** The C test `x & (1 << k)`. */
  lemma {:induction false} TestBit(x: nat, k: nat)
    ensures BitAnd(x, Pow2(k)) != 0 <==> Has(x, k)
  {
    if k == 0 {
      assert x > 0 ==> BitAnd(x / 2, 0) == 0;
    } else if x == 0 {
      ZeroHasNone(k);
    } else {
      TestBit(x / 2, k - 1);
    }
  }

  /** Numbers with the same bits are equal. */
  lemma {:induction false} SameBits(a: nat, b: nat)
    requires forall k: nat :: Has(a, k) <==> Has(b, k)
    ensures a == b
    decreases a + b
  {
    if a > 0 || b > 0 {
      assert Has(a, 0) <==> Has(b, 0);
      forall k: nat
        ensures Has(a / 2, k) <==> Has(b / 2, k)
      {
        assert Has(a, k + 1) <==> Has(b, k + 1);
      }
      SameBits(a / 2, b / 2);
    }
  }
}
