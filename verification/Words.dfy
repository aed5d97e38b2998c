/** Machine integers of the x86_64 target, the C conversions between them, and
    the bitwise operators the bridge applies to them. A register or a stack slot
    is a Word; C's int is an Int32. */
module Words {
  type Word = w: int | 0 <= w < 0x1_0000_0000_0000_0000
  type Half = h: int | 0 <= h < 0x1_0000_0000
  type Byte = b: int | 0 <= b < 0x100
  type Int32 = i: int | -0x8000_0000 <= i < 0x8000_0000
  type Int64 = i: int | -0x8000_0000_0000_0000 <= i < 0x8000_0000_0000_0000

  const MAX_WORD: Word := 0xFFFF_FFFF_FFFF_FFFF

  // ---------------------------------------------------------------- conversions

  /** The low 32 bits, as a uint32_t. */
  function Low32(x: int): Half {
    x % 0x1_0000_0000
  }

  /** Conversion to int: the low 32 bits read as a signed number. */
  function ToInt32(x: int): Int32 {
    var low := Low32(x);
    if low < 0x8000_0000 then low else low - 0x1_0000_0000
  }

  /** Conversion of a signed value to uint64_t: two's complement. */
  function ToWord(i: Int64): Word {
    if i < 0 then i + 0x1_0000_0000_0000_0000 else i
  }

  function ToInt64(w: Word): Int64 {
    if w < 0x8000_0000_0000_0000 then w else w - 0x1_0000_0000_0000_0000
  }

  /** The 64-bit object whose low and high int are `low` and `high`, as stored on a
      little-endian machine. */
  function Join(low: Int32, high: Int32): Word {
    Low32(low) + 0x1_0000_0000 * Low32(high)
  }

  lemma {:induction false} SignExtensionKeepsInt32(i: Int32)
    ensures ToInt32(ToWord(i)) == i
  {
    assert ToWord(i) % 0x1_0000_0000 == i % 0x1_0000_0000;
  }

  lemma WordRoundTrip(i: Int64)
    ensures ToInt64(ToWord(i)) == i
  {
  }

  /** Storing a 64-bit value over two adjacent ints loses nothing. */
  lemma JoinOfHalves(w: Word)
    ensures Join(ToInt32(w), ToInt32(w / 0x1_0000_0000)) == w
  {
    var high := w / 0x1_0000_0000;
    assert 0 <= high < 0x1_0000_0000;
    assert Low32(ToInt32(w)) == w % 0x1_0000_0000;
    assert Low32(ToInt32(high)) == high;
  }

  // ---------------------------------------------------------- bitwise operators

  function Pow2(k: nat): (p: nat)
    ensures p > 0
  {
    if k == 0 then 1 else 2 * Pow2(k - 1)
  }

  function BitAnd(a: nat, b: nat): (r: nat)
    ensures r <= a && r <= b
  {
    if a == 0 || b == 0 then 0
    else (if a % 2 == 1 && b % 2 == 1 then 1 else 0) + 2 * BitAnd(a / 2, b / 2)
  }

  function BitOr(a: nat, b: nat): (r: nat)
    ensures r >= a && r >= b
    ensures r <= a + b
    decreases a + b
  {
    if a == 0 then b
    else if b == 0 then a
    else (if a % 2 == 1 || b % 2 == 1 then 1 else 0) + 2 * BitOr(a / 2, b / 2)
  }

  /** Masking with k low ones keeps the remainder modulo 2^k. */
  lemma {:induction false} AndLowMask(a: nat, k: nat)
    ensures BitAnd(Pow2(k) - 1, a) == a % Pow2(k)
    decreases k
  {
    if k > 0 {
      var p := Pow2(k - 1);
      AndLowMask(a / 2, k - 1);
      HalfOfRemainder(a, p);
      assert (Pow2(k) - 1) % 2 == 1 && (Pow2(k) - 1) / 2 == p - 1;
      if p == 1 && a > 0 {
        assert BitAnd(0, a / 2) == 0;
      }
    }
  }

  lemma HalfOfRemainder(a: nat, p: nat)
    requires p > 0
    ensures a % (2 * p) == a % 2 + 2 * ((a / 2) % p)
  {
    var q, r := (a / 2) / p, (a / 2) % p;
    assert a / 2 == q * p + r;
    assert a == q * (2 * p) + (2 * r + a % 2) by {
      assert a == 2 * (a / 2) + a % 2;
      assert 2 * (q * p + r) == q * (2 * p) + 2 * r;
    }
    RemainderIs(a, 2 * p, q, 2 * r + a % 2);
  }

  lemma {:induction false} AndFullMask(a: nat, k: nat)
    requires a < Pow2(k)
    ensures BitAnd(Pow2(k) - 1, a) == a
  {
    AndLowMask(a, k);
    RemainderIs(a, Pow2(k), 0, a);
  }

  lemma SmallMultiple(t: int, d: int)
    requires -d < t * d < d
    ensures t == 0
  {
  }

  lemma RemainderIs(a: int, d: int, q: int, r: int)
    requires d > 0 && 0 <= r < d && a == q * d + r
    ensures a % d == r && a / d == q
  {
    var t := q - a / d;
    assert t * d == q * d - a / d * d;
    assert a == a / d * d + a % d;
    SmallMultiple(t, d);
  }

  lemma AndDouble(m: nat, a: nat)
    ensures BitAnd(2 * m, a) == 2 * BitAnd(m, a / 2)
  {
    if m > 0 && a > 0 {
      assert (2 * m) / 2 == m && (2 * m) % 2 == 0;
    }
  }

  /** n ones above k zeros. */
  function HighMask(k: nat, n: nat): nat {
    if k == 0 then Pow2(n) - 1 else 2 * HighMask(k - 1, n)
  }

  lemma {:induction false} HighMaskValue(k: nat, n: nat)
    ensures HighMask(k, n) == Pow2(k + n) - Pow2(k)
  {
    if k > 0 {
      HighMaskValue(k - 1, n);
    }
  }

  /** Masking with n ones above k zeros clears the k low bits of a k+n-bit value. */
  lemma {:induction false} AndHighMask(a: nat, k: nat, n: nat)
    requires a < Pow2(k + n)
    ensures BitAnd(HighMask(k, n), a) == a - a % Pow2(k)
    decreases k
  {
    if k == 0 {
      AndLowMask(a, n);
      RemainderIs(a, Pow2(n), 0, a);
    } else {
      AndHighMask(a / 2, k - 1, n);
      AndDouble(HighMask(k - 1, n), a);
      HalfOfRemainder(a, Pow2(k - 1));
    }
  }

  /** The left shift `a << k`. */
  function Shl(a: nat, k: nat): nat {
    if k == 0 then a else 2 * Shl(a, k - 1)
  }

  /** Or-ing a shifted field with a value that fits below it adds the two. */
  lemma {:induction false} OrDisjoint(a: nat, b: nat, k: nat)
    requires b < Pow2(k)
    ensures BitOr(Shl(a, k), b) == Shl(a, k) + b
    decreases k
  {
    if k > 0 {
      OrDisjoint(a, b / 2, k - 1);
    }
  }

  lemma {:induction false} PowAdd(a: nat, b: nat)
    ensures Pow2(a + b) == Pow2(a) * Pow2(b)
  {
    if a == 0 {
      assert Pow2(0) * Pow2(b) == Pow2(b);
    } else {
      PowAdd(a - 1, b);
      assert 2 * Pow2(a - 1) * Pow2(b) == 2 * (Pow2(a - 1) * Pow2(b));
    }
  }

  lemma Pow24()
    ensures Pow2(24) == 0x100_0000 && Pow2(32) == 0x1_0000_0000
  {
    assert Pow2(8) == 0x100;
    PowAdd(8, 8);
    assert Pow2(16) == 0x1_0000;
    PowAdd(8, 16);
    PowAdd(16, 16);
  }

  lemma Pow64()
    ensures Pow2(63) == 0x8000_0000_0000_0000 && Pow2(64) == 0x1_0000_0000_0000_0000
  {
    Pow24();
    PowAdd(32, 32);
    assert Pow2(64) == 2 * Pow2(63);
  }
}
