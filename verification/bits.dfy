/** Python's integer bit operations on unbounded integers, defined one halving or
    doubling at a time so that their properties follow by induction. A negative
    integer behaves as an infinite two's-complement word, as in Python. */
module Bits {

  function Pow2(n: nat): (r: nat)
    ensures r >= 1
  {
    if n == 0 then 1 else 2 * Pow2(n - 1)
  }

  /** `v >> s`: floor division by 2^s. */
  function Shr(v: int, s: nat): int
    decreases s
  {
    if s == 0 then v else Shr(v / 2, s - 1)
  }

  /** `v << s`. */
  function Shl(v: int, s: nat): int
    decreases s
  {
    if s == 0 then v else Shl(2 * v, s - 1)
  }

  /** `v & (2^w - 1)`: the `w` lowest bits of `v`. */
  function Low(v: int, w: nat): (r: nat)
    ensures r < Pow2(w)
    decreases w
  {
    if w == 0 then 0 else v % 2 + 2 * Low(v / 2, w - 1)
  }

  /** Bit `i` of `v` is set. */
  predicate Bit(v: int, i: nat)
  {
    Shr(v, i) % 2 == 1
  }

  /** `getbits(v, s, e)`: bits `s` to `e` of `v`, inclusive, moved down to bit 0. */
  function GetBits(v: int, s: nat, e: nat): (r: nat)
    requires s <= e
    ensures r < Pow2(e - s + 1)
  {
    Low(Shr(v, s), e - s + 1)
  }

  /** `x | y` on non-negative integers. */
  function BitOr(x: nat, y: nat): nat
    decreases x + y
  {
    if x == 0 && y == 0 then 0
    else 2 * BitOr(x / 2, y / 2) + (if x % 2 == 1 || y % 2 == 1 then 1 else 0)
  }

  // ---------------------------------------------------------------------------
  // Which bits each operation sets

  lemma {:induction false} NoBitOfZero(i: nat)
    ensures !Bit(0, i)
    ensures Shr(0, i) == 0
  {
    if i > 0 {
      NoBitOfZero(i - 1);
    }
  }

  /** `-1` has every bit set: shifting it right leaves it as it is. */
  lemma {:induction false} MinusOneBits(i: nat)
    ensures Shr(-1, i) == -1 && Bit(-1, i)
    decreases i
  {
    if i > 0 {
      MinusOneBits(i - 1);
    }
  }

  /** Shifting right by `s` moves bit `s + i` to bit `i`. */
  lemma {:induction false} ShrBit(v: int, s: nat, i: nat)
    ensures Bit(Shr(v, s), i) <==> Bit(v, s + i)
    ensures Shr(Shr(v, s), i) == Shr(v, s + i)
    decreases s
  {
    if s > 0 {
      ShrBit(v / 2, s - 1, i);
    }
  }

  /** Shifting left by `k` moves bit `i - k` to bit `i` and clears the bits below `k`. */
  lemma {:induction false} ShlBit(v: int, k: nat, i: nat)
    ensures Bit(Shl(v, k), i) <==> k <= i && Bit(v, i - k)
    decreases k
  {
    if k > 0 {
      ShlBit(2 * v, k - 1, i);
      if i >= k {
        assert Bit(2 * v, i - k + 1) == Bit(v, i - k) by {
          assert Shr(2 * v, i - k + 1) == Shr(v, i - k);
        }
      } else if i == k - 1 {
        assert Shr(2 * v, 0) % 2 == 0;
      }
    }
  }

  /** Masking to `w` bits keeps exactly the bits below `w`. */
  lemma {:induction false} LowBit(v: int, w: nat, i: nat)
    ensures Bit(Low(v, w), i) <==> i < w && Bit(v, i)
    decreases w
  {
    if w == 0 {
      NoBitOfZero(i);
    } else if i > 0 {
      LowBit(v / 2, w - 1, i - 1);
      assert Shr(Low(v, w), i) == Shr(Low(v / 2, w - 1), i - 1) by {
        assert Low(v, w) / 2 == Low(v / 2, w - 1);
      }
    }
  }

  /** A bit of `x | y` is set exactly when it is set in `x` or in `y`. */
  lemma {:induction false} BitOrBit(x: nat, y: nat, i: nat)
    ensures Bit(BitOr(x, y), i) <==> Bit(x, i) || Bit(y, i)
    decreases x + y
  {
    if x == 0 && y == 0 {
      NoBitOfZero(i);
    } else if i > 0 {
      BitOrBit(x / 2, y / 2, i - 1);
      assert Shr(BitOr(x, y), i) == Shr(BitOr(x / 2, y / 2), i - 1) by {
        assert BitOr(x, y) / 2 == BitOr(x / 2, y / 2);
      }
    }
  }

  /** `x | y` of two `n`-bit values is an `n`-bit value. */
  lemma {:induction false} BitOrBound(x: nat, y: nat, n: nat)
    requires x < Pow2(n) && y < Pow2(n)
    ensures BitOr(x, y) < Pow2(n)
    decreases n
  {
    if n > 0 && !(x == 0 && y == 0) {
      BitOrBound(x / 2, y / 2, n - 1);
    }
  }

  /** `0 | y == y`. */
  lemma {:induction false} BitOrZero(y: nat)
    ensures BitOr(0, y) == y
    decreases y
  {
    if y != 0 {
      BitOrZero(y / 2);
    }
  }

  /** Shifting left multiplies by a power of two. */
  lemma {:induction false} ShlMul(v: int, k: nat)
    ensures Shl(v, k) == v * Pow2(k)
    decreases k
  {
    if k > 0 {
      ShlMul(2 * v, k - 1);
      assert 2 * v * Pow2(k - 1) == v * (2 * Pow2(k - 1));
    }
  }

  /** A field of `getbits(v, s, e)` shifted left by `k` holds bits `s..e` of `v`
      at bits `k..k + e - s` and nothing else. */
  lemma FieldBit(v: int, s: nat, e: nat, k: nat, i: nat)
    requires s <= e
    ensures Bit(Shl(GetBits(v, s, e), k), i) <==> k <= i <= k + e - s && Bit(v, i - k + s)
  {
    ShlBit(GetBits(v, s, e), k, i);
    if k <= i {
      LowBit(Shr(v, s), e - s + 1, i - k);
      ShrBit(v, s, i - k);
    }
  }

  /** A field shifted left by `k` lies below bit `k + e - s + 1`. */
  lemma FieldBound(v: int, s: nat, e: nat, k: nat)
    requires s <= e
    ensures 0 <= Shl(GetBits(v, s, e), k) < Pow2(k + e - s + 1)
  {
    var g := GetBits(v, s, e);
    ShlMul(g, k);
    PowAdd(k, e - s + 1);
    assert k + e - s + 1 == k + (e - s + 1);
    MulLess(g, Pow2(e - s + 1), Pow2(k));
  }

  lemma MulLess(a: nat, b: nat, c: nat)
    requires a < b && 1 <= c
    ensures a * c < b * c
  {
    assert b * c == a * c + (b - a) * c;
  }

  lemma {:induction false} PowAdd(a: nat, b: nat)
    ensures Pow2(a) * Pow2(b) == Pow2(a + b)
    decreases a
  {
    if a > 0 {
      PowAdd(a - 1, b);
      assert Pow2(a) * Pow2(b) == 2 * (Pow2(a - 1) * Pow2(b));
    }
  }

  lemma PowMono(a: nat, b: nat)
    requires a <= b
    ensures Pow2(a) <= Pow2(b)
  {
    PowAdd(a, b - a);
  }
}
