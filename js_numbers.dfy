/**
 * The JavaScript number operations that the generated protobuf runtime relies on,
 * over integer-valued numbers. JavaScript's bitwise operators first convert their
 * operands to 32-bit integers (ToInt32 / ToUint32), work on the 32-bit patterns and
 * return a signed 32-bit result; `>>>` returns an unsigned one. These are written
 * out here, so that wrap-around is explicit.
 *
 * Shifting by a variable amount is written as repeated doubling (`Scaled`), so that
 * every fact below is a fact of linear arithmetic.
 */
module JsNumbers {

  const TwoTo31: int := 0x8000_0000
  const TwoTo32: int := 0x1_0000_0000

  /** x * 2^k, one doubling at a time. */
  function Scaled(x: nat, k: nat): nat
    decreases k
  {
    if k == 0 then x else 2 * Scaled(x, k - 1)
  }

  function Pow2(k: nat): (r: nat)
    ensures r >= 1
  {
    ScaledAtLeast(1, k);
    Scaled(1, k)
  }

  /** ToUint32: the 32-bit pattern of an integer-valued number. */
  function ToUint32(x: int): (r: nat)
    ensures r < TwoTo32
    ensures 0 <= x < TwoTo32 ==> r == x
  {
    x % TwoTo32
  }

  /** ToInt32: the signed reading of the 32-bit pattern of an integer-valued number. */
  function ToInt32(x: int): (r: int)
    ensures -TwoTo31 <= r < TwoTo31
    ensures ToUint32(r) == ToUint32(x)
    ensures 0 <= x < TwoTo31 ==> r == x
    ensures TwoTo31 <= x < TwoTo32 ==> r == x - TwoTo32
  {
    var u := ToUint32(x);
    if u >= TwoTo31 then u - TwoTo32 else u
  }

  /** Bitwise or of two non-negative integers, one binary digit at a time. */
  function BitOr(a: nat, b: nat): nat
    decreases a + b
  {
    if a == 0 then b
    else if b == 0 then a
    else (if a % 2 == 1 || b % 2 == 1 then 1 else 0) + 2 * BitOr(a / 2, b / 2)
  }

  /** `x | y` */
  function Or(x: int, y: int): int {
    ToInt32(BitOr(ToUint32(x), ToUint32(y)))
  }

  /** `x & (2^k - 1)`, a mask of the k low bits (k <= 31, so the mask is a positive int32). */
  function LowBits(x: int, k: nat): nat
    requires k <= 31
  {
    var modulus := Pow2(k);
    ToUint32(x) % modulus
  }

  /** `x << s`: the shift count is taken modulo 32, the bits from bit 32 up are dropped
      and the result is read as a signed 32-bit integer. */
  function ShiftLeft(x: int, s: int): int {
    ToInt32(Scaled(ToUint32(x), ToUint32(s) % 32))
  }

  /** u / 2^n, one halving at a time. */
  function Halved(u: nat, n: nat): nat
    decreases n
  {
    if n == 0 then u else Halved(u / 2, n - 1)
  }

  /** `x >>> s`: the shift count is taken modulo 32 and the result is unsigned. */
  function ShiftRightUnsigned(x: int, s: int): nat {
    Halved(ToUint32(x), ToUint32(s) % 32)
  }

  // ---------------------------------------------------------------------------
  // Doubling

  lemma Pow2Small()
    ensures Pow2(0) == 1 && Pow2(3) == 8 && Pow2(7) == 0x80 && Pow2(8) == 0x100
  {
  }

  lemma Pow2Of32()
    ensures Pow2(32) == TwoTo32
  {
    ScaledCompose(1, 8, 8);
    assert Scaled(1, 16) == 0x1_0000 by {
      assert Scaled(0x100, 8) == 0x1_0000;
    }
    ScaledCompose(1, 16, 8);
    assert Scaled(1, 24) == 0x100_0000 by {
      assert Scaled(0x1_0000, 8) == 0x100_0000;
    }
    ScaledCompose(1, 24, 8);
    assert Scaled(0x100_0000, 8) == TwoTo32;
  }

  /** One more doubling can be done first. */
  lemma {:induction false} ScaledStep(x: nat, k: nat)
    ensures Scaled(x, k + 1) == Scaled(2 * x, k)
    decreases k
  {
    if k > 0 {
      ScaledStep(x, k - 1);
    }
  }

  lemma {:induction false} ScaledAdd(x: nat, y: nat, k: nat)
    ensures Scaled(x, k) + Scaled(y, k) == Scaled(x + y, k)
    decreases k
  {
    if k > 0 {
      ScaledAdd(x, y, k - 1);
    }
  }

  lemma {:induction false} ScaledMonotone(x: nat, y: nat, k: nat)
    requires x <= y
    ensures Scaled(x, k) <= Scaled(y, k)
    decreases k
  {
    if k > 0 {
      ScaledMonotone(x, y, k - 1);
    }
  }

  lemma {:induction false} ScaledAtLeast(x: nat, k: nat)
    ensures Scaled(x, k) >= x
    ensures x > 0 ==> Scaled(x, k) > 0
    decreases k
  {
    if k > 0 {
      ScaledAtLeast(x, k - 1);
    }
  }

  lemma {:induction false} ScaledCompose(x: nat, j: nat, k: nat)
    ensures Scaled(Scaled(x, j), k) == Scaled(x, j + k)
    decreases k
  {
    if k > 0 {
      ScaledCompose(x, j, k - 1);
    }
  }

  lemma {:induction false} Pow2Monotone(j: nat, k: nat)
    requires j <= k
    ensures Pow2(j) <= Pow2(k)
    decreases k - j
  {
    if j < k {
      Pow2Monotone(j, k - 1);
      ScaledAtLeast(1, k - 1);
    }
  }

  /** 2^k (x + 1) - 1 is the largest number whose bits from k up spell x. */
  lemma LowPartBound(a: nat, x: nat, k: nat)
    requires a < Pow2(k)
    ensures a + Scaled(x, k) < Scaled(x + 1, k)
  {
    ScaledAdd(x, 1, k);
  }

  // ---------------------------------------------------------------------------
  // Or

  lemma BitOrZero(b: nat)
    ensures BitOr(b, 0) == b && BitOr(0, b) == b
  {
  }

  lemma {:induction false} BitOrCommutes(a: nat, b: nat)
    ensures BitOr(a, b) == BitOr(b, a)
    decreases a + b
  {
    if a != 0 && b != 0 {
      BitOrCommutes(a / 2, b / 2);
    }
  }

  /** Or-ing a multiple of 2^k into a number a + 2^k c, with a below 2^k, keeps the low
      part a and or-s the high parts. */
  lemma {:induction false} BitOrHigh(a: nat, c: nat, d: nat, k: nat)
    requires a < Pow2(k)
    ensures BitOr(a + Scaled(c, k), Scaled(d, k)) == a + Scaled(BitOr(c, d), k)
    decreases k
  {
    if k == 0 {
    } else if d == 0 {
      ScaledAtLeast(0, k);
      assert Scaled(0, k) == 0 by { ScaledAdd(0, 0, k); }
      BitOrZero(a + Scaled(c, k));
      BitOrZero(c);
    } else {
      var n := a + Scaled(c, k);
      var m := Scaled(d, k);
      ScaledAtLeast(d, k);
      assert n / 2 == a / 2 + Scaled(c, k - 1) && n % 2 == a % 2;
      assert m / 2 == Scaled(d, k - 1) && m % 2 == 0;
      BitOrHigh(a / 2, c, d, k - 1);
      if n == 0 {
        BitOrZero(d);
        assert c == 0 by { ScaledAtLeast(c, k); }
      }
    }
  }

  /** Bits that do not overlap: or-ing a number below 2^k into a multiple of 2^k adds them. */
  lemma BitOrDisjoint(a: nat, d: nat, k: nat)
    requires a < Pow2(k)
    ensures BitOr(a, Scaled(d, k)) == a + Scaled(d, k)
  {
    BitOrHigh(a, 0, d, k);
    ScaledAdd(0, 0, k);
    BitOrZero(d);
  }
}
