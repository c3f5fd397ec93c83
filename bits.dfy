/**
 * Machine-word arithmetic the MMU code relies on: the 64-bit `usize` of the
 * target, powers of two, `trailing_zeros` and bitwise AND, written out on
 * unbounded integers.
 */
module Bits {

  /** One past the largest `usize` value on the 64-bit target. */
  const UsizeLimit: nat := 0x1_0000_0000_0000_0000

  /** Rust's `usize` on a 64-bit target. */
  type usize = n: nat | n < UsizeLimit

  /** 2 to the power k. */
  function Pow2(k: nat): (r: nat)
    ensures r >= 1
    ensures k > 0 ==> r % 2 == 0
  {
    if k == 0 then 1 else 2 * Pow2(k - 1)
  }

  /** `usize::is_power_of_two`: exactly one bit is set. */
  predicate IsPowerOfTwo(n: nat)
  {
    n == 1 || (n > 1 && n % 2 == 0 && IsPowerOfTwo(n / 2))
  }

  /** `usize::trailing_zeros`: the number of low zero bits; 64 for zero. */
  function TrailingZeros(n: usize): (r: nat)
    ensures r <= 64
  {
    if n == 0 then 64
    else if n % 2 == 1 then 0
    else
      // n is even and non-zero, so n has at most 63 trailing zeros
      var t := TrailingZeros(n / 2);
      if t < 64 then 1 + t else 64
  }

  /** Bitwise AND of two non-negative integers, one bit at a time. */
  function BitAnd(a: nat, b: nat): (r: nat)
    ensures r <= a && r <= b
  {
    if a == 0 || b == 0 then 0
    else 2 * BitAnd(a / 2, b / 2) + (if a % 2 == 1 && b % 2 == 1 then 1 else 0)
  }

  /** A power of two is 2 raised to its number of trailing zeros. */
  lemma {:induction false} PowerOfTwoShift(n: usize)
    requires IsPowerOfTwo(n)
    ensures TrailingZeros(n) < 64
    ensures Pow2(TrailingZeros(n)) == n
  {
    if n != 1 {
      var h: usize := n / 2;
      assert n == 2 * h && h >= 1;
      PowerOfTwoShift(h);
      var t := TrailingZeros(h);
      assert Pow2(t) == h;
      if t == 63 {
        Pow2Literal();
        assert false;
      }
      assert TrailingZeros(n) == 1 + t;
      assert Pow2(1 + t) == 2 * Pow2(t);
    }
  }

  /** Pow2 is monotonic. */
  lemma {:induction false} Pow2Grows(j: nat, k: nat)
    requires j <= k
    ensures Pow2(j) <= Pow2(k)
  {
    if j < k {
      Pow2Grows(j, k - 1);
    }
  }

  /** Eight more doublings multiply by 256. */
  lemma {:induction false} Pow2PlusEight(k: nat)
    ensures Pow2(k + 8) == 256 * Pow2(k)
  {
    if k == 0 {
      assert Pow2(1) == 2 && Pow2(2) == 4 && Pow2(3) == 8 && Pow2(4) == 16;
      assert Pow2(5) == 32 && Pow2(6) == 64 && Pow2(7) == 128 && Pow2(8) == 256;
    } else {
      Pow2PlusEight(k - 1);
      assert Pow2(k + 8) == 2 * Pow2(k + 7);
    }
  }

  /** 2^64 is the word limit. */
  lemma Pow2Literal()
    ensures Pow2(16) == 0x1_0000
    ensures Pow2(64) == UsizeLimit
  {
    Pow2PlusEight(0);
    assert Pow2(8) == 0x100;
    Pow2PlusEight(8);
    assert Pow2(16) == 0x1_0000;
    Pow2PlusEight(16);
    assert Pow2(24) == 0x100_0000;
    Pow2PlusEight(24);
    assert Pow2(32) == 0x1_0000_0000;
    Pow2PlusEight(32);
    assert Pow2(40) == 0x100_0000_0000;
    Pow2PlusEight(40);
    assert Pow2(48) == 0x1_0000_0000_0000;
    Pow2PlusEight(48);
    assert Pow2(56) == 0x100_0000_0000_0000;
    Pow2PlusEight(56);
  }

  /** Every 2^k below the word limit is a power of two with k trailing zeros. */
  lemma {:induction false} Pow2IsPowerOfTwo(k: nat)
    requires Pow2(k) < UsizeLimit
    ensures IsPowerOfTwo(Pow2(k))
    ensures TrailingZeros(Pow2(k)) == k
  {
    if k > 0 {
      var n: usize := Pow2(k);
      var h: usize := Pow2(k - 1);
      assert n == 2 * h && n / 2 == h;
      Pow2IsPowerOfTwo(k - 1);
      assert TrailingZeros(h) == k - 1;
      if k > 64 {
        Pow2Grows(64, k);
        Pow2Literal();
      }
      assert TrailingZeros(n) == 1 + TrailingZeros(h);
    }
  }

  /** A positive number times a positive count is at least the number. */
  lemma {:induction false} MultipleAtLeast(m: int, d: int)
    requires m > 0 && d >= 1
    ensures m * d >= m
  {
    if d > 1 {
      MultipleAtLeast(m, d - 1);
      assert m * d == m * (d - 1) + m;
    }
  }

  /** A multiple of a positive m strictly between -m and m is zero. */
  lemma MultipleBounded(m: int, d: int)
    requires m > 0 && -m < m * d < m
    ensures d == 0
  {
    if d > 0 {
      MultipleAtLeast(m, d);
    } else if d < 0 {
      MultipleAtLeast(m, -d);
    }
  }

  /** The remainder is the unique r with a == m * q + r and 0 <= r < m. */
  lemma ModuloUnique(a: nat, m: nat, q: nat, r: nat)
    requires m >= 1 && r < m && a == m * q + r
    ensures a % m == r
  {
    var q', r' := a / m, a % m;
    assert m * q' + r' == m * q + r;
    assert m * (q' - q) == r - r';
    MultipleBounded(m, q' - q);
  }

  /** Division by 2m splits into a division by 2 followed by one by m. */
  lemma HalveModulo(a: nat, m: nat)
    requires m >= 1
    ensures a % (2 * m) == 2 * ((a / 2) % m) + a % 2
  {
    var h := a / 2;
    var q, t := h / m, h % m;
    assert h == m * q + t;
    assert a == 2 * h + a % 2;
    assert a == (2 * m) * q + (2 * t + a % 2);
    ModuloUnique(a, 2 * m, q, 2 * t + a % 2);
  }

  /** Masking with 2^k - 1 keeps exactly the remainder modulo 2^k. */
  lemma {:induction false} MaskIsModulo(a: nat, k: nat)
    ensures BitAnd(a, Pow2(k) - 1) == a % Pow2(k)
  {
    if k == 0 {
      assert Pow2(k) == 1;
      ModuloUnique(a, 1, a, 0);
    } else if a == 0 {
      ModuloUnique(0, Pow2(k), 0, 0);
    } else {
      var p := Pow2(k - 1);
      var mask := Pow2(k) - 1;
      assert Pow2(k) == 2 * p;
      assert mask % 2 == 1 && mask / 2 == p - 1;
      var low := BitAnd(a / 2, p - 1);
      MaskIsModulo(a / 2, k - 1);
      assert low == (a / 2) % p;
      assert BitAnd(a, mask) == 2 * low + a % 2;
      HalveModulo(a, p);
      assert a % (2 * p) == 2 * low + a % 2;
    }
  }
}
