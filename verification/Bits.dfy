/** Unsigned machine words read as natural numbers, bit by bit. Shifts, masks and the bitwise
    operators of the source are defined by recursion on the binary digits, so every fact about
    them below is proved from the digits up. */
module Bits {

  type byte = b: nat | b < 256

  /** 1 << k */
  function Pow2(k: nat): (r: nat)
    ensures r >= 1
  {
    if k == 0 then 1 else 2 * Pow2(k - 1)
  }

  /** n >> k */
  function Shr(n: nat, k: nat): nat {
    if k == 0 then n else Shr(n / 2, k - 1)
  }

  /** (n >> i) & 1 */
  predicate Bit(n: nat, i: nat) {
    Shr(n, i) % 2 == 1
  }

  predicate XorBit(x: bool, y: bool) { x != y }
  predicate AndBit(x: bool, y: bool) { x && y }
  predicate OrBit(x: bool, y: bool) { x || y }
  predicate NotAndBit(x: bool, y: bool) { !x && y }

  /** Applies f digit by digit. */
  function Bitwise(f: (bool, bool) -> bool, a: nat, b: nat): nat
    requires !f(false, false)
    decreases a + b
  {
    if a == 0 && b == 0 then 0
    else 2 * Bitwise(f, a / 2, b / 2) + (if f(a % 2 == 1, b % 2 == 1) then 1 else 0)
  }

  /** a ^ b */
  function Xor(a: nat, b: nat): nat { Bitwise(XorBit, a, b) }

  /** a & b */
  function And(a: nat, b: nat): nat { Bitwise(AndBit, a, b) }

  /** a | b */
  function Or(a: nat, b: nat): nat { Bitwise(OrBit, a, b) }

  /** (~a) & b */
  function NotAnd(a: nat, b: nat): nat { Bitwise(NotAndBit, a, b) }

  /** Whether the number of one bits is odd. */
  predicate Parity(n: nat) {
    n != 0 && ((n % 2 == 1) != Parity(n / 2))
  }

  lemma {:induction false} ShrZero(i: nat)
    ensures Shr(0, i) == 0
  {
    if i > 0 { ShrZero(i - 1); }
  }

  lemma {:induction false} ShrDiv(n: nat, k: nat)
    ensures Shr(n, k) == n / Pow2(k)
    decreases k
  {
    if k > 0 {
      ShrDiv(n / 2, k - 1);
      DivDiv(n, Pow2(k - 1));
    }
  }

  lemma {:induction false} ShrShr(n: nat, a: nat, b: nat)
    ensures Shr(n, a + b) == Shr(Shr(n, a), b)
    decreases a
  {
    if a > 0 { ShrShr(n / 2, a - 1, b); }
  }

  /** The digits below k do not depend on what is above them. */
  lemma {:induction false} LowDigits(a: nat, high: nat, k: nat, i: nat)
    requires i < k
    ensures Bit(a + Pow2(k) * high, i) == Bit(a, i)
    decreases i
  {
    assert a + Pow2(k) * high == a + 2 * (Pow2(k - 1) * high);
    if i > 0 { LowDigits(a / 2, high, k - 1, i - 1); }
  }

  /** A digit by division. */
  lemma BitValue(n: nat, i: nat)
    ensures Bit(n, i) <==> n / Pow2(i) % 2 == 1
  {
    ShrDiv(n, i);
  }

  lemma DivDiv(n: nat, m: nat)
    requires m >= 1
    ensures n / 2 / m == n / (2 * m)
  {
    var q, r := n / 2 / m, n / 2 % m;
    assert n / 2 == q * m + r;
    assert n == q * (2 * m) + (2 * r + n % 2);
    QuotientUnique(n, 2 * m, q, 2 * r + n % 2);
  }

  lemma QuotientUnique(n: int, d: int, q: int, r: int)
    requires n == q * d + r && 0 <= r < d
    ensures n / d == q && n % d == r
  {
    MulAtLeast(q - n / d, d);
    MulAtLeast(n / d - q, d);
    assert (q - n / d) * d == n % d - r;
  }

  lemma MulAtLeast(k: int, d: int)
    requires d > 0
    ensures k >= 1 ==> k * d >= d
    ensures k <= 0 ==> k * d <= 0
  {
  }

  lemma {:induction false} BitwiseBit(f: (bool, bool) -> bool, a: nat, b: nat, i: nat)
    requires !f(false, false)
    ensures Bit(Bitwise(f, a, b), i) == f(Bit(a, i), Bit(b, i))
    decreases i
  {
    if a == 0 && b == 0 {
      ShrZero(i);
    } else {
      BitwiseHalf(f, a, b);
      if i > 0 { BitwiseBit(f, a / 2, b / 2, i - 1); }
    }
  }

  lemma BitwiseHalf(f: (bool, bool) -> bool, a: nat, b: nat)
    requires !f(false, false)
    ensures Bitwise(f, a, b) / 2 == Bitwise(f, a / 2, b / 2)
    ensures (Bitwise(f, a, b) % 2 == 1) == f(a % 2 == 1, b % 2 == 1)
  {
    Halve(Bitwise(f, a / 2, b / 2), if f(a % 2 == 1, b % 2 == 1) then 1 else 0);
  }

  lemma Halve(q: nat, digit: nat)
    requires digit < 2
    ensures (2 * q + digit) / 2 == q && (2 * q + digit) % 2 == digit
  {
  }

  /** Two numbers with the same digits are the same number. */
  lemma {:induction false} SameBits(a: nat, b: nat)
    requires forall i: nat :: Bit(a, i) == Bit(b, i)
    ensures a == b
    decreases a + b
  {
    assert Bit(a, 0) == Bit(b, 0);
    if a != 0 || b != 0 {
      forall i: nat ensures Bit(a / 2, i) == Bit(b / 2, i) {
        assert Bit(a, i + 1) == Bit(b, i + 1);
      }
      SameBits(a / 2, b / 2);
    }
  }

  lemma {:induction false} HighBits(a: nat, n: nat, i: nat)
    requires a < Pow2(n) && n <= i
    ensures !Bit(a, i)
    decreases i
  {
    if n == 0 {
      ShrZero(i);
    } else {
      HighBits(a / 2, n - 1, i - 1);
    }
  }

  /** The first n digits decide a number below 2^n. */
  lemma SameLowBits(a: nat, b: nat, n: nat)
    requires a < Pow2(n) && b < Pow2(n)
    requires forall i: nat :: i < n ==> Bit(a, i) == Bit(b, i)
    ensures a == b
  {
    forall i: nat ensures Bit(a, i) == Bit(b, i) {
      if i >= n {
        HighBits(a, n, i);
        HighBits(b, n, i);
      }
    }
    SameBits(a, b);
  }

  lemma {:induction false} BitwiseBound(f: (bool, bool) -> bool, a: nat, b: nat, n: nat)
    requires !f(false, false) && a < Pow2(n) && b < Pow2(n)
    ensures Bitwise(f, a, b) < Pow2(n)
    decreases n
  {
    if n > 0 && (a != 0 || b != 0) {
      BitwiseBound(f, a / 2, b / 2, n - 1);
    }
  }

  /** The digits of 2^n - 1. */
  lemma {:induction false} MaskBit(n: nat, i: nat)
    ensures Bit(Pow2(n) - 1, i) == (i < n)
    decreases n
  {
    if n == 0 {
      ShrZero(i);
    } else if i > 0 {
      MaskBit(n - 1, i - 1);
    }
  }

  /** The digits of 2^n. */
  lemma {:induction false} PowBit(n: nat, i: nat)
    ensures Bit(Pow2(n), i) == (i == n)
    decreases n
  {
    if n == 0 {
      if i > 0 { ShrZero(i - 1); }
    } else if i > 0 {
      PowBit(n - 1, i - 1);
    }
  }

  lemma {:induction false} Pow2Mono(m: nat, n: nat)
    requires m <= n
    ensures Pow2(m) <= Pow2(n)
  {
    if m < n { Pow2Mono(m, n - 1); }
  }

  lemma {:induction false} ParityXor(a: nat, b: nat)
    ensures Parity(Xor(a, b)) == (Parity(a) != Parity(b))
    decreases a + b
  {
    if a != 0 || b != 0 {
      ParityXor(a / 2, b / 2);
      BitwiseHalf(XorBit, a, b);
    }
  }

  // ---------------------------------------------------------------- counting digits

  /** The positions below n of the one digits. */
  ghost function Ones(a: nat, n: nat): set<nat> {
    set i: nat | i < n && Bit(a, i)
  }

  /** The positions below n where both numbers have a one. */
  ghost function CommonOnes(a: nat, b: nat, n: nat): set<nat> {
    set i: nat | i < n && Bit(a, i) && Bit(b, i)
  }

  ghost function CountOnes(a: nat, n: nat): nat {
    if n == 0 then 0 else a % 2 + CountOnes(a / 2, n - 1)
  }

  lemma {:induction false} CountOnesHigh(a: nat, n: nat)
    requires n > 0
    ensures CountOnes(a, n) == CountOnes(a, n - 1) + if Bit(a, n - 1) then 1 else 0
    decreases n
  {
    if n > 1 { CountOnesHigh(a / 2, n - 1); }
  }

  lemma {:induction false} OnesCount(a: nat, n: nat)
    ensures |Ones(a, n)| == CountOnes(a, n)
  {
    if n == 0 {
      assert Ones(a, n) == {};
    } else {
      OnesCount(a, n - 1);
      CountOnesHigh(a, n);
      assert Ones(a, n) == if Bit(a, n - 1) then Ones(a, n - 1) + {n - 1} else Ones(a, n - 1);
    }
  }

  lemma {:induction false} ParityCount(a: nat, n: nat)
    requires a < Pow2(n)
    ensures Parity(a) <==> CountOnes(a, n) % 2 == 1
    decreases n
  {
    if n > 0 && a != 0 {
      ParityCount(a / 2, n - 1);
    } else {
      NoOnes(n);
    }
  }

  lemma {:induction false} NoOnes(n: nat)
    ensures CountOnes(0, n) == 0
  {
    if n > 0 { NoOnes(n - 1); }
  }

  lemma {:induction false} AndBound(a: nat, b: nat, n: nat)
    requires a < Pow2(n)
    ensures And(a, b) < Pow2(n)
    decreases n
  {
    if a == 0 {
      AndZero(b);
    } else if n > 0 {
      AndBound(a / 2, b / 2, n - 1);
    }
  }

  lemma {:induction false} AndZero(b: nat)
    ensures And(0, b) == 0
    decreases b
  {
    if b > 0 { AndZero(b / 2); }
  }

  /** The parity of a & b says whether a and b have an odd number of ones in common. */
  lemma ParityAnd(a: nat, b: nat, n: nat)
    requires a < Pow2(n)
    ensures Parity(And(a, b)) <==> |CommonOnes(a, b, n)| % 2 == 1
  {
    AndBound(a, b, n);
    ParityCount(And(a, b), n);
    OnesCount(And(a, b), n);
    forall i: nat ensures Bit(And(a, b), i) == (Bit(a, i) && Bit(b, i)) { BitwiseBit(AndBit, a, b, i); }
    assert CommonOnes(a, b, n) == Ones(And(a, b), n);
  }

  lemma AndDistributesOverXor(m: nat, a: nat, b: nat)
    ensures And(m, Xor(a, b)) == Xor(And(m, a), And(m, b))
  {
    forall i: nat ensures Bit(And(m, Xor(a, b)), i) == Bit(Xor(And(m, a), And(m, b)), i) {
      BitwiseBit(AndBit, m, Xor(a, b), i);
      BitwiseBit(XorBit, a, b, i);
      BitwiseBit(XorBit, And(m, a), And(m, b), i);
      BitwiseBit(AndBit, m, a, i);
      BitwiseBit(AndBit, m, b, i);
    }
    SameBits(And(m, Xor(a, b)), Xor(And(m, a), And(m, b)));
  }

  lemma {:induction false} ShrXor(a: nat, b: nat, k: nat)
    ensures Shr(Xor(a, b), k) == Xor(Shr(a, k), Shr(b, k))
    decreases k
  {
    if k > 0 {
      ShrXor(a / 2, b / 2, k - 1);
      assert Xor(a, b) / 2 == Xor(a / 2, b / 2);
    }
  }

  /** Setting a clear digit. */
  lemma OrPow(a: nat, n: nat)
    requires a < Pow2(n)
    ensures Or(a, Pow2(n)) < Pow2(n + 1)
    ensures forall i: nat :: Bit(Or(a, Pow2(n)), i) == (i == n || Bit(a, i))
  {
    BitwiseBound(OrBit, a, Pow2(n), n + 1);
    forall i: nat ensures Bit(Or(a, Pow2(n)), i) == (i == n || Bit(a, i)) {
      BitwiseBit(OrBit, a, Pow2(n), i);
      PowBit(n, i);
    }
  }

  /** Masking with 2^n - 1 keeps a number below 2^n. */
  lemma MaskIdentity(a: nat, n: nat)
    requires a < Pow2(n)
    ensures And(a, Pow2(n) - 1) == a
  {
    forall i: nat ensures Bit(And(a, Pow2(n) - 1), i) == Bit(a, i) {
      BitwiseBit(AndBit, a, Pow2(n) - 1, i);
      MaskBit(n, i);
      if i >= n { HighBits(a, n, i); }
    }
    SameBits(And(a, Pow2(n) - 1), a);
  }

  lemma {:induction false} ShrTimes(n: nat, k: nat)
    ensures Shr(n * Pow2(k), k) == n
    decreases k
  {
    if k > 0 {
      assert n * Pow2(k) == 2 * (n * Pow2(k - 1));
      ShrTimes(n, k - 1);
    }
  }
}
