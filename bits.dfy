/** Python's `>>` and `&` on non-negative integers, defined bit by bit,
    and their relation to ordinary division and remainder. */
module Bits {

  function Pow2(n: nat): (r: nat)
    ensures r >= 1
  {
    if n == 0 then 1 else 2 * Pow2(n - 1)
  }

  lemma Pow2Table()
    ensures Pow2(0) == 1 && Pow2(1) == 2 && Pow2(2) == 4 && Pow2(3) == 8
    ensures Pow2(4) == 16 && Pow2(5) == 32 && Pow2(6) == 64 && Pow2(7) == 128
    ensures Pow2(8) == 256 && Pow2(16) == 0x1_0000
  {
    assert Pow2(4) == 16;
    assert Pow2(8) == 256;
    assert Pow2(12) == 4096;
    assert Pow2(16) == 0x1_0000;
  }

  /** Euclidean division is unique: the quotient and remainder are fixed by
      `a == m * d + r` with `0 <= r < m`. */
  lemma DivModUnique(a: int, m: int, d: int, r: int)
    requires m > 0 && a == m * d + r && 0 <= r < m
    ensures a / m == d && a % m == r
  {
    var d0, r0 := a / m, a % m;
    var e := d - d0;
    assert m * d0 + r0 == m * d + r;
    assert m * e == r0 - r;
    if e > 0 {
      MulPositive(m, e);
    } else if e < 0 {
      MulPositive(m, -e);
    }
  }

  lemma MulPositive(m: int, e: int)
    requires m > 0 && e > 0
    ensures m * e >= m
  {
    assert m * e == m * (e - 1) + m;
    assert m * (e - 1) >= 0;
  }

  /** Halving first and then dividing by `p` is dividing by `2 * p`. */
  lemma DivModHalf(a: nat, p: nat)
    requires p >= 1
    ensures a / (2 * p) == (a / 2) / p
    ensures a % (2 * p) == 2 * ((a / 2) % p) + a % 2
  {
    var q := a / 2;
    assert q == p * (q / p) + q % p;
    assert a == (2 * p) * (q / p) + (2 * (q % p) + a % 2);
    DivModUnique(a, 2 * p, q / p, 2 * (q % p) + a % 2);
  }

  /** `a >> n` */
  function Shr(a: nat, n: nat): (r: nat)
    ensures r == a / Pow2(n)
  {
    if n == 0 then a
    else
      DivModHalf(a, Pow2(n - 1));
      Shr(a / 2, n - 1)
  }

  /** `a & b`, one bit at a time from the least significant end */
  function And(a: nat, b: nat): (r: nat)
    ensures r <= a && r <= b
    decreases a
  {
    if a == 0 || b == 0 then 0
    else 2 * And(a / 2, b / 2) + (if a % 2 == 1 && b % 2 == 1 then 1 else 0)
  }

  /** Bit `k` of `a` is set: `(a >> k) & 1 == 1`. */
  predicate TestBit(a: nat, k: nat)
  {
    Shr(a, k) % 2 == 1
  }

  /** Masking with `2^n - 1` keeps exactly the remainder modulo `2^n`. */
  lemma {:induction false} AndLowMask(a: nat, n: nat)
    ensures And(a, Pow2(n) - 1) == a % Pow2(n)
    decreases n
  {
    if n == 0 {
      assert And(a, 0) == 0 && a % 1 == 0;
    } else {
      var p := Pow2(n - 1);
      assert Pow2(n) == 2 * p;
      AndLowMask(a / 2, n - 1);
      AndLowMaskStep(a, p);
    }
  }

  /** One bit of `AndLowMask`: if masking `a / 2` with `p - 1` keeps its
      remainder modulo `p`, masking `a` with `2p - 1` keeps its remainder
      modulo `2p`. */
  lemma AndLowMaskStep(a: nat, p: nat)
    requires p >= 1 && And(a / 2, p - 1) == (a / 2) % p
    ensures And(a, 2 * p - 1) == a % (2 * p)
  {
    OddMaskStep(a, p);
    DivModHalf(a, p);
  }

  /** `a & (2p - 1)` keeps the low bit of `a` and masks `a / 2` with `p - 1`. */
  lemma OddMaskStep(a: nat, p: nat)
    requires p >= 1
    ensures And(a, 2 * p - 1) == 2 * And(a / 2, p - 1) + a % 2
  {
    var mask := 2 * p - 1;
    DivModUnique(mask, 2, p - 1, 1);
    assert And(a, mask) == 2 * And(a / 2, mask / 2) + a % 2;
  }

  /** Masking with the single bit `2^k` leaves that bit and nothing else. */
  lemma {:induction false} AndSingleBit(a: nat, k: nat)
    ensures And(a, Pow2(k)) == if TestBit(a, k) then Pow2(k) else 0
  {
    if k > 0 {
      AndSingleBit(a / 2, k - 1);
      assert Pow2(k) / 2 == Pow2(k - 1) && Pow2(k) % 2 == 0;
      assert TestBit(a, k) == TestBit(a / 2, k - 1);
    }
  }

  /** `bool(a & 2^k)` is the test of bit `k`. */
  lemma AndSingleBitNonZero(a: nat, k: nat)
    ensures (And(a, Pow2(k)) != 0) == TestBit(a, k)
  {
    AndSingleBit(a, k);
  }

  /** The remainder modulo `2^n` is nonzero exactly when one of the bits
      `0 .. n-1` is set. */
  lemma {:induction false} LowBitsNonZero(a: nat, n: nat)
    ensures (a % Pow2(n) != 0) == (exists k :: 0 <= k < n && TestBit(a, k))
  {
    if n > 0 {
      LowBitsNonZero(a / 2, n - 1);
      DivModHalf(a, Pow2(n - 1));
      if a % Pow2(n) != 0 {
        if a % 2 == 1 {
          assert TestBit(a, 0);
        } else {
          var k :| 0 <= k < n - 1 && TestBit(a / 2, k);
          assert TestBit(a, k + 1);
        }
      } else {
        forall k | 0 <= k < n
          ensures !TestBit(a, k)
        {
          if k > 0 {
            assert TestBit(a, k) == TestBit(a / 2, k - 1);
          }
        }
      }
    }
  }

  /** Only bit `j` of `2^j` is set. */
  lemma {:induction false} TestBitPow2(j: nat, k: nat)
    ensures TestBit(Pow2(j), k) == (j == k)
  {
    if j > 0 && k > 0 {
      TestBitPow2(j - 1, k - 1);
      assert Pow2(j) / 2 == Pow2(j - 1);
      assert TestBit(Pow2(j), k) == TestBit(Pow2(j) / 2, k - 1);
    } else if j > 0 {
      assert Pow2(j) % 2 == 0;
    } else if k > 0 {
      assert TestBit(1, k) == TestBit(0, k - 1);
      assert Shr(0, k - 1) == 0;
    }
  }

  /** Two different powers of two share no bit. */
  lemma DistinctPow2Disjoint(i: nat, j: nat)
    requires i != j
    ensures And(Pow2(i), Pow2(j)) == 0
  {
    AndSingleBit(Pow2(i), j);
    TestBitPow2(i, j);
  }

  /** Different bit positions give different powers of two. */
  lemma {:induction false} Pow2Injective(i: nat, j: nat)
    requires Pow2(i) == Pow2(j)
    ensures i == j
  {
    if i != j {
      TestBitPow2(i, i);
      TestBitPow2(j, i);
    }
  }
}
