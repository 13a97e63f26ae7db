/** C's bit operators on non-negative integers.

    Every operator is defined bit by bit, so that masking, merging and shifting mean what C
    means by them; the lemmas justify the arithmetic readings used elsewhere. */
module BitOps {

  type byte = x: nat | x < 256
  type uint16 = x: nat | x < 65536
  type uint32 = x: nat | x < 0x1_0000_0000

  function Pow2(n: nat): (r: nat)
    ensures r > 0
  {
    if n == 0 then 1 else 2 * Pow2(n - 1)
  }

  function And(a: nat, b: nat): nat {
    if a == 0 || b == 0 then 0 else 2 * And(a / 2, b / 2) + (a % 2) * (b % 2)
  }

  function Or(a: nat, b: nat): nat {
    if a == 0 && b == 0 then 0 else 2 * Or(a / 2, b / 2) + (if a % 2 == 1 || b % 2 == 1 then 1 else 0)
  }

  function Xor(a: nat, b: nat): nat {
    if a == 0 && b == 0 then 0 else 2 * Xor(a / 2, b / 2) + (if a % 2 == b % 2 then 0 else 1)
  }

  /** v >> n */
  function Shr(v: nat, n: nat): nat {
    if n == 0 then v else Shr(v / 2, n - 1)
  }

  /** v << n, before any truncation */
  function Shl(v: nat, n: nat): nat {
    if n == 0 then v else 2 * Shl(v, n - 1)
  }

  /** The n low bits of v. */
  function Low(v: nat, n: nat): (r: nat)
    ensures r < Pow2(n)
  {
    if n == 0 then 0 else 2 * Low(v / 2, n - 1) + v % 2
  }

  /** Bit i of v, bit 0 being the least significant. */
  function Bit(v: nat, i: nat): (b: nat)
    ensures b < 2
  {
    if i == 0 then v % 2 else Bit(v / 2, i - 1)
  }

  /** The low n bits of v in the opposite order. */
  function RevBits(v: nat, n: nat): (r: nat)
    ensures r < Pow2(n)
  {
    if n == 0 then 0 else (if v % 2 == 1 then Pow2(n - 1) else 0) + RevBits(v / 2, n - 1)
  }

  lemma Pow2Values()
    ensures Pow2(0) == 1 && Pow2(1) == 2 && Pow2(2) == 4 && Pow2(3) == 8 && Pow2(4) == 16
    ensures Pow2(5) == 32 && Pow2(6) == 64 && Pow2(7) == 128 && Pow2(8) == 256
    ensures Pow2(9) == 512 && Pow2(10) == 1024 && Pow2(11) == 2048 && Pow2(12) == 4096
    ensures Pow2(13) == 8192 && Pow2(14) == 16384 && Pow2(15) == 32768 && Pow2(16) == 65536
  {
    assert Pow2(4) == 16;
    assert Pow2(8) == 256;
    assert Pow2(12) == 4096;
  }

  lemma Pow2Wide()
    ensures Pow2(24) == 0x100_0000 && Pow2(32) == 0x1_0000_0000
  {
    Pow2Values();
    Pow2Add(16, 8);
    Pow2Add(16, 16);
  }

  lemma {:induction false} Pow2Add(m: nat, n: nat)
    ensures Pow2(m + n) == Pow2(m) * Pow2(n)
  {
    if m > 0 {
      Pow2Add(m - 1, n);
    }
  }

  lemma {:induction false} Pow2Monotone(m: nat, n: nat)
    requires m <= n
    ensures Pow2(m) <= Pow2(n)
  {
    if m < n {
      Pow2Monotone(m, n - 1);
    }
  }

  lemma MulMono(a: int, b: int, q: nat)
    requires a <= b
    ensures a * q <= b * q
  {
    assert (b - a) * q >= 0;
  }

  lemma Double(a: nat, b: nat)
    ensures a * (2 * b) == 2 * (a * b)
  {}

  lemma Distribute(a: int, b: int, c: int)
    ensures (a + b) * c == a * c + b * c
  {}

  lemma {:induction false} ShlMul(v: nat, n: nat)
    ensures Shl(v, n) == v * Pow2(n)
  {
    if n > 0 {
      ShlMul(v, n - 1);
      Double(v, Pow2(n - 1));
    }
  }

  /** Shifting right and keeping the low bits split a number without loss. */
  lemma {:induction false} ShrLow(v: nat, n: nat)
    ensures v == Shr(v, n) * Pow2(n) + Low(v, n)
  {
    if n > 0 {
      ShrLow(v / 2, n - 1);
      Double(Shr(v / 2, n - 1), Pow2(n - 1));
    }
  }

  /** Any such split is the one by shifting and masking. */
  lemma {:induction false} SplitUnique(a: nat, r: nat, n: nat)
    requires r < Pow2(n)
    ensures Shr(a * Pow2(n) + r, n) == a && Low(a * Pow2(n) + r, n) == r
  {
    if n > 0 {
      var t := a * Pow2(n - 1);
      Double(a, Pow2(n - 1));
      assert (2 * t + r) / 2 == t + r / 2 && (2 * t + r) % 2 == r % 2;
      SplitUnique(a, r / 2, n - 1);
    }
  }

  lemma {:induction false} ShrShr(v: nat, m: nat, n: nat)
    ensures Shr(Shr(v, m), n) == Shr(v, m + n)
  {
    if m > 0 {
      ShrShr(v / 2, m - 1, n);
    }
  }

  lemma {:induction false} ShrBits(v: nat, k: nat, i: nat)
    ensures Bit(Shr(v, k), i) == Bit(v, i + k)
  {
    if k > 0 {
      ShrBits(v / 2, k - 1, i);
    }
  }

  lemma {:induction false} ShlBits(v: nat, k: nat, i: nat)
    ensures Bit(Shl(v, k), i) == if i < k then 0 else Bit(v, i - k)
  {
    if k > 0 && i > 0 {
      ShlBits(v, k - 1, i - 1);
    }
  }

  lemma {:induction false} AndBits(a: nat, b: nat, i: nat)
    ensures Bit(And(a, b), i) == if Bit(a, i) == 1 && Bit(b, i) == 1 then 1 else 0
  {
    if a == 0 || b == 0 {
      ZeroBits(i);
    } else if i > 0 {
      AndBits(a / 2, b / 2, i - 1);
    }
  }

  lemma {:induction false} OrBits(a: nat, b: nat, i: nat)
    ensures Bit(Or(a, b), i) == if Bit(a, i) == 1 || Bit(b, i) == 1 then 1 else 0
  {
    if a == 0 && b == 0 {
      ZeroBits(i);
    } else if i > 0 {
      OrBits(a / 2, b / 2, i - 1);
    }
  }

  lemma {:induction false} ZeroBits(i: nat)
    ensures Bit(0, i) == 0
  {
    if i > 0 {
      ZeroBits(i - 1);
    }
  }

  lemma {:induction false} LowBits(v: nat, n: nat, i: nat)
    ensures Bit(Low(v, n), i) == if i < n then Bit(v, i) else 0
  {
    if n == 0 {
      ZeroBits(i);
    } else if i > 0 {
      LowBits(v / 2, n - 1, i - 1);
    }
  }

  lemma {:induction false} LowShort(v: nat, n: nat)
    requires v < Pow2(n)
    ensures Low(v, n) == v && Shr(v, n) == 0
  {
    if n > 0 {
      LowShort(v / 2, n - 1);
    }
  }

  /** v & ((1 << n) - 1) keeps the n low bits. */
  lemma {:induction false} AndMask(v: nat, n: nat)
    ensures And(v, Pow2(n) - 1) == Low(v, n)
  {
    if n > 0 {
      var m := Pow2(n) - 1;
      assert m / 2 == Pow2(n - 1) - 1 && m % 2 == 1;
      AndMask(v / 2, n - 1);
      if v == 0 {
        LowShort(0, n);
      }
    }
  }

  /** v & (1 << n) isolates bit n. */
  lemma {:induction false} AndPower(v: nat, n: nat)
    ensures And(v, Pow2(n)) == Bit(v, n) * Pow2(n)
  {
    if n > 0 {
      AndPower(v / 2, n - 1);
      Double(Bit(v, n), Pow2(n - 1));
      if v == 0 {
        ZeroBits(n);
      }
    }
  }

  /** Merging with | is addition when the low operand ends where the shifted one begins. */
  lemma {:induction false} OrShifted(a: nat, b: nat, n: nat)
    requires a < Pow2(n)
    ensures Or(a, Shl(b, n)) == a + b * Pow2(n)
  {
    if n == 0 {
      OrZero(b);
    } else {
      var c := Shl(b, n - 1);
      OrShifted(a / 2, b, n - 1);
      Double(b, Pow2(n - 1));
      assert (2 * c) / 2 == c && (2 * c) % 2 == 0;
      assert Or(a, 2 * c) == 2 * Or(a / 2, c) + a % 2;
    }
  }

  lemma {:induction false} OrZero(b: nat)
    ensures Or(0, b) == b
  {
    if b > 0 {
      OrZero(b / 2);
    }
  }

  lemma Pow2Next(n: nat)
    ensures Pow2(n + 1) == 2 * Pow2(n)
  {}

  lemma AndEven(v: nat, k: nat)
    ensures And(v, 2 * k) == 2 * And(v / 2, k)
  {
    assert (2 * k) / 2 == k && (2 * k) % 2 == 0;
  }

  lemma LowHalf(v: nat, n: nat)
    ensures Low(v, n + 1) == 2 * Low(v / 2, n) + v % 2
  {}

  /** v & ~((1 << n) - 1) within m bits clears the n low bits. */
  lemma {:induction false} AndHigh(v: nat, n: nat, m: nat)
    requires n <= m && v < Pow2(m)
    ensures Pow2(n) <= Pow2(m) && And(v, Pow2(m) - Pow2(n)) == v - Low(v, n)
  {
    hide Pow2, And, Low;
    Pow2Monotone(n, m);
    if n == 0 {
      Pow2Values();
      AndMask(v, m);
      LowShort(v, m);
    } else {
      Pow2Next(m - 1);
      Pow2Next(n - 1);
      AndHigh(v / 2, n - 1, m - 1);
      AndEven(v, Pow2(m - 1) - Pow2(n - 1));
      LowHalf(v, n - 1);
    }
  }

  /** x ^ 0xff..ff is the complement within the mask. */
  lemma {:induction false} XorMask(x: nat, n: nat)
    requires x < Pow2(n)
    ensures Xor(x, Pow2(n) - 1) == Pow2(n) - 1 - x
  {
    if n > 0 {
      var m := Pow2(n) - 1;
      assert m / 2 == Pow2(n - 1) - 1 && m % 2 == 1;
      XorMask(x / 2, n - 1);
    }
  }

  lemma {:induction false} BitsDetermine(u: nat, v: nat, n: nat)
    requires u < Pow2(n) && v < Pow2(n)
    requires forall i :: 0 <= i < n ==> Bit(u, i) == Bit(v, i)
    ensures u == v
  {
    if n > 0 {
      assert Bit(u, 0) == Bit(v, 0);
      forall i | 0 <= i < n - 1
        ensures Bit(u / 2, i) == Bit(v / 2, i)
      {
        assert Bit(u, i + 1) == Bit(v, i + 1);
      }
      BitsDetermine(u / 2, v / 2, n - 1);
    }
  }

  /** Adding a multiple of 2^n leaves the bits below n alone and puts t at bit n. */
  lemma {:induction false} HighBit(r: nat, t: nat, n: nat, i: nat)
    requires i <= n && r < Pow2(n) && t < 2
    ensures Bit(t * Pow2(n) + r, i) == if i < n then Bit(r, i) else t
  {
    if n > 0 {
      var u := t * Pow2(n - 1);
      Double(t, Pow2(n - 1));
      assert (2 * u + r) / 2 == u + r / 2 && (2 * u + r) % 2 == r % 2;
      if i > 0 {
        HighBit(r / 2, t, n - 1, i - 1);
      }
    }
  }

  lemma {:induction false} RevBitsBit(v: nat, n: nat, i: nat)
    requires i < n
    ensures Bit(RevBits(v, n), i) == Bit(v, n - 1 - i)
  {
    HighBit(RevBits(v / 2, n - 1), v % 2, n - 1, i);
    if i < n - 1 {
      RevBitsBit(v / 2, n - 1, i);
    }
  }

  /** RevBits looks at the low n bits only. */
  lemma {:induction false} RevBitsLow(v: nat, m: nat, n: nat)
    requires n <= m
    ensures RevBits(Low(v, m), n) == RevBits(v, n)
  {
    hide Pow2;
    if n > 0 {
      assert Low(v, m) / 2 == Low(v / 2, m - 1) && Low(v, m) % 2 == v % 2;
      RevBitsLow(v / 2, m - 1, n - 1);
    }
  }

  lemma RevBitsInvolution(v: nat, n: nat)
    requires v < Pow2(n)
    ensures RevBits(RevBits(v, n), n) == v
  {
    forall i | 0 <= i < n
      ensures Bit(RevBits(RevBits(v, n), n), i) == Bit(v, i)
    {
      RevBitsBit(RevBits(v, n), n, i);
      RevBitsBit(v, n, n - 1 - i);
    }
    BitsDetermine(RevBits(RevBits(v, n), n), v, n);
  }

  /** The first n of n + m reversed bits are the high ones. */
  lemma {:induction false} RevBitsSplit(v: nat, n: nat, m: nat)
    ensures RevBits(v, n + m) == RevBits(v, n) * Pow2(m) + RevBits(Shr(v, n), m)
  {
    if n > 0 {
      RevBitsSplit(v / 2, n - 1, m);
      Pow2Add(n - 1, m);
      SplitStep(v % 2, Pow2(n - 1), Pow2(m), RevBits(v / 2, n - 1));
    }
  }

  lemma SplitStep(b: nat, p: nat, q: nat, r: nat)
    ensures (b * p + r) * q == b * (p * q) + r * q
  {}

  /** Reversing n + m bits and shifting m of them away reverses the low n. */
  lemma RevBitsShift(v: nat, n: nat, m: nat)
    ensures Shr(RevBits(v, n + m), m) == RevBits(v, n)
  {
    RevBitsSplit(v, n, m);
    SplitUnique(RevBits(v, n), RevBits(Shr(v, n), m), m);
  }
}
