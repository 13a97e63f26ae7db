/** The 16-bit reversal by four rounds of swaps, against reversing one bit at a time. */
module BitReverse {
  import opened BitOps

  /** One round: the fields under hi move down k places, those under lo move up k places. */
  function Swap(n: nat, hi: nat, lo: nat, k: nat): nat {
    Or(Shr(And(n, hi), k), Shl(And(n, lo), k))
  }

  function BitReverse16(n: nat): nat {
    var n1 := Swap(n, 0xAAAA, 0x5555, 1);
    var n2 := Swap(n1, 0xCCCC, 0x3333, 2);
    var n4 := Swap(n2, 0xF0F0, 0x0F0F, 4);
    Swap(n4, 0xFF00, 0x00FF, 8)
  }

  function ReverseBits(v: nat, bits: nat): nat
    requires bits <= 16
  {
    Shr(BitReverse16(v), 16 - bits)
  }

  lemma SwapBit(n: nat, hi: nat, lo: nat, k: nat, i: nat)
    ensures Bit(Swap(n, hi, lo, k), i) ==
            if (Bit(hi, i + k) == 1 && Bit(n, i + k) == 1) ||
               (i >= k && Bit(lo, i - k) == 1 && Bit(n, i - k) == 1) then 1 else 0
  {
    OrBits(Shr(And(n, hi), k), Shl(And(n, lo), k), i);
    ShrBits(And(n, hi), k, i);
    AndBits(n, hi, i + k);
    ShlBits(And(n, lo), k, i);
    if i >= k {
      AndBits(n, lo, i - k);
    }
  }

  /** A number of four hexadecimal digits, bit by bit. */
  lemma HexBits(d3: nat, d2: nat, d1: nat, d0: nat, i: nat)
    requires d0 < 16 && d1 < 16 && d2 < 16 && d3 < 16
    ensures Bit(((d3 * 16 + d2) * 16 + d1) * 16 + d0, i) ==
            if i < 4 then Bit(d0, i) else if i < 8 then Bit(d1, i - 4)
            else if i < 12 then Bit(d2, i - 8) else Bit(d3, i - 12)
  {
    HexDigit((d3 * 16 + d2) * 16 + d1, d0, i);
    if i >= 4 {
      HexDigit(d3 * 16 + d2, d1, i - 4);
    }
    if i >= 8 {
      HexDigit(d3, d2, i - 8);
    }
  }

  lemma HexDigit(v: nat, d: nat, i: nat)
    requires d < 16
    ensures Bit(v * 16 + d, i) == if i < 4 then Bit(d, i) else Bit(v, i - 4)
  {
    Pow2Values();
    SplitUnique(v, d, 4);
    if i < 4 {
      LowBits(v * 16 + d, 4, i);
    } else {
      ShrBits(v * 16 + d, 4, i - 4);
    }
  }

  lemma DigitBits(i: nat)
    ensures Bit(0x0, i) == 0
    ensures Bit(0xF, i) == if i < 4 then 1 else 0
    ensures Bit(0x5, i) == if i < 4 && i % 2 == 0 then 1 else 0
    ensures Bit(0xA, i) == if i < 4 && i % 2 == 1 then 1 else 0
    ensures Bit(0x3, i) == if i < 2 then 1 else 0
    ensures Bit(0xC, i) == if 2 <= i < 4 then 1 else 0
  {
    ZeroBits(i);
    if i >= 4 {
      ZeroBits(i - 1);
      ZeroBits(i - 2);
      ZeroBits(i - 3);
      ZeroBits(i - 4);
      assert Bit(0xF, i) == Bit(0x7, i - 1) == Bit(0x3, i - 2) == Bit(0x1, i - 3);
      assert Bit(0x5, i) == Bit(0x2, i - 1) == Bit(0x1, i - 2);
      assert Bit(0xA, i) == Bit(0x5, i - 1) == Bit(0x2, i - 2) == Bit(0x1, i - 3);
      assert Bit(0xC, i) == Bit(0x6, i - 1) == Bit(0x3, i - 2) == Bit(0x1, i - 3);
    } else if i == 3 {
    } else if i == 2 {
    } else if i == 1 {
    }
  }

  lemma Mask0xAAAA(i: nat)
    ensures Bit(0xAAAA, i) == if i < 16 && i % 2 == 1 then 1 else 0
  {
    HexBits(0xA, 0xA, 0xA, 0xA, i);
    DigitBits(if i < 4 then i else if i < 8 then i - 4 else if i < 12 then i - 8 else i - 12);
  }

  lemma Mask0x5555(i: nat)
    ensures Bit(0x5555, i) == if i < 16 && i % 2 == 0 then 1 else 0
  {
    HexBits(0x5, 0x5, 0x5, 0x5, i);
    DigitBits(if i < 4 then i else if i < 8 then i - 4 else if i < 12 then i - 8 else i - 12);
  }

  lemma Mask0xCCCC(i: nat)
    ensures Bit(0xCCCC, i) == if i < 16 && i % 4 >= 2 then 1 else 0
  {
    HexBits(0xC, 0xC, 0xC, 0xC, i);
    DigitBits(if i < 4 then i else if i < 8 then i - 4 else if i < 12 then i - 8 else i - 12);
  }

  lemma Mask0x3333(i: nat)
    ensures Bit(0x3333, i) == if i < 16 && i % 4 < 2 then 1 else 0
  {
    HexBits(0x3, 0x3, 0x3, 0x3, i);
    DigitBits(if i < 4 then i else if i < 8 then i - 4 else if i < 12 then i - 8 else i - 12);
  }

  lemma Mask0xF0F0(i: nat)
    ensures Bit(0xF0F0, i) == if i < 16 && i % 8 >= 4 then 1 else 0
  {
    HexBits(0xF, 0x0, 0xF, 0x0, i);
    DigitBits(if i < 4 then i else if i < 8 then i - 4 else if i < 12 then i - 8 else i - 12);
  }

  lemma Mask0x0F0F(i: nat)
    ensures Bit(0x0F0F, i) == if i < 16 && i % 8 < 4 then 1 else 0
  {
    HexBits(0x0, 0xF, 0x0, 0xF, i);
    DigitBits(if i < 4 then i else if i < 8 then i - 4 else if i < 12 then i - 8 else i - 12);
  }

  lemma Mask0xFF00(i: nat)
    ensures Bit(0xFF00, i) == if i < 16 && i >= 8 then 1 else 0
  {
    HexBits(0xF, 0xF, 0x0, 0x0, i);
    DigitBits(if i < 4 then i else if i < 8 then i - 4 else if i < 12 then i - 8 else i - 12);
  }

  lemma Mask0x00FF(i: nat)
    ensures Bit(0x00FF, i) == if i < 16 && i < 8 then 1 else 0
  {
    HexBits(0x0, 0x0, 0xF, 0xF, i);
    DigitBits(if i < 4 then i else if i < 8 then i - 4 else if i < 12 then i - 8 else i - 12);
  }

  lemma Round1(n: nat, i: nat)
    ensures Bit(Swap(n, 0xAAAA, 0x5555, 1), i) ==
            if i >= 16 then 0 else if i % 2 == 0 then Bit(n, i + 1) else Bit(n, i - 1)
  {
    SwapBit(n, 0xAAAA, 0x5555, 1, i);
    Mask0xAAAA(i + 1);
    if i >= 1 {
      Mask0x5555(i - 1);
    }
  }

  lemma Round2(n: nat, i: nat)
    ensures Bit(Swap(n, 0xCCCC, 0x3333, 2), i) ==
            if i >= 16 then 0 else if i % 4 < 2 then Bit(n, i + 2) else Bit(n, i - 2)
  {
    SwapBit(n, 0xCCCC, 0x3333, 2, i);
    Mask0xCCCC(i + 2);
    if i >= 2 {
      Mask0x3333(i - 2);
    }
  }

  lemma Round4(n: nat, i: nat)
    ensures Bit(Swap(n, 0xF0F0, 0x0F0F, 4), i) ==
            if i >= 16 then 0 else if i % 8 < 4 then Bit(n, i + 4) else Bit(n, i - 4)
  {
    SwapBit(n, 0xF0F0, 0x0F0F, 4, i);
    Mask0xF0F0(i + 4);
    if i >= 4 {
      Mask0x0F0F(i - 4);
    }
  }

  lemma Round8(n: nat, i: nat)
    ensures Bit(Swap(n, 0xFF00, 0x00FF, 8), i) ==
            if i >= 16 then 0 else if i % 16 < 8 then Bit(n, i + 8) else Bit(n, i - 8)
  {
    SwapBit(n, 0xFF00, 0x00FF, 8, i);
    Mask0xFF00(i + 8);
    if i >= 8 {
      Mask0x00FF(i - 8);
    }
  }

  /** The first two rounds reverse each hexadecimal digit. */
  lemma Rounds12(n: nat, i: nat)
    requires i < 16
    ensures Bit(Swap(Swap(n, 0xAAAA, 0x5555, 1), 0xCCCC, 0x3333, 2), i) == Bit(n, i - i % 4 + 3 - i % 4)
  {
    hide Swap, Bit;
    var n1 := Swap(n, 0xAAAA, 0x5555, 1);
    Round2(n1, i);
    var j := if i % 4 < 2 then i + 2 else i - 2;
    Round1(n, j);
  }

  /** The last two rounds reverse the order of the hexadecimal digits. */
  lemma Rounds48(n: nat, i: nat)
    ensures Bit(Swap(Swap(n, 0xF0F0, 0x0F0F, 4), 0xFF00, 0x00FF, 8), i) ==
            if i < 16 then Bit(n, 12 - (i - i % 4) + i % 4) else 0
  {
    hide Swap, Bit;
    var n4 := Swap(n, 0xF0F0, 0x0F0F, 4);
    Round8(n4, i);
    if i < 16 {
      var j := if i < 8 then i + 8 else i - 8;
      Round4(n, j);
    }
  }

  lemma BitOfBitReverse16(n: nat, i: nat)
    ensures Bit(BitReverse16(n), i) == if i < 16 then Bit(n, 15 - i) else 0
  {
    hide Swap, Bit;
    Rounds48(Swap(Swap(n, 0xAAAA, 0x5555, 1), 0xCCCC, 0x3333, 2), i);
    if i < 16 {
      Rounds12(n, 12 - (i - i % 4) + i % 4);
    }
  }

  lemma {:induction false} NoHighBits(v: nat, n: nat)
    requires forall i :: i >= n ==> Bit(v, i) == 0
    ensures v < Pow2(n)
  {
    if n > 0 {
      forall i | i >= n - 1
        ensures Bit(v / 2, i) == 0
      {
        assert Bit(v, i + 1) == 0;
      }
      NoHighBits(v / 2, n - 1);
    } else if v > 0 {
      forall i: nat
        ensures Bit(v / 2, i) == 0
      {
        assert Bit(v, i + 1) == 0;
      }
      assert Bit(v, 0) == 0;
      NoHighBits(v / 2, 0);
    }
  }

  /** The four swaps reverse the sixteen low bits, and the shift keeps the reversal of the
      bits asked for. */
  lemma ReverseBitsIsReversal(v: nat, bits: nat)
    requires bits <= 16
    ensures ReverseBits(v, bits) == RevBits(v, bits)
  {
    hide BitReverse16, Bit, RevBits, Pow2, Shr;
    forall i: nat
      ensures Bit(BitReverse16(v), i) == if i < 16 then Bit(v, 15 - i) else 0
    {
      BitOfBitReverse16(v, i);
    }
    NoHighBits(BitReverse16(v), 16);
    forall i | 0 <= i < 16
      ensures Bit(BitReverse16(v), i) == Bit(RevBits(v, 16), i)
    {
      RevBitsBit(v, 16, i);
    }
    BitsDetermine(BitReverse16(v), RevBits(v, 16), 16);
    RevBitsShift(v, bits, 16 - bits);
  }
}
