/** The bit stream both entropy decoders read: bytes followed by endless zeros, least
    significant bit first (section 3.1.1 of RFC 1951). */
module BitStream {
  import opened BitOps

  function ByteAt(input: seq<byte>, t: nat): byte {
    if t < |input| then input[t] else 0
  }

  function BitAt(input: seq<byte>, p: nat): (b: nat)
    ensures b < 2
  {
    Bit(ByteAt(input, p / 8), p % 8)
  }

  /** n bits from position p as a number whose first bit is the least significant. */
  function Bits(input: seq<byte>, p: nat, n: nat): (r: nat)
    ensures r < Pow2(n)
    decreases n, p
  {
    if n == 0 then 0 else BitAt(input, p) + 2 * Bits(input, p + 1, n - 1)
  }

  /** n bits from position p as a number whose first bit is the most significant. */
  function Msb(input: seq<byte>, p: nat, n: nat): (r: nat)
    ensures r < Pow2(n)
  {
    if n == 0 then 0 else 2 * Msb(input, p, n - 1) + BitAt(input, p + n - 1)
  }

  lemma {:induction false} BitsSplit(input: seq<byte>, p: nat, n: nat, m: nat)
    ensures Bits(input, p, n + m) == Bits(input, p, n) + Bits(input, p + n, m) * Pow2(n)
    decreases n
  {
    hide Bit;
    if n > 0 {
      BitsSplit(input, p + 1, n - 1, m);
      Double(Bits(input, p + n, m), Pow2(n - 1));
      assert n + m - 1 == n - 1 + m && p + 1 + (n - 1) == p + n;
    }
  }

  /** Taking n bits off the front of n + m is masking, and what remains is shifted down. */
  lemma BitsTake(input: seq<byte>, p: nat, n: nat, m: nat)
    ensures Low(Bits(input, p, n + m), n) == Bits(input, p, n)
    ensures Shr(Bits(input, p, n + m), n) == Bits(input, p + n, m)
  {
    BitsSplit(input, p, n, m);
    SplitUnique(Bits(input, p + n, m), Bits(input, p, n), n);
  }

  lemma {:induction false} BitsOfByteFrom(input: seq<byte>, t: nat, i: nat)
    requires i <= 8
    ensures Bits(input, 8 * t + i, 8 - i) == Shr(ByteAt(input, t), i)
    decreases 8 - i
  {
    var v := ByteAt(input, t);
    if i == 8 {
      Pow2Values();
      LowShort(v, 8);
    } else {
      BitsOfByteFrom(input, t, i + 1);
      assert (8 * t + i) / 8 == t && (8 * t + i) % 8 == i;
      ShrBits(v, i, 0);
      ShrShr(v, i, 1);
      assert Shr(Shr(v, i), 1) == Shr(v, i) / 2;
    }
  }

  lemma BitsOfByte(input: seq<byte>, t: nat)
    ensures Bits(input, 8 * t, 8) == ByteAt(input, t)
  {
    BitsOfByteFrom(input, t, 0);
  }

  /** A new byte extends the bits already held. */
  lemma BitsRefill(input: seq<byte>, p: nat, n: nat, t: nat)
    requires p + n == 8 * t
    ensures Bits(input, p, n + 8) == Bits(input, p, n) + ByteAt(input, t) * Pow2(n)
  {
    BitsSplit(input, p, n, 8);
    BitsOfByte(input, t);
  }

  lemma {:induction false} MsbSplit(input: seq<byte>, p: nat, n: nat, m: nat)
    ensures Msb(input, p, n + m) == Msb(input, p, n) * Pow2(m) + Msb(input, p + n, m)
  {
    hide BitAt;
    if m > 0 {
      MsbSplit(input, p, n, m - 1);
      Double(Msb(input, p, n), Pow2(m - 1));
      assert p + (n + m) - 1 == (p + n) + m - 1;
    }
  }

  lemma MsbPrefix(input: seq<byte>, p: nat, n: nat, m: nat)
    ensures Shr(Msb(input, p, n + m), m) == Msb(input, p, n)
  {
    MsbSplit(input, p, n, m);
    SplitUnique(Msb(input, p, n), Msb(input, p + n, m), m);
  }

  lemma {:induction false} RevOfBits(input: seq<byte>, p: nat, n: nat)
    ensures RevBits(Bits(input, p, n), n) == Msb(input, p, n)
    decreases n
  {
    hide Bit, Pow2, Msb, BitAt, RevBits;
    if n > 0 {
      var b := BitAt(input, p);
      RevOfBits(input, p + 1, n - 1);
      MsbSplit(input, p, 1, n - 1);
      MsbOne(input, p);
      RevBitsUnfold(b, Bits(input, p + 1, n - 1), n);
    } else {
      NoBitsAtAll(input, p);
    }
  }

  lemma NoBitsAtAll(input: seq<byte>, p: nat)
    ensures RevBits(Bits(input, p, 0), 0) == Msb(input, p, 0)
  {}

  lemma MsbOne(input: seq<byte>, p: nat)
    ensures Msb(input, p, 1) == BitAt(input, p)
  {
    assert Msb(input, p, 0) == 0;
  }

  lemma RevBitsUnfold(b: nat, rest: nat, n: nat)
    requires b < 2 && n > 0
    ensures RevBits(2 * rest + b, n) == b * Pow2(n - 1) + RevBits(rest, n - 1)
  {
    hide Pow2;
    assert (2 * rest + b) / 2 == rest && (2 * rest + b) % 2 == b;
  }

  /** Reversing the low k of n held bits reads the first k of them the other way round. */
  lemma RevOfHeld(input: seq<byte>, p: nat, n: nat, k: nat)
    requires k <= n
    ensures RevBits(Bits(input, p, n), k) == Msb(input, p, k)
  {
    BitsTake(input, p, k, n - k);
    RevBitsLow(Bits(input, p, n), k, k);
    RevOfBits(input, p, k);
  }
}
