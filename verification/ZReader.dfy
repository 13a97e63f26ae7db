/** The inflater's input side: a bit buffer refilled a byte at a time and table-driven symbols.
    Every read is specified by the bits at the reader's position in the stream. */
module ZReader {
  import opened BitOps
  import opened BitReverse
  import opened BitStream
  import opened Canonical
  import opened Deflate
  import opened ZTables

  /** The bit reader: the bytes not yet used and a buffer of bits already taken from them. */
  class BitReader {
    const input: seq<byte>
    var pos: nat
    var numBits: nat
    var codeBuffer: uint32
    ghost var taken: nat  // bytes taken, counting the zeros read past the end

    /** The buffer holds exactly the numBits bits before the next byte. */
    ghost predicate Valid()
      reads this
    {
      && numBits <= 32 && numBits <= 8 * taken
      && pos == (if taken < |input| then taken else |input|)
      && codeBuffer == Bits(input, 8 * taken - numBits, numBits)
    }

    lemma WithinStream()
      requires Valid()
      ensures numBits <= 8 * taken
    {}

    /** The position in the stream of the next bit to be read. */
    ghost function Position(): nat
      requires numBits <= 8 * taken
      reads this
    {
      8 * taken - numBits
    }

    constructor (data: seq<byte>)
      ensures Valid() && Position() == 0 && input == data && numBits == 0
    {
      input := data;
      pos, numBits, codeBuffer, taken := 0, 0, 0, 0;
    }

    method Get8() returns (b: byte)
      requires pos == (if taken < |input| then taken else |input|)
      modifies this`pos, this`taken
      ensures b == ByteAt(input, old(taken)) && taken == old(taken) + 1
      ensures pos == (if taken < |input| then taken else |input|)
    {
      taken := taken + 1;
      if pos >= |input| {
        return 0;
      }
      b := input[pos];
      pos := pos + 1;
    }

    /** Takes bytes until more than 24 bits are held; what the stream says next is unchanged. */
    method FillBits()
      requires Valid() && numBits <= 24
      modifies this
      ensures Valid() && 25 <= numBits <= 32 && Position() == old(Position())
    {
      hide Bits, Pow2, Or, Shl, Shr;
      var first := true;
      while first || numBits <= 24
        invariant Valid() && Position() == old(Position())
        invariant if first then numBits <= 24 else 8 <= numBits
        decreases if first then 33 else 32 - numBits
      {
        first := false;
        RefillStep(input, taken, numBits, codeBuffer);
        assert codeBuffer < Pow2(numBits);
        var b := Get8();
        codeBuffer := Or(codeBuffer, Shl(b, numBits));
        numBits := numBits + 8;
      }
    }

    /** Reads n bits, the first of them least significant. */
    method Receive(n: nat) returns (k: nat)
      requires Valid() && n <= 16
      modifies this
      ensures Valid() && k == Bits(input, old(Position()), n) && Position() == old(Position()) + n
      ensures numBits <= 32 - n
      ensures old(numBits) >= n ==> numBits == old(numBits) - n && taken == old(taken)
    {
      hide Bits, Pow2, And, Shl, Shr;
      if numBits < n {
        FillBits();
      }
      TakeStep(input, taken, numBits, codeBuffer, n);
      k := And(codeBuffer, Shl(1, n) - 1);
      codeBuffer := Shr(codeBuffer, n);
      numBits := numBits - n;
    }

    /** Decodes one symbol with the tables: what the bit-at-a-time decoder of the code finds,
        or -1 exactly when no code word comes next. */
    method HuffmanDecode(z: ZHuffman, ghost lens: seq<nat>) returns (r: int)
      requires Valid() && z.Valid() && z.Represents(lens)
      modifies this
      ensures Valid()
      ensures var d := Decode(lens, input, old(Position()), MAX_BITS);
              if d.NoCode? then r == -1 && Position() == old(Position())
              else r == d.sym && Position() == old(Position()) + d.len
    {
      hide Bits, Pow2, And, Shr, DecodeFrom;
      if numBits < 16 {
        FillBits();
      }
      FastIndex(input, taken, numBits, codeBuffer);
      var b := z.fast[And(codeBuffer, FAST_SIZE - 1)];
      if b > 0 {
        FastHit(lens, input, Position(), z.fast[..]);
        Skip(Shr(b, 9));
        r := And(b, 511);
      } else {
        FastMiss(lens, input, Position(), z.fast[..]);
        r := HuffmanDecodeSlow(z, lens);
      }
    }

    method HuffmanDecodeSlow(z: ZHuffman, ghost lens: seq<nat>) returns (r: int)
      requires Valid() && z.Valid() && z.Represents(lens) && numBits >= 16
      requires Window(input, Position()) >= Hi(lens, FAST_BITS)
      modifies this
      ensures Valid()
      ensures var d := Decode(lens, input, old(Position()), MAX_BITS);
              if d.NoCode? then r == -1 && Position() == old(Position())
              else r == d.sym && Position() == old(Position()) + d.len
    {
      hide Bits, Msb, Pow2, Shr, DecodeFrom, First, Count, Shorter;
      var k := Top16();
      var s := FAST_BITS + 1;
      while k >= z.maxcode[s]
        invariant FAST_BITS + 1 <= s <= 16 && k >= Hi(lens, s - 1)
        decreases 16 - s
      {
        s := s + 1;
      }
      if s == 16 {
        KraftAt15(lens);
        NoCodeBeyondKraft(lens, input, Position(), MAX_BITS);
        return -1;
      }
      ghost var i := SlowHit(lens, input, Position(), s);
      assert Slot(lens, i) < MAX_SYMBOLS && z.size[Slot(lens, i)] == lens[i] && z.value[Slot(lens, i)] == i;
      var b := Shr(k, 16 - s) - z.firstcode[s] + z.firstsymbol[s];
      assert z.size[b] == s;
      Skip(s);
      r := z.value[b];
    }

    /** The next sixteen bits with the first of them most significant. */
    method Top16() returns (k: nat)
      requires Valid() && numBits >= 16
      ensures k == Window(input, Position()) < 0x10000
    {
      Pow2Values();
      ReverseBitsIsReversal(codeBuffer, 16);
      RevOfHeld(input, Position(), numBits, 16);
      k := ReverseBits(codeBuffer, 16);
    }

    /** Discards bits up to the next byte boundary. */
    method Align()
      requires Valid() && numBits < 32
      modifies this
      ensures Valid() && numBits % 8 == 0 && numBits <= 24
      ensures Position() == 8 * ((old(Position()) + 7) / 8)
    {
      hide Bits, Pow2;
      if numBits % 8 != 0 {
        var discard := Receive(numBits % 8);
      }
    }

    /** Moves the whole bytes held, at most three of them, to the header. */
    method Drain(header: array<byte>) returns (k: nat)
      requires Valid() && numBits % 8 == 0 && numBits <= 24 && header.Length == 4
      modifies this, header
      ensures Valid() && numBits == 0 && k <= 3
      ensures Position() == old(Position()) + 8 * k
      ensures forall i :: 0 <= i < k ==> header[i] == ByteAt(input, old(Position()) / 8 + i)
    {
      hide Bits, Pow2, And, Shr, ByteAt;
      k := 0;
      ghost var t := Position() / 8;
      while numBits > 0
        invariant Valid() && numBits % 8 == 0 && 8 * k + numBits <= 24
        invariant Position() == 8 * (t + k)
        invariant forall i :: 0 <= i < k ==> header[i] == ByteAt(input, t + i)
        decreases numBits
      {
        DrainStep(input, taken, numBits, codeBuffer, t + k);
        header[k] := And(codeBuffer, 255);
        Skip(8);
        k := k + 1;
      }
    }

    /** Reads the four bytes from the next byte boundary: at most three are drained from the
        bit buffer, which is left empty, and the rest come from the input. */
    method ReadHeader() returns (header: array<byte>)
      requires Valid() && numBits < 32
      modifies this
      ensures Valid() && fresh(header) && header.Length == 4 && numBits == 0
      ensures var t := (old(Position()) + 7) / 8;
              taken == t + 4 && forall i :: 0 <= i < 4 ==> header[i] == ByteAt(input, t + i)
    {
      hide Bits, Pow2, ByteAt;
      header := new byte[4];
      ghost var t := (Position() + 7) / 8;
      Align();
      var k := Drain(header);
      while k < 4
        invariant k <= 4 && Valid() && numBits == 0 && taken == t + k
        invariant forall i :: 0 <= i < k ==> header[i] == ByteAt(input, t + i)
      {
        NoBits(input, taken);
        NoBits(input, taken + 1);
        var b := Get8();
        header[k] := b;
        k := k + 1;
      }
    }

    /** Moves past n bytes already copied from the input. */
    method SkipBytes(n: nat)
      requires Valid() && numBits == 0 && taken + n <= |input|
      modifies this
      ensures Valid() && numBits == 0 && taken == old(taken) + n
    {
      pos := pos + n;
      taken := taken + n;
    }

    /** Drops s of the bits held. */
    method Skip(s: nat)
      requires Valid() && s <= numBits
      modifies this`codeBuffer, this`numBits
      ensures Valid() && Position() == old(Position()) + s && numBits == old(numBits) - s
    {
      hide Bits, Pow2, Or, Shl, Shr;
      TakeStep(input, taken, numBits, codeBuffer, s);
      codeBuffer := Shr(codeBuffer, s);
      numBits := numBits - s;
    }
  }

  /** Merging the next byte above the held bits. */
  lemma RefillStep(input: seq<byte>, t: nat, n: nat, buffer: nat)
    requires n <= 24 && n <= 8 * t && buffer == Bits(input, 8 * t - n, n)
    ensures var merged := Or(buffer, Shl(ByteAt(input, t), n));
            merged == Bits(input, 8 * (t + 1) - (n + 8), n + 8) && merged < 0x1_0000_0000
  {
    hide Bits, ByteAt, Pow2, Or, Shl;
    Pow2Values();
    OrShifted(buffer, ByteAt(input, t), n);
    ShlMul(ByteAt(input, t), n);
    BitsRefill(input, 8 * t - n, n, t);
    Pow2Wide();
    Pow2Monotone(n + 8, 32);
  }

  /** Masking and shifting k bits off the held ones. */
  lemma TakeStep(input: seq<byte>, t: nat, n: nat, buffer: nat, k: nat)
    requires k <= n <= 8 * t && buffer == Bits(input, 8 * t - n, n)
    ensures Shl(1, k) == Pow2(k) && And(buffer, Shl(1, k) - 1) == Bits(input, 8 * t - n, k)
    ensures Shr(buffer, k) == Bits(input, 8 * t - (n - k), n - k) && Shr(buffer, k) <= buffer
  {
    hide Bits, Pow2, And, Shl, Shr, Low;
    BitsTake(input, 8 * t - n, k, n - k);
    ShlMul(1, k);
    AndMask(buffer, k);
    ShrSmaller(buffer, k);
  }

  /** The low eight held bits are the next whole byte. */
  lemma DrainStep(input: seq<byte>, t: nat, n: nat, buffer: nat, k: nat)
    requires 8 <= n <= 8 * t && buffer == Bits(input, 8 * t - n, n) && 8 * t - n == 8 * k
    ensures And(buffer, 255) == ByteAt(input, k)
  {
    hide Bits, ByteAt, Pow2, And, Shl, Shr;
    TakeStep(input, t, n, buffer, 8);
    Pow2Values();
    BitsOfByte(input, k);
  }

  lemma NoBits(input: seq<byte>, p: nat)
    ensures Bits(input, 8 * p, 0) == 0
  {}

  lemma {:induction false} ShrSmaller(v: nat, n: nat)
    ensures Shr(v, n) <= v
  {
    if n > 0 {
      ShrSmaller(v / 2, n - 1);
    }
  }

  /** The fast table is indexed by the next nine bits. */
  lemma FastIndex(input: seq<byte>, t: nat, n: nat, buffer: nat)
    requires FAST_BITS <= n <= 8 * t && buffer == Bits(input, 8 * t - n, n)
    ensures And(buffer, FAST_SIZE - 1) == Bits(input, 8 * t - n, FAST_BITS) < FAST_SIZE
  {
    Pow2Values();
    BitsTake(input, 8 * t - n, FAST_BITS, n - FAST_BITS);
    AndMask(buffer, FAST_BITS);
  }

  lemma FastOwner(lens: seq<nat>, j: nat, fast: seq<uint16>) returns (i: nat)
    requires j < FAST_SIZE == |fast| && FastCorrect(lens, |lens|, fast) && fast[j] > 0
    ensures ShortMatch(lens, i, j) && fast[j] == FastEntry(lens, i)
  {
    assert FastCorrectAt(lens, |lens|, fast, j);
    i :| i < |lens| && ShortMatch(lens, i, j);
  }

  /** A nonzero fast entry packs the symbol the reference decoder finds and its length. */
  lemma FastHit(lens: seq<nat>, input: seq<byte>, p: nat, fast: seq<uint16>)
    requires Bounded(lens, MAX_BITS) && |fast| == FAST_SIZE && FastCorrect(lens, |lens|, fast)
    requires |lens| <= MAX_SYMBOLS
    requires Bits(input, p, FAST_BITS) < FAST_SIZE && fast[Bits(input, p, FAST_BITS)] > 0
    ensures var b := fast[Bits(input, p, FAST_BITS)];
            Decode(lens, input, p, MAX_BITS) == Symbol(And(b, 511), Shr(b, 9)) && Shr(b, 9) <= FAST_BITS
  {
    hide Bits, And, Shr, Pow2;
    var i := FastOwner(lens, Bits(input, p, FAST_BITS), fast);
    RevOfHeld(input, p, FAST_BITS, lens[i]);
    WindowPrefix(input, p, lens[i]);
    MatchIsDecode(lens, input, p, MAX_BITS, i);
    FastEntryPacks(lens[i], i);
  }

  lemma MissContradiction(lens: seq<nat>, i: nat, j: nat, fast: seq<uint16>)
    requires |fast| == FAST_SIZE && j < FAST_SIZE && fast[j] == 0 && FastCorrectAt(lens, |lens|, fast, j)
    ensures !ShortMatch(lens, i, j)
  {}

  /** A zero fast entry means no code word of up to nine bits comes next. */
  lemma FastMiss(lens: seq<nat>, input: seq<byte>, p: nat, fast: seq<uint16>)
    requires Bounded(lens, MAX_BITS) && |fast| == FAST_SIZE && FastCorrect(lens, |lens|, fast)
    requires Bits(input, p, FAST_BITS) < FAST_SIZE && fast[Bits(input, p, FAST_BITS)] == 0
    ensures Window(input, p) >= Hi(lens, FAST_BITS)
  {
    var k, j := Window(input, p), Bits(input, p, FAST_BITS);
    assert FastCorrectAt(lens, |lens|, fast, j);
    if k < Hi(lens, FAST_BITS) {
      var l := PartOf(lens, k, FAST_BITS);
      var i := PartHasMatch(lens, l, k);
      RevOfHeld(input, p, FAST_BITS, l);
      WindowPrefix(input, p, l);
      MissContradiction(lens, i, j, fast);
      assert false;
    }
  }

  /** The first length whose bound exceeds the window is the matching symbol's, and its code
      word's offset from the first of that length is the symbol's rank. */
  lemma SlowHit(lens: seq<nat>, input: seq<byte>, p: nat, s: nat) returns (i: nat)
    requires Bounded(lens, MAX_BITS) && 1 <= s <= 15
    requires Hi(lens, s - 1) <= Window(input, p) < Hi(lens, s)
    ensures i < |lens| && lens[i] == s && Decode(lens, input, p, MAX_BITS) == Symbol(i, s)
    ensures Slot(lens, i) == Shr(Window(input, p), 16 - s) - First(lens, s) + Shorter(lens, s)
  {
    i := PartHasMatch(lens, s, Window(input, p));
    MatchIsDecode(lens, input, p, MAX_BITS, i);
  }
}
