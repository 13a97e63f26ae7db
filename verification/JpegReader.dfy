/** The JPEG entropy decoder's bit buffer, symbols and signed coefficients, with the look-ups
    that shorten them (sections F.2.2.1 to F.2.2.3 of ITU-T T.81). */
module JpegReader {
  import opened BitOps
  import opened BitStream
  import opened Canonical
  import opened JpegTables

  // The entropy-coded bytes: stuffing removed, up to the first marker

  /** The first position at or after p that does not hold a fill byte. */
  function SkipFill(input: seq<byte>, p: nat): (q: nat)
    ensures p <= q && (p <= |input| ==> q <= |input|)
    ensures q < |input| ==> input[q] != 0xff
    decreases |input| - p
  {
    if p < |input| && input[p] == 0xff then SkipFill(input, p + 1) else p
  }

  function Entropy(input: seq<byte>, p: nat): seq<byte>
    decreases |input| - p
  {
    if p >= |input| then []
    else if input[p] != 0xff then [input[p]] + Entropy(input, p + 1)
    else
      var q := SkipFill(input, p + 1);
      if ByteAt(input, q) == 0 then [0xff as byte] + Entropy(input, q + 1) else []
  }

  /** JPEG packs from the left: each byte mirrored, so that the stream reads in order. */
  function Mirror(data: seq<byte>): (r: seq<byte>)
    ensures |r| == |data|
    ensures forall t :: 0 <= t < |data| ==> r[t] == MirrorByte(data[t])
  {
    seq(|data|, t requires 0 <= t < |data| => MirrorByte(data[t]))
  }

  function MirrorByte(b: byte): byte {
    Pow2Values();
    RevBits(b, 8)
  }

  lemma MirroredByte(data: seq<byte>, t: nat)
    ensures Msb(Mirror(data), 8 * t, 8) == ByteAt(data, t)
  {
    hide Bits, Msb;
    Pow2Values();
    BitsOfByte(Mirror(data), t);
    RevOfBits(Mirror(data), 8 * t, 8);
    RevBitsInvolution(ByteAt(data, t), 8);
    assert RevBits(0, 8) == 0;
  }

  /** Past the last byte the stream is zeros. */
  lemma {:induction false} ZeroTail(stream: seq<byte>, p: nat, n: nat)
    requires p >= 8 * |stream|
    ensures Msb(stream, p, n) == 0
  {
    if n > 0 {
      ZeroTail(stream, p, n - 1);
      ZeroBits((p + n - 1) % 8);
    }
  }

  /** The value of n bits k as a signed coefficient (figure F.12 of T.81). */
  function Extend(k: nat, n: nat): int
    requires n > 0
  {
    if k < Pow2(n - 1) then k as int - Pow2(n) as int + 1 else k
  }

  // The bit buffer: the codeBits next bits, left aligned in 32

  ghost predicate Holds(stream: seq<byte>, p: nat, n: nat, buffer: nat) {
    n <= 32 && buffer == Msb(stream, p, n) * Pow2(32 - n)
  }

  /** A longer window of zeros past the end is held too. */
  lemma HoldsMore(stream: seq<byte>, p: nat, n: nat, m: nat, buffer: nat)
    requires Holds(stream, p, n, buffer) && n <= m <= 32 && p + n >= 8 * |stream|
    ensures Holds(stream, p, m, buffer)
  {
    hide Msb, Pow2;
    MsbSplit(stream, p, n, m - n);
    ZeroTail(stream, p + n, m - n);
    Pow2Add(m - n, 32 - m);
    MulAssoc(Msb(stream, p, n), Pow2(m - n), Pow2(32 - m));
  }

  lemma MulAssoc(a: nat, b: nat, c: nat)
    ensures (a * b) * c == a * (b * c)
  {}

  /** The top k held bits are the next k of the stream. */
  lemma TopBits(stream: seq<byte>, p: nat, n: nat, buffer: nat, k: nat)
    requires Holds(stream, p, n, buffer) && k <= n
    ensures Shr(buffer, 32 - k) == Msb(stream, p, k)
  {
    hide Msb, Pow2, Shr;
    var v := Msb(stream, p, n);
    SplitUnique(v, 0, 32 - n);
    MsbPrefix(stream, p, k, n - k);
    ShrShr(buffer, 32 - n, n - k);
  }

  /** Shifting s held bits out leaves the rest left aligned. */
  lemma DropBits(stream: seq<byte>, p: nat, n: nat, buffer: nat, s: nat)
    requires Holds(stream, p, n, buffer) && s <= n
    ensures Holds(stream, p + s, n - s, Low(Shl(buffer, s), 32))
  {
    hide Msb, Pow2, Shl, Low;
    var a, b, v := Msb(stream, p, s), Msb(stream, p + s, n - s), Msb(stream, p, n);
    MsbSplit(stream, p, s, n - s);
    DropNumbers(v, a, b, buffer, n, s);
  }

  lemma DropNumbers(v: nat, a: nat, b: nat, buffer: nat, n: nat, s: nat)
    requires s <= n <= 32 && buffer == v * Pow2(32 - n) && v == a * Pow2(n - s) + b && b < Pow2(n - s)
    ensures Low(Shl(buffer, s), 32) == b * Pow2(32 - n + s)
  {
    hide Pow2, Shl, Low;
    ShlMul(buffer, s);
    Pow2Add(32 - n, s);
    Pow2Add(n - s, 32 - n + s);
    MulAssoc(v, Pow2(32 - n), Pow2(s));
    ScaleSplit(v, a, b, Pow2(n - s), Pow2(32 - n + s), Pow2(32));
    SplitUnique(a, b * Pow2(32 - n + s), 32);
  }

  lemma SmallerProduct(a: nat, b: nat, c: nat)
    requires a < b && c > 0
    ensures a * c < b * c
  {
    MulMono(a + 1, b, c);
    Distribute(a, 1, c);
  }

  /** A byte merged below the held bits extends them. */
  lemma AddByte(stream: seq<byte>, p: nat, n: nat, buffer: nat, b: byte)
    requires Holds(stream, p, n, buffer) && n <= 24 && b == Msb(stream, p + n, 8)
    ensures Holds(stream, p, n + 8, Or(Shl(b, 24 - n), buffer))
  {
    hide Msb, Pow2, Shl, Or;
    var v := Msb(stream, p, n);
    MsbSplit(stream, p, n, 8);
    ShlMul(b, 24 - n);
    ShlMul(v, 32 - n);
    Pow2Add(8, 24 - n);
    Pow2Values();
    SmallerProduct(b, Pow2(8), Pow2(24 - n));
    OrShifted(Shl(b, 24 - n), v, 32 - n);
    Distribute(v * Pow2(8), b, Pow2(24 - n));
    MulAssoc(v, Pow2(8), Pow2(24 - n));
  }

  /** How many bits the buffer holds: none when more have been taken than there were. */
  function Have(n: int): nat {
    if n < 0 then 0 else n
  }

  /** The buffer holds the next n bits; n is negative when zeros past the end have been taken. */
  ghost predicate Held(stream: seq<byte>, p: nat, n: int, buffer: nat) {
    Holds(stream, p, Have(n), buffer) && (n < 0 ==> p + n >= 8 * |stream|)
  }

  /** Taking s bits, held or past the end. */
  lemma DropHeld(stream: seq<byte>, p: nat, n: int, buffer: nat, s: nat)
    requires Held(stream, p, n, buffer) && s <= 32 && (s <= n || p + n >= 8 * |stream|)
    ensures Held(stream, p + s, n - s, Low(Shl(buffer, s), 32))
  {
    hide Holds, Low, Shl;
    if s <= n {
      DropBits(stream, p, n, buffer, s);
    } else {
      HoldsMore(stream, p, Have(n), s, buffer);
      DropBits(stream, p, s, buffer, s);
    }
  }

  /** Topping up with the next byte, a zero past the end. */
  lemma AddHeld(stream: seq<byte>, p: nat, n: int, buffer: nat, b: byte)
    requires Held(stream, p, n, buffer) && n <= 24 && p + n >= 0 && b == Msb(stream, p + n, 8)
    ensures Held(stream, p, n + 8, Or(Shl(b, 24 - n), buffer))
  {
    hide Msb, Shl, Or, Holds;
    if n >= 0 {
      AddByte(stream, p, n, buffer, b);
    } else {
      ZeroTail(stream, p + n, 8);
      ShlZero(24 - n);
      OrZero(buffer);
      HoldsLonger(stream, p, Have(n + 8), buffer);
    }
  }

  lemma HoldsLonger(stream: seq<byte>, p: nat, m: nat, buffer: nat)
    requires Holds(stream, p, 0, buffer) && m <= 32 && p >= 8 * |stream|
    ensures Holds(stream, p, m, buffer)
  {
    hide Holds;
    HoldsMore(stream, p, 0, m, buffer);
  }

  lemma ShlZero(n: nat)
    ensures Shl(0, n) == 0
  {
    hide Shl, Pow2;
    ShlMul(0, n);
  }

  /** The symbol to come has the number that marks windows without an accelerated symbol. */
  predicate Clashes(lens: seq<nat>, d: Decoded) {
    |lens| == 256 && d.Symbol? && d.sym == 255 && d.len <= FAST_BITS
  }

  /** The number decoded in place of symbol 255 with a code word of l bits: the bits that follow
      it, up to the tenth, count from the last 2^(10 - l) symbols. (It has eight or nine.) */
  function Misread(stream: seq<byte>, p: nat, l: nat): (i: byte)
    ensures 8 <= l <= FAST_BITS ==> i as int == 256 - Pow2(10 - l) + Msb(stream, p + l, 10 - l)
  {
    Pow2Values();
    if 8 <= l <= FAST_BITS then 256 - Pow2(10 - l) + Msb(stream, p + l, 10 - l) else 255
  }

  class JpegBits {
    const input: seq<byte>
    const start: nat
    var pos: nat
    var codeBuffer: uint32
    var codeBits: int
    var marker: byte
    var nomore: bool
    ghost var taken: nat  // entropy-coded bytes taken, counting the zeros read past the end

    /** The bits to decode: the entropy-coded bytes, then zeros. */
    ghost function Stream(): seq<byte>
      reads this
    {
      Mirror(Entropy(input, start))
    }

    ghost function Position(): int
      reads this
    {
      8 * taken - codeBits
    }

    /** What is left to take is what the input holds from pos on. */
    ghost predicate SourceValid()
      reads this
    {
      var data := Entropy(input, start);
      pos <= |input| &&
      if nomore || taken > |data| then taken >= |data| && (!nomore ==> pos >= |input|)
      else Entropy(input, pos) == data[taken..]
    }

    ghost predicate Valid()
      reads this
    {
      && SourceValid() && codeBits <= 32 && codeBits <= 8 * taken
      && Held(Stream(), Position(), codeBits, codeBuffer)
    }

    constructor (data: seq<byte>, from: nat)
      requires from <= |data|
      ensures Valid() && Position() == 0 && input == data && start == from
    {
      input, start, pos := data, from, from;
      codeBuffer, codeBits, marker, nomore, taken := 0, 0, 0, false, 0;
    }

    method Get8() returns (b: byte)
      modifies this`pos
      ensures b == ByteAt(input, old(pos))
      ensures pos == if old(pos) < |input| then old(pos) + 1 else old(pos)
    {
      if pos >= |input| {
        return 0;
      }
      b := input[pos];
      pos := pos + 1;
    }

    /** The first byte after a 0xff that is not a fill byte. */
    method SkipFillBytes() returns (c: byte)
      requires pos <= |input|
      modifies this`pos
      ensures var q := SkipFill(input, old(pos));
              c == ByteAt(input, q) && pos == if q < |input| then q + 1 else |input|
    {
      ghost var p := pos;
      c := Get8();
      while c == 0xff
        modifies this`pos
        invariant p <= pos <= |input|
        invariant c == 0xff ==> p < pos && SkipFill(input, p) == SkipFill(input, pos)
        invariant c != 0xff ==> var q := SkipFill(input, p);
                                c == ByteAt(input, q) && pos == if q < |input| then q + 1 else |input|
        decreases |input| - pos, c
      {
        c := Get8();
      }
    }

    /** The next entropy-coded byte, or a marker. */
    method NextByte() returns (b: byte, stop: bool)
      requires SourceValid()
      modifies this`pos, this`taken, this`marker, this`nomore
      ensures SourceValid()
      ensures stop ==> nomore && taken == old(taken)
      ensures !stop ==> b == ByteAt(Entropy(input, start), old(taken)) && taken == old(taken) + 1
      ensures !stop ==> nomore == old(nomore)
    {
      hide SkipFill;
      stop := false;
      b := 0;
      ghost var data := Entropy(input, start);
      if !nomore {
        if taken <= |data| {
          EntropyStep(input, pos, data, taken);
        }
        b := Get8();
      }
      if b == 0xff {
        var c := SkipFillBytes();
        if c != 0 {
          marker := c;
          nomore := true;
          return b, true;
        }
      }
      taken := taken + 1;
    }

    /** Tops the buffer up to more than 24 bits, unless a marker ends the data. */
    method GrowBuffer()
      requires Valid() && codeBits <= 24
      modifies this
      ensures Valid() && Position() == old(Position()) && codeBits >= old(codeBits)
      ensures codeBits >= 25 || (nomore && Position() + codeBits >= 8 * |Stream()|)
    {
      hide Holds, Entropy, Msb, Shl, Or, Held;
      var first := true;
      while first || codeBits <= 24
        invariant Valid() && Position() == old(Position()) && codeBits >= old(codeBits)
        invariant first ==> codeBits <= 24
        decreases first, 32 - codeBits
      {
        first := false;
        ghost var t, p := taken, Position();
        var b, stop := NextByte();
        if stop {
          return;
        }
        MirroredByte(Entropy(input, start), t);
        AddHeld(Stream(), p, codeBits, codeBuffer, b);
        BufferBound(Stream(), p, codeBits + 8, Or(Shl(b, 24 - codeBits), codeBuffer));
        codeBuffer := Or(Shl(b, 24 - codeBits), codeBuffer);
        codeBits := codeBits + 8;
      }
    }

    /** Decodes one symbol: the value of what the bit-at-a-time decoder finds, as long as its
        code word lies within the bits held after topping up; otherwise -1. Only a marker can
        leave fewer than sixteen bits. A symbol whose number is the marker of the table is
        misread instead. */
    method HuffDecode(h: JHuffman, ghost lens: seq<nat>) returns (r: int, ghost held: int)
      requires Valid() && h.Valid() && h.Represents(lens)
      modifies this
      ensures held >= 16 || (nomore && old(Position()) + held >= 8 * |Stream()|)
      ensures old(codeBits) >= 16 ==> held == old(codeBits)
      ensures var d := Decode(lens, Stream(), old(Position()), MAX);
              if Clashes(lens, d) then
                if held <= FAST_BITS then r == -1
                else
                  && r == h.values[Misread(Stream(), old(Position()), d.len)]
                  && Valid() && Position() == old(Position()) + FAST_BITS + 1
              else if d.Symbol? && d.len <= held then
                r == h.values[d.sym] && Valid() && Position() == old(Position()) + d.len
              else r == -1
    {
      hide Holds, Held, Entropy, Msb, Decode, Shr, Shl, Low, Pow2, JHuffman.Represents, Misread;
      assert this !in h.Repr();
      if codeBits < 16 {
        GrowBuffer();
      }
      held := codeBits;
      ghost var p := Position();
      Pow2Values();
      Top(Stream(), p, held, codeBuffer, 9);
      FastAnswers(lens, Stream(), p, h);
      var c := And(Shr(codeBuffer, 32 - FAST_BITS), FAST_SIZE - 1);
      var k := h.fast[c];
      if k < 255 {
        var s := h.size[k];
        if s > codeBits {
          return -1, held;
        }
        Skip(s);
        r := h.values[k];
      } else {
        r := HuffDecodeSlow(h, lens);
      }
    }

    method HuffDecodeSlow(h: JHuffman, ghost lens: seq<nat>) returns (r: int)
      requires Valid() && h.Valid() && h.Represents(lens)
      requires codeBits >= 16 || nomore
      requires Window(Stream(), Position()) >= Hi(lens, FAST_BITS) || Clashes(lens, Decode(lens, Stream(), Position(), MAX))
      modifies this`codeBuffer, this`codeBits
      ensures var d := Decode(lens, Stream(), old(Position()), MAX);
              if Clashes(lens, d) then
                if old(codeBits) <= FAST_BITS then r == -1
                else
                  && r == h.values[Misread(Stream(), old(Position()), d.len)]
                  && Valid() && Position() == old(Position()) + FAST_BITS + 1
              else if d.Symbol? && d.len <= old(codeBits) then
                r == h.values[d.sym] && Valid() && Position() == old(Position()) + d.len
              else r == -1
    {
      hide Holds, Held, Entropy, Msb, Decode, Shr, Shl, Low, Pow2, Or, And, First, Shorter, Count, Code, Kraft;
      hide FastCorrect, CodesCorrect, SizesCorrect, BoundsCorrect, Sorted, Bounded, Misread;
      ghost var p := Position();
      ghost var clash := Clashes(lens, Decode(lens, Stream(), p, MAX));
      Top(Stream(), p, codeBits, codeBuffer, 16);
      Pow2Values();
      var k := ScanLength(h, lens, Shr(codeBuffer, 16));
      if k == 17 {
        HiIsKraft(lens);
        NoCodeBeyondKraft(lens, Stream(), p, MAX);
        codeBits := codeBits - 16;
        return -1;
      }
      ghost var i := SlowHit(lens, Stream(), p, k);
      if k > codeBits {
        return -1;
      }
      Top(Stream(), p, codeBits, codeBuffer, k);
      ShlMul(1, k);
      TableAt(lens, h, k);
      var c := And(Shr(codeBuffer, 32 - k), Shl(1, k) - 1) + h.delta[k];
      if !clash {
        SymbolAt(lens, h, i);
        assert c == i && h.size[c] == k;
        assert And(Shr(codeBuffer, 32 - h.size[c]), Shl(1, h.size[c]) - 1) == h.code[c];
      }
      Skip(k);
      r := h.values[c];
    }

    /** The first length from ten on whose bound exceeds the window, or 17. */
    method ScanLength(h: JHuffman, ghost lens: seq<nat>, temp: nat) returns (k: nat)
      requires h.Valid() && h.Represents(lens) && temp < 65536
      ensures FAST_BITS < k <= 17 && (k > FAST_BITS + 1 ==> temp >= Hi(lens, k - 1))
      ensures k < 17 ==> temp < Hi(lens, k)
    {
      hide Hi, FastCorrect, CodesCorrect, SizesCorrect, BoundsCorrect, Kraft;
      k := FAST_BITS + 1;
      TableAt(lens, h, k);
      while temp >= h.maxcode[k]
        invariant FAST_BITS < k <= 17 && (k > FAST_BITS + 1 ==> temp >= Hi(lens, k - 1))
        invariant if k == 17 then h.maxcode[k] == 0xffff_ffff else h.maxcode[k] == Hi(lens, k)
        decreases 17 - k
      {
        k := k + 1;
        TableAt(lens, h, k);
      }
    }

    /** Drops s bits, of those held or of the zeros past the end. */
    method Skip(s: nat)
      requires Valid() && s <= 32 && (s <= codeBits || Position() + codeBits >= 8 * |Stream()|)
      modifies this`codeBuffer, this`codeBits
      ensures Valid() && Position() == old(Position()) + s && codeBits == old(codeBits) - s
    {
      hide Entropy, Msb, Low, Shl, Pow2, Held;
      DropHeld(Stream(), Position(), codeBits, codeBuffer, s);
      LowBelow(Shl(codeBuffer, s));
      codeBuffer := Low(Shl(codeBuffer, s), 32);
      codeBits := codeBits - s;
    }

    /** Reads n bits as a signed coefficient. */
    method ExtendReceive(n: nat) returns (r: int)
      requires Valid() && 1 <= n <= 15
      modifies this
      ensures r == Extend(Msb(Stream(), old(Position()), n), n)
      ensures Valid() && Position() == old(Position()) + n
    {
      hide Holds, Held, Entropy, Msb, Decode, Shr, Shl, Low, Pow2;
      if codeBits < n {
        GrowBuffer();
      }
      ghost var p, held := Position(), codeBits;
      Top(Stream(), p, held, codeBuffer, n);
      Top(Stream(), p, held, codeBuffer, 1);
      SignBit(Stream(), p, n);
      var sgn := Shr(codeBuffer, 31);
      RotateStep(codeBuffer, n);
      var k := Or(Shr(codeBuffer, 32 - n), Low(Shl(codeBuffer, n), 32));
      DropHeld(Stream(), p, held, codeBuffer, n);
      codeBuffer := And(k, Pow2(32) - Pow2(n));
      k := And(k, Pow2(n) - 1);
      codeBits := codeBits - n;
      r := k + (if sgn == 1 then 0 else 1 - Pow2(n));
    }
  }

  lemma LowBelow(v: nat)
    ensures Low(v, 32) < 0x1_0000_0000
  {
    hide Low;
    Pow2Wide();
  }

  /** The k most significant bits of the buffer are the next k of the stream, even beyond the
      held ones when the data has ended. */
  lemma Top(stream: seq<byte>, p: nat, n: int, buffer: nat, k: nat)
    requires Held(stream, p, n, buffer) && k <= 16
    requires n >= 16 || n >= k || p + n >= 8 * |stream|
    ensures Shr(buffer, 32 - k) == Msb(stream, p, k)
    ensures And(Shr(buffer, 32 - k), Pow2(k) - 1) == Msb(stream, p, k)
  {
    hide Msb, Pow2, Shr, Holds;
    if n >= k {
      TopBits(stream, p, n, buffer, k);
    } else if Have(n) < k {
      HoldsMore(stream, p, Have(n), k, buffer);
      TopBits(stream, p, k, buffer, k);
    } else {
      TopBits(stream, p, Have(n), buffer, k);
    }
    AndMask(Msb(stream, p, k), k);
    LowShort(Msb(stream, p, k), k);
  }

  /** The first of n bits decides the sign. */
  lemma SignBit(stream: seq<byte>, p: nat, n: nat)
    requires n >= 1
    ensures Msb(stream, p, 1) == 1 <==> Msb(stream, p, n) >= Pow2(n - 1)
    ensures Msb(stream, p, 1) <= 1
  {
    hide Msb;
    MsbSplit(stream, p, 1, n - 1);
    Pow2Values();
  }

  /** Rotating left by n brings the top n bits to the bottom, below the rest moved up. */
  lemma RotateStep(v: uint32, n: nat)
    requires 1 <= n <= 15
    ensures var k := Or(Shr(v, 32 - n), Low(Shl(v, n), 32));
            && Pow2(n) <= Pow2(32)
            && And(k, Pow2(n) - 1) == Shr(v, 32 - n) && And(k, Pow2(32) - Pow2(n)) == Low(Shl(v, n), 32)
            && Low(Shl(v, n), 32) < 0x1_0000_0000
  {
    hide Shr, Shl, Low, Pow2, Or, And;
    var a, b := Shr(v, 32 - n), Low(v, 32 - n);
    RotateLow(v, n);
    TopSmall(v, n);
    ShlMul(b, n);
    OrShifted(a, b, n);
    SplitUnique(b, a, n);
    var k := a + b * Pow2(n);
    AndMask(k, n);
    Pow2Add(32 - n, n);
    MulMono(b + 1, Pow2(32 - n), Pow2(n));
    Distribute(b, 1, Pow2(n));
    Pow2Wide();
    AndHigh(k, n, 32);
  }

  lemma RotateLow(v: uint32, n: nat)
    requires 1 <= n <= 15
    ensures Low(Shl(v, n), 32) == Shl(Low(v, 32 - n), n)
  {
    hide Shr, Shl, Low, Pow2;
    var a, b := Shr(v, 32 - n), Low(v, 32 - n);
    ShrLow(v, 32 - n);
    ShlMul(v, n);
    ShlMul(b, n);
    Pow2Add(32 - n, n);
    ScaleSplit(v, a, b, Pow2(32 - n), Pow2(n), Pow2(32));
    SplitUnique(a, b * Pow2(n), 32);
  }

  lemma TopSmall(v: uint32, n: nat)
    requires n <= 32
    ensures Shr(v, 32 - n) < Pow2(n)
  {
    hide Shr, Pow2, Low;
    ShrLow(v, 32 - n);
    Pow2Wide();
    Pow2Add(n, 32 - n);
    if Shr(v, 32 - n) >= Pow2(n) {
      MulMono(Pow2(n), Shr(v, 32 - n), Pow2(32 - n));
    }
  }

  /** What the 9-bit table says: the symbol the reference decoder finds, or that the code word
      is longer than nine bits or that of the clashing symbol. */
  lemma FastAnswers(lens: seq<nat>, stream: seq<byte>, p: nat, h: JHuffman)
    requires h.Valid() && h.Represents(lens)
    ensures Msb(stream, p, 9) < FAST_SIZE
    ensures var k, d := h.fast[Msb(stream, p, 9)], Decode(lens, stream, p, MAX);
            if k < 255 then k < |lens| && h.size[k] == lens[k] && d == Symbol(k, lens[k])
            else Window(stream, p) >= Hi(lens, FAST_BITS) || Clashes(lens, d)
  {
    hide Msb, Decode, Shr, Pow2;
    Pow2Values();
    FastMeans(lens, stream, p, h.fast[..]);
  }

  lemma FastMeans(lens: seq<nat>, stream: seq<byte>, p: nat, fast: seq<byte>)
    requires |fast| == FAST_SIZE && |lens| <= MAX_SYMBOLS && Bounded(lens, MAX) && FastCorrect(lens, |lens|, fast)
    requires Msb(stream, p, 9) < FAST_SIZE
    ensures var k, d := fast[Msb(stream, p, 9)], Decode(lens, stream, p, MAX);
            if k < 255 then ShortMatch(lens, k, Msb(stream, p, 9)) && d == Symbol(k, lens[k])
            else Window(stream, p) >= Hi(lens, FAST_BITS) || Clashes(lens, d)
  {
    hide Msb, Decode, Shr, Pow2, Code;
    var w, k := Msb(stream, p, 9), Window(stream, p);
    WindowPrefix(stream, p, 9);
    assert FastCorrectAt(lens, |lens|, fast, w);
    if fast[w] < 255 {
      var i: nat :| i < |lens| && ShortMatch(lens, i, w);
      ShortMatchWindow(lens, i, k);
      MatchIsDecode(lens, stream, p, MAX, i);
    } else if k < Hi(lens, FAST_BITS) {
      var l := PartOf(lens, k, FAST_BITS);
      var i := PartHasMatch(lens, l, k);
      ShortMatchWindow(lens, i, k);
      MatchIsDecode(lens, stream, p, MAX, i);
    }
  }

  /** On the clashing symbol's code word the scan for a length stops at ten bits at once, and
      what it makes of them. */
  lemma ClashReads(lens: seq<nat>, stream: seq<byte>, p: nat)
    requires Sorted(lens) && Decodable(lens) && Clashes(lens, Decode(lens, stream, p, MAX))
    ensures var l := lens[255];
            && Decode(lens, stream, p, MAX) == Symbol(255, l) && 8 <= l <= FAST_BITS
            && Window(stream, p) < Hi(lens, FAST_BITS + 1)
            && Msb(stream, p, 10) + (Shorter(lens, 10) - First(lens, 10)) == Misread(stream, p, l)
  {
    hide Msb, Decode, Shr, Kraft, Shorter, Misread, Code, First, Sorted;
    var l := lens[255];
    DecodeIsMatch(lens, stream, p, MAX);
    ClashLengths(lens);
    MatchInPart(lens, 255, Window(stream, p));
    HiMonotone(lens, l, FAST_BITS + 1);
    WindowPrefix(stream, p, l);
    MsbSplit(stream, p, l, 10 - l);
    LastCode(lens, l);
    Pow2Values();
  }

  /** The last symbol has the last code, all symbols come before the codes of ten bits, and
      those start where the last code leaves off. */
  lemma LastCode(lens: seq<nat>, l: nat)
    requires Sorted(lens) && |lens| == 256 && lens[255] == l && 8 <= l <= FAST_BITS
    ensures Code(lens, 255) + 1 == End(lens, l) && Shorter(lens, 10) == 256
    ensures First(lens, 10) == Pow2(10 - l) * (Code(lens, 255) + 1)
  {
    hide Shorter, Pow2;
    AllShorter(lens, 10);
    Pow2Values();
    if l == 8 {
      NoneOfLength(lens, 9);
    }
  }

  /** What the decoder returns for the clashing symbol is its value only by chance, and the
      assertion that the symbol found has the code word read holds only then. */
  lemma MisreadIsWrong(lens: seq<nat>, stream: seq<byte>, p: nat)
    requires Sorted(lens) && Decodable(lens) && Clashes(lens, Decode(lens, stream, p, MAX))
    ensures 8 <= lens[255] <= FAST_BITS
    ensures var i := Misread(stream, p, lens[255]);
            && (Msb(stream, p, lens[i]) == Code(lens, i) <==> i == 255)
            && (i == 255 <==> Msb(stream, p + lens[255], 10 - lens[255]) == Pow2(10 - lens[255]) - 1)
  {
    hide Msb, Decode, Shr, Kraft, Code, Misread;
    ClashReads(lens, stream, p);
    DecodeIsMatch(lens, stream, p, MAX);
    var i := Misread(stream, p, lens[255]);
    WindowPrefix(stream, p, lens[i]);
    if Msb(stream, p, lens[i]) == Code(lens, i) {
      AtMostOneMatch(lens, i, 255, Window(stream, p));
    }
    WindowPrefix(stream, p, lens[255]);
  }

  /** The first length whose bound exceeds the window is the matching symbol's, unless the
      symbol clashes with the marker. */
  lemma SlowHit(lens: seq<nat>, stream: seq<byte>, p: nat, s: nat) returns (i: nat)
    requires Decodable(lens) && Sorted(lens) && FAST_BITS < s <= MAX
    requires Window(stream, p) < Hi(lens, s)
    requires s > FAST_BITS + 1 ==> Window(stream, p) >= Hi(lens, s - 1)
    requires Window(stream, p) >= Hi(lens, FAST_BITS) || Clashes(lens, Decode(lens, stream, p, MAX))
    ensures var d, c := Decode(lens, stream, p, MAX), Msb(stream, p, s) + (Shorter(lens, s) - First(lens, s));
            if Clashes(lens, d) then s == FAST_BITS + 1 && c == Misread(stream, p, d.len)
            else i < |lens| && lens[i] == s && d == Symbol(i, s) && Code(lens, i) == Msb(stream, p, s) && c == i
  {
    hide Msb, Decode, Shr, Kraft, Misread, Shorter;
    i := 0;
    if Clashes(lens, Decode(lens, stream, p, MAX)) {
      ClashReads(lens, stream, p);
      if s > FAST_BITS + 1 {
        HiMonotone(lens, FAST_BITS + 1, s - 1);
      }
    } else {
      i := PartHasMatch(lens, s, Window(stream, p));
      MatchIsDecode(lens, stream, p, MAX, i);
      WindowPrefix(stream, p, s);
      SlotIsIndex(lens, i);
    }
  }

  lemma TableAt(lens: seq<nat>, h: JHuffman, k: nat)
    requires h.Valid() && h.Represents(lens) && 1 <= k <= 17
    ensures Bounded(lens, MAX) && Sorted(lens)
    ensures if k == 17 then h.maxcode[k] == 0xffff_ffff
            else h.maxcode[k] == Hi(lens, k) && h.delta[k] == Shorter(lens, k) - First(lens, k)
  {
    hide Hi, Shorter, First, Kraft, FastCorrect;
  }

  lemma SymbolAt(lens: seq<nat>, h: JHuffman, i: nat)
    requires h.Valid() && h.Represents(lens) && i < |lens|
    ensures h.size[i] == lens[i] && h.code[i] == Code(lens, i)
  {
    hide Code, Kraft, FastCorrect;
    CodeFits(lens, i);
    Pow2Monotone(lens[i], 16);
    Pow2Values();
  }

  // The combined table for small coefficients

  /** The magnitude bits that follow a code word of length len in a 9-bit window, as the table
      builder picks them out. */
  function AcBits(w: nat, len: nat, mag: nat): nat
    requires mag <= FAST_BITS
  {
    Shr(Low(Shl(w, len), FAST_BITS), FAST_BITS - mag)
  }

  lemma AcBitsOnStream(stream: seq<byte>, p: nat, len: nat, mag: nat)
    requires len + mag <= FAST_BITS
    ensures AcBits(Msb(stream, p, 9), len, mag) == Msb(stream, p + len, mag)
  {
    hide Msb, Pow2, Shl, Shr, Low;
    var w, rest := Msb(stream, p, 9), 9 - len - mag;
    var a, b, c := Msb(stream, p, len), Msb(stream, p + len, 9 - len), Msb(stream, p + len, mag);
    var d := Msb(stream, p + len + mag, rest);
    MsbSplit(stream, p, len, 9 - len);
    MsbSplit(stream, p + len, mag, rest);
    ShlMul(w, len);
    Pow2Add(9 - len, len);
    Pow2Add(rest, len);
    ScaleSplit(w, a, b, Pow2(9 - len), Pow2(len), Pow2(9));
    SplitUnique(a, b * Pow2(len), 9);
    ScaleSplit(b, c, d, Pow2(rest), Pow2(len), Pow2(9 - mag));
    SplitUnique(c, d * Pow2(len), 9 - mag);
  }

  /** Scaling a quotient and remainder. */
  lemma ScaleSplit(v: nat, a: nat, b: nat, q: nat, s: nat, qs: nat)
    requires v == a * q + b && b < q && qs == q * s && s > 0
    ensures v * s == a * qs + b * s && b * s < qs
  {
    SplitStep(a, q, s, b);
    SmallerProduct(b, q, s);
  }

  /** What the combined table holds for window w when a code word of length len for value rs
      begins it: value, run and total length packed, or zero where they do not fit. */
  function PackedOf(rs: byte, len: nat, w: nat): (r: int) {
    var run, mag := rs / 16, rs % 16;
    if mag == 0 || len + mag > FAST_BITS then 0
    else
      var v := Extend(AcBits(w, len, mag), mag);
      if -128 <= v <= 127 then v * 256 + run * 16 + len + mag else 0
  }

  /** The table's entry at w: a packed coefficient, or zero. */
  ghost predicate FastAcAt(lens: seq<nat>, values: seq<byte>, fast: seq<byte>, w: nat, r: int)
    requires |fast| == FAST_SIZE && w < FAST_SIZE
  {
    if fast[w] < 255 && fast[w] < |lens| && fast[w] < |values| then r == PackedOf(values[fast[w]], lens[fast[w]], w) else r == 0
  }

  /** Builds the combined table. Entries fit 16-bit signed integers. */
  method BuildFastAc(fastAc: array<int>, h: JHuffman, ghost lens: seq<nat>)
    requires fastAc.Length == FAST_SIZE && h.Valid() && fastAc as object !in h.Repr() && fastAc as object != h.values
    requires h.Represents(lens)
    modifies fastAc
    ensures forall w :: 0 <= w < FAST_SIZE ==> FastAcAt(lens, h.values[..], h.fast[..], w, fastAc[w])
    ensures forall w :: 0 <= w < FAST_SIZE ==> -32768 <= fastAc[w] <= 32767
  {
    hide PackedOf, Kraft, FastCorrect, CodesCorrect, BoundsCorrect, Sorted, Code, Shr;
    for i := 0 to FAST_SIZE
      invariant h.Represents(lens)
      invariant forall w :: 0 <= w < i ==> FastAcAt(lens, h.values[..], h.fast[..], w, fastAc[w])
      invariant forall w :: 0 <= w < i ==> -32768 <= fastAc[w] <= 32767
    {
      var r := 0;
      var fast := h.fast[i];
      if fast < 255 {
        EntryWithin(lens, h.fast[..], i);
        assert h.size[fast] == lens[fast];
        r := FastAcEntry(i, h.values[fast], h.size[fast]);
      }
      fastAc[i] := r;
    }
  }

  /** One entry of the combined table, for a short code word of length len with value rs. */
  method FastAcEntry(i: nat, rs: byte, len: nat) returns (r: int)
    requires i < FAST_SIZE && 1 <= len <= FAST_BITS
    ensures r == PackedOf(rs, len, i) && -32768 <= r <= 32767
  {
    hide Extend, Low, Shl, Shr, And;
    r := 0;
    SplitByte(rs);
    var run := And(Shr(rs, 4), 15);
    var magbits := And(rs, 15);
    if magbits > 0 && len + magbits <= FAST_BITS {
      WindowMask(i, len);
      var k: int := Shr(And(Shl(i, len), FAST_SIZE - 1), FAST_BITS - magbits);
      var m := Shl(1, magbits - 1);
      ExtendStep(k, magbits);
      if k < m {
        k := k + (1 - Shl(1, magbits));
      }
      if -128 <= k <= 127 {
        r := k * 256 + run * 16 + len + magbits;
      }
    }
  }

  /** An entry other than the marker is a symbol of the code. */
  lemma EntryWithin(lens: seq<nat>, fast: seq<byte>, w: nat)
    requires |fast| == FAST_SIZE && w < FAST_SIZE && FastCorrect(lens, |lens|, fast) && fast[w] < 255
    ensures ShortMatch(lens, fast[w], w)
  {
    hide ShortMatch;
    assert FastCorrectAt(lens, |lens|, fast, w);
  }

  lemma SplitByte(rs: byte)
    ensures And(Shr(rs, 4), 15) == rs / 16 && And(rs, 15) == rs % 16
  {
    hide Shr, Low, And;
    Pow2Values();
    SplitUnique(rs / 16, rs % 16, 4);
    AndMask(rs, 4);
    AndMask(rs / 16, 4);
    LowShort(rs / 16, 4);
  }

  lemma WindowMask(w: nat, len: nat)
    ensures And(Shl(w, len), FAST_SIZE - 1) == Low(Shl(w, len), FAST_BITS)
  {
    hide Shl, Low, And;
    Pow2Values();
    AndMask(Shl(w, len), 9);
  }

  lemma ExtendStep(k: nat, n: nat)
    requires n > 0
    ensures Extend(k, n) == if k < Shl(1, n - 1) then k + (1 - Shl(1, n)) else k
  {
    hide Shl;
    ShlMul(1, n - 1);
    ShlMul(1, n);
  }

  /** A packed entry unpacks: its low four bits, the next four, and the signed rest. */
  lemma Unpack(v: int, run: nat, total: nat)
    requires run < 16 && total < 16
    ensures var r := v * 256 + run * 16 + total;
            r / 256 == v && (r / 16) % 16 == run && r % 16 == total
  {
    var q := v * 16 + run;
    assert v * 256 + run * 16 + total == q * 16 + total;
    assert (q * 16 + total) / 16 == q && (q * 16 + total) % 16 == total;
    assert q / 16 == v && q % 16 == run;
  }

  /** The combined table agrees with decoding a symbol and then receiving its coefficient: a
      nonzero entry for the next nine bits packs the same run, the same value and the number
      of bits both take together; and it is nonzero exactly when the two fit nine bits and the
      value fits eight. */
  lemma FastAcAgrees(lens: seq<nat>, stream: seq<byte>, p: nat, values: seq<byte>, fast: seq<byte>, r: int)
    requires |fast| == FAST_SIZE && |lens| <= MAX_SYMBOLS == |values| && Bounded(lens, MAX)
    requires FastCorrect(lens, |lens|, fast)
    requires Msb(stream, p, 9) < FAST_SIZE && FastAcAt(lens, values, fast, Msb(stream, p, 9), r)
    ensures var d := Decode(lens, stream, p, MAX);
            if d.NoCode? || Clashes(lens, d) then r == 0
            else
              var run, mag := values[d.sym] / 16, values[d.sym] % 16;
              if mag == 0 || d.len + mag > FAST_BITS then r == 0
              else
                var v := Extend(Msb(stream, p + d.len, mag), mag);
                if -128 <= v <= 127 then r != 0 && r / 256 == v && (r / 16) % 16 == run && r % 16 == d.len + mag
                else r == 0
  {
    hide Msb, Decode, Extend, AcBits, ShortMatch;
    var w := Msb(stream, p, 9);
    FastMeans(lens, stream, p, fast);
    LongSymbol(lens, stream, p);
    if fast[w] < 255 {
      EntryWithin(lens, fast, w);
      ShortMatchMeans(lens, fast[w], w);
      var run, mag, len := values[fast[w]] / 16, values[fast[w]] % 16, lens[fast[w]];
      if mag > 0 && len + mag <= FAST_BITS {
        AcBitsOnStream(stream, p, len, mag);
        Unpack(Extend(Msb(stream, p + len, mag), mag), run, len + mag);
      }
    }
  }

  lemma ShortMatchMeans(lens: seq<nat>, i: nat, w: nat)
    requires ShortMatch(lens, i, w)
    ensures i < |lens| && 0 < lens[i] <= FAST_BITS
  {}

  /** A window beyond the short codes decodes to a symbol longer than nine bits, or to none. */
  lemma LongSymbol(lens: seq<nat>, stream: seq<byte>, p: nat)
    requires Bounded(lens, MAX) && |lens| <= MAX_SYMBOLS
    ensures var d := Decode(lens, stream, p, MAX);
            Window(stream, p) >= Hi(lens, FAST_BITS) && d.Symbol? ==> d.len > FAST_BITS
  {
    hide Msb, Decode;
    DecodeIsMatch(lens, stream, p, MAX);
    var d := Decode(lens, stream, p, MAX);
    if d.Symbol? && d.len <= FAST_BITS {
      MatchInPart(lens, d.sym, Window(stream, p));
      HiMonotone(lens, d.len, FAST_BITS);
    }
  }

  /** Taking one byte of the entropy-coded data moves past it in the input. */
  lemma EntropyStep(input: seq<byte>, p: nat, data: seq<byte>, t: nat)
    requires t <= |data| && Entropy(input, p) == data[t..]
    ensures p >= |input| ==> t == |data|
    ensures p < |input| && input[p] != 0xff ==>
              t < |data| && data[t] == input[p] && Entropy(input, p + 1) == data[t + 1..]
    ensures p < |input| && input[p] == 0xff ==>
              var q := SkipFill(input, p + 1);
              if ByteAt(input, q) != 0 then t == |data|
              else t < |data| && data[t] == 0xff && Entropy(input, if q < |input| then q + 1 else |input|) == data[t + 1..]
  {
    hide SkipFill;
    if t < |data| {
      assert data[t..][1..] == data[t + 1..] && data[t..][0] == data[t];
    }
  }

  lemma BufferBound(stream: seq<byte>, p: nat, n: int, buffer: nat)
    requires Held(stream, p, n, buffer)
    ensures buffer < 0x1_0000_0000
  {
    hide Msb, Pow2;
    var h := Have(n);
    Pow2Wide();
    Pow2Add(h, 32 - h);
    SmallerProduct(Msb(stream, p, h), Pow2(h), Pow2(32 - h));
  }
}
