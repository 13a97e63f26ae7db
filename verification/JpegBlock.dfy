/** Decoding one 8 by 8 block of a baseline scan (section F.2.2 of ITU-T T.81): the DC difference,
    then runs of zeros and coefficients in zigzag order. */
module JpegBlock {
  import opened BitOps
  import opened BitStream
  import opened Canonical
  import opened JpegTables
  import opened JpegReader

  // Zigzag order

  /** Where the k-th coefficient goes in the block; those that a corrupt stream runs past the end go
      to the last place. */
  function Dezigzag(k: nat): (v: nat)
    ensures v < 64
  {
    if k < 8 then [0, 1, 8, 16, 9, 2, 3, 10][k]
    else if k < 16 then [17, 24, 32, 25, 18, 11, 4, 5][k - 8]
    else if k < 24 then [12, 19, 26, 33, 40, 48, 41, 34][k - 16]
    else if k < 32 then [27, 20, 13, 6, 7, 14, 21, 28][k - 24]
    else if k < 40 then [35, 42, 49, 56, 57, 50, 43, 36][k - 32]
    else if k < 48 then [29, 22, 15, 23, 30, 37, 44, 51][k - 40]
    else if k < 56 then [58, 59, 52, 45, 38, 31, 39, 46][k - 48]
    else if k < 64 then [53, 60, 61, 54, 47, 55, 62, 63][k - 56]
    else 63
  }

  /** The standard's figure 5: the place of each coefficient of the block in the order. */
  const ZIGZAG: seq<seq<nat>> := [
    [0, 1, 5, 6, 14, 15, 27, 28],
    [2, 4, 7, 13, 16, 26, 29, 42],
    [3, 8, 12, 17, 25, 30, 41, 43],
    [9, 11, 18, 24, 31, 40, 44, 53],
    [10, 19, 23, 32, 39, 45, 52, 54],
    [20, 22, 33, 38, 46, 51, 55, 60],
    [21, 34, 37, 47, 50, 56, 59, 61],
    [35, 36, 48, 49, 57, 58, 62, 63]
  ]

  /** The table is the figure's inverse. */
  lemma DezigzagInverts(k: nat)
    requires k < 64
    ensures ZIGZAG[Dezigzag(k) / 8][Dezigzag(k) % 8] == k
  {
    hide Dezigzag;
    if k < 8 {
      Row0(k);
    } else if k < 16 {
      Row1(k);
    } else if k < 24 {
      Row2(k);
    } else if k < 32 {
      Row3(k);
    } else if k < 40 {
      Row4(k);
    } else if k < 48 {
      Row5(k);
    } else if k < 56 {
      Row6(k);
    } else if k < 64 {
      Row7(k);
    }
  }

  lemma Row0(k: nat)
    requires k < 8
    ensures ZIGZAG[Dezigzag(k) / 8][Dezigzag(k) % 8] == k
  {}

  lemma Row1(k: nat)
    requires 8 <= k < 16
    ensures ZIGZAG[Dezigzag(k) / 8][Dezigzag(k) % 8] == k
  {}

  lemma Row2(k: nat)
    requires 16 <= k < 24
    ensures ZIGZAG[Dezigzag(k) / 8][Dezigzag(k) % 8] == k
  {}

  lemma Row3(k: nat)
    requires 24 <= k < 32
    ensures ZIGZAG[Dezigzag(k) / 8][Dezigzag(k) % 8] == k
  {}

  lemma Row4(k: nat)
    requires 32 <= k < 40
    ensures ZIGZAG[Dezigzag(k) / 8][Dezigzag(k) % 8] == k
  {}

  lemma Row5(k: nat)
    requires 40 <= k < 48
    ensures ZIGZAG[Dezigzag(k) / 8][Dezigzag(k) % 8] == k
  {}

  lemma Row6(k: nat)
    requires 48 <= k < 56
    ensures ZIGZAG[Dezigzag(k) / 8][Dezigzag(k) % 8] == k
  {}

  lemma Row7(k: nat)
    requires 56 <= k < 64
    ensures ZIGZAG[Dezigzag(k) / 8][Dezigzag(k) % 8] == k
  {}

  /** Different coefficients go to different places. */
  lemma DezigzagDistinct(k: nat, m: nat)
    requires k < 64 && m < 64 && Dezigzag(k) == Dezigzag(m)
    ensures k == m
  {
    hide Dezigzag;
    DezigzagInverts(k);
    DezigzagInverts(m);
  }

  /** Every place of the block is some coefficient's. */
  lemma PlaceTaken(z: nat)
    requires z < 64
    ensures ZIGZAG[z / 8][z % 8] < 64 && Dezigzag(ZIGZAG[z / 8][z % 8]) == z
  {
    hide Dezigzag;
    if z < 8 {
      Line0(z);
    } else if z < 16 {
      Line1(z);
    } else if z < 24 {
      Line2(z);
    } else if z < 32 {
      Line3(z);
    } else if z < 40 {
      Line4(z);
    } else if z < 48 {
      Line5(z);
    } else if z < 56 {
      Line6(z);
    } else {
      Line7(z);
    }
  }

  lemma Line0(z: nat)
    requires z < 8
    ensures ZIGZAG[z / 8][z % 8] < 64 && Dezigzag(ZIGZAG[z / 8][z % 8]) == z
  {}

  lemma Line1(z: nat)
    requires 8 <= z < 16
    ensures ZIGZAG[z / 8][z % 8] < 64 && Dezigzag(ZIGZAG[z / 8][z % 8]) == z
  {}

  lemma Line2(z: nat)
    requires 16 <= z < 24
    ensures ZIGZAG[z / 8][z % 8] < 64 && Dezigzag(ZIGZAG[z / 8][z % 8]) == z
  {}

  lemma Line3(z: nat)
    requires 24 <= z < 32
    ensures ZIGZAG[z / 8][z % 8] < 64 && Dezigzag(ZIGZAG[z / 8][z % 8]) == z
  {}

  lemma Line4(z: nat)
    requires 32 <= z < 40
    ensures ZIGZAG[z / 8][z % 8] < 64 && Dezigzag(ZIGZAG[z / 8][z % 8]) == z
  {}

  lemma Line5(z: nat)
    requires 40 <= z < 48
    ensures ZIGZAG[z / 8][z % 8] < 64 && Dezigzag(ZIGZAG[z / 8][z % 8]) == z
  {}

  lemma Line6(z: nat)
    requires 48 <= z < 56
    ensures ZIGZAG[z / 8][z % 8] < 64 && Dezigzag(ZIGZAG[z / 8][z % 8]) == z
  {}

  lemma Line7(z: nat)
    requires 56 <= z < 64
    ensures ZIGZAG[z / 8][z % 8] < 64 && Dezigzag(ZIGZAG[z / 8][z % 8]) == z
  {}

  /** The place after place z: up and to the right on the even diagonals, down and to the left on the
      odd ones, and along the edge where a diagonal ends. */
  function Onward(z: nat): nat
    requires z < 63
  {
    var row, col := z / 8, z % 8;
    if (row + col) % 2 == 0 then
      if col == 7 then z + 8 else if row == 0 then z + 1 else z - 7
    else
      if row == 7 then z + 1 else if col == 0 then z + 8 else z + 7
  }

  /** Zigzag order runs along the diagonals. */
  lemma ZigzagRule(k: nat)
    requires k < 63
    ensures Dezigzag(0) == 0 && Dezigzag(k) < 63 && Dezigzag(k + 1) == Onward(Dezigzag(k))
  {
    if k < 8 {
      Rule0(k);
    } else if k < 16 {
      Rule1(k);
    } else if k < 24 {
      Rule2(k);
    } else if k < 32 {
      Rule3(k);
    } else if k < 40 {
      Rule4(k);
    } else if k < 48 {
      Rule5(k);
    } else if k < 56 {
      Rule6(k);
    } else {
      Rule7(k);
    }
  }

  lemma Rule0(k: nat)
    requires k < 8
    ensures Dezigzag(k) < 63 && Dezigzag(k + 1) == Onward(Dezigzag(k))
  {}

  lemma Rule1(k: nat)
    requires 8 <= k < 16
    ensures Dezigzag(k) < 63 && Dezigzag(k + 1) == Onward(Dezigzag(k))
  {}

  lemma Rule2(k: nat)
    requires 16 <= k < 24
    ensures Dezigzag(k) < 63 && Dezigzag(k + 1) == Onward(Dezigzag(k))
  {}

  lemma Rule3(k: nat)
    requires 24 <= k < 32
    ensures Dezigzag(k) < 63 && Dezigzag(k + 1) == Onward(Dezigzag(k))
  {}

  lemma Rule4(k: nat)
    requires 32 <= k < 40
    ensures Dezigzag(k) < 63 && Dezigzag(k + 1) == Onward(Dezigzag(k))
  {}

  lemma Rule5(k: nat)
    requires 40 <= k < 48
    ensures Dezigzag(k) < 63 && Dezigzag(k + 1) == Onward(Dezigzag(k))
  {}

  lemma Rule6(k: nat)
    requires 48 <= k < 56
    ensures Dezigzag(k) < 63 && Dezigzag(k + 1) == Onward(Dezigzag(k))
  {}

  lemma Rule7(k: nat)
    requires 56 <= k < 63
    ensures Dezigzag(k) < 63 && Dezigzag(k + 1) == Onward(Dezigzag(k))
  {}

  // What a block is

  /** (short) */
  function Short(v: int): (r: int)
    ensures -32768 <= r < 32768
  {
    (v + 32768) % 65536 - 32768
  }

  /** One step of the AC procedure: a coefficient after a run of zeros, sixteen zeros, the end of the
      block, or no code word. */
  datatype Step = Coefficient(run: nat, v: int) | Zeros | End | Fail

  /** A symbol and its bits at position p (figure F.13), and how many bits they are. */
  function NextAc(lens: seq<nat>, values: seq<byte>, stream: seq<byte>, p: nat): (Step, nat)
    requires |lens| <= |values|
  {
    match Decode(lens, stream, p, MAX)
    case NoCode => (Fail, 0)
    case Symbol(i, n) =>
      var run, mag := values[i] / 16, values[i] % 16;
      if mag > 0 then (Coefficient(run, Extend(Msb(stream, p + n, mag), mag)), n + mag)
      else if values[i] == 0xf0 then (Zeros, n)
      else (End, n)
  }

  /** A decoded block and the position after it, or the position where a code word is missing. */
  datatype Block = Block(data: seq<int>, p: nat) | BadBlock(p: nat)

  /** The coefficients from the k-th on, dequantised into their places. */
  function ReadAcs(lens: seq<nat>, values: seq<byte>, dequant: seq<nat>, stream: seq<byte>, p: nat, k: nat,
                   data: seq<int>): (r: Block)
    requires |lens| <= |values| && |dequant| == |data| == 64
    ensures r.p >= p && (r.Block? ==> |r.data| == 64)
    decreases 64 - k
  {
    if k >= 64 then Block(data, p)
    else
      var (step, n) := NextAc(lens, values, stream, p);
      match step
      case Fail => BadBlock(p)
      case End => Block(data, p + n)
      case Zeros => ReadAcs(lens, values, dequant, stream, p + n, k + 16, data)
      case Coefficient(run, v) =>
        var zig := Dezigzag(k + run);
        ReadAcs(lens, values, dequant, stream, p + n, k + run + 1, data[zig := Short(v * dequant[zig])])
  }

  /** The DC difference at position p (section F.2.2.1): its category, then its bits. */
  function Difference(t: nat, stream: seq<byte>, p: nat): int {
    if t == 0 then 0 else Extend(Msb(stream, p, t), t)
  }

  function OnlyDc(dc: int): (data: seq<int>)
    ensures |data| == 64 && data[0] == dc && forall i :: 1 <= i < 64 ==> data[i] == 0
  {
    [dc] + seq(63, _ => 0)
  }

  // The decoder

  /** The tables for AC coefficients, the combined one included. */
  ghost predicate AcTables(h: JHuffman, lens: seq<nat>, fac: array<int>)
    reads h.Repr(), h.values, fac
  {
    && h.Valid() && h.Represents(lens) && Accelerable(lens) && fac.Length == FAST_SIZE
    && forall w :: 0 <= w < FAST_SIZE ==> FastAcAt(lens, h.values[..], h.fast[..], w, fac[w])
  }

  /** One step symbol by symbol. */
  method SlowStep(j: JpegBits, h: JHuffman, ghost lens: seq<nat>) returns (step: Step)
    requires j.Valid() && h.Valid() && h.Represents(lens) && |lens| <= 256
    requires !Clashes(lens, Decode(lens, j.Stream(), j.Position(), MAX))
    modifies j
    ensures !step.Fail? ==> j.Valid()
    ensures var p := old(j.Position());
            var (s, n) := NextAc(lens, h.values[..], old(j.Stream()), p);
            p + n <= 8 * |old(j.Stream())| ==> step == s && (!s.Fail? ==> j.Position() == p + n)
  {
    hide Held, Entropy, Msb, Decode, Pow2, Extend, JHuffman.Represents;
    assert j as object !in h.Repr();
    var rs, have := j.HuffDecode(h, lens);
    if rs < 0 {
      return Fail;
    }
    if rs % 16 == 0 {
      return if rs == 0xf0 then Zeros else End;
    }
    var v := j.ExtendReceive(rs % 16);
    step := Coefficient(rs / 16, v);
  }

  /** One step, through the combined table or symbol by symbol. What has been taken then is what the
      step takes, as long as that is not past the end of the data. */
  method AcStep(j: JpegBits, h: JHuffman, fac: array<int>, ghost lens: seq<nat>) returns (step: Step)
    requires j.Valid() && AcTables(h, lens, fac)
    modifies j
    ensures !step.Fail? ==> j.Valid()
    ensures var p := old(j.Position());
            var (s, n) := NextAc(lens, h.values[..], old(j.Stream()), p);
            p + n <= 8 * |old(j.Stream())| ==> step == s && (!s.Fail? ==> j.Position() == p + n)
  {
    hide Held, Entropy, Msb, Decode, Shr, And, Pow2, NextAc, Clashes, FastAcAt, FastCorrect, JHuffman.Represents;
    assert j as object !in h.Repr();
    if j.codeBits < 16 {
      j.GrowBuffer();
    }
    Pow2Values();
    Top(j.Stream(), j.Position(), j.codeBits, j.codeBuffer, 9);
    var c := And(Shr(j.codeBuffer, 32 - FAST_BITS), FAST_SIZE - 1);
    var r := fac[c];
    AcEntry(lens, j.Stream(), j.Position(), h, fac);
    if r != 0 {
      step := Coefficient((r / 16) % 16, r / 256);
      j.Skip(r % 16);
    } else {
      step := SlowStep(j, h, lens);
    }
  }

  /** What the combined table's entry for the next nine bits says. */
  lemma AcEntry(lens: seq<nat>, stream: seq<byte>, p: nat, h: JHuffman, fac: array<int>)
    requires AcTables(h, lens, fac) && Msb(stream, p, 9) < FAST_SIZE
    ensures |lens| <= 256 && !Clashes(lens, Decode(lens, stream, p, MAX))
    ensures var r := fac[Msb(stream, p, 9)];
            r != 0 ==> NextAc(lens, h.values[..], stream, p) == (Coefficient((r / 16) % 16, r / 256), r % 16)
  {
    hide Msb, Decode, Extend, FastAcAt, FastCorrect;
    FastAcAgrees(lens, stream, p, h.values[..], h.fast[..], fac[Msb(stream, p, 9)]);
    DecodeIsMatch(lens, stream, p, MAX);
  }

  /** The block so far is what the whole block is made from, unless that reaches past the end. */
  ghost predicate Underway(all: Block, lens: seq<nat>, values: seq<byte>, dequant: seq<nat>, stream: seq<byte>,
                           p: nat, k: nat, data: seq<int>)
    requires |lens| <= |values| && |dequant| == 64
  {
    |data| == 64 && (all.p <= 8 * |stream| ==> ReadAcs(lens, values, dequant, stream, p, k, data) == all)
  }

  /** Reads the AC coefficients. */
  method DecodeAcs(j: JpegBits, data: array<int>, h: JHuffman, fac: array<int>, dequant: seq<nat>, ghost lens: seq<nat>)
      returns (ok: bool)
    requires j.Valid() && data.Length == 64 == |dequant| && AcTables(h, lens, fac)
    requires data as object !in h.Repr() && data != fac && data as object != h.values
    modifies j, data
    ensures var all := ReadAcs(lens, h.values[..], dequant, old(j.Stream()), old(j.Position()), 1, old(data[..]));
            all.p <= 8 * |old(j.Stream())| ==>
              (ok <==> all.Block?) && (ok ==> data[..] == all.data && j.Valid() && j.Position() == all.p)
  {
    hide Held, Entropy, Msb, Decode, Extend, JHuffman.Represents, FastAcAt, NextAc, AcTables, ReadAcs, Dezigzag;
    ghost var stream, values := j.Stream(), h.values[..];
    TablesFit(h, lens, fac);
    ghost var all := ReadAcs(lens, values, dequant, stream, j.Position(), 1, data[..]);
    var k := 1;
    while k < 64
      invariant 1 <= k && j.Valid() && j.Stream() == stream && h.values[..] == values && AcTables(h, lens, fac)
      invariant Underway(all, lens, values, dequant, stream, j.Position(), k, data[..])
      decreases 64 - k
    {
      ghost var p, before := j.Position(), data[..];
      var step := AcStep(j, h, fac, lens);
      if step.Fail? {
        AcsFail(all, lens, values, dequant, stream, p, k, before);
        return false;
      }
      AcsMove(all, lens, values, dequant, stream, p, k, before, step, j.Position());
      match step
      case Fail =>
      case End =>
        return true;
      case Zeros =>
        k := k + 16;
      case Coefficient(run, v) =>
        k := k + run;
        var zig := Dezigzag(k);
        k := k + 1;
        data[zig] := Short(v * dequant[zig]);
        assert data[..] == before[zig := Short(v * dequant[zig])];
    }
    AcsDone(lens, values, dequant, stream, j.Position(), k, data[..]);
    ok := true;
  }

  lemma TablesFit(h: JHuffman, lens: seq<nat>, fac: array<int>)
    requires AcTables(h, lens, fac)
    ensures |lens| <= 256 == h.values.Length
  {}

  lemma AcsDone(lens: seq<nat>, values: seq<byte>, dequant: seq<nat>, stream: seq<byte>, p: nat, k: nat, data: seq<int>)
    requires |lens| <= |values| && |dequant| == |data| == 64 && k >= 64
    ensures ReadAcs(lens, values, dequant, stream, p, k, data) == Block(data, p)
  {}

  /** One step of the procedure, spelled out. */
  lemma AcsStep(lens: seq<nat>, values: seq<byte>, dequant: seq<nat>, stream: seq<byte>, p: nat, k: nat, data: seq<int>)
    requires |lens| <= |values| && |dequant| == |data| == 64 && k < 64
    ensures var r := ReadAcs(lens, values, dequant, stream, p, k, data);
            var (step, n) := NextAc(lens, values, stream, p);
            r.p >= p + n &&
            match step
            case Fail => n == 0 && r == BadBlock(p)
            case End => r == Block(data, p + n)
            case Zeros => r == ReadAcs(lens, values, dequant, stream, p + n, k + 16, data)
            case Coefficient(run, v) =>
              var zig := Dezigzag(k + run);
              r == ReadAcs(lens, values, dequant, stream, p + n, k + run + 1, data[zig := Short(v * dequant[zig])])
  {
    hide Decode, Dezigzag, Msb, Extend;
  }

  lemma AcsFail(all: Block, lens: seq<nat>, values: seq<byte>, dequant: seq<nat>, stream: seq<byte>, p: nat,
                k: nat, data: seq<int>)
    requires |lens| <= |values| && |dequant| == 64 && k < 64
    requires Underway(all, lens, values, dequant, stream, p, k, data)
    requires var (s, n) := NextAc(lens, values, stream, p); p + n <= 8 * |stream| ==> s.Fail?
    ensures all.p <= 8 * |stream| ==> all.BadBlock?
  {
    hide NextAc, Dezigzag;
    AcsStep(lens, values, dequant, stream, p, k, data);
  }

  /** What a step makes of the block. */
  lemma AcsMove(all: Block, lens: seq<nat>, values: seq<byte>, dequant: seq<nat>, stream: seq<byte>, p: nat, k: nat,
                data: seq<int>, step: Step, q: nat)
    requires |lens| <= |values| && |dequant| == 64 && k < 64 && !step.Fail?
    requires Underway(all, lens, values, dequant, stream, p, k, data)
    requires var (s, n) := NextAc(lens, values, stream, p); p + n <= 8 * |stream| ==> step == s && q == p + n
    ensures step.End? && all.p <= 8 * |stream| ==> all == Block(data, q)
    ensures step.Zeros? ==> Underway(all, lens, values, dequant, stream, q, k + 16, data)
    ensures step.Coefficient? ==>
              var zig := Dezigzag(k + step.run);
              Underway(all, lens, values, dequant, stream, q, k + step.run + 1, data[zig := Short(step.v * dequant[zig])])
  {
    hide NextAc, Dezigzag, ReadAcs;
    AcsStep(lens, values, dequant, stream, p, k, data);
  }

  // The whole block

  datatype Result = Result(block: Block, pred: int)

  /** A block at position p: the DC coefficient from the prediction and its difference, then the AC
      coefficients. The prediction for the next block is this DC coefficient. */
  function ReadBlock(dc: seq<nat>, dcValues: seq<byte>, ac: seq<nat>, acValues: seq<byte>, dequant: seq<nat>,
                     stream: seq<byte>, p: nat, pred: int): (r: Result)
    requires |dc| <= |dcValues| && |ac| <= |acValues| && |dequant| == 64
    ensures r.block.p >= p
  {
    match Decode(dc, stream, p, MAX)
    case NoCode => Result(BadBlock(p), pred)
    case Symbol(i, n) =>
      var t := dcValues[i];
      var v := pred + Difference(t, stream, p + n);
      Result(ReadAcs(ac, acValues, dequant, stream, p + n + t, 1, OnlyDc(Short(v * dequant[0]))), v)
  }

  /** Categories of DC differences are below 16. */
  ghost predicate DcTables(h: JHuffman, lens: seq<nat>)
    reads h.Repr(), h.values
  {
    h.Valid() && h.Represents(lens) && Accelerable(lens) && forall i :: 0 <= i < |lens| ==> h.values[i] <= 15
  }

  /** Decodes a block. If it ends within the data the result is the standard's: the block, the
      prediction and the position after it, or a failure. */
  method DecodeBlock(j: JpegBits, data: array<int>, hdc: JHuffman, hac: JHuffman, fac: array<int>, dequant: seq<nat>,
                     dcPred: int, ghost dc: seq<nat>, ghost ac: seq<nat>) returns (ok: bool, pred: int)
    requires j.Valid() && data.Length == 64 == |dequant| && DcTables(hdc, dc) && AcTables(hac, ac, fac)
    requires data as object !in hac.Repr() && data != fac && data as object != hac.values
    requires data as object !in hdc.Repr() && data as object != hdc.values
    modifies j, data
    ensures var all := ReadBlock(dc, hdc.values[..], ac, hac.values[..], dequant, old(j.Stream()), old(j.Position()), dcPred);
            all.block.p <= 8 * |old(j.Stream())| ==>
              (ok <==> all.block.Block?)
              && (ok ==> data[..] == all.block.data && pred == all.pred && j.Valid() && j.Position() == all.block.p)
  {
    hide Held, Entropy, Msb, Decode, Extend, JHuffman.Represents, AcTables, DcTables, ReadAcs, FastAcAt, Difference;
    TablesFit(hac, ac, fac);
    DcFits(hdc, dc, j.Stream(), j.Position());
    assert j as object !in hdc.Repr() && j as object !in hac.Repr();
    var diff;
    ok, diff := ReadDifference(j, hdc, dc);
    pred := dcPred + diff;
    if ok {
      ClearBlock(data);
      data[0] := Short(pred * dequant[0]);
      assert data[..] == OnlyDc(Short(pred * dequant[0]));
      ok := DecodeAcs(j, data, hac, fac, dequant, ac);
    }
  }

  /** The difference to the DC coefficient of the block before. */
  method ReadDifference(j: JpegBits, h: JHuffman, ghost lens: seq<nat>) returns (ok: bool, diff: int)
    requires j.Valid() && DcTables(h, lens)
    modifies j
    ensures ok ==> j.Valid()
    ensures |lens| <= 256 == h.values.Length
    ensures var p, d := old(j.Position()), Decode(lens, old(j.Stream()), old(j.Position()), MAX);
            if d.NoCode? then !ok
            else p + d.len <= 8 * |old(j.Stream())| ==>
              ok && diff == Difference(h.values[d.sym], old(j.Stream()), p + d.len)
              && j.Position() == p + d.len + h.values[d.sym]
  {
    hide Held, Entropy, Msb, Decode, Extend, JHuffman.Represents, Clashes;
    DcFits(h, lens, j.Stream(), j.Position());
    assert j as object !in h.Repr();
    if j.codeBits < 16 {
      j.GrowBuffer();
    }
    diff := 0;
    var t, have := j.HuffDecode(h, lens);
    if t < 0 {
      return false, 0;
    }
    if t > 0 {
      diff := j.ExtendReceive(t);
    }
    ok := true;
  }

  method ClearBlock(data: array<int>)
    modifies data
    ensures forall k :: 0 <= k < data.Length ==> data[k] == 0
  {
    for i := 0 to data.Length
      invariant forall k :: 0 <= k < i ==> data[k] == 0
    {
      data[i] := 0;
    }
  }

  /** The DC symbol to come is one of the table's, and not the marker's. */
  lemma DcFits(h: JHuffman, lens: seq<nat>, stream: seq<byte>, p: nat)
    requires DcTables(h, lens)
    ensures |lens| <= 256 == h.values.Length && !Clashes(lens, Decode(lens, stream, p, MAX))
    ensures var d := Decode(lens, stream, p, MAX); d.Symbol? ==> h.values[d.sym] <= 15
  {
    hide Decode;
    DecodeIsMatch(lens, stream, p, MAX);
  }
}
