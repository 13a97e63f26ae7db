/** Encoding of baseline blocks (sections F.1.2.1 and F.1.2.2 of ITU-T T.81), and that reading it
    back gives every coefficient at its place, times its quantiser. */
module JpegCoding {
  import opened BitOps
  import opened BitStream
  import opened Canonical
  import opened DeflateCoding
  import opened JpegReader
  import opened JpegBlock
  import opened JpegClash

  // Categories and magnitudes (table F.1)

  function Abs(v: int): nat {
    if v < 0 then -v else v
  }

  /** How many bits a number takes without its sign. */
  function Category(v: nat): (n: nat)
    ensures n == 0 <==> v == 0
  {
    if v == 0 then 0 else 1 + Category(v / 2)
  }

  lemma {:induction false} CategoryBounds(v: nat)
    ensures v < Pow2(Category(v)) && (v > 0 ==> Pow2(Category(v) - 1) <= v)
  {
    if v > 1 {
      CategoryBounds(v / 2);
    }
  }

  /** The bits after the category: the number, or for a negative one the low bits of the number
      below it. */
  function Magnitude(v: int): (m: nat)
    ensures m < Pow2(Category(Abs(v)))
  {
    CategoryBounds(Abs(v));
    if v < 0 then v - 1 + Pow2(Category(Abs(v))) else v
  }

  /** Receiving and extending inverts that. */
  lemma MagnitudeExtends(v: int)
    requires v != 0
    ensures Extend(Magnitude(v), Category(Abs(v))) == v
  {
    hide Pow2, Category;
    CategoryBounds(Abs(v));
    Pow2Next(Category(Abs(v)) - 1);
  }

  // Symbols by the byte they stand for

  /** The code has a word for the byte. */
  ghost predicate Sends(lens: seq<nat>, values: seq<byte>, b: nat)
    requires |lens| <= |values|
  {
    exists i: nat :: i < |lens| && lens[i] > 0 && values[i] == b
  }

  ghost function SymbolFor(lens: seq<nat>, values: seq<byte>, b: nat): (i: nat)
    requires |lens| <= |values| && Sends(lens, values, b)
    ensures i < |lens| && lens[i] > 0 && values[i] == b
  {
    var i: nat :| i < |lens| && lens[i] > 0 && values[i] == b;
    i
  }

  ghost function EncodeByte(lens: seq<nat>, values: seq<byte>, b: nat): (bits: seq<bit>)
    requires |lens| <= |values| && Sends(lens, values, b)
  {
    EncodeSymbol(lens, SymbolFor(lens, values, b))
  }

  /** A symbol is decoded as the byte it was sent for. */
  lemma ByteDecodes(lens: seq<nat>, values: seq<byte>, b: nat, stream: seq<byte>, p: nat)
    requires |lens| <= |values| && Decodable(lens) && Sends(lens, values, b)
    requires Carries(stream, p, EncodeByte(lens, values, b))
    ensures var i := SymbolFor(lens, values, b);
            Decode(lens, stream, p, MAX) == Symbol(i, lens[i]) && |EncodeByte(lens, values, b)| == lens[i]
  {
    hide Decode, Kraft, EncodeSymbol, Carries;
    SymbolDecodes(lens, stream, p, MAX, SymbolFor(lens, values, b));
  }

  // AC coefficients (figure F.2)

  /** The k-th coefficient in zigzag order. */
  function Coef(q: seq<int>, k: nat): int
    requires |q| == 64
  {
    q[Dezigzag(k)]
  }

  /** Sixteen zeros at a time. */
  ghost function EncodeZeros(lens: seq<nat>, values: seq<byte>, n: nat): (bits: seq<bit>)
    requires |lens| <= |values| && (n > 0 ==> Sends(lens, values, 0xf0))
  {
    if n == 0 then [] else EncodeByte(lens, values, 0xf0) + EncodeZeros(lens, values, n - 1)
  }

  /** A coefficient that is not zero after a run of zeros. */
  ghost predicate Sendable(lens: seq<nat>, values: seq<byte>, run: nat, v: int)
    requires |lens| <= |values| && v != 0
  {
    var t := Category(Abs(v));
    t <= 15 && Sends(lens, values, 16 * (run % 16) + t) && (run >= 16 ==> Sends(lens, values, 0xf0))
  }

  ghost function EncodeCoefficient(lens: seq<nat>, values: seq<byte>, run: nat, v: int): (bits: seq<bit>)
    requires |lens| <= |values| && v != 0 && Sendable(lens, values, run, v)
  {
    var t := Category(Abs(v));
    EncodeZeros(lens, values, run / 16) + EncodeByte(lens, values, 16 * (run % 16) + t) + MsbBits(Magnitude(v), t)
  }

  /** The code has all the symbols for the coefficients from the k-th on, after a run of zeros. */
  ghost predicate AcsSendable(lens: seq<nat>, values: seq<byte>, q: seq<int>, k: nat, run: nat)
    requires |lens| <= |values| && |q| == 64 && run <= k <= 64
    decreases 64 - k
  {
    if k == 64 then run > 0 ==> Sends(lens, values, 0)
    else if Coef(q, k) == 0 then AcsSendable(lens, values, q, k + 1, run + 1)
    else Sendable(lens, values, run, Coef(q, k)) && AcsSendable(lens, values, q, k + 1, 0)
  }

  /** The coefficients from the k-th on, after a run of zeros; zeros at the end are sent as the end of
      the block. */
  ghost function EncodeAcs(lens: seq<nat>, values: seq<byte>, q: seq<int>, k: nat, run: nat): (bits: seq<bit>)
    requires |lens| <= |values| && |q| == 64 && run <= k <= 64 && AcsSendable(lens, values, q, k, run)
    decreases 64 - k
  {
    if k == 64 then (if run > 0 then EncodeByte(lens, values, 0) else [])
    else if Coef(q, k) == 0 then EncodeAcs(lens, values, q, k + 1, run + 1)
    else EncodeCoefficient(lens, values, run, Coef(q, k)) + EncodeAcs(lens, values, q, k + 1, 0)
  }

  /** The block as it is to come out. */
  function Dequantised(q: seq<int>, dequant: seq<nat>): (data: seq<int>)
    requires |q| == |dequant| == 64
    ensures |data| == 64 && forall z :: 0 <= z < 64 ==> data[z] == Short(q[z] * dequant[z])
  {
    seq(64, z requires 0 <= z < 64 => Short(q[z] * dequant[z]))
  }

  /** The first k coefficients are in their places and the rest are zero. */
  ghost predicate Partly(data: seq<int>, q: seq<int>, dequant: seq<nat>, k: nat)
    requires |q| == |dequant| == 64
  {
    && |data| == 64
    && forall j: nat :: j < 64 ==>
         data[Dezigzag(j)] == if j < k then Short(Coef(q, j) * dequant[Dezigzag(j)]) else 0
  }

  lemma PartlyZero(data: seq<int>, q: seq<int>, dequant: seq<nat>, k: nat)
    requires |q| == |dequant| == 64 && k < 64 && Partly(data, q, dequant, k) && Coef(q, k) == 0
    ensures Partly(data, q, dequant, k + 1)
  {
    hide Dezigzag;
    assert 0 * dequant[Dezigzag(k)] == 0;
  }

  lemma PartlyNext(data: seq<int>, q: seq<int>, dequant: seq<nat>, k: nat)
    requires |q| == |dequant| == 64 && k < 64 && Partly(data, q, dequant, k)
    ensures Partly(data[Dezigzag(k) := Short(Coef(q, k) * dequant[Dezigzag(k)])], q, dequant, k + 1)
  {
    hide Dezigzag, Short;
    var z := Dezigzag(k);
    var data' := data[z := Short(Coef(q, k) * dequant[z])];
    forall j: nat | j < 64
      ensures data'[Dezigzag(j)] == if j < k + 1 then Short(Coef(q, j) * dequant[Dezigzag(j)]) else 0
    {
      if j != k && Dezigzag(j) == z {
        DezigzagDistinct(j, k);
      }
    }
  }

  lemma PartlyAll(data: seq<int>, q: seq<int>, dequant: seq<nat>)
    requires |q| == |dequant| == 64 && Partly(data, q, dequant, 64)
    ensures data == Dequantised(q, dequant)
  {
    hide Dezigzag, Short;
    forall z | 0 <= z < 64
      ensures data[z] == Dequantised(q, dequant)[z]
    {
      PlaceTaken(z);
    }
  }

  // Reading them back

  /** Sixteen zeros are skipped by each symbol for them. */
  lemma {:induction false} ZerosRoundTrip(lens: seq<nat>, values: seq<byte>, dequant: seq<nat>, stream: seq<byte>, p: nat,
                                          k: nat, data: seq<int>, n: nat)
    requires |lens| <= |values| && |dequant| == |data| == 64 && Decodable(lens) && k + 16 * n < 64
    requires (n > 0 ==> Sends(lens, values, 0xf0)) && Carries(stream, p, EncodeZeros(lens, values, n))
    ensures ReadAcs(lens, values, dequant, stream, p, k, data)
         == ReadAcs(lens, values, dequant, stream, p + |EncodeZeros(lens, values, n)|, k + 16 * n, data)
    decreases n
  {
    hide Decode, Kraft, Carries, EncodeByte, ReadAcs, Msb, Extend;
    if n > 0 {
      CarriesSplit(stream, p, EncodeByte(lens, values, 0xf0), EncodeZeros(lens, values, n - 1));
      ByteDecodes(lens, values, 0xf0, stream, p);
      AcsStep(lens, values, dequant, stream, p, k, data);
      ZerosRoundTrip(lens, values, dequant, stream, p + |EncodeByte(lens, values, 0xf0)|, k + 16, data, n - 1);
    }
  }

  lemma RunParts(run: nat)
    ensures run == 16 * (run / 16) + run % 16 && run % 16 < 16
  {}

  lemma Nibbles(run: nat, t: nat)
    requires run < 16 && t < 16
    ensures (16 * run + t) / 16 == run && (16 * run + t) % 16 == t && 16 * run + t < 256
  {}

  /** A coefficient after fewer than sixteen zeros. */
  lemma ShortRun(lens: seq<nat>, values: seq<byte>, dequant: seq<nat>, stream: seq<byte>, p: nat, k: nat, run: nat,
                 v: int, data: seq<int>)
    requires |lens| <= |values| && |dequant| == |data| == 64 && Decodable(lens) && k + run < 64 && run < 16 && v != 0
    requires var t := Category(Abs(v));
             && t <= 15 && Sends(lens, values, 16 * run + t)
             && Carries(stream, p, EncodeByte(lens, values, 16 * run + t) + MsbBits(Magnitude(v), t))
    ensures var z, b := Dezigzag(k + run), 16 * run + Category(Abs(v));
            ReadAcs(lens, values, dequant, stream, p, k, data)
              == ReadAcs(lens, values, dequant, stream, p + |EncodeByte(lens, values, b)| + Category(Abs(v)), k + run + 1,
                         data[z := Short(v * dequant[z])])
  {
    hide Decode, Kraft, Carries, EncodeByte, ReadAcs, Msb, MsbBits, Magnitude, Category, Dezigzag, Short, Extend;
    var t := Category(Abs(v));
    var b, c := EncodeByte(lens, values, 16 * run + t), MsbBits(Magnitude(v), t);
    Nibbles(run, t);
    CarriesSplit(stream, p, b, c);
    ByteDecodes(lens, values, 16 * run + t, stream, p);
    MsbCarries(stream, p + |b|, Magnitude(v), t);
    MagnitudeExtends(v);
    AcsStep(lens, values, dequant, stream, p, k, data);
  }

  /** A coefficient that is not zero comes back at its place. */
  lemma CoefficientRoundTrip(lens: seq<nat>, values: seq<byte>, dequant: seq<nat>, stream: seq<byte>, p: nat,
                             k: nat, run: nat, v: int, data: seq<int>)
    requires |lens| <= |values| && |dequant| == |data| == 64 && Decodable(lens) && k + run < 64 && v != 0
    requires Sendable(lens, values, run, v) && Carries(stream, p, EncodeCoefficient(lens, values, run, v))
    ensures var z := Dezigzag(k + run);
            ReadAcs(lens, values, dequant, stream, p, k, data)
              == ReadAcs(lens, values, dequant, stream, p + |EncodeCoefficient(lens, values, run, v)|, k + run + 1,
                         data[z := Short(v * dequant[z])])
  {
    hide Decode, Kraft, Carries, EncodeByte, EncodeZeros, ReadAcs, MsbBits, Magnitude, Category, Dezigzag, Short;
    var t := Category(Abs(v));
    var a, b, c := EncodeZeros(lens, values, run / 16), EncodeByte(lens, values, 16 * (run % 16) + t), MsbBits(Magnitude(v), t);
    RunParts(run);
    assert a + b + c == a + (b + c);
    CarriesSplit(stream, p, a, b + c);
    ZerosRoundTrip(lens, values, dequant, stream, p, k, data, run / 16);
    ShortRun(lens, values, dequant, stream, p + |a|, k + 16 * (run / 16), run % 16, v, data);
  }

  /** All coefficients come back, each at its place. */
  lemma {:induction false} AcsRoundTrip(lens: seq<nat>, values: seq<byte>, dequant: seq<nat>, stream: seq<byte>, p: nat,
                                        q: seq<int>, k: nat, run: nat, data: seq<int>)
    requires |lens| <= |values| && |dequant| == |q| == 64 && Decodable(lens) && run <= k <= 64
    requires AcsSendable(lens, values, q, k, run) && Carries(stream, p, EncodeAcs(lens, values, q, k, run))
    requires |data| == 64 && Partly(data, q, dequant, k)
    ensures ReadAcs(lens, values, dequant, stream, p, k - run, data)
         == Block(Dequantised(q, dequant), p + |EncodeAcs(lens, values, q, k, run)|)
    decreases 64 - k
  {
    hide Decode, Kraft, Carries, EncodeByte, EncodeCoefficient, ReadAcs, Dezigzag, Sendable, Partly, Short, Dequantised;
    if k == 64 {
      PartlyAll(data, q, dequant);
      if run > 0 {
        ByteDecodes(lens, values, 0, stream, p);
        EndStep(lens, values, dequant, stream, p, k - run, data);
      } else {
        AcsDone(lens, values, dequant, stream, p, k, data);
      }
    } else if Coef(q, k) == 0 {
      PartlyZero(data, q, dequant, k);
      AcsRoundTrip(lens, values, dequant, stream, p, q, k + 1, run + 1, data);
    } else {
      var z, first := Dezigzag(k), EncodeCoefficient(lens, values, run, Coef(q, k));
      CarriesSplit(stream, p, first, EncodeAcs(lens, values, q, k + 1, 0));
      CoefficientRoundTrip(lens, values, dequant, stream, p, k - run, run, Coef(q, k), data);
      PartlyNext(data, q, dequant, k);
      AcsRoundTrip(lens, values, dequant, stream, p + |first|, q, k + 1, 0, data[z := Short(Coef(q, k) * dequant[z])]);
    }
  }

  lemma EndStep(lens: seq<nat>, values: seq<byte>, dequant: seq<nat>, stream: seq<byte>, p: nat, k: nat, data: seq<int>)
    requires |lens| <= |values| && |dequant| == |data| == 64 && k < 64
    requires var d := Decode(lens, stream, p, MAX); d.Symbol? && values[d.sym] == 0
    ensures ReadAcs(lens, values, dequant, stream, p, k, data) == Block(data, p + Decode(lens, stream, p, MAX).len)
  {
    hide Decode, ReadAcs, Dezigzag, Msb, Extend;
    AcsStep(lens, values, dequant, stream, p, k, data);
  }

  // Blocks

  /** The code has a symbol for the category of a difference. */
  ghost predicate DcSendable(lens: seq<nat>, values: seq<byte>, diff: int)
    requires |lens| <= |values|
  {
    Sends(lens, values, Category(Abs(diff)))
  }

  /** The difference between a DC coefficient and the prediction: category and bits. */
  ghost function EncodeDc(lens: seq<nat>, values: seq<byte>, diff: int): (bits: seq<bit>)
    requires |lens| <= |values| && DcSendable(lens, values, diff)
  {
    var t := Category(Abs(diff));
    EncodeByte(lens, values, t) + MsbBits(Magnitude(diff), t)
  }

  ghost predicate BlockSendable(dc: seq<nat>, dcValues: seq<byte>, ac: seq<nat>, acValues: seq<byte>, q: seq<int>,
                                pred: int)
    requires |dc| <= |dcValues| && |ac| <= |acValues|
  {
    |q| == 64 && DcSendable(dc, dcValues, q[0] - pred) && AcsSendable(ac, acValues, q, 1, 0)
  }

  /** A block of quantised coefficients, its first one as the difference to the prediction. */
  ghost function EncodeBlock(dc: seq<nat>, dcValues: seq<byte>, ac: seq<nat>, acValues: seq<byte>, q: seq<int>,
                             pred: int): (bits: seq<bit>)
    requires |dc| <= |dcValues| && |ac| <= |acValues| && BlockSendable(dc, dcValues, ac, acValues, q, pred)
  {
    EncodeDc(dc, dcValues, q[0] - pred) + EncodeAcs(ac, acValues, q, 1, 0)
  }

  lemma DcRoundTrip(lens: seq<nat>, values: seq<byte>, diff: int, stream: seq<byte>, p: nat)
    requires |lens| <= |values| && Decodable(lens) && DcSendable(lens, values, diff)
    requires Carries(stream, p, EncodeDc(lens, values, diff))
    ensures var t := Category(Abs(diff));
            var i := SymbolFor(lens, values, t);
            && Decode(lens, stream, p, MAX) == Symbol(i, lens[i]) && values[i] == t
            && Difference(t, stream, p + lens[i]) == diff && |EncodeDc(lens, values, diff)| == lens[i] + t
  {
    hide Decode, Kraft, Carries, EncodeByte, Msb, MsbBits, Magnitude, Category;
    var t := Category(Abs(diff));
    CarriesSplit(stream, p, EncodeByte(lens, values, t), MsbBits(Magnitude(diff), t));
    ByteDecodes(lens, values, t, stream, p);
    MsbCarries(stream, p + |EncodeByte(lens, values, t)|, Magnitude(diff), t);
    if diff != 0 {
      MagnitudeExtends(diff);
    }
  }

  /** Any quantised coefficients come back: each times its quantiser at its own place, the first one as
      the prediction for the next block, and the position after the last bit. */
  lemma BlockRoundTrip(dc: seq<nat>, dcValues: seq<byte>, ac: seq<nat>, acValues: seq<byte>, dequant: seq<nat>,
                       stream: seq<byte>, p: nat, q: seq<int>, pred: int)
    requires |dc| <= |dcValues| && |ac| <= |acValues| && |dequant| == 64 && Decodable(dc) && Decodable(ac)
    requires BlockSendable(dc, dcValues, ac, acValues, q, pred)
    requires Carries(stream, p, EncodeBlock(dc, dcValues, ac, acValues, q, pred))
    ensures ReadBlock(dc, dcValues, ac, acValues, dequant, stream, p, pred)
         == Result(Block(Dequantised(q, dequant), p + |EncodeBlock(dc, dcValues, ac, acValues, q, pred)|), q[0])
  {
    hide Decode, Kraft, Carries, EncodeDc, EncodeAcs, ReadAcs, AcsSendable, DcSendable, Dequantised, Difference, Short;
    var first := EncodeDc(dc, dcValues, q[0] - pred);
    CarriesSplit(stream, p, first, EncodeAcs(ac, acValues, q, 1, 0));
    DcRoundTrip(dc, dcValues, q[0] - pred, stream, p);
    OnlyFirst(q, dequant);
    AcsRoundTrip(ac, acValues, dequant, stream, p + |first|, q, 1, 0, OnlyDc(Short(q[0] * dequant[0])));
  }

  lemma OnlyFirst(q: seq<int>, dequant: seq<nat>)
    requires |q| == |dequant| == 64
    ensures Partly(OnlyDc(Short(q[0] * dequant[0])), q, dequant, 1)
  {
    hide Short, Dezigzag;
    FirstPlace();
    forall j: nat | 0 < j < 64
      ensures Dezigzag(j) != 0
    {
      LaterPlace(j);
    }
  }

  lemma FirstPlace()
    ensures Dezigzag(0) == 0
  {}

  // Scans of one component

  /** n blocks one after the other, each predicted from the one before. */
  function ReadScan(dc: seq<nat>, dcValues: seq<byte>, ac: seq<nat>, acValues: seq<byte>, dequant: seq<nat>,
                    stream: seq<byte>, p: nat, pred: int, n: nat): (r: seq<Result>)
    requires |dc| <= |dcValues| && |ac| <= |acValues| && |dequant| == 64
    ensures |r| <= n
    decreases n
  {
    if n == 0 then []
    else
      var first := ReadBlock(dc, dcValues, ac, acValues, dequant, stream, p, pred);
      if first.block.BadBlock? then [first]
      else [first] + ReadScan(dc, dcValues, ac, acValues, dequant, stream, first.block.p, first.pred, n - 1)
  }

  ghost predicate ScanSendable(dc: seq<nat>, dcValues: seq<byte>, ac: seq<nat>, acValues: seq<byte>, qs: seq<seq<int>>,
                               pred: int)
    requires |dc| <= |dcValues| && |ac| <= |acValues|
    decreases |qs|
  {
    qs == [] || (BlockSendable(dc, dcValues, ac, acValues, qs[0], pred)
                 && ScanSendable(dc, dcValues, ac, acValues, qs[1..], qs[0][0]))
  }

  ghost function EncodeScan(dc: seq<nat>, dcValues: seq<byte>, ac: seq<nat>, acValues: seq<byte>, qs: seq<seq<int>>,
                            pred: int): (bits: seq<bit>)
    requires |dc| <= |dcValues| && |ac| <= |acValues| && ScanSendable(dc, dcValues, ac, acValues, qs, pred)
    decreases |qs|
  {
    if qs == [] then []
    else EncodeBlock(dc, dcValues, ac, acValues, qs[0], pred) + EncodeScan(dc, dcValues, ac, acValues, qs[1..], qs[0][0])
  }

  /** The blocks of a scan come back, in order. */
  lemma {:induction false} ScanRoundTrip(dc: seq<nat>, dcValues: seq<byte>, ac: seq<nat>, acValues: seq<byte>,
                                         dequant: seq<nat>, stream: seq<byte>, p: nat, qs: seq<seq<int>>, pred: int)
    requires |dc| <= |dcValues| && |ac| <= |acValues| && |dequant| == 64 && Decodable(dc) && Decodable(ac)
    requires ScanSendable(dc, dcValues, ac, acValues, qs, pred)
    requires Carries(stream, p, EncodeScan(dc, dcValues, ac, acValues, qs, pred))
    ensures var r := ReadScan(dc, dcValues, ac, acValues, dequant, stream, p, pred, |qs|);
            && |r| == |qs|
            && forall i :: 0 <= i < |qs| ==>
                 |qs[i]| == 64 && r[i].block.Block? && r[i].block.data == Dequantised(qs[i], dequant) && r[i].pred == qs[i][0]
    decreases |qs|
  {
    hide Decode, Kraft, Carries, EncodeBlock, BlockSendable, ReadBlock, Dequantised;
    if qs != [] {
      var first := EncodeBlock(dc, dcValues, ac, acValues, qs[0], pred);
      SixtyFour(dc, dcValues, ac, acValues, qs[0], pred);
      CarriesSplit(stream, p, first, EncodeScan(dc, dcValues, ac, acValues, qs[1..], qs[0][0]));
      BlockRoundTrip(dc, dcValues, ac, acValues, dequant, stream, p, qs[0], pred);
      ScanRoundTrip(dc, dcValues, ac, acValues, dequant, stream, p + |first|, qs[1..], qs[0][0]);
    }
  }

  /** The entropy-coded data of a scan: its bits packed from the left, with zeros stuffed in. */
  ghost function ScanData(dc: seq<nat>, dcValues: seq<byte>, ac: seq<nat>, acValues: seq<byte>,
                          qs: seq<seq<int>>): seq<byte>
    requires |dc| <= |dcValues| && |ac| <= |acValues| && ScanSendable(dc, dcValues, ac, acValues, qs, 0)
  {
    Stuff(Mirror(Pack(EncodeScan(dc, dcValues, ac, acValues, qs, 0))))
  }

  /** From the bytes of a scan its blocks come back. */
  lemma ScanDataRoundTrip(dc: seq<nat>, dcValues: seq<byte>, ac: seq<nat>, acValues: seq<byte>, dequant: seq<nat>,
                          qs: seq<seq<int>>)
    requires |dc| <= |dcValues| && |ac| <= |acValues| && |dequant| == 64 && Decodable(dc) && Decodable(ac)
    requires ScanSendable(dc, dcValues, ac, acValues, qs, 0)
    ensures var stream := Mirror(Entropy(ScanData(dc, dcValues, ac, acValues, qs), 0));
            var r := ReadScan(dc, dcValues, ac, acValues, dequant, stream, 0, 0, |qs|);
            && |r| == |qs|
            && forall i :: 0 <= i < |qs| ==>
                 |qs[i]| == 64 && r[i].block.Block? && r[i].block.data == Dequantised(qs[i], dequant) && r[i].pred == qs[i][0]
  {
    hide Kraft, Carries, EncodeScan, ScanSendable, ReadScan, Dequantised, Mirror, Pack, Stuff, Entropy;
    var bits := EncodeScan(dc, dcValues, ac, acValues, qs, 0);
    StuffRoundTrip([], Mirror(Pack(bits)));
    assert [] + Stuff(Mirror(Pack(bits))) == Stuff(Mirror(Pack(bits)));
    MirrorTwice(Pack(bits));
    PackCarries(bits);
    ScanRoundTrip(dc, dcValues, ac, acValues, dequant, Pack(bits), 0, qs, 0);
  }

  lemma SixtyFour(dc: seq<nat>, dcValues: seq<byte>, ac: seq<nat>, acValues: seq<byte>, q: seq<int>, pred: int)
    requires |dc| <= |dcValues| && |ac| <= |acValues| && BlockSendable(dc, dcValues, ac, acValues, q, pred)
    ensures |q| == 64
  {}

  /** The difference that a block at position p begins with. */
  function DifferenceAt(dc: seq<nat>, dcValues: seq<byte>, stream: seq<byte>, p: nat): int
    requires |dc| <= |dcValues|
  {
    match Decode(dc, stream, p, MAX)
    case NoCode => 0
    case Symbol(i, n) => Difference(dcValues[i], stream, p + n)
  }

  /** The sum of the differences of the first n blocks of a scan. */
  function Differences(dc: seq<nat>, dcValues: seq<byte>, stream: seq<byte>, p: nat, r: seq<Result>, n: nat): int
    requires |dc| <= |dcValues| && n <= |r|
  {
    if n == 0 then 0
    else Differences(dc, dcValues, stream, p, r, n - 1)
         + DifferenceAt(dc, dcValues, stream, if n == 1 then p else r[n - 2].block.p)
  }

  /** In any scan the DC coefficients are the running sums of the differences. */
  lemma {:induction false} DcsAreSums(dc: seq<nat>, dcValues: seq<byte>, ac: seq<nat>, acValues: seq<byte>,
                                      dequant: seq<nat>, stream: seq<byte>, p: nat, pred: int, n: nat, i: nat)
    requires |dc| <= |dcValues| && |ac| <= |acValues| && |dequant| == 64
    requires i < |ReadScan(dc, dcValues, ac, acValues, dequant, stream, p, pred, n)|
    ensures var r := ReadScan(dc, dcValues, ac, acValues, dequant, stream, p, pred, n);
            r[i].block.Block? ==> r[i].pred == pred + Differences(dc, dcValues, stream, p, r, i + 1)
                                  && |r[i].block.data| == 64 && r[i].block.data[0] == Short(r[i].pred * dequant[0])
    decreases n
  {
    hide Decode, ReadAcs, Difference, ReadBlock;
    var first := ReadBlock(dc, dcValues, ac, acValues, dequant, stream, p, pred);
    FirstIsSum(dc, dcValues, ac, acValues, dequant, stream, p, pred);
    var r := ReadScan(dc, dcValues, ac, acValues, dequant, stream, p, pred, n);
    if i > 0 {
      var rest := ReadScan(dc, dcValues, ac, acValues, dequant, stream, first.block.p, first.pred, n - 1);
      DcsAreSums(dc, dcValues, ac, acValues, dequant, stream, first.block.p, first.pred, n - 1, i - 1);
      assert r == [first] + rest && r[i] == rest[i - 1];
      SumsShift(dc, dcValues, stream, p, first, rest, i);
    } else {
      assert Differences(dc, dcValues, stream, p, r, 0) == 0;
    }
  }

  /** A block's DC coefficient is the prediction and its difference, and its AC coefficients go to
      other places. */
  lemma FirstIsSum(dc: seq<nat>, dcValues: seq<byte>, ac: seq<nat>, acValues: seq<byte>, dequant: seq<nat>,
                   stream: seq<byte>, p: nat, pred: int)
    requires |dc| <= |dcValues| && |ac| <= |acValues| && |dequant| == 64
    ensures var r := ReadBlock(dc, dcValues, ac, acValues, dequant, stream, p, pred);
            r.block.Block? ==> r.pred == pred + DifferenceAt(dc, dcValues, stream, p)
                               && |r.block.data| == 64 && r.block.data[0] == Short(r.pred * dequant[0])
  {
    hide Decode, ReadAcs, Difference, Short;
    match Decode(dc, stream, p, MAX)
    case NoCode =>
    case Symbol(i, n) =>
      var t := dcValues[i];
      var v := pred + Difference(t, stream, p + n);
      AcsKeepFirst(ac, acValues, dequant, stream, p + n + t, 1, OnlyDc(Short(v * dequant[0])));
  }

  lemma {:induction false} AcsKeepFirst(lens: seq<nat>, values: seq<byte>, dequant: seq<nat>, stream: seq<byte>, p: nat,
                                        k: nat, data: seq<int>)
    requires |lens| <= |values| && |dequant| == |data| == 64 && k > 0
    ensures var r := ReadAcs(lens, values, dequant, stream, p, k, data);
            r.Block? ==> |r.data| == 64 && r.data[0] == data[0]
    decreases 64 - k
  {
    hide Decode, ReadAcs, NextAc, Dezigzag, Short;
    if k >= 64 {
      AcsDone(lens, values, dequant, stream, p, k, data);
    } else {
      AcsStep(lens, values, dequant, stream, p, k, data);
      var (step, n) := NextAc(lens, values, stream, p);
      match step
      case Fail =>
      case End =>
      case Zeros => AcsKeepFirst(lens, values, dequant, stream, p + n, k + 16, data);
      case Coefficient(run, v) =>
        var z := Dezigzag(k + run);
        LaterPlace(k + run);
        AcsKeepFirst(lens, values, dequant, stream, p + n, k + run + 1, data[z := Short(v * dequant[z])]);
    }
  }

  lemma LaterPlace(k: nat)
    requires k > 0
    ensures Dezigzag(k) != 0
  {
    if k < 64 {
      hide Dezigzag;
      FirstPlace();
      if Dezigzag(k) == 0 {
        DezigzagDistinct(k, 0);
      }
    }
  }

  lemma {:induction false} SumsShift(dc: seq<nat>, dcValues: seq<byte>, stream: seq<byte>, p: nat, first: Result,
                                     rest: seq<Result>, n: nat)
    requires |dc| <= |dcValues| && n <= |rest|
    ensures Differences(dc, dcValues, stream, p, [first] + rest, n + 1)
         == DifferenceAt(dc, dcValues, stream, p) + Differences(dc, dcValues, stream, first.block.p, rest, n)
  {
    hide DifferenceAt;
    if n > 0 {
      SumsShift(dc, dcValues, stream, p, first, rest, n - 1);
    } else {
      assert Differences(dc, dcValues, stream, p, [first] + rest, 0) == 0;
    }
  }
}
