/** Facts about whole DEFLATE streams: fuel only bounds how long one looks, and encoding a
    string, stored or with the fixed codes, and inflating it gives the string back. */
module InflateTheorems {
  import opened BitOps
  import opened BitStream
  import opened Canonical
  import opened Deflate
  import opened DeflateCoding
  import ZBuf

  lemma {:induction false} BlockFuel(f: nat, g: nat, lit: seq<nat>, dist: seq<nat>, input: seq<byte>, p: nat,
                                     out: seq<byte>)
    requires |lit| <= 288 && |dist| <= 32 && f <= g && !Block(f, lit, dist, input, p, out).OutOfFuel?
    ensures Block(g, lit, dist, input, p, out) == Block(f, lit, dist, input, p, out)
    decreases f
  {
    hide Block, Decode, ReadReference, Copy;
    if f == 0 {
      EmptyFuel(lit, dist, input, p, out);
    } else {
      BlockStep(f - 1, lit, dist, input, p, out);
      BlockStep(g - 1, lit, dist, input, p, out);
      match Decode(lit, input, p, MAX_BITS)
      case NoCode =>
      case Symbol(s, n) =>
        if s < 256 {
          BlockFuel(f - 1, g - 1, lit, dist, input, p + n, out + [s]);
        } else if s > 256 {
          var r := ReadReference(s - 257, dist, input, p + n);
          if r.Reference? && r.back <= |out| {
            BlockFuel(f - 1, g - 1, lit, dist, input, r.p, Copy(out, r.back, r.len));
          }
        }
    }
  }

  lemma BlockOfTypeFuel(f: nat, g: nat, kind: nat, input: seq<byte>, p: nat, out: seq<byte>)
    requires f <= g && !BlockOfType(f, kind, input, p, out).OutOfFuel?
    ensures BlockOfType(g, kind, input, p, out) == BlockOfType(f, kind, input, p, out)
  {
    hide Block, DynamicCodes, FixedLiteral, FixedDistance;
    if kind == 1 {
      BlockFuel(f, g, FixedLiteral(), FixedDistance(), input, p, out);
    } else if kind == 2 {
      match DynamicCodes(input, p)
      case BadCodes =>
      case Codes(lit, dist, q) => BlockFuel(f, g, lit, dist, input, q, out);
    }
  }

  lemma {:induction false} BlocksFuel(f: nat, g: nat, input: seq<byte>, p: nat, out: seq<byte>)
    requires f <= g && !Blocks(f, input, p, out).OutOfFuel?
    ensures Blocks(g, input, p, out) == Blocks(f, input, p, out)
    decreases f
  {
    hide BlockOfType, Bits;
    if f > 0 {
      var kind := Bits(input, p + 1, 2);
      BlockOfTypeFuel(f - 1, g - 1, kind, input, p + 3, out);
      var r := BlockOfType(f - 1, kind, input, p + 3, out);
      if r.Done? && Bits(input, p, 1) != 1 {
        BlocksFuel(f - 1, g - 1, input, r.p, r.out);
      }
    }
  }

  /** More fuel never changes an answer: fuel stands only for how long the decoder is watched. */
  lemma FuelIrrelevant(f: nat, g: nat, input: seq<byte>, header: bool)
    requires f <= g && !Inflate(f, input, header).OutOfFuel?
    ensures Inflate(g, input, header) == Inflate(f, input, header)
  {
    hide Blocks, ZlibHeader;
    if !header {
      BlocksFuel(f, g, input, 0, []);
    } else if ZlibHeader(input) {
      BlocksFuel(f, g, input, 16, []);
    }
  }

  // Stored streams

  /** A string of up to 65535 bytes as one final stored block. */
  function EncodeStored(data: seq<byte>): seq<byte>
    requires |data| <= 65535
  {
    var n := |data|;
    [1, n % 256, n / 256, 255 - n % 256, 255 - n / 256] + data
  }

  lemma HeaderBits(input: seq<byte>)
    requires |input| > 0 && input[0] == 1
    ensures Bits(input, 0, 1) == 1 && Bits(input, 1, 2) == 0
  {
    hide Bits;
    BitsOfByte(input, 0);
    BitsTake(input, 0, 1, 7);
    BitsTake(input, 1, 2, 5);
    assert Shr(1, 1) == 0;
    assert Low(1, 1) == 1;
    LowShort(0, 2);
  }

  lemma StoredRoundTrip(data: seq<byte>, fuel: nat)
    requires |data| <= 65535 && fuel > 0
    ensures Inflate(fuel, EncodeStored(data), false) == Done(data, 8 * (|data| + 5))
  {
    hide Bits;
    var input := EncodeStored(data);
    HeaderBits(input);
    assert StoredLength(input, 1) == |data|;
    assert input[5..5 + |data|] == data;
    assert [] + data == data;
    assert BlockOfType(fuel - 1, 0, input, 3, []) == Done(data, 8 * (|data| + 5));
  }

  // Fixed-code streams

  function Literals(data: seq<byte>): seq<Token> {
    if data == [] then [] else [Literal(data[0])] + Literals(data[1..])
  }

  /** Literals mean themselves and are always encodable with the fixed code. */
  lemma {:induction false} LiteralsMean(data: seq<byte>, out: seq<byte>)
    ensures |Literals(data)| == |data|
    ensures Sound(FixedLiteral(), FixedDistance(), out, Literals(data))
    ensures Meaning(out, Literals(data)) == out + data
    decreases |data|
  {
    hide FixedLiteral, FixedDistance;
    if data == [] {
      assert out + data == out;
    } else {
      var t := Literal(data[0]);
      LiteralsMean(data[1..], out + [data[0]]);
      assert Literals(data)[1..] == Literals(data[1..]);
      assert out + [data[0]] + data[1..] == out + data;
      FixedLengths(data[0]);
    }
  }

  lemma FixedLengths(b: nat)
    requires b <= 256
    ensures FixedLiteral()[b] > 0
  {}

  /** A string as one final block of literals in the fixed code. */
  ghost function EncodeFixed(data: seq<byte>): seq<bit> {
    LiteralsMean(data, []);
    [1, 1, 0] + EncodeBlock(FixedLiteral(), FixedDistance(), [], Literals(data))
  }

  lemma FixedRoundTrip(data: seq<byte>, fuel: nat)
    requires fuel >= |data| + 2
    ensures Inflate(fuel, Pack(EncodeFixed(data)), false) == Done(data, |EncodeFixed(data)|)
  {
    hide Carries, Bits, Block, FixedLiteral, FixedDistance, Kraft, EncodeBlock, Pack, Literals, Sound;
    LiteralsMean(data, []);
    var body := EncodeBlock(FixedLiteral(), FixedDistance(), [], Literals(data));
    var input := Pack(EncodeFixed(data));
    PackCarries(EncodeFixed(data));
    CarriesSplit(input, 0, [1, 1, 0], body);
    FixedHeader(input);
    ZBuf.FixedCodesDecodable();
    FixedLengths(END_OF_BLOCK);
    BlockRoundTrip(fuel - 1, FixedLiteral(), FixedDistance(), input, 3, [], Literals(data));
  }

  lemma FixedHeader(input: seq<byte>)
    requires Carries(input, 0, [1, 1, 0])
    ensures Bits(input, 0, 1) == 1 && Bits(input, 1, 2) == 1
  {
    var h: seq<bit> := [1, 1, 0];
    assert BitAt(input, 0 + 0) == h[0] && BitAt(input, 0 + 1) == h[1] && BitAt(input, 0 + 2) == h[2];
  }
}
