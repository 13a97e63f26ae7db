/** The DEFLATE format as section 3 of RFC 1951 defines it, read at bit positions of the
    zero-padded stream, with the code words looked up one bit at a time. */
module Deflate {
  import opened BitOps
  import opened BitStream
  import opened Canonical

  /** Done carries the output so far and the position after the last bit read. Reserved means
      the stream uses a length or distance symbol that section 3.2.6 reserves. */
  datatype Outcome = Done(out: seq<byte>, p: nat) | Corrupt | Reserved | OutOfFuel

  const MAX_BITS: nat := 15
  const END_OF_BLOCK: nat := 256

  // The literal/length and distance alphabets (section 3.2.5)

  function LengthBase(z: nat): (r: nat)
    requires z < 31
    ensures r <= 258 && (z < 29 ==> r >= 3)
  {
    [3, 4, 5, 6, 7, 8, 9, 10, 11, 13, 15, 17, 19, 23, 27, 31, 35, 43, 51, 59,
     67, 83, 99, 115, 131, 163, 195, 227, 258, 0, 0][z]
  }

  function LengthExtra(z: nat): (r: nat)
    requires z < 31
    ensures r <= 5
  {
    [0, 0, 0, 0, 0, 0, 0, 0, 1, 1, 1, 1, 2, 2, 2, 2, 3, 3, 3, 3, 4, 4, 4, 4, 5, 5, 5, 5, 0, 0, 0][z]
  }

  function DistBase(d: nat): (r: nat)
    requires d < 32
    ensures r <= 24577 && (d < 30 ==> r >= 1)
  {
    [1, 2, 3, 4, 5, 7, 9, 13, 17, 25, 33, 49, 65, 97, 129, 193, 257, 385, 513, 769,
     1025, 1537, 2049, 3073, 4097, 6145, 8193, 12289, 16385, 24577, 0, 0][d]
  }

  function DistExtra(d: nat): (r: nat)
    requires d < 32
    ensures r <= 13
  {
    [0, 0, 0, 0, 1, 1, 2, 2, 3, 3, 4, 4, 5, 5, 6, 6, 7, 7, 8, 8, 9, 9, 10, 10, 11, 11, 12, 12, 13, 13, 0, 0][d]
  }

  /** len bytes, each the one dist back from the end of the output so far. */
  function Copy(out: seq<byte>, dist: nat, len: nat): (r: seq<byte>)
    requires 1 <= dist <= |out|
    ensures |r| == |out| + len && r[..|out|] == out
    decreases len
  {
    if len == 0 then out else Copy(out + [out[|out| - dist]], dist, len - 1)
  }

  /** The copy length that symbol 257 + z and its extra bits stand for. */
  function CopyLength(z: nat, input: seq<byte>, p: nat): (r: nat)
    requires z < 31
  {
    LengthBase(z) + Bits(input, p, LengthExtra(z))
  }

  /** The distance that distance symbol d and its extra bits stand for. */
  function CopyDistance(d: nat, input: seq<byte>, p: nat): (r: nat)
    requires d < 32
    ensures d < 30 ==> r >= 1
  {
    DistBase(d) + Bits(input, p, DistExtra(d))
  }

  /** A copy: its length, how far back, and the position after it. */
  datatype Reference = Reference(len: nat, back: nat, p: nat) | BadReference | ReservedReference

  function ReadReference(z: nat, dist: seq<nat>, input: seq<byte>, p: nat): (r: Reference)
    requires z < 31 && |dist| <= 32
    ensures r.Reference? ==> r.back >= 1
  {
    if z >= 29 then ReservedReference
    else
      var q := p + LengthExtra(z);
      match Decode(dist, input, q, MAX_BITS)
      case NoCode => BadReference
      case Symbol(d, m) =>
        if d >= 30 then ReservedReference
        else Reference(CopyLength(z, input, p), CopyDistance(d, input, q + m), q + m + DistExtra(d))
  }

  /** A block of literals and copies up to its end-of-block symbol (section 3.2.3). */
  function Block(fuel: nat, lit: seq<nat>, dist: seq<nat>, input: seq<byte>, p: nat, out: seq<byte>): Outcome
    requires |lit| <= 288 && |dist| <= 32
  {
    if fuel == 0 then OutOfFuel
    else match Decode(lit, input, p, MAX_BITS)
      case NoCode => Corrupt
      case Symbol(s, n) =>
        if s < END_OF_BLOCK then Block(fuel - 1, lit, dist, input, p + n, out + [s])
        else if s == END_OF_BLOCK then Done(out, p + n)
        else match ReadReference(s - 257, dist, input, p + n)
          case BadReference => Corrupt
          case ReservedReference => Reserved
          case Reference(len, back, q) =>
            if back > |out| then Corrupt else Block(fuel - 1, lit, dist, input, q, Copy(out, back, len))
  }

  /** One symbol of a block, spelled out. */
  lemma BlockStep(fuel: nat, lit: seq<nat>, dist: seq<nat>, input: seq<byte>, p: nat, out: seq<byte>)
    requires |lit| <= 288 && |dist| <= 32
    ensures var o := Block(fuel + 1, lit, dist, input, p, out);
            match Decode(lit, input, p, MAX_BITS)
            case NoCode => o.Corrupt?
            case Symbol(s, n) =>
              if s < 256 then o == Block(fuel, lit, dist, input, p + n, out + [s])
              else if s == 256 then o == Done(out, p + n)
              else match ReadReference(s - 257, dist, input, p + n)
                case BadReference => o.Corrupt?
                case ReservedReference => o.Reserved?
                case Reference(len, back, q) =>
                  if back > |out| then o.Corrupt?
                  else o == Block(fuel, lit, dist, input, q, Copy(out, back, len))
  {
    hide Decode, Copy, ReadReference;
  }

  /** The length of the data a stored block's header at byte t announces, or -1 when the length
      and its complement disagree or the input is too short. */
  function StoredLength(input: seq<byte>, t: nat): (r: int)
    ensures r >= 0 ==> t + 4 + r <= |input| && r <= 65535
  {
    var len: nat := ByteAt(input, t) as nat + 256 * ByteAt(input, t + 1) as nat;
    var nlen: nat := ByteAt(input, t + 2) as nat + 256 * ByteAt(input, t + 3) as nat;
    if len + nlen != 0xffff || t + 4 + len > |input| then -1 else len
  }

  /** A block of bytes stored from the next byte boundary (section 3.2.4). */
  function Stored(input: seq<byte>, p: nat, out: seq<byte>): Outcome {
    var t := (p + 7) / 8;
    var len := StoredLength(input, t);
    if len < 0 then Corrupt
    else Done(out + input[t + 4..t + 4 + len], 8 * (t + 4 + len))
  }

  // Fixed codes (section 3.2.6)

  function Repeat<T>(x: T, n: nat): (r: seq<T>)
    ensures |r| == n && forall i :: 0 <= i < n ==> r[i] == x
  {
    if n == 0 then [] else Repeat(x, n - 1) + [x]
  }

  function FixedLiteral(): (lens: seq<nat>)
    ensures |lens| == 288
  {
    Repeat(8, 144) + Repeat(9, 112) + Repeat(7, 24) + Repeat(8, 8)
  }

  function FixedDistance(): (lens: seq<nat>)
    ensures |lens| == 32
  {
    Repeat(5, 32)
  }

  // Dynamic codes (section 3.2.7)

  /** The order in which the lengths of the code length code are sent. */
  function Order(i: nat): (s: nat)
    requires i < 19
    ensures s < 19
  {
    [16, 17, 18, 0, 8, 7, 9, 6, 10, 5, 11, 4, 12, 3, 13, 2, 14, 1, 15][i]
  }

  /** Where code length s stands in that order. */
  function Rank(s: nat): (r: nat)
    requires s < 19
    ensures r < 19
  {
    if s == 16 then 0 else if s == 17 then 1 else if s == 18 then 2 else if s == 0 then 3
    else if s >= 8 then 4 + 2 * (s - 8) else 5 + 2 * (7 - s)
  }

  lemma OrderRank(i: nat)
    requires i < 19
    ensures Rank(Order(i)) == i
  {}

  lemma RankOrder(s: nat)
    requires s < 19
    ensures Order(Rank(s)) == s
  {}

  /** The length of the code length code's symbol s: the first n lengths of the order are sent,
      the rest are zero. */
  function CodeLengthOf(input: seq<byte>, p: nat, n: nat, s: nat): nat
    requires s < 19
  {
    if Rank(s) < n then Bits(input, p + 3 * Rank(s), 3) else 0
  }

  function CodeLengthCode(input: seq<byte>, p: nat, n: nat): (lens: seq<nat>)
    ensures |lens| == 19 && forall s :: 0 <= s < 19 ==> lens[s] == CodeLengthOf(input, p, n, s)
  {
    seq(19, s requires 0 <= s < 19 => CodeLengthOf(input, p, n, s))
  }

  datatype Lengths = Lengths(lens: seq<nat>, p: nat) | BadLengths

  /** Symbols 16, 17 and 18 repeat a length; their extra bits say how often. */
  function RunExtra(c: nat): nat {
    if c == 16 then 2 else if c == 17 then 3 else 7
  }

  function RunLength(c: nat, input: seq<byte>, p: nat): (r: nat)
    ensures r > 0
  {
    Bits(input, p, RunExtra(c)) + (if c == 18 then 11 else 3)
  }

  /** The code lengths of both alphabets, run-length encoded over the code length alphabet. */
  function ReadLengths(code: seq<nat>, input: seq<byte>, p: nat, lens: seq<nat>, total: nat): (r: Lengths)
    requires |code| == 19 && |lens| <= total
    ensures r.Lengths? ==> |r.lens| == total
    decreases total - |lens|
  {
    if |lens| == total then Lengths(lens, p)
    else match Decode(code, input, p, MAX_BITS)
      case NoCode => BadLengths
      case Symbol(c, n) =>
        if c < 16 then ReadLengths(code, input, p + n, lens + [c], total)
        else if c == 16 && lens == [] then BadLengths
        else
          var fill := if c == 16 then lens[|lens| - 1] else 0;
          var run := RunLength(c, input, p + n);
          if total - |lens| < run then BadLengths
          else ReadLengths(code, input, p + n + RunExtra(c), lens + Repeat(fill, run), total)
  }

  /** One symbol of the code length alphabet, spelled out. */
  lemma LengthsStep(code: seq<nat>, input: seq<byte>, p: nat, lens: seq<nat>, total: nat)
    requires |code| == 19 && |lens| < total
    ensures var r := ReadLengths(code, input, p, lens, total);
            match Decode(code, input, p, MAX_BITS)
            case NoCode => r.BadLengths?
            case Symbol(c, n) =>
              if c < 16 then r == ReadLengths(code, input, p + n, lens + [c], total)
              else if c == 16 && lens == [] then r.BadLengths?
              else
                var run := RunLength(c, input, p + n);
                if total - |lens| < run then r.BadLengths?
                else r == ReadLengths(code, input, p + n + RunExtra(c),
                                      lens + Repeat(if c == 16 then lens[|lens| - 1] else 0, run), total)
  {
    hide Bits, Decode;
  }

  datatype Codes = Codes(lit: seq<nat>, dist: seq<nat>, p: nat) | BadCodes

  function DynamicLengths(input: seq<byte>, p: nat, hclen: nat, total: nat): (r: Lengths)
    ensures r.Lengths? ==> |r.lens| == total
  {
    var code := CodeLengthCode(input, p, hclen);
    if Decodable(code) then ReadLengths(code, input, p + 3 * hclen, [], total) else BadLengths
  }

  /** How many lengths of each alphabet a dynamic block sends: literal/length, distance and
      code length. */
  function DynamicCounts(input: seq<byte>, p: nat): (r: (nat, nat, nat))
    ensures 257 <= r.0 <= 288 && 1 <= r.1 <= 32 && 4 <= r.2 <= 19
  {
    Pow2Values();
    (Bits(input, p, 5) + 257, Bits(input, p + 5, 5) + 1, Bits(input, p + 10, 4) + 4)
  }

  function DynamicCodes(input: seq<byte>, p: nat): (r: Codes)
    ensures r.Codes? ==> |r.lit| <= 288 && |r.dist| <= 32
  {
    var (hlit, hdist, hclen) := DynamicCounts(input, p);
    match DynamicLengths(input, p + 14, hclen, hlit + hdist)
    case BadLengths => BadCodes
    case Lengths(lens, q) =>
      if Decodable(lens[..hlit]) && Decodable(lens[hlit..]) then Codes(lens[..hlit], lens[hlit..], q) else BadCodes
  }

  /** One block after its three header bits. */
  function BlockOfType(fuel: nat, kind: nat, input: seq<byte>, p: nat, out: seq<byte>): Outcome {
    if kind == 0 then Stored(input, p, out)
    else if kind == 1 then Block(fuel, FixedLiteral(), FixedDistance(), input, p, out)
    else if kind == 2 then
      match DynamicCodes(input, p)
      case BadCodes => Corrupt
      case Codes(lit, dist, q) => Block(fuel, lit, dist, input, q, out)
    else Corrupt
  }

  lemma DynamicBlock(fuel: nat, input: seq<byte>, p: nat, out: seq<byte>)
    ensures var c := DynamicCodes(input, p);
            var o := BlockOfType(fuel, 2, input, p, out);
            if c.Codes? then o == Block(fuel, c.lit, c.dist, input, c.p, out) else o == Corrupt
  {
    hide DynamicCodes, Block;
  }

  /** Blocks up to and including the one marked final. */
  function Blocks(fuel: nat, input: seq<byte>, p: nat, out: seq<byte>): Outcome {
    if fuel == 0 then OutOfFuel
    else
      var last := Bits(input, p, 1);
      var r := BlockOfType(fuel - 1, Bits(input, p + 1, 2), input, p + 3, out);
      if !r.Done? || last == 1 then r else Blocks(fuel - 1, input, r.p, r.out)
  }

  lemma NextBlock(fuel: nat, input: seq<byte>, p: nat, out: seq<byte>)
    ensures var r := BlockOfType(fuel, Bits(input, p + 1, 2), input, p + 3, out);
            var o := Blocks(fuel + 1, input, p, out);
            if !r.Done? || Bits(input, p, 1) == 1 then o == r else o == Blocks(fuel, input, r.p, r.out)
  {
    hide Bits, BlockOfType;
  }

  lemma NoBlocks(input: seq<byte>, p: nat, out: seq<byte>)
    ensures Blocks(0, input, p, out).OutOfFuel?
  {}

  /** The two-byte zlib header: deflate, no preset dictionary, check bits right (RFC 1950, section 2.2). */
  predicate ZlibHeader(input: seq<byte>) {
    var cmf, flg := ByteAt(input, 0), ByteAt(input, 1);
    (cmf as nat * 256 + flg as nat) % 31 == 0 && Bit(flg, 5) == 0 && Low(cmf, 4) == 8
  }

  function Inflate(fuel: nat, input: seq<byte>, header: bool): Outcome {
    if !header then Blocks(fuel, input, 0, [])
    else if ZlibHeader(input) then Blocks(fuel, input, 16, [])
    else Corrupt
  }
}
