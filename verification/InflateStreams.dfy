/** Whole DEFLATE streams: any list of stored, fixed and dynamic blocks inflates to what it means,
    and whatever inflates is such a list. */
module InflateStreams {
  import opened BitOps
  import opened BitStream
  import opened Canonical
  import opened Deflate
  import opened DeflateCoding
  import opened DynamicCoding
  import InflateTheorems
  import ZBuf

  /** A block's contents: bytes after padding up to a byte boundary, or tokens in one of the two
      kinds of codes. */
  datatype Piece = StoredPiece(pad: seq<bit>, data: seq<byte>)
                 | FixedPiece(tokens: seq<Token>)
                 | DynamicPiece(h: Header, tokens: seq<Token>)

  function Kind(b: Piece): nat {
    match b
    case StoredPiece(_, _) => 0
    case FixedPiece(_) => 1
    case DynamicPiece(_, _) => 2
  }

  /** The bits up to the next byte boundary. */
  function Padding(p: nat): (n: nat)
    ensures p + n == 8 * ((p + 7) / 8)
  {
    8 * ((p + 7) / 8) - p
  }

  /** The block can stand at position p, after its three header bits, when out has been produced. */
  ghost predicate PieceOk(p: nat, out: seq<byte>, b: Piece) {
    match b
    case StoredPiece(pad, data) => |pad| == Padding(p) && |data| <= 65535
    case FixedPiece(tokens) => Sound(FixedLiteral(), FixedDistance(), out, tokens)
    case DynamicPiece(h, tokens) =>
      HeaderOk(h) && LitOf(h)[END_OF_BLOCK] > 0 && Sound(LitOf(h), DistOf(h), out, tokens)
  }

  /** What the block adds. */
  function PieceMeaning(out: seq<byte>, b: Piece): seq<byte> {
    match b
    case StoredPiece(_, data) => out + data
    case FixedPiece(tokens) => Meaning(out, tokens)
    case DynamicPiece(_, tokens) => Meaning(out, tokens)
  }

  function BytesBits(data: seq<byte>): (bits: seq<bit>)
    ensures |bits| == 8 * |data|
  {
    if data == [] then [] else LsbBits(data[0], 8) + BytesBits(data[1..])
  }

  /** Both length fields, and the bytes. */
  function StoredBits(data: seq<byte>): (bits: seq<bit>)
    requires |data| <= 65535
    ensures |bits| == 32 + 8 * |data|
  {
    LsbBits(|data|, 16) + LsbBits(65535 - |data|, 16) + BytesBits(data)
  }

  ghost function PieceBits(p: nat, out: seq<byte>, b: Piece): seq<bit>
    requires PieceOk(p, out, b)
  {
    match b
    case StoredPiece(pad, data) => pad + StoredBits(data)
    case FixedPiece(tokens) => EncodeBlock(FixedLiteral(), FixedDistance(), out, tokens)
    case DynamicPiece(h, tokens) => EncodeHeader(h) + EncodeBlock(LitOf(h), DistOf(h), out, tokens)
  }

  /** The bytes of a stored block are not made up from the zeros past the end. */
  ghost predicate Within(p: nat, out: seq<byte>, b: Piece, size: nat)
    requires PieceOk(p, out, b)
  {
    b.StoredPiece? ==> p + |PieceBits(p, out, b)| <= 8 * size
  }

  /** The decoder watches long enough for the block. */
  predicate Enough(fuel: nat, b: Piece) {
    b.StoredPiece? || fuel > |b.tokens|
  }

  // Stored blocks

  /** A length field. */
  lemma TwoBytes(input: seq<byte>, t: nat)
    ensures Bits(input, 8 * t, 16) == ByteAt(input, t) as nat + 256 * ByteAt(input, t + 1) as nat
  {
    hide Bits, ByteAt;
    Pow2Values();
    BitsSplit(input, 8 * t, 8, 8);
    BitsOfByte(input, t);
    BitsOfByte(input, t + 1);
    assert 8 * t + 8 == 8 * (t + 1);
  }

  lemma {:induction false} BytesCarry(input: seq<byte>, t: nat, data: seq<byte>)
    ensures Carries(input, 8 * t, BytesBits(data)) <==> forall i :: 0 <= i < |data| ==> ByteAt(input, t + i) == data[i]
    decreases |data|
  {
    hide Carries, Bits, LsbBits, ByteAt, Pow2;
    if data == [] {
      CarriesNothing(input, 8 * t);
    } else {
      var rest := data[1..];
      Pow2Values();
      BytesCarry(input, t + 1, rest);
      CarriesSplit(input, 8 * t, LsbBits(data[0], 8), BytesBits(rest));
      LsbCarries(input, 8 * t, data[0], 8);
      BitsOfByte(input, t);
      assert 8 * t + 8 == 8 * (t + 1);
      if forall i :: 0 <= i < |data| ==> ByteAt(input, t + i) == data[i] {
        forall i | 0 <= i < |rest|
          ensures ByteAt(input, t + 1 + i) == rest[i]
        {
          assert ByteAt(input, t + (i + 1)) == data[i + 1];
        }
      }
      if ByteAt(input, t) == data[0] && forall i :: 0 <= i < |rest| ==> ByteAt(input, t + 1 + i) == rest[i] {
        forall i | 0 <= i < |data|
          ensures ByteAt(input, t + i) == data[i]
        {
          assert i > 0 ==> ByteAt(input, t + 1 + (i - 1)) == rest[i - 1];
        }
      }
    }
  }

  /** A stored block is read exactly where its lengths and bytes are. */
  lemma StoredCarry(input: seq<byte>, t: nat, data: seq<byte>)
    requires |data| <= 65535 && t + 4 + |data| <= |input|
    ensures Carries(input, 8 * t, StoredBits(data))
            <==> StoredLength(input, t) == |data| && input[t + 4..t + 4 + |data|] == data
  {
    hide Carries, Bits, LsbBits, BytesBits;
    var n := |data|;
    var a, b, c := LsbBits(n, 16), LsbBits(65535 - n, 16), BytesBits(data);
    Pow2Values();
    CarriesSplit(input, 8 * t, a + b, c);
    CarriesSplit(input, 8 * t, a, b);
    LsbCarries(input, 8 * t, n, 16);
    LsbCarries(input, 8 * t + 16, 65535 - n, 16);
    TwoBytes(input, t);
    TwoBytes(input, t + 2);
    BytesCarry(input, t + 4, data);
    assert 8 * t + 16 == 8 * (t + 2) && 8 * t + 32 == 8 * (t + 4);
    SameBytes(input, t + 4, data);
  }

  lemma SameBytes(input: seq<byte>, t: nat, data: seq<byte>)
    requires t + |data| <= |input|
    ensures input[t..t + |data|] == data <==> forall i :: 0 <= i < |data| ==> ByteAt(input, t + i) == data[i]
  {
    var s := input[t..t + |data|];
    assert forall i :: 0 <= i < |data| ==> s[i] == ByteAt(input, t + i);
  }

  // One block

  /** A block is decoded to what it means. */
  lemma PieceRoundTrip(fuel: nat, input: seq<byte>, p: nat, out: seq<byte>, b: Piece)
    requires PieceOk(p, out, b) && Enough(fuel, b) && Carries(input, p, PieceBits(p, out, b)) && Within(p, out, b, |input|)
    ensures BlockOfType(fuel, Kind(b), input, p, out) == Done(PieceMeaning(out, b), p + |PieceBits(p, out, b)|)
  {
    hide Carries, Block, Sound, EncodeBlock, FixedLiteral, FixedDistance, HeaderOk, EncodeHeader, LitOf, DistOf,
      Kraft, Meaning;
    hide StoredBits, StoredLength, DynamicCodes;
    match b
    case StoredPiece(pad, data) =>
      CarriesSplit(input, p, pad, StoredBits(data));
      StoredCarry(input, (p + 7) / 8, data);
    case FixedPiece(tokens) =>
      ZBuf.FixedCodesDecodable();
      InflateTheorems.FixedLengths(END_OF_BLOCK);
      BlockRoundTrip(fuel, FixedLiteral(), FixedDistance(), input, p, out, tokens);
    case DynamicPiece(h, tokens) =>
      HeaderCodes(h);
      CarriesSplit(input, p, EncodeHeader(h), EncodeBlock(LitOf(h), DistOf(h), out, tokens));
      HeaderRoundTrip(h, input, p);
      BlockRoundTrip(fuel, LitOf(h), DistOf(h), input, p + |EncodeHeader(h)|, out, tokens);
  }

  /** The n bits from position p on. */
  function Taken(input: seq<byte>, p: nat, n: nat): (bits: seq<bit>)
    ensures |bits| == n
  {
    if n == 0 then [] else Taken(input, p, n - 1) + [BitAt(input, p + n - 1)]
  }

  lemma {:induction false} TakenCarries(input: seq<byte>, p: nat, n: nat)
    ensures Carries(input, p, Taken(input, p, n))
  {
    hide BitAt;
    if n > 0 {
      TakenCarries(input, p, n - 1);
    }
  }

  lemma StoredSound(input: seq<byte>, p: nat, out: seq<byte>) returns (b: Piece)
    requires Stored(input, p, out).Done?
    ensures b.StoredPiece? && PieceOk(p, out, b) && Carries(input, p, PieceBits(p, out, b))
    ensures p + |PieceBits(p, out, b)| <= 8 * |input|
    ensures Stored(input, p, out) == Done(PieceMeaning(out, b), p + |PieceBits(p, out, b)|)
  {
    hide Carries, StoredBits, StoredLength, Taken;
    var t := (p + 7) / 8;
    var n: nat := StoredLength(input, t);
    var pad, data := Taken(input, p, Padding(p)), input[t + 4..t + 4 + n];
    b := StoredPiece(pad, data);
    TakenCarries(input, p, Padding(p));
    StoredCarry(input, t, data);
    CarriesSplit(input, p, pad, StoredBits(data));
  }

  /** Whatever a block is decoded to is what some block means whose bits are the ones taken. */
  lemma PieceSound(fuel: nat, kind: nat, input: seq<byte>, p: nat, out: seq<byte>) returns (b: Piece)
    requires BlockOfType(fuel, kind, input, p, out).Done?
    ensures Kind(b) == kind && PieceOk(p, out, b) && Enough(fuel, b) && Carries(input, p, PieceBits(p, out, b))
    ensures Within(p, out, b, |input|)
    ensures BlockOfType(fuel, kind, input, p, out) == Done(PieceMeaning(out, b), p + |PieceBits(p, out, b)|)
  {
    hide Carries, Block, Sound, EncodeBlock, FixedLiteral, FixedDistance, HeaderOk, EncodeHeader, LitOf, DistOf,
      Kraft, Meaning;
    hide Stored, DynamicCodes;
    if kind == 0 {
      b := StoredSound(input, p, out);
    } else if kind == 1 {
      ZBuf.FixedCodesDecodable();
      var tokens := BlockSound(fuel, FixedLiteral(), FixedDistance(), input, p, out);
      b := FixedPiece(tokens);
    } else {
      var h := HeaderSound(input, p);
      HeaderCodes(h);
      var tokens := BlockSound(fuel, LitOf(h), DistOf(h), input, p + |EncodeHeader(h)|, out);
      b := DynamicPiece(h, tokens);
      CarriesSplit(input, p, EncodeHeader(h), EncodeBlock(LitOf(h), DistOf(h), out, tokens));
    }
  }

  // Streams

  /** The three bits in front of a block: the last one is marked. */
  function LeadBits(b: Piece, last: bool): (bits: seq<bit>)
    ensures |bits| == 3
  {
    LsbBits(if last then 1 else 0, 1) + LsbBits(Kind(b), 2)
  }

  /** Where the next block starts. */
  ghost function Next(p: nat, out: seq<byte>, b: Piece): nat
    requires PieceOk(p + 3, out, b)
  {
    p + 3 + |PieceBits(p + 3, out, b)|
  }

  ghost predicate PiecesOk(p: nat, out: seq<byte>, blocks: seq<Piece>)
    decreases |blocks|
  {
    && blocks != [] && PieceOk(p + 3, out, blocks[0])
    && (|blocks| > 1 ==> PiecesOk(Next(p, out, blocks[0]), PieceMeaning(out, blocks[0]), blocks[1..]))
  }

  /** What a stream means: what its blocks add, one after the other. */
  function StreamMeaning(out: seq<byte>, blocks: seq<Piece>): seq<byte>
    decreases |blocks|
  {
    if blocks == [] then out else StreamMeaning(PieceMeaning(out, blocks[0]), blocks[1..])
  }

  ghost function EncodePieces(p: nat, out: seq<byte>, blocks: seq<Piece>): seq<bit>
    requires PiecesOk(p, out, blocks)
    decreases |blocks|
  {
    LeadBits(blocks[0], |blocks| == 1) + PieceBits(p + 3, out, blocks[0])
    + if |blocks| == 1 then [] else EncodePieces(Next(p, out, blocks[0]), PieceMeaning(out, blocks[0]), blocks[1..])
  }

  ghost predicate AllWithin(p: nat, out: seq<byte>, blocks: seq<Piece>, size: nat)
    requires PiecesOk(p, out, blocks)
    decreases |blocks|
  {
    && Within(p + 3, out, blocks[0], size)
    && (|blocks| > 1 ==> AllWithin(Next(p, out, blocks[0]), PieceMeaning(out, blocks[0]), blocks[1..], size))
  }

  predicate EnoughAll(fuel: nat, blocks: seq<Piece>)
    decreases |blocks|
  {
    fuel > 0 && (blocks == [] || (Enough(fuel - 1, blocks[0]) && (|blocks| > 1 ==> EnoughAll(fuel - 1, blocks[1..]))))
  }

  lemma LeadCarries(input: seq<byte>, p: nat, b: Piece, last: bool)
    ensures Carries(input, p, LeadBits(b, last)) <==> Bits(input, p, 1) == (if last then 1 else 0) && Bits(input, p + 1, 2) == Kind(b)
  {
    hide Carries, Bits, LsbBits;
    Pow2Values();
    var v := if last then 1 else 0;
    CarriesSplit(input, p, LsbBits(v, 1), LsbBits(Kind(b), 2));
    LsbCarries(input, p, v, 1);
    LsbCarries(input, p + 1, Kind(b), 2);
  }

  /** One block more. */
  lemma BlocksStep(fuel: nat, input: seq<byte>, p: nat, out: seq<byte>, b: Piece, last: bool)
    requires fuel > 0 && PieceOk(p + 3, out, b) && Carries(input, p, LeadBits(b, last))
    requires BlockOfType(fuel - 1, Kind(b), input, p + 3, out)
          == Done(PieceMeaning(out, b), p + 3 + |PieceBits(p + 3, out, b)|)
    ensures var q := p + 3 + |PieceBits(p + 3, out, b)|;
            Blocks(fuel, input, p, out)
              == if last then Done(PieceMeaning(out, b), q) else Blocks(fuel - 1, input, q, PieceMeaning(out, b))
  {
    hide BlockOfType, Carries, PieceOk, PieceBits, PieceMeaning, Bits, LeadBits;
    LeadCarries(input, p, b, last);
  }

  /** Encoded blocks are decoded, up to the one marked, to what they mean together. */
  lemma {:induction false} BlocksRoundTrip(fuel: nat, input: seq<byte>, p: nat, out: seq<byte>, blocks: seq<Piece>)
    requires PiecesOk(p, out, blocks) && EnoughAll(fuel, blocks) && Carries(input, p, EncodePieces(p, out, blocks))
    requires AllWithin(p, out, blocks, |input|)
    ensures Blocks(fuel, input, p, out) == Done(StreamMeaning(out, blocks), p + |EncodePieces(p, out, blocks)|)
    decreases |blocks|
  {
    hide BlockOfType, Blocks, Carries, PieceOk, PieceBits, PieceMeaning, LeadBits, Enough, Within;
    var b, last := blocks[0], |blocks| == 1;
    var lead, body := LeadBits(b, last), PieceBits(p + 3, out, b);
    CarriesSplit(input, p, lead, body);
    CarriesSplit(input, p, lead + body, if last then [] else EncodePieces(Next(p, out, b), PieceMeaning(out, b), blocks[1..]));
    PieceRoundTrip(fuel - 1, input, p + 3, out, b);
    BlocksStep(fuel, input, p, out, b, last);
    if !last {
      BlocksRoundTrip(fuel - 1, input, p + 3 + |body|, PieceMeaning(out, b), blocks[1..]);
    }
  }

  /** Whatever blocks are decoded to is what a list of blocks means whose bits are the ones taken. */
  lemma {:induction false} BlocksSound(fuel: nat, input: seq<byte>, p: nat, out: seq<byte>) returns (blocks: seq<Piece>)
    requires Blocks(fuel, input, p, out).Done?
    ensures PiecesOk(p, out, blocks) && EnoughAll(fuel, blocks) && Carries(input, p, EncodePieces(p, out, blocks))
    ensures AllWithin(p, out, blocks, |input|)
    ensures Blocks(fuel, input, p, out) == Done(StreamMeaning(out, blocks), p + |EncodePieces(p, out, blocks)|)
    decreases fuel
  {
    hide BlockOfType, Carries, PieceOk, PieceBits, PieceMeaning, LeadBits, Enough, Bits, Within;
    var last := Bits(input, p, 1) == 1;
    var b := PieceSound(fuel - 1, Bits(input, p + 1, 2), input, p + 3, out);
    LeadIs(input, p, b);
    var lead, body := LeadBits(b, last), PieceBits(p + 3, out, b);
    CarriesSplit(input, p, lead, body);
    if last {
      blocks := [b];
      assert lead + body + [] == lead + body;
    } else {
      var rest := BlocksSound(fuel - 1, input, p + 3 + |body|, PieceMeaning(out, b));
      blocks := [b] + rest;
      assert blocks[1..] == rest;
      CarriesSplit(input, p, lead + body, EncodePieces(Next(p, out, b), PieceMeaning(out, b), rest));
    }
  }

  lemma LeadIs(input: seq<byte>, p: nat, b: Piece)
    requires Bits(input, p + 1, 2) == Kind(b)
    ensures Carries(input, p, LeadBits(b, Bits(input, p, 1) == 1))
  {
    hide Bits, Carries, LeadBits;
    Pow2Values();
    LeadCarries(input, p, b, Bits(input, p, 1) == 1);
  }

  /** Where the blocks start. */
  function Start(header: bool): nat {
    if header then 16 else 0
  }

  /** The input carries the blocks, after a good zlib header if there is to be one, and the decoder
      watches long enough. */
  ghost predicate IsStream(fuel: nat, input: seq<byte>, header: bool, blocks: seq<Piece>) {
    && (header ==> ZlibHeader(input)) && PiecesOk(Start(header), [], blocks) && EnoughAll(fuel, blocks)
    && Carries(input, Start(header), EncodePieces(Start(header), [], blocks))
    && AllWithin(Start(header), [], blocks, |input|)
  }

  /** An encoded stream inflates to what its blocks mean. */
  lemma InflateRoundTrip(fuel: nat, input: seq<byte>, header: bool, blocks: seq<Piece>)
    requires IsStream(fuel, input, header, blocks)
    ensures Inflate(fuel, input, header)
         == Done(StreamMeaning([], blocks), Start(header) + |EncodePieces(Start(header), [], blocks)|)
  {
    hide Blocks, Carries, PiecesOk, EncodePieces, ZlibHeader, AllWithin;
    BlocksRoundTrip(fuel, input, Start(header), [], blocks);
  }

  /** Whatever inflates is an encoded stream, and comes out as what its blocks mean. */
  lemma InflateSound(fuel: nat, input: seq<byte>, header: bool) returns (blocks: seq<Piece>)
    requires Inflate(fuel, input, header).Done?
    ensures IsStream(fuel, input, header, blocks)
    ensures Inflate(fuel, input, header)
         == Done(StreamMeaning([], blocks), Start(header) + |EncodePieces(Start(header), [], blocks)|)
  {
    hide Blocks, Carries, PiecesOk, EncodePieces, ZlibHeader, AllWithin;
    blocks := BlocksSound(fuel, input, Start(header), []);
  }

  /** Inflating succeeds exactly on encoded streams. */
  lemma InflatesExactly(fuel: nat, input: seq<byte>, header: bool)
    ensures Inflate(fuel, input, header).Done? <==> exists blocks :: IsStream(fuel, input, header, blocks)
  {
    hide Inflate, IsStream;
    if Inflate(fuel, input, header).Done? {
      var blocks := InflateSound(fuel, input, header);
    }
    if blocks :| IsStream(fuel, input, header, blocks) {
      assert PiecesOk(Start(header), [], blocks) by { StreamParts(fuel, input, header, blocks); }
      InflateRoundTrip(fuel, input, header, blocks);
    }
  }

  lemma StreamParts(fuel: nat, input: seq<byte>, header: bool, blocks: seq<Piece>)
    requires IsStream(fuel, input, header, blocks)
    ensures PiecesOk(Start(header), [], blocks)
  {}

  /** Any blocks, packed into bytes, come back. */
  lemma PackedRoundTrip(fuel: nat, blocks: seq<Piece>)
    requires PiecesOk(0, [], blocks) && EnoughAll(fuel, blocks)
    ensures Inflate(fuel, Pack(EncodePieces(0, [], blocks)), false)
         == Done(StreamMeaning([], blocks), |EncodePieces(0, [], blocks)|)
  {
    hide PiecesOk, EncodePieces, Pack, Carries, Inflate, AllWithin;
    var bits := EncodePieces(0, [], blocks);
    PackCarries(bits);
    PackLength(bits);
    PrefixWithin(0, [], blocks, |Pack(bits)|);
    InflateRoundTrip(fuel, Pack(bits), false, blocks);
  }

  lemma {:induction false} PackLength(bits: seq<bit>)
    ensures |bits| <= 8 * |Pack(bits)| < |bits| + 8
  {
    if |bits| > 8 {
      PackLength(bits[8..]);
    }
  }

  /** Blocks that fit as a whole fit one by one. */
  lemma {:induction false} PrefixWithin(p: nat, out: seq<byte>, blocks: seq<Piece>, size: nat)
    requires PiecesOk(p, out, blocks) && p + |EncodePieces(p, out, blocks)| <= 8 * size
    ensures AllWithin(p, out, blocks, size)
    decreases |blocks|
  {
    hide PieceOk, PieceBits, PieceMeaning, LeadBits;
    if |blocks| > 1 {
      PrefixWithin(Next(p, out, blocks[0]), PieceMeaning(out, blocks[0]), blocks[1..], size);
    }
  }
}
