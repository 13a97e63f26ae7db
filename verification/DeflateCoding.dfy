/** What the inflater's reference decoder means: it inverts DEFLATE encoding, and everything it
    accepts is such an encoding. */
module DeflateCoding {
  import opened BitOps
  import opened BitStream
  import opened Canonical
  import opened Deflate

  type bit = b: nat | b < 2

  /** The low n bits of v, least significant first: how DEFLATE sends numbers. */
  function LsbBits(v: nat, n: nat): (bits: seq<bit>)
    ensures |bits| == n
  {
    if n == 0 then [] else [v % 2] + LsbBits(v / 2, n - 1)
  }

  /** The low n bits of v, most significant first: how DEFLATE sends code words. */
  function MsbBits(v: nat, n: nat): (bits: seq<bit>)
    ensures |bits| == n
  {
    if n == 0 then [] else MsbBits(v / 2, n - 1) + [v % 2]
  }

  /** The stream carries the given bits from position p. */
  ghost predicate Carries(input: seq<byte>, p: nat, bits: seq<bit>) {
    forall k :: 0 <= k < |bits| ==> BitAt(input, p + k) == bits[k]
  }

  lemma CarriesSplit(input: seq<byte>, p: nat, a: seq<bit>, b: seq<bit>)
    ensures Carries(input, p, a + b) <==> Carries(input, p, a) && Carries(input, p + |a|, b)
  {
    hide BitAt;
    if Carries(input, p, a + b) {
      forall k | 0 <= k < |a|
        ensures BitAt(input, p + k) == a[k]
      {
        assert (a + b)[k] == a[k];
      }
      forall k | 0 <= k < |b|
        ensures BitAt(input, p + |a| + k) == b[k]
      {
        assert (a + b)[|a| + k] == b[k];
        assert BitAt(input, p + (|a| + k)) == (a + b)[|a| + k];
      }
    }
    if Carries(input, p, a) && Carries(input, p + |a|, b) {
      forall k | 0 <= k < |a + b|
        ensures BitAt(input, p + k) == (a + b)[k]
      {
        if k >= |a| {
          assert BitAt(input, p + |a| + (k - |a|)) == b[k - |a|];
        }
      }
    }
  }

  /** A number sent least significant bit first is read back by Bits, and only it. */
  lemma {:induction false} LsbCarries(input: seq<byte>, p: nat, v: nat, n: nat)
    requires v < Pow2(n)
    ensures Carries(input, p, LsbBits(v, n)) <==> Bits(input, p, n) == v
    decreases n
  {
    hide BitAt;
    if n > 0 {
      LsbCarries(input, p + 1, v / 2, n - 1);
      CarriesSplit(input, p, [v % 2], LsbBits(v / 2, n - 1));
      CarriesOne(input, p, v % 2);
    }
  }

  lemma CarriesOne(input: seq<byte>, p: nat, b: bit)
    ensures Carries(input, p, [b]) <==> BitAt(input, p) == b
  {
    hide BitAt;
    if Carries(input, p, [b]) {
      assert BitAt(input, p + 0) == [b][0];
    }
  }

  /** A code word sent most significant bit first is read back by Msb, and only it. */
  lemma {:induction false} MsbCarries(input: seq<byte>, p: nat, v: nat, n: nat)
    requires v < Pow2(n)
    ensures Carries(input, p, MsbBits(v, n)) <==> Msb(input, p, n) == v
    decreases n
  {
    hide BitAt;
    if n > 0 {
      MsbCarries(input, p, v / 2, n - 1);
      CarriesSplit(input, p, MsbBits(v / 2, n - 1), [v % 2]);
      CarriesOne(input, p + n - 1, v % 2);
    }
  }

  // Packing bits into bytes

  function Pack(bits: seq<bit>): seq<byte> {
    if |bits| <= 8 then (if bits == [] then [] else [PackByte(bits)])
    else [PackByte(bits[..8])] + Pack(bits[8..])
  }

  function PackByte(bits: seq<bit>): (v: byte)
    requires |bits| <= 8
  {
    ValueBound(bits);
    Value(bits)
  }

  function Value(bits: seq<bit>): nat {
    if bits == [] then 0 else bits[0] + 2 * Value(bits[1..])
  }

  lemma {:induction false} ValueBelow(bits: seq<bit>)
    ensures Value(bits) < Pow2(|bits|)
  {
    if bits != [] {
      ValueBelow(bits[1..]);
    }
  }

  lemma ValueBound(bits: seq<bit>)
    requires |bits| <= 8
    ensures Value(bits) < 256
  {
    ValueBelow(bits);
    Pow2Monotone(|bits|, 8);
    Pow2Values();
  }

  lemma {:induction false} ValueBit(bits: seq<bit>, i: nat)
    requires i < |bits|
    ensures Bit(Value(bits), i) == bits[i]
  {
    if i > 0 {
      ValueBit(bits[1..], i - 1);
    }
  }

  lemma {:induction false} PackBit(bits: seq<bit>, k: nat)
    requires k < |bits|
    ensures BitAt(Pack(bits), k) == bits[k]
  {
    if |bits| <= 8 {
      ValueBit(bits, k);
    } else if k < 8 {
      ValueBit(bits[..8], k);
    } else {
      PackBit(bits[8..], k - 8);
      assert k / 8 == 1 + (k - 8) / 8 && k % 8 == (k - 8) % 8;
    }
  }

  lemma PackCarries(bits: seq<bit>)
    ensures Carries(Pack(bits), 0, bits)
  {
    forall k | 0 <= k < |bits|
      ensures BitAt(Pack(bits), 0 + k) == bits[k]
    {
      PackBit(bits, k);
    }
  }

  // Symbols

  function EncodeSymbol(lens: seq<nat>, i: nat): (bits: seq<bit>)
    requires i < |lens|
    ensures |bits| == lens[i]
  {
    MsbBits(Code(lens, i), lens[i])
  }

  /** Decoding finds symbol i exactly where its code word is carried. */
  lemma SymbolDecodes(lens: seq<nat>, input: seq<byte>, p: nat, max: nat, i: nat)
    requires Decodable(lens) && Bounded(lens, max) && max <= MAX && i < |lens| && lens[i] > 0
    ensures Decode(lens, input, p, max) == Symbol(i, lens[i]) <==> Carries(input, p, EncodeSymbol(lens, i))
  {
    hide Code, Carries, Decode, Kraft, Msb, MsbBits, Shr;
    CodeFits(lens, i);
    MsbCarries(input, p, Code(lens, i), lens[i]);
    WindowPrefix(input, p, lens[i]);
    if Msb(input, p, lens[i]) == Code(lens, i) {
      MatchIsDecode(lens, input, p, max, i);
    }
    DecodeIsMatch(lens, input, p, max);
  }

  function EncodeSymbols(lens: seq<nat>, syms: seq<nat>): seq<bit>
    requires forall i :: 0 <= i < |syms| ==> syms[i] < |lens|
  {
    if syms == [] then [] else EncodeSymbol(lens, syms[0]) + EncodeSymbols(lens, syms[1..])
  }

  datatype Run = Run(syms: seq<nat>, p: nat)

  /** n symbols decoded one after the other, stopping at a code word that does not exist. */
  function DecodeSymbols(lens: seq<nat>, input: seq<byte>, p: nat, max: nat, n: nat): Run
    decreases n
  {
    if n == 0 then Run([], p)
    else match Decode(lens, input, p, max)
      case NoCode => Run([], p)
      case Symbol(i, l) => var rest := DecodeSymbols(lens, input, p + l, max, n - 1); Run([i] + rest.syms, rest.p)
  }

  /** Encoding any symbols and decoding as many gives them back and consumes just their bits. */
  lemma {:induction false} SymbolsRoundTrip(lens: seq<nat>, syms: seq<nat>, input: seq<byte>, p: nat, max: nat)
    requires Decodable(lens) && Bounded(lens, max) && max <= MAX
    requires forall i :: 0 <= i < |syms| ==> syms[i] < |lens| && lens[syms[i]] > 0
    requires Carries(input, p, EncodeSymbols(lens, syms))
    ensures DecodeSymbols(lens, input, p, max, |syms|) == Run(syms, p + |EncodeSymbols(lens, syms)|)
    decreases |syms|
  {
    hide Carries, Decode, EncodeSymbol, Kraft;
    if syms != [] {
      var first, rest := EncodeSymbol(lens, syms[0]), EncodeSymbols(lens, syms[1..]);
      CarriesSplit(input, p, first, rest);
      SymbolDecodes(lens, input, p, max, syms[0]);
      SymbolsRoundTrip(lens, syms[1..], input, p + |first|, max);
    }
  }

  // Tokens

  /** A literal byte, or a copy given by its two symbols and their extra bits. */
  datatype Token = Literal(b: byte) | Match(z: nat, le: nat, d: nat, de: nat)

  ghost predicate Encodable(lit: seq<nat>, dist: seq<nat>, t: Token)
    requires 257 <= |lit| <= 288 && |dist| <= 32
  {
    match t
    case Literal(b) => lit[b] > 0
    case Match(z, le, d, de) =>
      && z < 29 && 257 + z < |lit| && lit[257 + z] > 0 && le < Pow2(LengthExtra(z))
      && d < 30 && d < |dist| && dist[d] > 0 && de < Pow2(DistExtra(d))
  }

  /** The token only reaches back into a window of n bytes. */
  predicate Reaches(t: Token, n: nat) {
    t.Match? ==> t.d < 30 && DistBase(t.d) + t.de <= n
  }

  /** The LZ77 meaning of a token. */
  function Apply(out: seq<byte>, t: Token): seq<byte>
    requires Reaches(t, |out|)
  {
    match t
    case Literal(b) => out + [b]
    case Match(z, le, d, de) => if z < 29 then Copy(out, DistBase(d) + de, LengthBase(z) + le) else out
  }

  ghost predicate Sound(lit: seq<nat>, dist: seq<nat>, out: seq<byte>, tokens: seq<Token>)
    requires 257 <= |lit| <= 288 && |dist| <= 32
    decreases |tokens|
  {
    tokens == [] ||
    (Encodable(lit, dist, tokens[0]) && Reaches(tokens[0], |out|) && Sound(lit, dist, Apply(out, tokens[0]), tokens[1..]))
  }

  /** The LZ77 meaning of a token sequence. */
  function Meaning(out: seq<byte>, tokens: seq<Token>): seq<byte>
    decreases |tokens|
  {
    if tokens == [] || !Reaches(tokens[0], |out|) then out else Meaning(Apply(out, tokens[0]), tokens[1..])
  }

  ghost function EncodeToken(lit: seq<nat>, dist: seq<nat>, t: Token): seq<bit>
    requires 257 <= |lit| <= 288 && |dist| <= 32 && Encodable(lit, dist, t)
  {
    match t
    case Literal(b) => EncodeSymbol(lit, b)
    case Match(z, le, d, de) =>
      EncodeSymbol(lit, 257 + z) + LsbBits(le, LengthExtra(z)) + EncodeSymbol(dist, d) + LsbBits(de, DistExtra(d))
  }

  /** The bits of a block: its tokens and the end-of-block symbol. */
  ghost function EncodeBlock(lit: seq<nat>, dist: seq<nat>, out: seq<byte>, tokens: seq<Token>): seq<bit>
    requires 257 <= |lit| <= 288 && |dist| <= 32 && Sound(lit, dist, out, tokens)
    decreases |tokens|
  {
    if tokens == [] then EncodeSymbol(lit, END_OF_BLOCK)
    else EncodeToken(lit, dist, tokens[0]) + EncodeBlock(lit, dist, Apply(out, tokens[0]), tokens[1..])
  }

  /** Codes a block can be decoded with. */
  ghost predicate BlockCodes(lit: seq<nat>, dist: seq<nat>) {
    && 257 <= |lit| <= 288 && |dist| <= 32
    && Bounded(lit, MAX_BITS) && Bounded(dist, MAX_BITS) && Decodable(lit) && Decodable(dist)
  }

  /** The four fields of a copy are read back. */
  lemma MatchRoundTrip(lit: seq<nat>, dist: seq<nat>, input: seq<byte>, p: nat, t: Token)
    requires BlockCodes(lit, dist) && Encodable(lit, dist, t) && t.Match?
    requires Carries(input, p, EncodeToken(lit, dist, t))
    ensures Decode(lit, input, p, MAX_BITS) == Symbol(257 + t.z, lit[257 + t.z])
    ensures ReadReference(t.z, dist, input, p + lit[257 + t.z])
         == Reference(LengthBase(t.z) + t.le, DistBase(t.d) + t.de, p + |EncodeToken(lit, dist, t)|)
  {
    hide Carries, Decode, EncodeSymbol, Bits, LsbBits, Kraft, Bounded, LengthBase, LengthExtra, DistBase, DistExtra;
    var a, b := EncodeSymbol(lit, 257 + t.z), LsbBits(t.le, LengthExtra(t.z));
    var c, d := EncodeSymbol(dist, t.d), LsbBits(t.de, DistExtra(t.d));
    CarriesSplit(input, p, a + b + c, d);
    CarriesSplit(input, p, a + b, c);
    CarriesSplit(input, p, a, b);
    var q := p + |a|;
    assert |a + b| == |a| + |b| && |a + b + c| == |a| + |b| + |c|;
    SymbolDecodes(lit, input, p, MAX_BITS, 257 + t.z);
    LsbCarries(input, q, t.le, LengthExtra(t.z));
    SymbolDecodes(dist, input, q + |b|, MAX_BITS, t.d);
    LsbCarries(input, q + |b| + |c|, t.de, DistExtra(t.d));
  }

  /** One encoded token is decoded and applied. */
  lemma TokenRoundTrip(fuel: nat, lit: seq<nat>, dist: seq<nat>, input: seq<byte>, p: nat, out: seq<byte>, t: Token)
    requires BlockCodes(lit, dist) && Encodable(lit, dist, t) && Reaches(t, |out|)
    requires Carries(input, p, EncodeToken(lit, dist, t))
    ensures Block(fuel + 1, lit, dist, input, p, out)
         == Block(fuel, lit, dist, input, p + |EncodeToken(lit, dist, t)|, Apply(out, t))
  {
    hide Carries, Decode, EncodeSymbol, ReadReference, Kraft, Copy, Block, Bounded, LengthBase, LengthExtra,
      DistBase, DistExtra;
    BlockStep(fuel, lit, dist, input, p, out);
    if t.Match? {
      MatchRoundTrip(lit, dist, input, p, t);
    } else {
      SymbolDecodes(lit, input, p, MAX_BITS, t.b);
    }
  }

  /** A block decodes to the LZ77 meaning of the tokens it encodes. */
  lemma {:induction false} BlockRoundTrip(fuel: nat, lit: seq<nat>, dist: seq<nat>, input: seq<byte>, p: nat,
                                          out: seq<byte>, tokens: seq<Token>)
    requires BlockCodes(lit, dist) && lit[END_OF_BLOCK] > 0 && Sound(lit, dist, out, tokens) && fuel > |tokens|
    requires Carries(input, p, EncodeBlock(lit, dist, out, tokens))
    ensures Block(fuel, lit, dist, input, p, out)
         == Done(Meaning(out, tokens), p + |EncodeBlock(lit, dist, out, tokens)|)
    decreases |tokens|
  {
    hide Carries, Decode, EncodeSymbol, EncodeToken, Apply, Encodable, Kraft, Copy, Block, Bounded;
    if tokens == [] {
      SymbolDecodes(lit, input, p, MAX_BITS, END_OF_BLOCK);
      BlockStep(fuel - 1, lit, dist, input, p, out);
    } else {
      var t := tokens[0];
      var first := EncodeToken(lit, dist, t);
      var rest := EncodeBlock(lit, dist, Apply(out, t), tokens[1..]);
      CarriesSplit(input, p, first, rest);
      TokenRoundTrip(fuel - 1, lit, dist, input, p, out, t);
      BlockRoundTrip(fuel - 1, lit, dist, input, p + |first|, Apply(out, t), tokens[1..]);
    }
  }

  /** The token a copy was read from. */
  lemma ReadMatch(lit: seq<nat>, dist: seq<nat>, input: seq<byte>, p: nat, z: nat) returns (t: Token)
    requires BlockCodes(lit, dist) && z < 31 && 257 + z < |lit| && lit[257 + z] > 0
    requires Decode(lit, input, p, MAX_BITS) == Symbol(257 + z, lit[257 + z])
    requires ReadReference(z, dist, input, p + lit[257 + z]).Reference?
    ensures t.Match? && t.z == z && Encodable(lit, dist, t)
    ensures Carries(input, p, EncodeToken(lit, dist, t))
    ensures ReadReference(z, dist, input, p + lit[257 + z])
         == Reference(LengthBase(z) + t.le, DistBase(t.d) + t.de, p + |EncodeToken(lit, dist, t)|)
  {
    hide Carries, Decode, EncodeToken, EncodeSymbol, Bits, LsbBits, Kraft, Bounded, LengthBase, LengthExtra,
      DistBase, DistExtra;
    var q := p + lit[257 + z];
    var r := q + LengthExtra(z);
    var found := Decode(dist, input, r, MAX_BITS);
    MatchedLength(dist, input, r);
    t := Match(z, Bits(input, q, LengthExtra(z)), found.sym, Bits(input, r + found.len, DistExtra(found.sym)));
    MatchCarries(lit, dist, input, p, t);
  }

  lemma MatchCarries(lit: seq<nat>, dist: seq<nat>, input: seq<byte>, p: nat, t: Token)
    requires BlockCodes(lit, dist) && t.Match? && Encodable(lit, dist, t)
    requires Decode(lit, input, p, MAX_BITS) == Symbol(257 + t.z, lit[257 + t.z])
    requires var q := p + lit[257 + t.z];
             var r := q + LengthExtra(t.z);
             && Decode(dist, input, r, MAX_BITS) == Symbol(t.d, dist[t.d])
             && t.le == Bits(input, q, LengthExtra(t.z))
             && t.de == Bits(input, r + dist[t.d], DistExtra(t.d))
    ensures Carries(input, p, EncodeToken(lit, dist, t))
    ensures |EncodeToken(lit, dist, t)| == lit[257 + t.z] + LengthExtra(t.z) + dist[t.d] + DistExtra(t.d)
  {
    hide Carries, Decode, EncodeSymbol, Bits, LsbBits, Kraft, LengthExtra, DistExtra;
    var a, b := EncodeSymbol(lit, 257 + t.z), LsbBits(t.le, LengthExtra(t.z));
    var c, d := EncodeSymbol(dist, t.d), LsbBits(t.de, DistExtra(t.d));
    var q := p + |a|;
    var r := q + |b|;
    SymbolDecodes(lit, input, p, MAX_BITS, 257 + t.z);
    LsbCarries(input, q, t.le, LengthExtra(t.z));
    SymbolDecodes(dist, input, r, MAX_BITS, t.d);
    LsbCarries(input, r + |c|, t.de, DistExtra(t.d));
    CarriesSplit(input, p, a, b);
    CarriesSplit(input, p, a + b, c);
    CarriesSplit(input, p, a + b + c, d);
  }

  /** A decoded symbol has a code word, and its length is the number of bits used. */
  lemma MatchedLength(lens: seq<nat>, input: seq<byte>, p: nat)
    requires Bounded(lens, MAX_BITS)
    ensures var d := Decode(lens, input, p, MAX_BITS);
            d.Symbol? ==> d.sym < |lens| && lens[d.sym] == d.len > 0
  {
    hide Decode, Code, Shr;
    DecodeIsMatch(lens, input, p, MAX_BITS);
  }

  /** The token a step of a successful block decodes. */
  lemma ReadToken(fuel: nat, lit: seq<nat>, dist: seq<nat>, input: seq<byte>, p: nat, out: seq<byte>) returns (t: Token)
    requires BlockCodes(lit, dist) && Block(fuel + 1, lit, dist, input, p, out).Done?
    requires Decode(lit, input, p, MAX_BITS).sym != END_OF_BLOCK
    ensures Encodable(lit, dist, t) && Reaches(t, |out|) && Carries(input, p, EncodeToken(lit, dist, t))
    ensures Block(fuel + 1, lit, dist, input, p, out)
         == Block(fuel, lit, dist, input, p + |EncodeToken(lit, dist, t)|, Apply(out, t))
  {
    hide Carries, Decode, EncodeSymbol, EncodeToken, ReadReference, Kraft, Copy, Block, Bounded, LengthBase,
      LengthExtra, DistBase, DistExtra;
    BlockStep(fuel, lit, dist, input, p, out);
    MatchedLength(lit, input, p);
    var s := Decode(lit, input, p, MAX_BITS).sym;
    if s < END_OF_BLOCK {
      t := Literal(s);
      LiteralBits(lit, dist, s);
      SymbolDecodes(lit, input, p, MAX_BITS, s);
    } else {
      t := ReadMatch(lit, dist, input, p, s - 257);
    }
  }

  /** Whatever a block decodes to is the LZ77 meaning of tokens, and the bits it consumed are
      exactly those tokens' encoding. */
  lemma {:induction false} BlockSound(fuel: nat, lit: seq<nat>, dist: seq<nat>, input: seq<byte>, p: nat, out: seq<byte>)
      returns (tokens: seq<Token>)
    requires BlockCodes(lit, dist) && Block(fuel, lit, dist, input, p, out).Done?
    ensures Sound(lit, dist, out, tokens) && |tokens| < fuel && lit[END_OF_BLOCK] > 0
    ensures Carries(input, p, EncodeBlock(lit, dist, out, tokens))
    ensures Block(fuel, lit, dist, input, p, out)
         == Done(Meaning(out, tokens), p + |EncodeBlock(lit, dist, out, tokens)|)
    decreases fuel
  {
    hide Carries, Decode, EncodeSymbol, EncodeToken, Apply, Encodable, Kraft, Copy, Block, Bounded;
    EmptyFuel(lit, dist, input, p, out);
    BlockStep(fuel - 1, lit, dist, input, p, out);
    MatchedLength(lit, input, p);
    if Decode(lit, input, p, MAX_BITS).sym == END_OF_BLOCK {
      tokens := [];
      SymbolDecodes(lit, input, p, MAX_BITS, END_OF_BLOCK);
    } else {
      var t := ReadToken(fuel - 1, lit, dist, input, p, out);
      var first := EncodeToken(lit, dist, t);
      var rest := BlockSound(fuel - 1, lit, dist, input, p + |first|, Apply(out, t));
      tokens := [t] + rest;
      assert tokens[1..] == rest;
      CarriesSplit(input, p, first, EncodeBlock(lit, dist, Apply(out, t), rest));
    }
  }

  lemma EmptyFuel(lit: seq<nat>, dist: seq<nat>, input: seq<byte>, p: nat, out: seq<byte>)
    requires |lit| <= 288 && |dist| <= 32
    ensures Block(0, lit, dist, input, p, out).OutOfFuel?
  {}

  lemma LiteralBits(lit: seq<nat>, dist: seq<nat>, b: byte)
    requires 257 <= |lit| <= 288 && |dist| <= 32 && lit[b] > 0
    ensures EncodeToken(lit, dist, Literal(b)) == EncodeSymbol(lit, b)
  {}
}
