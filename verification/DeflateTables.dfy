/** The constant tables of DEFLATE by the rules that RFC 1951 gives for them: which length or
    distance every symbol stands for, the words of the fixed codes, and the order and the runs of
    code lengths. The decoder and its specification share the tables; nothing here does. */
module DeflateTables {
  import opened BitOps
  import opened BitStream
  import opened Canonical
  import opened Deflate
  import opened DeflateCoding
  import opened DynamicCoding

  // Lengths and distances (section 3.2.5)

  /** Four symbols for each number of extra bits, once there are any. */
  lemma LengthExtraRule(z: nat)
    requires z < 29
    ensures LengthExtra(z) == if z < 8 || z == 28 then 0 else z / 4 - 1
  {}

  /** Two symbols for each number of extra bits, once there are any. */
  lemma DistExtraRule(d: nat)
    requires d < 30
    ensures DistExtra(d) == if d < 4 then 0 else d / 2 - 1
  {}

  /** The lengths of one symbol end where those of the next begin; 258 has a symbol to itself. */
  lemma LengthsTile(z: nat)
    requires z < 27
    ensures LengthBase(z + 1) == LengthBase(z) + Pow2(LengthExtra(z))
    ensures LengthBase(0) == 3 && LengthBase(27) + Pow2(LengthExtra(27)) == 259 && LengthBase(28) == 258
  {
    hide Pow2;
    Pow2Values();
    if z < 9 {
      LowLengths(z);
    } else {
      HighLengths(z);
    }
  }

  lemma LowLengths(z: nat)
    requires z < 9
    ensures LengthBase(z + 1) == LengthBase(z) + if LengthExtra(z) == 0 then 1 else 2
    ensures LengthExtra(z) <= 1
  {}

  lemma HighLengths(z: nat)
    requires 9 <= z < 27
    ensures LengthBase(z + 1) == LengthBase(z) + Pow2(LengthExtra(z))
  {
    hide Pow2;
    Pow2Values();
  }

  /** So do the distances, from 1 to 32768. */
  lemma DistancesTile(d: nat)
    requires d < 29
    ensures DistBase(d + 1) == DistBase(d) + Pow2(DistExtra(d))
    ensures DistBase(0) == 1 && DistBase(29) + Pow2(DistExtra(29)) == 32769
  {
    hide Pow2;
    Pow2Values();
    if d < 10 {
      NearDistances(d);
    } else if d < 20 {
      MiddleDistances(d);
    } else {
      FarDistances(d);
    }
  }

  lemma NearDistances(d: nat)
    requires d < 10
    ensures DistBase(d + 1) == DistBase(d) + Pow2(DistExtra(d))
  {
    hide Pow2;
    Pow2Values();
  }

  lemma MiddleDistances(d: nat)
    requires 10 <= d < 20
    ensures DistBase(d + 1) == DistBase(d) + Pow2(DistExtra(d))
  {
    hide Pow2;
    Pow2Values();
  }

  lemma FarDistances(d: nat)
    requires 20 <= d < 29
    ensures DistBase(d + 1) == DistBase(d) + Pow2(DistExtra(d))
  {
    hide Pow2;
    Pow2Values();
  }

  /** The symbol for a length, looked for from symbol z down. */
  lemma {:induction false} LengthSymbol(len: nat, z: nat) returns (s: nat, e: nat)
    requires z < 28 && 3 <= len < LengthBase(z) + Pow2(LengthExtra(z))
    ensures s <= z && e < Pow2(LengthExtra(s)) && LengthBase(s) + e == len
    decreases z
  {
    hide LengthBase, LengthExtra, Pow2;
    LengthsTile(0);
    if len >= LengthBase(z) {
      s, e := z, len - LengthBase(z);
    } else {
      LengthsTile(z - 1);
      s, e := LengthSymbol(len, z - 1);
    }
  }

  lemma {:induction false} DistanceSymbol(back: nat, d: nat) returns (s: nat, e: nat)
    requires d < 30 && 1 <= back < DistBase(d) + Pow2(DistExtra(d))
    ensures s <= d && e < Pow2(DistExtra(s)) && DistBase(s) + e == back
    decreases d
  {
    hide DistBase, DistExtra, Pow2;
    DistancesTile(0);
    if back >= DistBase(d) {
      s, e := d, back - DistBase(d);
    } else {
      DistancesTile(d - 1);
      s, e := DistanceSymbol(back, d - 1);
    }
  }

  lemma {:induction false} LengthRange(z: nat, e: nat)
    requires z < 29 && e < Pow2(LengthExtra(z))
    ensures 3 <= LengthBase(z) + e <= 258
  {
    hide Pow2;
    Pow2Values();
  }

  lemma {:induction false} DistanceRange(d: nat, e: nat)
    requires d < 30 && e < Pow2(DistExtra(d))
    ensures 1 <= DistBase(d) + e <= 32768
  {
    hide Pow2;
    Pow2Values();
  }

  /** r is out followed by len bytes, each the one dist before it. */
  ghost predicate Copied(out: seq<byte>, dist: nat, len: nat, r: seq<byte>) {
    && 1 <= dist <= |out| && |r| == |out| + len && r[..|out|] == out
    && forall i :: |out| <= i < |r| ==> r[i] == r[i - dist]
  }

  lemma {:induction false} CopyIsCopied(out: seq<byte>, dist: nat, len: nat)
    requires 1 <= dist <= |out|
    ensures Copied(out, dist, len, Copy(out, dist, len))
    decreases len
  {
    if len > 0 {
      var longer := out + [out[|out| - dist]];
      CopyIsCopied(longer, dist, len - 1);
      var r := Copy(longer, dist, len - 1);
      assert r[..|out|] == r[..|longer|][..|out|] == out;
      assert r[|out|] == r[..|longer|][|out|] && r[|out| - dist] == r[..|longer|][|out| - dist];
    }
  }

  /** Only one string is that copy. */
  lemma CopiedOnce(out: seq<byte>, dist: nat, len: nat, r: seq<byte>, r': seq<byte>)
    requires Copied(out, dist, len, r) && Copied(out, dist, len, r')
    ensures r == r'
  {
    forall i | 0 <= i < |r|
      ensures r[i] == r'[i]
    {
      SameByte(out, dist, len, r, r', i);
    }
  }

  lemma {:induction false} SameByte(out: seq<byte>, dist: nat, len: nat, r: seq<byte>, r': seq<byte>, i: nat)
    requires Copied(out, dist, len, r) && Copied(out, dist, len, r') && i < |r|
    ensures r[i] == r'[i]
  {
    if i < |out| {
      assert r[i] == r[..|out|][i] && r'[i] == r'[..|out|][i];
    } else {
      SameByte(out, dist, len, r, r', i - dist);
    }
  }

  /** The token says: copy len bytes from dist back. */
  ghost predicate Means(t: Token, dist: nat, len: nat) {
    && t.Match? && t.z < 29 && t.d < 30 && t.le < Pow2(LengthExtra(t.z)) && t.de < Pow2(DistExtra(t.d))
    && (forall n: nat :: Reaches(t, n) <==> dist <= n)
    && forall out: seq<byte> :: Reaches(t, |out|) ==> Copied(out, dist, len, Apply(out, t))
  }

  /** Every length from 3 to 258 with every distance from 1 to 32768 has a token that means just
      that copy. */
  lemma EveryCopy(dist: nat, len: nat) returns (t: Token)
    requires 1 <= dist <= 32768 && 3 <= len <= 258
    ensures Means(t, dist, len)
  {
    hide LengthBase, LengthExtra, DistBase, DistExtra, Pow2, Copied;
    LengthsTile(0);
    DistancesTile(0);
    var z, le := LengthSymbol(len, 27);
    var d, de := DistanceSymbol(dist, 29);
    t := Match(z, le, d, de);
    forall out: seq<byte> | Reaches(t, |out|)
      ensures Copied(out, dist, len, Apply(out, t))
    {
      CopyIsCopied(out, dist, len);
    }
  }

  /** And every token that can be encoded is such a copy, or a literal. */
  lemma EveryToken(lit: seq<nat>, dist: seq<nat>, t: Token) returns (back: nat, len: nat)
    requires 257 <= |lit| <= 288 && |dist| <= 32 && Encodable(lit, dist, t)
    ensures t.Match? ==> 1 <= back <= 32768 && 3 <= len <= 258 && Means(t, back, len)
  {
    hide LengthBase, LengthExtra, DistBase, DistExtra, Pow2, Copied;
    back, len := 0, 0;
    if t.Match? {
      LengthRange(t.z, t.le);
      DistanceRange(t.d, t.de);
      back, len := DistBase(t.d) + t.de, LengthBase(t.z) + t.le;
      forall out: seq<byte> | Reaches(t, |out|)
        ensures Copied(out, back, len, Apply(out, t))
      {
        CopyIsCopied(out, back, len);
      }
    }
  }

  /** The codes have words for all symbols of copies. */
  ghost predicate AllCopies(lit: seq<nat>, dist: seq<nat>) {
    && 286 <= |lit| <= 288 && 30 <= |dist| <= 32
    && (forall s :: 257 <= s < 286 ==> lit[s] > 0) && forall d :: 0 <= d < 30 ==> dist[d] > 0
  }

  /** In a block: wherever the bits of that copy are, the block goes on behind them with the copy
      made. */
  lemma CopyInBlock(fuel: nat, lit: seq<nat>, dist: seq<nat>, input: seq<byte>, p: nat, out: seq<byte>,
                    back: nat, len: nat) returns (t: Token)
    requires BlockCodes(lit, dist) && AllCopies(lit, dist) && 1 <= back <= 32768 && 3 <= len <= 258
    ensures Encodable(lit, dist, t) && Means(t, back, len)
    ensures back <= |out| && Carries(input, p, EncodeToken(lit, dist, t)) ==>
              exists r :: Copied(out, back, len, r) &&
                Block(fuel + 1, lit, dist, input, p, out)
                  == Block(fuel, lit, dist, input, p + |EncodeToken(lit, dist, t)|, r)
  {
    hide Block, Carries, EncodeToken, Copied, Pow2, LengthExtra, DistExtra, Reaches, Kraft, Bounded, Apply;
    t := EveryCopy(back, len);
    assert Reaches(t, |out|) <==> back <= |out|;
    if back <= |out| && Carries(input, p, EncodeToken(lit, dist, t)) {
      TokenRoundTrip(fuel, lit, dist, input, p, out, t);
      assert Copied(out, back, len, Apply(out, t));
    }
  }

  lemma FixedHasCopies()
    ensures AllCopies(FixedLiteral(), FixedDistance())
  {}

  // The fixed codes (section 3.2.6)

  lemma {:induction false} CountJoin(a: seq<nat>, b: seq<nat>, l: nat)
    ensures Count(a + b, l) == Count(a, l) + Count(b, l)
    decreases |b|
  {
    if b == [] {
      assert a + b == a;
    } else {
      assert (a + b)[..|a + b| - 1] == a + b[..|b| - 1];
      CountJoin(a, b[..|b| - 1], l);
    }
  }

  lemma {:induction false} CountSame(lens: seq<nat>, x: nat, l: nat)
    requires forall i :: 0 <= i < |lens| ==> lens[i] == x
    ensures Count(lens, l) == if x == l then |lens| else 0
  {
    if lens != [] {
      CountSame(lens[..|lens| - 1], x, l);
    }
  }

  lemma SliceCount(lens: seq<nat>, lo: nat, hi: nat, x: nat, l: nat)
    requires lo <= hi <= |lens| && forall i :: lo <= i < hi ==> lens[i] == x
    ensures Count(lens[lo..hi], l) == if x == l then hi - lo else 0
  {
    hide Count;
    CountSame(lens[lo..hi], x, l);
  }

  lemma {:induction false} FirstNone(lens: seq<nat>, l: nat)
    requires forall k :: 1 <= k < l ==> Count(lens, k) == 0
    ensures First(lens, l) == 0
  {
    hide Count;
    if l > 1 {
      FirstNone(lens, l - 1);
    }
  }

  lemma FirstNext(lens: seq<nat>, l: nat)
    requires l > 1
    ensures First(lens, l) == 2 * (First(lens, l - 1) + Count(lens, l - 1))
  {}

  lemma FixedLength(s: nat)
    requires s < 288
    ensures FixedLiteral()[s] == if s < 144 then 8 else if s < 256 then 9 else if s < 280 then 7 else 8
  {}

  function Least(a: nat, b: nat): (r: nat)
    ensures r <= a && r <= b && (r == a || r == b)
  {
    if a < b then a else b
  }

  /** How many of the symbols before s have words of length l. */
  lemma EarlierWords(s: nat, l: nat)
    requires s <= 288
    ensures Count(FixedLiteral()[..s], l)
         == (if l == 8 then Least(s, 144) + (s - Least(s, 280)) else 0)
            + (if l == 9 then Least(s, 256) - Least(s, 144) else 0)
            + (if l == 7 then Least(s, 280) - Least(s, 256) else 0)
  {
    hide Count, FixedLiteral;
    var lens := FixedLiteral();
    forall i: nat | i < 288
      ensures lens[i] == if i < 144 then 8 else if i < 256 then 9 else if i < 280 then 7 else 8
    {
      FixedLength(i);
    }
    var a, b, c := lens[0..Least(s, 144)], lens[Least(s, 144)..Least(s, 256)], lens[Least(s, 256)..Least(s, 280)];
    var d := lens[Least(s, 280)..s];
    SliceCount(lens, 0, Least(s, 144), 8, l);
    SliceCount(lens, Least(s, 144), Least(s, 256), 9, l);
    SliceCount(lens, Least(s, 256), Least(s, 280), 7, l);
    SliceCount(lens, Least(s, 280), s, 8, l);
    CountJoin(a, b, l);
    CountJoin(a + b, c, l);
    CountJoin(a + b + c, d, l);
    assert lens[..s] == a + b + c + d;
  }

  lemma FixedFirsts()
    ensures First(FixedLiteral(), 7) == 0 && First(FixedLiteral(), 8) == 48 && First(FixedLiteral(), 9) == 400
  {
    hide Count, First, FixedLiteral;
    var lens := FixedLiteral();
    assert lens[..288] == lens;
    forall k: nat
      ensures Count(lens, k) == (if k == 8 then 152 else if k == 9 then 112 else if k == 7 then 24 else 0)
    {
      EarlierWords(288, k);
    }
    FirstNone(lens, 7);
    FirstNext(lens, 8);
    FirstNext(lens, 9);
  }

  /** The words of the fixed literal/length code: eight bits from 00110000 on for the first 144
      symbols, nine from 110010000 on, seven zeros on from the end of the block, and eight from
      11000000 on for the last. */
  lemma FixedWords(s: nat)
    requires s < 288
    ensures var lens := FixedLiteral();
            if s < 144 then lens[s] == 8 && Code(lens, s) == 0x30 + s
            else if s < 256 then lens[s] == 9 && Code(lens, s) == 0x190 + (s - 144)
            else if s < 280 then lens[s] == 7 && Code(lens, s) == s - 256
            else lens[s] == 8 && Code(lens, s) == 0xc0 + (s - 280)
  {
    hide Count, First, Repeat, FixedLiteral;
    FixedFirsts();
    FixedLength(s);
    EarlierWords(s, FixedLiteral()[s]);
  }

  /** Distances are sent as five-bit numbers. */
  lemma FixedDistanceWords(d: nat)
    requires d < 32
    ensures FixedDistance()[d] == 5 && Code(FixedDistance(), d) == d
  {
    hide Count, First;
    var lens := FixedDistance();
    forall k: nat
      ensures Count(lens, k) == if k == 5 then 32 else 0
    {
      CountSame(lens, 5, k);
    }
    FirstNone(lens, 5);
    CountSame(lens[..d], 5, 5);
  }

  // Code lengths (section 3.2.7)

  /** After the three repeating symbols and zero the lengths are sent from the middle outwards. */
  lemma OrderRule(i: nat)
    requires i < 19
    ensures Order(i) == if i < 3 then 16 + i else if i == 3 then 0
                        else if i % 2 == 0 then 8 + (i - 4) / 2 else 8 - (i - 3) / 2
  {}

  /** A run's symbol says what it adds: itself, three to six times the last length, three to ten
      zeros, or eleven to 138. */
  lemma RunAdds(lens: seq<nat>, c: nat, n: nat)
    requires c < 19 && (c == 16 ==> lens != [])
    ensures (exists e: nat :: e < Pow2(ExtraBits(c)) && |Extend(lens, LengthRun(c, e))| == |lens| + n)
            <==> if c < 16 then n == 1 else if c == 16 then 3 <= n <= 6 else if c == 17 then 3 <= n <= 10 else 11 <= n <= 138
    ensures forall e: nat, i: nat :: |lens| <= i < |Extend(lens, LengthRun(c, e))| ==>
              Extend(lens, LengthRun(c, e))[i] == if c < 16 then c else if c == 16 then lens[|lens| - 1] else 0
  {
    hide Pow2, Repeat;
    Pow2Values();
    if c < 16 && n == 1 {
      assert |Extend(lens, LengthRun(c, 0))| == |lens| + n;
    } else if (c == 16 && 3 <= n <= 6) || (c == 17 && 3 <= n <= 10) {
      assert |Extend(lens, LengthRun(c, n - 3))| == |lens| + n;
    } else if c == 18 && 11 <= n <= 138 {
      assert |Extend(lens, LengthRun(c, n - 11))| == |lens| + n;
    }
  }

  // The zlib header (RFC 1950, section 2.2)

  /** The second byte for a first one and a level: no dictionary, and the check bits that make the
      two a multiple of 31. */
  function HeaderByte(cmf: byte, level: nat): (flg: byte)
    requires level < 4
  {
    64 * level + (31 - (cmf * 256 + 64 * level) % 31) % 31
  }

  /** Deflate with any window and level announces itself with an acceptable header; the only other
      check bits that will do are all ones in place of zeros. */
  lemma HeaderBytes(window: nat, level: nat, flg: byte)
    requires window < 16 && level < 4 && flg / 64 == level
    ensures var cmf: byte := 16 * window + 8;
            ZlibHeader([cmf, flg])
            <==> flg == HeaderByte(cmf, level) || (flg % 64 == 31 && HeaderByte(cmf, level) % 64 == 0)
  {
    hide Pow2, Low, Bit, Shr;
    var cmf: byte := 16 * window + 8;
    Pow2Values();
    SplitUnique(window, 8, 4);
    FifthBit(flg);
    CheckBits(cmf * 256 + 64 * level, flg - 64 * level);
    assert ByteAt([cmf, flg], 0) == cmf && ByteAt([cmf, flg], 1) == flg;
    assert window * 16 + 8 == cmf;
    LevelBits(cmf, level, flg);
  }

  lemma LevelBits(cmf: byte, level: nat, flg: byte)
    requires level < 4 && flg / 64 == level
    ensures flg - 64 * level == flg % 64 && HeaderByte(cmf, level) / 64 == level
    ensures HeaderByte(cmf, level) % 64 == (31 - (cmf * 256 + 64 * level) % 31) % 31
  {}

  lemma CheckBits(base: nat, c: nat)
    requires c < 64
    ensures (base + c) % 31 == 0 && c < 32 <==> c == (31 - base % 31) % 31 || (c == 31 && base % 31 == 0)
  {}

  lemma FifthBit(flg: byte)
    ensures Bit(flg, 5) == 0 <==> flg % 64 < 32
  {
    hide Shr, Pow2;
    Pow2Values();
    SplitUnique(flg / 32, flg % 32, 5);
    ShrBits(flg, 5, 0);
    LowestBit(flg / 32);
    SixBits(flg);
  }

  lemma LowestBit(v: nat)
    ensures Bit(v, 0) == v % 2
  {}

  lemma SixBits(v: nat)
    ensures (v / 32) * 32 + v % 32 == v && (v / 32 % 2 == 0 <==> v % 64 < 32)
  {}
}
