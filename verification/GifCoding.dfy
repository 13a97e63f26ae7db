/** GIF's LZW as an encoder writes it: whatever strings an encoder takes from its table, and wherever
    it clears it, the decoder gives the pixels back. */
module GifCoding {
  import opened BitOps
  import opened BitStream
  import opened DeflateCoding
  import opened GifLzw

  // The encoder's table

  /** The codes stand for data in the encoder's table: each for a string of it that the rest of the data
      begins with, and each string taken goes into the table with the pixel after it. */
  ghost predicate Parses(cs: nat, table: seq<seq<byte>>, data: seq<byte>, codes: seq<nat>)
    decreases |codes|
  {
    if codes == [] then data == []
    else
      && codes[0] < |table| && Proper(cs, codes[0]) && table[codes[0]] != [] && table[codes[0]] <= data
      && var rest := data[|table[codes[0]]|..];
         Parses(cs, Noted(table, codes[0], rest), rest, codes[1..])
  }

  function Noted(table: seq<seq<byte>>, code: nat, rest: seq<byte>): seq<seq<byte>>
    requires code < |table|
  {
    if rest == [] then table else table + [table[code] + [rest[0]]]
  }

  /** How many entries the decoder has after n more codes: one is added for each but the first. */
  function After(avail: nat, first: bool, n: nat): nat {
    if n == 0 then avail else if first then avail + n - 1 else avail + n
  }

  /** The codes in the widths the decoder's table calls for. */
  function EncodeCodes(cs: nat, avail: nat, first: bool, codes: seq<nat>): (bits: seq<bit>)
    decreases |codes|
  {
    if codes == [] then []
    else LsbBits(codes[0], Width(cs + 1, avail)) + EncodeCodes(cs, After(avail, first, 1), false, codes[1..])
  }

  ghost predicate CodesFit(cs: nat, avail: nat, first: bool, codes: seq<nat>)
    decreases |codes|
  {
    codes == [] || (codes[0] < Pow2(Width(cs + 1, avail)) && CodesFit(cs, After(avail, first, 1), false, codes[1..]))
  }

  /** The decoder's table lags behind the encoder's by the entry whose last pixel is still to come. */
  ghost predicate Behind(d: Dict, table: seq<seq<byte>>, data: seq<byte>) {
    if d.last < 0 then table == d.strings
    else d.last < |d.strings| && data != [] && d.strings[d.last] != []
         && table == d.strings + [d.strings[d.last] + [data[0]]]
  }

  /** The decoder finds the encoder's string, the one it does not have yet included, and catches up. */
  lemma CatchesUp(cs: nat, d: Dict, table: seq<seq<byte>>, data: seq<byte>, code: nat)
    requires Behind(d, table, data) && code < |table| && table[code] != [] && table[code] <= data
    ensures code < |d.strings| || (code == |d.strings| && 0 <= d.last < |d.strings|)
    ensures StringOf(d, code) == table[code] && Learn(d, code) == Dict(table, code)
  {
    assert data[0] == table[code][0];
  }

  lemma NextBehind(table: seq<seq<byte>>, code: nat, rest: seq<byte>)
    requires code < |table| && table[code] != [] && rest != []
    ensures Behind(Dict(table, code), Noted(table, code, rest), rest)
  {}

  /** A number in the stream is read in its width. */
  lemma CodeRead(stream: seq<byte>, p: nat, v: nat, n: nat, more: seq<bit>)
    requires v < Pow2(n) && Carries(stream, p, LsbBits(v, n) + more)
    ensures Bits(stream, p, n) == v && Carries(stream, p + n, more)
  {
    hide Bits, LsbBits, Carries, Pow2;
    CarriesSplit(stream, p, LsbBits(v, n), more);
    LsbCarries(stream, p, v, n);
  }

  /** One code is decoded as the encoder's string. */
  lemma CodeRoundTrip(cs: nat, stream: seq<byte>, p: nat, d: Dict, table: seq<seq<byte>>, data: seq<byte>, code: nat)
    requires 2 <= cs <= 12 && DictValid(cs, d) && Behind(d, table, data) && |d.strings| < TABLE_SIZE
    requires code < |table| && Proper(cs, code) && table[code] != [] && table[code] <= data
    requires var w := Width(cs + 1, |d.strings|); p + w <= 8 * |stream| && Bits(stream, p, w) == code
    ensures DictValid(cs, Dict(table, code)) && |table| == After(|d.strings|, d.last < 0, 1)
    ensures var w := Width(cs + 1, |d.strings|);
            var rest := Codes(cs, stream, p + w, Width(cs + 1, |table|), Dict(table, code), true);
            w > 0 && Codes(cs, stream, p, w, d, true) == Outcome(rest.ok, table[code] + rest.pixels)
  {
    hide Bits, Codes, Width, NextWidth, Learn, StringOf, Pow2;
    var w := Width(cs + 1, |d.strings|);
    CatchesUp(cs, d, table, data, code);
    LearnValid(cs, d, code);
    CodesStep(cs, stream, p, w, d, true);
    WidthFollowsTable(cs, |d.strings|);
  }

  /** The first code and the rest. */
  lemma FirstCode(cs: nat, table: seq<seq<byte>>, data: seq<byte>, codes: seq<nat>, avail: nat, first: bool)
    requires codes != [] && Parses(cs, table, data, codes) && CodesFit(cs, avail, first, codes)
    ensures var c, w := codes[0], Width(cs + 1, avail);
            && c < |table| && Proper(cs, c) && table[c] != [] && table[c] <= data && c < Pow2(w)
            && EncodeCodes(cs, avail, first, codes)
               == LsbBits(c, w) + EncodeCodes(cs, After(avail, first, 1), false, codes[1..])
            && CodesFit(cs, After(avail, first, 1), false, codes[1..])
            && var rest := data[|table[c]|..];
               && Parses(cs, Noted(table, c, rest), rest, codes[1..])
               && (rest == [] ==> codes[1..] == []) && (rest != [] ==> Behind(Dict(table, c), Noted(table, c, rest), rest))
  {
    hide Width, Proper, LsbBits, Pow2;
    var rest := data[|table[codes[0]]|..];
    if rest == [] {
      NothingLeft(cs, Noted(table, codes[0], rest), codes[1..]);
    } else {
      NextBehind(table, codes[0], rest);
    }
  }

  /** The codes of one table are decoded as what they stand for; the decoder then has as many entries as
      the encoder knows of. */
  lemma {:induction false} TableRoundTrip(cs: nat, stream: seq<byte>, p: nat, d: Dict, table: seq<seq<byte>>,
                                          data: seq<byte>, codes: seq<nat>, more: seq<bit>) returns (d': Dict)
    requires 2 <= cs <= 12 && DictValid(cs, d) && |d.strings| + |codes| <= TABLE_SIZE
    requires codes != [] ==> Behind(d, table, data)
    requires Parses(cs, table, data, codes) && CodesFit(cs, |d.strings|, d.last < 0, codes)
    requires var bits := EncodeCodes(cs, |d.strings|, d.last < 0, codes);
             Carries(stream, p, bits + more) && p + |bits + more| <= 8 * |stream|
    ensures DictValid(cs, d') && |d'.strings| == After(|d.strings|, d.last < 0, |codes|)
    ensures var q := p + |EncodeCodes(cs, |d.strings|, d.last < 0, codes)|;
            var w, w' := Width(cs + 1, |d.strings|), Width(cs + 1, |d'.strings|);
            && w > 0 && w' > 0 && Carries(stream, q, more)
            && Codes(cs, stream, p, w, d, true)
               == Outcome(Codes(cs, stream, q, w', d', true).ok, data + Codes(cs, stream, q, w', d', true).pixels)
    decreases |codes|
  {
    hide Bits, Codes, Width, Proper, Carries, LsbBits, Behind, DictValid, Pow2, StringOf, Parses, CodesFit, EncodeCodes,
      Noted;
    var bits := EncodeCodes(cs, |d.strings|, d.last < 0, codes);
    if codes == [] {
      d' := d;
      NoCodes(cs, table, data, |d.strings|, d.last < 0);
      var rest := Codes(cs, stream, p, Width(cs + 1, |d.strings|), d, true);
      assert [] + more == more && [] + rest.pixels == rest.pixels;
    } else {
      var c, w := codes[0], Width(cs + 1, |d.strings|);
      FirstCode(cs, table, data, codes, |d.strings|, d.last < 0);
      var tail := EncodeCodes(cs, After(|d.strings|, d.last < 0, 1), false, codes[1..]);
      assert LsbBits(c, w) + tail + more == LsbBits(c, w) + (tail + more);
      CodeRead(stream, p, c, w, tail + more);
      CodeRoundTrip(cs, stream, p, d, table, data, c);
      var rest := data[|table[c]|..];
      d' := TableRoundTrip(cs, stream, p + w, Dict(table, c), Noted(table, c, rest), rest, codes[1..], more);
      var after := Codes(cs, stream, p + w + |tail|, Width(cs + 1, |d'.strings|), d', true).pixels;
      assert table[c] + (rest + after) == data + after;
    }
  }

  lemma NoCodes(cs: nat, table: seq<seq<byte>>, data: seq<byte>, avail: nat, first: bool)
    requires Parses(cs, table, data, [])
    ensures data == [] && EncodeCodes(cs, avail, first, []) == []
  {}

  lemma NothingLeft(cs: nat, table: seq<seq<byte>>, codes: seq<nat>)
    requires Parses(cs, table, [], codes)
    ensures codes == []
  {}

  // Whole rasters

  /** Pixels sent with one table. */
  datatype Chunk = Chunk(data: seq<byte>, codes: seq<nat>)

  /** A table's codes stand for its pixels, can be written, and do not overfill the decoder's table. */
  ghost predicate ChunkOk(cs: nat, c: Chunk) {
    && Parses(cs, Cleared(cs).strings, c.data, c.codes) && CodesFit(cs, Pow2(cs) + 2, true, c.codes)
    && Pow2(cs) + 2 + |c.codes| <= TABLE_SIZE
  }

  ghost predicate ChunksOk(cs: nat, chunks: seq<Chunk>) {
    forall i :: 0 <= i < |chunks| ==> ChunkOk(cs, chunks[i])
  }

  function Pixels(chunks: seq<Chunk>): seq<byte> {
    if chunks == [] then [] else chunks[0].data + Pixels(chunks[1..])
  }

  /** A clear code before each table, and the end code at last. */
  function EncodeChunks(cs: nat, avail: nat, chunks: seq<Chunk>): (bits: seq<bit>)
    decreases |chunks|
  {
    if chunks == [] then LsbBits(Pow2(cs) + 1, Width(cs + 1, avail))
    else LsbBits(Pow2(cs), Width(cs + 1, avail))
         + (EncodeCodes(cs, Pow2(cs) + 2, true, chunks[0].codes)
            + EncodeChunks(cs, After(Pow2(cs) + 2, true, |chunks[0].codes|), chunks[1..]))
  }

  lemma SpecialFit(cs: nat, w: nat)
    requires 2 <= cs < w
    ensures Pow2(cs) + 1 < Pow2(w)
  {
    Pow2Monotone(cs + 1, w);
    Pow2Monotone(2, cs);
    Pow2Values();
  }

  /** Everything up to the end code comes back. */
  lemma {:induction false} ChunksRoundTrip(cs: nat, stream: seq<byte>, p: nat, d: Dict, chunks: seq<Chunk>, cleared: bool)
    requires 2 <= cs <= 12 && DictValid(cs, d) && ChunksOk(cs, chunks)
    requires var bits := EncodeChunks(cs, |d.strings|, chunks);
             Carries(stream, p, bits) && p + |bits| <= 8 * |stream|
    ensures var w := Width(cs + 1, |d.strings|);
            w > 0 && Codes(cs, stream, p, w, d, cleared) == Outcome(true, Pixels(chunks))
    decreases |chunks|
  {
    hide Bits, Codes, Width, Carries, LsbBits, Pow2, DictValid, Parses, CodesFit;
    var w := Width(cs + 1, |d.strings|);
    SpecialFit(cs, w);
    CodesStep(cs, stream, p, w, d, cleared);
    if chunks == [] {
      var end := LsbBits(Pow2(cs) + 1, w);
      assert end + [] == end;
      CodeRead(stream, p, Pow2(cs) + 1, w, []);
    } else {
      var c := chunks[0];
      var start := Pow2(cs) + 2;
      var more := EncodeChunks(cs, After(start, true, |c.codes|), chunks[1..]);
      var body := EncodeCodes(cs, start, true, c.codes);
      CodeRead(stream, p, Pow2(cs), w, body + more);
      ClearedValid(cs);
      ClearedWidth(cs);
      var d' := TableRoundTrip(cs, stream, p + w, Cleared(cs), Cleared(cs).strings, c.data, c.codes, more);
      ChunksRoundTrip(cs, stream, p + w + |body|, d', chunks[1..], true);
    }
  }

  lemma ClearedWidth(cs: nat)
    requires 2 <= cs <= 12
    ensures Width(cs + 1, Pow2(cs) + 2) == cs + 1 && Behind(Cleared(cs), Cleared(cs).strings, [])
    ensures forall data :: Behind(Cleared(cs), Cleared(cs).strings, data)
  {
    WidthStart(cs);
  }

  // Blocks of bytes

  function Flatten(parts: seq<seq<byte>>): seq<byte> {
    if parts == [] then [] else parts[0] + Flatten(parts[1..])
  }

  predicate PartsOk(parts: seq<seq<byte>>) {
    forall i :: 0 <= i < |parts| ==> 0 < |parts[i]| < 256
  }

  /** Each part behind its length, and an empty block at the end. */
  function Blocked(parts: seq<seq<byte>>): seq<byte>
    requires PartsOk(parts)
  {
    if parts == [] then [0] else [|parts[0]| as byte] + parts[0] + Blocked(parts[1..])
  }

  lemma {:induction false} TakeSlice(input: seq<byte>, p: nat, n: nat)
    requires p + n <= |input|
    ensures Take(input, p, n) == input[p..p + n]
    decreases n
  {
    if n > 0 {
      TakeSlice(input, p + 1, n - 1);
    }
  }

  lemma BlockAt(input: seq<byte>, p: nat, part: seq<byte>)
    requires 0 < |part| && p + 1 + |part| <= |input| && input[p] == |part| && input[p + 1..p + 1 + |part|] == part
    ensures Unblock(input, p) == part + Unblock(input, p + 1 + |part|)
  {
    hide Take;
    TakeSlice(input, p + 1, |part|);
  }

  lemma Headed(before: seq<byte>, n: byte, part: seq<byte>, rest: seq<byte>)
    ensures var input := before + ([n] + part) + rest;
            |before| + 1 + |part| <= |input| && input[|before|] == n && input[|before| + 1..|before| + 1 + |part|] == part
  {}

  lemma LastBlock(before: seq<byte>, rest: seq<byte>)
    ensures Unblock(before + [0] + rest, |before|) == []
  {}

  /** Whatever blocks data is cut into, it is put together again. */
  lemma {:induction false} UnblockRoundTrip(before: seq<byte>, parts: seq<seq<byte>>, rest: seq<byte>)
    requires PartsOk(parts)
    ensures Unblock(before + Blocked(parts) + rest, |before|) == Flatten(parts)
    decreases |parts|
  {
    hide Unblock;
    if parts == [] {
      LastBlock(before, rest);
    } else {
      var head := [|parts[0]| as byte] + parts[0];
      var tail := Blocked(parts[1..]);
      assert before + Blocked(parts) + rest == before + head + (tail + rest);
      assert before + head + (tail + rest) == (before + head) + tail + rest;
      Headed(before, |parts[0]|, parts[0], tail + rest);
      BlockAt(before + head + (tail + rest), |before|, parts[0]);
      UnblockRoundTrip(before + head, parts[1..], rest);
    }
  }

  /** A raster written by any such encoder is read as its pixels. */
  lemma RasterRoundTrip(cs: byte, chunks: seq<Chunk>, parts: seq<seq<byte>>, rest: seq<byte>)
    requires 2 <= cs <= 12 && ChunksOk(cs, chunks) && PartsOk(parts)
    requires Flatten(parts) == Pack(EncodeChunks(cs, Pow2(cs) + 2, chunks))
    ensures Raster([cs] + Blocked(parts) + rest, 0) == Outcome(true, Pixels(chunks))
  {
    hide Codes, Width, Carries, Pow2, DictValid, ChunkOk, Pack, Unblock, EncodeChunks, Cleared;
    var bits := EncodeChunks(cs, Pow2(cs) + 2, chunks);
    UnblockRoundTrip([cs], parts, rest);
    PackCarries(bits);
    Packed(bits);
    ClearedValid(cs);
    ClearedWidth(cs);
    ChunksRoundTrip(cs, Pack(bits), 0, Cleared(cs), chunks, false);
  }

  lemma {:induction false} Packed(bits: seq<bit>)
    ensures |bits| <= 8 * |Pack(bits)|
  {
    if |bits| > 8 {
      Packed(bits[8..]);
    }
  }

  // Every image has such an encoding

  /** The strings of single pixels are in the table. */
  ghost predicate HasRoots(cs: nat, table: seq<seq<byte>>) {
    Pow2(cs) + 2 <= |table| && forall i: byte :: i < Pow2(cs) ==> table[i] == [i]
  }

  /** The longest string of the table that the data begins with, as far as the first n entries go. */
  function Longest(cs: nat, table: seq<seq<byte>>, data: seq<byte>, n: nat): (c: nat)
    requires HasRoots(cs, table) && data != [] && data[0] < Pow2(cs) && n <= |table|
    ensures c < |table| && Proper(cs, c) && table[c] != [] && table[c] <= data
    ensures forall i :: 0 <= i < n && Proper(cs, i) && table[i] <= data ==> |table[i]| <= |table[c]|
  {
    if n == 0 then data[0]
    else
      var c := Longest(cs, table, data, n - 1);
      if Proper(cs, n - 1) && table[n - 1] <= data && |table[n - 1]| > |table[c]| then n - 1 else c
  }

  /** The greedy encoder. */
  function Greedy(cs: nat, table: seq<seq<byte>>, data: seq<byte>): (codes: seq<nat>)
    requires HasRoots(cs, table) && forall i :: 0 <= i < |data| ==> data[i] < Pow2(cs)
    ensures |codes| <= |data|
    decreases |data|
  {
    if data == [] then []
    else
      var c := Longest(cs, table, data, |table|);
      var rest := data[|table[c]|..];
      [c] + Greedy(cs, Noted(table, c, rest), rest)
  }

  lemma {:induction false} GreedyParses(cs: nat, table: seq<seq<byte>>, data: seq<byte>)
    requires HasRoots(cs, table) && forall i :: 0 <= i < |data| ==> data[i] < Pow2(cs)
    ensures Parses(cs, table, data, Greedy(cs, table, data))
    decreases |data|
  {
    hide Longest, Pow2;
    if data != [] {
      var c := Longest(cs, table, data, |table|);
      var rest := data[|table[c]|..];
      var codes := Greedy(cs, table, data);
      GreedyParses(cs, Noted(table, c, rest), rest);
      assert codes[1..] == Greedy(cs, Noted(table, c, rest), rest);
    }
  }

  lemma {:induction false} WidthEnough(s: nat, avail: nat)
    requires avail < 4096
    ensures avail < Pow2(Width(s, avail))
    decreases 12 - s
  {
    hide Pow2;
    Pow2Values();
    if s >= 12 {
      Pow2Monotone(12, s);
    } else if avail >= Pow2(s) {
      WidthEnough(s + 1, avail);
    }
  }

  /** As long as the table has no more than 4096 entries all codes can be written. */
  lemma {:induction false} SmallFit(cs: nat, table: seq<seq<byte>>, data: seq<byte>, codes: seq<nat>, first: bool)
    requires Parses(cs, table, data, codes) && |table| > 0
    requires var avail := if first then |table| else |table| - 1; avail + |codes| <= 4096
    ensures CodesFit(cs, if first then |table| else |table| - 1, first, codes)
    decreases |codes|
  {
    hide Width, Pow2, Proper;
    if codes != [] {
      var avail := if first then |table| else |table| - 1;
      WidthEnough(cs + 1, avail);
      var rest := data[|table[codes[0]]|..];
      if rest == [] {
        NothingLeft(cs, Noted(table, codes[0], rest), codes[1..]);
      } else {
        SmallFit(cs, Noted(table, codes[0], rest), rest, codes[1..], false);
      }
    }
  }

  lemma ClearedRoots(cs: nat)
    requires cs <= 8
    ensures HasRoots(cs, Cleared(cs).strings)
  {
    Pow2Monotone(cs, 8);
    Pow2Values();
  }

  /** Any pixels of the given depth have an encoding, cleared before the table is full. */
  lemma {:induction false} EveryImage(cs: nat, data: seq<byte>) returns (chunks: seq<Chunk>)
    requires 2 <= cs <= 8 && forall i :: 0 <= i < |data| ==> data[i] < Pow2(cs)
    ensures ChunksOk(cs, chunks) && Pixels(chunks) == data
    decreases |data|
  {
    hide Pow2, Cleared, Parses, CodesFit, Greedy;
    if data == [] {
      chunks := [];
    } else {
      Pow2Values();
      Pow2Monotone(cs, 8);
      var n := if |data| < 3000 then |data| else 3000;
      var codes := GreedyChunk(cs, data[..n]);
      var rest := EveryImage(cs, data[n..]);
      chunks := [Chunk(data[..n], codes)] + rest;
      assert chunks[1..] == rest && data == data[..n] + data[n..];
    }
  }

  lemma GreedyChunk(cs: nat, data: seq<byte>) returns (codes: seq<nat>)
    requires 2 <= cs <= 8 && |data| <= 3000 && forall i :: 0 <= i < |data| ==> data[i] < Pow2(cs)
    ensures ChunkOk(cs, Chunk(data, codes))
  {
    hide Pow2, Cleared, Parses, CodesFit, Longest;
    Pow2Values();
    Pow2Monotone(cs, 8);
    ClearedRoots(cs);
    codes := Greedy(cs, Cleared(cs).strings, data);
    GreedyParses(cs, Cleared(cs).strings, data);
    SmallFit(cs, Cleared(cs).strings, data, codes, true);
  }
}
