/** The header of a dynamic block (section 3.2.7 of RFC 1951) as an encoding: the code lengths of
    both alphabets in runs, under a code whose own lengths come first. What the reference decoder
    makes of such bits, and that everything it accepts is such an encoding. */
module DynamicCoding {
  import opened BitOps
  import opened BitStream
  import opened Canonical
  import opened Deflate
  import opened DeflateCoding

  // Runs of code lengths

  /** A symbol of the code length alphabet with the value of its extra bits. */
  datatype LengthRun = LengthRun(c: nat, e: nat)

  function ExtraBits(c: nat): nat {
    if c < 16 then 0 else RunExtra(c)
  }

  /** The run can follow the lengths sent so far, and its symbol has a code word. */
  ghost predicate RunOk(code: seq<nat>, lens: seq<nat>, r: LengthRun)
    requires |code| == 19
  {
    r.c < 19 && code[r.c] > 0 && r.e < Pow2(ExtraBits(r.c)) && (r.c == 16 ==> lens != [])
  }

  /** Symbols below 16 are lengths, 16 repeats the last one, and 17 and 18 stand for zeros. */
  function Extend(lens: seq<nat>, r: LengthRun): (longer: seq<nat>)
    ensures |longer| > |lens| && longer[..|lens|] == lens
  {
    if r.c < 16 then lens + [r.c]
    else lens + Repeat(if r.c == 16 && lens != [] then lens[|lens| - 1] else 0, r.e + (if r.c == 18 then 11 else 3))
  }

  ghost predicate RunsOk(code: seq<nat>, lens: seq<nat>, runs: seq<LengthRun>)
    requires |code| == 19
    decreases |runs|
  {
    runs == [] || (RunOk(code, lens, runs[0]) && RunsOk(code, Extend(lens, runs[0]), runs[1..]))
  }

  function ExtendAll(lens: seq<nat>, runs: seq<LengthRun>): (longer: seq<nat>)
    ensures |longer| >= |lens| + |runs|
    decreases |runs|
  {
    if runs == [] then lens else ExtendAll(Extend(lens, runs[0]), runs[1..])
  }

  function EncodeRun(code: seq<nat>, r: LengthRun): (bits: seq<bit>)
    requires r.c < |code|
    ensures |bits| == code[r.c] + ExtraBits(r.c)
  {
    EncodeSymbol(code, r.c) + LsbBits(r.e, ExtraBits(r.c))
  }

  ghost function EncodeRuns(code: seq<nat>, lens: seq<nat>, runs: seq<LengthRun>): seq<bit>
    requires |code| == 19 && RunsOk(code, lens, runs)
    decreases |runs|
  {
    if runs == [] then [] else EncodeRun(code, runs[0]) + EncodeRuns(code, Extend(lens, runs[0]), runs[1..])
  }

  /** A code for code lengths. */
  ghost predicate LengthCode(code: seq<nat>) {
    |code| == 19 && Bounded(code, MAX_BITS) && Decodable(code)
  }

  /** One run is read where it is encoded. */
  lemma RunRoundTrip(code: seq<nat>, lens: seq<nat>, r: LengthRun, input: seq<byte>, p: nat, total: nat)
    requires LengthCode(code) && RunOk(code, lens, r) && Carries(input, p, EncodeRun(code, r))
    requires |Extend(lens, r)| <= total
    ensures ReadLengths(code, input, p, lens, total)
         == ReadLengths(code, input, p + |EncodeRun(code, r)|, Extend(lens, r), total)
  {
    hide Carries, Decode, EncodeSymbol, LsbBits, Bits, Kraft, ReadLengths, Bounded, Repeat;
    var n := code[r.c];
    CarriesSplit(input, p, EncodeSymbol(code, r.c), LsbBits(r.e, ExtraBits(r.c)));
    SymbolDecodes(code, input, p, MAX_BITS, r.c);
    LsbCarries(input, p + n, r.e, ExtraBits(r.c));
    LengthsStep(code, input, p, lens, total);
  }

  /** Encoded runs are read as the lengths they stand for. */
  lemma {:induction false} RunsRoundTrip(code: seq<nat>, lens: seq<nat>, runs: seq<LengthRun>, input: seq<byte>, p: nat)
    requires |code| == 19 && LengthCode(code) && RunsOk(code, lens, runs) && Carries(input, p, EncodeRuns(code, lens, runs))
    ensures ReadLengths(code, input, p, lens, |ExtendAll(lens, runs)|)
         == Lengths(ExtendAll(lens, runs), p + |EncodeRuns(code, lens, runs)|)
    decreases |runs|
  {
    hide Carries, EncodeRun, Extend, LengthCode, Pow2, ExtraBits, ReadLengths;
    if runs == [] {
      AllRead(code, lens, input, p);
    } else {
      var longer := Extend(lens, runs[0]);
      CarriesSplit(input, p, EncodeRun(code, runs[0]), EncodeRuns(code, longer, runs[1..]));
      RunRoundTrip(code, lens, runs[0], input, p, |ExtendAll(lens, runs)|);
      RunsRoundTrip(code, longer, runs[1..], input, p + |EncodeRun(code, runs[0])|);
    }
  }

  /** The run that a step of reading the lengths decodes. */
  lemma ReadRun(code: seq<nat>, lens: seq<nat>, input: seq<byte>, p: nat, total: nat) returns (r: LengthRun)
    requires LengthCode(code) && |lens| < total && ReadLengths(code, input, p, lens, total).Lengths?
    ensures RunOk(code, lens, r) && Carries(input, p, EncodeRun(code, r)) && |Extend(lens, r)| <= total
  {
    hide Carries, Decode, EncodeSymbol, LsbBits, Bits, Kraft, ReadLengths, Bounded, Repeat;
    LengthsStep(code, input, p, lens, total);
    MatchedLength(code, input, p);
    var c, n := Decode(code, input, p, MAX_BITS).sym, Decode(code, input, p, MAX_BITS).len;
    r := LengthRun(c, Bits(input, p + n, ExtraBits(c)));
    SymbolDecodes(code, input, p, MAX_BITS, c);
    LsbCarries(input, p + n, r.e, ExtraBits(c));
    CarriesSplit(input, p, EncodeSymbol(code, c), LsbBits(r.e, ExtraBits(c)));
  }

  /** Whatever lengths are read, the bits they were read from are runs that stand for them. */
  lemma {:induction false} RunsSound(code: seq<nat>, lens: seq<nat>, input: seq<byte>, p: nat, total: nat)
      returns (runs: seq<LengthRun>)
    requires |code| == 19 && LengthCode(code) && |lens| <= total && ReadLengths(code, input, p, lens, total).Lengths?
    ensures RunsOk(code, lens, runs) && Carries(input, p, EncodeRuns(code, lens, runs))
    ensures ReadLengths(code, input, p, lens, total)
         == Lengths(ExtendAll(lens, runs), p + |EncodeRuns(code, lens, runs)|)
    decreases total - |lens|
  {
    hide Carries, EncodeRun, Extend, LengthCode, Pow2, ExtraBits, ReadLengths;
    if |lens| == total {
      runs := [];
      AllRead(code, lens, input, p);
      CarriesNothing(input, p);
    } else {
      var r := ReadRun(code, lens, input, p, total);
      RunRoundTrip(code, lens, r, input, p, total);
      var rest := RunsSound(code, Extend(lens, r), input, p + |EncodeRun(code, r)|, total);
      runs := [r] + rest;
      assert runs[1..] == rest;
      CarriesSplit(input, p, EncodeRun(code, r), EncodeRuns(code, Extend(lens, r), rest));
    }
  }

  lemma AllRead(code: seq<nat>, lens: seq<nat>, input: seq<byte>, p: nat)
    requires |code| == 19
    ensures ReadLengths(code, input, p, lens, |lens|) == Lengths(lens, p)
  {}

  lemma CarriesNothing(input: seq<byte>, p: nat)
    ensures Carries(input, p, [])
  {}

  /** Lengths sent as runs fit the tables. */
  lemma {:induction false} RunsBounded(code: seq<nat>, lens: seq<nat>, runs: seq<LengthRun>)
    requires |code| == 19 && RunsOk(code, lens, runs) && Bounded(lens, MAX_BITS)
    ensures Bounded(ExtendAll(lens, runs), MAX_BITS)
    decreases |runs|
  {
    if runs != [] {
      RunsBounded(code, Extend(lens, runs[0]), runs[1..]);
    }
  }

  // The header

  /** The three counts, the code length code's own lengths, and the runs. */
  datatype Header = Header(hlit: nat, hdist: nat, hclen: nat, code: seq<nat>, runs: seq<LengthRun>)

  ghost predicate HeaderOk(h: Header) {
    && 257 <= h.hlit <= 288 && 1 <= h.hdist <= 32 && 4 <= h.hclen <= 19
    && |h.code| == 19 && Decodable(h.code) && (forall s :: 0 <= s < 19 ==> h.code[s] < 8)
    && (forall s :: 0 <= s < 19 && Rank(s) >= h.hclen ==> h.code[s] == 0)
    && RunsOk(h.code, [], h.runs) && |ExtendAll([], h.runs)| == h.hlit + h.hdist
    && Decodable(ExtendAll([], h.runs)[..h.hlit]) && Decodable(ExtendAll([], h.runs)[h.hlit..])
  }

  ghost function LitOf(h: Header): (lens: seq<nat>)
    requires HeaderOk(h)
    ensures |lens| == h.hlit
  {
    ExtendAll([], h.runs)[..h.hlit]
  }

  ghost function DistOf(h: Header): (lens: seq<nat>)
    requires HeaderOk(h)
    ensures |lens| == h.hdist
  {
    ExtendAll([], h.runs)[h.hlit..]
  }

  /** The first n lengths of the code length code, in the order they are sent. */
  function EncodeOrder(code: seq<nat>, n: nat): (bits: seq<bit>)
    requires |code| == 19 && n <= 19
    ensures |bits| == 3 * n
  {
    if n == 0 then [] else EncodeOrder(code, n - 1) + LsbBits(code[Order(n - 1)], 3)
  }

  function EncodeCounts(h: Header): (bits: seq<bit>)
    requires h.hlit >= 257 && h.hdist >= 1 && h.hclen >= 4
    ensures |bits| == 14
  {
    LsbBits(h.hlit - 257, 5) + LsbBits(h.hdist - 1, 5) + LsbBits(h.hclen - 4, 4)
  }

  ghost function EncodeHeader(h: Header): seq<bit>
    requires HeaderOk(h)
  {
    EncodeCounts(h) + EncodeOrder(h.code, h.hclen) + EncodeRuns(h.code, [], h.runs)
  }

  lemma CountsCarry(h: Header, input: seq<byte>, p: nat)
    requires 257 <= h.hlit <= 288 && 1 <= h.hdist <= 32 && 4 <= h.hclen <= 19
    ensures Carries(input, p, EncodeCounts(h)) <==> DynamicCounts(input, p) == (h.hlit, h.hdist, h.hclen)
  {
    hide Carries, Bits, LsbBits;
    Pow2Values();
    var a, b, c := LsbBits(h.hlit - 257, 5), LsbBits(h.hdist - 1, 5), LsbBits(h.hclen - 4, 4);
    CarriesSplit(input, p, a + b, c);
    CarriesSplit(input, p, a, b);
    LsbCarries(input, p, h.hlit - 257, 5);
    LsbCarries(input, p + 5, h.hdist - 1, 5);
    LsbCarries(input, p + 10, h.hclen - 4, 4);
  }

  lemma {:induction false} OrderCarries(code: seq<nat>, input: seq<byte>, p: nat, n: nat)
    requires |code| == 19 && n <= 19 && forall s :: 0 <= s < 19 ==> code[s] < 8
    ensures Carries(input, p, EncodeOrder(code, n))
            <==> forall i :: 0 <= i < n ==> Bits(input, p + 3 * i, 3) == code[Order(i)]
  {
    hide Carries, Bits, LsbBits, Order;
    if n == 0 {
      CarriesNothing(input, p);
    } else {
      Pow2Values();
      OrderCarries(code, input, p, n - 1);
      CarriesSplit(input, p, EncodeOrder(code, n - 1), LsbBits(code[Order(n - 1)], 3));
      LsbCarries(input, p + 3 * (n - 1), code[Order(n - 1)], 3);
    }
  }

  /** The lengths sent in order are those of the code length code. */
  lemma CodeCarries(code: seq<nat>, input: seq<byte>, p: nat, n: nat)
    requires |code| == 19 && n <= 19 && forall s :: 0 <= s < 19 ==> code[s] < 8
    requires forall s :: 0 <= s < 19 && Rank(s) >= n ==> code[s] == 0
    ensures Carries(input, p, EncodeOrder(code, n)) <==> CodeLengthCode(input, p, n) == code
  {
    hide Carries, Bits, Order, Rank, EncodeOrder;
    OrderCarries(code, input, p, n);
    if Carries(input, p, EncodeOrder(code, n)) {
      forall s | 0 <= s < 19
        ensures CodeLengthOf(input, p, n, s) == code[s]
      {
        RankOrder(s);
      }
      assert CodeLengthCode(input, p, n) == code;
    }
    if CodeLengthCode(input, p, n) == code {
      forall i | 0 <= i < n
        ensures Bits(input, p + 3 * i, 3) == code[Order(i)]
      {
        OrderRank(i);
        assert CodeLengthCode(input, p, n)[Order(i)] == CodeLengthOf(input, p, n, Order(i));
      }
    }
  }

  /** The header's three parts, where they are. */
  lemma HeaderParts(h: Header, input: seq<byte>, p: nat)
    requires HeaderOk(h)
    ensures Carries(input, p, EncodeHeader(h))
            <==> DynamicCounts(input, p) == (h.hlit, h.hdist, h.hclen) && CodeLengthCode(input, p + 14, h.hclen) == h.code
                 && Carries(input, p + 14 + 3 * h.hclen, EncodeRuns(h.code, [], h.runs))
    ensures |EncodeHeader(h)| == 14 + 3 * h.hclen + |EncodeRuns(h.code, [], h.runs)|
  {
    hide Carries, EncodeCounts, EncodeOrder, EncodeRuns, RunsOk, ExtendAll, Kraft, DynamicCounts, CodeLengthCode, Rank;
    var a, b, c := EncodeCounts(h), EncodeOrder(h.code, h.hclen), EncodeRuns(h.code, [], h.runs);
    CarriesSplit(input, p, a + b, c);
    CarriesSplit(input, p, a, b);
    CountsCarry(h, input, p);
    CodeCarries(h.code, input, p + 14, h.hclen);
  }

  /** An encoded header is read as the two codes it stands for. */
  lemma HeaderRoundTrip(h: Header, input: seq<byte>, p: nat)
    requires HeaderOk(h) && Carries(input, p, EncodeHeader(h))
    ensures DynamicCodes(input, p) == Codes(LitOf(h), DistOf(h), p + |EncodeHeader(h)|)
  {
    hide Carries, EncodeHeader, EncodeRuns, RunsOk, ExtendAll, Kraft, DynamicCounts, CodeLengthCode, Rank, ReadLengths;
    HeaderParts(h, input, p);
    RunsRoundTrip(h.code, [], h.runs, input, p + 14 + 3 * h.hclen);
  }

  /** Whatever codes a dynamic block gets, the bits they were read from are a header that stands
      for them. */
  lemma HeaderSound(input: seq<byte>, p: nat) returns (h: Header)
    requires DynamicCodes(input, p).Codes?
    ensures HeaderOk(h) && Carries(input, p, EncodeHeader(h))
    ensures DynamicCodes(input, p) == Codes(LitOf(h), DistOf(h), p + |EncodeHeader(h)|)
  {
    hide Carries, EncodeHeader, EncodeRuns, RunsOk, ExtendAll, Kraft, DynamicCounts, CodeLengthCode, Rank,
      ReadLengths, Bits;
    var (hlit, hdist, hclen) := DynamicCounts(input, p);
    var code := CodeLengthCode(input, p + 14, hclen);
    CodeSmall(input, p + 14, hclen);
    var runs := RunsSound(code, [], input, p + 14 + 3 * hclen, hlit + hdist);
    h := Header(hlit, hdist, hclen, code, runs);
    HeaderParts(h, input, p);
  }

  lemma CodeSmall(input: seq<byte>, p: nat, n: nat)
    ensures forall s :: 0 <= s < 19 ==> CodeLengthCode(input, p, n)[s] < 8 && (Rank(s) >= n ==> CodeLengthCode(input, p, n)[s] == 0)
    ensures Bounded(CodeLengthCode(input, p, n), MAX_BITS)
  {
    hide Bits, Rank;
    Pow2Values();
  }

  /** The two codes can be used for a block. */
  lemma HeaderCodes(h: Header)
    requires HeaderOk(h)
    ensures BlockCodes(LitOf(h), DistOf(h))
  {
    hide Kraft, ExtendAll, RunsOk, Rank;
    RunsBounded(h.code, [], h.runs);
  }
}
