/** Which JPEG codes the accelerated decoder reads correctly: all but those with 256 symbols of
    at most nine bits each, and each of those is misread on some data. */
module JpegClash {
  import opened BitOps
  import opened Canonical
  import opened DeflateCoding
  import opened JpegTables
  import opened JpegReader

  // Entropy-coded data for any bytes

  /** Byte stuffing (section F.1.2.3 of T.81): a zero follows every 0xff. */
  function Stuff(data: seq<byte>): seq<byte> {
    if data == [] then [] else (if data[0] == 0xff then [0xff as byte, 0] else [data[0]]) + Stuff(data[1..])
  }

  /** One byte with its stuffing. */
  lemma StuffedByte(input: seq<byte>, p: nat, b: byte)
    requires p < |input| && input[p] == b && (b == 0xff ==> p + 1 < |input| && input[p + 1] == 0)
    ensures Entropy(input, p) == [b] + Entropy(input, p + if b == 0xff then 2 else 1)
  {
    if b == 0xff {
      assert SkipFill(input, p + 1) == p + 1;
    }
  }

  /** The decoder takes the stuffing out again. */
  lemma {:induction false} StuffRoundTrip(before: seq<byte>, data: seq<byte>)
    ensures Entropy(before + Stuff(data), |before|) == data
    decreases |data|
  {
    var input := before + Stuff(data);
    if data == [] {
      assert Stuff(data) == [];
    } else {
      var head: seq<byte> := if data[0] == 0xff then [0xff as byte, 0] else [data[0]];
      assert input == before + head + Stuff(data[1..]);
      StuffRoundTrip(before + head, data[1..]);
      assert data[0] == 0xff ==> input[|before| + 1] == 0;
      StuffedByte(input, |before|, data[0]);
      assert data == [data[0]] + data[1..];
    }
  }

  /** At a marker, fill bytes before it or not, the data ends. */
  lemma {:induction false} StuffEnds(before: seq<byte>, data: seq<byte>, fill: nat, marker: byte, rest: seq<byte>)
    requires 0 < marker < 255
    ensures Entropy(before + Stuff(data) + seq(fill + 1, _ => 0xff as byte) + [marker] + rest, |before|) == data
    decreases |data|
  {
    var ff := seq(fill + 1, _ => 0xff as byte);
    var input := before + Stuff(data) + ff + [marker] + rest;
    if data == [] {
      MarkerEnds(before, fill, marker, rest);
      assert before + [] + ff == before + ff;
    } else {
      hide Entropy;
      var head: seq<byte> := if data[0] == 0xff then [0xff as byte, 0] else [data[0]];
      assert input == before + head + Stuff(data[1..]) + ff + [marker] + rest;
      StuffEnds(before + head, data[1..], fill, marker, rest);
      assert data[0] == 0xff ==> input[|before| + 1] == 0;
      StuffedByte(input, |before|, data[0]);
      assert data == [data[0]] + data[1..];
    }
  }

  lemma MarkerEnds(before: seq<byte>, fill: nat, marker: byte, rest: seq<byte>)
    requires 0 < marker < 255
    ensures Entropy(before + seq(fill + 1, _ => 0xff as byte) + [marker] + rest, |before|) == []
  {
    hide SkipFill;
    FillSkipped(before + seq(fill + 1, _ => 0xff as byte) + [marker] + rest, |before| + 1, fill);
  }

  lemma {:induction false} FillSkipped(input: seq<byte>, p: nat, n: nat)
    requires p + n < |input| && (forall i :: p <= i < p + n ==> input[i] == 0xff) && input[p + n] != 0xff
    ensures SkipFill(input, p) == p + n
    decreases n
  {
    if n > 0 {
      FillSkipped(input, p + 1, n - 1);
    }
  }

  lemma MirrorTwice(data: seq<byte>)
    ensures Mirror(Mirror(data)) == data
  {
    hide RevBits;
    forall t | 0 <= t < |data|
      ensures Mirror(Mirror(data))[t] == data[t]
    {
      MirrorBack(data[t]);
    }
  }

  lemma MirrorBack(b: byte)
    ensures MirrorByte(MirrorByte(b)) == b
  {
    hide RevBits;
    Pow2Values();
    RevBitsInvolution(b, 8);
    LowShort(b, 8);
  }

  /** Some input decodes to symbol i. */
  lemma SomeInput(lens: seq<nat>, i: nat) returns (input: seq<byte>)
    requires Decodable(lens) && i < |lens| && lens[i] > 0
    ensures Decode(lens, Mirror(Entropy(input, 0)), 0, MAX) == Symbol(i, lens[i])
  {
    var bits := EncodeSymbol(lens, i);
    var data := Mirror(Pack(bits));
    input := [] + Stuff(data);
    StuffRoundTrip([], data);
    MirrorTwice(Pack(bits));
    PackCarries(bits);
    SymbolDecodes(lens, Pack(bits), 0, MAX, i);
  }

  /** The accelerable codes are exactly the ones no data makes the decoder misread. */
  lemma AccelerableExactly(lens: seq<nat>)
    requires Sorted(lens) && Decodable(lens) && |lens| <= MAX_SYMBOLS
    ensures Accelerable(lens)
            <==> forall input, p: nat :: !Clashes(lens, Decode(lens, Mirror(Entropy(input, 0)), p, MAX))
  {
    hide Decode, Mirror, Entropy, Kraft;
    if Accelerable(lens) {
      forall input, p: nat
        ensures !Clashes(lens, Decode(lens, Mirror(Entropy(input, 0)), p, MAX))
      {
        DecodeIsMatch(lens, Mirror(Entropy(input, 0)), p, MAX);
      }
    } else {
      ClashLengths(lens);
      var input := SomeInput(lens, 255);
      assert Clashes(lens, Decode(lens, Mirror(Entropy(input, 0)), 0, MAX));
    }
  }

  // A table that clashes

  /** One code word of eight bits and 255 of nine. */
  function ClashCounts(): (count: seq<nat>)
    ensures |count| == 16
  {
    [0, 0, 0, 0, 0, 0, 0, 1, 255, 0, 0, 0, 0, 0, 0, 0]
  }

  lemma {:induction false} NoMoreSizes(count: seq<nat>, m: nat, n: nat)
    requires m <= n <= |count| && forall l :: m <= l < n ==> count[l] == 0
    ensures SizeList(count, n) == SizeList(count, m)
  {
    if m < n {
      NoMoreSizes(count, m, n - 1);
    }
  }

  /** The table is built without complaint, although the decoder misreads its last symbol. */
  lemma ClashingTable()
    ensures var lens := SizeList(ClashCounts(), 16);
            |lens| == MAX_SYMBOLS && Sorted(lens) && Decodable(lens) && !Accelerable(lens)
  {
    hide Kraft, SizeList;
    var count := ClashCounts();
    NoMoreSizes(count, 0, 7);
    NoMoreSizes(count, 9, 16);
    SizeListSorted(count, 16);
    ClashSizes();
    KraftBetween(SizeList(count, 16), 8, 9);
    Pow2Values();
  }

  lemma ClashSizes()
    ensures SizeList(ClashCounts(), 0) == []
    ensures SizeList(ClashCounts(), 9) == SizeList(ClashCounts(), 7) + [8] + seq(255, _ => 9)
  {
    var count := ClashCounts();
    assert SizeList(count, 9) == SizeList(count, 8) + seq(255, _ => 9);
    assert SizeList(count, 8) == SizeList(count, 7) + [8];
  }

  /** 200 code words of fifteen bits and 100 of sixteen. */
  function OverrunCounts(): (count: seq<nat>)
    ensures |count| == 16
  {
    [0, 0, 0, 0, 0, 0, 0, 0, 0, 0, 0, 0, 0, 0, 200, 100]
  }

  /** A code that satisfies the Kraft inequality can have more symbols than the table's array. */
  lemma OverrunTable()
    ensures var lens := SizeList(OverrunCounts(), 16);
            |lens| == 300 > MAX_SYMBOLS && Sorted(lens) && Decodable(lens)
  {
    hide Kraft, SizeList;
    var count := OverrunCounts();
    NoMoreSizes(count, 0, 14);
    SizeListSorted(count, 16);
    OverrunSizes();
    KraftBetween(SizeList(count, 16), 15, 16);
    Pow2Values();
  }

  lemma OverrunSizes()
    ensures SizeList(OverrunCounts(), 0) == []
    ensures SizeList(OverrunCounts(), 16) == SizeList(OverrunCounts(), 14) + seq(200, _ => 15) + seq(100, _ => 16)
  {
    var count := OverrunCounts();
    assert SizeList(count, 16) == SizeList(count, 15) + seq(100, _ => 16);
    assert SizeList(count, 15) == SizeList(count, 14) + seq(200, _ => 15);
  }
}
