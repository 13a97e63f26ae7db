/** JPEG Huffman tables (Annex C of ITU-T T.81) with the 9-bit table of short codes and the
    table that decodes a short code and the small coefficient after it in one look-up. */
module JpegTables {
  import opened BitOps
  import opened Canonical

  const FAST_BITS: nat := 9
  const FAST_SIZE: nat := 512
  const NOT_FAST: byte := 255
  const MAX_SYMBOLS: nat := 256

  /** The code lengths of all symbols in order: count[l - 1] of them have length l. */
  function SizeList(count: seq<nat>, n: nat): seq<nat>
    requires n <= |count|
  {
    if n == 0 then [] else SizeList(count, n - 1) + seq(count[n - 1], _ => n)
  }

  ghost predicate Sorted(lens: seq<nat>) {
    && (forall i :: 0 <= i < |lens| ==> lens[i] > 0)
    && (forall i, j :: 0 <= i <= j < |lens| ==> lens[i] <= lens[j])
  }

  lemma {:induction false} SizeListSorted(count: seq<nat>, n: nat)
    requires n <= |count|
    ensures Sorted(SizeList(count, n)) && Bounded(SizeList(count, n), n)
  {
    if n > 0 {
      SizeListSorted(count, n - 1);
    }
  }

  /** There are as many of each length as the counts say. */
  lemma {:induction false} SizesCounted(count: seq<nat>, n: nat, l: nat)
    requires n <= |count|
    ensures Count(SizeList(count, n), l) == if 1 <= l <= n then count[l - 1] else 0
  {
    if n > 0 {
      var c := count[n - 1];
      SizesCounted(count, n - 1, l);
      MoreCounted(SizeList(count, n - 1), n, c, l);
    }
  }

  lemma {:induction false} MoreCounted(lens: seq<nat>, x: nat, n: nat, l: nat)
    ensures Count(lens + seq(n, _ => x), l) == Count(lens, l) + if x == l then n else 0
    decreases n
  {
    if n == 0 {
      assert lens + seq(0, _ => x) == lens;
    } else {
      var longer := lens + seq(n, _ => x);
      MoreCounted(lens, x, n - 1, l);
      assert longer[..|longer| - 1] == lens + seq(n - 1, _ => x);
    }
  }

  /** Symbols sorted by length are their own slots. */
  lemma SlotIsIndex(lens: seq<nat>, i: nat)
    requires Sorted(lens) && i < |lens|
    ensures Slot(lens, i) == i
  {
    AllShorter(lens[..i], lens[i] + 1);
    LaterNotShorter(lens, i, lens[i]);
    assert Shorter(lens[..i], lens[i] + 1) == Shorter(lens[..i], lens[i]) + Count(lens[..i], lens[i]);
  }

  lemma {:induction false} AllShorter(lens: seq<nat>, l: nat)
    requires forall i :: 0 <= i < |lens| ==> 1 <= lens[i] < l
    ensures Shorter(lens, l) == |lens|
  {
    if lens == [] {
      ShorterOfNone(l);
    } else {
      var init := lens[..|lens| - 1];
      assert lens == init + [lens[|lens| - 1]];
      AllShorter(init, l);
      ShorterSnoc(init, lens[|lens| - 1], l);
    }
  }

  lemma {:induction false} LaterNotShorter(lens: seq<nat>, i: nat, l: nat)
    requires i <= |lens| && forall j :: i <= j < |lens| ==> lens[j] >= l
    ensures Shorter(lens, l) == Shorter(lens[..i], l)
    decreases |lens|
  {
    if i == |lens| {
      assert lens[..i] == lens;
    } else {
      var init := lens[..|lens| - 1];
      assert lens == init + [lens[|lens| - 1]] && init[..i] == lens[..i];
      LaterNotShorter(init, i, l);
      ShorterSnoc(init, lens[|lens| - 1], l);
    }
  }

  /** Symbol i has a short code and the 9-bit window w, first bit most significant, begins with it. */
  predicate ShortMatch(lens: seq<nat>, i: nat, w: nat) {
    i < |lens| && 0 < lens[i] <= FAST_BITS && Shr(w, FAST_BITS - lens[i]) == Code(lens, i)
  }

  ghost predicate FastCorrectAt(lens: seq<nat>, n: nat, fast: seq<byte>, w: nat)
    requires |fast| == FAST_SIZE && n <= |lens| && w < FAST_SIZE
  {
    && (forall i: nat :: i < n && ShortMatch(lens, i, w) ==> fast[w] == i)
    && ((forall i: nat :: i < n ==> !ShortMatch(lens, i, w)) ==> fast[w] == NOT_FAST)
  }

  ghost predicate FastCorrect(lens: seq<nat>, n: nat, fast: seq<byte>)
    requires |fast| == FAST_SIZE && n <= |lens|
  {
    forall w: nat :: w < FAST_SIZE ==> FastCorrectAt(lens, n, fast, w)
  }

  lemma ShortMatchWindow(lens: seq<nat>, i: nat, k: nat)
    requires Bounded(lens, MAX)
    ensures ShortMatch(lens, i, Shr(k, MAX - FAST_BITS)) <==> Matches(lens, i, k) && lens[i] <= FAST_BITS
  {
    if i < |lens| && 0 < lens[i] <= FAST_BITS {
      ShrShr(k, MAX - FAST_BITS, FAST_BITS - lens[i]);
    }
  }

  lemma OneShortMatch(lens: seq<nat>, i: nat, j: nat, w: nat)
    requires Bounded(lens, MAX) && ShortMatch(lens, i, w) && ShortMatch(lens, j, w)
    ensures i == j
  {
    var k := w * Pow2(MAX - FAST_BITS) + 0;
    SplitUnique(w, 0, MAX - FAST_BITS);
    ShortMatchWindow(lens, i, k);
    ShortMatchWindow(lens, j, k);
    AtMostOneMatch(lens, i, j, k);
  }

  /** The windows a short code word begins are the 2^(9 - s) from the code word shifted up. */
  lemma ShortMatchRange(lens: seq<nat>, i: nat, w: nat)
    requires i < |lens| && 0 < lens[i] <= FAST_BITS
    ensures var m := Pow2(FAST_BITS - lens[i]);
            ShortMatch(lens, i, w) <==> Code(lens, i) * m <= w < Code(lens, i) * m + m
  {
    var c, n := Code(lens, i), FAST_BITS - lens[i];
    var h, m := Shr(w, n), Pow2(n);
    ShrLow(w, n);
    if h < c {
      MulMono(h + 1, c, m);
      Distribute(h, 1, m);
    } else if h > c {
      MulMono(c + 1, h, m);
      Distribute(c, 1, m);
    }
  }

  /** Code lengths for which the marker 255 is not also the number of an accelerated symbol. */
  predicate Accelerable(lens: seq<nat>) {
    |lens| <= 255 || lens[255] > FAST_BITS
  }

  /** The Kraft sum lies between those of all symbols having the longest and the shortest length. */
  lemma {:induction false} KraftBetween(lens: seq<nat>, lo: nat, hi: nat)
    requires 1 <= lo <= hi <= MAX && forall i :: 0 <= i < |lens| ==> lo <= lens[i] <= hi
    ensures Bounded(lens, MAX) && |lens| * Pow2(MAX - hi) <= Kraft(lens) <= |lens| * Pow2(MAX - lo)
  {
    hide Pow2;
    if lens != [] {
      var n := |lens| - 1;
      KraftBetween(lens[..n], lo, hi);
      Pow2Monotone(MAX - hi, MAX - lens[n]);
      Pow2Monotone(MAX - lens[n], MAX - lo);
      Distribute(n, 1, Pow2(MAX - hi));
      Distribute(n, 1, Pow2(MAX - lo));
    }
  }

  /** A sorted code is not accelerable only when its 256 symbols have at most nine bits each,
      and then the longest has eight or nine. */
  lemma ClashLengths(lens: seq<nat>)
    requires Sorted(lens) && Decodable(lens) && |lens| <= MAX_SYMBOLS && !Accelerable(lens)
    ensures |lens| == 256 && 8 <= lens[255] <= FAST_BITS
  {
    hide Kraft, Pow2;
    var m := lens[255];
    KraftBetween(lens, 1, m);
    Pow2Values();
    Pow2Monotone(if m < 8 then 9 else MAX - m, MAX - m);
  }

  class JHuffman {
    const fast: array<byte>
    const code: array<uint16>
    const values: array<byte>
    const size: array<byte>
    const maxcode: array<uint32>
    const delta: array<int>

    ghost function Repr(): set<object> {
      {fast as object, code, size, maxcode, delta}
    }

    ghost predicate Valid() {
      && fast.Length == FAST_SIZE && code.Length == MAX_SYMBOLS && values.Length == MAX_SYMBOLS
      && size.Length == 257 && maxcode.Length == 18 && delta.Length == 17
      && fast != values && fast != size && values != size
      && code as object !in {fast as object, values, size, maxcode, delta}
      && maxcode as object !in {fast as object, values, size, delta}
      && delta as object !in {fast as object, values, size}
    }

    /** The tables decode the code with lengths lens. */
    ghost predicate Represents(lens: seq<nat>)
      requires Valid()
      reads Repr()
    {
      && |lens| <= MAX_SYMBOLS && Bounded(lens, MAX) && Sorted(lens) && Decodable(lens)
      && SizesCorrect(lens, size[..]) && CodesCorrect(lens, |lens|, code[..])
      && BoundsCorrect(lens, MAX, maxcode[..], delta[..]) && maxcode[17] == 0xffff_ffff
      && FastCorrect(lens, |lens|, fast[..])
    }

    constructor ()
      ensures Valid() && fresh(Repr()) && fresh(values)
    {
      fast := new byte[FAST_SIZE];
      code := new uint16[MAX_SYMBOLS];
      values := new byte[MAX_SYMBOLS];
      size := new byte[257];
      maxcode := new uint32[18];
      delta := new int[17];
    }

    /** Builds the tables; succeeds exactly when the lengths satisfy the Kraft inequality. The sizes
        only fit their array when there are at most 256, which the source does not look at: fits
        says whether its writes stay within. */
    method Build(count: seq<nat>) returns (ok: bool, fits: bool)
      requires Valid() && |count| == 16
      modifies Repr()
      ensures fits <==> |SizeList(count, 16)| <= MAX_SYMBOLS
      ensures fits ==> (ok <==> Decodable(SizeList(count, 16)))
      ensures ok ==> fits && Represents(SizeList(count, 16))
    {
      ghost var lens := SizeList(count, 16);
      SizeListSorted(count, 16);
      var k;
      k, fits := FillSizes(count);
      ok := false;
      if fits {
        ok := AssignCodes(lens);
        if ok {
          FillFast(lens, k);
        }
      }
    }

    method FillSizes(count: seq<nat>) returns (k: nat, fits: bool)
      requires Valid() && |count| == 16
      modifies size
      ensures fits <==> |SizeList(count, 16)| <= MAX_SYMBOLS
      ensures fits ==> k == |SizeList(count, 16)| && SizesCorrect(SizeList(count, 16), size[..])
    {
      SizeListSorted(count, 16);
      k := 0;
      for i := 0 to 16
        invariant k == |SizeList(count, i)| <= size.Length
        invariant size[..k] == SizeList(count, i)
      {
        SizeListGrows(count, i + 1, 16);
        for j := 0 to count[i]
          invariant k == |SizeList(count, i)| + j <= size.Length
          invariant size[..k] == SizeList(count, i) + seq(j, _ => i + 1)
        {
          if k == size.Length {
            return k, false;
          }
          size[k] := i + 1;
          assert size[..k + 1] == size[..k] + [i + 1];
          k := k + 1;
        }
      }
      if k == size.Length {
        return k, false;
      }
      size[k] := 0;
      assert size[..k] == SizeList(count, 16);
      fits := true;
    }

    /** Walks the lengths, giving each symbol of length j the next code. */
    method AssignCodes(ghost lens: seq<nat>) returns (ok: bool)
      requires Valid() && |lens| <= MAX_SYMBOLS && Bounded(lens, MAX) && Sorted(lens)
      requires SizesCorrect(lens, size[..])
      modifies code, maxcode, delta
      ensures ok <==> Decodable(lens)
      ensures ok ==> CodesCorrect(lens, |lens|, code[..])
      ensures ok ==> BoundsCorrect(lens, MAX, maxcode[..], delta[..]) && maxcode[17] == 0xffff_ffff
    {
      hide Count, First, Shorter, Shl, Pow2, Kraft, SizesCorrect, CodesCorrect, BoundsCorrect;
      var c, k, j := 0, 0, 1;
      AtFirst(lens);
      NothingYet(lens, code[..], maxcode[..], delta[..]);
      while j <= 16
        invariant 1 <= j <= 17
        invariant c == First(lens, j) && k == Shorter(lens, j) <= |lens| && Hi(lens, j - 1) <= Pow2(MAX)
        invariant CodesCorrect(lens, k, code[..])
        invariant BoundsCorrect(lens, j - 1, maxcode[..], delta[..])
        invariant SizesCorrect(lens, size[..])
      {
        ghost var mc, dl := maxcode[..], delta[..];
        delta[j] := k - c;
        var k0 := k;
        c, k := AssignLength(lens, j, c, k);
        AfterLength(lens, j);
        if k > k0 && c - 1 >= Shl(1, j) {
          return false;
        }
        maxcode[j] := Shl(c, 16 - j);
        BoundsSnoc(lens, j, mc, dl, maxcode[..], delta[..]);
        c := Shl(c, 1);
        j := j + 1;
      }
      ghost var mc := maxcode[..];
      maxcode[17] := 0xffff_ffff;
      BoundsSentinel(lens, mc, maxcode[..], delta[..]);
      HiIsKraft(lens);
      AllShorter(lens, 17);
      ok := true;
    }

    /** Gives the symbols of length j consecutive codes from c. */
    method AssignLength(ghost lens: seq<nat>, j: nat, c0: nat, k0: nat) returns (c: nat, k: nat)
      requires Valid() && |lens| <= MAX_SYMBOLS && Bounded(lens, MAX) && Sorted(lens)
      requires 1 <= j <= 16 && c0 == First(lens, j) && k0 == Shorter(lens, j) <= |lens|
      requires SizesCorrect(lens, size[..]) && CodesCorrect(lens, k0, code[..])
      modifies code
      ensures c == End(lens, j) && k == Shorter(lens, j + 1) <= |lens|
      ensures CodesCorrect(lens, k, code[..])
    {
      hide Count, First;
      c, k := c0, k0;
      ShorterBound(lens, j + 1);
      ShorterMonotone(lens, j, j + 1);
      LengthAt(lens, k, j);
      while size[k] == j
        invariant k0 <= k <= Shorter(lens, j + 1) && c - c0 == k - k0
        invariant size[k] == j <==> k < Shorter(lens, j + 1)
        invariant CodesCorrect(lens, k, code[..])
        invariant SizesCorrect(lens, size[..])
        decreases Shorter(lens, j + 1) - k
      {
        LengthAt(lens, k, j);
        SlotIsIndex(lens, k);
        code[k] := c % 65536;
        LengthAt(lens, k + 1, j);
        c, k := c + 1, k + 1;
      }
    }

    /** Enters every symbol with a short code for each 9-bit window its code word begins. */
    method FillFast(ghost lens: seq<nat>, k: nat)
      requires Valid() && k == |lens| <= MAX_SYMBOLS && Bounded(lens, MAX) && Sorted(lens) && Decodable(lens)
      requires SizesCorrect(lens, size[..]) && CodesCorrect(lens, k, code[..])
      modifies fast
      ensures FastCorrect(lens, k, fast[..])
    {
      hide Code, Kraft, Shl, ShortMatch;
      for w := 0 to FAST_SIZE
        invariant forall t :: 0 <= t < w ==> fast[t] == NOT_FAST
      {
        fast[w] := NOT_FAST;
      }
      for i := 0 to k
        invariant FastCorrect(lens, i, fast[..])
      {
        var s := size[i];
        assert s == lens[i] && code[i] == Code(lens, i) % 65536;
        if s <= FAST_BITS {
          CodeSmall(lens, i);
          FillSymbol(lens, i, Shl(code[i], FAST_BITS - s), Shl(1, FAST_BITS - s));
        } else {
          FastSkip(lens, i, fast[..]);
        }
      }
    }

    method FillSymbol(ghost lens: seq<nat>, i: byte, c: nat, m: nat)
      requires Valid() && i < |lens| && 0 < lens[i] <= FAST_BITS && Bounded(lens, MAX)
      requires m == Pow2(FAST_BITS - lens[i]) && c == Code(lens, i) * m && c + m <= FAST_SIZE
      requires FastCorrect(lens, i, fast[..])
      modifies fast
      ensures FastCorrect(lens, i as nat + 1, fast[..])
    {
      ghost var before := fast[..];
      for j := 0 to m
        invariant forall t :: 0 <= t < FAST_SIZE ==> fast[t] == if c <= t < c + j then i else before[t]
      {
        fast[c + j] := i;
      }
      ghost var after, n := fast[..], i as nat + 1;
      forall w: nat | w < FAST_SIZE
        ensures FastCorrectAt(lens, n, after, w)
      {
        assert FastCorrectAt(lens, i, before, w);
        FastSnocAt(lens, i, before, after, w);
      }
    }
  }

  lemma AtFirst(lens: seq<nat>)
    ensures First(lens, 1) == 0 && Shorter(lens, 1) == 0 && Hi(lens, 0) == 0
  {}

  /** In a sorted list the symbols of length l stand between the shorter and the longer ones. */
  lemma LengthAt(lens: seq<nat>, k: nat, l: nat)
    requires Sorted(lens) && Bounded(lens, MAX) && k <= |lens| && 1 <= l
    requires Shorter(lens, l) <= k <= Shorter(lens, l + 1) <= |lens|
    ensures k < |lens| ==> (lens[k] == l <==> k < Shorter(lens, l + 1))
  {
    if k < |lens| {
      var m := lens[k];
      SlotIsIndex(lens, k);
      SlotBound(lens, k);
      if m < l {
        ShorterMonotone(lens, m + 1, l);
      } else if m > l {
        ShorterMonotone(lens, l + 1, m);
      }
    }
  }

  /** The overflow test after length l fails only on codes that break the Kraft inequality. */
  lemma AfterLength(lens: seq<nat>, l: nat)
    requires Bounded(lens, MAX) && 1 <= l <= MAX && Hi(lens, l - 1) <= Pow2(MAX)
    ensures var c, n := End(lens, l), Count(lens, l);
            && Shorter(lens, l + 1) == Shorter(lens, l) + n
            && (n > 0 && c - 1 >= Shl(1, l) ==> !Decodable(lens))
            && (!(n > 0 && c - 1 >= Shl(1, l)) ==> Hi(lens, l) <= Pow2(MAX) == 65536)
            && Shl(c, 16 - l) == Hi(lens, l) && Shl(c, 1) == First(lens, l + 1)
  {
    hide Shl, Count;
    Pow2Values();
    var c := End(lens, l);
    ShlMul(1, l);
    ShlMul(c, 16 - l);
    ShlMul(c, 1);
    EndWithin(lens, l);
    HiStep(lens, l);
    if Hi(lens, l) > Pow2(MAX) {
      HiIsKraft(lens);
      HiMonotone(lens, l, MAX);
    }
  }

  lemma BoundsSnoc(lens: seq<nat>, l: nat, mc: seq<uint32>, dl: seq<int>, mc': seq<uint32>, dl': seq<int>)
    requires 1 <= l <= MAX && |mc| == |mc'| == 18 && |dl| == |dl'| == 17
    requires BoundsCorrect(lens, l - 1, mc, dl) && Hi(lens, l) < 0x1_0000_0000
    requires mc' == mc[l := Hi(lens, l)] && dl' == dl[l := Shorter(lens, l) - First(lens, l)]
    ensures BoundsCorrect(lens, l, mc', dl')
  {}

  lemma NothingYet(lens: seq<nat>, code: seq<uint16>, mc: seq<uint32>, dl: seq<int>)
    requires |code| == MAX_SYMBOLS && |lens| <= MAX_SYMBOLS && |mc| == 18 && |dl| == 17
    ensures CodesCorrect(lens, 0, code) && BoundsCorrect(lens, 0, mc, dl)
  {}

  lemma BoundsSentinel(lens: seq<nat>, mc: seq<uint32>, mc': seq<uint32>, dl: seq<int>)
    requires |mc| == |mc'| == 18 && |dl| == 17 && BoundsCorrect(lens, MAX, mc, dl) && mc' == mc[17 := 0xffff_ffff]
    ensures BoundsCorrect(lens, MAX, mc', dl)
  {}

  lemma {:induction false} SizeListGrows(count: seq<nat>, m: nat, n: nat)
    requires m <= n <= |count|
    ensures |SizeList(count, m)| <= |SizeList(count, n)|
  {
    if m < n {
      SizeListGrows(count, m, n - 1);
    }
  }

  /** A short code word shifted up to nine bits leaves room for the windows it begins. */
  lemma CodeSmall(lens: seq<nat>, i: nat)
    requires Decodable(lens) && i < |lens| && 0 < lens[i] <= FAST_BITS
    ensures var m := Pow2(FAST_BITS - lens[i]);
            && Code(lens, i) < 512 && Shl(1, FAST_BITS - lens[i]) == m
            && Shl(Code(lens, i), FAST_BITS - lens[i]) == Code(lens, i) * m && Code(lens, i) * m + m <= FAST_SIZE
  {
    hide Code;
    var s, c := lens[i], Code(lens, i);
    var m := Pow2(FAST_BITS - s);
    CodeFits(lens, i);
    ShlMul(1, FAST_BITS - s);
    ShlMul(c, FAST_BITS - s);
    Pow2Add(s, FAST_BITS - s);
    Pow2Monotone(s, FAST_BITS);
    Pow2Values();
    MulMono(c + 1, Pow2(s), m);
    Distribute(c, 1, m);
  }

  lemma FastSkip(lens: seq<nat>, i: nat, fast: seq<byte>)
    requires i < |lens| && |fast| == FAST_SIZE && FastCorrect(lens, i, fast) && lens[i] > FAST_BITS
    ensures FastCorrect(lens, i + 1, fast)
  {
    var n := i + 1;
    forall w: nat | w < FAST_SIZE
      ensures FastCorrectAt(lens, n, fast, w)
    {
      assert FastCorrectAt(lens, i, fast, w);
    }
  }

  lemma FastSnocAt(lens: seq<nat>, i: byte, fast: seq<byte>, fast': seq<byte>, w: nat)
    requires Bounded(lens, MAX) && i < |lens| && 0 < lens[i] <= FAST_BITS
    requires |fast| == FAST_SIZE == |fast'| && w < FAST_SIZE && FastCorrectAt(lens, i, fast, w)
    requires var m := Pow2(FAST_BITS - lens[i]);
             fast'[w] == if Code(lens, i) * m <= w < Code(lens, i) * m + m then i else fast[w]
    ensures FastCorrectAt(lens, i as nat + 1, fast', w)
  {
    hide Code;
    ShortMatchRange(lens, i, w);
    if ShortMatch(lens, i, w) {
      forall j: nat | j < i as nat + 1 && ShortMatch(lens, j, w)
        ensures j == i
      {
        OneShortMatch(lens, i, j, w);
      }
    }
  }

  ghost predicate SizesCorrect(lens: seq<nat>, size: seq<byte>)
    requires |size| == 257 && |lens| <= MAX_SYMBOLS
  {
    (forall i :: 0 <= i < |lens| ==> size[i] == lens[i]) && size[|lens|] == 0
  }

  ghost predicate CodesCorrect(lens: seq<nat>, n: nat, code: seq<uint16>)
    requires |code| == MAX_SYMBOLS && n <= |lens| <= MAX_SYMBOLS
  {
    forall i :: 0 <= i < n ==> code[i] == Code(lens, i) % 65536
  }

  ghost predicate BoundsCorrect(lens: seq<nat>, n: nat, maxcode: seq<uint32>, delta: seq<int>)
    requires n <= MAX && |maxcode| == 18 && |delta| == 17
  {
    forall l :: 1 <= l <= n ==> maxcode[l] == Hi(lens, l) && delta[l] == Shorter(lens, l) - First(lens, l)
  }
}
