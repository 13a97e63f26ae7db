/** The decoding tables for one DEFLATE code: a 9-bit table of short codes and, per length,
    the bounds the slow path compares against. */
module ZTables {
  import opened BitOps
  import opened BitReverse
  import opened Canonical
  import opened Deflate

  const FAST_BITS: nat := 9
  const FAST_SIZE: nat := 512
  const MAX_SYMBOLS: nat := 288

  /** Symbol i has a short code and the window j, first bit least significant, begins with it. */
  predicate ShortMatch(lens: seq<nat>, i: nat, j: nat) {
    i < |lens| && 0 < lens[i] <= FAST_BITS && Code(lens, i) == RevBits(j, lens[i])
  }

  function FastEntry(lens: seq<nat>, i: nat): nat
    requires i < |lens|
  {
    512 * lens[i] + i
  }

  /** The fast table answers for the short codes among the first n symbols and no others. */
  ghost predicate FastCorrect(lens: seq<nat>, n: nat, fast: seq<uint16>)
    requires |fast| == FAST_SIZE && n <= |lens|
  {
    forall j: nat :: j < FAST_SIZE ==> FastCorrectAt(lens, n, fast, j)
  }

  ghost predicate FastCorrectAt(lens: seq<nat>, n: nat, fast: seq<uint16>, j: nat)
    requires |fast| == FAST_SIZE && n <= |lens| && j < FAST_SIZE
  {
    && (forall i: nat :: i < n && ShortMatch(lens, i, j) ==> fast[j] == FastEntry(lens, i))
    && ((forall i: nat :: i < n ==> !ShortMatch(lens, i, j)) ==> fast[j] == 0)
  }

  /** A short code word begins the window j exactly when it begins j's 16-bit window. */
  lemma ShortMatchWindow(lens: seq<nat>, i: nat, j: nat)
    requires Bounded(lens, MAX)
    ensures ShortMatch(lens, i, j) <==> Matches(lens, i, RevBits(j, MAX)) && lens[i] <= FAST_BITS
  {
    if i < |lens| && 0 < lens[i] <= FAST_BITS {
      RevBitsShift(j, lens[i], MAX - lens[i]);
    }
  }

  lemma OneShortMatch(lens: seq<nat>, i: nat, i': nat, j: nat)
    requires Bounded(lens, MAX) && ShortMatch(lens, i, j) && ShortMatch(lens, i', j)
    ensures i == i'
  {
    ShortMatchWindow(lens, i, j);
    ShortMatchWindow(lens, i', j);
    AtMostOneMatch(lens, i, i', RevBits(j, MAX));
  }

  /** The windows a short code word begins are those with its reversal as their low bits. */
  lemma ShortMatchLow(lens: seq<nat>, i: nat, j: nat)
    requires Decodable(lens) && i < |lens| && 0 < lens[i] <= FAST_BITS
    ensures ShortMatch(lens, i, j) <==> Low(j, lens[i]) == RevBits(Code(lens, i), lens[i])
  {
    var s, c := lens[i], Code(lens, i);
    CodeFits(lens, i);
    RevBitsInvolution(c, s);
    RevBitsInvolution(Low(j, s), s);
    RevBitsLow(j, s, s);
  }

  /** Numbers with the same low s bits are at least 2^s apart. */
  lemma LowGap(t: nat, j: nat, s: nat)
    requires Low(t, s) == Low(j, s) && t < j
    ensures t + Pow2(s) <= j
  {
    ShrLow(t, s);
    ShrLow(j, s);
    if Shr(j, s) <= Shr(t, s) {
      MulMono(Shr(j, s), Shr(t, s), Pow2(s));
    } else {
      MulMono(Shr(t, s) + 1, Shr(j, s), Pow2(s));
      Distribute(Shr(t, s), 1, Pow2(s));
    }
  }

  lemma LowNext(j: nat, s: nat)
    ensures Low(j + Pow2(s), s) == Low(j, s)
  {
    ShrLow(j, s);
    Distribute(Shr(j, s), 1, Pow2(s));
    SplitUnique(Shr(j, s) + 1, Low(j, s), s);
  }

  /** The packed entry takes 13 bits and unpacks to its length and symbol. */
  lemma FastEntryPacks(s: nat, i: nat)
    requires s <= MAX_BITS && i < 512
    ensures Or(i, Shl(s, 9)) == 512 * s + i < 65536
    ensures Shr(512 * s + i, 9) == s && And(512 * s + i, 511) == i
  {
    Pow2Values();
    OrShifted(i, s, 9);
    SplitUnique(s, i, 9);
    AndMask(512 * s + i, 9);
  }

  lemma KraftAt15(lens: seq<nat>)
    requires Bounded(lens, MAX_BITS)
    ensures Bounded(lens, MAX) && Kraft(lens) == Hi(lens, MAX_BITS)
  {
    HiIsKraft(lens);
    HiStep(lens, MAX);
    NoneOfLength(lens, MAX);
  }

  lemma AllFit(lens: seq<nat>)
    requires Bounded(lens, MAX_BITS) && Hi(lens, MAX_BITS) <= Pow2(MAX)
    ensures Decodable(lens)
  {
    KraftAt15(lens);
  }

  /** A length beyond its bound breaks the Kraft inequality. */
  lemma TooMany(lens: seq<nat>, l: nat)
    requires Bounded(lens, MAX_BITS) && 1 <= l <= MAX_BITS && Hi(lens, l) > Pow2(MAX)
    ensures !Decodable(lens)
  {
    KraftAt15(lens);
    HiMonotone(lens, l, MAX_BITS);
  }

  /** firstcode, maxcode and firstsymbol up to length n. */
  ghost predicate BoundsCorrect(lens: seq<nat>, n: nat, firstcode: seq<uint16>, maxcode: seq<nat>, firstsymbol: seq<uint16>)
    requires n <= MAX_BITS && |firstcode| == 16 && |maxcode| == 17 && |firstsymbol| == 16
  {
    forall l :: 1 <= l <= n ==>
      firstcode[l] == First(lens, l) && maxcode[l] == Hi(lens, l) && firstsymbol[l] == Shorter(lens, l)
  }

  /** The first n symbols lie in their slots. */
  ghost predicate SlotsCorrect(lens: seq<nat>, n: nat, size: seq<byte>, value: seq<uint16>)
    requires n <= |lens| <= MAX_SYMBOLS && |size| == MAX_SYMBOLS && |value| == MAX_SYMBOLS
  {
    forall i :: 0 <= i < n && lens[i] > 0 ==>
      Slot(lens, i) < MAX_SYMBOLS && size[Slot(lens, i)] == lens[i] && value[Slot(lens, i)] == i
  }

  lemma BoundsStart(lens: seq<nat>, firstcode: seq<uint16>, maxcode: seq<nat>, firstsymbol: seq<uint16>)
    requires |firstcode| == 16 && |maxcode| == 17 && |firstsymbol| == 16
    ensures First(lens, 1) == 0 && Shorter(lens, 1) == 0 && Hi(lens, 0) <= Pow2(MAX)
    ensures BoundsCorrect(lens, 0, firstcode, maxcode, firstsymbol)
  {}

  lemma ShorterNext(lens: seq<nat>, l: nat)
    requires l >= 1
    ensures Shorter(lens, l + 1) == Shorter(lens, l) + Count(lens, l) && End(lens, l) == First(lens, l) + Count(lens, l)
  {}

  lemma NextStart(lens: seq<nat>, next: seq<nat>)
    requires |next| == 16 && forall l :: 1 <= l < 16 ==> next[l] == First(lens, l)
    ensures NextCorrect(lens, 0, next)
  {}

  lemma FirstFits(lens: seq<nat>, l: nat)
    requires 1 <= l <= MAX_BITS && Hi(lens, l - 1) <= Pow2(MAX)
    ensures First(lens, l) <= Pow2(l) <= 32768
  {
    Pow2Values();
    Pow2Monotone(l, 15);
    LoIsPreviousHi(lens, l);
    Pow2Add(l, MAX - l);
    if First(lens, l) > Pow2(l) {
      MulMono(Pow2(l) + 1, First(lens, l), Pow2(MAX - l));
      Distribute(Pow2(l), 1, Pow2(MAX - l));
    }
  }

  lemma SlotsSnoc(lens: seq<nat>, i: nat, size: seq<byte>, value: seq<uint16>, size': seq<byte>, value': seq<uint16>)
    requires i < |lens| <= MAX_SYMBOLS && Bounded(lens, MAX_BITS) && lens[i] > 0
    requires |size| == MAX_SYMBOLS && |value| == MAX_SYMBOLS && SlotsCorrect(lens, i, size, value)
    requires Slot(lens, i) < MAX_SYMBOLS
    requires size' == size[Slot(lens, i) := lens[i]] && value' == value[Slot(lens, i) := i]
    ensures SlotsCorrect(lens, i + 1, size', value')
  {
    forall i' | 0 <= i' < i && lens[i'] > 0
      ensures Slot(lens, i') != Slot(lens, i)
    {
      SlotInjective(lens, i', i);
    }
  }

  lemma FastSkip(lens: seq<nat>, i: nat, fast: seq<uint16>)
    requires i < |lens| && |fast| == FAST_SIZE && FastCorrect(lens, i, fast)
    requires lens[i] == 0 || lens[i] > FAST_BITS
    ensures FastCorrect(lens, i + 1, fast)
  {
    var n := i + 1;
    forall j: nat | j < FAST_SIZE
      ensures FastCorrectAt(lens, n, fast, j)
    {
      assert FastCorrectAt(lens, i, fast, j);
    }
  }

  /** One more symbol's entry, written wherever its code word begins the window. */
  lemma FastSnocAt(lens: seq<nat>, i: nat, fast: seq<uint16>, fast': seq<uint16>, j: nat)
    requires Decodable(lens) && i < |lens| && 0 < lens[i] <= FAST_BITS
    requires |fast| == FAST_SIZE == |fast'| && j < FAST_SIZE && FastCorrectAt(lens, i, fast, j)
    requires fast'[j] == if Low(j, lens[i]) == RevBits(Code(lens, i), lens[i]) then FastEntry(lens, i) else fast[j]
    ensures FastCorrectAt(lens, i + 1, fast', j)
  {
    ShortMatchLow(lens, i, j);
    if ShortMatch(lens, i, j) {
      forall i': nat | i' < i + 1 && ShortMatch(lens, i', j)
        ensures i' == i
      {
        OneShortMatch(lens, i, i', j);
      }
    }
  }

  /** The overflow test after length l: failing it breaks the Kraft inequality, passing it
      keeps l's windows within 2^16. */
  lemma EndTest(lens: seq<nat>, l: nat, code: nat, n: nat)
    requires Bounded(lens, MAX_BITS) && 1 <= l <= MAX_BITS && Hi(lens, l - 1) <= Pow2(MAX)
    requires n == Count(lens, l) && code == End(lens, l)
    ensures n > 0 && code - 1 >= Shl(1, l) ==> !Decodable(lens)
    ensures !(n > 0 && code - 1 >= Shl(1, l)) ==> Hi(lens, l) <= Pow2(MAX)
    ensures Shl(code, 16 - l) == Hi(lens, l) && Shl(code, 1) == First(lens, l + 1)
  {
    hide Shl, Count;
    Pow2Values();
    ShlMul(1, l);
    ShlMul(code, 16 - l);
    ShlMul(code, 1);
    EndWithin(lens, l);
    HiStep(lens, l);
    if Hi(lens, l) > Pow2(MAX) {
      TooMany(lens, l);
    }
  }

  lemma BoundsSnoc(lens: seq<nat>, l: nat, fc: seq<uint16>, mc: seq<nat>, fs: seq<uint16>,
                   fc': seq<uint16>, mc': seq<nat>, fs': seq<uint16>)
    requires 1 <= l <= MAX_BITS && |fc| == |fc'| == 16 && |mc| == |mc'| == 17 && |fs| == |fs'| == 16
    requires BoundsCorrect(lens, l - 1, fc, mc, fs)
    requires First(lens, l) < 65536 && Shorter(lens, l) < 65536
    requires fc' == fc[l := First(lens, l)] && mc' == mc[l := Hi(lens, l)] && fs' == fs[l := Shorter(lens, l)]
    ensures BoundsCorrect(lens, l, fc', mc', fs')
  {}

  /** The next free code of each length after the first n symbols. */
  ghost predicate NextCorrect(lens: seq<nat>, n: nat, next: seq<nat>)
    requires n <= |lens| && |next| == 16
  {
    forall l :: 1 <= l < 16 ==> next[l] == First(lens, l) + Count(lens[..n], l)
  }

  lemma NextSnoc(lens: seq<nat>, i: nat, next: seq<nat>, next': seq<nat>)
    requires i < |lens| && lens[i] < 16 && |next| == 16 == |next'| && NextCorrect(lens, i, next)
    requires next' == if lens[i] > 0 then next[lens[i] := next[lens[i]] + 1] else next
    ensures NextCorrect(lens, i + 1, next')
  {
    assert lens[..i + 1][..i] == lens[..i];
  }

  class ZHuffman {
    const fast: array<uint16>
    const firstcode: array<uint16>
    const maxcode: array<nat>
    const firstsymbol: array<uint16>
    const size: array<byte>
    const value: array<uint16>

    ghost function Repr(): set<object> {
      {fast as object, firstcode, maxcode, firstsymbol, size, value}
    }

    ghost predicate Valid() {
      && fast.Length == FAST_SIZE && firstcode.Length == 16 && maxcode.Length == 17
      && firstsymbol.Length == 16 && size.Length == MAX_SYMBOLS && value.Length == MAX_SYMBOLS
      && fast != firstcode && fast != firstsymbol && fast != value
      && firstcode != firstsymbol && firstcode != value && firstsymbol != value
      && size as object !in {fast as object, firstcode, maxcode, firstsymbol, value}
      && maxcode as object !in {fast as object, firstcode, firstsymbol, value}
    }

    /** The tables decode the code with lengths lens. */
    ghost predicate Represents(lens: seq<nat>)
      requires Valid()
      reads Repr()
    {
      && |lens| <= MAX_SYMBOLS && Bounded(lens, MAX_BITS) && Decodable(lens)
      && BoundsCorrect(lens, MAX_BITS, firstcode[..], maxcode[..], firstsymbol[..])
      && maxcode[16] == 0x10000
      && SlotsCorrect(lens, |lens|, size[..], value[..])
      && FastCorrect(lens, |lens|, fast[..])
    }

    constructor ()
      ensures Valid() && fresh(Repr())
    {
      fast := new uint16[FAST_SIZE];
      firstcode := new uint16[16];
      maxcode := new nat[17];
      firstsymbol := new uint16[16];
      size := new byte[MAX_SYMBOLS];
      value := new uint16[MAX_SYMBOLS];
    }

    /** Builds the tables; succeeds exactly when the lengths satisfy the Kraft inequality. */
    method Build(sizelist: seq<nat>) returns (ok: bool)
      requires Valid() && |sizelist| <= MAX_SYMBOLS && Bounded(sizelist, MAX_BITS)
      modifies Repr()
      ensures ok <==> Decodable(sizelist)
      ensures ok ==> Represents(sizelist)
    {
      hide Count, Kraft, Shl, Pow2, Slot, Hi, First, Code;
      var sizes := CountSizes(sizelist);
      for j := 0 to FAST_SIZE
        invariant forall t :: 0 <= t < j ==> fast[t] == 0
        invariant forall l :: 1 <= l < 17 ==> sizes[l] == Count(sizelist, l)
      {
        fast[j] := 0;
      }
      var i := 1;
      while i < 16
        invariant 1 <= i <= 16
        invariant forall l :: 1 <= l < 17 ==> sizes[l] == Count(sizelist, l)
        invariant forall t :: 0 <= t < FAST_SIZE ==> fast[t] == 0
      {
        ShlMul(1, i);
        if sizes[i] > Shl(1, i) {
          EndWithin(sizelist, i);
          TooMany(sizelist, i);
          return false;
        }
        i := i + 1;
      }
      var nextCode := new nat[16];
      ok := AssignBounds(sizelist, sizes, nextCode);
      if ok {
        maxcode[16] := 0x10000;
        PlaceSymbols(sizelist, nextCode);
      }
    }

    method CountSizes(sizelist: seq<nat>) returns (sizes: array<nat>)
      requires Bounded(sizelist, MAX_BITS)
      ensures fresh(sizes) && sizes.Length == 17
      ensures forall l :: 1 <= l < 17 ==> sizes[l] == Count(sizelist, l)
    {
      sizes := new nat[17](_ => 0);
      for i := 0 to |sizelist|
        invariant forall l :: 0 <= l < 17 ==> sizes[l] == Count(sizelist[..i], l)
      {
        assert sizelist[..i + 1][..i] == sizelist[..i];
        sizes[sizelist[i]] := sizes[sizelist[i]] + 1;
      }
      assert sizelist[..|sizelist|] == sizelist;
      sizes[0] := 0;
    }

    method AssignBounds(ghost lens: seq<nat>, sizes: array<nat>, nextCode: array<nat>) returns (ok: bool)
      requires Valid() && |lens| <= MAX_SYMBOLS && Bounded(lens, MAX_BITS)
      requires sizes.Length == 17 && nextCode.Length == 16
      requires sizes as object !in Repr() && nextCode as object !in Repr() && sizes != nextCode
      requires forall l :: 1 <= l < 17 ==> sizes[l] == Count(lens, l)
      modifies firstcode, maxcode, firstsymbol, nextCode
      ensures ok <==> Decodable(lens)
      ensures ok ==> BoundsCorrect(lens, MAX_BITS, firstcode[..], maxcode[..], firstsymbol[..])
      ensures ok ==> NextCorrect(lens, 0, nextCode[..])
    {
      hide Shl, Count, Kraft, Hi, First, Shorter, BoundsCorrect, Pow2, NextCorrect, Decodable;
      var k, code, i := 0, 0, 1;
      BoundsStart(lens, firstcode[..], maxcode[..], firstsymbol[..]);
      Pow2Values();
      while i < 16
        invariant 1 <= i <= 16
        invariant code == First(lens, i) && k == Shorter(lens, i) && Hi(lens, i - 1) <= Pow2(MAX)
        invariant forall l :: 1 <= l < 17 ==> sizes[l] == Count(lens, l)
        invariant forall l :: 1 <= l < i ==> nextCode[l] == First(lens, l)
        invariant BoundsCorrect(lens, i - 1, firstcode[..], maxcode[..], firstsymbol[..])
      {
        nextCode[i] := code;
        ok := SetBounds(lens, i, code, k, sizes[i]);
        if !ok {
          return;
        }
        ShorterNext(lens, i);
        code := Shl(code + sizes[i], 1);
        k := k + sizes[i];
        i := i + 1;
      }
      AllFit(lens);
      NextStart(lens, nextCode[..]);
      ok := true;
    }

    /** The bounds for the n codes of one length, unless they are too many. */
    method SetBounds(ghost lens: seq<nat>, i: nat, first: nat, k: nat, n: nat) returns (ok: bool)
      requires Valid() && |lens| <= MAX_SYMBOLS && Bounded(lens, MAX_BITS) && 1 <= i < 16
      requires first == First(lens, i) && k == Shorter(lens, i) && n == Count(lens, i) && Hi(lens, i - 1) <= Pow2(MAX)
      requires BoundsCorrect(lens, i - 1, firstcode[..], maxcode[..], firstsymbol[..])
      modifies firstcode, maxcode, firstsymbol
      ensures ok ==> BoundsCorrect(lens, i, firstcode[..], maxcode[..], firstsymbol[..])
      ensures if ok then Hi(lens, i) <= Pow2(MAX) && Shl(first + n, 1) == First(lens, i + 1) else !Decodable(lens)
    {
      hide Shl, Count, Kraft, Hi, First, Shorter, BoundsCorrect, Pow2, Decodable;
      FirstFits(lens, i);
      ShorterBound(lens, i);
      ShorterNext(lens, i);
      ghost var fc, mc, fs := firstcode[..], maxcode[..], firstsymbol[..];
      firstcode[i] := first;
      firstsymbol[i] := k;
      var code := first + n;
      EndTest(lens, i, code, n);
      if n > 0 && code - 1 >= Shl(1, i) {
        return false;
      }
      maxcode[i] := Shl(code, 16 - i);
      BoundsSnoc(lens, i, fc, mc, fs, firstcode[..], maxcode[..], firstsymbol[..]);
      ok := true;
    }

    method PlaceSymbols(sizelist: seq<nat>, nextCode: array<nat>)
      requires Valid() && |sizelist| <= MAX_SYMBOLS && Bounded(sizelist, MAX_BITS) && Decodable(sizelist)
      requires nextCode.Length == 16 && nextCode as object !in Repr()
      requires BoundsCorrect(sizelist, MAX_BITS, firstcode[..], maxcode[..], firstsymbol[..])
      requires NextCorrect(sizelist, 0, nextCode[..]) && FastCorrect(sizelist, 0, fast[..])
      modifies fast, size, value, nextCode
      ensures SlotsCorrect(sizelist, |sizelist|, size[..], value[..])
      ensures FastCorrect(sizelist, |sizelist|, fast[..])
    {
      for i := 0 to |sizelist|
        invariant NextCorrect(sizelist, i, nextCode[..])
        invariant SlotsCorrect(sizelist, i, size[..], value[..])
        invariant FastCorrect(sizelist, i, fast[..])
      {
        ghost var next0 := nextCode[..];
        if sizelist[i] > 0 {
          PlaceSymbol(sizelist, i, nextCode);
        } else {
          FastSkip(sizelist, i, fast[..]);
        }
        NextSnoc(sizelist, i, next0, nextCode[..]);
      }
    }

    method PlaceSymbol(sizelist: seq<nat>, i: nat, nextCode: array<nat>)
      requires Valid() && |sizelist| <= MAX_SYMBOLS && Bounded(sizelist, MAX_BITS) && Decodable(sizelist)
      requires i < |sizelist| && sizelist[i] > 0
      requires nextCode.Length == 16 && nextCode as object !in Repr()
      requires BoundsCorrect(sizelist, MAX_BITS, firstcode[..], maxcode[..], firstsymbol[..])
      requires NextCorrect(sizelist, i, nextCode[..])
      requires SlotsCorrect(sizelist, i, size[..], value[..]) && FastCorrect(sizelist, i, fast[..])
      modifies fast, size, value, nextCode
      ensures nextCode[..] == old(nextCode[..])[sizelist[i] := old(nextCode[sizelist[i]]) + 1]
      ensures SlotsCorrect(sizelist, i + 1, size[..], value[..]) && FastCorrect(sizelist, i + 1, fast[..])
    {
      hide Kraft, Pow2, Shl, Or, ReverseBits, Count, FastCorrect, Shorter, SlotsCorrect, Decodable;
      var s := sizelist[i];
      var c := nextCode[s] - firstcode[s] + firstsymbol[s];
      assert c == Slot(sizelist, i) && nextCode[s] == Code(sizelist, i);
      SlotBound(sizelist, i);
      FastEntryPacks(s, i);
      var fastv := Or(i, Shl(s, 9));
      size[c] := s;
      value[c] := i;
      SlotsSnoc(sizelist, i, old(size[..]), old(value[..]), size[..], value[..]);
      if s <= FAST_BITS {
        CodeFits(sizelist, i);
        ReverseBitsIsReversal(nextCode[s], s);
        FillFast(sizelist, i, s, ReverseBits(nextCode[s], s), fastv);
      } else {
        FastSkip(sizelist, i, fast[..]);
      }
      nextCode[s] := nextCode[s] + 1;
    }

    /** Writes fastv at j, j + 2^s, ...: every window symbol i's code word begins. */
    method FillFast(ghost lens: seq<nat>, ghost i: nat, s: nat, start: nat, fastv: uint16)
      requires Valid() && Decodable(lens) && i < |lens| && 0 < lens[i] <= FAST_BITS && s == lens[i]
      requires start == RevBits(Code(lens, i), s) && fastv == FastEntry(lens, i)
      requires FastCorrect(lens, i, fast[..])
      modifies fast
      ensures FastCorrect(lens, i + 1, fast[..])
    {
      hide FastCorrectAt, RevBits, Pow2, Low, Shl;
      ghost var before := fast[..];
      var j := start;
      LowShort(start, s);
      ShlMul(1, s);
      forall t: nat | t < start
        ensures Low(t, s) != start
      {
        if Low(t, s) == start {
          LowGap(t, start, s);
        }
      }
      while j < FAST_SIZE
        invariant Low(j, s) == start
        invariant start <= j
        invariant forall t :: 0 <= t < FAST_SIZE ==>
          fast[t] == if t < j && Low(t, s) == start then fastv else before[t]
      {
        fast[j] := fastv;
        forall t: nat | j < t < j + Pow2(s)
          ensures Low(t, s) != start
        {
          if Low(t, s) == start {
            LowGap(j, t, s);
          }
        }
        LowNext(j, s);
        j := j + Shl(1, s);
      }
      ghost var after, n := fast[..], i + 1;
      forall t: nat | t < FAST_SIZE
        ensures FastCorrectAt(lens, n, after, t)
      {
        assert FastCorrectAt(lens, i, before, t);
        FastSnocAt(lens, i, before, fast[..], t);
      }
    }
  }
}
