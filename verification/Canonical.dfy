/** Canonical prefix codes (section 3.2.2 of RFC 1951; Annex C of ITU-T T.81).

    A code is a list of code lengths, one per symbol, zero meaning the symbol is absent.
    Every code is read against a 16-bit window K whose first stream bit is the most
    significant: the symbols of length l own the windows from Lo(lens, l) to Hi(lens, l). */
module Canonical {
  import opened BitOps
  import opened BitStream

  const MAX: nat := 16

  predicate Bounded(lens: seq<nat>, max: nat) {
    forall i :: 0 <= i < |lens| ==> lens[i] <= max
  }

  /** How many symbols have length l. */
  function Count(lens: seq<nat>, l: nat): (n: nat)
    ensures n <= |lens|
  {
    if lens == [] then 0
    else Count(lens[..|lens| - 1], l) + (if lens[|lens| - 1] == l then 1 else 0)
  }

  /** The first code of length l. */
  function First(lens: seq<nat>, l: nat): nat {
    if l <= 1 then 0 else 2 * (First(lens, l - 1) + Count(lens, l - 1))
  }

  /** One past the last code of length l. */
  function End(lens: seq<nat>, l: nat): nat {
    First(lens, l) + Count(lens, l)
  }

  /** The code word of symbol i: consecutive within a length, in symbol order. */
  function Code(lens: seq<nat>, i: nat): nat
    requires i < |lens|
  {
    First(lens, lens[i]) + Count(lens[..i], lens[i])
  }

  /** The number of symbols whose code is shorter than l. */
  function Shorter(lens: seq<nat>, l: nat): nat {
    if l <= 1 then 0 else Shorter(lens, l - 1) + Count(lens, l - 1)
  }

  /** The Kraft sum of the code, scaled by 2^16. */
  function Kraft(lens: seq<nat>): nat
    requires Bounded(lens, MAX)
  {
    if lens == [] then 0
    else
      var s := lens[|lens| - 1];
      Kraft(lens[..|lens| - 1]) + (if s == 0 then 0 else Pow2(MAX - s))
  }

  /** The code lengths satisfy the Kraft inequality. */
  predicate Decodable(lens: seq<nat>) {
    Bounded(lens, MAX) && Kraft(lens) <= Pow2(MAX)
  }

  function Lo(lens: seq<nat>, l: nat): nat
    requires 1 <= l <= MAX
  {
    First(lens, l) * Pow2(MAX - l)
  }

  function Hi(lens: seq<nat>, l: nat): nat
    requires l <= MAX
  {
    if l == 0 then 0 else End(lens, l) * Pow2(MAX - l)
  }

  /** Symbol i's code word is the beginning of window k. */
  predicate Matches(lens: seq<nat>, i: nat, k: nat)
    requires Bounded(lens, MAX)
  {
    i < |lens| && lens[i] > 0 && Code(lens, i) == Shr(k, MAX - lens[i])
  }

  lemma DoubleEither(a: nat, b: nat)
    ensures (2 * a) * b == a * (2 * b)
  {}

  lemma LoIsPreviousHi(lens: seq<nat>, l: nat)
    requires 1 <= l <= MAX
    ensures Lo(lens, l) == Hi(lens, l - 1)
  {
    hide Count;
    if l > 1 {
      DoubleEither(End(lens, l - 1), Pow2(MAX - l));
    }
  }

  lemma HiStep(lens: seq<nat>, l: nat)
    requires 1 <= l <= MAX
    ensures Hi(lens, l) == Hi(lens, l - 1) + Count(lens, l) * Pow2(MAX - l)
  {
    LoIsPreviousHi(lens, l);
    Distribute(First(lens, l), Count(lens, l), Pow2(MAX - l));
  }

  lemma {:induction false} HiMonotone(lens: seq<nat>, l: nat, m: nat)
    requires l <= m <= MAX
    ensures Hi(lens, l) <= Hi(lens, m)
  {
    if l < m {
      HiMonotone(lens, l, m - 1);
      HiStep(lens, m);
    }
  }

  /** Adding a symbol of length s raises every Hi from s on by that symbol's share. */
  lemma {:induction false} HiSnoc(lens: seq<nat>, s: nat, l: nat)
    requires l <= MAX
    ensures Hi(lens + [s], l) == Hi(lens, l) + (if 1 <= s <= l then Pow2(MAX - s) else 0)
  {
    if l > 0 {
      var longer := lens + [s];
      HiSnoc(lens, s, l - 1);
      HiStep(lens, l);
      HiStep(longer, l);
      assert longer[..|longer| - 1] == lens;
      assert Count(longer, l) == Count(lens, l) + (if s == l then 1 else 0);
      Distribute(Count(lens, l), if s == l then 1 else 0, Pow2(MAX - l));
    }
  }

  /** The windows the code owns number its Kraft sum. */
  lemma {:induction false} HiIsKraft(lens: seq<nat>)
    requires Bounded(lens, MAX)
    ensures Hi(lens, MAX) == Kraft(lens)
  {
    if lens == [] {
      NoCounts(MAX);
    } else {
      var init, s := lens[..|lens| - 1], lens[|lens| - 1];
      assert lens == init + [s];
      HiIsKraft(init);
      HiSnoc(init, s, MAX);
    }
  }

  lemma {:induction false} NoCounts(l: nat)
    requires l <= MAX
    ensures Hi([], l) == 0
  {
    if l > 0 {
      NoCounts(l - 1);
      HiStep([], l);
    }
  }

  lemma {:induction false} CountMonotone(lens: seq<nat>, i: nat, j: nat, l: nat)
    requires i <= j <= |lens|
    ensures Count(lens[..i], l) <= Count(lens[..j], l)
    ensures i < j && lens[i] == l ==> Count(lens[..i], l) < Count(lens[..j], l)
  {
    if i < j {
      assert lens[..j][..j - 1] == lens[..j - 1];
      CountMonotone(lens, i, j - 1, l);
    }
  }

  lemma CodeInRange(lens: seq<nat>, i: nat)
    requires i < |lens|
    ensures First(lens, lens[i]) <= Code(lens, i) < End(lens, lens[i])
  {
    CountMonotone(lens, i, |lens|, lens[i]);
    assert lens[..|lens|] == lens;
  }

  lemma CodeInjective(lens: seq<nat>, i: nat, j: nat)
    requires i < |lens| && j < |lens| && lens[i] == lens[j] && Code(lens, i) == Code(lens, j)
    ensures i == j
  {
    if i < j {
      CountMonotone(lens, i, j, lens[i]);
    } else if j < i {
      CountMonotone(lens, j, i, lens[i]);
    }
  }

  /** Every code between First and End belongs to a symbol. */
  lemma {:induction false} CodeTaken(lens: seq<nat>, l: nat, c: nat, n: nat) returns (i: nat)
    requires n <= |lens|
    requires First(lens, l) <= c < First(lens, l) + Count(lens[..n], l)
    ensures i < n && lens[i] == l && Code(lens, i) == c
  {
    assert n > 0;
    assert lens[..n][..n - 1] == lens[..n - 1];
    if lens[n - 1] == l && c == First(lens, l) + Count(lens[..n - 1], l) {
      i := n - 1;
    } else {
      i := CodeTaken(lens, l, c, n - 1);
    }
  }

  /** A window's first l bits lie below c exactly when the window lies below c's windows. */
  lemma WindowBelow(k: nat, l: nat, c: nat)
    requires l <= MAX
    ensures Shr(k, MAX - l) < c <==> k < c * Pow2(MAX - l)
  {
    var h, q := Shr(k, MAX - l), Pow2(MAX - l);
    ShrLow(k, MAX - l);
    Distribute(h, 1, q);
    if h < c {
      MulMono(h + 1, c, q);
    } else {
      MulMono(c, h, q);
    }
  }

  /** A matching symbol of length l pins the window to l's part. */
  lemma MatchInPart(lens: seq<nat>, i: nat, k: nat)
    requires Bounded(lens, MAX) && Matches(lens, i, k)
    ensures Hi(lens, lens[i] - 1) <= k < Hi(lens, lens[i])
  {
    var l := lens[i];
    CodeInRange(lens, i);
    WindowBelow(k, l, End(lens, l));
    WindowBelow(k, l, First(lens, l));
    LoIsPreviousHi(lens, l);
  }

  /** No window begins with two code words: the code is prefix-free. */
  lemma AtMostOneMatch(lens: seq<nat>, i: nat, j: nat, k: nat)
    requires Bounded(lens, MAX) && Matches(lens, i, k) && Matches(lens, j, k)
    ensures i == j
  {
    MatchInPart(lens, i, k);
    MatchInPart(lens, j, k);
    if lens[i] < lens[j] {
      HiMonotone(lens, lens[i], lens[j] - 1);
    } else if lens[j] < lens[i] {
      HiMonotone(lens, lens[j], lens[i] - 1);
    }
    CodeInjective(lens, i, j);
  }

  /** A window in l's part begins with a code word of length l. */
  lemma PartHasMatch(lens: seq<nat>, l: nat, k: nat) returns (i: nat)
    requires Bounded(lens, MAX) && 1 <= l <= MAX && Hi(lens, l - 1) <= k < Hi(lens, l)
    ensures Matches(lens, i, k) && lens[i] == l
  {
    LoIsPreviousHi(lens, l);
    WindowBelow(k, l, End(lens, l));
    WindowBelow(k, l, First(lens, l));
    assert lens[..|lens|] == lens;
    i := CodeTaken(lens, l, Shr(k, MAX - l), |lens|);
  }

  /** Code words fit their lengths when the Kraft inequality holds. */
  lemma CodeFits(lens: seq<nat>, i: nat)
    requires Decodable(lens) && i < |lens| && lens[i] > 0
    ensures Code(lens, i) < Pow2(lens[i])
  {
    hide Code, Count, First, Kraft, Pow2;
    var l := lens[i];
    CodeInRange(lens, i);
    HiMonotone(lens, l, MAX);
    HiIsKraft(lens);
    Pow2Add(l, MAX - l);
    if Code(lens, i) >= Pow2(l) {
      MulMono(Pow2(l) + 1, End(lens, l), Pow2(MAX - l));
      Distribute(Pow2(l), 1, Pow2(MAX - l));
    }
  }

  /** No code word begins another one. */
  lemma PrefixFree(lens: seq<nat>, i: nat, j: nat)
    requires Decodable(lens) && i < |lens| && j < |lens| && i != j
    requires 0 < lens[i] <= lens[j]
    ensures Shr(Code(lens, j), lens[j] - lens[i]) != Code(lens, i)
  {
    hide First, Count, Pow2;
    var k := Code(lens, j) * Pow2(MAX - lens[j]) + 0;
    SplitUnique(Code(lens, j), 0, MAX - lens[j]);
    ShrShr(k, MAX - lens[j], lens[j] - lens[i]);
    if Shr(Code(lens, j), lens[j] - lens[i]) == Code(lens, i) {
      AtMostOneMatch(lens, i, j, k);
    }
  }

  /** What the symbols before symbol i take of the windows: those with shorter words, and those before
      it with words as long. */
  function Taken(lens: seq<nat>, l: nat, i: nat): nat
    requires Bounded(lens, MAX)
  {
    if lens == [] then 0
    else
      var j := |lens| - 1;
      Taken(lens[..j], l, i) + (if 1 <= lens[j] < l || (lens[j] == l && l > 0 && j < i) then Pow2(MAX - lens[j]) else 0)
  }

  lemma TakenSnoc(lens: seq<nat>, s: nat, l: nat, i: nat)
    requires Bounded(lens, MAX) && s <= MAX
    ensures Bounded(lens + [s], MAX)
    ensures Taken(lens + [s], l, i)
         == Taken(lens, l, i) + (if 1 <= s < l || (s == l && l > 0 && |lens| < i) then Pow2(MAX - s) else 0)
  {
    hide Pow2;
    assert (lens + [s])[..|lens|] == lens;
  }

  lemma {:induction false} TakenSum(lens: seq<nat>, l: nat, i: nat)
    requires Bounded(lens, MAX) && 1 <= l <= MAX && i <= |lens|
    ensures Taken(lens, l, i) == Hi(lens, l - 1) + Count(lens[..i], l) * Pow2(MAX - l)
  {
    hide Hi, Pow2, Taken, Count;
    if lens == [] {
      NoneTaken(l, i);
      NoCounts(l - 1);
    } else {
      var j, s := |lens| - 1, lens[|lens| - 1];
      var init := lens[..j];
      assert lens == init + [s];
      TakenSnoc(init, s, l, i);
      HiSnoc(init, s, l - 1);
      if i <= j {
        assert init[..i] == lens[..i];
        TakenSum(init, l, i);
      } else {
        assert lens[..i] == lens && init[..j] == init;
        TakenSum(init, l, j);
        TakenLater(init, l, j, i);
        CountNext(init, s, l);
        Distribute(Count(init, l), if s == l then 1 else 0, Pow2(MAX - l));
      }
    }
  }

  lemma NoneTaken(l: nat, i: nat)
    requires i == 0
    ensures Bounded([], MAX) && Taken([], l, i) == 0 && Count([][..i], l) == 0
  {}

  lemma CountNext(lens: seq<nat>, s: nat, l: nat)
    ensures Count(lens + [s], l) == Count(lens, l) + if s == l then 1 else 0
  {
    assert (lens + [s])[..|lens|] == lens;
  }

  /** Symbols beyond the list make no difference. */
  lemma {:induction false} TakenLater(lens: seq<nat>, l: nat, i: nat, j: nat)
    requires Bounded(lens, MAX) && |lens| <= i <= j
    ensures Taken(lens, l, i) == Taken(lens, l, j)
  {
    hide Pow2;
    if lens != [] {
      TakenLater(lens[..|lens| - 1], l, i, j);
    }
  }

  /** The code words in order of their lengths, and as long ones in order of the symbols, follow each
      other without a gap, from the word of all zeros on. */
  lemma WordsInOrder(lens: seq<nat>, i: nat)
    requires Bounded(lens, MAX) && i < |lens| && lens[i] > 0
    ensures Code(lens, i) * Pow2(MAX - lens[i]) == Taken(lens, lens[i], i)
  {
    hide Pow2, Count, First;
    var l := lens[i];
    TakenSum(lens, l, i);
    LoIsPreviousHi(lens, l);
    Distribute(First(lens, l), Count(lens[..i], l), Pow2(MAX - l));
  }

  // Symbols sorted by length

  /** Where symbol i's entry lies among the symbols sorted by length. */
  function Slot(lens: seq<nat>, i: nat): nat
    requires i < |lens|
  {
    Shorter(lens, lens[i]) + Count(lens[..i], lens[i])
  }

  lemma {:induction false} ShorterSnoc(lens: seq<nat>, s: nat, l: nat)
    ensures Shorter(lens + [s], l) == Shorter(lens, l) + (if 1 <= s < l then 1 else 0)
  {
    if l > 1 {
      ShorterSnoc(lens, s, l - 1);
      var longer := lens + [s];
      assert longer[..|longer| - 1] == lens;
    }
  }

  lemma {:induction false} ShorterBound(lens: seq<nat>, l: nat)
    ensures Shorter(lens, l) <= |lens|
  {
    if lens == [] {
      ShorterOfNone(l);
    } else {
      var init, s := lens[..|lens| - 1], lens[|lens| - 1];
      assert lens == init + [s];
      ShorterBound(init, l);
      ShorterSnoc(init, s, l);
    }
  }

  lemma {:induction false} ShorterOfNone(l: nat)
    ensures Shorter([], l) == 0
  {
    if l > 1 {
      ShorterOfNone(l - 1);
    }
  }

  lemma {:induction false} ShorterMonotone(lens: seq<nat>, l: nat, m: nat)
    requires l <= m
    ensures Shorter(lens, l) <= Shorter(lens, m)
  {
    if l < m {
      ShorterMonotone(lens, l, m - 1);
    }
  }

  lemma SlotBound(lens: seq<nat>, i: nat)
    requires i < |lens| && lens[i] > 0
    ensures Slot(lens, i) < Shorter(lens, lens[i] + 1) <= |lens|
  {
    CountMonotone(lens, i, |lens|, lens[i]);
    assert lens[..|lens|] == lens;
    ShorterBound(lens, lens[i] + 1);
  }

  lemma SlotInjective(lens: seq<nat>, i: nat, j: nat)
    requires i < |lens| && j < |lens| && lens[i] > 0 && lens[j] > 0 && i != j
    ensures Slot(lens, i) != Slot(lens, j)
  {
    SlotBound(lens, i);
    SlotBound(lens, j);
    if lens[i] < lens[j] {
      ShorterMonotone(lens, lens[i] + 1, lens[j]);
    } else if lens[j] < lens[i] {
      ShorterMonotone(lens, lens[j] + 1, lens[i]);
    } else {
      CountMonotone(lens, if i < j then i else j, if i < j then j else i, lens[i]);
    }
  }

  /** The loops' overflow tests amount to Hi staying within 2^16. */
  lemma EndWithin(lens: seq<nat>, l: nat)
    requires 1 <= l <= MAX
    ensures End(lens, l) <= Pow2(l) <==> Hi(lens, l) <= Pow2(MAX)
  {
    hide Pow2, First, Count;
    Pow2Add(l, MAX - l);
    if End(lens, l) <= Pow2(l) {
      MulMono(End(lens, l), Pow2(l), Pow2(MAX - l));
    } else {
      MulMono(Pow2(l) + 1, End(lens, l), Pow2(MAX - l));
      Distribute(Pow2(l), 1, Pow2(MAX - l));
    }
  }

  lemma {:induction false} NoneOfLength(lens: seq<nat>, l: nat)
    requires forall i :: 0 <= i < |lens| ==> lens[i] != l
    ensures Count(lens, l) == 0
  {
    if lens != [] {
      NoneOfLength(lens[..|lens| - 1], l);
    }
  }

  // Decoding one bit at a time

  datatype Decoded = NoCode | Symbol(sym: nat, len: nat)

  /** The first symbol from i on with code word c of length l, or |lens|. */
  function Find(lens: seq<nat>, l: nat, c: nat, i: nat): (r: nat)
    requires i <= |lens|
    ensures i <= r <= |lens|
    ensures r < |lens| ==> lens[r] == l && Code(lens, r) == c
    ensures forall j :: i <= j < r ==> !(lens[j] == l && Code(lens, j) == c)
    decreases |lens| - i
  {
    if i == |lens| || (lens[i] == l && Code(lens, i) == c) then i else Find(lens, l, c, i + 1)
  }

  /** The reference decoder: read a bit, see whether the bits so far are a code word, go on. */
  function DecodeFrom(lens: seq<nat>, input: seq<byte>, p: nat, l: nat, c: nat, max: nat): (r: Decoded)
    requires l <= max
    ensures r.Symbol? ==> r.sym < |lens| && r.len <= max
    decreases max - l, |lens|
  {
    if l == max then NoCode
    else
      var c' := 2 * c + BitAt(input, p + l);
      var i := Find(lens, l + 1, c', 0);
      if i < |lens| then Symbol(i, l + 1) else DecodeFrom(lens, input, p, l + 1, c', max)
  }

  function Decode(lens: seq<nat>, input: seq<byte>, p: nat, max: nat): (r: Decoded)
    ensures r.Symbol? ==> r.sym < |lens| && r.len <= max
  {
    DecodeFrom(lens, input, p, 0, 0, max)
  }

  /** The 16-bit window at position p. */
  function Window(input: seq<byte>, p: nat): (k: nat)
    ensures k < Pow2(MAX)
  {
    Msb(input, p, MAX)
  }

  /** The first l bits of the stream are the window's. */
  lemma WindowPrefix(input: seq<byte>, p: nat, l: nat)
    requires l <= MAX
    ensures Shr(Window(input, p), MAX - l) == Msb(input, p, l)
  {
    MsbPrefix(input, p, l, MAX - l);
  }

  /** Looking a window's first l bits up finds the match of length l, if there is one. */
  lemma FindMatch(lens: seq<nat>, k: nat, l: nat)
    requires Bounded(lens, MAX) && 1 <= l <= MAX
    ensures var i := Find(lens, l, Shr(k, MAX - l), 0);
            if i < |lens| then Matches(lens, i, k) && lens[i] == l
            else forall j: nat :: Matches(lens, j, k) ==> lens[j] != l
  {}

  /** The reference decoder's answer from depth l, when no match is that short. */
  ghost predicate Answers(lens: seq<nat>, k: nat, d: Decoded)
    requires Bounded(lens, MAX)
  {
    if d.Symbol? then Matches(lens, d.sym, k) && d.len == lens[d.sym]
    else forall i: nat :: !Matches(lens, i, k)
  }

  lemma {:induction false} DecodeFromMatch(lens: seq<nat>, input: seq<byte>, p: nat, l: nat, max: nat)
    requires Bounded(lens, max) && l <= max <= MAX
    requires forall i: nat :: Matches(lens, i, Window(input, p)) ==> lens[i] > l
    ensures Answers(lens, Window(input, p), DecodeFrom(lens, input, p, l, Msb(input, p, l), max))
    decreases max - l, |lens|
  {
    hide Find, Code, Window, Msb, Shr, Pow2, DecodeFrom;
    var k, c := Window(input, p), Msb(input, p, l);
    DecodeFromStep(lens, input, p, l, c, max);
    if l < max {
      MsbNext(input, p, l);
      WindowPrefix(input, p, l + 1);
      FindMatch(lens, k, l + 1);
      if Find(lens, l + 1, Msb(input, p, l + 1), 0) == |lens| {
        DecodeFromMatch(lens, input, p, l + 1, max);
      }
    }
  }

  lemma DecodeFromStep(lens: seq<nat>, input: seq<byte>, p: nat, l: nat, c: nat, max: nat)
    requires l <= max
    ensures var d, c' := DecodeFrom(lens, input, p, l, c, max), 2 * c + BitAt(input, p + l);
            if l == max then d == NoCode
            else
              var i := Find(lens, l + 1, c', 0);
              d == if i < |lens| then Symbol(i, l + 1) else DecodeFrom(lens, input, p, l + 1, c', max)
  {
    hide Find;
  }

  lemma MsbNext(input: seq<byte>, p: nat, l: nat)
    ensures Msb(input, p, l + 1) == 2 * Msb(input, p, l) + BitAt(input, p + l)
  {}

  /** What the reference decoder finds is the one code word the window begins with. */
  lemma DecodeIsMatch(lens: seq<nat>, input: seq<byte>, p: nat, max: nat)
    requires Bounded(lens, max) && max <= MAX
    ensures Answers(lens, Window(input, p), Decode(lens, input, p, max))
  {
    DecodeFromMatch(lens, input, p, 0, max);
  }

  /** Conversely the reference decoder returns any code word the window begins with. */
  lemma MatchIsDecode(lens: seq<nat>, input: seq<byte>, p: nat, max: nat, i: nat)
    requires Bounded(lens, max) && max <= MAX && Matches(lens, i, Window(input, p))
    ensures Decode(lens, input, p, max) == Symbol(i, lens[i])
  {
    DecodeIsMatch(lens, input, p, max);
    var d := Decode(lens, input, p, max);
    if d.Symbol? {
      AtMostOneMatch(lens, i, d.sym, Window(input, p));
    }
  }

  /** Decoding fails exactly on the windows beyond the code's Kraft sum. */
  lemma NoCodeBeyondKraft(lens: seq<nat>, input: seq<byte>, p: nat, max: nat)
    requires Bounded(lens, max) && max <= MAX
    ensures Decode(lens, input, p, max).NoCode? <==> Window(input, p) >= Kraft(lens)
  {
    var k := Window(input, p);
    HiIsKraft(lens);
    DecodeIsMatch(lens, input, p, max);
    if k < Kraft(lens) {
      var l := PartOf(lens, k, MAX);
      var i := PartHasMatch(lens, l, k);
    } else if Decode(lens, input, p, max).Symbol? {
      var i := Decode(lens, input, p, max).sym;
      MatchInPart(lens, i, k);
      HiMonotone(lens, lens[i], MAX);
    }
  }

  /** Some length's part holds a window below Hi(lens, n). */
  lemma {:induction false} PartOf(lens: seq<nat>, k: nat, n: nat) returns (l: nat)
    requires n <= MAX && k < Hi(lens, n)
    ensures 1 <= l <= n && Hi(lens, l - 1) <= k < Hi(lens, l)
  {
    if n > 0 && k < Hi(lens, n - 1) {
      l := PartOf(lens, k, n - 1);
    } else {
      l := n;
    }
  }
}
