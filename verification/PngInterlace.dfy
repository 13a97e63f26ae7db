/** Putting the seven passes of an interlaced image together (PNG specification, section 8.2). */
module PngInterlace {
  import opened BitOps
  import opened PngPixels
  import opened PngRaw

  // The passes

  const PASSES: nat := 7

  function XOrig(p: nat): nat {
    if p == 1 then 4 else if p == 3 then 2 else if p == 5 then 1 else 0
  }

  function YOrig(p: nat): nat {
    if p == 2 then 4 else if p == 4 then 2 else if p == 6 then 1 else 0
  }

  function XSpc(p: nat): (r: nat)
    ensures r > 0
  {
    if p <= 1 then 8 else if p <= 3 then 4 else if p <= 5 then 2 else 1
  }

  function YSpc(p: nat): (r: nat)
    ensures r > 0
  {
    if p <= 2 then 8 else if p <= 4 then 4 else 2
  }

  /** The decoder's count of a pass's columns, or of its rows. */
  function Count(size: nat, orig: nat, spc: nat): nat
    requires size > 0 && orig < spc
  {
    (size - orig + spc - 1) / spc
  }

  function PassX(p: nat, w: nat): nat
    requires p < PASSES && w > 0
  {
    Count(w, XOrig(p), XSpc(p))
  }

  function PassY(p: nat, h: nat): nat
    requires p < PASSES && h > 0
  {
    Count(h, YOrig(p), YSpc(p))
  }

  /** The pass that the standard gives the pixels of each 8 by 8 square to, counted from 0. */
  const ADAM7: seq<seq<nat>> := [
    [0, 5, 3, 5, 1, 5, 3, 5],
    [6, 6, 6, 6, 6, 6, 6, 6],
    [4, 5, 4, 5, 4, 5, 4, 5],
    [6, 6, 6, 6, 6, 6, 6, 6],
    [2, 5, 3, 5, 2, 5, 3, 5],
    [6, 6, 6, 6, 6, 6, 6, 6],
    [4, 5, 4, 5, 4, 5, 4, 5],
    [6, 6, 6, 6, 6, 6, 6, 6]
  ]

  function PassOf(x: nat, y: nat): (p: nat)
    ensures p < PASSES
  {
    if y % 2 == 1 then 6
    else if x % 2 == 1 then 5
    else if y % 4 == 2 then 4
    else if x % 4 == 2 then 3
    else if y % 8 == 4 then 2
    else if x % 8 == 4 then 1
    else 0
  }

  lemma PassIsAdam7(x: nat, y: nat)
    ensures PassOf(x, y) == ADAM7[y % 8][x % 8]
  {
    PassOfSquare(x, y);
    InSquare(x % 8, y % 8);
  }

  lemma PassOfSquare(x: nat, y: nat)
    ensures PassOf(x, y) == PassOf(x % 8, y % 8)
  {
    Residues(x);
    Residues(y);
  }

  lemma Residues(x: nat)
    ensures x % 8 % 2 == x % 2 && x % 8 % 4 == x % 4
  {
    var q, r := x / 8, x % 8;
    Remainders(4 * q + r / 2, r % 2);
    Remainders(2 * q + r / 4, r % 4);
  }

  lemma Remainders(k: nat, r: nat)
    ensures r < 2 ==> (2 * k + r) % 2 == r
    ensures r < 4 ==> (4 * k + r) % 4 == r
  {}

  lemma InSquare(u: nat, v: nat)
    requires u < 8 && v < 8
    ensures PassOf(u, v) == ADAM7[v][u]
  {
    if v == 0 {
    } else if v == 1 {
    } else if v == 2 {
    } else if v == 3 {
    } else if v == 4 {
    } else if v == 5 {
    } else if v == 6 {
    }
  }

  /** The column of a pass that x is in, and the row that y is in. */
  function Col(p: nat, x: nat): nat {
    if x < XOrig(p) then 0 else (x - XOrig(p)) / XSpc(p)
  }

  function Line(p: nat, y: nat): nat {
    if y < YOrig(p) then 0 else (y - YOrig(p)) / YSpc(p)
  }

  lemma CountExact(size: nat, orig: nat, spc: nat, i: nat)
    requires spc in {1, 2, 4, 8} && orig < spc && size > 0
    ensures i * spc + orig < size <==> i < Count(size, orig, spc)
    ensures (i * spc + orig - orig) / spc == i
  {
    if spc == 1 {
    } else if spc == 2 {
    } else if spc == 4 {
    }
  }

  /** A pass is the pixels at its spacing from its origin, and the counts are exact: column i and
      row j of the pass are a pixel of a w by h image just when they are within the counts. */
  lemma PassPlace(p: nat, w: nat, h: nat, i: nat, j: nat)
    requires p < PASSES && w > 0 && h > 0
    ensures var x, y := i * XSpc(p) + XOrig(p), j * YSpc(p) + YOrig(p);
            && PassOf(x, y) == p && Col(p, x) == i && Line(p, y) == j
            && (x < w <==> i < PassX(p, w)) && (y < h <==> j < PassY(p, h))
  {
    hide Count, PassOf;
    CountExact(w, XOrig(p), XSpc(p), i);
    CountExact(h, YOrig(p), YSpc(p), j);
    PassOfPlace(p, i, j);
  }

  lemma PassOfPlace(p: nat, i: nat, j: nat)
    requires p < PASSES
    ensures PassOf(i * XSpc(p) + XOrig(p), j * YSpc(p) + YOrig(p)) == p
  {
    Eights(i);
    Eights(j);
    Fours(i);
    Fours(j);
    Twos(i);
    Twos(j);
  }

  lemma Eights(k: nat)
    ensures (k * 8) % 8 == 0 && (k * 8) % 4 == 0 && (k * 8) % 2 == 0
    ensures (k * 8 + 4) % 8 == 4 && (k * 8 + 4) % 4 == 0 && (k * 8 + 4) % 2 == 0
  {
    ByEight(k, 0);
    ByEight(k, 4);
    ByFour(2 * k, 0);
    ByFour(2 * k + 1, 0);
    ByTwo(4 * k, 0);
    ByTwo(4 * k + 2, 0);
  }

  lemma Fours(k: nat)
    ensures (k * 4) % 4 == 0 && (k * 4) % 2 == 0 && (k * 4 + 2) % 4 == 2 && (k * 4 + 2) % 2 == 0
  {
    ByFour(k, 0);
    ByFour(k, 2);
    ByTwo(2 * k, 0);
    ByTwo(2 * k + 1, 0);
  }

  lemma Twos(k: nat)
    ensures (k * 2) % 2 == 0 && (k * 2 + 1) % 2 == 1
  {
    ByTwo(k, 0);
    ByTwo(k, 1);
  }

  lemma ByEight(k: nat, r: nat)
    requires r < 8
    ensures (k * 8 + r) % 8 == r
  {}

  lemma ByFour(k: nat, r: nat)
    requires r < 4
    ensures (k * 4 + r) % 4 == r
  {}

  lemma ByTwo(k: nat, r: nat)
    requires r < 2
    ensures (k * 2 + r) % 2 == r
  {}

  lemma OnGrid(x: nat, orig: nat, spc: nat)
    requires spc in {1, 2, 4, 8} && x % spc == orig
    ensures x >= orig && x == ((x - orig) / spc) * spc + orig
  {
    if spc == 1 {
    } else if spc == 2 {
    } else if spc == 4 {
    }
  }

  lemma PassResidues(x: nat, y: nat)
    ensures var p := PassOf(x, y); x % XSpc(p) == XOrig(p) && y % YSpc(p) == YOrig(p)
  {
    Residues(x);
    Residues(y);
    var p := PassOf(x, y);
    assert XSpc(p) == 1 ==> x % XSpc(p) == 0;
    Doubled(x);
    Doubled(y);
  }

  /** What is even but not twice an odd number is a multiple of four, and so on. */
  lemma Doubled(x: nat)
    ensures x % 2 == 0 && x % 4 != 2 ==> x % 4 == 0
    ensures x % 4 == 0 && x % 8 != 4 ==> x % 8 == 0
    ensures x % 2 != 1 ==> x % 2 == 0
  {}

  /** Every pixel is at some column and row of the pass it belongs to. */
  lemma PassCovers(x: nat, y: nat)
    ensures var p := PassOf(x, y);
            x == Col(p, x) * XSpc(p) + XOrig(p) && y == Line(p, y) * YSpc(p) + YOrig(p)
  {
    hide PassOf;
    var p := PassOf(x, y);
    PassResidues(x, y);
    OnGrid(x, XOrig(p), XSpc(p));
    OnGrid(y, YOrig(p), YSpc(p));
  }

  // The image

  /** The pass's own format: its columns. */
  function PassFormat(fm: Format, p: nat): Format
    requires p < PASSES && fm.x > 0
  {
    fm.(x := PassX(p, fm.x))
  }

  /** Whether a pass has any pixels. */
  predicate HasPixels(fm: Format, h: nat, p: nat)
    requires p < PASSES && fm.x > 0 && h > 0
  {
    PassX(p, fm.x) > 0 && PassY(p, h) > 0
  }

  /** The bytes of a pass's data. */
  function PassLength(fm: Format, h: nat, p: nat): nat
    requires p < PASSES && fm.x > 0 && h > 0
  {
    if HasPixels(fm, h, p) then (WidthBytes(PassFormat(fm, p)) + 1) * PassY(p, h) else 0
  }

  /** Where a pass's data starts. */
  function PassStart(fm: Format, h: nat, p: nat): nat
    requires p <= PASSES && fm.x > 0 && h > 0
  {
    if p == 0 then 0 else PassStart(fm, h, p - 1) + PassLength(fm, h, p - 1)
  }

  /** The data holds pass p, if that has pixels. */
  predicate PassOk(raw: seq<nat>, fm: Format, h: nat, p: nat)
    requires p < PASSES && fm.x > 0 && h > 0
  {
    HasPixels(fm, h, p) ==>
      PassStart(fm, h, p) <= |raw| && Accepts(raw[PassStart(fm, h, p)..], PassFormat(fm, p), PassY(p, h))
  }

  /** Pixel n of a buffer is pixel i of a row. */
  ghost predicate PixelIs(s: seq<nat>, outN: nat, n: nat, row: seq<nat>, i: nat) {
    i * outN + outN <= |row| && n * outN + outN <= |s| && s[n * outN..n * outN + outN] == row[i * outN..i * outN + outN]
  }

  /** The number of pixel (x, y) in rows of w pixels. */
  function PixelNo(w: nat, x: nat, y: nat): nat {
    y * w + x
  }

  /** Nothing but pixel n has changed. */
  ghost predicate OnlyPixel(s: seq<nat>, s': seq<nat>, outN: nat, n: nat) {
    |s| == |s'| && n * outN + outN <= |s| && s'[..n * outN] == s[..n * outN] && s'[n * outN + outN..] == s[n * outN + outN..]
  }

  /** Pixel (x, y) of the image is that of its pass at its column and row. */
  ghost predicate PixelDone(s: seq<nat>, raw: seq<nat>, fm: Format, h: nat, x: nat, y: nat) {
    && Legal(fm) && h > 0
    && var p := PassOf(x, y);
       var pf := PassFormat(fm, p);
       && PassStart(fm, h, p) <= |raw| && Legal(pf) && HasRow(raw[PassStart(fm, h, p)..], pf, Line(p, y))
       && PixelIs(s, OutBytes(fm), PixelNo(fm.x, x, y), OutRow(raw[PassStart(fm, h, p)..], pf, Line(p, y)), Col(p, x))
  }

  /** memcpy of one pixel. */
  method CopyPixel(final: array<nat>, n: nat, out: array<nat>, m: nat, outN: nat, ghost row: seq<nat>, ghost i: nat)
    requires final != out && n * outN + outN <= final.Length && PixelIs(out[..], outN, m, row, i)
    modifies final
    ensures PixelIs(final[..], outN, n, row, i) && OnlyPixel(old(final[..]), final[..], outN, n)
  {
    CopyBytes(final, n * outN, out, m * outN, outN);
  }

  method CopyBytes(final: array<nat>, to: nat, out: array<nat>, from: nat, count: nat)
    requires final != out && to + count <= final.Length && from + count <= out.Length
    modifies final
    ensures final[to..to + count] == out[from..from + count]
    ensures final[..to] == old(final[..to]) && final[to + count..] == old(final[to + count..])
  {
    for k := 0 to count
      invariant forall a :: to <= a < to + k ==> final[a] == out[from..from + count][a - to]
      invariant forall a :: 0 <= a < to || to + k <= a < final.Length ==> final[a] == old(final[a])
    {
      final[to + k] := out[from + k];
    }
  }

  /** Writing one pixel leaves the others. */
  lemma PixelStays(s: seq<nat>, s': seq<nat>, outN: nat, n: nat, m: nat, row: seq<nat>, i: nat)
    requires n != m && PixelIs(s, outN, m, row, i) && OnlyPixel(s, s', outN, n)
    ensures PixelIs(s', outN, m, row, i)
  {
    TimesNext(n, outN);
    TimesNext(m, outN);
    if m < n {
      MulMono(m + 1, n, outN);
    } else {
      MulMono(n + 1, m, outN);
    }
    SliceStays(s, s', n * outN, n * outN + outN, m * outN, outN);
  }

  lemma SliceStays(s: seq<nat>, s': seq<nat>, a: nat, e: nat, b: nat, k: nat)
    requires a <= e <= |s| == |s'| && s'[..a] == s[..a] && s'[e..] == s[e..]
    requires b + k <= |s| && (b + k <= a || e <= b)
    ensures s'[b..b + k] == s[b..b + k]
  {
    if b + k <= a {
      assert s'[..a][b..b + k] == s'[b..b + k] && s[..a][b..b + k] == s[b..b + k];
    } else {
      assert s'[e..][b - e..b - e + k] == s'[b..b + k] && s[e..][b - e..b - e + k] == s[b..b + k];
    }
  }

  /** Different pixels have different numbers, all within the image. */
  lemma PixelNumbers(w: nat, h: nat, x: nat, y: nat, x': nat, y': nat)
    requires x < w && y < h && x' < w && y' < h
    ensures PixelNo(w, x, y) < h * w && (PixelNo(w, x, y) == PixelNo(w, x', y') ==> x == x' && y == y')
  {
    TimesNext(y, w);
    TimesNext(y', w);
    MulMono(y + 1, h, w);
    if y < y' {
      MulMono(y + 1, y', w);
    } else if y' < y {
      MulMono(y' + 1, y, w);
    }
  }

  /** Pixel (x, y) comes before column i of row j of pass p. */
  predicate Earlier(x: nat, y: nat, p: nat, j: nat, i: nat) {
    var q := PassOf(x, y);
    q < p || (q == p && (Line(p, y) < j || (Line(p, y) == j && Col(p, x) < i)))
  }

  /** All pixels of the image before that place are done. */
  ghost predicate DoneUpTo(s: seq<nat>, raw: seq<nat>, fm: Format, h: nat, p: nat, j: nat, i: nat) {
    forall x: nat, y: nat :: x < fm.x && y < h && Earlier(x, y, p, j, i) ==> PixelDone(s, raw, fm, h, x, y)
  }

  /** The pass's image is in a buffer of its own. */
  ghost predicate PassDecoded(s: seq<nat>, raw: seq<nat>, fm: Format, h: nat, p: nat) {
    && Legal(fm) && h > 0 && p < PASSES && HasPixels(fm, h, p) && PassStart(fm, h, p) <= |raw|
    && |s| == PassY(p, h) * Stride(PassFormat(fm, p))
    && forall j :: 0 <= j < PassY(p, h) ==> RowDone(s, raw[PassStart(fm, h, p)..], PassFormat(fm, p), j)
  }

  /** Where pixel i of row j of the pass lies. */
  lemma PassPixel(s: seq<nat>, raw: seq<nat>, fm: Format, h: nat, p: nat, j: nat, i: nat)
    requires PassDecoded(s, raw, fm, h, p) && j < PassY(p, h) && i < PassX(p, fm.x)
    ensures var pf := PassFormat(fm, p);
            && PassStart(fm, h, p) <= |raw| && Legal(pf) && HasRow(raw[PassStart(fm, h, p)..], pf, j)
            && PixelIs(s, OutBytes(fm), PixelNo(pf.x, i, j), OutRow(raw[PassStart(fm, h, p)..], pf, j), i)
  {
    hide OutRow, HasRow, PassX, PassY, EndsAt, PixelIs, PassStart;
    var pf, passRaw := PassFormat(fm, p), raw[PassStart(fm, h, p)..];
    assert RowDone(s, passRaw, pf, j);
    RowSizesOut(passRaw, pf, j);
    PixelOfRow(s, pf.x, OutBytes(fm), j, i, OutRow(passRaw, pf, j));
  }

  lemma PixelOfRow(s: seq<nat>, x: nat, outN: nat, j: nat, i: nat, row: seq<nat>)
    requires |row| == x * outN && EndsAt(s, j * (x * outN) + x * outN, row) && i < x
    ensures PixelIs(s, outN, PixelNo(x, i, j), row, i)
  {
    var stride := x * outN;
    TimesNext(i, outN);
    MulMono(i + 1, x, outN);
    PixelNumber(j, x, i, outN);
    SliceOf(s, j * stride, row, i * outN, outN);
  }

  lemma PixelNumber(j: nat, x: nat, i: nat, outN: nat)
    ensures (j * x + i) * outN == j * (x * outN) + i * outN
  {}

  /** Copying pixel i of row j of the pass to its place. */
  lemma CopyStep(s: seq<nat>, s': seq<nat>, raw: seq<nat>, fm: Format, h: nat, p: nat, j: nat, i: nat, x0: nat, y0: nat)
    requires Legal(fm) && h > 0 && p < PASSES && j < PassY(p, h) && i < PassX(p, fm.x)
    requires x0 == i * XSpc(p) + XOrig(p) && y0 == j * YSpc(p) + YOrig(p) && x0 < fm.x && y0 < h
    requires DoneUpTo(s, raw, fm, h, p, j, i) && PixelDone(s', raw, fm, h, x0, y0)
    requires OnlyPixel(s, s', OutBytes(fm), PixelNo(fm.x, x0, y0))
    ensures DoneUpTo(s', raw, fm, h, p, j, i + 1)
  {
    hide PassOf, PixelDone, Count, PassX, PassY, OnlyPixel;
    forall x: nat, y: nat | x < fm.x && y < h && Earlier(x, y, p, j, i + 1)
      ensures PixelDone(s', raw, fm, h, x, y)
    {
      PassCovers(x, y);
      if Earlier(x, y, p, j, i) {
        PassPlaceOf(p, i, j);
        DoneStays(s, s', raw, fm, h, x, y, x0, y0);
      }
    }
  }

  lemma PassPlaceOf(p: nat, i: nat, j: nat)
    requires p < PASSES
    ensures var x, y := i * XSpc(p) + XOrig(p), j * YSpc(p) + YOrig(p);
            PassOf(x, y) == p && Col(p, x) == i && Line(p, y) == j
  {
    PassPlace(p, 1, 1, i, j);
  }

  lemma DoneStays(s: seq<nat>, s': seq<nat>, raw: seq<nat>, fm: Format, h: nat, x: nat, y: nat, x0: nat, y0: nat)
    requires Legal(fm) && x < fm.x && y < h && x0 < fm.x && y0 < h && (x, y) != (x0, y0)
    requires PixelDone(s, raw, fm, h, x, y) && OnlyPixel(s, s', OutBytes(fm), PixelNo(fm.x, x0, y0))
    ensures PixelDone(s', raw, fm, h, x, y)
  {
    hide PassOf, PixelIs, OutRow, HasRow, PassStart, OnlyPixel, Count;
    PixelNumbers(fm.x, h, x, y, x0, y0);
    var p := PassOf(x, y);
    PixelStays(s, s', OutBytes(fm), PixelNo(fm.x, x0, y0), PixelNo(fm.x, x, y),
               OutRow(raw[PassStart(fm, h, p)..], PassFormat(fm, p), Line(p, y)), Col(p, x));
  }

  /** After a row comes the next, and after the last row of a pass the next pass. */
  lemma RowAndPassEnd(s: seq<nat>, raw: seq<nat>, fm: Format, h: nat, p: nat, j: nat)
    requires Legal(fm) && h > 0 && p < PASSES
    ensures DoneUpTo(s, raw, fm, h, p, j, PassX(p, fm.x)) ==> DoneUpTo(s, raw, fm, h, p, j + 1, 0)
    ensures DoneUpTo(s, raw, fm, h, p, j, 0) && (j >= PassY(p, h) || PassX(p, fm.x) == 0) ==> DoneUpTo(s, raw, fm, h, p + 1, 0, 0)
  {
    hide PassOf, PixelDone, Count, PassX, PassY;
    forall x: nat, y: nat | x < fm.x && y < h && PassOf(x, y) == p
      ensures Col(p, x) < PassX(p, fm.x) && Line(p, y) < PassY(p, h)
    {
      PassCovers(x, y);
      PassPlace(p, fm.x, h, Col(p, x), Line(p, y));
    }
  }

  /** Copies a decoded pass's pixels to their places. */
  method CopyPass(final: array<nat>, out: array<nat>, ghost raw: seq<nat>, fm: Format, h: nat, p: nat)
    requires final != out && PassDecoded(out[..], raw, fm, h, p) && final.Length == h * fm.x * OutBytes(fm)
    requires DoneUpTo(final[..], raw, fm, h, p, 0, 0)
    modifies final
    ensures DoneUpTo(final[..], raw, fm, h, p + 1, 0, 0)
  {
    hide PassDecoded, DoneUpTo, PassX, PassY, Stride, WidthBytes, PassStart;
    assert Legal(fm) && h > 0 && p < PASSES by { DecodedLegal(out[..], raw, fm, h, p); }
    for j := 0 to PassY(p, h)
      invariant DoneUpTo(final[..], raw, fm, h, p, j, 0)
      invariant PassDecoded(out[..], raw, fm, h, p)
    {
      for i := 0 to PassX(p, fm.x)
        invariant DoneUpTo(final[..], raw, fm, h, p, j, i)
        invariant PassDecoded(out[..], raw, fm, h, p)
      {
        CopyOne(final, out, raw, fm, h, p, j, i);
      }
      RowAndPassEnd(final[..], raw, fm, h, p, j);
    }
    RowAndPassEnd(final[..], raw, fm, h, p, PassY(p, h));
  }

  lemma DecodedLegal(s: seq<nat>, raw: seq<nat>, fm: Format, h: nat, p: nat)
    requires PassDecoded(s, raw, fm, h, p)
    ensures Legal(fm) && h > 0 && p < PASSES
  {}

  method CopyOne(final: array<nat>, out: array<nat>, ghost raw: seq<nat>, fm: Format, h: nat, p: nat, j: nat, i: nat)
    requires final != out && PassDecoded(out[..], raw, fm, h, p) && final.Length == h * fm.x * OutBytes(fm)
    requires j < PassY(p, h) && i < PassX(p, fm.x) && DoneUpTo(final[..], raw, fm, h, p, j, i)
    modifies final
    ensures DoneUpTo(final[..], raw, fm, h, p, j, i + 1)
  {
    hide PassDecoded, DoneUpTo, PassX, PassY, Stride, WidthBytes, PassStart, OutRow, HasRow, PixelIs, OnlyPixel,
      Count, PassOf, PixelNo;
    DecodedLegal(out[..], raw, fm, h, p);
    var outY := j * YSpc(p) + YOrig(p);
    var outX := i * XSpc(p) + XOrig(p);
    PassPlace(p, fm.x, h, i, j);
    PassPixel(out[..], raw, fm, h, p, j, i);
    FitsImage(fm, h, outX, outY);
    ghost var s, row := final[..], OutRow(raw[PassStart(fm, h, p)..], PassFormat(fm, p), j);
    CopyPixel(final, PixelNo(fm.x, outX, outY), out, PixelNo(PassX(p, fm.x), i, j), OutBytes(fm), row, i);
    NowDone(final[..], raw, fm, h, p, j, i, outX, outY);
    CopyStep(s, final[..], raw, fm, h, p, j, i, outX, outY);
  }

  lemma FitsImage(fm: Format, h: nat, x: nat, y: nat)
    requires x < fm.x && y < h
    ensures PixelNo(fm.x, x, y) * OutBytes(fm) + OutBytes(fm) <= h * fm.x * OutBytes(fm)
  {
    var n := PixelNo(fm.x, x, y);
    PixelNumbers(fm.x, h, x, y, x, y);
    TimesNext(n, OutBytes(fm));
    MulMono(n + 1, h * fm.x, OutBytes(fm));
  }

  lemma NowDone(s: seq<nat>, raw: seq<nat>, fm: Format, h: nat, p: nat, j: nat, i: nat, x: nat, y: nat)
    requires Legal(fm) && h > 0 && p < PASSES && x == i * XSpc(p) + XOrig(p) && y == j * YSpc(p) + YOrig(p)
    requires PassStart(fm, h, p) <= |raw| && Legal(PassFormat(fm, p)) && HasRow(raw[PassStart(fm, h, p)..], PassFormat(fm, p), j)
    requires PixelIs(s, OutBytes(fm), PixelNo(fm.x, x, y), OutRow(raw[PassStart(fm, h, p)..], PassFormat(fm, p), j), i)
    ensures PixelDone(s, raw, fm, h, x, y)
  {
    hide PassOf, OutRow, HasRow, PixelIs, Count, PassX, PixelNo, WidthBytes, PassStart;
    PassPlaceOf(p, i, j);
  }

  /** The image: as it is, or from its seven passes, which are decoded one by one and fail if one
      of them does. */
  method CreateImage(raw: seq<nat>, fm: Format, h: nat, interlaced: bool) returns (ok: bool, image: array<nat>)
    requires Legal(fm) && h > 0
    ensures !interlaced ==> (ok <==> Accepts(raw, fm, h))
    ensures interlaced ==> (ok <==> forall p :: 0 <= p < PASSES ==> PassOk(raw, fm, h, p))
    ensures ok && !interlaced ==> image.Length == h * Stride(fm) && forall j :: 0 <= j < h ==> RowDone(image[..], raw, fm, j)
    ensures ok && interlaced ==> image.Length == h * fm.x * OutBytes(fm)
    ensures ok && interlaced ==> forall x: nat, y: nat :: x < fm.x && y < h ==> PixelDone(image[..], raw, fm, h, x, y)
  {
    hide RowDone, PixelDone, Stride, WidthBytes, PassX, PassY, GoodFilters, DoneUpTo;
    if !interlaced {
      ok, image := CreateRaw(raw, fm, h);
      return;
    }
    image := new nat[h * fm.x * OutBytes(fm)];
    var at := 0;
    assert DoneUpTo(image[..], raw, fm, h, 0, 0, 0) by { NothingEarlier(image[..], raw, fm, h); }
    for p := 0 to PASSES
      invariant at == PassStart(fm, h, p) <= |raw| && fresh(image)
      invariant forall q :: 0 <= q < p ==> PassOk(raw, fm, h, q)
      invariant DoneUpTo(image[..], raw, fm, h, p, 0, 0)
    {
      if PassX(p, fm.x) > 0 && PassY(p, h) > 0 {
        var imgLen := (WidthBytes(PassFormat(fm, p)) + 1) * PassY(p, h);
        var out;
        ok, out := CreateRaw(raw[at..], PassFormat(fm, p), PassY(p, h));
        if !ok {
          assert !PassOk(raw, fm, h, p);
          return false, image;
        }
        CopyPass(image, out, raw, fm, h, p);
        at := at + imgLen;
      } else {
        RowAndPassEnd(image[..], raw, fm, h, p, 0);
      }
    }
    ok := true;
    AllDone(image[..], raw, fm, h);
  }

  lemma NothingEarlier(s: seq<nat>, raw: seq<nat>, fm: Format, h: nat)
    ensures DoneUpTo(s, raw, fm, h, 0, 0, 0)
  {}

  lemma AllDone(s: seq<nat>, raw: seq<nat>, fm: Format, h: nat)
    requires DoneUpTo(s, raw, fm, h, PASSES, 0, 0)
    ensures forall x: nat, y: nat :: x < fm.x && y < h ==> PixelDone(s, raw, fm, h, x, y)
  {
    hide PixelDone;
    forall x: nat, y: nat | x < fm.x && y < h
      ensures PixelDone(s, raw, fm, h, x, y)
    {
      assert Earlier(x, y, PASSES, 0, 0);
    }
  }
}
