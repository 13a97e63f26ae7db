/** GIF pixels: a linked table of prefixes standing for the string dictionary, and a cursor that
    walks the rows of the image, four interlaced passes or one. Offsets count pixels. */
module GifRaster {
  import opened BitOps
  import opened BitStream
  import opened GifLzw

  // Rows in the order they are drawn

  /** Every s-th row from r on. */
  function RowsFrom(r: nat, s: nat, h: nat): seq<nat>
    requires s > 0
    decreases h - r
  {
    if r >= h then [] else [r] + RowsFrom(r + s, s, h)
  }

  /** The interlaced passes still to come after pass 4 - n. */
  function Passes(n: nat, h: nat): seq<nat>
    requires n <= 3
  {
    if n == 0 then [] else RowsFrom(Pow2(n) / 2, Pow2(n), h) + Passes(n - 1, h)
  }

  /** All rows in drawing order: interlaced, every 8th row, then the 4th of each 8, and so on. */
  function RowOrder(interlaced: bool, h: nat): seq<nat> {
    if interlaced then RowsFrom(0, 8, h) + Passes(3, h) else RowsFrom(0, 1, h)
  }

  /** Row y is in the pass that goes on every s-th row from r. */
  predicate InEvery(r: nat, s: nat, y: nat)
    requires s > 0
  {
    r <= y && (y - r) % s == 0
  }

  lemma {:induction false} RowsFromHas(r: nat, s: nat, h: nat, y: nat)
    requires s > 0
    ensures multiset(RowsFrom(r, s, h))[y] == if y < h && InEvery(r, s, y) then 1 else 0
    decreases h - r
  {
    hide InEvery;
    EveryStep(r, s, y);
    if r < h {
      var rest := RowsFrom(r + s, s, h);
      assert RowsFrom(r, s, h) == [r] + rest;
      RowsFromHas(r + s, s, h, y);
      ConsCount(r, rest, y);
    }
  }

  lemma ConsCount(r: nat, rest: seq<nat>, y: nat)
    ensures multiset([r] + rest)[y] == multiset(rest)[y] + (if y == r then 1 else 0)
  {}

  lemma EveryStep(r: nat, s: nat, y: nat)
    requires s > 0
    ensures InEvery(r, s, y) <==> y == r || InEvery(r + s, s, y)
    ensures InEvery(r + s, s, y) ==> y != r
    ensures y < r ==> !InEvery(r, s, y)
  {
    if r + s <= y {
      StepMod(y - (r + s), s);
    } else if r < y {
      SmallMod(y - r, s);
    }
  }

  lemma StepMod(x: nat, s: nat)
    requires s > 0
    ensures (x + s) % s == x % s
  {
    var q := x / s;
    assert x == q * s + x % s;
    Distribute(q, 1, s);
    assert x + s == (q + 1) * s + x % s;
    ModOf(q + 1, s, x % s);
  }

  lemma ModOf(q: nat, s: nat, r: nat)
    requires r < s
    ensures (q * s + r) % s == r
  {
    var d := (q * s + r) / s;
    if d < q {
      MulMono(d + 1, q, s);
      Distribute(d, 1, s);
    } else if d > q {
      MulMono(q + 1, d, s);
      Distribute(q, 1, s);
    }
  }

  lemma SmallMod(x: nat, s: nat)
    requires 0 < x < s
    ensures x % s == x
  {}

  lemma ThreePasses(h: nat)
    ensures Passes(3, h) == RowsFrom(4, 8, h) + (RowsFrom(2, 4, h) + (RowsFrom(1, 2, h) + []))
  {
    hide RowsFrom;
    assert Passes(1, h) == RowsFrom(1, 2, h) + Passes(0, h);
    assert Passes(2, h) == RowsFrom(2, 4, h) + Passes(1, h);
  }

  /** Drawing order is a permutation of the rows: each is drawn exactly once. */
  lemma EachRowOnce(interlaced: bool, h: nat, y: nat)
    ensures multiset(RowOrder(interlaced, h))[y] == if y < h then 1 else 0
  {
    hide RowsFrom, Passes;
    if interlaced {
      ThreePasses(h);
      var a, b, c, d := RowsFrom(0, 8, h), RowsFrom(4, 8, h), RowsFrom(2, 4, h), RowsFrom(1, 2, h);
      SumOfFour(a, b, c, d, y);
      RowsFromHas(0, 8, h, y);
      RowsFromHas(4, 8, h, y);
      RowsFromHas(2, 4, h, y);
      RowsFromHas(1, 2, h, y);
      PassOf(y);
    } else {
      RowsFromHas(0, 1, h, y);
    }
  }

  lemma SumOfFour(a: seq<nat>, b: seq<nat>, c: seq<nat>, d: seq<nat>, y: nat)
    ensures multiset(a + (b + (c + (d + []))))[y] == multiset(a)[y] + multiset(b)[y] + multiset(c)[y] + multiset(d)[y]
  {}

  /** So no row appears twice in the order, and it only has rows of the image. */
  lemma OrderDistinct(rows: seq<nat>, h: nat)
    requires forall y: nat :: multiset(rows)[y] == if y < h then 1 else 0
    ensures forall i :: 0 <= i < |rows| ==> rows[i] < h
    ensures forall i, j :: 0 <= i < j < |rows| ==> rows[i] != rows[j]
  {
    forall i, j | 0 <= i < j < |rows|
      ensures rows[i] != rows[j]
    {
      if rows[i] == rows[j] {
        TwiceCounts(rows, i, j);
      }
    }
    forall i | 0 <= i < |rows|
      ensures rows[i] < h
    {
      assert rows[i] in multiset(rows);
    }
  }

  lemma TwiceCounts(rows: seq<nat>, i: nat, j: nat)
    requires i < j < |rows| && rows[i] == rows[j]
    ensures multiset(rows)[rows[i]] >= 2
  {
    assert rows == rows[..j] + rows[j..];
    assert rows[..j][i] == rows[i] && rows[j..][0] == rows[j];
    assert rows[i] in multiset(rows[..j]) && rows[j] in multiset(rows[j..]);
  }

  /** Every row belongs to exactly one of the four passes. */
  lemma PassOf(y: nat)
    ensures (if y % 8 == 0 then 1 else 0) + (if y >= 4 && (y - 4) % 8 == 0 then 1 else 0)
          + (if y >= 2 && (y - 2) % 4 == 0 then 1 else 0) + (if y >= 1 && (y - 1) % 2 == 0 then 1 else 0) == 1
  {
    var q, r := y / 8, y % 8;
    SecondPass(q, r);
    ThirdPass(q, r);
    FourthPass(q, r);
  }

  lemma SecondPass(q: nat, r: nat)
    requires r < 8
    ensures 8 * q + r >= 4 ==> ((8 * q + r - 4) % 8 == 0 <==> r == 4)
  {}

  lemma ThirdPass(q: nat, r: nat)
    requires r < 8
    ensures 8 * q + r >= 2 ==> ((8 * q + r - 2) % 4 == 0 <==> r == 2 || r == 6)
  {}

  lemma FourthPass(q: nat, r: nat)
    requires r < 8
    ensures 8 * q + r >= 1 ==> ((8 * q + r - 1) % 2 == 0 <==> r == 1 || r == 3 || r == 5 || r == 7)
  {}

  // Drawing

  datatype Rgba = Rgba(r: byte, g: byte, b: byte, a: byte)

  /** The pixels and which of them this frame has touched. */
  datatype Canvas = Canvas(img: seq<Rgba>, touched: seq<bool>)

  /** Where the next pixel goes: a column and the rows from the current one on. */
  datatype Cursor = Cursor(col: nat, rows: seq<nat>)

  /** The rectangle drawn into: its corner and size within lines of lineSize pixels. */
  datatype Area = Area(lineSize: nat, x: nat, y: nat, w: nat, h: nat)

  function Offset(area: Area, row: nat, col: nat): nat {
    (area.y + row) * area.lineSize + area.x + col
  }

  function Advance(c: Cursor, w: nat): Cursor
    requires c.rows != []
  {
    if c.col + 1 < w then Cursor(c.col + 1, c.rows) else Cursor(0, c.rows[1..])
  }

  /** A palette entry as a pixel: the first and third component change places. */
  function Pixel(color: Rgba): Rgba {
    Rgba(color.b, color.g, color.r, color.a)
  }

  function Put(v: Canvas, at: nat, color: Rgba): Canvas {
    if at < |v.img| == |v.touched| then
      Canvas(if color.a > 128 then v.img[at := Pixel(color)] else v.img, v.touched[at := true])
    else v
  }

  datatype Drawing = Drawing(v: Canvas, c: Cursor)

  /** One colour index: opaque colours are written, transparent ones only noted, and what does
      not fit is dropped. */
  function DrawOne(d: Drawing, pixel: byte, area: Area, palette: seq<Rgba>): Drawing
    requires |palette| == 256
  {
    if d.c.rows == [] then d
    else Drawing(Put(d.v, Offset(area, d.c.rows[0], d.c.col), palette[pixel]), Advance(d.c, area.w))
  }

  /** The drawing after a string of colour indices. */
  function Draw(d: Drawing, pixels: seq<byte>, area: Area, palette: seq<Rgba>): Drawing
    requires |palette| == 256
  {
    if pixels == [] then d
    else DrawOne(Draw(d, pixels[..|pixels| - 1], area, palette), pixels[|pixels| - 1], area, palette)
  }

  lemma {:induction false} DrawAppend(d: Drawing, a: seq<byte>, b: seq<byte>, area: Area, palette: seq<Rgba>)
    requires |palette| == 256
    ensures Draw(d, a + b, area, palette) == Draw(Draw(d, a, area, palette), b, area, palette)
    decreases |b|
  {
    if b == [] {
      assert a + b == a;
    } else {
      assert (a + b)[..|a + b| - 1] == a + b[..|b| - 1];
      DrawAppend(d, a, b[..|b| - 1], area, palette);
    }
  }

  /** The cursor after n pixels: n / w rows down the order, in column n mod w, or past the end. */
  function CursorAfter(rows: seq<nat>, w: nat, n: nat): Cursor
    requires w > 0
  {
    CursorAt(rows, n / w, n % w)
  }

  /** The cursor in column col of the q-th row of the order. */
  function CursorAt(rows: seq<nat>, q: nat, col: nat): Cursor {
    if q < |rows| then Cursor(col, rows[q..]) else Cursor(0, [])
  }

  lemma CursorMoves(rows: seq<nat>, w: nat, q: nat, col: nat)
    requires q < |rows| && col < w
    ensures CursorAt(rows, q, col) == Cursor(col, rows[q..]) && rows[q..][0] == rows[q]
    ensures Advance(CursorAt(rows, q, col), w)
         == CursorAt(rows, if col + 1 < w then q else q + 1, if col + 1 < w then col + 1 else 0)
  {
    assert rows[q..][1..] == rows[q + 1..];
  }

  /** The next pixel's row and column. */
  lemma NextPlace(n: nat, w: nat)
    requires w > 0
    ensures (n + 1) / w == (if n % w + 1 < w then n / w else n / w + 1)
    ensures (n + 1) % w == (if n % w + 1 < w then n % w + 1 else 0)
  {
    var q, r := n / w, n % w;
    assert n == q * w + r;
    Distribute(q, 1, w);
    if r + 1 < w {
      DivMod(n + 1, w, q, r + 1);
    } else {
      DivMod(n + 1, w, q + 1, 0);
    }
  }

  lemma CursorStep(rows: seq<nat>, w: nat, n: nat)
    requires w > 0 && n / w < |rows|
    ensures CursorAfter(rows, w, n) == Cursor(n % w, rows[n / w..]) && rows[n / w..][0] == rows[n / w]
    ensures Advance(CursorAfter(rows, w, n), w) == CursorAfter(rows, w, n + 1)
  {
    hide CursorAt;
    NextPlace(n, w);
    CursorMoves(rows, w, n / w, n % w);
  }

  /** Past the last row the cursor stays. */
  lemma CursorPast(rows: seq<nat>, w: nat, n: nat)
    requires w > 0 && n / w >= |rows|
    ensures CursorAfter(rows, w, n) == CursorAfter(rows, w, n + 1) == Cursor(0, [])
  {
    NextPlace(n, w);
  }

  lemma CursorStart(rows: seq<nat>, w: nat)
    requires w > 0
    ensures CursorAfter(rows, w, 0) == Cursor(0, rows)
  {
    DivMod(0, w, 0, 0);
  }

  lemma DivMod(x: nat, w: nat, q: nat, r: nat)
    requires r < w && x == q * w + r
    ensures x / w == q && x % w == r
  {
    ModOf(q, w, r);
    var d := x / w;
    assert x == d * w + x % w;
    if d < q {
      MulMono(d + 1, q, w);
      Distribute(d, 1, w);
    } else if d > q {
      MulMono(q + 1, d, w);
      Distribute(q, 1, w);
    }
  }

  /** Where the k-th colour index goes: column k mod w of the (k / w)-th row of the order. */
  function Place(rows: seq<nat>, area: Area, k: nat): nat
    requires area.w > 0 && k / area.w < |rows|
  {
    Offset(area, rows[k / area.w], k % area.w)
  }

  /** One of the first n colour indices goes to offset at. */
  ghost predicate Hit(rows: seq<nat>, area: Area, n: nat, at: nat)
    requires area.w > 0
  {
    exists k: nat :: k < n && k / area.w < |rows| && Place(rows, area, k) == at
  }

  ghost predicate SameSize(before: Canvas, v: Canvas) {
    |before.img| == |before.touched| == |v.img| == |v.touched|
  }

  /** The k-th colour index is on the canvas where it belongs: an opaque one as its colour, over
      a transparent one the old pixel still stands. */
  ghost predicate Drawn(before: Canvas, v: Canvas, rows: seq<nat>, k: nat, pixel: byte, area: Area, palette: seq<Rgba>)
    requires |palette| == 256 && area.w > 0 && k / area.w < |rows| && SameSize(before, v)
  {
    var at, color := Place(rows, area, k), palette[pixel];
    && at < |v.img| && v.touched[at]
    && v.img[at] == if color.a > 128 then Rgba(color.b, color.g, color.r, color.a) else before.img[at]
  }

  ghost predicate Kept(before: Canvas, v: Canvas, at: nat)
    requires SameSize(before, v) && at < |v.img|
  {
    v.img[at] == before.img[at] && v.touched[at] == before.touched[at]
  }

  /** The canvas after the given colour indices: those that fit drawn, the rest as it was. */
  ghost predicate Shows(before: Canvas, v: Canvas, rows: seq<nat>, pixels: seq<byte>, area: Area, palette: seq<Rgba>)
    requires |palette| == 256 && area.w > 0
  {
    && SameSize(before, v)
    && (forall k: nat :: k < |pixels| && k / area.w < |rows| ==> Drawn(before, v, rows, k, pixels[k], area, palette))
    && (forall at: nat :: at < |v.img| && !Hit(rows, area, |pixels|, at) ==> Kept(before, v, at))
  }

  /** The pixels drawn: the k-th colour index is at column k mod w of the (k / w)-th row of the
      order, the cursor stands after the last one, and every other pixel of the canvas is as it
      was; indices beyond the area's w pixels per row are dropped. */
  lemma {:induction false} DrawsInOrder(v: Canvas, rows: seq<nat>, pixels: seq<byte>, area: Area, palette: seq<Rgba>)
    requires |palette| == 256 && area.w > 0 && |v.img| == |v.touched|
    requires forall i, j :: 0 <= i < j < |rows| ==> rows[i] != rows[j]
    requires area.x + area.w <= area.lineSize
    requires forall i :: 0 <= i < |rows| ==> Offset(area, rows[i], area.w) <= |v.img|
    ensures var d := Draw(Drawing(v, Cursor(0, rows)), pixels, area, palette);
            d.c == CursorAfter(rows, area.w, |pixels|) && Shows(v, d.v, rows, pixels, area, palette)
    decreases |pixels|
  {
    hide Offset, Shows, CursorAfter, DrawOne;
    if pixels == [] {
      CursorStart(rows, area.w);
      ShowsNothing(v, rows, area, palette);
    } else {
      var n := |pixels| - 1;
      DrawsInOrder(v, rows, pixels[..n], area, palette);
      assert pixels[..n] + [pixels[n]] == pixels;
      DrawsNext(v, Draw(Drawing(v, Cursor(0, rows)), pixels[..n], area, palette), rows, pixels[..n], pixels[n], area, palette);
    }
  }

  lemma DrawsNext(v: Canvas, d: Drawing, rows: seq<nat>, init: seq<byte>, last: byte, area: Area, palette: seq<Rgba>)
    requires |palette| == 256 && area.w > 0 && area.x + area.w <= area.lineSize
    requires forall i, j :: 0 <= i < j < |rows| ==> rows[i] != rows[j]
    requires forall i :: 0 <= i < |rows| ==> Offset(area, rows[i], area.w) <= |v.img|
    requires d.c == CursorAfter(rows, area.w, |init|) && Shows(v, d.v, rows, init, area, palette)
    ensures var d' := DrawOne(d, last, area, palette);
            d'.c == CursorAfter(rows, area.w, |init| + 1) && Shows(v, d'.v, rows, init + [last], area, palette)
  {
    hide Put, Offset, Shows, CursorAfter;
    var n := |init|;
    if n / area.w < |rows| {
      CursorStep(rows, area.w, n);
      OffsetMono(area, rows[n / area.w], n % area.w);
      OneMoreDrawn(v, d.v, rows, init, last, area, palette);
    } else {
      CursorPast(rows, area.w, n);
      OneDropped(v, d.v, rows, init, last, area, palette);
    }
  }

  lemma ShowsNothing(v: Canvas, rows: seq<nat>, area: Area, palette: seq<Rgba>)
    requires |palette| == 256 && area.w > 0 && |v.img| == |v.touched|
    ensures Shows(v, v, rows, [], area, palette)
  {}

  /** Drawing the next colour index keeps the earlier ones in place and the rest as it was. */
  lemma OneMoreDrawn(before: Canvas, v: Canvas, rows: seq<nat>, init: seq<byte>, last: byte, area: Area, palette: seq<Rgba>)
    requires |palette| == 256 && area.w > 0 && area.x + area.w <= area.lineSize
    requires forall i, j :: 0 <= i < j < |rows| ==> rows[i] != rows[j]
    requires |init| / area.w < |rows| && Shows(before, v, rows, init, area, palette)
    requires Place(rows, area, |init|) < |before.img|
    ensures Shows(before, Put(v, Place(rows, area, |init|), palette[last]), rows, init + [last], area, palette)
  {
    hide Offset, Place;
    var n, at, all := |init|, Place(rows, area, |init|), init + [last];
    var v' := Put(v, at, palette[last]);
    forall k: nat | k < n && k / area.w < |rows|
      ensures Place(rows, area, k) != at
    {
      OffsetsDiffer(rows, area, k, n);
    }
    assert !Hit(rows, area, n, at);
    forall k: nat | k < n + 1 && k / area.w < |rows|
      ensures Drawn(before, v', rows, k, all[k], area, palette)
    {
      if k < n {
        assert Drawn(before, v, rows, k, init[k], area, palette);
      }
    }
    forall a: nat | a < |v.img| && !Hit(rows, area, n + 1, a)
      ensures Kept(before, v', a)
    {
      HitLater(rows, area, n, a);
      assert a != at;
    }
  }

  /** Places taken stay taken. */
  lemma HitLater(rows: seq<nat>, area: Area, n: nat, at: nat)
    requires area.w > 0
    ensures Hit(rows, area, n + 1, at)
            <==> Hit(rows, area, n, at) || (n / area.w < |rows| && Place(rows, area, n) == at)
  {
    hide Place;
  }

  lemma OneDropped(before: Canvas, v: Canvas, rows: seq<nat>, init: seq<byte>, last: byte, area: Area, palette: seq<Rgba>)
    requires |palette| == 256 && area.w > 0 && |init| / area.w >= |rows|
    requires Shows(before, v, rows, init, area, palette)
    ensures Shows(before, v, rows, init + [last], area, palette)
  {
    hide Place, Offset;
    forall at: nat | at < |v.img| && !Hit(rows, area, |init| + 1, at)
      ensures Kept(before, v, at)
    {
      HitLater(rows, area, |init|, at);
    }
  }

  lemma CountUpTo(n: nat, y: nat)
    ensures multiset(RowsFrom(0, 1, n))[y] == (if y < n then 1 else 0)
    ensures |RowsFrom(0, 1, n)| == n
  {
    RowsFromHas(0, 1, n, y);
    PlainLength(0, n);
  }

  lemma {:induction false} PlainLength(r: nat, h: nat)
    requires r <= h
    ensures |RowsFrom(r, 1, h)| == h - r
    decreases h - r
  {
    if r < h {
      PlainLength(r + 1, h);
    }
  }

  /** The order has as many rows as the image. */
  lemma OrderLength(interlaced: bool, h: nat)
    ensures |RowOrder(interlaced, h)| == h
  {
    hide RowsFrom, RowOrder;
    forall y: nat
      ensures multiset(RowOrder(interlaced, h))[y] == multiset(RowsFrom(0, 1, h))[y]
    {
      EachRowOnce(interlaced, h, y);
      CountUpTo(h, y);
    }
    CountUpTo(h, 0);
    assert multiset(RowOrder(interlaced, h)) == multiset(RowsFrom(0, 1, h));
    assert |multiset(RowOrder(interlaced, h))| == |RowOrder(interlaced, h)|;
  }

  /** The pass that draws row y of an interlaced image: every 8th row, then the fourth after each,
      then every 4th that is left, then every second. */
  function PassNo(y: nat): nat {
    if y % 8 == 0 then 1 else if y % 8 == 4 then 2 else if y % 4 == 2 then 3 else 4
  }

  /** By pass and within a pass from top to bottom. */
  ghost predicate Ascending(rows: seq<nat>) {
    forall i, j :: 0 <= i < j < |rows| ==>
      PassNo(rows[i]) < PassNo(rows[j]) || (PassNo(rows[i]) == PassNo(rows[j]) && rows[i] < rows[j])
  }

  /** The order of an image's rows: from top to bottom, or interlaced by passes. */
  ghost predicate InOrder(interlaced: bool, rows: seq<nat>, h: nat) {
    && |rows| == h && (forall y: nat :: multiset(rows)[y] == if y < h then 1 else 0)
    && if interlaced then Ascending(rows) else forall k :: 0 <= k < h ==> rows[k] == k
  }

  lemma {:induction false} RowsFromAt(r: nat, s: nat, h: nat, k: nat)
    requires s > 0 && k < |RowsFrom(r, s, h)|
    ensures RowsFrom(r, s, h)[k] == r + k * s
    decreases k
  {
    if k > 0 {
      RowsFromAt(r + s, s, h, k - 1);
      Distribute(k - 1, 1, s);
    }
  }

  /** The rows of a part of the order are of one pass and go downwards. */
  lemma PartAscends(pass: nat, r: nat, s: nat, h: nat)
    requires (pass, r, s) in {(1, 0, 8), (2, 4, 8), (3, 2, 4), (4, 1, 2)}
    ensures Ascending(RowsFrom(r, s, h)) && forall i :: 0 <= i < |RowsFrom(r, s, h)| ==> PassNo(RowsFrom(r, s, h)[i]) == pass
  {
    hide RowsFrom, PassNo;
    var rows := RowsFrom(r, s, h);
    forall i | 0 <= i < |rows|
      ensures PassNo(rows[i]) == pass && rows[i] == r + i * s
    {
      RowsFromAt(r, s, h, i);
      PassAt(pass, r, s, i);
    }
    forall i, j | 0 <= i < j < |rows|
      ensures rows[i] < rows[j]
    {
      MulMono(i + 1, j, s);
      Distribute(i, 1, s);
    }
  }

  lemma PassAt(pass: nat, r: nat, s: nat, i: nat)
    requires (pass, r, s) in {(1, 0, 8), (2, 4, 8), (3, 2, 4), (4, 1, 2)}
    ensures PassNo(r + i * s) == pass
  {
    ModOf(i, s, r);
    if s == 4 {
      FourInEight(i);
    } else if s == 2 {
      TwoInEight(i);
    }
  }

  lemma FourInEight(i: nat)
    ensures (2 + i * 4) % 8 != 0 && (2 + i * 4) % 8 != 4
  {}

  lemma TwoInEight(i: nat)
    ensures (1 + i * 2) % 8 != 0 && (1 + i * 2) % 8 != 4 && (1 + i * 2) % 4 != 2
  {}

  lemma JoinAscends(a: seq<nat>, b: seq<nat>, pass: nat)
    requires Ascending(a) && Ascending(b)
    requires (forall i :: 0 <= i < |a| ==> PassNo(a[i]) == pass) && forall i :: 0 <= i < |b| ==> PassNo(b[i]) > pass
    ensures Ascending(a + b) && forall i :: 0 <= i < |a + b| ==> PassNo((a + b)[i]) >= pass
  {
    hide PassNo;
  }

  /** The drawing order is the one the image calls for. */
  lemma OrderIs(interlaced: bool, h: nat)
    ensures InOrder(interlaced, RowOrder(interlaced, h), h)
  {
    hide RowsFrom, Passes, Ascending, PassNo;
    OrderLength(interlaced, h);
    forall y: nat
      ensures multiset(RowOrder(interlaced, h))[y] == if y < h then 1 else 0
    {
      EachRowOnce(interlaced, h, y);
    }
    if interlaced {
      ThreePasses(h);
      var a, b, c, d := RowsFrom(0, 8, h), RowsFrom(4, 8, h), RowsFrom(2, 4, h), RowsFrom(1, 2, h);
      PartAscends(1, 0, 8, h);
      PartAscends(2, 4, 8, h);
      PartAscends(3, 2, 4, h);
      PartAscends(4, 1, 2, h);
      assert d + [] == d;
      JoinAscends(c, d, 3);
      JoinAscends(b, c + d, 2);
      JoinAscends(a, b + (c + d), 1);
    } else {
      forall k | 0 <= k < h
        ensures RowOrder(false, h)[k] == k
      {
        RowsFromAt(0, 1, h, k);
      }
    }
  }

  /** The offset of a pixel of the image is on its line and in its column of the canvas. */
  lemma OffsetIs(area: Area, row: nat, col: nat)
    requires area.x + col < area.lineSize
    ensures Offset(area, row, col) / area.lineSize == area.y + row && Offset(area, row, col) % area.lineSize == area.x + col
  {
    DivMod(Offset(area, row, col), area.lineSize, area.y + row, area.x + col);
  }

  /** Offset at is one of the image's rectangle. */
  ghost predicate InArea(area: Area, at: nat) {
    exists row: nat, col: nat :: row < area.h && col < area.w && at == Offset(area, row, col)
  }

  /** Decoded pixels fill the image's rectangle: each up to its last lands in its own place, row by
      row from top to bottom or by passes, nothing outside the rectangle changes, and enough of them leave no
      place in it out. */
  lemma DrawsImage(v: Canvas, interlaced: bool, pixels: seq<byte>, area: Area, palette: seq<Rgba>)
    requires |palette| == 256 && area.w > 0 && |v.img| == |v.touched|
    requires area.x + area.w <= area.lineSize && (area.y + area.h) * area.lineSize <= |v.img|
    ensures var rows := RowOrder(interlaced, area.h);
            var d := Draw(Drawing(v, Cursor(0, rows)), pixels, area, palette);
            && InOrder(interlaced, rows, area.h) && Shows(v, d.v, rows, pixels, area, palette)
            && (forall at: nat :: at < |v.img| && !InArea(area, at) ==> Kept(v, d.v, at))
            && (|pixels| >= area.h * area.w ==> forall at: nat :: InArea(area, at) ==> Hit(rows, area, |pixels|, at))
  {
    hide RowOrder, Draw, Drawn, Offset, Kept;
    var rows := RowOrder(interlaced, area.h);
    OrderIs(interlaced, area.h);
    OrderDistinct(rows, area.h);
    forall i | 0 <= i < |rows|
      ensures Offset(area, rows[i], area.w) <= |v.img|
    {
      RowFits(area, rows[i]);
    }
    DrawsInOrder(v, rows, pixels, area, palette);
    forall at: nat | at < |v.img| && !InArea(area, at)
      ensures !Hit(rows, area, |pixels|, at)
    {
      OutsideNotHit(rows, area, |pixels|, at);
    }
    if |pixels| >= area.h * area.w {
      forall at: nat | InArea(area, at)
        ensures Hit(rows, area, |pixels|, at)
      {
        var row: nat, col: nat :| row < area.h && col < area.w && at == Offset(area, row, col);
        assert multiset(rows)[row] == 1;
        assert row in multiset(rows);
        InsideHit(rows, area, |pixels|, row, col);
      }
    }
  }

  lemma InsideHit(rows: seq<nat>, area: Area, n: nat, row: nat, col: nat)
    requires row in rows && col < area.w && n >= |rows| * area.w
    ensures Hit(rows, area, n, Offset(area, row, col))
  {
    hide Offset;
    var i :| 0 <= i < |rows| && rows[i] == row;
    var k := i * area.w + col;
    DivMod(k, area.w, i, col);
    MulMono(i + 1, |rows|, area.w);
    Distribute(i, 1, area.w);
    assert Place(rows, area, k) == Offset(area, row, col);
  }

  lemma OutsideNotHit(rows: seq<nat>, area: Area, n: nat, at: nat)
    requires area.w > 0 && !InArea(area, at) && forall i :: 0 <= i < |rows| ==> rows[i] < area.h
    ensures !Hit(rows, area, n, at)
  {
    hide Offset;
  }

  lemma RowFits(area: Area, row: nat)
    requires row < area.h && area.x + area.w <= area.lineSize
    ensures Offset(area, row, area.w) <= (area.y + area.h) * area.lineSize
  {
    MulMono(area.y + row + 1, area.y + area.h, area.lineSize);
    Distribute(area.y + row, 1, area.lineSize);
  }

  lemma OffsetMono(area: Area, row: nat, col: nat)
    requires col < area.w
    ensures Offset(area, row, col) < Offset(area, row, area.w)
  {}

  /** Different pixels of the area have different offsets. */
  lemma OffsetsDiffer(rows: seq<nat>, area: Area, k: nat, n: nat)
    requires area.w > 0 && area.x + area.w <= area.lineSize && k < n
    requires k / area.w < |rows| && n / area.w < |rows|
    requires forall i, j :: 0 <= i < j < |rows| ==> rows[i] != rows[j]
    ensures Place(rows, area, k) != Place(rows, area, n)
  {
    hide Offset;
    var r, c, s, d := rows[k / area.w], k % area.w, rows[n / area.w], n % area.w;
    if k / area.w == n / area.w {
      SameQuotient(k, n, area.w);
    }
    SpotsDiffer(area, r, c, s, d);
  }

  lemma SpotsDiffer(area: Area, r: nat, c: nat, s: nat, d: nat)
    requires area.x + area.w <= area.lineSize && c < area.w && d < area.w && (r != s || c != d)
    ensures Offset(area, r, c) != Offset(area, s, d)
  {
    hide Offset;
    if r == s {
      SameRow(area, r, c, d);
    } else if r < s {
      LowerRow(area, r, c, s, d);
    } else {
      LowerRow(area, s, d, r, c);
    }
  }

  lemma SameRow(area: Area, row: nat, c: nat, d: nat)
    requires c != d
    ensures Offset(area, row, c) != Offset(area, row, d)
  {}

  /** A pixel of a lower row comes later. */
  lemma LowerRow(area: Area, r: nat, c: nat, s: nat, d: nat)
    requires r < s && c < area.w && area.x + area.w <= area.lineSize
    ensures Offset(area, r, c) < Offset(area, s, d)
  {
    var a, b := area.y + r, area.y + s;
    MulMono(a + 1, b, area.lineSize);
    Distribute(a, 1, area.lineSize);
  }

  lemma SameQuotient(k: nat, n: nat, w: nat)
    requires w > 0 && k < n && k / w == n / w
    ensures k % w != n % w
  {}

  // The decoder

  /** A table entry: the index of the prefix or -1, the string's first byte, and its last. */
  datatype Entry = Entry(prefix: int, first: byte, suffix: byte)

  /** The string an entry links together. */
  function Linked(codes: seq<Entry>, c: nat): seq<byte>
    requires c < |codes|
    decreases c
  {
    if 0 <= codes[c].prefix < c then Linked(codes, codes[c].prefix) + [codes[c].suffix] else [codes[c].suffix]
  }

  /** The entries of the single colours. */
  ghost predicate RootsIn(cs: nat, codes: seq<Entry>) {
    Pow2(cs) + 2 <= |codes| &&
    forall c: nat :: c < Pow2(cs) ==> codes[c] == Entry(-1, (c % 256) as byte, (c % 256) as byte)
  }

  /** The table stands for the dictionary: prefixes point backwards, past the reserved entries,
      and every entry in use links its string together and knows its first byte. */
  ghost predicate Stands(cs: nat, codes: seq<Entry>, d: Dict)
    requires |codes| == TABLE_SIZE
  {
    && |d.strings| <= TABLE_SIZE && RootsIn(cs, codes)
    && forall c: nat :: c < |d.strings| && Proper(cs, c) ==> StandsAt(cs, codes, d, c)
  }

  ghost predicate StandsAt(cs: nat, codes: seq<Entry>, d: Dict, c: nat)
    requires |codes| == TABLE_SIZE && c < |d.strings| <= TABLE_SIZE
  {
    && codes[c].prefix < c
    && (0 <= codes[c].prefix ==> Proper(cs, codes[c].prefix))
    && d.strings[c] != [] && codes[c].first == d.strings[c][0]
    && Linked(codes, c) == d.strings[c]
  }

  /** Entries above c do not matter to c's string. */
  lemma {:induction false} LinkedLocal(codes: seq<Entry>, codes': seq<Entry>, c: nat)
    requires c < |codes| == |codes'| && codes[..c + 1] == codes'[..c + 1]
    ensures Linked(codes, c) == Linked(codes', c)
    decreases c
  {
    assert codes[c] == codes[..c + 1][c] == codes'[..c + 1][c] == codes'[c];
    var p := codes[c].prefix;
    if 0 <= p < c {
      assert codes[..p + 1] == codes[..c + 1][..p + 1] == codes'[..p + 1];
      LinkedLocal(codes, codes', p);
    }
  }

  /** Adding an entry for the last string and this one's first byte is what the dictionary
      learns, whether the code is an old one or the one being defined. */
  lemma LearnStands(cs: nat, codes: seq<Entry>, d: Dict, code: nat, codes': seq<Entry>)
    requires |codes| == TABLE_SIZE && Stands(cs, codes, d) && DictValid(cs, d) && d.last >= 0
    requires Proper(cs, code) && code <= |d.strings| < TABLE_SIZE
    requires var n := |d.strings|;
             codes' == codes[n := Entry(d.last, codes[d.last].first,
                                        if code == n then codes[d.last].first else codes[code].first)]
    ensures Stands(cs, codes', Learn(d, code))
  {
    hide Pow2, Linked;
    var n, d' := |d.strings|, Learn(d, code);
    assert StandsAt(cs, codes, d, d.last);
    forall c: nat | c < |d'.strings| && Proper(cs, c)
      ensures StandsAt(cs, codes', d', c)
    {
      if c < n {
        assert StandsAt(cs, codes, d, c);
        assert codes[..c + 1] == codes'[..c + 1];
        LinkedLocal(codes, codes', c);
      } else {
        assert codes[..d.last + 1] == codes'[..d.last + 1];
        LinkedLocal(codes, codes', d.last);
        LinkedUnfold(codes', n);
        if code < n {
          assert StandsAt(cs, codes, d, code);
        }
      }
    }
  }

  lemma LinkedUnfold(codes: seq<Entry>, c: nat)
    requires c < |codes| && 0 <= codes[c].prefix < c
    ensures Linked(codes, c) == Linked(codes, codes[c].prefix) + [codes[c].suffix]
  {}

  class Gif {
    const out: array<Rgba>
    const history: array<bool>
    const codes: array<Entry>
    const palette: seq<Rgba>
    const area: Area
    const interlaced: bool
    var curX: nat
    var curY: nat
    var step: nat
    var parse: nat
    ghost var cursor: Cursor
    ghost var row: nat
    ghost var rowStep: nat

    const startX: nat
    const startY: nat
    const maxX: nat
    const maxY: nat

    ghost predicate Shape() {
      && out.Length == history.Length && codes.Length == TABLE_SIZE && |palette| == 256
      && area.lineSize > 0 && area.x + area.w <= area.lineSize
      && (area.y + area.h) * area.lineSize <= out.Length
      && startX == area.x && maxX == area.x + area.w
      && startY == area.y * area.lineSize && maxY == (area.y + area.h) * area.lineSize
    }

    /** The offsets describe the cursor: in a row of a pass that goes on every rowStep rows, or
        past the last one. */
    ghost predicate Valid()
      reads this
    {
      && Shape() && parse <= 3 && rowStep > 0
      && if area.w == 0 then cursor.rows == [] && curY >= maxY
         else
           && curY == (area.y + row) * area.lineSize && step == rowStep * area.lineSize
           && cursor.rows == RowsFrom(row, rowStep, area.h) + Passes(parse, area.h)
           && cursor.col < area.w && curX == startX + cursor.col
           && (row >= area.h ==> cursor.rows == [])
    }

    ghost function View(): Canvas
      reads out, history
    {
      Canvas(out[..], history[..])
    }

    ghost function State(): Drawing
      reads this, out, history
    {
      Drawing(View(), cursor)
    }

    constructor (canvas: array<Rgba>, touched: array<bool>, colors: seq<Rgba>, rect: Area, laced: bool)
      requires |colors| == 256 && canvas.Length == touched.Length
      requires rect.lineSize > 0 && rect.x + rect.w <= rect.lineSize
      requires (rect.y + rect.h) * rect.lineSize <= canvas.Length
      ensures Valid() && out == canvas && history == touched && palette == colors && area == rect
      ensures fresh(codes)
      ensures cursor == Cursor(0, if rect.w == 0 then [] else RowOrder(laced, rect.h))
    {
      Pow2Values();
      out, history, palette, area, interlaced := canvas, touched, colors, rect, laced;
      codes := new Entry[TABLE_SIZE](_ => Entry(-1, 0, 0));
      startX := rect.x;
      startY := rect.y * rect.lineSize;
      maxX := rect.x + rect.w;
      maxY := (rect.y + rect.h) * rect.lineSize;
      curX := rect.x;
      curY := if rect.w == 0 then (rect.y + rect.h) * rect.lineSize else rect.y * rect.lineSize;
      step := if laced then 8 * rect.lineSize else rect.lineSize;
      parse := if laced then 3 else 0;
      cursor := Cursor(0, if rect.w == 0 then [] else RowOrder(laced, rect.h));
      row := 0;
      rowStep := if laced then 8 else 1;
      new;
      NoRows(laced);
    }

    /** Moves down to the next row of this pass, or to the first row of a later one. */
    method NextRow()
      requires Shape() && parse <= 3 && area.w > 0 && rowStep > 0
      requires curY == (area.y + row) * area.lineSize && step == rowStep * area.lineSize && row < area.h
      modifies this`curY, this`step, this`parse, this`row, this`rowStep
      ensures parse <= 3 && rowStep > 0
      ensures curY == (area.y + row) * area.lineSize && step == rowStep * area.lineSize
      ensures RowsFrom(row, rowStep, area.h) + Passes(parse, area.h)
           == old(RowsFrom(row, rowStep, area.h) + Passes(parse, area.h))[1..]
      ensures row >= area.h ==> parse == 0
    {
      hide RowsFrom, Passes, Pow2;
      ghost var todo := RowsFrom(row, rowStep, area.h) + Passes(parse, area.h);
      RowUnfold(row, rowStep, area.h, parse);
      RowsLeft(row, rowStep, area.h, parse);
      Distribute(area.y + row, rowStep, area.lineSize);
      curY := curY + step;
      row := row + rowStep;
      RowTest(area, row);
      while curY >= maxY && parse > 0
        invariant parse <= 3 && rowStep > 0
        invariant curY == (area.y + row) * area.lineSize && step == rowStep * area.lineSize
        invariant curY >= maxY <==> row >= area.h
        invariant RowsFrom(row, rowStep, area.h) + Passes(parse, area.h) == todo[1..]
        decreases parse
      {
        PassUnfold(row, rowStep, area.h, parse);
        PassStep(area, parse);
        step := Shl(1, parse) * area.lineSize;
        curY := startY + step / 2;
        rowStep := Pow2(parse);
        row := Pow2(parse) / 2;
        parse := parse - 1;
        RowTest(area, row);
      }
    }

    /** Draws one colour index at the cursor and moves on. */
    method Plot(suffix: byte)
      requires Valid()
      modifies this`curX, this`curY, this`step, this`parse, this`cursor, this`row, this`rowStep, out, history
      ensures Valid() && State() == DrawOne(old(State()), suffix, area, palette)
    {
      hide RowsFrom, Passes, Pow2;
      RowTest(area, row);
      RowsLeft(row, rowStep, area.h, parse);
      if curY >= maxY {
        return;
      }
      OffsetWithin(area, row, cursor.col);
      var idx := curX + curY;
      assert idx == Offset(area, cursor.rows[0], cursor.col) < out.Length;
      var c := palette[suffix];
      history[idx] := true;
      if c.a > 128 {
        out[idx] := Rgba(c.b, c.g, c.r, c.a);
      }
      curX := curX + 1;
      ghost var rest := cursor.rows[1..];
      if curX >= maxX {
        curX := startX;
        NextRow();
        cursor := Cursor(0, rest);
        RowsLeft(row, rowStep, area.h, parse);
      } else {
        cursor := cursor.(col := cursor.col + 1);
      }
    }

    /** Draws the string linked at code, prefix first. The recursion ends because prefixes
        point backwards. */
    method OutCode(code: nat, ghost cs: nat, ghost d: Dict)
      requires Valid() && Proper(cs, code) && code < |d.strings| && Stands(cs, codes[..], d)
      modifies this`curX, this`curY, this`step, this`parse, this`cursor, this`row, this`rowStep, out, history
      ensures Valid() && State() == Draw(old(State()), d.strings[code], area, palette)
      decreases code
    {
      hide Linked, DrawOne, Pow2, RowsFrom, Passes;
      assert StandsAt(cs, codes[..], d, code);
      LinkedCases(codes[..], code);
      ghost var before := State();
      if codes[code].prefix >= 0 {
        OutCode(codes[code].prefix, cs, d);
        assert StandsAt(cs, codes[..], d, codes[code].prefix);
      }
      DrawLast(before, d.strings[code], area, palette);
      Plot(codes[code].suffix);
    }

    /** Sets up the table's roots: entry i stands for colour i. */
    method InitCodes(cs: nat)
      requires Shape() && cs <= 12
      modifies codes
      ensures Stands(cs, codes[..], Cleared(cs))
    {
      Pow2Values();
      Pow2Monotone(cs, 12);
      ShlMul(1, cs);
      var clear := Shl(1, cs);
      for i := 0 to clear
        invariant forall c: nat :: c < i ==> codes[c] == Entry(-1, (c % 256) as byte, (c % 256) as byte)
      {
        codes[i] := Entry(-1, (i % 256) as byte, (i % 256) as byte);
      }
      RootsStand(cs, codes[..]);
    }

    /** Adds the entry for the last string and this one's first byte. */
    method AddEntry(oldcode: nat, code: nat, avail: nat, ghost cs: nat, ghost d: Dict)
      requires Shape() && DictValid(cs, d) && Stands(cs, codes[..], d)
      requires d.last == oldcode && avail == |d.strings| < TABLE_SIZE && Proper(cs, code) && code <= avail
      modifies codes
      ensures Stands(cs, codes[..], Learn(d, code))
    {
      hide Linked, Pow2;
      ghost var before := codes[..];
      var first := codes[oldcode].first;
      codes[avail] := codes[avail].(prefix := oldcode);
      codes[avail] := codes[avail].(first := first);
      // The source compares code with the count already advanced, which no code reaches: a code
      // naming the new entry reads the first byte just stored there.
      assert code != avail + 1;
      codes[avail] := codes[avail].(suffix := codes[code].first);
      LearnStands(cs, before, d, code, codes[..]);
    }

    /** A data code: defines the next entry if a code came before, and draws the code's string. */
    method DataCode(code: nat, avail: nat, oldcode: int, first: bool, ghost cs: nat, ghost d: Dict)
        returns (ok: bool, avail': nat)
      requires Valid() && DictValid(cs, d) && Stands(cs, codes[..], d) && Proper(cs, code)
      requires d.last == oldcode && avail == |d.strings| && code <= avail
      modifies codes, this`curX, this`curY, this`step, this`parse, this`cursor, this`row, this`rowStep, out, history
      ensures Valid()
      ensures ok <==> !first && !(oldcode < 0 && code == avail) && !(oldcode >= 0 && avail == TABLE_SIZE)
      ensures !ok ==> State() == old(State())
      ensures ok ==> DictValid(cs, Learn(d, code)) && Stands(cs, codes[..], Learn(d, code))
                     && avail' == |Learn(d, code).strings|
                     && State() == Draw(old(State()), StringOf(d, code), area, palette)
    {
      hide Linked, Pow2, Draw, Stands, RowsFrom, Passes;
      avail' := avail;
      StandsFirst(cs, codes[..], d, code);
      if first {
        return false, avail;
      }
      if oldcode >= 0 {
        avail' := avail + 1;
        if avail' > 8192 {
          return false, avail';
        }
        AddEntry(oldcode, code, avail, cs, d);
      } else if code == avail {
        return false, avail;
      }
      LearnValid(cs, d, code);
      OutCode(code, cs, Learn(d, code));
      ok := true;
    }

    /** Decodes the raster data at position p of the input and draws it: what the format says
        the codes stand for, up to the first code it does not allow. */
    method ProcessRaster(input: seq<byte>, p: nat) returns (ok: bool)
      requires Valid()
      modifies codes, this`curX, this`curY, this`step, this`parse, this`cursor, this`row, this`rowStep, out, history
      ensures Valid()
      ensures ok == Raster(input, p).ok
      ensures State() == Draw(old(State()), Raster(input, p).pixels, area, palette)
    {
      hide Draw, Codes, Cleared, Unblock, Stands;
      var src := new CodeReader(input, p);
      var cs := src.Get8();
      if cs > 12 {
        DrawNothing(State(), area, palette);
        return false;
      }
      src.Start();
      InitCodes(cs);
      ok := ProcessCodes(cs, src);
    }

    /** One code. Unless it ends the image, the format goes on from the new table and width, and
        what has been drawn is the code's string. */
    method HandleCode(code: nat, codesize: nat, avail: nat, oldcode: int, first: bool,
                      cs: nat, clear: nat, ghost data: seq<byte>, ghost p: nat, ghost d: Dict)
        returns (done: bool, ok: bool, codesize': nat, avail': nat, oldcode': int, first': bool,
                 ghost d': Dict, ghost drawn: seq<byte>)
      requires Valid() && cs <= 12 && cs < codesize <= 13 && clear == Pow2(cs)
      requires DictValid(cs, d) && Stands(cs, codes[..], d) && d.last == oldcode && avail == |d.strings|
      requires p + codesize <= 8 * |data| && code == Bits(data, p, codesize)
      modifies codes, this`curX, this`curY, this`step, this`parse, this`cursor, this`row, this`rowStep, out, history
      ensures Valid()
      ensures var o := Codes(cs, data, p, codesize, d, !first);
              if done then ok == o.ok && State() == Draw(old(State()), o.pixels, area, palette)
              else
                && cs < codesize' <= 13 && DictValid(cs, d') && Stands(cs, codes[..], d')
                && d'.last == oldcode' && avail' == |d'.strings|
                && State() == Draw(old(State()), drawn, area, palette)
                && var rest := Codes(cs, data, p + codesize, codesize', d', !first');
                   o.ok == rest.ok && o.pixels == drawn + rest.pixels
    {
      hide Pow2, Draw, Stands, RowsFrom, Passes, Bits, Codes, Learn, StringOf, Cleared, Low, And, Shl;
      CodesStep(cs, data, p, codesize, d, !first);
      DrawNothing(State(), area, palette);
      done, ok, codesize', avail', oldcode', first' := true, false, codesize, avail, oldcode, first;
      d', drawn := d, [];
      if code == clear {
        done, codesize', avail', oldcode', first' := false, cs + 1, clear + 2, -1, false;
        StandsCleared(cs, codes[..], d);
        ClearedValid(cs);
        ClearedSize(cs);
        d' := Cleared(cs);
        EmptyPrefix(Codes(cs, data, p, codesize, d, !first).pixels);
      } else if code == clear + 1 {
        ok := true;
      } else if code <= avail {
        ok, avail' := DataCode(code, avail, oldcode, first, cs, d);
        if ok {
          LearnValid(cs, d, code);
          done, oldcode', d', drawn := false, code, Learn(d, code), StringOf(d, code);
          WidthTest(codesize, avail');
          if And(avail', Shl(1, codesize) - 1) == 0 && avail' <= 0x0fff {
            codesize' := codesize + 1;
          }
        }
      }
    }

    /** The codes up to the end code, the end of the data, or one that is not allowed. */
    method ProcessCodes(cs: nat, src: CodeReader) returns (ok: bool)
      requires Valid() && cs <= 12 && Stands(cs, codes[..], Cleared(cs))
      requires src.Valid() && src.Position() == 0 && src.validBits == 0
      modifies src, codes, this`curX, this`curY, this`step, this`parse, this`cursor, this`row, this`rowStep, out, history
      ensures Valid()
      ensures var o := Codes(cs, old(src.data), 0, cs + 1, Cleared(cs), false);
              ok == o.ok && State() == Draw(old(State()), o.pixels, area, palette)
    {
      hide Pow2, Draw, Stands, RowsFrom, Passes, Bits, Codes, Learn, StringOf, Cleared, Shl, Unblock, Take, DictValid;
      ghost var data := src.data;
      ghost var start, o := State(), Codes(cs, data, 0, cs + 1, Cleared(cs), false);
      ShlMul(1, cs);
      var clear := Shl(1, cs);
      var first, codesize := true, cs + 1;
      var avail: nat, oldcode: int := clear + 2, -1;
      ghost var d, drawn: seq<byte> := Cleared(cs), [];
      ClearedValid(cs);
      ClearedSize(cs);
      DrawNothing(start, area, palette);
      EmptyPrefix(o.pixels);
      while true
        invariant Valid() && src.Valid() && src.data == data && src.validBits < codesize + 8
        invariant cs < codesize <= 13
        invariant DictValid(cs, d) && Stands(cs, codes[..], d) && d.last == oldcode && avail == |d.strings|
        invariant State() == Draw(start, drawn, area, palette)
        invariant var rest := Codes(cs, data, src.Position(), codesize, d, !first);
                  o.ok == rest.ok && o.pixels == drawn + rest.pixels
        decreases |data| - src.taken, src.validBits
      {
        if src.validBits < codesize {
          CodesStep(cs, data, src.Position(), codesize, d, !first);
          var more := src.Refill();
          if !more {
            EmptySuffix(drawn);
            return true;
          }
        } else {
          ghost var p, before, rest := src.Position(), drawn, Codes(cs, data, src.Position(), codesize, d, !first);
          var code := src.ReadCode(codesize);
          var done;
          ghost var piece;
          done, ok, codesize, avail, oldcode, first, d, piece :=
            HandleCode(code, codesize, avail, oldcode, first, cs, clear, data, p, d);
          if done {
            DrawAppend(start, before, rest.pixels, area, palette);
            return;
          }
          DrawAppend(start, before, piece, area, palette);
          drawn := before + piece;
        }
      }
    }
  }

  lemma EmptyPrefix(s: seq<byte>)
    ensures [] + s == s
  {}

  lemma EmptySuffix(s: seq<byte>)
    ensures s + [] == s
  {}

  lemma WidthTest(codesize: nat, avail: nat)
    ensures Shl(1, codesize) == Pow2(codesize)
    ensures And(avail, Pow2(codesize) - 1) == Low(avail, codesize)
    ensures codesize <= 13 && avail > 0 ==> NextWidth(codesize, avail) <= 13
  {
    hide Low, And, Shl, Pow2;
    Pow2Values();
    if codesize == 13 && avail <= 0x0fff {
      LowShort(avail, 13);
    }
    AndMask(avail, codesize);
    ShlMul(1, codesize);
  }

  /** The first code after a clear defines nothing. */
  lemma StandsFirst(cs: nat, codes: seq<Entry>, d: Dict, code: nat)
    requires |codes| == TABLE_SIZE && Stands(cs, codes, d) && DictValid(cs, d) && code <= |d.strings|
    ensures |d.strings| <= TABLE_SIZE
    ensures d.last < 0 && code < |d.strings| ==> Stands(cs, codes, Learn(d, code))
  {
    hide Linked;
    if d.last < 0 && code < |d.strings| {
      forall c: nat | c < |d.strings| && Proper(cs, c)
        ensures StandsAt(cs, codes, Learn(d, code), c)
      {
        assert StandsAt(cs, codes, d, c);
      }
    }
  }

  lemma DrawNothing(d: Drawing, area: Area, palette: seq<Rgba>)
    requires |palette| == 256
    ensures Draw(d, [], area, palette) == d
  {}

  lemma ClearedSize(cs: nat)
    ensures |Cleared(cs).strings| == Pow2(cs) + 2 && Cleared(cs).last == -1
  {}

  /** Clearing keeps the roots, which no entry ever replaces. */
  lemma StandsCleared(cs: nat, codes: seq<Entry>, d: Dict)
    requires |codes| == TABLE_SIZE && DictValid(cs, d) && Stands(cs, codes, d)
    ensures Stands(cs, codes, Cleared(cs))
  {
    RootsStand(cs, codes);
  }

  lemma RootsStand(cs: nat, codes: seq<Entry>)
    requires |codes| == TABLE_SIZE && RootsIn(cs, codes)
    ensures Stands(cs, codes, Cleared(cs))
  {
    var d := Cleared(cs);
    forall c: nat | c < |d.strings| && Proper(cs, c)
      ensures StandsAt(cs, codes, d, c)
    {
      assert c < Pow2(cs);
      assert d.strings[c] == Roots(Pow2(cs))[c] == [(c % 256) as byte];
    }
  }

  lemma NoRows(laced: bool)
    ensures RowOrder(laced, 0) == []
  {
    assert RowsFrom(2, 4, 0) == [] && RowsFrom(1, 2, 0) == [] && RowsFrom(4, 8, 0) == [];
    if laced {
      ThreePasses(0);
    }
  }

  lemma RowTest(area: Area, row: nat)
    requires area.lineSize > 0
    ensures (area.y + row) * area.lineSize >= (area.y + area.h) * area.lineSize <==> row >= area.h
  {
    if row >= area.h {
      MulMono(area.y + area.h, area.y + row, area.lineSize);
    } else {
      MulMono(area.y + row + 1, area.y + area.h, area.lineSize);
      Distribute(area.y + row, 1, area.lineSize);
    }
  }

  lemma RowUnfold(row: nat, s: nat, h: nat, parse: nat)
    requires s > 0 && row < h && parse <= 3
    ensures RowsFrom(row + s, s, h) + Passes(parse, h) == (RowsFrom(row, s, h) + Passes(parse, h))[1..]
  {}

  lemma PassUnfold(row: nat, s: nat, h: nat, parse: nat)
    requires s > 0 && row >= h && 0 < parse <= 3
    ensures RowsFrom(row, s, h) + Passes(parse, h)
         == RowsFrom(Pow2(parse) / 2, Pow2(parse), h) + Passes(parse - 1, h)
  {}

  lemma RowsLeft(row: nat, s: nat, h: nat, parse: nat)
    requires s > 0 && parse <= 3
    ensures row < h ==> RowsFrom(row, s, h) + Passes(parse, h) != []
    ensures row < h ==> (RowsFrom(row, s, h) + Passes(parse, h))[0] == row
    ensures row >= h && parse == 0 ==> RowsFrom(row, s, h) + Passes(parse, h) == []
  {}

  lemma PassStep(area: Area, parse: nat)
    requires 0 < parse
    ensures Shl(1, parse) == Pow2(parse)
    ensures area.y * area.lineSize + (Pow2(parse) * area.lineSize) / 2 == (area.y + Pow2(parse) / 2) * area.lineSize
  {
    var q := Pow2(parse - 1);
    ShlMul(1, parse);
    Double(area.lineSize, q);
    assert Pow2(parse) * area.lineSize == 2 * (q * area.lineSize);
    Distribute(area.y, q, area.lineSize);
  }

  lemma OffsetWithin(area: Area, row: nat, col: nat)
    requires row < area.h && col < area.w && area.x + area.w <= area.lineSize
    ensures Offset(area, row, col) < (area.y + area.h) * area.lineSize
  {
    MulMono(area.y + row + 1, area.y + area.h, area.lineSize);
    Distribute(area.y + row, 1, area.lineSize);
  }

  lemma LinkedCases(codes: seq<Entry>, c: nat)
    requires c < |codes| && codes[c].prefix < c
    ensures Linked(codes, c) == if 0 <= codes[c].prefix then Linked(codes, codes[c].prefix) + [codes[c].suffix]
                                else [codes[c].suffix]
  {}

  lemma DrawLast(d: Drawing, s: seq<byte>, area: Area, palette: seq<Rgba>)
    requires |palette| == 256 && s != []
    ensures Draw(d, s, area, palette) == DrawOne(Draw(d, s[..|s| - 1], area, palette), s[|s| - 1], area, palette)
    ensures |s| == 1 ==> Draw(d, s[..|s| - 1], area, palette) == d
  {}
}
