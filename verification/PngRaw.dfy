/** The image, or one pass of an interlaced image, from its inflated data. */
module PngRaw {
  import opened BitOps
  import opened PngFilters
  import opened PngPixels
  import opened PngImage
  import opened PngExpand

  /** Channels in the data and in the output, pixels in a row, bits of a sample, and colour type. */
  datatype Format = Format(imgN: nat, outN: nat, x: nat, depth: nat, color: nat)

  /** What the decoder can be called with: alpha is added or not, rows of small samples take no
      more bytes than they have pixels, and alpha is added to those of one or three channels. */
  predicate Legal(fm: Format) {
    && 1 <= fm.imgN <= 4 && (fm.outN == fm.imgN || fm.outN == fm.imgN + 1) && fm.x > 0
    && fm.depth in {1, 2, 4, 8, 16}
    && (fm.depth < 8 ==> fm.imgN * fm.depth <= 8 && (fm.outN == fm.imgN || fm.imgN in {1, 3}))
  }

  const DEPTH_SCALE_TABLE: seq<nat> := [0, 0xff, 0x55, 0, 0x11, 0, 0, 0, 0x01]

  function Scale(fm: Format): nat
    requires fm.depth < 8
  {
    if fm.color == 0 then DEPTH_SCALE_TABLE[fm.depth] else 1
  }

  /** Grey samples fill the whole range of a byte: the largest becomes 255. */
  lemma ScaleFills(fm: Format)
    requires Legal(fm) && fm.color == 0 && fm.depth < 8
    ensures fm.depth == 1 ==> Scale(fm) * 1 == 255
    ensures fm.depth == 2 ==> Scale(fm) * 3 == 255
    ensures fm.depth == 4 ==> Scale(fm) * 15 == 255
  {}

  function SampleBytes(fm: Format): nat {
    if fm.depth == 16 then 2 else 1
  }

  /** How far back the filters look. */
  function Bpp(fm: Format): nat {
    if fm.depth < 8 then 1 else fm.imgN * SampleBytes(fm)
  }

  /** The bytes of an output pixel. */
  function OutBytes(fm: Format): nat {
    fm.outN * SampleBytes(fm)
  }

  function WidthBytes(fm: Format): nat {
    (fm.imgN * fm.x * fm.depth + 7) / 8
  }

  function Stride(fm: Format): nat {
    fm.x * OutBytes(fm)
  }

  /** The samples of a row. */
  function RowSamples(fm: Format): nat {
    fm.x * fm.imgN
  }

  lemma Widths(fm: Format)
    requires Legal(fm)
    ensures Bpp(fm) > 0 && WidthBytes(fm) > 0 && Stride(fm) > 0
    ensures fm.depth >= 8 ==> WidthBytes(fm) == fm.x * Bpp(fm)
    ensures fm.depth >= 8 ==> OutBytes(fm) == if fm.imgN == fm.outN then Bpp(fm) else Bpp(fm) + SampleBytes(fm)
    ensures fm.depth < 8 ==> WidthBytes(fm) == PackedBytes(RowSamples(fm), fm.depth) <= fm.x
                             && RowSamples(fm) <= WidthBytes(fm) * PerByte(fm.depth)
    ensures Bpp(fm) <= WidthBytes(fm) <= Stride(fm) && RowSamples(fm) <= Stride(fm)
  {
    hide PackedBytes, PerByte, WidthBytes, Bpp, OutBytes;
    Products(fm);
    if fm.depth >= 8 {
      WidthsFull(fm);
      Grows(Bpp(fm), 1, fm.x);
      Grows(fm.x, Bpp(fm), OutBytes(fm));
    } else {
      WidthsSmall(fm);
    }
  }

  /** A row of the output has room for all its samples. */
  lemma Products(fm: Format)
    requires Legal(fm)
    ensures Bpp(fm) > 0 && OutBytes(fm) >= fm.imgN && fm.x <= Stride(fm)
    ensures fm.x <= RowSamples(fm) <= Stride(fm)
  {
    hide Stride;
    assert Stride(fm) == fm.x * OutBytes(fm) by { StrideIs(fm); }
    Grows(fm.x, 1, fm.imgN);
    Grows(fm.x, 1, OutBytes(fm));
    Grows(fm.x, fm.imgN, OutBytes(fm));
  }

  lemma StrideIs(fm: Format)
    ensures Stride(fm) == fm.x * OutBytes(fm)
  {}

  lemma WidthsFull(fm: Format)
    requires Legal(fm) && fm.depth >= 8
    ensures WidthBytes(fm) == fm.x * Bpp(fm)
    ensures OutBytes(fm) == if fm.imgN == fm.outN then Bpp(fm) else Bpp(fm) + SampleBytes(fm)
  {
    FullWidth(fm.imgN, fm.x);
  }

  lemma WidthsSmall(fm: Format)
    requires Legal(fm) && fm.depth < 8 && RowSamples(fm) > 0
    ensures 0 < WidthBytes(fm) == PackedBytes(RowSamples(fm), fm.depth) <= fm.x && Bpp(fm) == 1
    ensures RowSamples(fm) <= WidthBytes(fm) * PerByte(fm.depth)
  {
    hide PackedBytes, PerByte, Bpp;
    assert fm.imgN * fm.x == RowSamples(fm);
    SmallWidth(RowSamples(fm), fm.depth);
    SmallRowsFit(fm);
    assert Bpp(fm) == 1 by { OneBack(fm); }
  }

  lemma OneBack(fm: Format)
    requires fm.depth < 8
    ensures Bpp(fm) == 1
  {}

  lemma FullWidth(n: nat, x: nat)
    ensures (n * x * 8 + 7) / 8 == x * (n * 1) && (n * x * 16 + 7) / 8 == x * (n * 2)
  {
    var m := n * x;
    assert (m * 8 + 7) / 8 == m && (m * 16 + 7) / 8 == 2 * m;
    assert x * (n * 2) == 2 * m;
  }

  lemma SmallWidth(samples: nat, depth: nat)
    requires samples > 0 && depth in {1, 2, 4}
    ensures (samples * depth + 7) / 8 == PackedBytes(samples, depth) > 0
    ensures samples <= PackedBytes(samples, depth) * PerByte(depth)
  {
    PackedBounds(samples, depth);
  }

  lemma Grows(x: nat, a: nat, b: nat)
    requires a <= b
    ensures x * a <= x * b
  {}

  /** A row of small samples takes no more bytes than it has pixels, as the decoder asserts,
      exactly when a pixel fits a byte. */
  lemma SmallRowsFit(fm: Format)
    requires fm.x > 0 && fm.depth < 8
    ensures WidthBytes(fm) <= fm.x <==> fm.imgN * fm.depth <= 8
  {
    var m := fm.imgN * fm.depth;
    PixelBits(fm.imgN, fm.x, fm.depth);
    if m <= 8 {
      Grows(fm.x, m, 8);
    } else {
      Grows(fm.x, 9, m);
    }
  }

  lemma PixelBits(n: nat, x: nat, depth: nat)
    ensures n * x * depth == x * (n * depth)
  {}

  // What the header's parser lets through

  /** The colour types: grey, colour, palette, and the first two with alpha. */
  predicate HeaderAccepts(depth: nat, color: nat) {
    depth in {1, 2, 4, 8, 16} && color in {0, 2, 3, 4, 6} && !(color == 3 && depth == 16)
  }

  /** The channels in the data: one byte of a palette image is an index. */
  function Channels(color: nat): nat {
    if color == 3 then 1 else (if (color / 2) % 2 == 1 then 3 else 1) + (if (color / 4) % 2 == 1 then 1 else 0)
  }

  /** The channels asked of the decoder: one more for a transparent colour, or where the caller
      wants alpha and the image has none. */
  predicate Asked(color: nat, outN: nat) {
    outN == Channels(color) || (Channels(color) in {1, 3} && outN == Channels(color) + 1)
  }

  /** Of what the parser lets through, the decoder's assertion on rows of small samples fails on
      colour images of four bits a sample, with or without alpha, at any width, and on nothing else. */
  lemma AssertionHolds(depth: nat, color: nat, outN: nat, x: nat)
    requires HeaderAccepts(depth, color) && Asked(color, outN) && x > 0
    ensures var fm := Format(Channels(color), outN, x, depth, color);
            && (depth < 8 && WidthBytes(fm) > x <==> depth == 4 && color in {2, 6})
            && (Legal(fm) <==> !(depth == 4 && color in {2, 6}))
  {
    var fm := Format(Channels(color), outN, x, depth, color);
    if depth < 8 {
      SmallRowsFit(fm);
    }
  }

  /** The data holds y rows, each led by one of the five filters. */
  predicate Accepts(raw: seq<nat>, fm: Format, y: nat) {
    (WidthBytes(fm) + 1) * y <= |raw| && GoodFilters(raw, WidthBytes(fm), y)
  }

  /** The byte that leads row j. */
  function FilterOf(raw: seq<nat>, width: nat, j: nat): nat {
    if j * (width + 1) < |raw| then raw[j * (width + 1)] else 0
  }

  predicate GoodFilters(raw: seq<nat>, width: nat, y: nat) {
    forall j :: 0 <= j < y ==> FilterOf(raw, width, j) <= 4
  }

  /** The data is long enough for row r. */
  predicate HasRow(raw: seq<nat>, fm: Format, r: nat) {
    (r + 1) * (WidthBytes(fm) + 1) <= |raw|
  }

  /** Row j of the data, un-filtered. */
  function RowOf(raw: seq<nat>, fm: Format, j: nat): (r: seq<nat>)
    requires Legal(fm) && HasRow(raw, fm, j)
    ensures |r| == WidthBytes(fm) && Bytes(r)
  {
    Widths(fm);
    Row(raw, Bpp(fm), WidthBytes(fm), j)
  }

  /** Row j as un-filtering leaves it, at the end of its place. */
  function Unfiltered(raw: seq<nat>, fm: Format, j: nat): seq<nat>
    requires Legal(fm) && HasRow(raw, fm, j)
  {
    Widths(fm);
    if fm.depth >= 8 && fm.outN != fm.imgN then Spread(RowOf(raw, fm, j), Bpp(fm), OutBytes(fm)) else RowOf(raw, fm, j)
  }

  function UnfilteredBefore(raw: seq<nat>, fm: Format, j: nat): seq<nat>
    requires Legal(fm) && HasRow(raw, fm, j) && j > 0
  {
    RowFits(WidthBytes(fm), j);
    Unfiltered(raw, fm, j - 1)
  }

  /** Row j of the output. Its 16-bit samples are words of the machine, low byte first. */
  function OutRow(raw: seq<nat>, fm: Format, j: nat): seq<nat>
    requires Legal(fm) && HasRow(raw, fm, j)
  {
    Widths(fm);
    if fm.depth == 16 then Swapped(Unfiltered(raw, fm, j))
    else if fm.depth == 8 then Unfiltered(raw, fm, j)
    else Spread(Unpack(RowOf(raw, fm, j), fm.depth, Scale(fm), RowSamples(fm)), fm.imgN, fm.outN)
  }

  lemma RowSizesOut(raw: seq<nat>, fm: Format, j: nat)
    requires Legal(fm) && HasRow(raw, fm, j)
    ensures |OutRow(raw, fm, j)| == Stride(fm) && |Unfiltered(raw, fm, j)| <= Stride(fm)
    ensures fm.depth >= 8 ==> |Unfiltered(raw, fm, j)| == Stride(fm)
    ensures fm.depth == 8 ==> Unfiltered(raw, fm, j) == OutRow(raw, fm, j)
    ensures fm.depth < 8 ==> |Unfiltered(raw, fm, j)| == PackedBytes(RowSamples(fm), fm.depth)
  {
    hide Spread, Unpack, RowOf, Swapped, WidthBytes, PackedBytes, PerByte, Bpp;
    Widths(fm);
    if fm.depth >= 8 {
      if fm.outN != fm.imgN {
        SpreadSize(RowOf(raw, fm, j), Bpp(fm), OutBytes(fm), fm.x);
      }
    } else {
      SpreadSize(Unpack(RowOf(raw, fm, j), fm.depth, Scale(fm), RowSamples(fm)), fm.imgN, fm.outN, fm.x);
      OneByte(fm);
    }
  }

  lemma OneByte(fm: Format)
    requires fm.depth < 8
    ensures Stride(fm) == fm.x * fm.outN
  {}

  /** t lies in s, ending at place end. */
  ghost predicate EndsAt(s: seq<nat>, end: nat, t: seq<nat>) {
    |t| <= end <= |s| && s[end - |t|..end] == t
  }

  lemma EndsStays(s: seq<nat>, s': seq<nat>, cur: nat, end: nat, t: seq<nat>)
    requires EndsAt(s, end, t) && end <= cur <= |s| == |s'| && s'[..cur] == s[..cur]
    ensures EndsAt(s', end, t)
  {
    assert s'[end - |t|..end] == s'[..cur][end - |t|..end] == s[..cur][end - |t|..end] == s[end - |t|..end];
  }

  lemma EndsStaysAfter(s: seq<nat>, s': seq<nat>, cur: nat, end: nat, t: seq<nat>)
    requires EndsAt(s, end, t) && cur <= end - |t| && |s| == |s'| && s'[cur..] == s[cur..]
    ensures EndsAt(s', end, t)
  {
    var a := end - |t|;
    assert s'[a..end] == s'[cur..][a - cur..end - cur] == s[cur..][a - cur..end - cur] == s[a..end];
  }

  /** Un-filters row j into its place. */
  method UnfilterRow(out: array<nat>, raw: seq<nat>, at: nat, fm: Format, j: nat)
    requires Legal(fm) && HasRow(raw, fm, j) && at == j * (WidthBytes(fm) + 1) < |raw| && raw[at] <= 4
    requires j * Stride(fm) + Stride(fm) <= out.Length
    requires j > 0 ==> EndsAt(out[..], j * Stride(fm), UnfilteredBefore(raw, fm, j))
    modifies out
    ensures EndsAt(out[..], j * Stride(fm) + Stride(fm), Unfiltered(raw, fm, j))
    ensures out[..j * Stride(fm)] == old(out[..j * Stride(fm)])
    ensures out[j * Stride(fm) + Stride(fm)..] == old(out[j * Stride(fm) + Stride(fm)..])
  {
    hide Spread, Unpack, Row, IsRow, RowOf, Above, AboveAlpha, Chosen, Patch;
    hide WidthBytes, Stride, OutBytes, Bpp, SampleBytes;
    Widths(fm);
    var cur, filter := j * Stride(fm), Chosen(raw[at], j == 0);
    ghost var prior := if j == 0 then Zeros(WidthBytes(fm)) else Before(raw, fm, j);
    ghost var row := RowOf(raw, fm, j);
    RowIs(raw, fm, j, at, prior);
    ghost var s := out[..];
    if fm.depth >= 8 && fm.imgN != fm.outN {
      AlphaAbove(s, raw, fm, j, prior);
      FullRow(out, raw, at + 1, cur, filter, fm, raw[at], j == 0, prior, row);
      SpreadSize(row, Bpp(fm), OutBytes(fm), fm.x);
    } else {
      PlainAbove(s, raw, fm, j, prior);
      BareRow(out, raw, at + 1, cur, filter, fm, raw[at], j == 0, prior, row);
    }
  }

  /** A row of whole bytes that alpha is added to. */
  method FullRow(out: array<nat>, raw: seq<nat>, at: nat, cur: nat, filter: nat, fm: Format,
                 ghost f: nat, ghost first: bool, ghost prior: seq<nat>, ghost row: seq<nat>)
    requires Legal(fm) && fm.depth >= 8 && fm.imgN != fm.outN && |row| == |prior| == WidthBytes(fm)
    requires f <= 4 && filter == Chosen(f, first) && IsRow(row, f, Bpp(fm), prior, raw, at)
    requires cur + Stride(fm) <= out.Length && 0 < Bpp(fm) < OutBytes(fm)
    requires AboveAlpha(out[..], cur - Stride(fm), first, prior, Bpp(fm), OutBytes(fm))
    modifies out
    ensures out[cur..cur + Stride(fm)] == Spread(row, Bpp(fm), OutBytes(fm))
    ensures out[..cur] == old(out[..cur]) && out[cur + Stride(fm)..] == old(out[cur + Stride(fm)..])
  {
    hide IsRow, AboveAlpha, Chosen, Patch, Spread, WidthBytes, Legal, Bpp, OutBytes;
    Widths(fm);
    ghost var after := cur + Stride(fm);
    SpreadSize(prior, Bpp(fm), OutBytes(fm), fm.x);
    AlphaRow(out, raw, at, cur, cur - Stride(fm), filter, Bpp(fm), OutBytes(fm), fm.x, f, first, prior, row);
    if fm.depth == 16 {
      PatchRow(out, cur, Bpp(fm), OutBytes(fm), fm.x);
    } else {
      PatchSame(out[cur..after], Bpp(fm), fm.x);
    }
  }

  /** A row without alpha, or one that is yet to be unpacked, at the end of its place. */
  method BareRow(out: array<nat>, raw: seq<nat>, at: nat, cur: nat, filter: nat, fm: Format,
                 ghost f: nat, ghost first: bool, ghost prior: seq<nat>, ghost row: seq<nat>)
    requires 0 < Bpp(fm) <= WidthBytes(fm) <= Stride(fm) && |row| == |prior| == WidthBytes(fm)
    requires f <= 4 && filter == Chosen(f, first) && IsRow(row, f, Bpp(fm), prior, raw, at)
    requires cur + Stride(fm) <= out.Length && Above(out[..], cur - WidthBytes(fm), first, prior, 0, WidthBytes(fm))
    modifies out
    ensures EndsAt(out[..], cur + Stride(fm), row)
    ensures out[..cur] == old(out[..cur]) && out[cur + Stride(fm)..] == old(out[cur + Stride(fm)..])
  {
    hide IsRow, Above, Chosen, WidthBytes, Stride, Bpp;
    var width, start := WidthBytes(fm), cur + Stride(fm) - WidthBytes(fm);
    ghost var s := out[..];
    PlainRow(out, raw, at, start, start - Stride(fm), filter, Bpp(fm), width, f, first, prior, row);
    assert out[..cur] == out[..start][..cur] == s[..start][..cur] == s[..cur];
  }

  lemma RowIs(raw: seq<nat>, fm: Format, j: nat, at: nat, prior: seq<nat>)
    requires Legal(fm) && HasRow(raw, fm, j) && at == j * (WidthBytes(fm) + 1)
    requires prior == if j == 0 then Zeros(WidthBytes(fm)) else Before(raw, fm, j)
    ensures at < |raw| && IsRow(RowOf(raw, fm, j), raw[at], Bpp(fm), prior, raw, at + 1)
  {
    hide Reconstruct, Row, Zeros, WidthBytes, IsRow;
    Widths(fm);
    RowStep(raw, Bpp(fm), WidthBytes(fm), j, at);
    ReconstructedIs(raw[at], Bpp(fm), prior, raw, at + 1, WidthBytes(fm));
  }

  /** The row before row j. */
  function Before(raw: seq<nat>, fm: Format, j: nat): seq<nat>
    requires Legal(fm) && HasRow(raw, fm, j) && j > 0
  {
    RowFits(WidthBytes(fm), j);
    RowOf(raw, fm, j - 1)
  }

  lemma AlphaAbove(s: seq<nat>, raw: seq<nat>, fm: Format, j: nat, prior: seq<nat>)
    requires Legal(fm) && fm.depth >= 8 && fm.imgN != fm.outN && HasRow(raw, fm, j)
    requires prior == if j == 0 then Zeros(WidthBytes(fm)) else Before(raw, fm, j)
    requires j > 0 ==> EndsAt(s, j * Stride(fm), UnfilteredBefore(raw, fm, j))
    ensures 0 < Bpp(fm) < OutBytes(fm) && |prior| == WidthBytes(fm)
    ensures AboveAlpha(s, j * Stride(fm) - Stride(fm), j == 0, prior, Bpp(fm), OutBytes(fm))
  {
    hide Spread, Row;
    Widths(fm);
    if j > 0 {
      SpreadSize(prior, Bpp(fm), OutBytes(fm), fm.x);
    }
  }

  lemma PlainAbove(s: seq<nat>, raw: seq<nat>, fm: Format, j: nat, prior: seq<nat>)
    requires Legal(fm) && !(fm.depth >= 8 && fm.imgN != fm.outN) && HasRow(raw, fm, j)
    requires prior == if j == 0 then Zeros(WidthBytes(fm)) else Before(raw, fm, j)
    requires j > 0 ==> EndsAt(s, j * Stride(fm), UnfilteredBefore(raw, fm, j))
    ensures |prior| == WidthBytes(fm) && Above(s, j * Stride(fm) - WidthBytes(fm), j == 0, prior, 0, WidthBytes(fm))
  {
    hide Spread, Row;
    Widths(fm);
    assert prior[0..|prior|] == prior;
  }

  // All rows

  ghost predicate RowUnfiltered(s: seq<nat>, raw: seq<nat>, fm: Format, r: nat) {
    Legal(fm) && HasRow(raw, fm, r) && EndsAt(s, r * Stride(fm) + Stride(fm), Unfiltered(raw, fm, r))
  }

  ghost predicate RowDone(s: seq<nat>, raw: seq<nat>, fm: Format, r: nat) {
    Legal(fm) && HasRow(raw, fm, r) && EndsAt(s, r * Stride(fm) + Stride(fm), OutRow(raw, fm, r))
  }

  lemma HasRows(raw: seq<nat>, fm: Format, y: nat, r: nat)
    requires (WidthBytes(fm) + 1) * y <= |raw| && r < y
    ensures HasRow(raw, fm, r) && r * (WidthBytes(fm) + 1) < |raw|
    ensures (r + 1) * (WidthBytes(fm) + 1) == r * (WidthBytes(fm) + 1) + WidthBytes(fm) + 1
    ensures r * Stride(fm) + Stride(fm) == (r + 1) * Stride(fm) <= y * Stride(fm)
  {
    hide Stride, WidthBytes;
    RowFits(WidthBytes(fm), r);
    RowsFit(WidthBytes(fm), r + 1, y);
    assert y * (WidthBytes(fm) + 1) == (WidthBytes(fm) + 1) * y;
    TimesNext(r, Stride(fm));
    MulMono(r + 1, y, Stride(fm));
  }

  /** The rows before place cur of row j stay. */
  lemma RowsStay(s: seq<nat>, s': seq<nat>, raw: seq<nat>, fm: Format, j: nat)
    requires j * Stride(fm) <= |s| == |s'| && s'[..j * Stride(fm)] == s[..j * Stride(fm)]
    ensures forall r :: 0 <= r < j && RowUnfiltered(s, raw, fm, r) ==> RowUnfiltered(s', raw, fm, r)
    ensures forall r :: 0 <= r < j && RowDone(s, raw, fm, r) ==> RowDone(s', raw, fm, r)
  {
    hide EndsAt, Unfiltered, OutRow, HasRow, Stride;
    forall r | 0 <= r < j && RowUnfiltered(s, raw, fm, r)
      ensures RowUnfiltered(s', raw, fm, r)
    {
      RowBefore(r, j, Stride(fm));
      EndsStays(s, s', j * Stride(fm), r * Stride(fm) + Stride(fm), Unfiltered(raw, fm, r));
    }
    forall r | 0 <= r < j && RowDone(s, raw, fm, r)
      ensures RowDone(s', raw, fm, r)
    {
      RowBefore(r, j, Stride(fm));
      EndsStays(s, s', j * Stride(fm), r * Stride(fm) + Stride(fm), OutRow(raw, fm, r));
    }
  }

  lemma RowBefore(r: nat, j: nat, n: nat)
    requires r < j
    ensures r * n + n <= j * n
  {
    TimesNext(r, n);
    MulMono(r + 1, j, n);
  }

  /** The rows after row j stay. */
  lemma LaterRowsStay(s: seq<nat>, s': seq<nat>, raw: seq<nat>, fm: Format, j: nat, y: nat)
    requires j * Stride(fm) + Stride(fm) <= |s| == |s'|
    requires s'[j * Stride(fm) + Stride(fm)..] == s[j * Stride(fm) + Stride(fm)..]
    ensures forall r :: j < r < y && RowUnfiltered(s, raw, fm, r) ==> RowUnfiltered(s', raw, fm, r)
  {
    hide EndsAt, Unfiltered, OutRow, Stride, WidthBytes;
    forall r | j < r < y && RowUnfiltered(s, raw, fm, r)
      ensures RowUnfiltered(s', raw, fm, r)
    {
      TimesNext(j, Stride(fm));
      MulMono(j + 1, r, Stride(fm));
      RowSizesOut(raw, fm, r);
      EndsStaysAfter(s, s', j * Stride(fm) + Stride(fm), r * Stride(fm) + Stride(fm), Unfiltered(raw, fm, r));
    }
  }

  lemma PrevRow(s: seq<nat>, raw: seq<nat>, fm: Format, j: nat)
    requires Legal(fm) && HasRow(raw, fm, j) && (j > 0 ==> RowUnfiltered(s, raw, fm, j - 1))
    ensures j > 0 ==> EndsAt(s, j * Stride(fm), UnfilteredBefore(raw, fm, j))
  {
    hide EndsAt, Unfiltered, Stride;
    if j > 0 {
      TimesNext(j - 1, Stride(fm));
    }
  }

  /** Rows of whole bytes are done when un-filtered. */
  lemma FullRows(s: seq<nat>, raw: seq<nat>, fm: Format, y: nat)
    requires Legal(fm) && fm.depth == 8 && forall r :: 0 <= r < y ==> RowUnfiltered(s, raw, fm, r)
    ensures forall r :: 0 <= r < y ==> RowDone(s, raw, fm, r)
  {
    hide EndsAt, Unfiltered, OutRow, HasRow, Stride;
    forall r | 0 <= r < y
      ensures RowDone(s, raw, fm, r)
    {
      assert RowUnfiltered(s, raw, fm, r);
      RowSizesOut(raw, fm, r);
    }
  }

  /** Unpacks row j's samples, and adds their alpha. */
  method FinishRow(out: array<nat>, ghost raw: seq<nat>, fm: Format, j: nat, row: nat, end: nat)
    requires row == j * Stride(fm) && end == row + Stride(fm) <= out.Length
    requires RowUnfiltered(out[..], raw, fm, j) && fm.depth < 8
    modifies out
    ensures RowDone(out[..], raw, fm, j)
    ensures out[..row] == old(out[..row]) && out[end..] == old(out[end..])
  {
    hide Spread, Unpack, RowOf, PackedBytes, PerByte, Scale, WidthBytes, HasRow, RowSamples;
    Widths(fm);
    RowSizesOut(raw, fm, j);
    var n := RowSamples(fm);
    ghost var s := out[..];
    ExpandRow(out, row, end, n, fm.depth, Scale(fm));
    assert s[end - WidthBytes(fm)..end] == RowOf(raw, fm, j);
    ghost var s1, samples := out[..], Unpack(RowOf(raw, fm, j), fm.depth, Scale(fm), n);
    assert s1[row..row + n] == samples;
    TailStays(s, s1, row + n, end);
    WithAlpha(out, fm, row, samples);
    assert out[row..end] == OutRow(raw, fm, j);
  }

  /** The samples of a row, where they lie, with alpha. */
  method WithAlpha(out: array<nat>, fm: Format, row: nat, ghost samples: seq<nat>)
    requires Legal(fm) && fm.depth < 8 && |samples| == RowSamples(fm) && row + Stride(fm) <= out.Length
    requires row + |samples| <= out.Length && out[row..row + |samples|] == samples
    modifies out
    ensures out[row..row + Stride(fm)] == Spread(samples, fm.imgN, fm.outN)
    ensures out[..row] == old(out[..row]) && out[row + Stride(fm)..] == old(out[row + Stride(fm)..])
  {
    SamplesAndStride(fm);
    hide Spread, Stride, RowSamples, Legal;
    if fm.imgN == fm.outN {
      SpreadSame(samples, fm.imgN, fm.x);
    } else if fm.imgN == 1 {
      InsertAlpha(out, row, fm.x);
    } else {
      InsertAlphaRgb(out, row, fm.x);
    }
  }

  lemma SamplesAndStride(fm: Format)
    requires Legal(fm) && fm.depth < 8
    ensures fm.imgN == fm.outN ==> Stride(fm) == RowSamples(fm) == fm.x * fm.imgN
    ensures fm.imgN == 1 != fm.outN ==> fm.outN == 2 && RowSamples(fm) == fm.x && Stride(fm) == 2 * fm.x
    ensures fm.imgN == 3 != fm.outN ==> fm.outN == 4 && RowSamples(fm) == 3 * fm.x && Stride(fm) == 4 * fm.x
    ensures fm.imgN != fm.outN ==> fm.imgN == 1 || fm.imgN == 3
  {}

  lemma TailStays(s: seq<nat>, s': seq<nat>, a: nat, b: nat)
    requires a <= b <= |s| == |s'| && s'[a..] == s[a..]
    ensures s'[b..] == s[b..]
  {
    assert s'[a..][b - a..] == s'[b..] && s[a..][b - a..] == s[b..];
  }

  /** Un-filters all rows; fails at the first that none of the five filters leads. */
  method UnfilterAll(out: array<nat>, raw: seq<nat>, fm: Format, y: nat) returns (ok: bool)
    requires Legal(fm) && out.Length == y * Stride(fm) && (WidthBytes(fm) + 1) * y <= |raw|
    modifies out
    ensures ok <==> GoodFilters(raw, WidthBytes(fm), y)
    ensures ok ==> forall r :: 0 <= r < y ==> RowUnfiltered(out[..], raw, fm, r)
  {
    hide Legal, EndsAt, Unfiltered, OutRow, RowUnfiltered, RowDone, Stride, WidthBytes, UnfilteredBefore;
    var at := 0;
    for j := 0 to y
      invariant at == j * (WidthBytes(fm) + 1)
      invariant forall r :: 0 <= r < j ==> RowUnfiltered(out[..], raw, fm, r)
      invariant GoodFilters(raw, WidthBytes(fm), j)
    {
      HasRows(raw, fm, y, j);
      assert FilterOf(raw, WidthBytes(fm), j) == raw[at];
      if raw[at] > 4 {
        return false;
      }
      ghost var s := out[..];
      PrevRow(s, raw, fm, j);
      UnfilterRow(out, raw, at, fm, j);
      RowsStay(s, out[..], raw, fm, j);
      NowUnfiltered(out[..], raw, fm, j);
      at := at + 1 + WidthBytes(fm);
    }
    ok := true;
  }

  lemma NowUnfiltered(s: seq<nat>, raw: seq<nat>, fm: Format, j: nat)
    requires Legal(fm) && HasRow(raw, fm, j) && EndsAt(s, j * Stride(fm) + Stride(fm), Unfiltered(raw, fm, j))
    ensures RowUnfiltered(s, raw, fm, j)
  {}

  /** Unpacks all rows. */
  method ExpandAll(out: array<nat>, ghost raw: seq<nat>, fm: Format, y: nat)
    requires Legal(fm) && fm.depth < 8 && out.Length == y * Stride(fm) && (WidthBytes(fm) + 1) * y <= |raw|
    requires forall r :: 0 <= r < y ==> RowUnfiltered(out[..], raw, fm, r)
    modifies out
    ensures forall r :: 0 <= r < y ==> RowDone(out[..], raw, fm, r)
  {
    hide Legal, EndsAt, Unfiltered, OutRow, RowUnfiltered, RowDone, Stride, WidthBytes;
    for j := 0 to y
      invariant forall r :: 0 <= r < j ==> RowDone(out[..], raw, fm, r)
      invariant forall r :: j <= r < y ==> RowUnfiltered(out[..], raw, fm, r)
    {
      ghost var s := out[..];
      HasRows(raw, fm, y, j);
      FinishRow(out, raw, fm, j, j * Stride(fm), j * Stride(fm) + Stride(fm));
      RowsStay(s, out[..], raw, fm, j);
      LaterRowsStay(s, out[..], raw, fm, j, y);
    }
  }

  /** Makes words of the machine of the pairs of bytes. */
  method ToNative(out: array<nat>, n: nat)
    requires out.Length == 2 * n
    modifies out
    ensures out[..] == Swapped(old(out[..]))
  {
    for i := 0 to n
      invariant forall k :: 0 <= k < 2 * i ==> out[k] == Swapped(old(out[..]))[k]
      invariant forall k :: 2 * i <= k < out.Length ==> out[k] == old(out[k])
    {
      out[2 * i], out[2 * i + 1] := out[2 * i + 1], out[2 * i];
    }
  }

  /** Rows of words are done then. */
  lemma NativeRows(s: seq<nat>, raw: seq<nat>, fm: Format, y: nat)
    requires Legal(fm) && fm.depth == 16 && forall r :: 0 <= r < y ==> RowUnfiltered(s, raw, fm, r)
    ensures forall r :: 0 <= r < y ==> RowDone(Swapped(s), raw, fm, r)
  {
    hide Unfiltered, HasRow, Swapped, WidthBytes;
    forall r | 0 <= r < y
      ensures RowDone(Swapped(s), raw, fm, r)
    {
      assert RowUnfiltered(s, raw, fm, r);
      RowSizesOut(raw, fm, r);
      var h := fm.x * fm.outN;
      EvenPlaces(r, fm.x, fm.outN);
      SwappedSlice(s, r * h, r * h + h);
    }
  }

  lemma EvenPlaces(r: nat, x: nat, n: nat)
    ensures x * (n * 2) == 2 * (x * n) && r * (x * (n * 2)) == 2 * (r * (x * n))
  {}

  /** The number of 16-bit words of the image. */
  lemma WordCount(fm: Format, y: nat)
    requires fm.depth == 16
    ensures y * Stride(fm) == 2 * (fm.x * y * fm.outN)
  {
    EvenPlaces(y, fm.x, fm.outN);
    assert y * (fm.x * fm.outN) == fm.x * y * fm.outN by { PixelBits(fm.x, y, fm.outN); }
  }

  /** Un-filters the data's rows, unpacks small samples and makes words of large ones: fails
      exactly when the data is too short or one of its filters is none of the five, and otherwise
      gives every row of the image. */
  method CreateRaw(raw: seq<nat>, fm: Format, y: nat) returns (ok: bool, out: array<nat>)
    requires Legal(fm)
    ensures fresh(out) && (ok <==> Accepts(raw, fm, y))
    ensures ok ==> out.Length == y * Stride(fm) && forall j :: 0 <= j < y ==> RowDone(out[..], raw, fm, j)
  {
    hide EndsAt, Unfiltered, OutRow, RowUnfiltered, RowDone, Stride, WidthBytes, GoodFilters, Swapped;
    out := new nat[y * Stride(fm)];
    var imgLen := (WidthBytes(fm) + 1) * y;
    if |raw| < imgLen {
      return false, out;
    }
    ok := UnfilterAll(out, raw, fm, y);
    if ok {
      if fm.depth < 8 {
        ExpandAll(out, raw, fm, y);
      } else if fm.depth == 16 {
        NativeRows(out[..], raw, fm, y);
        WordCount(fm, y);
        ToNative(out, fm.x * y * fm.outN);
      } else {
        FullRows(out[..], raw, fm, y);
      }
    }
  }

  /** An image encoded with any choice of the five filters is accepted, and its rows come back. */
  lemma DecodesEncoded(rows: seq<seq<nat>>, filters: seq<nat>, fm: Format, j: nat)
    requires Legal(fm) && |filters| == |rows| && (forall j :: 0 <= j < |rows| ==> |rows[j]| == WidthBytes(fm) && Bytes(rows[j]))
    requires j < |rows| && forall j :: 0 <= j < |rows| ==> filters[j] <= 4
    ensures Bpp(fm) > 0
    ensures var raw := Encode(rows, filters, Bpp(fm), WidthBytes(fm));
            Accepts(raw, fm, |rows|) && HasRow(raw, fm, j) && RowOf(raw, fm, j) == rows[j]
            && (fm.depth == 8 && fm.outN == fm.imgN ==> OutRow(raw, fm, j) == rows[j])
            && (fm.depth == 16 && fm.outN == fm.imgN ==> OutRow(raw, fm, j) == Swapped(rows[j]))
  {
    hide Encode, Row, Spread, Unpack, WidthBytes, Swapped;
    Widths(fm);
    var width := WidthBytes(fm);
    var raw := Encode(rows, filters, Bpp(fm), width);
    assert |rows| * (width + 1) == (width + 1) * |rows|;
    forall k | 0 <= k < |rows|
      ensures FilterOf(raw, width, k) <= 4
    {
      EncodedFilter(rows, filters, Bpp(fm), width, k);
    }
    ImageRoundTrip(rows, filters, Bpp(fm), width, j);
  }
}
