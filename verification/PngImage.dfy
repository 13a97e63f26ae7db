/** Building the image from inflated data: un-filtering row by row in the output buffer, and
    unpacking small samples in place. */
module PngImage {
  import opened BitOps
  import opened PngFilters
  import opened PngPixels

  // The filters as the decoder names them; the last two are for the first row.
  const NONE: nat := 0
  const UP: nat := 2
  const AVG: nat := 3
  const PAETH: nat := 4
  const AVG_FIRST: nat := 5
  const PAETH_FIRST: nat := 6

  function FirstRowFilter(f: nat): nat {
    if f == UP then NONE else if f == AVG then AVG_FIRST else if f == PAETH then PAETH_FIRST else f
  }

  /** The decoder's filter for filter f of the data, in the first row or below. */
  function Chosen(f: nat, first: bool): nat {
    if first then FirstRowFilter(f) else f
  }

  /** STBI__BYTECAST */
  function Byte(v: int): (b: nat)
    ensures b < 256
  {
    v % 256
  }

  /** One byte of a row's first pixel; only the filters of later rows look at the byte above. */
  method FirstByte(out: array<nat>, filter: nat, v: nat, above: int, ghost f: nat, ghost first: bool, ghost b: nat)
      returns (r: nat)
    requires f <= 4 && filter == Chosen(f, first) && b < 256
    requires if first then b == 0 else 0 <= above < out.Length && out[above] == b
    ensures r == (v + Predict(f, 0, b, 0)) % 256
  {
    PaethAtEdges(0, b);
    match filter
    case 0 => r := Byte(v);
    case 1 => r := Byte(v);
    case 2 => r := Byte(v + out[above]);
    case 3 => r := Byte(v + out[above] / 2);
    case 4 => r := Byte(v + Paeth(0, out[above], 0));
    case 5 => r := Byte(v);
    case 6 => r := Byte(v);
  }

  /** One byte of a later pixel, back bytes after the same byte of the pixel before. */
  method NextByte(out: array<nat>, filter: nat, v: nat, at: nat, above: int, back: nat,
                  ghost f: nat, ghost first: bool, ghost a: nat, ghost b: nat, ghost c: nat)
      returns (r: nat)
    requires f <= 4 && filter == Chosen(f, first) && a < 256 && b < 256 && c < 256
    requires 0 < back <= at < out.Length && out[at - back] == a
    requires if first then b == 0 && c == 0
             else back <= above < out.Length && out[above] == b && out[above - back] == c
    ensures r == (v + Predict(f, a, b, c)) % 256
  {
    PaethAtEdges(a, 0);
    match filter
    case 0 => r := Byte(v);
    case 1 => r := Byte(v + out[at - back]);
    case 2 => r := Byte(v + out[above]);
    case 3 => r := Byte(v + (out[above] + out[at - back]) / 2);
    case 4 => r := Byte(v + Paeth(out[at - back], out[above], out[above - back]));
    case 5 => r := Byte(v + out[at - back] / 2);
    case 6 => r := Byte(v + Paeth(out[at - back], 0, 0));
  }

  /** What a row is to become: each byte that of the data plus its prediction from the row itself
      and the row above. */
  ghost predicate IsRow(row: seq<nat>, f: nat, fb: nat, prior: seq<nat>, raw: seq<nat>, at: nat) {
    && fb > 0 && |row| <= |prior| && at + |row| <= |raw| && Bytes(prior) && Bytes(row)
    && forall n :: 0 <= n < |row| ==>
         row[n] == (raw[at + n] + Predict(f, Left(row, fb, n), prior[n], Left(prior, fb, n))) % 256
  }

  lemma ReconstructedIs(f: nat, fb: nat, prior: seq<nat>, raw: seq<nat>, at: nat, n: nat)
    requires fb > 0 && n <= |prior| && at + n <= |raw| && Bytes(prior)
    ensures IsRow(Reconstruct(f, fb, prior, raw[at..at + n]), f, fb, prior, raw, at)
  {
    hide Predict, Reconstruct;
    var row := Reconstruct(f, fb, prior, raw[at..at + n]);
    forall k | 0 <= k < n
      ensures row[k] == (raw[at + k] + Predict(f, Left(row, fb, k), prior[k], Left(prior, fb, k))) % 256
    {
      ReconstructAt(f, fb, prior, raw[at..at + n], k);
    }
  }

  /** The n bytes from place at on are those of the row above from byte k on; in the first row
      that row is zero and nowhere in the buffer. */
  ghost predicate Above(s: seq<nat>, at: int, first: bool, prior: seq<nat>, k: nat, n: nat)
    requires k + n <= |prior|
  {
    if first then forall i :: 0 <= i < |prior| ==> prior[i] == 0
    else 0 <= at && at + n <= |s| && s[at..at + n] == prior[k..k + n]
  }

  lemma RowSizes(row: seq<nat>, f: nat, fb: nat, prior: seq<nat>, raw: seq<nat>, at: nat)
    requires IsRow(row, f, fb, prior, raw, at)
    ensures fb > 0 && |row| <= |prior| && at + |row| <= |raw| && Bytes(prior) && Bytes(row)
  {}

  lemma RowByte(row: seq<nat>, f: nat, fb: nat, prior: seq<nat>, raw: seq<nat>, at: nat, n: nat)
    requires IsRow(row, f, fb, prior, raw, at) && n < |row|
    ensures Bytes(row) && Bytes(prior) && |row| <= |prior| && at + |row| <= |raw|
    ensures row[n] == (raw[at + n] + Predict(f, Left(row, fb, n), prior[n], Left(prior, fb, n))) % 256
  {
    hide Predict;
  }

  lemma LaterByte(row: seq<nat>, f: nat, fb: nat, prior: seq<nat>, raw: seq<nat>, at: nat, n: nat)
    requires IsRow(row, f, fb, prior, raw, at) && fb <= n < |row|
    ensures Bytes(row) && Bytes(prior) && |row| <= |prior| && at + |row| <= |raw|
    ensures row[n] == (raw[at + n] + Predict(f, row[n - fb], prior[n], prior[n - fb])) % 256
  {
    hide Predict;
  }

  lemma AboveByte(s: seq<nat>, s': seq<nat>, cur: nat, at: int, first: bool, prior: seq<nat>, k: nat, n: nat, j: nat)
    requires k + n <= |prior| && j < n && cur <= |s| == |s'| && s'[..cur] == s[..cur]
    requires Above(s, at, first, prior, k, n) && (!first ==> at + n <= cur)
    ensures if first then prior[k + j] == 0 else 0 <= at && at + j < |s| && s'[at + j] == prior[k + j]
    ensures first ==> forall i :: 0 <= i < |prior| ==> prior[i] == 0
  {
    if !first {
      assert s'[at + j] == s'[..cur][at + j] == s[at + j] == s[at..at + n][j];
    }
  }

  /** The first pixel of a row. */
  method FirstPixel(out: array<nat>, raw: seq<nat>, at: nat, cur: nat, above: int, filter: nat, fb: nat,
                    ghost f: nat, ghost first: bool, ghost prior: seq<nat>, ghost row: seq<nat>)
    requires f <= 4 && filter == Chosen(f, first) && IsRow(row, f, fb, prior, raw, at) && fb <= |row|
    requires cur + fb <= out.Length && Above(out[..], above, first, prior, 0, fb) && (!first ==> above + fb <= cur)
    modifies out
    ensures out[cur..cur + fb] == row[..fb]
    ensures out[..cur] == old(out[..cur]) && out[cur + fb..] == old(out[cur + fb..])
  {
    hide Predict, Above, IsRow, Chosen;
    ghost var s := out[..];
    for k := 0 to fb
      invariant out[cur..cur + k] == row[..k]
      invariant out[..cur] == old(out[..cur]) && out[cur + k..] == old(out[cur + k..])
    {
      RowByte(row, f, fb, prior, raw, at, k);
      AboveByte(s, out[..], cur, above, first, prior, 0, fb, k);
      out[cur + k] := FirstByte(out, filter, raw[at + k], above + k, f, first, prior[k]);
    }
  }

  /** A later pixel, whose predecessor starts ob bytes before; it begins at byte n of its row. */
  method NextPixel(out: array<nat>, raw: seq<nat>, at: nat, cur: nat, above: int, filter: nat, fb: nat, ob: nat,
                   ghost f: nat, ghost first: bool, ghost prior: seq<nat>, ghost row: seq<nat>, ghost n: nat)
    requires f <= 4 && filter == Chosen(f, first) && fb <= n <= at && IsRow(row, f, fb, prior, raw, at - n)
    requires n + fb <= |row| && fb <= ob <= cur && cur + fb <= out.Length
    requires out[cur - ob..cur - ob + fb] == row[n - fb..n]
    requires Above(out[..], above, first, prior, n, fb) && Above(out[..], above - ob, first, prior, n - fb, fb)
    requires !first ==> above + fb <= cur
    modifies out
    ensures out[cur..cur + fb] == row[n..n + fb]
    ensures out[..cur] == old(out[..cur]) && out[cur + fb..] == old(out[cur + fb..])
  {
    hide Predict, Above, IsRow, Chosen, Left;
    RowSizes(row, f, fb, prior, raw, at - n);
    ghost var s := out[..];
    for k := 0 to fb
      invariant forall p :: cur <= p < cur + k ==> out[p] == row[n..n + fb][p - cur]
      invariant forall j :: 0 <= j < cur || cur + k <= j < out.Length ==> out[j] == s[j]
    {
      LaterByte(row, f, fb, prior, raw, at - n, n + k);
      Around(s, cur, above, fb, ob, first, prior, row, n, k);
      out[cur + k] := NextByte(out, filter, raw[at + k], cur + k, above + k, ob, f, first,
                               row[n - fb + k], prior[n + k], prior[n - fb + k]);
    }
    Written(s, out[..], cur, row[n..n + fb]);
  }

  lemma Written(s: seq<nat>, s': seq<nat>, at: nat, b: seq<nat>)
    requires at + |b| <= |s| == |s'| && forall p :: at <= p < at + |b| ==> s'[p] == b[p - at]
    requires forall j :: 0 <= j < at || at + |b| <= j < |s| ==> s'[j] == s[j]
    ensures s'[at..at + |b|] == b && s'[..at] == s[..at] && s'[at + |b|..] == s[at + |b|..]
  {}

  /** The bytes that byte k of a later pixel is predicted from. */
  lemma Around(s: seq<nat>, cur: nat, above: int, fb: nat, ob: nat, first: bool, prior: seq<nat>, row: seq<nat>,
               n: nat, k: nat)
    requires 0 < fb <= n && n + fb <= |row| <= |prior| && fb <= ob <= cur && cur + fb <= |s| && k < fb
    requires s[cur - ob..cur - ob + fb] == row[n - fb..n] && (!first ==> above + fb <= cur)
    requires Above(s, above, first, prior, n, fb) && Above(s, above - ob, first, prior, n - fb, fb)
    ensures s[cur - ob + k] == row[n - fb + k]
    ensures if first then prior[n + k] == 0 && prior[n - fb + k] == 0
            else ob <= above && s[above + k] == prior[n + k] && s[above - ob + k] == prior[n - fb + k]
  {
    AboveByte(s, s, cur, above, first, prior, n, fb, k);
    AboveByte(s, s, cur, above - ob, first, prior, n - fb, fb, k);
    assert s[cur - ob..cur - ob + fb][k] == row[n - fb..n][k];
  }

  /** A row without alpha. */
  method PlainRow(out: array<nat>, raw: seq<nat>, at: nat, cur: nat, above: int, filter: nat, fb: nat, bytes: nat,
                  ghost f: nat, ghost first: bool, ghost prior: seq<nat>, ghost row: seq<nat>)
    requires f <= 4 && filter == Chosen(f, first) && IsRow(row, f, fb, prior, raw, at) && fb <= bytes == |row|
    requires cur + bytes <= out.Length && Above(out[..], above, first, prior, 0, bytes) && (!first ==> above + bytes <= cur)
    modifies out
    ensures out[cur..cur + bytes] == row
    ensures out[..cur] == old(out[..cur]) && out[cur + bytes..] == old(out[cur + bytes..])
  {
    hide Above, IsRow, Chosen;
    RowSizes(row, f, fb, prior, raw, at);
    ghost var s := out[..];
    AbovePart(s, above, first, prior, 0, bytes, 0, fb);
    FirstPixel(out, raw, at, cur, above, filter, fb, f, first, prior, row);
    AboveStays(s, out[..], cur, above, first, prior, 0, bytes);
    RestOfRow(out, raw, at, cur, above, filter, fb, bytes, f, first, prior, row);
  }

  lemma AboveStays(s: seq<nat>, s': seq<nat>, cur: nat, at: int, first: bool, prior: seq<nat>, k: nat, n: nat)
    requires k + n <= |prior| && cur <= |s| == |s'| && s'[..cur] == s[..cur]
    requires Above(s, at, first, prior, k, n) && (!first ==> at + n <= cur)
    ensures Above(s', at, first, prior, k, n)
  {
    if !first {
      assert s'[at..at + n] == s'[..cur][at..at + n] == s[..cur][at..at + n] == s[at..at + n];
    }
  }

  /** The row's bytes after its first pixel. */
  method RestOfRow(out: array<nat>, raw: seq<nat>, at: nat, cur: nat, above: int, filter: nat, fb: nat, bytes: nat,
                   ghost f: nat, ghost first: bool, ghost prior: seq<nat>, ghost row: seq<nat>)
    requires f <= 4 && filter == Chosen(f, first) && IsRow(row, f, fb, prior, raw, at) && fb <= bytes == |row|
    requires cur + bytes <= out.Length && Above(out[..], above, first, prior, 0, bytes) && (!first ==> above + bytes <= cur)
    requires out[cur..cur + fb] == row[..fb]
    modifies out
    ensures out[cur..cur + bytes] == row
    ensures out[..cur] == old(out[..cur]) && out[cur + bytes..] == old(out[cur + bytes..])
  {
    hide Predict, Above, IsRow, Chosen, Left;
    RowSizes(row, f, fb, prior, raw, at);
    ghost var s := out[..];
    assert forall p :: cur <= p < cur + fb ==> out[p] == out[cur..cur + fb][p - cur];
    for k := fb to bytes
      invariant forall p :: cur <= p < cur + k ==> out[p] == row[p - cur]
      invariant forall j :: 0 <= j < cur || cur + k <= j < out.Length ==> out[j] == s[j]
    {
      LaterByte(row, f, fb, prior, raw, at, k);
      AboveByte(s, s, cur, above, first, prior, 0, bytes, k);
      AboveByte(s, s, cur, above, first, prior, 0, bytes, k - fb);
      out[cur + k] := NextByte(out, filter, raw[at + k], cur + k, above + k, fb, f, first, row[k - fb], prior[k], prior[k - fb]);
    }
    Written(s, out[..], cur, row);
  }

  lemma AbovePart(s: seq<nat>, at: int, first: bool, prior: seq<nat>, k: nat, n: nat, j: nat, m: nat)
    requires k + n <= |prior| && j + m <= n && Above(s, at, first, prior, k, n)
    ensures Above(s, at + j, first, prior, k + j, m)
  {
    if !first {
      var a, b := at + j, k + j;
      var u, v := s[a..a + m], prior[b..b + m];
      forall i | 0 <= i < m
        ensures u[i] == v[i]
      {
        assert s[at..at + n][j + i] == prior[k..k + n][j + i];
      }
      assert u == v;
    }
  }

  // Rows with alpha

  ghost predicate AboveAlpha(s: seq<nat>, at: int, first: bool, prior: seq<nat>, fb: nat, ob: nat)
    requires 0 < fb <= ob
  {
    if first then forall i :: 0 <= i < |prior| ==> prior[i] == 0
    else 0 <= at && at + |Spread(prior, fb, ob)| <= |s| && s[at..at + |Spread(prior, fb, ob)|] == Spread(prior, fb, ob)
  }

  lemma AbovePixel(s: seq<nat>, at: int, first: bool, prior: seq<nat>, fb: nat, ob: nat, width: nat, i: nat)
    requires 0 < fb <= ob && |prior| == width * fb && i < width && AboveAlpha(s, at, first, prior, fb, ob)
    ensures i * fb + fb <= |prior| && i * ob + ob <= width * ob
    ensures Above(s, at + i * ob, first, prior, i * fb, fb)
  {
    hide Spread;
    SpreadPixel(prior, fb, ob, width, i);
    if !first {
      SliceOf(s, at, Spread(prior, fb, ob), i * ob, fb);
    }
  }

  /** The first pixel of a row, and its alpha. */
  method FirstAlpha(out: array<nat>, raw: seq<nat>, at: nat, start: nat, above: int, filter: nat, fb: nat, ob: nat,
                    ghost width: nat, ghost f: nat, ghost first: bool, ghost prior: seq<nat>, ghost row: seq<nat>)
    requires f <= 4 && filter == Chosen(f, first) && IsRow(row, f, fb, prior, raw, at) && fb < ob <= fb + 2
    requires 0 < width && |row| == |prior| == width * fb && start + width * ob <= out.Length
    requires AboveAlpha(out[..], above, first, prior, fb, ob) && (!first ==> above + width * ob <= start)
    modifies out
    ensures AlphaDone(out[..], old(out[..]), start, row, fb, ob, 1)
  {
    hide Predict, Above, IsRow, Chosen, AboveAlpha, Spread, Patch;
    ghost var s := out[..];
    RowSizes(row, f, fb, prior, raw, at);
    AlphaSizes(row, fb, ob, width, 0);
    AbovePixel(s, above, first, prior, fb, ob, width, 0);
    FirstPixel(out, raw, at, start, above, filter, fb, f, first, prior, row);
    ghost var s1 := out[..];
    out[start + fb] := 255;
    if ob == fb + 2 {
      out[start + fb + 1] := 255;
    }
    assert out[start..start + fb] == s1[start..start + fb];
    assert out[start + ob..] == s1[start + fb..][ob - fb..] == s[start + fb..][ob - fb..] == s[start + ob..];
    SpreadStart(row, out[start..start + ob], fb, ob);
  }

  /** t is the row with alpha, once the second alpha bytes are set. */
  ghost predicate Patched(t: seq<nat>, row: seq<nat>, fb: nat, ob: nat) {
    0 < fb < ob && Patch(t, fb, ob) == Spread(row, fb, ob)
  }

  /** A row of width pixels, each with its alpha of 255 added: ob - fb bytes, the second of which
      is left to PatchRow. */
  method AlphaRow(out: array<nat>, raw: seq<nat>, at: nat, start: nat, above: int, filter: nat, fb: nat, ob: nat,
                  width: nat,
                  ghost f: nat, ghost first: bool, ghost prior: seq<nat>, ghost row: seq<nat>)
    requires f <= 4 && filter == Chosen(f, first) && IsRow(row, f, fb, prior, raw, at) && fb < ob <= fb + 2
    requires 0 < width && |row| == |prior| == width * fb && start + width * ob <= out.Length
    requires AboveAlpha(out[..], above, first, prior, fb, ob) && (!first ==> above + width * ob <= start)
    modifies out
    ensures out[..start] == old(out[..start]) && out[start + width * ob..] == old(out[start + width * ob..])
    ensures Patched(out[start..start + width * ob], row, fb, ob)
  {
    hide Predict, Above, IsRow, Chosen, AboveAlpha, Spread, AlphaAt, Patch, Patched;
    ghost var s := out[..];
    RowSizes(row, f, fb, prior, raw, at);
    FirstAlpha(out, raw, at, start, above, filter, fb, ob, width, f, first, prior, row);
    var from, cur, over := at + fb, start + ob, above + ob;
    var i := width - 1;
    ghost var done := 1;
    while i >= 1
      invariant 0 <= i < width && done == width - i
      invariant AlphaDone(out[..], s, start, row, fb, ob, done)
      invariant cur == start + done * ob && from == at + done * fb && over == above + done * ob
    {
      ghost var s1 := out[..];
      AlphaSizes(row, fb, ob, width, done);
      AlphaBefore(s1, s, start, row, fb, ob, done);
      AboveBoth(s, s1, start, above, first, prior, fb, ob, width, done);
      StepAlpha(out, raw, at, start, from, cur, over, filter, fb, ob, f, first, prior, row, done * fb, s);
      TimesNext(done, fb);
      TimesNext(done, ob);
      i, from, cur, over, done := i - 1, from + fb, cur + ob, over + ob, done + 1;
    }
    AlphaEnds(out[..], s, start, row, fb, ob, width);
  }

  /** Sets the second alpha byte of all pixels of a row. */
  method PatchRow(out: array<nat>, start: nat, fb: nat, ob: nat, width: nat)
    requires ob == fb + 2 && start + width * ob <= out.Length
    modifies out
    ensures out[start..start + width * ob] == Patch(old(out[start..start + width * ob]), fb, ob)
    ensures out[..start] == old(out[..start]) && out[start + width * ob..] == old(out[start + width * ob..])
  {
    hide Patch;
    ghost var s := out[..];
    var cur := start;
    PatchNothing(s, start, fb, ob);
    for i := 0 to width
      invariant cur == start + i * ob <= out.Length
      invariant PatchedTo(s, out[..], start, fb, ob, cur)
    {
      TimesNext(i, ob);
      MulMono(i + 1, width, ob);
      ghost var s1 := out[..];
      out[cur + fb + 1] := 255;
      PatchStep(s, s1, out[..], start, fb, ob, cur);
      cur := cur + ob;
    }
    assert s[start..cur] == old(out[start..start + width * ob]);
  }

  /** The pixels up to place cur are patched, and nothing else has changed. */
  ghost predicate PatchedTo(s: seq<nat>, s': seq<nat>, start: nat, fb: nat, ob: nat, cur: nat)
    requires fb < ob
  {
    && start <= cur <= |s| == |s'| && s'[..start] == s[..start] && s'[cur..] == s[cur..]
    && s'[start..cur] == Patch(s[start..cur], fb, ob)
  }

  lemma PatchNothing(s: seq<nat>, start: nat, fb: nat, ob: nat)
    requires fb < ob && start <= |s|
    ensures PatchedTo(s, s, start, fb, ob, start)
  {
    assert s[start..start] == [];
  }

  lemma PatchStep(s: seq<nat>, s1: seq<nat>, s2: seq<nat>, start: nat, fb: nat, ob: nat, cur: nat)
    requires ob == fb + 2 && PatchedTo(s, s1, start, fb, ob, cur) && cur + ob <= |s|
    requires s2 == s1[cur + fb + 1 := 255]
    ensures PatchedTo(s, s2, start, fb, ob, cur + ob)
  {
    hide Patch;
    var pixel := s[cur..cur + ob];
    PatchNext(s[start..cur], fb, ob, pixel);
    assert s[start..cur] + pixel == s[start..cur + ob];
    assert s1[cur..][..ob] == s[cur..][..ob] == pixel;
    assert s1[cur..cur + ob] == s1[cur..][..ob];
    assert s2[start..cur + ob] == s1[start..cur] + pixel[..fb + 1] + [255];
    assert seq(ob - fb - 1, _ => 255) == [255];
    assert s2[..start] == s1[..start];
    assert s2[cur + ob..] == s1[cur..][ob..] == s[cur..][ob..] == s[cur + ob..];
  }

  /** The first k bytes of a row's pixels are in place, with alpha but for its second byte, up to
      place cur, and nothing outside has changed. */
  ghost predicate AlphaAt(s': seq<nat>, s: seq<nat>, start: nat, row: seq<nat>, fb: nat, ob: nat, k: nat, cur: nat) {
    && 0 < fb < ob && |s'| == |s| && k <= |row| && start <= cur <= |s|
    && s'[..start] == s[..start] && s'[cur..] == s[cur..] && Patch(s'[start..cur], fb, ob) == Spread(row[..k], fb, ob)
  }

  /** So are the first n pixels. */
  ghost predicate AlphaDone(s': seq<nat>, s: seq<nat>, start: nat, row: seq<nat>, fb: nat, ob: nat, n: nat) {
    AlphaAt(s', s, start, row, fb, ob, n * fb, start + n * ob)
  }

  lemma AlphaSizes(row: seq<nat>, fb: nat, ob: nat, width: nat, n: nat)
    requires 0 < fb < ob && |row| == width * fb && n < width
    ensures n * fb + fb <= |row| && n * ob + ob <= width * ob
  {
    TimesNext(n, fb);
    TimesNext(n, ob);
    MulMono(n + 1, width, fb);
    MulMono(n + 1, width, ob);
  }

  lemma SpreadStart(row: seq<nat>, pixel: seq<nat>, fb: nat, ob: nat)
    requires 0 < fb <= |row| && |pixel| == ob > fb && pixel[..fb] == row[..fb] && pixel[fb] == 255
    ensures Patch(pixel, fb, ob) == Spread(row[..fb], fb, ob) && 1 * fb == fb && 1 * ob == ob
  {
    PixelPatched([], pixel, fb, ob, [], row[..fb]);
    assert [] + row[..fb] == row[..fb] && [] + pixel == pixel;
  }

  /** A pixel more, patched, is one more spread. */
  lemma PixelPatched(done: seq<nat>, pixel: seq<nat>, fb: nat, ob: nat, row: seq<nat>, next: seq<nat>)
    requires 0 < fb < ob == |pixel| && |next| == fb && pixel[..fb] == next && pixel[fb] == 255
    requires Patch(done, fb, ob) == Spread(row, fb, ob)
    ensures Patch(done + pixel, fb, ob) == Spread(row + next, fb, ob)
  {
    SpreadNext(row, fb, ob, next);
    PatchNext(done, fb, ob, pixel);
    assert pixel[..fb + 1] == next + [255];
    assert [255] + seq(ob - fb - 1, _ => 255) == seq(ob - fb, _ => 255);
  }

  lemma AlphaEnds(s': seq<nat>, s: seq<nat>, start: nat, row: seq<nat>, fb: nat, ob: nat, width: nat)
    requires |row| == width * fb && AlphaDone(s', s, start, row, fb, ob, width)
    ensures 0 < fb < ob && start + width * ob <= |s'| == |s|
    ensures Patched(s'[start..start + width * ob], row, fb, ob)
    ensures s'[..start] == s[..start] && s'[start + width * ob..] == s[start + width * ob..]
  {
    assert row[..width * fb] == row;
  }

  /** The pixel that begins at byte n of its row. */
  method StepAlpha(out: array<nat>, raw: seq<nat>, ghost at: nat, ghost start: nat, from: nat, cur: nat, over: int,
                   filter: nat, fb: nat, ob: nat, ghost f: nat, ghost first: bool, ghost prior: seq<nat>, ghost row: seq<nat>,
                   ghost n: nat, ghost s: seq<nat>)
    requires f <= 4 && filter == Chosen(f, first) && IsRow(row, f, fb, prior, raw, at) && from == at + n
    requires fb <= n && n + fb <= |row| <= |prior| && fb < ob <= cur && cur + ob <= out.Length
    requires AlphaAt(out[..], s, start, row, fb, ob, n, cur)
    requires out[cur - ob..cur - ob + fb] == row[n - fb..n]
    requires Above(out[..], over, first, prior, n, fb) && Above(out[..], over - ob, first, prior, n - fb, fb)
    requires !first ==> over + fb <= cur
    modifies out
    ensures AlphaAt(out[..], s, start, row, fb, ob, n + fb, cur + ob)
  {
    hide Predict, Above, IsRow, Chosen, Spread, AlphaAt, Patch;
    ghost var s1 := out[..];
    NextPixel(out, raw, from, cur, over, filter, fb, ob, f, first, prior, row, n);
    ghost var s2 := out[..];
    out[cur + fb] := 255;
    assert out[..cur] == s2[..cur] == s1[..cur];
    assert out[cur..cur + fb] == s2[cur..cur + fb];
    assert out[cur + ob..] == s1[cur + ob..] by {
      assert s2[cur + fb..][ob - fb..] == s2[cur + ob..] && s1[cur + fb..][ob - fb..] == s1[cur + ob..];
    }
    AlphaAdvances(s1, out[..], s, start, row, fb, ob, n, cur);
  }

  /** The pixel before the next one. */
  lemma AlphaBefore(s': seq<nat>, s: seq<nat>, start: nat, row: seq<nat>, fb: nat, ob: nat, n: nat)
    requires 1 <= n && AlphaDone(s', s, start, row, fb, ob, n)
    ensures var cur, k := start + n * ob, n * fb;
            fb <= k <= |row| && start + ob <= cur <= |s'| && s'[cur - ob..cur - ob + fb] == row[k - fb..k]
    ensures s'[..start] == s[..start] && |s'| == |s|
  {
    hide Spread, Patch;
    var p := n - 1;
    TimesNext(p, fb);
    TimesNext(p, ob);
    LastPixel(s'[start..start + n * ob], row[..n * fb], fb, ob, p);
    SliceOf(s', start, s'[start..start + n * ob], p * ob, fb);
    assert row[..n * fb][p * fb..p * fb + fb] == row[p * fb..n * fb];
  }

  lemma LastPixel(t: seq<nat>, row: seq<nat>, fb: nat, ob: nat, p: nat)
    requires 0 < fb < ob && |t| == p * ob + ob && |row| == p * fb + fb && Patch(t, fb, ob) == Spread(row, fb, ob)
    ensures t[p * ob..p * ob + fb] == row[p * fb..p * fb + fb]
  {
    hide Spread, Patch;
    TimesNext(p, fb);
    TimesNext(p, ob);
    SpreadPixel(row, fb, ob, p + 1, p);
    PatchLast(t, fb, ob, p);
  }

  lemma AboveBoth(s: seq<nat>, s': seq<nat>, start: nat, above: int, first: bool, prior: seq<nat>, fb: nat,
                  ob: nat, width: nat, n: nat)
    requires 0 < fb < ob && 1 <= n < width && |prior| == width * fb && start <= |s| == |s'| && s'[..start] == s[..start]
    requires AboveAlpha(s, above, first, prior, fb, ob) && (!first ==> above + width * ob <= start)
    ensures var over, k := above + n * ob, n * fb;
            && fb <= k && k + fb <= |prior| && Above(s', over, first, prior, k, fb)
            && Above(s', over - ob, first, prior, k - fb, fb) && (!first ==> over + fb <= start)
  {
    hide Above, AboveAlpha;
    var p := n - 1;
    TimesNext(p, fb);
    TimesNext(p, ob);
    AbovePixel(s, above, first, prior, fb, ob, width, n);
    AbovePixel(s, above, first, prior, fb, ob, width, p);
    AboveStays(s, s', start, above + n * ob, first, prior, n * fb, fb);
    AboveStays(s, s', start, above + p * ob, first, prior, p * fb, fb);
  }

  lemma AlphaAdvances(s1: seq<nat>, s2: seq<nat>, s: seq<nat>, start: nat, row: seq<nat>, fb: nat, ob: nat, k: nat,
                      cur: nat)
    requires AlphaAt(s1, s, start, row, fb, ob, k, cur) && k + fb <= |row| && cur + ob <= |s1| == |s2|
    requires s2[..cur] == s1[..cur] && s2[cur..cur + fb] == row[k..k + fb] && s2[cur + fb] == 255
    requires s2[cur + ob..] == s1[cur + ob..]
    ensures AlphaAt(s2, s, start, row, fb, ob, k + fb, cur + ob)
  {
    hide Spread, Patch;
    var pixel := s2[cur..cur + ob];
    assert pixel[..fb] == s2[cur..cur + fb];
    PixelPatched(s1[start..cur], pixel, fb, ob, row[..k], row[k..k + fb]);
    assert row[..k] + row[k..k + fb] == row[..k + fb];
    SlicesGrow(s, s1, s2, start, cur, ob);
  }

  lemma SlicesGrow(s: seq<nat>, s1: seq<nat>, s2: seq<nat>, start: nat, cur: nat, ob: nat)
    requires start <= cur && cur + ob <= |s| == |s1| == |s2|
    requires s1[..start] == s[..start] && s1[cur..] == s[cur..]
    requires s2[..cur] == s1[..cur] && s2[cur + ob..] == s1[cur + ob..]
    ensures s2[start..cur + ob] == s1[start..cur] + s2[cur..cur + ob]
    ensures s2[..start] == s[..start] && s2[cur + ob..] == s[cur + ob..]
  {
    assert s2[start..cur] == s2[..cur][start..] == s1[..cur][start..] == s1[start..cur];
    assert s2[start..cur + ob] == s2[start..cur] + s2[cur..cur + ob];
    assert s2[..start] == s2[..cur][..start] == s1[..cur][..start] == s1[..start];
    assert s1[cur + ob..] == s1[cur..][ob..] == s[cur..][ob..] == s[cur + ob..];
  }
}
