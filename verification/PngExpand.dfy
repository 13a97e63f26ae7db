/** Unpacking rows of small samples, and adding their alpha, where they lie. */
module PngExpand {
  import opened PngPixels

  /** The bytes that n samples take. */
  function PackedBytes(n: nat, depth: nat): nat {
    (n * depth + 7) / 8
  }

  lemma PackedBounds(n: nat, depth: nat)
    requires depth in {1, 2, 4}
    ensures var w, s := PackedBytes(n, depth), PerByte(depth);
            n <= w * s && (n > 0 ==> w > 0 && n > (w - 1) * s) && w <= n
  {}

  /** Before a byte is unpacked its last sample's place is no further than the byte itself. */
  lemma StaysAhead(k: nat, rest: nat, depth: nat)
    requires depth in {1, 2, 4} && 0 < k <= rest * PerByte(depth) && rest > 0 && k > (rest - 1) * PerByte(depth)
    ensures k - rest >= Min(k, PerByte(depth)) - 1
    ensures k > PerByte(depth) ==> k - PerByte(depth) <= (rest - 1) * PerByte(depth)
                                   && rest > 1 && k - PerByte(depth) > (rest - 2) * PerByte(depth)
    ensures k <= PerByte(depth) ==> rest == 1
  {}

  /** Writes the first n samples of the byte at place from to place cur on, reading it again for each. */
  method PutSamples(out: array<nat>, cur: nat, from: nat, n: nat, depth: nat, scale: nat)
    requires depth in {1, 2, 4} && n <= PerByte(depth) && cur + n <= from + 1 && from < out.Length
    modifies out
    ensures out[cur..cur + n] == Samples(old(out[from]), depth, scale, n)
    ensures out[..cur] == old(out[..cur]) && out[cur + n..] == old(out[cur + n..])
  {
    hide Sample, Samples;
    ghost var b := out[from];
    for m := 0 to n
      invariant forall p :: cur <= p < cur + m ==> out[p] == Samples(b, depth, scale, n)[p - cur]
      invariant forall p :: 0 <= p < cur || cur + m <= p < out.Length ==> out[p] == old(out[p])
    {
      out[cur + m] := scale * Sample(out[from], depth, m);
    }
  }

  /** Halfway: k of the row's x samples are left, packed from place from on, to be put from place
      cur on. */
  ghost predicate Places(size: nat, row: nat, end: nat, x: nat, depth: nat, cur: nat, from: nat, k: nat)
    requires depth in {1, 2, 4}
  {
    var w := PackedBytes(x, depth);
    && row + x <= end <= size && w <= x <= w * PerByte(depth) && k <= x && cur == row + (x - k)
    && end - w <= from <= end && k <= (end - from) * PerByte(depth)
    && (k > 0 ==> from < end && k > (end - from - 1) * PerByte(depth))
  }

  /** The samples up to place cur and those still packed from place from on are all of the
      row's, and nothing from cur on has been written to. */
  ghost predicate Expanding(s: seq<nat>, s': seq<nat>, row: nat, end: nat, x: nat, depth: nat, scale: nat,
                            cur: nat, from: nat, k: nat)
    requires depth in {1, 2, 4}
  {
    && |s| == |s'| && Places(|s|, row, end, x, depth, cur, from, k)
    && Unpack(s[end - PackedBytes(x, depth)..end], depth, scale, x) == s'[row..cur] + Unpack(s[from..end], depth, scale, k)
    && s'[..row] == s[..row] && s'[cur..] == s[cur..]
  }

  lemma ExpandBegins(s: seq<nat>, row: nat, end: nat, x: nat, depth: nat, scale: nat)
    requires depth in {1, 2, 4} && row + x <= end <= |s|
    ensures PackedBytes(x, depth) <= x && Expanding(s, s, row, end, x, depth, scale, row, end - PackedBytes(x, depth), x)
  {
    hide Unpack;
    PackedBounds(x, depth);
  }

  /** There is room for a byte's samples, and the byte has not been written over. */
  lemma ExpandRoom(s: seq<nat>, s1: seq<nat>, row: nat, end: nat, x: nat, depth: nat, scale: nat, cur: nat,
                   from: nat, k: nat)
    requires depth in {1, 2, 4} && k > 0 && Expanding(s, s1, row, end, x, depth, scale, cur, from, k)
    ensures from < end <= |s| == |s1| && cur + Min(k, PerByte(depth)) <= from + 1 && s1[from] == s[from]
  {
    hide Unpack, PackedBytes, PerByte;
    StaysAhead(k, end - from, depth);
    assert s1[from] == s1[cur..][from - cur] == s[cur..][from - cur] == s[from];
  }

  /** Writing them there. */
  lemma ExpandStep(s: seq<nat>, s1: seq<nat>, s2: seq<nat>, row: nat, end: nat, x: nat, depth: nat, scale: nat,
                   cur: nat, from: nat, k: nat, n: nat)
    requires depth in {1, 2, 4} && k > 0 && Expanding(s, s1, row, end, x, depth, scale, cur, from, k)
    requires n == Min(k, PerByte(depth)) && from < |s1| && cur + n <= from + 1
    requires |s2| == |s1| && s2[..cur] == s1[..cur] && s2[cur + n..] == s1[cur + n..]
    requires s2[cur..cur + n] == Samples(s[from], depth, scale, n)
    ensures Expanding(s, s2, row, end, x, depth, scale, cur + n, from + 1, k - n)
  {
    hide Unpack, Samples, PackedBytes, PerByte, Places;
    PlacesStep(|s|, row, end, x, depth, cur, from, k);
    UnpackByte(s[from..end], depth, scale, k);
    assert s[from..end][1..] == s[from + 1..end];
    SlicesStep(s, s1, s2, row, cur, n);
    Joined(s1[row..cur], s2[cur..cur + n], Unpack(s[from + 1..end], depth, scale, k - n));
  }

  lemma PlacesStep(size: nat, row: nat, end: nat, x: nat, depth: nat, cur: nat, from: nat, k: nat)
    requires depth in {1, 2, 4} && k > 0 && Places(size, row, end, x, depth, cur, from, k)
    ensures var n := Min(k, PerByte(depth));
            && row <= cur && from < end <= size && 0 < k <= (end - from) * PerByte(depth)
            && PackedBytes(x, depth) <= end && x <= PackedBytes(x, depth) * PerByte(depth)
            && Places(size, row, end, x, depth, cur + n, from + 1, k - n)
            && k - n <= (end - from - 1) * PerByte(depth)
  {
    hide PackedBytes, PerByte;
    StaysAhead(k, end - from, depth);
  }

  lemma Joined(a: seq<nat>, b: seq<nat>, c: seq<nat>)
    ensures a + (b + c) == a + b + c
  {}

  lemma SlicesStep(s: seq<nat>, s1: seq<nat>, s2: seq<nat>, row: nat, cur: nat, n: nat)
    requires row <= cur && cur + n <= |s| == |s1| == |s2|
    requires s1[..row] == s[..row] && s1[cur..] == s[cur..] && s2[..cur] == s1[..cur] && s2[cur + n..] == s1[cur + n..]
    ensures s2[row..cur + n] == s1[row..cur] + s2[cur..cur + n] && s2[..row] == s[..row] && s2[cur + n..] == s[cur + n..]
  {
    assert s2[row..cur] == s2[..cur][row..] == s1[..cur][row..] == s1[row..cur];
    assert s2[row..cur + n] == s2[row..cur] + s2[cur..cur + n];
    assert s2[..row] == s2[..cur][..row] == s1[..cur][..row] == s1[..row];
    assert s1[cur + n..] == s1[cur..][n..] == s[cur..][n..] == s[cur + n..];
  }

  lemma ExpandEnds(s: seq<nat>, s': seq<nat>, row: nat, end: nat, x: nat, depth: nat, scale: nat, cur: nat, from: nat)
    requires depth in {1, 2, 4} && Expanding(s, s', row, end, x, depth, scale, cur, from, 0)
    ensures PackedBytes(x, depth) <= x && x <= PackedBytes(x, depth) * PerByte(depth)
    ensures s'[row..row + x] == Unpack(s[end - PackedBytes(x, depth)..end], depth, scale, x)
    ensures s'[..row] == s[..row] && s'[row + x..] == s[row + x..]
  {
    hide PackedBytes, PerByte;
  }

  /** Unpacks x samples from the end of a row's place to its beginning. No byte is written over
      before it has been read: the result is that of unpacking from a copy. */
  method ExpandRow(out: array<nat>, row: nat, end: nat, x: nat, depth: nat, scale: nat)
    requires depth in {1, 2, 4} && row + x <= end <= out.Length
    modifies out
    ensures PackedBytes(x, depth) <= x && x <= PackedBytes(x, depth) * PerByte(depth)
    ensures out[row..row + x] == Unpack(old(out[end - PackedBytes(x, depth)..end]), depth, scale, x)
    ensures out[..row] == old(out[..row]) && out[row + x..] == old(out[row + x..])
  {
    hide Expanding, Unpack, Samples, PackedBytes, PerByte;
    ghost var s := out[..];
    ExpandBegins(s, row, end, x, depth, scale);
    var cur: nat, from: nat, k: nat := row, end - PackedBytes(x, depth), x;
    assert s[end - PackedBytes(x, depth)..end] == out[end - PackedBytes(x, depth)..end];
    while k >= PerByte(depth)
      invariant Expanding(s, out[..], row, end, x, depth, scale, cur, from, k)
    {
      ExpandHead(s, out, row, end, x, depth, scale, cur, from, k, PerByte(depth));
      cur, from, k := cur + PerByte(depth), from + 1, k - PerByte(depth);
    }
    if k > 0 {
      ExpandHead(s, out, row, end, x, depth, scale, cur, from, k, k);
      cur, from, k := cur + k, from + 1, 0;
    }
    ExpandEnds(s, out[..], row, end, x, depth, scale, cur, from);
  }

  /** Unpacks the next byte. */
  method ExpandHead(ghost s: seq<nat>, out: array<nat>, ghost row: nat, ghost end: nat, ghost x: nat, depth: nat,
                    scale: nat,
                    cur: nat, from: nat, ghost k: nat, n: nat)
    requires depth in {1, 2, 4} && k > 0 && n == Min(k, PerByte(depth))
    requires Expanding(s, out[..], row, end, x, depth, scale, cur, from, k)
    modifies out
    ensures Expanding(s, out[..], row, end, x, depth, scale, cur + n, from + 1, k - n)
  {
    hide Expanding, Unpack, Samples, PackedBytes, PerByte;
    ghost var s1 := out[..];
    ExpandRoom(s, s1, row, end, x, depth, scale, cur, from, k);
    PutSamples(out, cur, from, n, depth, scale);
    ExpandStep(s, s1, out[..], row, end, x, depth, scale, cur, from, k, n);
  }

  /** Puts alpha after each of x samples, from the last pixel to the first. */
  method InsertAlpha(out: array<nat>, row: nat, x: nat)
    requires row + 2 * x <= out.Length
    modifies out
    ensures out[row..row + 2 * x] == Spread(old(out[row..row + x]), 1, 2)
    ensures out[..row] == old(out[..row]) && out[row + 2 * x..] == old(out[row + 2 * x..])
  {
    hide Spread;
    ghost var samples := out[row..row + x];
    ghost var spread := Spread(samples, 1, 2);
    SpreadSize(samples, 1, 2, x);
    var q := x;
    while q > 0
      invariant 0 <= q <= x && |spread| == 2 * x
      invariant forall i :: row + 2 * q <= i < row + 2 * x ==> out[i] == spread[i - row]
      invariant forall i :: 0 <= i < row + 2 * q || row + 2 * x <= i < out.Length ==> out[i] == old(out[i])
    {
      q := q - 1;
      SpreadAt(samples, 1, 2, x, q, 0);
      SpreadAt(samples, 1, 2, x, q, 1);
      ghost var at := 2 * q;
      assert spread[at] == samples[q] == out[row + q] && spread[at + 1] == 255;
      out[row + 2 * q + 1] := 255;
      out[row + 2 * q] := out[row + q];
    }
  }

  /** Puts alpha after each of x pixels of three samples, from the last pixel to the first. */
  method InsertAlphaRgb(out: array<nat>, row: nat, x: nat)
    requires row + 4 * x <= out.Length
    modifies out
    ensures out[row..row + 4 * x] == Spread(old(out[row..row + 3 * x]), 3, 4)
    ensures out[..row] == old(out[..row]) && out[row + 4 * x..] == old(out[row + 4 * x..])
  {
    hide Spread;
    ghost var samples := out[row..row + 3 * x];
    ghost var spread := Spread(samples, 3, 4);
    SpreadSize(samples, 3, 4, x);
    var q := x;
    while q > 0
      invariant 0 <= q <= x && |spread| == 4 * x
      invariant forall i :: row + 4 * q <= i < row + 4 * x ==> out[i] == spread[i - row]
      invariant forall i :: 0 <= i < row + 4 * q || row + 4 * x <= i < out.Length ==> out[i] == old(out[i])
    {
      q := q - 1;
      PixelOfThree(samples, x, q);
      ghost var from := 3 * q;
      assert samples[from] == out[row + from] && samples[from + 1] == out[row + from + 1];
      assert samples[from + 2] == out[row + from + 2];
      RgbaPixel(out, row + 4 * q, row + 3 * q);
    }
  }

  /** One pixel moved up, with alpha. */
  method RgbaPixel(out: array<nat>, to: nat, from: nat)
    requires from <= to && to + 4 <= out.Length
    modifies out
    ensures out[to] == old(out[from]) && out[to + 1] == old(out[from + 1]) && out[to + 2] == old(out[from + 2])
    ensures out[to + 3] == 255
    ensures forall i :: 0 <= i < to || to + 4 <= i < out.Length ==> out[i] == old(out[i])
  {
    out[to + 3] := 255;
    out[to + 2] := out[from + 2];
    out[to + 1] := out[from + 1];
    out[to] := out[from];
  }

  lemma PixelOfThree(samples: seq<nat>, x: nat, q: nat)
    requires |samples| == 3 * x && q < x
    ensures var s := Spread(samples, 3, 4);
            && |s| == 4 * x && s[4 * q] == samples[3 * q] && s[4 * q + 1] == samples[3 * q + 1]
            && s[4 * q + 2] == samples[3 * q + 2] && s[4 * q + 3] == 255
  {
    hide Spread;
    SpreadAt(samples, 3, 4, x, q, 0);
    SpreadAt(samples, 3, 4, x, q, 1);
    SpreadAt(samples, 3, 4, x, q, 2);
    SpreadAt(samples, 3, 4, x, q, 3);
  }
}
