/** From reconstructed rows to rows of the output image: unpacking of small samples and alpha. */
module PngPixels {
  import opened BitOps

  // Alpha

  /** A row of pixels of fb bytes each, with 255 for the alpha bytes up to ob added to every one. */
  function Spread(row: seq<nat>, fb: nat, ob: nat): (r: seq<nat>)
    requires 0 < fb <= ob
  {
    if |row| < fb then []
    else
      var n := |row| - fb;
      Spread(row[..n], fb, ob) + row[n..] + seq(ob - fb, _ => 255)
  }

  lemma TimesNext(a: nat, k: nat)
    ensures (a + 1) * k == a * k + k
  {}

  lemma {:induction false} SpreadSize(row: seq<nat>, fb: nat, ob: nat, pixels: nat)
    requires 0 < fb <= ob && |row| == pixels * fb
    ensures |Spread(row, fb, ob)| == pixels * ob
    decreases pixels
  {
    if pixels > 0 {
      var p := pixels - 1;
      TimesNext(p, fb);
      TimesNext(p, ob);
      SpreadSize(row[..|row| - fb], fb, ob, p);
    }
  }

  /** Each pixel keeps its bytes, and the alpha bytes are 255. */
  lemma {:induction false} SpreadAt(row: seq<nat>, fb: nat, ob: nat, pixels: nat, i: nat, k: nat)
    requires 0 < fb <= ob && |row| == pixels * fb && i < pixels && k < ob
    ensures |Spread(row, fb, ob)| == pixels * ob && i * ob + k < pixels * ob && i * fb + fb <= pixels * fb
    ensures Spread(row, fb, ob)[i * ob + k] == if k < fb then row[i * fb + k] else 255
    decreases pixels
  {
    var p := pixels - 1;
    TimesNext(p, fb);
    TimesNext(p, ob);
    MulMono(i, p, fb);
    MulMono(i, p, ob);
    SpreadSize(row[..|row| - fb], fb, ob, p);
    if i < p {
      TimesNext(i, ob);
      TimesNext(i, fb);
      MulMono(i + 1, p, ob);
      MulMono(i + 1, p, fb);
      SpreadAt(row[..|row| - fb], fb, ob, p, i, k);
    }
  }

  /** Without alpha nothing changes. */
  lemma {:induction false} SpreadSame(row: seq<nat>, fb: nat, pixels: nat)
    requires fb > 0 && |row| == pixels * fb
    ensures Spread(row, fb, fb) == row
    decreases pixels
  {
    if pixels > 0 {
      var p := pixels - 1;
      TimesNext(p, fb);
      SpreadSame(row[..|row| - fb], fb, p);
    }
  }

  /** One pixel more. */
  lemma SpreadNext(row: seq<nat>, fb: nat, ob: nat, pixel: seq<nat>)
    requires 0 < fb <= ob && |pixel| == fb
    ensures Spread(row + pixel, fb, ob) == Spread(row, fb, ob) + pixel + seq(ob - fb, _ => 255)
  {
    var longer := row + pixel;
    assert longer[..|longer| - fb] == row && longer[|longer| - fb..] == pixel;
  }

  lemma SliceOf(s: seq<nat>, at: nat, t: seq<nat>, a: nat, n: nat)
    requires at + |t| <= |s| && s[at..at + |t|] == t && a + n <= |t|
    ensures s[at + a..at + a + n] == t[a..a + n]
  {
    var b := at + a;
    var u, v := s[b..b + n], t[a..a + n];
    forall i | 0 <= i < n
      ensures u[i] == v[i]
    {
      assert s[at..at + |t|][a + i] == t[a + i];
    }
    assert u == v;
  }

  /** The bytes of pixel i, where it comes to be. */
  lemma SpreadPixel(row: seq<nat>, fb: nat, ob: nat, pixels: nat, i: nat)
    requires 0 < fb <= ob && |row| == pixels * fb && i < pixels
    ensures |Spread(row, fb, ob)| == pixels * ob && i * ob + ob <= pixels * ob && i * fb + fb <= pixels * fb
    ensures Spread(row, fb, ob)[i * ob..i * ob + fb] == row[i * fb..i * fb + fb]
  {
    hide Spread;
    SpreadSize(row, fb, ob, pixels);
    TimesNext(i, ob);
    TimesNext(i, fb);
    MulMono(i + 1, pixels, ob);
    MulMono(i + 1, pixels, fb);
    var a, b := i * ob, i * fb;
    var u, v := Spread(row, fb, ob)[a..a + fb], row[b..b + fb];
    forall k | 0 <= k < fb
      ensures u[k] == v[k]
    {
      SpreadAt(row, fb, ob, pixels, i, k);
    }
  }

  // Alpha of two bytes

  /** The alpha bytes but the first set to 255, in pixels of ob bytes whose alpha begins at byte fb. */
  function Patch(s: seq<nat>, fb: nat, ob: nat): seq<nat>
    requires fb < ob
  {
    if |s| < ob then []
    else
      var n := |s| - ob;
      Patch(s[..n], fb, ob) + s[n..n + fb + 1] + seq(ob - fb - 1, _ => 255)
  }

  lemma PatchUnfold(s: seq<nat>, fb: nat, ob: nat)
    requires fb < ob <= |s|
    ensures var n := |s| - ob;
            Patch(s, fb, ob) == Patch(s[..n], fb, ob) + s[n..n + fb + 1] + seq(ob - fb - 1, _ => 255)
  {}

  lemma {:induction false} PatchSize(s: seq<nat>, fb: nat, ob: nat, pixels: nat)
    requires fb < ob && |s| == pixels * ob
    ensures |Patch(s, fb, ob)| == |s|
    decreases pixels
  {
    if pixels > 0 {
      TimesNext(pixels - 1, ob);
      PatchSize(s[..|s| - ob], fb, ob, pixels - 1);
    }
  }

  lemma PatchNext(s: seq<nat>, fb: nat, ob: nat, pixel: seq<nat>)
    requires fb < ob == |pixel|
    ensures Patch(s + pixel, fb, ob) == Patch(s, fb, ob) + pixel[..fb + 1] + seq(ob - fb - 1, _ => 255)
  {
    var longer := s + pixel;
    assert longer[..|s|] == s && longer[|s|..|s| + fb + 1] == pixel[..fb + 1];
  }

  /** The last pixel's bytes before its alpha stay. */
  lemma PatchLast(s: seq<nat>, fb: nat, ob: nat, p: nat)
    requires fb < ob && |s| == p * ob + ob
    ensures |Patch(s, fb, ob)| == |s| && Patch(s, fb, ob)[p * ob..p * ob + fb] == s[p * ob..p * ob + fb]
  {
    hide Patch;
    var n := p * ob;
    PatchUnfold(s, fb, ob);
    PatchSize(s[..n], fb, ob, p);
    MiddlePart(Patch(s[..n], fb, ob), s[n..n + fb + 1], seq(ob - fb - 1, _ => 255), fb);
    assert s[n..n + fb + 1][..fb] == s[n..n + fb];
  }

  lemma MiddlePart(a: seq<nat>, b: seq<nat>, c: seq<nat>, k: nat)
    requires k <= |b|
    ensures (a + b + c)[|a|..|a| + k] == b[..k]
  {}

  /** One alpha byte is set at once. */
  lemma {:induction false} PatchSame(s: seq<nat>, fb: nat, pixels: nat)
    requires |s| == pixels * (fb + 1)
    ensures Patch(s, fb, fb + 1) == s
    decreases pixels
  {
    if pixels > 0 {
      TimesNext(pixels - 1, fb + 1);
      PatchSame(s[..|s| - (fb + 1)], fb, pixels - 1);
    }
  }

  /** The bytes of each pair exchanged: 16-bit words stored with the low byte first. */
  function Swapped(s: seq<nat>): (r: seq<nat>)
    ensures |r| == |s|
    ensures forall k :: 0 <= k < |s| / 2 ==> r[2 * k] == s[2 * k + 1] && r[2 * k + 1] == s[2 * k]
  {
    seq(|s|, i requires 0 <= i < |s| => if i % 2 == 1 then s[i - 1] else if i + 1 < |s| then s[i + 1] else s[i])
  }

  /** Each word sent with the high byte first has the same value with the low byte first. */
  lemma WordsKept(s: seq<nat>, k: nat)
    requires 2 * k + 1 < |s|
    ensures Swapped(s)[2 * k] + 256 * Swapped(s)[2 * k + 1] == 256 * s[2 * k] + s[2 * k + 1]
  {
    hide Swapped;
  }

  lemma SwappedSlice(s: seq<nat>, a: nat, b: nat)
    requires a <= b && 2 * b <= |s|
    ensures Swapped(s)[2 * a..2 * b] == Swapped(s[2 * a..2 * b])
  {
    var u, v := Swapped(s)[2 * a..2 * b], Swapped(s[2 * a..2 * b]);
    forall i | 0 <= i < 2 * b - 2 * a
      ensures u[i] == v[i]
    {
      assert (2 * a + i) % 2 == i % 2;
    }
    assert u == v;
  }

  // Samples of less than a byte

  function PerByte(depth: nat): (n: nat)
    requires depth in {1, 2, 4}
    ensures n * depth == 8
  {
    if depth == 1 then 8 else if depth == 2 then 4 else 2
  }

  /** How many bits of a byte come after its first n samples: 8 - depth * n. */
  function Rest(depth: nat, n: nat): nat
    requires depth in {1, 2, 4} && n <= PerByte(depth)
  {
    if depth == 1 then 8 - n else if depth == 2 then 8 - 2 * n else 8 - 4 * n
  }

  /** Sample m of a byte, the first being the most significant. */
  function Sample(b: nat, depth: nat, m: nat): nat
    requires depth in {1, 2, 4} && m < PerByte(depth)
  {
    And(Shr(b, Rest(depth, m + 1)), Pow2(depth) - 1)
  }

  /** The first n samples of a byte, scaled. */
  function Samples(b: nat, depth: nat, scale: nat, n: nat): (r: seq<nat>)
    requires depth in {1, 2, 4} && n <= PerByte(depth)
    ensures |r| == n && forall m :: 0 <= m < n ==> r[m] == scale * Sample(b, depth, m)
  {
    if n == 0 then [] else Samples(b, depth, scale, n - 1) + [scale * Sample(b, depth, n - 1)]
  }

  function Min(a: nat, b: nat): nat {
    if a < b then a else b
  }

  /** n samples unpacked from a row of bytes. */
  function Unpack(bytes: seq<nat>, depth: nat, scale: nat, n: nat): (r: seq<nat>)
    requires depth in {1, 2, 4} && n <= |bytes| * PerByte(depth)
    ensures |r| == n
    decreases |bytes|, n
  {
    if n == 0 || bytes == [] then []
    else
      var k := Min(n, PerByte(depth));
      TimesNext(|bytes| - 1, PerByte(depth));
      Samples(bytes[0], depth, scale, k) + Unpack(bytes[1..], depth, scale, n - k)
  }

  /** Unpacking goes byte by byte. */
  lemma UnpackByte(bytes: seq<nat>, depth: nat, scale: nat, k: nat)
    requires depth in {1, 2, 4} && 0 < k <= |bytes| * PerByte(depth) && |bytes| > 0
    ensures var s := Min(k, PerByte(depth));
            && k - s <= |bytes[1..]| * PerByte(depth)
            && Unpack(bytes, depth, scale, k) == Samples(bytes[0], depth, scale, s) + Unpack(bytes[1..], depth, scale, k - s)
  {
    hide Samples;
    TimesNext(|bytes| - 1, PerByte(depth));
  }

  /** Sample q is the one at place q mod s in byte q div s, with s samples to a byte. */
  lemma {:induction false} UnpackAt(bytes: seq<nat>, depth: nat, scale: nat, n: nat, q: nat)
    requires depth in {1, 2, 4} && q < n <= |bytes| * PerByte(depth)
    ensures q / PerByte(depth) < |bytes|
    ensures Unpack(bytes, depth, scale, n)[q] == scale * Sample(bytes[q / PerByte(depth)], depth, q % PerByte(depth))
    decreases |bytes|
  {
    hide Sample, Samples, PerByte, Unpack;
    var s := PerByte(depth);
    var k := Min(n, s);
    SomeByte(|bytes|, s, n);
    UnpackByte(bytes, depth, scale, n);
    PlaceInBytes(depth, q);
    if q >= s {
      UnpackAt(bytes[1..], depth, scale, n - k, q - s);
    }
  }

  lemma SomeByte(bytes: nat, s: nat, n: nat)
    requires 0 < n <= bytes * s
    ensures bytes > 0
  {}

  lemma PlaceInBytes(depth: nat, q: nat)
    requires depth in {1, 2, 4}
    ensures var s := PerByte(depth);
            if q < s then q / s == 0 && q % s == q else q / s == (q - s) / s + 1 && q % s == (q - s) % s
  {}

  /** The samples of a byte, put together again. */
  function Pack(samples: seq<nat>, depth: nat): nat {
    if samples == [] then 0
    else Pack(samples[..|samples| - 1], depth) * Pow2(depth) + samples[|samples| - 1]
  }

  /** No bit of a byte is lost in its samples. */
  lemma {:induction false} SamplesArePacked(b: nat, depth: nat, n: nat)
    requires depth in {1, 2, 4} && n <= PerByte(depth) && b < 256
    ensures Pack(Samples(b, depth, 1, n), depth) == Shr(b, Rest(depth, n))
    decreases n
  {
    hide Shr, Sample, Pow2, Pack;
    if n == 0 {
      NothingPacked(b, depth);
    } else {
      var m := n - 1;
      SamplesArePacked(b, depth, m);
      SampleSplit(b, depth, m);
      PackNext(Samples(b, depth, 1, m), Sample(b, depth, m), depth);
    }
  }

  lemma NothingPacked(b: nat, depth: nat)
    requires b < 256
    ensures Pack([], depth) == 0 == Shr(b, 8)
  {
    hide Shr, Pow2;
    Pow2Values();
    SplitUnique(0, b, 8);
  }

  lemma PackNext(samples: seq<nat>, s: nat, depth: nat)
    ensures Pack(samples + [s], depth) == Pack(samples, depth) * Pow2(depth) + s
  {
    hide Pow2;
    assert (samples + [s])[..|samples|] == samples;
  }

  lemma SampleSplit(b: nat, depth: nat, m: nat)
    requires depth in {1, 2, 4} && m < PerByte(depth)
    ensures Shr(b, Rest(depth, m + 1)) == Shr(b, Rest(depth, m)) * Pow2(depth) + Sample(b, depth, m)
  {
    hide Shr, And, Low, Pow2;
    var low := Rest(depth, m + 1);
    assert low + depth == Rest(depth, m);
    SplitAt(b, depth, low);
  }

  lemma SplitAt(b: nat, depth: nat, low: nat)
    ensures Shr(b, low) == Shr(b, low + depth) * Pow2(depth) + And(Shr(b, low), Pow2(depth) - 1)
  {
    hide Shr, And, Low, Pow2;
    ShrShr(b, low, depth);
    AndMask(Shr(b, low), depth);
    ShrLow(Shr(b, low), depth);
  }
}
