/** The five row filters of PNG (PNG specification, section 9): what they mean, and that
    reconstruction undoes them. */
module PngFilters {

  /** abs(v) */
  function Abs(v: int): nat {
    if v < 0 then -v else v
  }

  function Paeth(a: int, b: int, c: int): int {
    var p := a + b - c;
    var pa := Abs(p - a);
    var pb := Abs(p - b);
    var pc := Abs(p - c);
    if pa <= pb && pa <= pc then a else if pb <= pc then b else c
  }

  /** The prediction is that neighbour - left, above, upper left, in this order - which is nearest
      to the plane a + b - c. */
  lemma PaethNearest(a: int, b: int, c: int)
    ensures var p, r := a + b - c, Paeth(a, b, c);
            && r in {a, b, c} && Abs(p - r) <= Abs(p - a) && Abs(p - r) <= Abs(p - b) && Abs(p - r) <= Abs(p - c)
            && (r != a ==> Abs(p - r) < Abs(p - a)) && (r != a && r != b ==> Abs(p - r) < Abs(p - b))
  {}

  /** At the edges of an image it is the one neighbour there is. */
  lemma PaethAtEdges(a: nat, b: nat)
    ensures Paeth(a, 0, 0) == a && Paeth(0, b, 0) == b
  {}

  /** What filter f subtracts, given the bytes to the left, above and to the upper left. */
  function Predict(f: nat, a: nat, b: nat, c: nat): (r: nat)
    requires a < 256 && b < 256 && c < 256
    ensures r < 256
  {
    if f == 1 then a
    else if f == 2 then b
    else if f == 3 then (a + b) / 2
    else if f == 4 then Paeth(a, b, c)
    else 0
  }

  ghost predicate Bytes(s: seq<nat>) {
    forall i :: 0 <= i < |s| ==> s[i] < 256
  }

  /** The byte bpp places before n, which is 0 at the beginning of a row. */
  function Left(row: seq<nat>, bpp: nat, n: nat): nat
    requires n <= |row| && bpp > 0
  {
    if n < bpp then 0 else row[n - bpp]
  }

  /** The row that filter f, applied above and to the right of what is known, made into data. */
  function Reconstruct(f: nat, bpp: nat, prior: seq<nat>, data: seq<nat>): (row: seq<nat>)
    requires bpp > 0 && |data| <= |prior| && Bytes(prior)
    ensures |row| == |data| && Bytes(row)
  {
    if data == [] then []
    else
      var n := |data| - 1;
      var row := Reconstruct(f, bpp, prior, data[..n]);
      row + [(data[n] + Predict(f, Left(row, bpp, n), prior[n], Left(prior, bpp, n))) % 256]
  }

  /** Filter f applied to a row. */
  function Filter(f: nat, bpp: nat, prior: seq<nat>, row: seq<nat>): (data: seq<nat>)
    requires bpp > 0 && |row| <= |prior| && Bytes(prior) && Bytes(row)
    ensures |data| == |row| && Bytes(data)
  {
    if row == [] then []
    else
      var n := |row| - 1;
      Filter(f, bpp, prior, row[..n])
        + [(row[n] + 256 - Predict(f, Left(row, bpp, n), prior[n], Left(prior, bpp, n))) % 256]
  }

  lemma Undone(v: nat, p: nat)
    requires v < 256 && p < 256
    ensures ((v + 256 - p) % 256 + p) % 256 == v
  {}

  /** Reconstruction undoes each filter. */
  lemma {:induction false} RowRoundTrip(f: nat, bpp: nat, prior: seq<nat>, row: seq<nat>)
    requires bpp > 0 && |row| <= |prior| && Bytes(prior) && Bytes(row)
    ensures Reconstruct(f, bpp, prior, Filter(f, bpp, prior, row)) == row
  {
    hide Predict;
    if row != [] {
      var n := |row| - 1;
      RowRoundTrip(f, bpp, prior, row[..n]);
      var data := Filter(f, bpp, prior, row);
      assert data[..n] == Filter(f, bpp, prior, row[..n]);
      assert Left(row[..n], bpp, n) == Left(row, bpp, n);
      Undone(row[n], Predict(f, Left(row, bpp, n), prior[n], Left(prior, bpp, n)));
    }
  }

  lemma {:induction false} FilterAt(f: nat, bpp: nat, prior: seq<nat>, row: seq<nat>, n: nat)
    requires bpp > 0 && |row| <= |prior| && Bytes(prior) && Bytes(row) && n < |row|
    ensures Filter(f, bpp, prior, row)[n]
         == (row[n] + 256 - Predict(f, Left(row, bpp, n), prior[n], Left(prior, bpp, n))) % 256
    decreases |row|
  {
    hide Predict;
    var k := |row| - 1;
    if n < k {
      FilterAt(f, bpp, prior, row[..k], n);
    }
  }

  /** What the first four filters make nothing of: zero; the byte to the left; the one above; and the
      mean of the two, rounded down. */
  lemma FiltersMean(bpp: nat, prior: seq<nat>, row: seq<nat>, n: nat)
    requires bpp > 0 && |row| <= |prior| && Bytes(prior) && Bytes(row) && n < |row|
    ensures Filter(0, bpp, prior, row)[n] == 0 <==> row[n] == 0
    ensures Filter(1, bpp, prior, row)[n] == 0 <==> row[n] == if n < bpp then 0 else row[n - bpp]
    ensures Filter(2, bpp, prior, row)[n] == 0 <==> row[n] == prior[n]
    ensures Filter(3, bpp, prior, row)[n] == 0
            <==> 2 * row[n] <= (if n < bpp then 0 else row[n - bpp]) + prior[n] <= 2 * row[n] + 1
  {
    hide Filter, Bytes;
    NoRest(0, bpp, prior, row, n);
    NoRest(1, bpp, prior, row, n);
    NoRest(2, bpp, prior, row, n);
    NoRest(3, bpp, prior, row, n);
    Mean(Left(row, bpp, n) + prior[n], row[n]);
  }

  /** And the fifth: of left, above and upper left the one nearest to what a plane through them gives,
      the first of them if there are several. */
  lemma PaethMeans(bpp: nat, prior: seq<nat>, row: seq<nat>, n: nat)
    requires bpp > 0 && |row| <= |prior| && Bytes(prior) && Bytes(row) && n < |row|
    ensures var a, b, c, v := Left(row, bpp, n), prior[n], Left(prior, bpp, n), row[n];
            Filter(4, bpp, prior, row)[n] == 0 <==>
              && v in {a, b, c} && Abs(a + b - c - v) <= Abs(b - c) && Abs(a + b - c - v) <= Abs(a - c)
              && Abs(a + b - c - v) <= Abs(a + b - 2 * c)
              && (v != a ==> Abs(a + b - c - v) < Abs(b - c))
              && (v != a && v != b ==> Abs(a + b - c - v) < Abs(a - c))
  {
    hide Filter, Bytes, Left, Abs, Paeth;
    NoRest(4, bpp, prior, row, n);
    NearestOnly(Left(row, bpp, n), prior[n], Left(prior, bpp, n), row[n]);
  }

  lemma NoRest(f: nat, bpp: nat, prior: seq<nat>, row: seq<nat>, n: nat)
    requires bpp > 0 && |row| <= |prior| && Bytes(prior) && Bytes(row) && n < |row|
    ensures Left(row, bpp, n) < 256 && prior[n] < 256 && Left(prior, bpp, n) < 256 && row[n] < 256
    ensures Filter(f, bpp, prior, row)[n] == 0
            <==> row[n] == Predict(f, Left(row, bpp, n), prior[n], Left(prior, bpp, n))
  {
    hide Filter, Predict;
    FilterAt(f, bpp, prior, row, n);
    NothingMod(row[n], Predict(f, Left(row, bpp, n), prior[n], Left(prior, bpp, n)));
  }

  lemma NothingMod(v: nat, p: nat)
    requires v < 256 && p < 256
    ensures (v + 256 - p) % 256 == 0 <==> v == p
  {}

  lemma Mean(sum: nat, v: nat)
    ensures v == sum / 2 <==> 2 * v <= sum <= 2 * v + 1
  {}

  lemma NearestOnly(a: nat, b: nat, c: nat, v: nat)
    ensures v == Paeth(a, b, c) <==>
              && v in {a, b, c} && Abs(a + b - c - v) <= Abs(b - c) && Abs(a + b - c - v) <= Abs(a - c)
              && Abs(a + b - c - v) <= Abs(a + b - 2 * c)
              && (v != a ==> Abs(a + b - c - v) < Abs(b - c))
              && (v != a && v != b ==> Abs(a + b - c - v) < Abs(a - c))
  {}

  /** Byte n of a reconstructed row, from the bytes around it. */
  lemma {:induction false} ReconstructAt(f: nat, bpp: nat, prior: seq<nat>, data: seq<nat>, n: nat)
    requires bpp > 0 && |data| <= |prior| && Bytes(prior) && n < |data|
    ensures var row := Reconstruct(f, bpp, prior, data);
            row[n] == (data[n] + Predict(f, Left(row, bpp, n), prior[n], Left(prior, bpp, n))) % 256
    decreases |data|
  {
    var k := |data| - 1;
    if n < k {
      ReconstructAt(f, bpp, prior, data[..k], n);
    }
  }

  // Whole images

  function Zeros(n: nat): (r: seq<nat>)
    ensures |r| == n && forall i :: 0 <= i < n ==> r[i] == 0
  {
    seq(n, _ => 0)
  }

  /** The filtered bytes of row j, after its filter byte. */
  function RowData(raw: seq<nat>, width: nat, j: nat): (r: seq<nat>)
    requires (j + 1) * (width + 1) <= |raw|
    ensures |r| == width
  {
    RowFits(width, j);
    raw[j * (width + 1) + 1..(j + 1) * (width + 1)]
  }

  lemma RowFits(width: nat, j: nat)
    ensures (j + 1) * (width + 1) == j * (width + 1) + width + 1
  {}

  lemma RowsFit(width: nat, j: nat, k: nat)
    requires j <= k
    ensures j * (width + 1) <= k * (width + 1)
  {}

  /** Row j of the image that raw holds, each row led by its filter's number. */
  function Row(raw: seq<nat>, bpp: nat, width: nat, j: nat): (r: seq<nat>)
    requires bpp > 0 && (j + 1) * (width + 1) <= |raw|
    ensures |r| == width && Bytes(r)
    decreases j
  {
    RowFits(width, j);
    var prior := if j == 0 then Zeros(width) else Row(raw, bpp, width, j - 1);
    Reconstruct(raw[j * (width + 1)], bpp, prior, RowData(raw, width, j))
  }

  /** Row j in terms of the row before and the bytes after its filter's number. */
  lemma RowStep(raw: seq<nat>, bpp: nat, width: nat, j: nat, at: nat)
    requires bpp > 0 && (j + 1) * (width + 1) <= |raw| && at == j * (width + 1)
    ensures at + 1 + width <= |raw| && (j > 0 ==> (j - 1 + 1) * (width + 1) <= |raw|)
    ensures Row(raw, bpp, width, j)
              == Reconstruct(raw[at], bpp, if j == 0 then Zeros(width) else Row(raw, bpp, width, j - 1), raw[at + 1..at + 1 + width])
  {
    hide Reconstruct;
    RowFits(width, j);
    assert RowData(raw, width, j) == raw[at + 1..at + 1 + width];
  }

  /** An image's rows, filtered as the encoder chose. */
  function Encode(rows: seq<seq<nat>>, filters: seq<nat>, bpp: nat, width: nat): (raw: seq<nat>)
    requires bpp > 0 && |filters| == |rows| && forall j :: 0 <= j < |rows| ==> |rows[j]| == width && Bytes(rows[j])
    ensures |raw| == |rows| * (width + 1)
  {
    if rows == [] then []
    else
      var n := |rows| - 1;
      RowFits(width, n);
      var prior := if n == 0 then Zeros(width) else rows[n - 1];
      Encode(rows[..n], filters[..n], bpp, width) + [filters[n]] + Filter(filters[n], bpp, prior, rows[n])
  }

  /** Whatever filters an encoder chooses, the decoder's rows are the image's. */
  lemma {:induction false} ImageRoundTrip(rows: seq<seq<nat>>, filters: seq<nat>, bpp: nat, width: nat, j: nat)
    requires bpp > 0 && |filters| == |rows| && forall j :: 0 <= j < |rows| ==> |rows[j]| == width && Bytes(rows[j])
    requires j < |rows|
    ensures (j + 1) * (width + 1) <= |Encode(rows, filters, bpp, width)|
    ensures Row(Encode(rows, filters, bpp, width), bpp, width, j) == rows[j]
    decreases |rows|
  {
    hide Encode, Reconstruct, Filter, Row;
    var n := |rows| - 1;
    var raw, head := Encode(rows, filters, bpp, width), Encode(rows[..n], filters[..n], bpp, width);
    EncodeLast(rows, filters, bpp, width);
    RowFits(width, n);
    RowsFit(width, j + 1, n + 1);
    if j < n {
      RowsFit(width, j + 1, n);
      ImageRoundTrip(rows[..n], filters[..n], bpp, width, j);
      RowPrefix(head, raw, bpp, width, j);
    } else {
      if n > 0 {
        var k := n - 1;
        RowsFit(width, k + 1, n);
        ImageRoundTrip(rows[..n], filters[..n], bpp, width, k);
        RowPrefix(head, raw, bpp, width, k);
      }
      LastRow(raw, bpp, width, n, filters[n], if n == 0 then Zeros(width) else rows[n - 1], rows[n]);
    }
  }

  lemma EncodeLast(rows: seq<seq<nat>>, filters: seq<nat>, bpp: nat, width: nat)
    requires bpp > 0 && |filters| == |rows| > 0 && forall j :: 0 <= j < |rows| ==> |rows[j]| == width && Bytes(rows[j])
    ensures var n := |rows| - 1;
            var raw, head := Encode(rows, filters, bpp, width), Encode(rows[..n], filters[..n], bpp, width);
            && |head| == n * (width + 1) && |raw| == (n + 1) * (width + 1)
            && raw == head + [filters[n]] + Filter(filters[n], bpp, if n == 0 then Zeros(width) else rows[n - 1], rows[n])
            && head == raw[..|head|]
  {
    hide Filter;
  }

  /** Each row is led by its filter's number. */
  lemma {:induction false} EncodedFilter(rows: seq<seq<nat>>, filters: seq<nat>, bpp: nat, width: nat, j: nat)
    requires bpp > 0 && |filters| == |rows| && forall j :: 0 <= j < |rows| ==> |rows[j]| == width && Bytes(rows[j])
    requires j < |rows|
    ensures j * (width + 1) < |Encode(rows, filters, bpp, width)|
    ensures Encode(rows, filters, bpp, width)[j * (width + 1)] == filters[j]
    decreases |rows|
  {
    hide Encode, Filter;
    var n := |rows| - 1;
    EncodeLast(rows, filters, bpp, width);
    RowFits(width, j);
    RowsFit(width, j + 1, n + 1);
    if j < n {
      EncodedFilter(rows[..n], filters[..n], bpp, width, j);
    }
  }

  lemma LastRow(raw: seq<nat>, bpp: nat, width: nat, n: nat, f: nat, prior: seq<nat>, row: seq<nat>)
    requires bpp > 0 && |raw| == (n + 1) * (width + 1) && |prior| == |row| == width && Bytes(prior) && Bytes(row)
    requires n * (width + 1) < |raw|
    requires raw[n * (width + 1)..] == [f] + Filter(f, bpp, prior, row)
    requires n > 0 ==> (n - 1 + 1) * (width + 1) <= |raw| && Row(raw, bpp, width, n - 1) == prior
    requires n == 0 ==> prior == Zeros(width)
    ensures Row(raw, bpp, width, n) == row
  {
    hide Filter, Reconstruct;
    RowFits(width, n);
    var start := n * (width + 1);
    assert raw[start] == raw[start..][0] == f;
    assert RowData(raw, width, n) == raw[start..][1..] == Filter(f, bpp, prior, row);
    RowRoundTrip(f, bpp, prior, row);
  }

  /** A row depends only on the bytes up to its end. */
  lemma {:induction false} RowPrefix(raw: seq<nat>, longer: seq<nat>, bpp: nat, width: nat, j: nat)
    requires bpp > 0 && (j + 1) * (width + 1) <= |raw| <= |longer| && raw == longer[..|raw|]
    ensures Row(longer, bpp, width, j) == Row(raw, bpp, width, j)
    decreases j
  {
    hide Reconstruct, RowData;
    RowFits(width, j);
    RowDataPrefix(raw, longer, width, j);
    if j > 0 {
      RowPrefix(raw, longer, bpp, width, j - 1);
    }
  }

  lemma RowDataPrefix(raw: seq<nat>, longer: seq<nat>, width: nat, j: nat)
    requires (j + 1) * (width + 1) <= |raw| <= |longer| && raw == longer[..|raw|]
    ensures RowData(longer, width, j) == RowData(raw, width, j)
    ensures j * (width + 1) < |raw| && longer[j * (width + 1)] == raw[j * (width + 1)]
  {
    RowFits(width, j);
    var lo, hi := j * (width + 1) + 1, (j + 1) * (width + 1);
    assert longer[lo..hi] == longer[..|raw|][lo..hi];
    assert longer[lo - 1] == longer[..|raw|][lo - 1];
  }
}
