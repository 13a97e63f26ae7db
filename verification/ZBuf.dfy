/** The inflater's output side and block parsers: bytes and copies go to a buffer that is
    doubled as it fills, and every parser is specified by module Deflate. */
module ZBuf {
  import opened BitOps
  import opened BitStream
  import opened Canonical
  import opened Deflate
  import opened ZTables
  import opened ZReader

  datatype Status = Ok | Err | Timeout

  /** Doubles a capacity until n bytes fit. */
  function Grow(cap: nat, n: nat): (r: nat)
    requires cap > 0
    ensures r >= cap && r >= n
    decreases if cap < n then n - cap else 0
  {
    if cap >= n then cap else Grow(2 * cap, n)
  }

  lemma {:induction false} GrowGrow(cap: nat, n: nat, m: nat)
    requires cap > 0 && n <= m
    ensures Grow(Grow(cap, n), m) == Grow(cap, m)
    decreases if cap < n then n - cap else 0
  {
    if cap < n {
      GrowGrow(2 * cap, n, m);
    }
  }

  /** A grown capacity is the given one doubled as often as needed, and no more often. */
  lemma {:induction false} GrowDoubles(cap: nat, n: nat) returns (k: nat)
    requires cap > 0
    ensures Grow(cap, n) == cap * Pow2(k) && (k > 0 ==> cap * Pow2(k - 1) < n)
    decreases if cap < n then n - cap else 0
  {
    k := 0;
    if cap < n {
      k := GrowDoubles(2 * cap, n);
      DoubledMore(cap, k);
      k := k + 1;
    }
  }

  lemma DoubledMore(cap: nat, k: nat)
    ensures 2 * cap * Pow2(k) == cap * Pow2(k + 1) && (k > 0 ==> 2 * cap * Pow2(k - 1) == cap * Pow2(k))
  {
    hide Pow2;
    Pow2Next(k);
    Double(cap, Pow2(k));
    if k > 0 {
      Pow2Next(k - 1);
      Double(cap, Pow2(k - 1));
    }
    Regroup(cap, Pow2(k));
    Regroup(cap, if k > 0 then Pow2(k - 1) else 0);
  }

  lemma Regroup(a: nat, b: nat)
    ensures 2 * a * b == 2 * (a * b)
  {}

  lemma {:induction false} GrowLess(cap: nat, n: nat)
    requires cap > 0
    ensures cap < n ==> Grow(cap, n) < 2 * n
    decreases if cap < n then n - cap else 0
  {
    if cap < n {
      GrowLess(2 * cap, n);
    }
  }

  /** The largest block the allocator hands out; keeps every size below INT_MAX. */
  const MEM_MAX: nat := 0x3fff_0000

  class ZBuf {
    const reader: BitReader
    const zLength: ZHuffman
    const zDistance: ZHuffman
    var buf: array<byte>
    var zout: nat
    const expandable: bool
    const memLimit: nat
    const cap0: nat
    ghost const buf0: array<byte>

    /** n bytes of output fit: in the caller's buffer, or after doublings the allocator grants. */
    ghost predicate Fits(n: nat)
      requires expandable ==> cap0 > 0
    {
      if expandable then Grow(cap0, n) <= memLimit else n <= cap0
    }

    ghost predicate Valid()
      reads this, reader
    {
      && reader.Valid() && zLength.Valid() && zDistance.Valid()
      && zLength.Repr() !! zDistance.Repr()
      && buf !in zLength.Repr() && buf !in zDistance.Repr()
      && (!expandable ==> buf == buf0)
      && cap0 <= memLimit && (expandable ==> 0 < cap0 && memLimit <= MEM_MAX)
      && zout <= buf.Length == (if expandable then Grow(cap0, zout) else cap0) <= memLimit
    }

    ghost function Output(): seq<byte>
      requires zout <= buf.Length
      reads this, buf
    {
      buf[..zout]
    }

    /** The tables decode the two given codes. */
    ghost predicate Tables(lit: seq<nat>, dist: seq<nat>)
      requires zLength.Valid() && zDistance.Valid()
      reads zLength.Repr(), zDistance.Repr()
    {
      zLength.Represents(lit) && zDistance.Represents(dist) && |dist| <= 32
    }

    constructor (input: seq<byte>, obuf: array<byte>, exp: bool, limit: nat)
      requires obuf.Length <= limit && (exp ==> 0 < obuf.Length && limit <= MEM_MAX)
      ensures Valid() && fresh(reader) && fresh(zLength.Repr()) && fresh(zDistance.Repr())
      ensures reader.input == input && reader.Position() == 0 && reader.numBits == 0
      ensures buf == buf0 == obuf && zout == 0 && expandable == exp && memLimit == limit && cap0 == obuf.Length
    {
      reader := new BitReader(input);
      zLength := new ZHuffman();
      zDistance := new ZHuffman();
      buf := obuf;
      zout := 0;
      expandable := exp;
      memLimit := limit;
      cap0 := obuf.Length;
      buf0 := obuf;
    }

    /** Makes room for n more bytes by doubling, keeping the contents. */
    method Expand(n: nat) returns (ok: bool)
      requires Valid() && zout + n > buf.Length && n <= 65535
      modifies this`buf
      ensures ok <==> Fits(zout + n)
      ensures !ok ==> buf == old(buf)
      ensures ok ==> fresh(buf) && buf.Length == Grow(cap0, zout + n) && expandable
      ensures ok ==> buf[..zout] == old(buf[..zout])
    {
      hide Bits, ZHuffman.Valid;
      if !expandable {
        return false;
      }
      var from, limit := buf, buf.Length;
      GrowGrow(cap0, zout, zout + n);
      while zout + n > limit
        invariant from.Length <= limit < 0x8000_0000
        invariant Grow(limit, zout + n) == Grow(cap0, zout + n)
        decreases zout + n - limit
      {
        limit := limit * 2;
      }
      if limit > memLimit {
        return false;
      }
      var q := new byte[limit];
      for i := 0 to from.Length
        invariant buf == from && forall t :: 0 <= t < i ==> q[t] == from[t]
      {
        q[i] := from[i];
      }
      buf := q;
      ok := true;
    }

    /** Makes sure n more bytes fit; with it the capacity is right for the longer output. */
    method Reserve(n: nat) returns (ok: bool)
      requires Valid() && n <= 65535
      modifies this`buf
      ensures ok <==> Fits(zout + n)
      ensures !ok ==> buf == old(buf)
      ensures ok ==> buf == old(buf) || (fresh(buf) && expandable)
      ensures ok ==> zout + n <= buf.Length == (if expandable then Grow(cap0, zout + n) else cap0) <= memLimit
      ensures ok ==> Output() == old(Output())
    {
      ok := true;
      if zout + n > buf.Length {
        ok := Expand(n);
      } else if expandable {
        GrowGrow(cap0, zout, zout + n);
      }
    }

    /** Appends a literal. */
    method Put(v: byte) returns (ok: bool)
      requires Valid()
      modifies this, buf
      ensures Valid() && (buf == old(buf) || fresh(buf))
      ensures ok <==> Fits(old(zout) + 1)
      ensures ok ==> Output() == old(Output()) + [v]
    {
      hide Grow, Bits, ZHuffman.Valid;
      ok := Reserve(1);
      if ok {
        buf[zout] := v;
        zout := zout + 1;
      }
    }

    /** Writes len copies of the byte before z. */
    static method CopyRun(b: array<byte>, z: nat, len: nat)
      requires 1 <= z && z + len <= b.Length
      modifies b
      ensures b[..z + len] == Copy(old(b[..z]), 1, len)
    {
      var v := b[z - 1];
      for i := 0 to len
        invariant b[z + i - 1] == v && Copy(b[..z + i], 1, len - i) == Copy(old(b[..z]), 1, len)
      {
        b[z + i] := v;
        assert b[..z + i + 1] == b[..z + i] + [v];
      }
    }

    /** Writes len bytes at z, each read dist earlier, in order. */
    static method CopyForward(b: array<byte>, z: nat, dist: nat, len: nat)
      requires dist <= z && z + len <= b.Length
      modifies b
      ensures dist >= 1 ==> b[..z + len] == Copy(old(b[..z]), dist, len)
    {
      hide Copy;
      for i := 0 to len
        invariant dist >= 1 ==> Copy(b[..z + i], dist, len - i) == Copy(old(b[..z]), dist, len)
      {
        ghost var before := b[..z + i];
        if dist >= 1 {
          CopyUnfold(before, dist, len - i);
        }
        b[z + i] := b[z + i - dist];
        assert dist >= 1 ==> b[..z + i + 1] == before + [before[z + i - dist]];
      }
      if dist >= 1 {
        CopyUnfold(b[..z + len], dist, 0);
      }
    }

    /** A run of one byte is filled in, and everything else copied. */
    static method CopyOut(b: array<byte>, z: nat, dist: nat, len: nat)
      requires dist <= z && z + len <= b.Length
      modifies b
      ensures dist >= 1 ==> b[..z + len] == Copy(old(b[..z]), dist, len)
    {
      hide Copy;
      if dist == 1 {
        CopyRun(b, z, len);
      } else {
        CopyForward(b, z, dist, len);
      }
    }

    /** Appends len bytes, each the one dist back: a run of one byte or a forward copy that
        may read what it has just written. */
    method CopyBack(dist: nat, len: nat) returns (ok: bool)
      requires Valid() && dist <= zout && len <= 65535
      modifies this, buf
      ensures Valid() && (buf == old(buf) || fresh(buf))
      ensures ok <==> Fits(old(zout) + len)
      ensures ok && dist >= 1 ==> Output() == Copy(old(Output()), dist, len)
    {
      hide Grow, Copy, Bits, ZHuffman.Valid, BitReader.Valid, Fits;
      ok := Reserve(len);
      if !ok {
        return;
      }
      CopyOut(buf, zout, dist, len);
      zout := zout + len;
    }

    /** The status r is the one the format prescribes for outcome o, but for running out of room. */
    ghost predicate Agrees(r: Status, o: Outcome)
      requires Valid()
      reads this, reader, buf
    {
      match o
      case Done(out, p) =>
        if Fits(|out|) then r == Ok && Output() == out && reader.Position() == p else r == Err
      case Corrupt => r == Err
      case OutOfFuel => r != Ok
      case Reserved => true
    }

    method ReadLength(z: nat) returns (len: nat)
      requires reader.Valid() && z < 31
      modifies reader
      ensures reader.Valid() && len == CopyLength(z, reader.input, old(reader.Position())) <= 65535
      ensures reader.Position() == old(reader.Position()) + LengthExtra(z)
    {
      hide Bits, LengthBase, LengthExtra;
      len := LengthBase(z);
      ExtraBound(reader.input, reader.Position(), LengthExtra(z));
      if LengthExtra(z) > 0 {
        var k := reader.Receive(LengthExtra(z));
        len := len + k;
      }
    }

    method ReadDistance(d: nat) returns (back: nat)
      requires reader.Valid() && d < 32
      modifies reader
      ensures reader.Valid() && back == CopyDistance(d, reader.input, old(reader.Position()))
      ensures reader.Position() == old(reader.Position()) + DistExtra(d)
    {
      hide Bits, DistBase, DistExtra;
      back := DistBase(d);
      ExtraBound(reader.input, reader.Position(), DistExtra(d));
      if DistExtra(d) > 0 {
        var k := reader.Receive(DistExtra(d));
        back := back + k;
      }
    }

    /** A length symbol's extra bits and its distance; back is -1 when no distance code comes. */
    method ReadLengthDistance(z: nat, ghost lit: seq<nat>, ghost dist: seq<nat>) returns (len: nat, back: int)
      requires Valid() && Tables(lit, dist) && z < 31
      modifies reader
      ensures Valid() && Tables(lit, dist) && len <= 65535
      ensures match ReadReference(z, dist, reader.input, old(reader.Position()))
              case BadReference => back == -1
              case ReservedReference => true
              case Reference(l, d, q) => len == l && back == d && reader.Position() == q
    {
      hide Bits, Decode, CopyLength, CopyDistance, LengthExtra, DistExtra, Grow, ZHuffman.Represents,
        ZHuffman.Valid, BitReader.Valid;
      len := ReadLength(z);
      back := reader.HuffmanDecode(zDistance, dist);
      if back >= 0 {
        back := ReadDistance(back);
      }
    }

    /** A length symbol's distance and the copy they ask for. */
    method ParseReference(z: nat, ghost lit: seq<nat>, ghost dist: seq<nat>) returns (more: bool)
      requires Valid() && Tables(lit, dist) && z < 31
      modifies this, reader, buf
      ensures Valid() && Tables(lit, dist) && (buf == old(buf) || fresh(buf))
      ensures match ReadReference(z, dist, reader.input, old(reader.Position()))
              case BadReference => !more
              case ReservedReference => true
              case Reference(len, back, q) =>
                if back > old(zout) then !more
                else if Fits(old(zout) + len) then
                  more && Output() == Copy(old(Output()), back, len) && reader.Position() == q
                else !more
    {
      hide Copy, ReadReference, Grow, ZHuffman.Valid, ZHuffman.Represents, BitReader.Valid;
      var len, back := ReadLengthDistance(z, lit, dist);
      if back < 0 || zout < back {
        return false;
      }
      more := CopyBack(back, len);
    }

    /** A length symbol within a block: the block goes on after the copy, or it stops. */
    method ParseCopy(z: nat, ghost lit: seq<nat>, ghost dist: seq<nat>, ghost fuel: nat) returns (more: bool)
      requires Valid() && Tables(lit, dist) && z < 31 && |lit| <= 288
      modifies this, reader, buf
      ensures Valid() && Tables(lit, dist) && (buf == old(buf) || fresh(buf))
      ensures match ReadReference(z, dist, reader.input, old(reader.Position()))
              case BadReference => !more
              case ReservedReference => true
              case Reference(len, back, q) =>
                if back > old(zout) then !more
                else var o := Block(fuel, lit, dist, reader.input, q, Copy(old(Output()), back, len));
                     if more then o == Block(fuel, lit, dist, reader.input, reader.Position(), Output())
                     else Agrees(Err, o)
    {
      hide Block, Bits, Decode, Copy, ReadReference, Grow, ZHuffman.Represents, ZHuffman.Valid;
      ghost var ref, out := ReadReference(z, dist, reader.input, reader.Position()), Output();
      more := ParseReference(z, lit, dist);
      if !more && ref.Reference? && ref.back <= |out| {
        NoRoom(fuel, lit, dist, reader.input, ref.p, Copy(out, ref.back, ref.len));
      }
    }

    /** A literal within a block: the block goes on after the byte, or it stops. */
    method ParseLiteral(v: byte, ghost lit: seq<nat>, ghost dist: seq<nat>, ghost fuel: nat) returns (more: bool)
      requires Valid() && Tables(lit, dist) && |lit| <= 288
      modifies this, buf
      ensures Valid() && Tables(lit, dist) && (buf == old(buf) || fresh(buf))
      ensures more ==> Output() == old(Output()) + [v]
      ensures !more ==> Agrees(Err, Block(fuel, lit, dist, reader.input, reader.Position(), old(Output()) + [v]))
    {
      hide Block, Bits, Grow, ZHuffman.Represents, ZHuffman.Valid, BitReader.Valid;
      ghost var out := Output();
      more := Put(v);
      if !more {
        reader.WithinStream();
        NoRoom(fuel, lit, dist, reader.input, reader.Position(), out + [v]);
      }
    }

    /** One symbol of a block, and for a length symbol the copy that follows. Either the block
        goes on as the format says, or it stops with the status the format prescribes. */
    method ParseSymbol(ghost lit: seq<nat>, ghost dist: seq<nat>, ghost fuel: nat) returns (more: bool, r: Status)
      requires Valid() && Tables(lit, dist) && |lit| <= 288 && |dist| <= 32
      modifies this, reader, buf
      ensures Valid() && Tables(lit, dist) && (buf == old(buf) || fresh(buf))
      ensures var o := Block(fuel + 1, lit, dist, reader.input, old(reader.Position()), old(Output()));
              if more then o == Block(fuel, lit, dist, reader.input, reader.Position(), Output()) || o.Reserved?
              else Agrees(r, o) && r != Timeout
    {
      hide Block, Bits, Decode, Copy, ReadReference, Grow, ZHuffman.Represents, ZHuffman.Valid, BitReader.Valid;
      reader.WithinStream();
      BlockStep(fuel, lit, dist, reader.input, reader.Position(), Output());
      var z := reader.HuffmanDecode(zLength, lit);
      r := Err;
      if z < 0 {
        more := false;
      } else if z < 256 {
        more := ParseLiteral(z, lit, dist, fuel);
      } else if z == 256 {
        more, r := false, Ok;
      } else {
        more := ParseCopy(z - 257, lit, dist, fuel);
      }
    }

    /** Output already too long for its buffer stays too long. */
    lemma NoRoom(fuel: nat, lit: seq<nat>, dist: seq<nat>, input: seq<byte>, p: nat, out: seq<byte>)
      requires Valid() && |lit| <= 288 && |dist| <= 32 && !Fits(|out|)
      ensures var o := Block(fuel, lit, dist, input, p, out);
              o.Done? ==> !Fits(|o.out|)
    {
      hide Block, Bits, Pow2;
      BlockExtends(fuel, lit, dist, input, p, out);
      var o := Block(fuel, lit, dist, input, p, out);
      if o.Done? {
        if expandable {
          GrowMonotone(cap0, |out|, |o.out|);
        }
      }
    }

    /** A whole block of symbols: within fuel symbols, exactly what the format prescribes. */
    method ParseHuffmanBlock(ghost lit: seq<nat>, ghost dist: seq<nat>, fuel: nat) returns (r: Status)
      requires Valid() && Tables(lit, dist) && |lit| <= 288 && |dist| <= 32
      modifies this, reader, buf
      ensures Valid() && (buf == old(buf) || fresh(buf))
      ensures Agrees(r, Block(fuel, lit, dist, reader.input, old(reader.Position()), old(Output())))
    {
      hide Block, Bits, Decode, Pow2, Grow, ZHuffman.Represents;
      ghost var o := Block(fuel, lit, dist, reader.input, reader.Position(), Output());
      var f := fuel;
      while f > 0
        invariant Valid() && Tables(lit, dist) && (buf == old(buf) || fresh(buf))
        invariant o == Block(f, lit, dist, reader.input, reader.Position(), Output()) || o.Reserved?
      {
        var more;
        more, r := ParseSymbol(lit, dist, f - 1);
        if !more {
          return;
        }
        f := f - 1;
      }
      NoFuel(lit, dist, reader.input, reader.Position(), Output());
      r := Timeout;
    }

    /** Reads a stored block's header: the length of its data, which the input is known to
        hold, or -1. */
    method ReadStoredLength() returns (len: int)
      requires reader.Valid() && reader.numBits < 32
      modifies reader
      ensures reader.Valid() && reader.numBits == 0
      ensures var t := (old(reader.Position()) + 7) / 8;
              len == StoredLength(reader.input, t) && (len >= 0 ==> reader.pos == reader.taken == t + 4)
    {
      hide Bits, Pow2, ByteAt, Xor;
      ghost var t := (reader.Position() + 7) / 8;
      var header := reader.ReadHeader();
      len := header[1] as int * 256 + header[0] as int;
      var nlen: nat := header[3] as nat * 256 + header[2] as nat;
      ComplementSum(len, nlen);
      LastHeaderByte(reader.input, t);
      if nlen != Xor(len, 0xffff) || reader.pos + len > |reader.input| {
        return -1;
      }
    }

    /** Appends the next len whole bytes of the input. */
    method StoreBytes(len: nat) returns (ok: bool)
      requires Valid() && reader.numBits == 0 && len <= 65535
      requires reader.pos == reader.taken && reader.pos + len <= |reader.input|
      modifies this, reader, buf
      ensures Valid() && (buf == old(buf) || fresh(buf))
      ensures ok <==> Fits(old(zout) + len)
      ensures ok ==> Output() == old(Output()) + reader.input[old(reader.pos)..old(reader.pos) + len]
      ensures ok ==> reader.Position() == 8 * (old(reader.pos) + len)
    {
      hide Bits, Grow, ZHuffman.Valid, BitReader.Valid, Fits;
      ok := Append(reader.pos, len);
      if ok {
        reader.SkipBytes(len);
      }
    }

    method Append(from: nat, len: nat) returns (ok: bool)
      requires Valid() && len <= 65535 && from + len <= |reader.input|
      modifies this, buf
      ensures Valid() && (buf == old(buf) || fresh(buf))
      ensures ok <==> Fits(old(zout) + len)
      ensures ok ==> Output() == old(Output()) + reader.input[from..from + len]
    {
      hide Bits, Grow, ZHuffman.Valid, BitReader.Valid, Fits;
      ok := Reserve(len);
      if ok {
        CopyIn(buf, zout, reader.input, from, len);
        zout := zout + len;
      }
    }

    /** A stored block. */
    method ParseUncompressedBlock() returns (r: Status)
      requires Valid() && reader.numBits < 32
      modifies this, reader, buf
      ensures Valid() && (buf == old(buf) || fresh(buf))
      ensures Agrees(r, Stored(reader.input, old(reader.Position()), old(Output()))) && r != Timeout
    {
      hide Bits, StoredLength, Grow, ZHuffman.Valid, BitReader.Valid;
      var len := ReadStoredLength();
      if len < 0 {
        return Err;
      }
      var ok := StoreBytes(len);
      r := if ok then Ok else Err;
    }

    /** Copies len bytes of the input from position from to b at z. */
    static method CopyIn(b: array<byte>, z: nat, input: seq<byte>, from: nat, len: nat)
      requires z + len <= b.Length && from + len <= |input|
      modifies b
      ensures b[..z + len] == old(b[..z]) + input[from..from + len]
    {
      for i := 0 to len
        invariant b[..z + i] == old(b[..z]) + input[from..from + i]
      {
        b[z + i] := input[from + i];
        assert b[..z + i + 1] == b[..z + i] + [input[from + i]];
      }
    }

    /** Reads the code length code. */
    method ReadCodeLengthCode(n: nat) returns (sizes: array<nat>)
      requires reader.Valid() && n <= 19
      modifies reader
      ensures reader.Valid() && fresh(sizes) && sizes.Length == 19
      ensures sizes[..] == CodeLengthCode(reader.input, old(reader.Position()), n)
      ensures reader.Position() == old(reader.Position()) + 3 * n
    {
      hide Bits, Order, Rank;
      sizes := new nat[19](_ => 0);
      ghost var p := reader.Position();
      for i := 0 to n
        invariant reader.Valid() && reader.Position() == p + 3 * i
        invariant forall s :: 0 <= s < 19 ==> sizes[s] == CodeLengthOf(reader.input, p, i, s)
      {
        var s := reader.Receive(3);
        forall c | 0 <= c < 19
          ensures Rank(c) == i <==> c == Order(i)
        {
          OrderRank(i);
          RankOrder(c);
        }
        sizes[Order(i)] := s;
      }
    }

    /** The length of the run that code length symbol c >= 16 announces. */
    method ReadRun(c: nat) returns (run: nat)
      requires reader.Valid() && 16 <= c < 19
      modifies reader
      ensures reader.Valid() && run == RunLength(c, reader.input, old(reader.Position()))
      ensures reader.Position() == old(reader.Position()) + RunExtra(c)
    {
      hide Bits;
      if c == 16 {
        run := reader.Receive(2);
        run := run + 3;
      } else if c == 17 {
        run := reader.Receive(3);
        run := run + 3;
      } else {
        run := reader.Receive(7);
        run := run + 11;
      }
    }

    /** One symbol of the code length alphabet: appends to the lengths read so far, or fails. */
    method ReadLengthRun(z: ZHuffman, ghost code: seq<nat>, lencodes: array<nat>, n: nat, total: nat)
      returns (ok: bool, n': nat)
      requires reader.Valid() && z.Valid() && z.Represents(code) && |code| == 19
      requires n < total <= 320 && lencodes.Length == 455
      requires Bounded(lencodes[..n], MAX_BITS)
      requires lencodes as object !in z.Repr()
      modifies reader, lencodes
      ensures reader.Valid() && z.Represents(code)
      ensures ok ==> n < n' <= total && Bounded(lencodes[..n'], MAX_BITS)
      ensures var r := ReadLengths(code, reader.input, old(reader.Position()), old(lencodes[..n]), total);
              if ok then r == ReadLengths(code, reader.input, reader.Position(), lencodes[..n'], total)
              else r.BadLengths?
    {
      hide Bits, Decode, RunLength, RunExtra, ReadLengths, ZHuffman.Represents, BitReader.Valid;
      reader.WithinStream();
      ghost var lens := lencodes[..n];
      n' := n;
      LengthsStep(code, reader.input, reader.Position(), lens, total);
      var c := reader.HuffmanDecode(z, code);
      if c < 0 || c >= 19 {
        return false, n;
      }
      if c < 16 {
        lencodes[n] := c;
        assert lencodes[..n + 1] == lens + [c];
        return true, n + 1;
      }
      var run := ReadRun(c);
      if c == 16 && n == 0 {
        return false, n;
      }
      var fill := if c == 16 then lencodes[n - 1] else 0;
      if total - n < run {
        return false, n;
      }
      Fill(lencodes, n, fill, run);
      return true, n + run;
    }

    /** memset: run copies of fill from index n. */
    static method Fill(a: array<nat>, n: nat, fill: nat, run: nat)
      requires n + run <= a.Length
      modifies a
      ensures a[..n + run] == old(a[..n]) + Repeat(fill, run)
    {
      for i := 0 to run
        invariant a[..n + i] == old(a[..n]) + Repeat(fill, i)
      {
        a[n + i] := fill;
        assert a[..n + i + 1] == a[..n + i] + [fill];
      }
    }

    /** Reads total code lengths, run-length encoded. */
    method ReadCodeLengths(z: ZHuffman, ghost code: seq<nat>, total: nat) returns (ok: bool, lencodes: array<nat>)
      requires reader.Valid() && z.Valid() && z.Represents(code) && |code| == 19 && total <= 320
      modifies reader
      ensures reader.Valid() && fresh(lencodes) && lencodes.Length == 455
      ensures var r := ReadLengths(code, reader.input, old(reader.Position()), [], total);
              if ok then r == Lengths(lencodes[..total], reader.Position()) && Bounded(lencodes[..total], MAX_BITS)
              else r.BadLengths?
    {
      hide Bits, Decode, ZHuffman.Represents;
      lencodes := new nat[455](_ => 0);
      var n := 0;
      ghost var q := reader.Position();
      assert lencodes[..0] == [];
      assert lencodes as object !in z.Repr();
      assert z.Represents(code);
      while n < total
        invariant reader.Valid() && n <= total && z.Represents(code)
        invariant Bounded(lencodes[..n], MAX_BITS)
        invariant ReadLengths(code, reader.input, q, [], total)
               == ReadLengths(code, reader.input, reader.Position(), lencodes[..n], total)
      {
        ok, n := ReadLengthRun(z, code, lencodes, n, total);
        if !ok {
          return;
        }
      }
      ok := true;
    }

    method ReadCounts() returns (hlit: nat, hdist: nat, hclen: nat)
      requires reader.Valid()
      modifies reader
      ensures reader.Valid() && reader.Position() == old(reader.Position()) + 14
      ensures (hlit, hdist, hclen) == DynamicCounts(reader.input, old(reader.Position()))
    {
      hide Bits;
      hlit := reader.Receive(5);
      hdist := reader.Receive(5);
      hclen := reader.Receive(4);
      hlit, hdist, hclen := hlit + 257, hdist + 1, hclen + 4;
    }

    static method NewTable(sizes: seq<nat>) returns (ok: bool, z: ZHuffman)
      requires |sizes| == 19 && Bounded(sizes, MAX_BITS)
      ensures fresh(z) && fresh(z.Repr()) && z.Valid() && (ok <==> Decodable(sizes)) && (ok ==> z.Represents(sizes))
    {
      hide Decodable, Bounded, ZHuffman.Represents;
      z := new ZHuffman();
      ok := z.Build(sizes);
    }

    /** Reads the code length code and with it the code lengths of both alphabets. */
    method ReadDynamicLengths(hclen: nat, total: nat) returns (ok: bool, lencodes: array<nat>)
      requires reader.Valid() && hclen <= 19 && total <= 320
      modifies reader
      ensures reader.Valid() && fresh(lencodes) && lencodes.Length == 455
      ensures var r := DynamicLengths(reader.input, old(reader.Position()), hclen, total);
              if ok then r == Lengths(lencodes[..total], reader.Position()) && Bounded(lencodes[..total], MAX_BITS)
              else r.BadLengths?
    {
      hide Bits, ReadLengths, CodeLengthCode, Decodable, ZHuffman.Represents, ZHuffman.Valid;
      CodeLengthBound(reader.input, reader.Position(), hclen);
      var sizes := ReadCodeLengthCode(hclen);
      lencodes := new nat[455](_ => 0);
      var z;
      ok, z := NewTable(sizes[..]);
      if ok {
        ok, lencodes := ReadCodeLengths(z, sizes[..], total);
      }
    }

    /** Reads the two codes of a dynamic block and builds their tables. */
    method ComputeHuffmanCodes() returns (ok: bool, ghost lit: seq<nat>, ghost dist: seq<nat>)
      requires Valid()
      modifies reader, zLength.Repr(), zDistance.Repr()
      ensures Valid()
      ensures var c := DynamicCodes(reader.input, old(reader.Position()));
              if ok then c == Codes(lit, dist, reader.Position()) && Tables(lit, dist) else c.BadCodes?
    {
      hide Bits, DynamicCounts, DynamicLengths, Decodable, Grow, ZHuffman.Represents, ZHuffman.Valid;
      lit, dist := [], [];
      var hlit, hdist, hclen := ReadCounts();
      var lencodes;
      ok, lencodes := ReadDynamicLengths(hclen, hlit + hdist);
      if ok {
        ghost var lens := lencodes[..hlit + hdist];
        lit, dist := lens[..hlit], lens[hlit..];
        assert lencodes[..hlit] == lit && lencodes[hlit..hlit + hdist] == dist;
        BoundedParts(lens, hlit);
        ok := BuildBoth(lencodes[..hlit], lencodes[hlit..hlit + hdist]);
      }
    }

    method BuildBoth(lit: seq<nat>, dist: seq<nat>) returns (ok: bool)
      requires Valid() && |lit| <= 288 && |dist| <= 32 && Bounded(lit, MAX_BITS) && Bounded(dist, MAX_BITS)
      modifies zLength.Repr(), zDistance.Repr()
      ensures Valid() && (ok <==> Decodable(lit) && Decodable(dist)) && (ok ==> Tables(lit, dist))
    {
      hide Bits, Decodable, Bounded, Grow, ZHuffman.Represents;
      ok := BuildLength(lit);
      if ok {
        ok := BuildDistance(dist, lit);
      }
    }

    method BuildLength(lens: seq<nat>) returns (ok: bool)
      requires Valid() && |lens| <= 288 && Bounded(lens, MAX_BITS)
      modifies zLength.Repr()
      ensures Valid() && (ok <==> Decodable(lens)) && (ok ==> zLength.Represents(lens))
    {
      hide Bits, Decodable, Bounded, Grow, ZHuffman.Represents;
      ok := zLength.Build(lens);
    }

    method BuildDistance(lens: seq<nat>, ghost lit: seq<nat>) returns (ok: bool)
      requires Valid() && |lens| <= 32 && Bounded(lens, MAX_BITS) && zLength.Represents(lit)
      modifies zDistance.Repr()
      ensures Valid() && (ok <==> Decodable(lens)) && (ok ==> Tables(lit, lens))
    {
      hide Bits, Decodable, Bounded, Grow, ZHuffman.Represents;
      ok := zDistance.Build(lens);
    }

    /** The zlib header: eats two bytes and says whether they announce deflate data. */
    method ParseZlibHeader() returns (ok: bool)
      requires reader.Valid() && reader.numBits == 0
      modifies reader
      ensures reader.Valid() && reader.numBits == 0 && reader.taken == old(reader.taken) + 2
      ensures old(reader.taken) == 0 ==> ok == ZlibHeader(reader.input)
    {
      hide ByteAt, Bits, Pow2, And, Bit, Low;
      NoBits(reader.input, reader.taken);
      NoBits(reader.input, reader.taken + 1);
      NoBits(reader.input, reader.taken + 2);
      var cmf := reader.Get8();
      var cm := And(cmf, 15);
      var flg := reader.Get8();
      Pow2Values();
      AndMask(cmf, 4);
      AndPower(flg, 5);
      if (cmf as nat * 256 + flg as nat) % 31 != 0 {
        return false;
      }
      if And(flg, 32) != 0 {
        return false;
      }
      ok := cm == 8;
    }

    /** A block with the fixed codes. */
    method ParseFixedBlock(fuel: nat) returns (r: Status)
      requires Valid()
      modifies this, reader, buf, zLength.Repr(), zDistance.Repr()
      ensures Valid() && (buf == old(buf) || fresh(buf))
      ensures Agrees(r, Block(fuel, FixedLiteral(), FixedDistance(), reader.input, old(reader.Position()), old(Output())))
    {
      hide Bits, Block, Decodable, FixedLiteral, FixedDistance, Grow, ZHuffman.Represents, ZHuffman.Valid, BitReader.Valid;
      FixedCodesDecodable();
      ghost var out := Output();
      var ok := BuildBoth(FixedLiteral(), FixedDistance());
      assert Output() == out;
      r := ParseHuffmanBlock(FixedLiteral(), FixedDistance(), fuel);
    }

    /** A block with codes of its own. */
    method ParseDynamicBlock(fuel: nat) returns (r: Status)
      requires Valid()
      modifies this, reader, buf, zLength.Repr(), zDistance.Repr()
      ensures Valid() && (buf == old(buf) || fresh(buf))
      ensures Agrees(r, BlockOfType(fuel, 2, reader.input, old(reader.Position()), old(Output())))
    {
      hide Bits, Block, BlockOfType, DynamicCodes, Decodable, Grow, ZHuffman.Represents, ZHuffman.Valid, BitReader.Valid;
      reader.WithinStream();
      ghost var out := Output();
      DynamicBlock(fuel, reader.input, reader.Position(), out);
      var ok, lit, dist := ComputeHuffmanCodes();
      assert Output() == out;
      if !ok {
        return Err;
      }
      r := ParseHuffmanBlock(lit, dist, fuel);
    }

    /** One block after its header bits. */
    method ParseBlock(kind: nat, fuel: nat) returns (r: Status)
      requires Valid() && reader.numBits < 32
      modifies this, reader, buf, zLength.Repr(), zDistance.Repr()
      ensures Valid() && (buf == old(buf) || fresh(buf))
      ensures Agrees(r, BlockOfType(fuel, kind, reader.input, old(reader.Position()), old(Output())))
    {
      hide Bits, Block, Stored, DynamicCodes, FixedLiteral, FixedDistance, Grow, ZHuffman.Valid, BitReader.Valid;
      if kind == 0 {
        r := ParseUncompressedBlock();
      } else if kind == 1 {
        r := ParseFixedBlock(fuel);
      } else if kind == 2 {
        r := ParseDynamicBlock(fuel);
      } else {
        r := Err;
      }
    }

    /** The whole stream, block by block up to the final one. */
    method ParseZlib(header: bool, fuel: nat) returns (r: Status)
      requires Valid() && reader.numBits == 0 && reader.taken == 0 && zout == 0
      modifies this, reader, buf, zLength.Repr(), zDistance.Repr()
      ensures Valid() && (buf == old(buf) || fresh(buf))
      ensures Agrees(r, Inflate(fuel, reader.input, header))
    {
      hide Bits, Blocks, ZlibHeader, Grow, ZHuffman.Valid;
      if header {
        var ok := ParseZlibHeader();
        if !ok {
          return Err;
        }
      }
      assert Output() == [];
      r := ParseBlocks(fuel);
    }

    /** The next block with its header bits: the stream goes on behind it, or it ends with the
        status the format prescribes. */
    method ParseNextBlock(fuel: nat) returns (more: bool, r: Status)
      requires Valid()
      modifies this, reader, buf, zLength.Repr(), zDistance.Repr()
      ensures Valid() && (buf == old(buf) || fresh(buf))
      ensures var o := Blocks(fuel + 1, reader.input, old(reader.Position()), old(Output()));
              if more then o == Blocks(fuel, reader.input, reader.Position(), Output()) || o.Reserved?
              else Agrees(r, o)
    {
      hide Bits, Blocks, BlockOfType, Grow, ZHuffman.Valid, BitReader.Valid;
      reader.WithinStream();
      ghost var p, out := reader.Position(), Output();
      NextBlock(fuel, reader.input, p, out);
      var last := reader.Receive(1);
      var kind := reader.Receive(2);
      ghost var b := BlockOfType(fuel, kind, reader.input, p + 3, out);
      r := ParseBlock(kind, fuel);
      if r != Ok && b.Done? && last != 1 {
        NoRoomForBlocks(fuel, reader.input, b.p, b.out);
      }
      more := r == Ok && last != 1;
    }

    method ParseBlocks(fuel: nat) returns (r: Status)
      requires Valid()
      modifies this, reader, buf, zLength.Repr(), zDistance.Repr()
      ensures Valid() && (buf == old(buf) || fresh(buf))
      ensures Agrees(r, Blocks(fuel, reader.input, old(reader.Position()), old(Output())))
    {
      hide Bits, Blocks, Grow, ZHuffman.Valid, BitReader.Valid;
      reader.WithinStream();
      ghost var o := Blocks(fuel, reader.input, reader.Position(), Output());
      var f := fuel;
      while f > 0
        invariant Valid() && (buf == old(buf) || fresh(buf)) && reader.numBits <= 8 * reader.taken
        invariant o == Blocks(f, reader.input, reader.Position(), Output()) || o.Reserved?
      {
        f := f - 1;
        var more;
        more, r := ParseNextBlock(f);
        if !more {
          return;
        }
        reader.WithinStream();
      }
      NoBlocks(reader.input, reader.Position(), Output());
      r := Timeout;
    }

    lemma NoRoomForBlocks(fuel: nat, input: seq<byte>, p: nat, out: seq<byte>)
      requires Valid() && !Fits(|out|)
      ensures var o := Blocks(fuel, input, p, out);
              o.Done? ==> !Fits(|o.out|)
    {
      hide Blocks, Bits;
      BlocksExtend(fuel, input, p, out);
      var o := Blocks(fuel, input, p, out);
      if o.Done? {
        if expandable {
          GrowMonotone(cap0, |out|, |o.out|);
        }
      }
    }
  }

  /** The whole of a good stream's output, unless doubling the buffer until it fits asks for more
      than the allocator has; and failure on a bad stream. */
  ghost predicate Delivers(r: Status, out: seq<byte>, o: Outcome, initialSize: nat, limit: nat)
    requires initialSize > 0
  {
    match o
    case Done(data, _) => if Grow(initialSize, |data|) <= limit then r == Ok && out == data else r == Err
    case Corrupt => r == Err
    case OutOfFuel => r != Ok
    case Reserved => true
  }

  /** Inflates into a buffer of the given initial size that is doubled on demand. Nothing in
      the result depends on that size but whether the allocator can serve the doublings. */
  method DecodeMalloc(input: seq<byte>, initialSize: nat, limit: nat, header: bool, fuel: nat)
      returns (r: Status, out: seq<byte>)
    requires 0 < initialSize <= limit <= MEM_MAX
    ensures Delivers(r, out, Inflate(fuel, input, header), initialSize, limit)
  {
    hide Inflate, Grow;
    var p := new byte[initialSize];
    var a := new ZBuf(input, p, true, limit);
    r := a.ParseZlib(header, fuel);
    out := a.buf[..a.zout];
  }

  /** Inflates into a caller's buffer: the length of the output, or -1. */
  method DecodeBuffer(obuf: array<byte>, input: seq<byte>, header: bool, fuel: nat) returns (r: int)
    modifies obuf
    ensures match Inflate(fuel, input, header)
            case Done(o, p) => if |o| <= obuf.Length then r == |o| && obuf[..r] == o else r == -1
            case Corrupt => r == -1
            case OutOfFuel => r == -1
            case Reserved => true
  {
    hide Inflate;
    var a := new ZBuf(input, obuf, false, obuf.Length);
    var s := a.ParseZlib(header, fuel);
    r := if s == Ok then a.zout else -1;
  }

  lemma NoFuel(lit: seq<nat>, dist: seq<nat>, input: seq<byte>, p: nat, out: seq<byte>)
    requires |lit| <= 288 && |dist| <= 32
    ensures Block(0, lit, dist, input, p, out).OutOfFuel?
  {}

  /** One byte of a copy. */
  lemma CopyUnfold(out: seq<byte>, dist: nat, len: nat)
    requires 1 <= dist <= |out|
    ensures len > 0 ==> Copy(out, dist, len) == Copy(out + [out[|out| - dist]], dist, len - 1)
    ensures len == 0 ==> Copy(out, dist, len) == out
  {}

  /** Every block only adds to the output. */
  lemma BlockOfTypeExtends(fuel: nat, kind: nat, input: seq<byte>, p: nat, out: seq<byte>)
    ensures var o := BlockOfType(fuel, kind, input, p, out); o.Done? ==> out <= o.out
  {
    hide Block, DynamicCodes, StoredLength;
    if kind == 1 {
      BlockExtends(fuel, FixedLiteral(), FixedDistance(), input, p, out);
    } else if kind == 2 {
      match DynamicCodes(input, p)
      case BadCodes =>
      case Codes(lit, dist, q) => BlockExtends(fuel, lit, dist, input, q, out);
    }
  }

  lemma {:induction false} BlocksExtend(fuel: nat, input: seq<byte>, p: nat, out: seq<byte>)
    ensures var o := Blocks(fuel, input, p, out); o.Done? ==> out <= o.out
  {
    hide Bits, BlockOfType;
    if fuel > 0 {
      BlockOfTypeExtends(fuel - 1, Bits(input, p + 1, 2), input, p + 3, out);
      var b := BlockOfType(fuel - 1, Bits(input, p + 1, 2), input, p + 3, out);
      if b.Done? {
        BlocksExtend(fuel - 1, input, b.p, b.out);
      }
    }
  }

  lemma KraftSnoc(lens: seq<nat>, s: nat)
    requires Bounded(lens, MAX) && 1 <= s <= MAX
    ensures Kraft(lens + [s]) == Kraft(lens) + Pow2(MAX - s)
  {
    var longer := lens + [s];
    assert longer[..|longer| - 1] == lens;
  }

  lemma {:induction false} KraftRepeat(lens: seq<nat>, s: nat, n: nat)
    requires Bounded(lens, MAX) && 1 <= s <= MAX
    ensures Bounded(lens + Repeat(s, n), MAX)
    ensures Kraft(lens + Repeat(s, n)) == Kraft(lens) + n * Pow2(MAX - s)
  {
    hide Kraft, Pow2;
    if n == 0 {
      assert lens + Repeat(s, n) == lens;
    } else {
      KraftRepeat(lens, s, n - 1);
      var q := Pow2(MAX - s);
      assert lens + Repeat(s, n) == lens + Repeat(s, n - 1) + [s];
      KraftSnoc(lens + Repeat(s, n - 1), s);
      Distribute(n - 1, 1, q);
    }
  }

  /** The fixed codes fill the code space exactly. */
  lemma FixedCodesDecodable()
    ensures Bounded(FixedLiteral(), MAX_BITS) && Decodable(FixedLiteral())
    ensures Bounded(FixedDistance(), MAX_BITS) && Decodable(FixedDistance())
  {
    FixedLiteralKraft();
    FixedDistanceKraft();
  }

  lemma FixedDistanceKraft()
    ensures Bounded(FixedDistance(), MAX_BITS) && Kraft(FixedDistance()) == Pow2(MAX)
  {
    hide Repeat, Kraft;
    EmptyKraft();
    var a := Repeat(5, 32);
    assert [] + a == a;
    KraftRepeat([], 5, 32);
    assert FixedDistance() == a;
    Pow2Values();
  }

  lemma FixedLiteralKraft()
    ensures Bounded(FixedLiteral(), MAX_BITS) && Kraft(FixedLiteral()) == Pow2(MAX)
  {
    hide Repeat, Kraft;
    EmptyKraft();
    var a, b, c, d := Repeat(8, 144), Repeat(9, 112), Repeat(7, 24), Repeat(8, 8);
    assert [] + a == a;
    KraftRepeat([], 8, 144);
    KraftRepeat(a, 9, 112);
    KraftRepeat(a + b, 7, 24);
    KraftRepeat(a + b + c, 8, 8);
    assert FixedLiteral() == a + b + c + d;
    Pow2Values();
  }

  lemma EmptyKraft()
    ensures Kraft([]) == 0
  {}

  lemma BoundedParts(lens: seq<nat>, n: nat)
    requires n <= |lens| && Bounded(lens, MAX_BITS)
    ensures Bounded(lens[..n], MAX_BITS) && Bounded(lens[n..], MAX_BITS)
  {}

  lemma CodeLengthBound(input: seq<byte>, p: nat, n: nat)
    ensures Bounded(CodeLengthCode(input, p, n), MAX_BITS)
  {
    hide Bits, Rank;
    Pow2Values();
  }

  lemma {:induction false} GrowMonotone(cap: nat, n: nat, m: nat)
    requires cap > 0 && n <= m
    ensures Grow(cap, n) <= Grow(cap, m)
    decreases if cap < n then n - cap else 0
  {
    if cap < n {
      GrowMonotone(2 * cap, n, m);
    }
  }

  /** What a block decodes only ever adds to the output. */
  lemma {:induction false} BlockExtends(fuel: nat, lit: seq<nat>, dist: seq<nat>, input: seq<byte>, p: nat, out: seq<byte>)
    requires |lit| <= 288 && |dist| <= 32
    ensures var o := Block(fuel, lit, dist, input, p, out); o.Done? ==> out <= o.out
  {
    hide Bits, Decode, Pow2, Copy, ReadReference;
    if fuel > 0 {
      match Decode(lit, input, p, MAX_BITS)
      case NoCode =>
      case Symbol(s, n) =>
        if s < END_OF_BLOCK {
          BlockExtends(fuel - 1, lit, dist, input, p + n, out + [s]);
        } else if s > END_OF_BLOCK {
          var ref := ReadReference(s - 257, dist, input, p + n);
          if ref.Reference? && ref.back <= |out| {
            BlockExtends(fuel - 1, lit, dist, input, ref.p, Copy(out, ref.back, ref.len));
          }
        }
    }
  }

  /** No symbol has more than thirteen extra bits. */
  lemma ExtraBound(input: seq<byte>, p: nat, n: nat)
    requires n <= 13
    ensures Bits(input, p, n) < 8192 && Bits(input, p, 0) == 0
  {
    Pow2Values();
    Pow2Monotone(n, 13);
  }

  /** The two length fields are complements exactly when they add up to 0xffff. */
  lemma ComplementSum(len: nat, nlen: nat)
    requires len < 65536
    ensures nlen == Xor(len, 0xffff) <==> len + nlen == 0xffff
  {
    Pow2Values();
    XorMask(len, 16);
  }

  /** A header padded with zeros cannot announce a length the input has. */
  lemma LastHeaderByte(input: seq<byte>, t: nat)
    ensures t + 4 > |input| ==> ByteAt(input, t + 3) == 0
  {}
}
