/** GIF's variable-width LZW (Appendix F of GIF89a): the format over a dictionary of strings. */
module GifLzw {
  import opened BitOps
  import opened BitStream

  const TABLE_SIZE: nat := 8192

  // The raster data: length-prefixed blocks up to an empty one

  /** n bytes from position p, zeros past the end. */
  function Take(input: seq<byte>, p: nat, n: nat): (r: seq<byte>)
    ensures |r| == n
    decreases n
  {
    if n == 0 then [] else [ByteAt(input, p)] + Take(input, p + 1, n - 1)
  }

  /** The data in the blocks from position p on. */
  function Unblock(input: seq<byte>, p: nat): seq<byte>
    decreases |input| - p
  {
    var n := ByteAt(input, p);
    if n == 0 then [] else Take(input, p + 1, n) + Unblock(input, p + 1 + n)
  }

  // The decoder over strings

  /** The strings known so far and the last code, if a code came since the last clear. The
      entries at the clear and end codes are never looked up. */
  datatype Dict = Dict(strings: seq<seq<byte>>, last: int)

  function Roots(n: nat): (r: seq<seq<byte>>)
    ensures |r| == n && forall i :: 0 <= i < n ==> r[i] == [(i % 256) as byte]
  {
    seq(n, i => [(if i >= 0 then i % 256 else 0) as byte])
  }

  /** The dictionary after a clear code: one string per colour and two reserved entries. */
  function Cleared(cs: nat): (d: Dict)
    ensures |d.strings| == Pow2(cs) + 2
  {
    Dict(Roots(Pow2(cs)) + [[], []], -1)
  }

  function ClearCode(cs: nat): nat {
    Pow2(cs)
  }

  predicate Proper(cs: nat, code: int) {
    0 <= code && code != Pow2(cs) && code != Pow2(cs) + 1
  }

  ghost predicate DictValid(cs: nat, d: Dict) {
    && Pow2(cs) + 2 <= |d.strings|
    && (forall c: nat :: c < |d.strings| && Proper(cs, c) ==> |d.strings[c]| > 0)
    && (d.last == -1 || (Proper(cs, d.last) && d.last < |d.strings|))
    && (d.last == -1 ==> |d.strings| == Pow2(cs) + 2)
  }

  /** The first byte, as a string. */
  function Head(s: seq<byte>): seq<byte> {
    if s == [] then [] else [s[0]]
  }

  /** The string a code stands for, the code about to be defined included: it repeats the last
      string's first byte. */
  function StringOf(d: Dict, code: nat): seq<byte>
    requires code < |d.strings| || (code == |d.strings| && 0 <= d.last < |d.strings|)
  {
    if code < |d.strings| then d.strings[code] else d.strings[d.last] + Head(d.strings[d.last])
  }

  /** What a data code does to the dictionary: the last string followed by this one's first byte. */
  function Learn(d: Dict, code: nat): Dict
    requires code < |d.strings| || (code == |d.strings| && 0 <= d.last < |d.strings|)
  {
    if 0 <= d.last < |d.strings| then
      Dict(d.strings + [d.strings[d.last] + Head(StringOf(d, code))], code)
    else Dict(d.strings, code)
  }

  /** The width of the next code: one more bit when the table has outgrown the width, up to 12. */
  function NextWidth(width: nat, avail: nat): nat {
    if Low(avail, width) == 0 && avail <= 0x0fff then width + 1 else width
  }

  /** Whether the stream ended well, and the colour indices it stands for. */
  datatype Outcome = Outcome(ok: bool, pixels: seq<byte>)

  /** The codes from bit p on, read at the given width; cleared says a clear code has come. */
  function Codes(cs: nat, data: seq<byte>, p: nat, width: nat, d: Dict, cleared: bool): Outcome
    requires width > 0
    decreases 8 * |data| - p
  {
    if p + width > 8 * |data| then Outcome(true, [])
    else
      var code := Bits(data, p, width);
      var q := p + width;
      if code == ClearCode(cs) then Codes(cs, data, q, cs + 1, Cleared(cs), true)
      else if code == ClearCode(cs) + 1 then Outcome(true, [])
      else if code > |d.strings| || !cleared then Outcome(false, [])
      else if !(0 <= d.last < |d.strings|) && code == |d.strings| then Outcome(false, [])
      else if 0 <= d.last < |d.strings| && |d.strings| == TABLE_SIZE then Outcome(false, [])
      else
        var d' := Learn(d, code);
        var rest := Codes(cs, data, q, NextWidth(width, |d'.strings|), d', true);
        Outcome(rest.ok, StringOf(d, code) + rest.pixels)
  }

  /** The colour indices of the raster data at position p: a code size and blocks of codes. */
  function Raster(input: seq<byte>, p: nat): Outcome {
    var cs := ByteAt(input, p);
    if cs > 12 then Outcome(false, [])
    else Codes(cs, Unblock(input, p + 1), 0, cs + 1, Cleared(cs), false)
  }

  // Facts about the format

  lemma ClearedValid(cs: nat)
    ensures DictValid(cs, Cleared(cs))
  {}

  lemma LearnValid(cs: nat, d: Dict, code: nat)
    requires DictValid(cs, d) && Proper(cs, code)
    requires code < |d.strings| || (code == |d.strings| && d.last >= 0)
    ensures DictValid(cs, Learn(d, code)) && |StringOf(d, code)| > 0 && Learn(d, code).last == code
    ensures StringOf(d, code) == Learn(d, code).strings[code]
  {
    hide Pow2;
  }

  /** The width a table of the given size calls for: the least from cs + 1 on that can name
      the next entry, but no more than 12. */
  function Width(s: nat, avail: nat): (r: nat)
    ensures r >= s
    decreases 12 - s
  {
    if s >= 12 || avail < Pow2(s) then s else Width(s + 1, avail)
  }

  /** For the code sizes the format allows, the width after each code is the one the table's
      size calls for. */
  lemma WidthFollowsTable(cs: nat, avail: nat)
    requires 2 <= cs <= 12 && Pow2(cs) + 2 <= avail < TABLE_SIZE
    ensures Width(cs + 1, avail + 1) == NextWidth(Width(cs + 1, avail), avail + 1)
    ensures Width(cs + 1, Pow2(cs) + 2) == NextWidth(cs + 1, Pow2(cs) + 2) == cs + 1
  {
    Pow2Values();
    StepWidth(cs + 1, avail);
    WidthStart(cs);
  }

  lemma WidthStart(cs: nat)
    requires 2 <= cs <= 12
    ensures Width(cs + 1, Pow2(cs) + 2) == NextWidth(cs + 1, Pow2(cs) + 2) == cs + 1
  {
    Pow2Values();
    Pow2Monotone(2, cs);
    LowShort(Pow2(cs) + 2, cs + 1);
  }

  lemma {:induction false} StepWidth(s: nat, avail: nat)
    requires 1 <= s && (s >= 12 || 2 * avail >= Pow2(s))
    requires avail > 0
    ensures Width(s, avail + 1) == NextWidth(Width(s, avail), avail + 1)
    decreases 12 - s
  {
    hide Low;
    Pow2Values();
    LowShortAll(avail + 1);
    if s >= 12 {
      Pow2Monotone(12, s);
    } else if avail < Pow2(s) {
      Pow2Monotone(s, 11);
      SplitUnique(1, 0, s);
    } else {
      StepWidth(s + 1, avail);
    }
  }

  lemma LowShortAll(v: nat)
    ensures forall n: nat {:trigger Low(v, n)} :: v < Pow2(n) ==> Low(v, n) == v
  {
    forall n: nat | v < Pow2(n)
      ensures Low(v, n) == v
    {
      LowShort(v, n);
    }
  }

  /** One code, spelled out. */
  lemma CodesStep(cs: nat, data: seq<byte>, p: nat, width: nat, d: Dict, cleared: bool)
    requires width > 0 && DictValid(cs, d)
    ensures var o := Codes(cs, data, p, width, d, cleared);
            var code, q, n := Bits(data, p, width), p + width, |d.strings|;
            if q > 8 * |data| || code == Pow2(cs) + 1 then
              o == Outcome(true, [])
            else if code == Pow2(cs) then o == Codes(cs, data, q, cs + 1, Cleared(cs), true)
            else if code > n || !cleared || (d.last < 0 && code == n) || (d.last >= 0 && n == TABLE_SIZE) then
              o == Outcome(false, [])
            else
              var d' := Learn(d, code);
              var rest := Codes(cs, data, q, NextWidth(width, |d'.strings|), d', true);
              o == Outcome(rest.ok, StringOf(d, code) + rest.pixels)
  {
    hide Bits, Learn, StringOf, NextWidth;
  }

  // The code reader

  /** Reads codes across the blocks of the raster data. */
  class CodeReader {
    const input: seq<byte>
    var pos: nat
    var len: nat       // bytes left in the block
    var bits: nat      // bits taken and not yet used
    var validBits: nat
    ghost var at: nat  // pos, but for the zeros read past the end
    ghost var data: seq<byte>
    ghost var taken: nat

    ghost predicate SourceValid()
      reads this
    {
      && pos == (if at < |input| then at else |input|)
      && taken <= |data| && data[taken..] == Take(input, at, len) + Unblock(input, at + len)
    }

    ghost predicate Valid()
      reads this
    {
      && SourceValid() && validBits <= 8 * taken && bits == Bits(data, 8 * taken - validBits, validBits)
    }

    ghost function Position(): int
      reads this
    {
      8 * taken - validBits
    }

    constructor (source: seq<byte>, p: nat)
      ensures input == source && at == p && pos == (if at < |input| then at else |input|)
      ensures validBits == bits == len == 0
    {
      input := source;
      pos := if p < |source| then p else |source|;
      at := p;
      len, bits, validBits, taken, data := 0, 0, 0, 0, [];
    }

    method Get8() returns (b: byte)
      requires pos == (if at < |input| then at else |input|)
      modifies this`pos, this`at
      ensures pos == (if at < |input| then at else |input|)
      ensures b == ByteAt(input, old(at)) && at == old(at) + 1
    {
      at := at + 1;
      if pos >= |input| {
        return 0;
      }
      b := input[pos];
      pos := pos + 1;
    }

    /** From here on the input holds blocks. */
    ghost method Start()
      requires pos == (if at < |input| then at else |input|) && validBits == bits == len == 0
      modifies this`data, this`taken
      ensures Valid() && data == Unblock(input, at) && Position() == 0
    {
      data := Unblock(input, at);
      taken := 0;
      assert Take(input, at, 0) == [];
    }

    /** The next data byte, unless the empty block comes. */
    method NextByte() returns (more: bool, b: byte)
      requires SourceValid()
      modifies this`pos, this`at, this`len, this`taken
      ensures more ==> SourceValid() && taken == old(taken) + 1 && b == ByteAt(data, old(taken))
      ensures !more ==> old(taken) == |data|
    {
      hide Take, Unblock, Bits, ByteAt;
      b := 0;
      if len == 0 {
        UnblockStep(input, at);
        len := Get8();
        if len == 0 {
          return false, 0;
        }
      }
      TakeStep(input, at, len, data, taken);
      len := len - 1;
      b := Get8();
      taken := taken + 1;
      more := true;
    }

    /** Takes one more byte into the bit buffer, unless the empty block comes. */
    method Refill() returns (more: bool)
      requires Valid() && validBits <= 24
      modifies this`pos, this`at, this`len, this`taken, this`bits, this`validBits
      ensures more ==> Valid() && Position() == old(Position()) && validBits == old(validBits) + 8
      ensures more ==> taken == old(taken) + 1
      ensures !more ==> old(taken) == |data|
    {
      hide Bits, Pow2, Shl, Or, Take, Unblock;
      ghost var p, t := Position(), taken;
      var b;
      more, b := NextByte();
      if more {
        OrShifted(bits, b, validBits);
        BitsRefill(data, p, validBits, t);
        bits := Or(bits, Shl(b, validBits));
        validBits := validBits + 8;
      }
    }

    /** Reads a code of n bits. */
    method ReadCode(n: nat) returns (code: nat)
      requires Valid() && n <= validBits
      modifies this`bits, this`validBits
      ensures Valid() && code == Bits(data, old(Position()), n) && Position() == old(Position()) + n
      ensures validBits == old(validBits) - n
    {
      hide Bits, Pow2, Shl, Shr, And, Low;
      BitsTake(data, Position(), n, validBits - n);
      ShlMul(1, n);
      AndMask(bits, n);
      code := And(bits, Shl(1, n) - 1);
      bits := Shr(bits, n);
      validBits := validBits - n;
    }
  }

  lemma UnblockStep(input: seq<byte>, p: nat)
    ensures var n := ByteAt(input, p);
            Take(input, p, 0) + Unblock(input, p) == if n == 0 then [] else Take(input, p + 1, n) + Unblock(input, p + 1 + n)
  {
    hide Take;
    EmptyTake(input, p);
  }

  lemma EmptyTake(input: seq<byte>, p: nat)
    ensures Take(input, p, 0) == []
  {}

  lemma TakeStep(input: seq<byte>, p: nat, n: nat, data: seq<byte>, t: nat)
    requires n > 0 && t <= |data| && data[t..] == Take(input, p, n) + Unblock(input, p + n)
    ensures t < |data| && ByteAt(data, t) == ByteAt(input, p)
    ensures data[t + 1..] == Take(input, p + 1, n - 1) + Unblock(input, p + 1 + (n - 1))
  {
    hide Unblock;
    assert data[t + 1..] == data[t..][1..] && data[t] == data[t..][0];
  }
}
