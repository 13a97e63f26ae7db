/** strtol: the number at the beginning of a string, clamped to what a long can hold. */
module StrTol {
  import opened BitOps

  const MINUS: nat := 45
  const PLUS: nat := 43
  const ZERO: nat := 48

  // Characters, as the table classifies them

  predicate IsSpace(c: nat) {
    9 <= c <= 13 || c == 32 || c == 160
  }

  predicate IsDigit(c: nat) {
    48 <= c <= 57
  }

  predicate IsUpper(c: nat) {
    65 <= c <= 90 || 192 <= c <= 214 || 216 <= c <= 222
  }

  predicate IsLower(c: nat) {
    97 <= c <= 122 || 223 <= c <= 246 || 248 <= c <= 255
  }

  predicate IsX(c: nat) {
    c == 120 || c == 88
  }

  /** A character string without its terminator. */
  ghost predicate IsString(s: seq<nat>) {
    forall i :: 0 <= i < |s| ==> 0 < s[i] < 256
  }

  /** The character at place i, where the terminator follows the last one. */
  function At(s: seq<nat>, i: nat): nat
    requires i <= |s|
  {
    if i < |s| then s[i] else 0
  }

  // The meaning of a string

  /** The value of a character as a digit; 36 or more if it is no digit in any base. */
  function Digit(c: nat): nat {
    if IsDigit(c) then c - 48
    else if 65 <= c <= 90 then c - 55
    else if 97 <= c <= 122 then c - 87
    else 36
  }

  function SkipSpaces(s: seq<nat>, i: nat): (r: nat)
    requires i <= |s|
    ensures i <= r <= |s|
    decreases |s| - i
  {
    if i < |s| && IsSpace(s[i]) then SkipSpaces(s, i + 1) else i
  }

  /** The end of the digits from place i on. */
  function DigitsEnd(s: seq<nat>, base: nat, i: nat): (r: nat)
    requires i <= |s|
    ensures i <= r <= |s|
    ensures forall k :: i <= k < r ==> Digit(s[k]) < base
    ensures r < |s| ==> Digit(s[r]) >= base
    decreases |s| - i
  {
    if i < |s| && Digit(s[i]) < base then DigitsEnd(s, base, i + 1) else i
  }

  /** The number that digits denote. */
  function Value(digits: seq<nat>, base: nat): nat {
    if digits == [] then 0
    else Value(digits[..|digits| - 1], base) * base + Digit(digits[|digits| - 1])
  }

  function Clamp(v: int, half: nat): int
    requires half > 0
  {
    var h: int := half;
    if v < -h then -h else if v > h - 1 then h - 1 else v
  }

  /** Whether a sign comes at place i. */
  predicate Signed(s: seq<nat>, i: nat)
    requires i <= |s|
  {
    At(s, i) == MINUS || At(s, i) == PLUS
  }

  /** Where the number starts after its sign, before a prefix of 0x. */
  function Unsigned(s: seq<nat>): (r: nat)
    ensures r <= |s|
  {
    var i := SkipSpaces(s, 0);
    if Signed(s, i) then i + 1 else i
  }

  predicate Negative(s: seq<nat>) {
    At(s, SkipSpaces(s, 0)) == MINUS
  }

  /** The prefix of 0x, where the base allows it, as the source looks for it: no digit need follow. */
  predicate Prefixed(s: seq<nat>, base: nat) {
    var i := Unsigned(s);
    (base == 0 || base == 16) && i + 1 < |s| && s[i] == ZERO && IsX(s[i + 1])
  }

  function DigitsStart(s: seq<nat>, base: nat): (r: nat)
    ensures r <= |s|
  {
    if Prefixed(s, base) then Unsigned(s) + 2 else Unsigned(s)
  }

  function RealBase(s: seq<nat>, base: nat): nat {
    if Prefixed(s, base) then 16 else if base == 0 then (if At(s, Unsigned(s)) == ZERO then 8 else 10) else base
  }

  /** The digits of the number. */
  function Digits(s: seq<nat>, base: nat): seq<nat> {
    s[DigitsStart(s, base)..DigitsEnd(s, RealBase(s, base), DigitsStart(s, base))]
  }

  /** The number, with its sign, clamped to the range of a long: -half to half - 1. */
  function Number(s: seq<nat>, base: nat, half: nat): int
    requires half > 0
  {
    var v: int := Value(Digits(s, base), RealBase(s, base));
    Clamp(if Negative(s) then -v else v, half)
  }

  /** Where the number ends; the beginning of the string when there is no digit. */
  function End(s: seq<nat>, base: nat): nat {
    if Digits(s, base) == [] then 0 else DigitsEnd(s, RealBase(s, base), DigitsStart(s, base))
  }

  /** The signed value of a word of twice half. */
  function ToSigned(word: nat, half: nat): int {
    if word < half then word else word - 2 * half
  }

  /** The negation of an unsigned word of modulus twice half. */
  function Negated(word: nat, half: nat): nat
    requires word < 2 * half
  {
    if word == 0 then 0 else 2 * half - word
  }

  /** Whether c is a digit below base, and its value: the decoder's reading of a character. */
  method ReadDigit(c: nat, base: nat) returns (ok: bool, d: nat)
    requires c < 256 && 2 <= base <= 36
    ensures ok <==> Digit(c) < base
    ensures ok ==> d == Digit(c)
  {
    if IsDigit(c) {
      d := c - 48;
    } else if IsUpper(c) || IsLower(c) {
      d := c - (if IsUpper(c) then 55 else 87);
    } else {
      return false, 0;
    }
    ok := d < base;
  }

  /** The value of one digit more. */
  lemma ValueNext(s: seq<nat>, base: nat, i: nat, j: nat)
    requires i <= j < |s|
    ensures Value(s[i..j + 1], base) == Value(s[i..j], base) * base + Digit(s[j])
  {
    assert s[i..j + 1][..j - i] == s[i..j];
  }

  /** The test made before a digit is taken in is exact. */
  lemma CutoffExact(acc: nat, d: nat, base: nat, limit: nat)
    requires d < base
    ensures acc > limit / base || (acc == limit / base && d > limit % base) <==> acc * base + d > limit
  {
    var q, r := limit / base, limit % base;
    assert limit == q * base + r;
    if acc > q {
      MulMono(q + 1, acc, base);
      assert (q + 1) * base == q * base + base;
    } else if acc < q {
      MulMono(acc + 1, q, base);
      assert (acc + 1) * base == acc * base + base;
    }
  }

  /** Skips white space, sign and prefix. */
  method Locate(s: seq<nat>, base0: nat) returns (i: nat, base: nat, neg: bool)
    ensures i == DigitsStart(s, base0) && base == RealBase(s, base0) && neg == Negative(s)
  {
    base, neg, i := base0, false, 0;
    while IsSpace(At(s, i))
      invariant i <= |s| && SkipSpaces(s, i) == SkipSpaces(s, 0)
      decreases |s| - i
    {
      i := i + 1;
    }
    if At(s, i) == MINUS {
      neg := true;
      i := i + 1;
    } else if At(s, i) == PLUS {
      i := i + 1;
    }
    if (base == 0 || base == 16) && At(s, i) == ZERO && IsX(At(s, i + 1)) {
      i := i + 2;
      base := 16;
    }
    if base == 0 {
      base := if At(s, i) == ZERO then 8 else 10;
    }
  }

  /** One digit more keeps a number too large. */
  lemma StaysLarge(v: nat, d: nat, base: nat, limit: nat)
    requires base >= 1 && v > limit
    ensures v * base + d > limit
  {
    MulMono(1, base, v);
  }

  lemma RunsOn(s: seq<nat>, base: nat, i: nat)
    requires i <= |s|
    ensures i < |s| && Digit(s[i]) < base ==> DigitsEnd(s, base, i) == DigitsEnd(s, base, i + 1)
    ensures i == |s| || Digit(s[i]) >= base ==> DigitsEnd(s, base, i) == i
  {}

  /** Takes in digits until one is missing, or the limit is passed; the accumulator never leaves it. */
  method Accumulate(s: seq<nat>, base: nat, limit: nat, start: nat) returns (acc: nat, any: int, i: nat)
    requires IsString(s) && 2 <= base <= 36 && start <= |s|
    ensures i == DigitsEnd(s, base, start)
    ensures var v := Value(s[start..i], base);
            && any == (if i == start then 0 else if v > limit then -1 else 1)
            && acc <= limit && (v <= limit ==> acc == v)
  {
    hide DigitsEnd, Value, Digit, IsDigit, IsUpper, IsLower;
    var cutoff, cutlim := limit / base, limit % base;
    acc, any, i := 0, 0, start;
    assert Value(s[start..i], base) == 0 by { NoValue(base); assert s[start..i] == []; }
    while true
      invariant start <= i <= |s| && DigitsEnd(s, base, i) == DigitsEnd(s, base, start) && acc <= limit
      invariant any == if i == start then 0 else if Value(s[start..i], base) > limit then -1 else 1
      invariant Value(s[start..i], base) <= limit ==> acc == Value(s[start..i], base)
      decreases |s| - i
    {
      var ok, d := ReadDigit(At(s, i), base);
      RunsOn(s, base, i);
      NoTerminator(base);
      if !ok {
        break;
      }
      ValueNext(s, base, start, i);
      CutoffExact(acc, d, base, limit);
      if any < 0 || acc > cutoff || (acc == cutoff && d > cutlim) {
        if any < 0 {
          StaysLarge(Value(s[start..i], base), d, base, limit);
        }
        any := -1;
      } else {
        any := 1;
        acc := acc * base;
        acc := acc + d;
      }
      i := i + 1;
    }
  }

  lemma NoValue(base: nat)
    ensures Value([], base) == 0
  {}

  lemma NoTerminator(base: nat)
    requires base <= 36
    ensures Digit(0) >= base
  {}

  lemma BaseRange(s: seq<nat>, base: nat)
    requires base == 0 || 2 <= base <= 36
    ensures 2 <= RealBase(s, base) <= 36
  {
    hide Prefixed, Unsigned;
  }

  /** The negation of a word, read as signed. */
  lemma SignedWord(acc: nat, half: nat)
    requires acc <= half && half > 0
    ensures ToSigned(Negated(acc, half), half) == 0 - acc && ToSigned(half, half) == 0 - half
  {}

  lemma SignedSmall(acc: nat, half: nat)
    ensures acc < half ==> ToSigned(acc, half) == acc
  {}

  /** strtol, for longs of which half is the modulus of the least. The accumulator stays within half,
      far from wrapping around. */
  method StrToL(s: seq<nat>, base0: nat, half: nat) returns (r: int, end: nat)
    requires IsString(s) && (base0 == 0 || 2 <= base0 <= 36) && half > 0
    ensures r == Number(s, base0, half)
    ensures end == End(s, base0)
  {
    hide DigitsEnd, Value, Digit, DigitsStart, Negative, RealBase, ToSigned;
    BaseRange(s, base0);
    var start, base, neg := Locate(s, base0);
    var limit := if neg then half else half - 1;
    var acc, any, i := Accumulate(s, base, limit, start);
    NoValue(base);
    if any < 0 {
      SignedWord(half, half);
      acc := if neg then half else half - 1;
    } else if neg {
      SignedWord(acc, half);
      acc := Negated(acc, half);
    }
    SignedSmall(acc, half);
    assert Digits(s, base0) == s[start..i];
    r := ToSigned(acc, half);
    end := if any != 0 then i else 0;
  }

  // Numbers written out and read back

  /** The character for a digit; the letters come in both cases. */
  function Face(d: nat, upper: bool): nat
    requires d < 36
  {
    if d < 10 then 48 + d else (if upper then 65 else 97) + (d - 10)
  }

  function Char(d: nat): nat
    requires d < 36
  {
    Face(d, false)
  }

  /** A character has the value of the digit it stands for, in either case, and no others have. */
  lemma DigitOf(c: nat, d: nat)
    requires d < 36
    ensures Digit(c) == d <==> c == Face(d, false) || c == Face(d, true)
  {}

  /** So the case of a letter does not matter. */
  lemma CaseFree(c: nat)
    requires 65 <= c <= 90
    ensures Digit(c) == Digit(c + 32)
  {}

  /** n in the given base. */
  function Render(n: nat, base: nat): (r: seq<nat>)
    requires 2 <= base <= 36
    ensures |r| > 0
    decreases n
  {
    if n < base then [Char(n)]
    else
      Quotient(n, base);
      Render(n / base, base) + [Char(n % base)]
  }

  lemma {:induction false} RenderedValue(n: nat, base: nat)
    requires 2 <= base <= 36
    ensures Value(Render(n, base), base) == n
    ensures forall i :: 0 <= i < |Render(n, base)| ==> Digit(Render(n, base)[i]) < base
    decreases n
  {
    hide Digit, Char, Value;
    Quotient(n, base);
    if n < base {
      CharDigit(n);
      ValueOne(Char(n), base);
    } else {
      CharDigit(n % base);
      RenderedValue(n / base, base);
      ValueMore(Render(n / base, base), Char(n % base), base);
    }
  }

  lemma CharDigit(d: nat)
    requires d < 36
    ensures Digit(Char(d)) == d
  {}

  lemma ValueOne(c: nat, base: nat)
    ensures Value([c], base) == Digit(c)
  {
    assert [c][..0] == [];
  }

  lemma ValueMore(digits: seq<nat>, c: nat, base: nat)
    ensures Value(digits + [c], base) == Value(digits, base) * base + Digit(c)
  {
    assert (digits + [c])[..|digits|] == digits;
  }

  lemma Quotient(n: nat, base: nat)
    requires base >= 2
    ensures (n / base) * base + n % base == n && n % base < base && (n >= base ==> n / base < n)
  {
    var q := n / base;
    assert n == q * base + n % base;
    MulMono(2, base, q);
  }

  /** What is written where a number may follow: nothing, or a character that is no letter or digit. */
  predicate Ends(rest: seq<nat>) {
    rest == [] || Digit(rest[0]) >= 36
  }

  function Magnitude(n: int): nat {
    if n < 0 then -n else n
  }

  /** n as printed. */
  function Print(n: int, base: nat): seq<nat>
    requires 2 <= base <= 36
  {
    (if n < 0 then [MINUS] else []) + Render(Magnitude(n), base)
  }

  /** A number of a long's range, printed in any base, is read back, and just its characters are. */
  lemma RoundTrip(n: int, base: nat, half: nat, rest: seq<nat>)
    requires 2 <= base <= 36 && half > 0 && -(half as int) <= n < half && Ends(rest)
    ensures Number(Print(n, base) + rest, base, half) == n && End(Print(n, base) + rest, base) == |Print(n, base)|
  {
    hide Digit, Value, Render, DigitsEnd, Print, RealBase, DigitsStart, Negative;
    var digits, text := Render(Magnitude(n), base), Print(n, base);
    var s, k := text + rest, if n < 0 then 1 else 0;
    RenderedValue(Magnitude(n), base);
    PrintedStarts(n, base, rest);
    PrintedSlices(n, base, rest);
    RunEnds(s, base, k, |text|);
    NoValue(base);
  }

  lemma PrintedSlices(n: int, base: nat, rest: seq<nat>)
    requires 2 <= base <= 36
    ensures var s, text, k := Print(n, base) + rest, Print(n, base), if n < 0 then 1 else 0;
            && |text| == k + |Render(Magnitude(n), base)| && s[k..|text|] == Render(Magnitude(n), base)
            && (forall i :: k <= i < |text| ==> s[i] == Render(Magnitude(n), base)[i - k])
            && (|text| < |s| ==> s[|text|] == rest[0])
  {
    hide Render;
  }

  lemma PrintedStarts(n: int, base: nat, rest: seq<nat>)
    requires 2 <= base <= 36 && Ends(rest)
    ensures var s := Print(n, base) + rest;
            && Negative(s) == (n < 0) && DigitsStart(s, base) == (if n < 0 then 1 else 0) && RealBase(s, base) == base
  {
    hide Render, Print, Value;
    RenderedValue(Magnitude(n), base);
    PrintedSlices(n, base, rest);
    var s, k := Print(n, base) + rest, if n < 0 then 1 else 0;
    assert s[k] == Render(Magnitude(n), base)[0];
    if n < 0 {
      PrintedSign(n, base, rest);
    }
    NotSpace(s[0]);
    NotSpace(s[k]);
    if k + 1 < |s| {
      assert s[k + 1] == if k + 1 < |Print(n, base)| then Render(Magnitude(n), base)[1] else rest[0];
      NoX(s[k + 1], base);
    }
  }

  lemma PrintedSign(n: int, base: nat, rest: seq<nat>)
    requires 2 <= base <= 36 && n < 0
    ensures (Print(n, base) + rest)[0] == MINUS
  {
    hide Render;
  }

  lemma NotSpace(c: nat)
    ensures c == MINUS || Digit(c) < 36 ==> !IsSpace(c)
    ensures Digit(c) < 36 ==> c != MINUS && c != PLUS
  {}

  lemma NoX(c: nat, base: nat)
    ensures base == 16 && (Digit(c) < base || Digit(c) >= 36) ==> !IsX(c)
  {}

  lemma {:induction false} RunEnds(s: seq<nat>, base: nat, i: nat, j: nat)
    requires i <= j <= |s| && (forall k :: i <= k < j ==> Digit(s[k]) < base) && (j < |s| ==> Digit(s[j]) >= base)
    ensures DigitsEnd(s, base, i) == j
    decreases j - i
  {
    if i < j {
      RunEnds(s, base, i + 1, j);
    }
  }

  // Numbers written in any way

  datatype Sign = NoSign | Plus | Minus

  /** What may stand in a text for a number: white space, a sign, a prefix, digits with the case of each,
      and what follows. */
  datatype Written = Written(space: seq<nat>, sign: Sign, prefix: seq<nat>, digits: seq<nat>, upper: seq<bool>, rest: seq<nat>)

  function SignText(sign: Sign): seq<nat> {
    match sign
    case NoSign => []
    case Plus => [43]
    case Minus => [45]
  }

  function Spell(digits: seq<nat>, upper: seq<bool>): (r: seq<nat>)
    requires |digits| == |upper| && forall i :: 0 <= i < |digits| ==> digits[i] < 36
    ensures |r| == |digits| && forall i :: 0 <= i < |r| ==> r[i] == Face(digits[i], upper[i])
  {
    seq(|digits|, i requires 0 <= i < |digits| => Face(digits[i], upper[i]))
  }

  /** The number with the given digits. */
  function Horner(digits: seq<nat>, base: nat): nat {
    if digits == [] then 0 else Horner(digits[..|digits| - 1], base) * base + digits[|digits| - 1]
  }

  /** The base in which the digits are to be read: 16 after a prefix; in base 0 without one, 8 if they
      start with a zero and 10 otherwise. */
  function BaseOf(w: Written, base: nat): nat {
    if w.prefix != [] then 16
    else if base == 0 then (if w.digits != [] && w.digits[0] == 0 then 8 else 10)
    else base
  }

  ghost predicate WellWritten(w: Written, base: nat) {
    && (base == 0 || 2 <= base <= 36)
    && (forall i :: 0 <= i < |w.space| ==> w.space[i] in {9, 10, 11, 12, 13, 32, 160})
    && (w.prefix == [] || ((base == 0 || base == 16) && (w.prefix == [48, 120] || w.prefix == [48, 88])))
    && w.digits != [] && |w.upper| == |w.digits|
    && (forall i :: 0 <= i < |w.digits| ==> w.digits[i] < BaseOf(w, base) <= 36)
    && Follows(w, base)
  }

  /** What follows does not go on with the number, and does not make its zero the beginning of a prefix. */
  predicate Follows(w: Written, base: nat) {
    w.rest == [] || (Digit(w.rest[0]) >= BaseOf(w, base)
                     && !(w.prefix == [] && (base == 0 || base == 16) && w.digits == [0] && IsX(w.rest[0])))
  }

  /** Everything but what follows. */
  ghost function Numeral(w: Written, base: nat): (r: seq<nat>)
    requires WellWritten(w, base)
    ensures |r| == |w.space| + |SignText(w.sign)| + |w.prefix| + |w.digits|
  {
    w.space + SignText(w.sign) + w.prefix + Spell(w.digits, w.upper)
  }

  lemma {:induction false} SpellValue(digits: seq<nat>, upper: seq<bool>, base: nat)
    requires |digits| == |upper| && forall i :: 0 <= i < |digits| ==> digits[i] < 36
    ensures Value(Spell(digits, upper), base) == Horner(digits, base)
  {
    hide Digit, Face;
    if digits != [] {
      var n := |digits| - 1;
      SpellValue(digits[..n], upper[..n], base);
      assert Spell(digits, upper)[..n] == Spell(digits[..n], upper[..n]);
      DigitOf(Face(digits[n], upper[n]), digits[n]);
    }
  }

  lemma {:induction false} SkipsSpaces(s: seq<nat>, i: nat, j: nat)
    requires i <= j <= |s| && (forall k :: i <= k < j ==> IsSpace(s[k])) && (j < |s| ==> !IsSpace(s[j]))
    ensures SkipSpaces(s, i) == j
    decreases j - i
  {
    hide IsSpace;
    if i < j {
      SkipsSpaces(s, i + 1, j);
    }
  }

  /** The parts of a text, where they are. */
  lemma Parts(w: Written, base: nat)
    requires WellWritten(w, base)
    ensures var s, a := Numeral(w, base) + w.rest, |w.space|;
            var b := a + |SignText(w.sign)|;
            var c := b + |w.prefix|;
            && (forall i :: 0 <= i < a ==> s[i] == w.space[i])
            && (w.sign.Plus? ==> s[a] == 43) && (w.sign.Minus? ==> s[a] == 45)
            && (w.prefix != [] ==> s[b] == 48 && (s[b + 1] == 120 || s[b + 1] == 88))
            && s[c..c + |w.digits|] == Spell(w.digits, w.upper)
            && (forall i :: 0 <= i < |w.digits| ==> s[c + i] == Face(w.digits[i], w.upper[i]))
            && |s| == c + |w.digits| + |w.rest| && (w.rest != [] ==> s[c + |w.digits|] == w.rest[0])
  {
    hide Face, Follows;
  }

  lemma FaceIs(d: nat, upper: bool)
    requires d < 36
    ensures var c := Face(d, upper);
            Digit(c) == d && !IsSpace(c) && c != MINUS && c != PLUS && (c == ZERO <==> d == 0) && (d < 16 ==> !IsX(c))
  {}

  /** Where the digits start, in which base, and with which sign. */
  lemma WrittenStarts(w: Written, base: nat)
    requires WellWritten(w, base)
    ensures var s := Numeral(w, base) + w.rest;
            && Negative(s) == w.sign.Minus? && RealBase(s, base) == BaseOf(w, base)
            && DigitsStart(s, base) == |w.space| + |SignText(w.sign)| + |w.prefix|
  {
    hide Face, Spell, Numeral, Digit, SkipSpaces, IsSpace, WellWritten, Unsigned, Negative;
    WrittenSign(w, base);
    Parts(w, base);
    var s, b := Numeral(w, base) + w.rest, |w.space| + |SignText(w.sign)|;
    FirstDigit(w, base);
    if w.prefix == [] && b + 1 < |s| {
      NotPrefix(w, base, s, b);
    }
  }

  lemma FirstDigit(w: Written, base: nat)
    requires WellWritten(w, base)
    ensures w.digits != [] && |w.upper| == |w.digits| && w.digits[0] < 36 && (base == 0 || 2 <= base <= 36)
    ensures var c := Face(w.digits[0], w.upper[0]);
            Digit(c) < 36 && !IsSpace(c) && c != MINUS && c != PLUS && (c == ZERO <==> w.digits[0] == 0)
    ensures w.prefix != [] ==> |w.prefix| == 2 && (base == 0 || base == 16)
  {
    hide Face;
    FaceIs(w.digits[0], w.upper[0]);
  }

  /** Where the white space ends, and what the sign is. */
  lemma WrittenSign(w: Written, base: nat)
    requires WellWritten(w, base)
    ensures var s := Numeral(w, base) + w.rest;
            && Negative(s) == w.sign.Minus? && Unsigned(s) == |w.space| + |SignText(w.sign)|
  {
    hide Face, Spell, Numeral, Digit, SkipSpaces;
    Parts(w, base);
    FirstDigit(w, base);
    SkipsSpaces(Numeral(w, base) + w.rest, 0, |w.space|);
  }

  lemma NotPrefix(w: Written, base: nat, s: seq<nat>, b: nat)
    requires WellWritten(w, base) && w.prefix == [] && b + 1 < |s|
    requires s[b] == Face(w.digits[0], w.upper[0])
    requires |w.digits| > 1 ==> s[b + 1] == Face(w.digits[1], w.upper[1])
    requires |w.digits| == 1 ==> w.rest != [] && s[b + 1] == w.rest[0]
    ensures (base == 0 || base == 16) && s[b] == ZERO ==> !IsX(s[b + 1])
  {
    hide Face, Spell;
    FaceIs(w.digits[0], w.upper[0]);
    if |w.digits| > 1 {
      FaceIs(w.digits[1], w.upper[1]);
    } else if s[b] == ZERO {
      assert w.digits == [0];
    }
  }

  /** The digits end where they were written to the end. */
  lemma WrittenDigits(w: Written, base: nat)
    requires WellWritten(w, base)
    ensures var s, c := Numeral(w, base) + w.rest, |w.space| + |SignText(w.sign)| + |w.prefix|;
            && DigitsEnd(s, BaseOf(w, base), c) == c + |w.digits| == |Numeral(w, base)|
            && s[c..c + |w.digits|] == Spell(w.digits, w.upper)
            && (forall i :: 0 <= i < |w.digits| ==> w.digits[i] < 36)
  {
    hide Face, Spell, Numeral, Digit, DigitsEnd;
    var s, r, c := Numeral(w, base) + w.rest, BaseOf(w, base), |w.space| + |SignText(w.sign)| + |w.prefix|;
    Parts(w, base);
    forall k | c <= k < c + |w.digits|
      ensures Digit(s[k]) < r
    {
      assert s[c + (k - c)] == Face(w.digits[k - c], w.upper[k - c]);
      FaceIs(w.digits[k - c], w.upper[k - c]);
    }
    RunEnds(s, r, c, c + |w.digits|);
  }

  /** However a number is written, with white space, a sign and a prefix before it and its letters in
      either case, it is read as its value, clamped to the range of a long, and to its last digit. */
  lemma ReadsBack(w: Written, base: nat, half: nat)
    requires WellWritten(w, base) && half > 0
    ensures var s, v := Numeral(w, base) + w.rest, Horner(w.digits, BaseOf(w, base));
            && Number(s, base, half) == Clamp(if w.sign.Minus? then 0 - v else v, half)
            && End(s, base) == |Numeral(w, base)|
  {
    hide Face, Spell, Numeral, Digit, Value, DigitsEnd, DigitsStart, RealBase, Negative, Clamp, Horner, WellWritten,
      BaseOf;
    WrittenStarts(w, base);
    WrittenDigits(w, base);
    FirstDigit(w, base);
    SpellValue(w.digits, w.upper, BaseOf(w, base));
  }

  // The standard reading of the prefix (section 7.22.1.4 of ISO C)

  /** The prefix counts only when a hexadecimal digit follows it. */
  predicate StdPrefixed(s: seq<nat>, base: nat) {
    Prefixed(s, base) && Unsigned(s) + 2 < |s| && Digit(s[Unsigned(s) + 2]) < 16
  }

  function StdStart(s: seq<nat>, base: nat): (r: nat)
    ensures r <= |s|
  {
    if StdPrefixed(s, base) then Unsigned(s) + 2 else Unsigned(s)
  }

  function StdBase(s: seq<nat>, base: nat): nat {
    if StdPrefixed(s, base) then 16 else if base == 0 then (if At(s, Unsigned(s)) == ZERO then 8 else 10) else base
  }

  function StdDigits(s: seq<nat>, base: nat): seq<nat> {
    s[StdStart(s, base)..DigitsEnd(s, StdBase(s, base), StdStart(s, base))]
  }

  function StdNumber(s: seq<nat>, base: nat, half: nat): int
    requires half > 0
  {
    var v: int := Value(StdDigits(s, base), StdBase(s, base));
    Clamp(if Negative(s) then -v else v, half)
  }

  function StdEnd(s: seq<nat>, base: nat): nat {
    if StdDigits(s, base) == [] then 0 else DigitsEnd(s, StdBase(s, base), StdStart(s, base))
  }

  /** After a prefix without a digit the source has read nothing, where the standard reads a zero. */
  lemma BarePrefix(s: seq<nat>, base: nat)
    requires Prefixed(s, base) && !StdPrefixed(s, base)
    ensures Digits(s, base) == [] && StdDigits(s, base) == [ZERO] && StdEnd(s, base) == Unsigned(s) + 1
  {
    hide Unsigned;
    var i := Unsigned(s);
    RunsOn(s, 16, i + 2);
    RunsOn(s, StdBase(s, base), i);
    RunsOn(s, StdBase(s, base), i + 1);
    assert s[i..i + 1] == [ZERO];
  }

  /** So the end is not the standard's exactly when the prefix comes without a hexadecimal digit. */
  lemma EndStandard(s: seq<nat>, base: nat)
    requires base == 0 || 2 <= base <= 36
    ensures End(s, base) == StdEnd(s, base) <==> !(Prefixed(s, base) && !StdPrefixed(s, base))
  {
    hide DigitsEnd, Unsigned, Prefixed;
    if Prefixed(s, base) && !StdPrefixed(s, base) {
      BarePrefix(s, base);
    }
  }

  /** The number is the standard's all the same: zero, with no digit read as with one. */
  lemma NumberStandard(s: seq<nat>, base: nat, half: nat)
    requires (base == 0 || 2 <= base <= 36) && half > 0
    ensures Number(s, base, half) == StdNumber(s, base, half)
  {
    hide DigitsEnd, Unsigned, Prefixed, Value;
    if Prefixed(s, base) && !StdPrefixed(s, base) {
      BarePrefix(s, base);
      NoValue(RealBase(s, base));
      ValueOne(ZERO, StdBase(s, base));
    }
  }

  /** The string 0x in base 16. */
  lemma BarePrefixEnds()
    ensures End([48, 120], 16) == 0 && StdEnd([48, 120], 16) == 1
  {
    var s := [48, 120];
    assert SkipSpaces(s, 0) == 0;
    BarePrefix(s, 16);
  }
}
