/** The `#rrggbb` codec of `lib/color.js`: `integerToHexString`,
    `arrayColorToHexString` and `hexColorStringToArray`.

    The three functions start by calling `invariant`, which `lib/color.js`
    never imports, so as written each of them raises a `ReferenceError`
    before doing anything else (the `AsWritten` members). The other members
    model them with `invariant` bound to `lib/invariant.js`. */
module HexColor {

  import opened Wrappers
  import Arith

  /** A character the case-insensitive class `[0-9a-f]` accepts. */
  predicate IsHexDigit(c: char)
  {
    '0' <= c <= '9' || 'a' <= c <= 'f' || 'A' <= c <= 'F'
  }

  /** A digit `Number.prototype.toString(16)` produces. */
  predicate IsLowerHexDigit(c: char)
  {
    '0' <= c <= '9' || 'a' <= c <= 'f'
  }

  predicate AllHexDigits(s: string)
  {
    forall i :: 0 <= i < |s| ==> IsHexDigit(s[i])
  }

  predicate AllLowerHexDigits(s: string)
  {
    forall i :: 0 <= i < |s| ==> IsLowerHexDigit(s[i])
  }

  /** The value of one hexadecimal digit, in either case. */
  function DigitValue(c: char): (d: nat)
    requires IsHexDigit(c)
    ensures d < 16
  {
    if c <= '9' then c as int - '0' as int
    else if c <= 'F' then c as int - 'A' as int + 10
    else c as int - 'a' as int + 10
  }

  /** The lower-case digit of value `d`. */
  function HexDigit(d: nat): (c: char)
    requires d < 16
    ensures IsLowerHexDigit(c) && DigitValue(c) == d
  {
    if d < 10 then ('0' as int + d) as char else ('a' as int + d - 10) as char
  }

  /** `parseInt(digits, 16)` on a non-empty string of hexadecimal digits:
      the digits read most significant first. */
  function ParseHex(s: string): nat
    requires AllHexDigits(s)
  {
    if |s| == 0 then 0 else ParseHex(s[..|s| - 1]) * 16 + DigitValue(s[|s| - 1])
  }

  function Pow16(k: nat): (p: nat)
    ensures p > 0
  {
    if k == 0 then 1 else 16 * Pow16(k - 1)
  }

  /** `k` digits encode a value below `16^k`. */
  lemma {:induction false} ParseHexBound(s: string)
    requires AllHexDigits(s)
    ensures ParseHex(s) < Pow16(|s|)
  {
    if |s| > 0 {
      var n := |s| - 1;
      ParseHexBound(s[..n]);
      Arith.MulMono(ParseHex(s[..n]) + 1, Pow16(n), 16);
    }
  }

  /** Reading `a + b` reads `a`, shifted left by the digits of `b`, plus `b`. */
  lemma {:induction false} ParseHexAppend(a: string, b: string)
    requires AllHexDigits(a) && AllHexDigits(b)
    ensures AllHexDigits(a + b)
    ensures ParseHex(a + b) == ParseHex(a) * Pow16(|b|) + ParseHex(b)
  {
    if |b| == 0 {
      assert a + b == a;
    } else {
      var n := |b| - 1;
      ParseHexAppendLast(a, b);
      ParseHexAppend(a, b[..n]);
      ShiftDigit(ParseHex(a), Pow16(n), ParseHex(b[..n]), DigitValue(b[n]));
    }
  }

  /** The last digit of `a + b` is the last digit of `b`. */
  lemma ParseHexAppendLast(a: string, b: string)
    requires AllHexDigits(a) && AllHexDigits(b) && |b| > 0
    ensures AllHexDigits(a + b) && AllHexDigits(a + b[..|b| - 1])
    ensures ParseHex(a + b) == ParseHex(a + b[..|b| - 1]) * 16 + DigitValue(b[|b| - 1])
    ensures ParseHex(b) == ParseHex(b[..|b| - 1]) * 16 + DigitValue(b[|b| - 1])
  {
    var ab := a + b;
    assert ab[..|ab| - 1] == a + b[..|b| - 1] && ab[|ab| - 1] == b[|b| - 1];
  }

  lemma ShiftDigit(x: int, p: int, y: int, d: int)
    ensures (x * p + y) * 16 + d == x * (16 * p) + (y * 16 + d)
  {
  }

  /** A string of zeros reads as zero. */
  lemma {:induction false} ParseZeros(s: string)
    requires forall i :: 0 <= i < |s| ==> s[i] == '0'
    ensures AllHexDigits(s) && ParseHex(s) == 0
  {
    if |s| > 0 {
      ParseZeros(s[..|s| - 1]);
    }
  }

  /** `integer.toString(16)` for a non-negative whole number: lower-case
      hexadecimal digits without leading zeros, and `"0"` for zero. */
  function ToHexString(n: nat): (s: string)
    ensures 0 < |s| && AllLowerHexDigits(s)
  {
    if n < 16 then [HexDigit(n)] else ToHexString(n / 16) + [HexDigit(n % 16)]
  }

  /** `toString(16)` and `parseInt(_, 16)` are inverse, and only zero is
      written with a leading zero. */
  lemma {:induction false} ParseToHexString(n: nat)
    ensures AllHexDigits(ToHexString(n))
    ensures ParseHex(ToHexString(n)) == n
    ensures n > 0 ==> ToHexString(n)[0] != '0'
  {
    var s := ToHexString(n);
    if n >= 16 {
      ParseToHexString(n / 16);
      assert s[..|s| - 1] == ToHexString(n / 16);
    }
  }

  /** `string.slice(-6)` on a string of at least six characters. */
  function LastSix(s: string): (r: string)
    requires |s| >= 6
    ensures |r| == 6 && s == s[..|s| - 6] + r
  {
    s[|s| - 6..]
  }

  /** `integerToHexString(integer)`: rejects a negative integer; otherwise the
      last six characters of `'000000' + integer.toString(16)`. The
      whole-number check always passes on the model's integers. */
  function IntegerToHexString(integer: int): (r: Result<string>)
    ensures r.Success? <==> integer >= 0
  {
    var _ :- Need(integer >= 0, "'integer' must be non-negative");
    Success(LastSix("000000" + ToHexString(integer)))
  }

  /** The encoding is always six lower-case digits, and it reads back as the
      integer modulo `16^6`: zero-padded below `0x1000000`, truncated to
      the low six digits above. */
  lemma IntegerToHexStringDigits(integer: int)
    requires integer >= 0
    ensures |IntegerToHexString(integer).value| == 6
    ensures AllLowerHexDigits(IntegerToHexString(integer).value)
    ensures AllHexDigits(IntegerToHexString(integer).value)
    ensures ParseHex(IntegerToHexString(integer).value) == integer % 0x100_0000
  {
    var padded := "000000" + ToHexString(integer);
    ParseToHexString(integer);
    ParseZeroPadded(ToHexString(integer));
    var head := SplitLastSix(padded);
    Arith.DivModUnique(integer, 0x100_0000, head, ParseHex(LastSix(padded)));
  }

  /** Leading zeros do not change the value read. */
  lemma ParseZeroPadded(digits: string)
    requires AllHexDigits(digits)
    ensures AllHexDigits("000000" + digits) && ParseHex("000000" + digits) == ParseHex(digits)
  {
    ParseZeros("000000");
    ParseHexAppend("000000", digits);
  }

  /** A string of digits reads as its head shifted by six digits plus its
      last six digits, which read below `16^6`. */
  lemma SplitLastSix(s: string) returns (head: nat)
    requires AllHexDigits(s) && |s| >= 6
    ensures AllHexDigits(LastSix(s))
    ensures ParseHex(s) == head * 0x100_0000 + ParseHex(LastSix(s)) && ParseHex(LastSix(s)) < 0x100_0000
  {
    var r := LastSix(s);
    var prefix := s[..|s| - 6];
    assert AllHexDigits(prefix) && AllHexDigits(r);
    ParseHexAppend(prefix, r);
    ParseHexBound(r);
    assert Pow16(6) == 0x100_0000;
    head := ParseHex(prefix);
  }

  /** `(r << 16) | (g << 8) | (b << 0)` for channels that are bytes: the
      three shifted bytes occupy disjoint bits, so the `|` is an addition
      (`BitPacking` states this on 32-bit words). */
  function Pack(r: int, g: int, b: int): (v: int)
    requires 0 <= r < 256 && 0 <= g < 256 && 0 <= b < 256
    ensures 0 <= v < 0x100_0000
  {
    r * 0x1_0000 + g * 0x100 + b
  }

  /** On 32-bit words (JavaScript's bitwise operators work on those), the
      shift-and-or packing of three bytes is the positional sum of `Pack`. */
  lemma BitPacking(r: bv32, g: bv32, b: bv32)
    requires r < 256 && g < 256 && b < 256
    ensures (r << 16) | (g << 8) | (b << 0) == r * 0x1_0000 + g * 0x100 + b
  {
  }

  /** On 32-bit words below `0x1000000`, the mask-and-shift extraction of
      each byte is the quotient-and-remainder of `HexColorStringToArray`. */
  lemma BitFields(v: bv32)
    requires v < 0x100_0000
    ensures (v & (255 << 16)) >> 16 == v / 0x1_0000
    ensures (v & (255 << 8)) >> 8 == v / 0x100 % 0x100
    ensures (v & (255 << 0)) >> 0 == v % 0x100
  {
  }

  /** A channel of a colour is a byte. */
  predicate IsByteColor(color: seq<int>)
  {
    |color| >= 3 && forall i :: 0 <= i < 3 ==> 0 <= color[i] < 256
  }

  /** `arrayColorToHexString([r, g, b])`: `'#'` followed by the six digits of
      the packed channels. The packed value is never negative, so the call
      to `integerToHexString` cannot raise. */
  function ArrayColorToHexString(color: seq<int>): (r: string)
    requires IsByteColor(color)
    ensures |r| == 7 && r[0] == '#' && AllLowerHexDigits(r[1..])
  {
    IntegerToHexStringDigits(Pack(color[0], color[1], color[2]));
    "#" + IntegerToHexString(Pack(color[0], color[1], color[2])).value
  }

  /** The form `^[#][0-9a-f]{6}$`, case-insensitively. */
  predicate IsHexColorString(s: string)
  {
    |s| == 7 && s[0] == '#' && AllHexDigits(s[1..])
  }

  /** `hexColorStringToArray(string)`: rejects a string not of the form
      `#xxxxxx`; otherwise the three bytes of `parseInt(string.slice(1), 16)`,
      most significant first, and an opaque alpha of 255. */
  function HexColorStringToArray(s: string): (r: Result<seq<int>>)
    ensures r.Success? <==> IsHexColorString(s)
    ensures r.Success? ==> |r.value| == 4 && r.value[3] == 255
    ensures r.Success? ==> forall i :: 0 <= i < 4 ==> 0 <= r.value[i] < 256
  {
    var _ :- Need(IsHexColorString(s), "'string' must be of the form #xxxxxx, where x represents hexadecimal digits");
    var value := ParseHex(s[1..]);
    ParseHexBound(s[1..]);
    assert Pow16(6) == 0x100_0000;
    Success([value / 0x1_0000, value / 0x100 % 0x100, value % 0x100, 255])
  }

  /** Encoding a colour and decoding the string gives back its three
      channels with an opaque alpha. */
  lemma HexRoundTrip(color: seq<int>)
    requires IsByteColor(color)
    ensures HexColorStringToArray(ArrayColorToHexString(color)) ==
      Success([color[0], color[1], color[2], 255])
  {
    var v := Pack(color[0], color[1], color[2]);
    IntegerToHexStringDigits(v);
    var s := ArrayColorToHexString(color);
    var digits := IntegerToHexString(v).value;
    assert s[1..] == digits;
    assert ParseHex(s[1..]) == v;
    Arith.DivModUnique(v, 0x1_0000, color[0], color[1] * 0x100 + color[2]);
    Arith.DivModUnique(v, 0x100, color[0] * 0x100 + color[1], color[2]);
    Arith.DivModUnique(color[0] * 0x100 + color[1], 0x100, color[0], color[1]);
  }

  /** `hexColorStringToArray` as written: `invariant` is unbound in
      `lib/color.js`, so the call that opens the body raises. */
  function HexColorStringToArrayAsWritten(s: string): (r: Result<seq<int>>)
    ensures r == Failure(ReferenceError("invariant"))
  {
    match Unbound("invariant")
    case Failure(e) => Failure(e)
    case Success(_) => HexColorStringToArray(s)
  }

  /** `integerToHexString` as written: raises for the same reason. */
  function IntegerToHexStringAsWritten(integer: int): (r: Result<string>)
    ensures r == Failure(ReferenceError("invariant"))
  {
    match Unbound("invariant")
    case Failure(e) => Failure(e)
    case Success(_) => IntegerToHexString(integer)
  }

  /** `arrayColorToHexString` as written: raises from `integerToHexString`. */
  function ArrayColorToHexStringAsWritten(color: seq<int>): (r: Result<string>)
    requires IsByteColor(color)
    ensures r == Failure(ReferenceError("invariant"))
  {
    match IntegerToHexStringAsWritten(Pack(color[0], color[1], color[2]))
    case Failure(e) => Failure(e)
    case Success(digits) => Success("#" + digits)
  }

  /** As written, neither direction of the codec returns for black, which
      the corrected codec encodes and decodes back. */
  lemma CodecAsWrittenRaises(black: seq<int>)
    requires black == [0, 0, 0]
    ensures ArrayColorToHexStringAsWritten(black).Failure?
    ensures HexColorStringToArrayAsWritten(ArrayColorToHexString(black)).Failure?
    ensures HexColorStringToArray(ArrayColorToHexString(black)) == Success([0, 0, 0, 255])
  {
    var s := ArrayColorToHexString(black);
    assert HexColorStringToArrayAsWritten(s).Failure?;
    HexRoundTrip(black);
  }
}
