/** Printing numbers in decimal and in hexadecimal, and reading them back. */
module Numbers {
  import opened Bytes

  const INT64_MIN: int := -0x8000_0000_0000_0000
  const INT64_MAX: int := 0x7FFF_FFFF_FFFF_FFFF
  const MINUS: byte := 45
  const ZERO: byte := 48

  // ---------------------------------------------------------------- numerals

  /** The character of digit `d`: 0-9, then A-F. */
  function DigitChar(d: nat): byte
    requires d < 16
  {
    if d < 10 then ZERO + d else 55 + d
  }

  /** The numeral of `n` without leading zeros; nothing for 0. */
  function DigitsOf(n: nat, base: nat): seq<byte>
    requires base == 10 || base == 16
    decreases n
  {
    if n == 0 then [] else DigitsOf(n / base, base) + [DigitChar(n % base)]
  }

  function Numeral(n: nat, base: nat): (s: seq<byte>)
    requires base == 10 || base == 16
  {
    if n == 0 then [ZERO] else DigitsOf(n, base)
  }

  function Decimal(i: int): seq<byte> {
    if i < 0 then [MINUS] + Numeral(-i, 10) else Numeral(i, 10)
  }

  /** "0x" and the upper-case hexadecimal numeral. */
  function Hex(n: nat): seq<byte> {
    [ZERO, 120] + Numeral(n, 16)
  }

  // ---------------------------------------------------------------- reading back

  datatype Parsed = NotANumber | Number(value: int)

  function DigitValue(c: byte): nat {
    if 48 <= c <= 57 then c - 48 else if 65 <= c <= 70 then c - 55 else 16
  }

  function ParseNat(s: seq<byte>, base: nat): Parsed {
    if |s| == 0 then Number(0)
    else
      var p, d := ParseNat(s[..|s| - 1], base), DigitValue(s[|s| - 1]);
      if p.NotANumber? || d >= base then NotANumber else Number(p.value * base + d)
  }

  function ParseDecimal(s: seq<byte>): Parsed {
    if |s| == 0 then NotANumber
    else if s[0] == 45 then
      if |s| == 1 then NotANumber
      else var p := ParseNat(s[1..], 10); if p.NotANumber? then p else Number(-p.value)
    else ParseNat(s, 10)
  }

  function ParseHex(s: seq<byte>): Parsed {
    if |s| < 3 || s[..2] != [48, 120] then NotANumber else ParseNat(s[2..], 16)
  }

  lemma {:induction false} ParseDigits(n: nat, base: nat)
    requires base == 10 || base == 16
    ensures ParseNat(DigitsOf(n, base), base) == Number(n)
    decreases n
  {
    if n > 0 {
      var s, q, d := DigitsOf(n, base), n / base, n % base;
      ParseDigits(q, base);
      assert s == DigitsOf(q, base) + [DigitChar(d)];
      assert s[..|s| - 1] == DigitsOf(q, base);
      assert q * base + d == n && DigitValue(DigitChar(d)) == d < base;
    }
  }

  lemma ParseNumeral(n: nat, base: nat)
    requires base == 10 || base == 16
    ensures ParseNat(Numeral(n, base), base) == Number(n)
  {
    ParseDigits(n, base);
    if n == 0 {
      assert [ZERO][..0] == [];
    }
  }

  /** A positive number's numeral starts with a digit other than 0 and is no longer than it has to be. */
  lemma {:induction false} NumeralShape(n: nat, base: nat)
    requires (base == 10 || base == 16) && n > 0
    ensures |DigitsOf(n, base)| > 0 && DigitsOf(n, base)[0] != ZERO && DigitsOf(n, base)[0] != MINUS
    decreases n
  {
    if base == 10 && n >= 10 {
      NumeralShape(n / 10, base);
    } else if base == 16 && n >= 16 {
      NumeralShape(n / 16, base);
    }
  }

  function Power(b: nat, e: nat): nat {
    if e == 0 then 1 else b * Power(b, e - 1)
  }

  lemma {:induction false} DigitsLength(n: nat, base: nat, k: nat)
    requires (base == 10 || base == 16) && n < Power(base, k)
    ensures |DigitsOf(n, base)| <= k
    decreases k
  {
    if n > 0 {
      assert n / base < Power(base, k - 1) by {
        DivBound(n, base, Power(base, k - 1));
      }
      DigitsLength(n / base, base, k - 1);
    }
  }

  lemma DivBound(n: nat, b: nat, m: nat)
    requires b > 0 && n < b * m
    ensures n / b < m
  {
  }

  lemma Powers()
    ensures INT64_MAX < Power(10, 19) && Power(16, 16) == U64
  {
    assert Power(10, 5) == 100000;
    assert Power(10, 10) == 10000000000;
    assert Power(10, 15) == 1000000000000000;
    assert Power(10, 19) == 10000000000000000000;
    assert Power(16, 4) == 0x1_0000;
    assert Power(16, 8) == 0x1_0000_0000;
    assert Power(16, 12) == 0x1_0000_0000_0000;
    assert Power(16, 16) == U64;
  }

  // ---------------------------------------------------------------- print_decimal

  /** Negation in 64 bits: the minimum is its own negative. */
  function Negate64(i: int): int {
    if i == INT64_MIN then i else -i
  }

  /** What `print_decimal` prints. */
  function DecimalText(i: int): seq<byte> {
    if i == INT64_MIN then [MINUS] else Decimal(i)
  }

  /** Digits without a leading zero, unless they are a single zero. */
  predicate Lean(digits: seq<byte>) {
    |digits| == 1 || (|digits| > 1 && digits[0] != 48)
  }

  /** `s` is the decimal numeral of `i`; for the minimum of 64 bits, a lone minus sign. */
  predicate ShowsDecimal(s: seq<byte>, i: int) {
    if i == -0x8000_0000_0000_0000 then s == [45]
    else ParseDecimal(s) == Number(i) && Lean(if i < 0 then s[1..] else s)
  }

  /** `s` is "0x" and the hexadecimal numeral of `n`. */
  predicate ShowsHex(s: seq<byte>, n: nat) {
    ParseHex(s) == Number(n) && Lean(s[2..])
  }

  /** Reading the output gives the number back exactly for every number but the minimum. */
  lemma DecimalRoundTrip(i: int)
    requires -0x8000_0000_0000_0000 <= i <= 0x7FFF_FFFF_FFFF_FFFF
    ensures ParseDecimal(DecimalText(i)) == Number(i) <==> i != -0x8000_0000_0000_0000
    ensures ShowsDecimal(DecimalText(i), i) && 1 <= |DecimalText(i)| <= 20
  {
    if i != INT64_MIN {
      var n := if i < 0 then -i else i;
      ParseNumeral(n, 10);
      Powers();
      DigitsLength(n, 10, 19);
      if n > 0 {
        NumeralShape(n, 10);
      }
      if i < 0 {
        assert DecimalText(i)[1..] == Numeral(n, 10);
      }
    }
  }

  lemma HexRoundTrip(n: nat)
    requires n < U64
    ensures ShowsHex(Hex(n), n) && 3 <= |Hex(n)| <= 18
  {
    ParseNumeral(n, 16);
    Powers();
    DigitsLength(n, 16, 16);
    if n > 0 {
      NumeralShape(n, 16);
    }
    assert Hex(n)[2..] == Numeral(n, 16);
  }

  function Reverse(s: seq<byte>): (r: seq<byte>)
    ensures |r| == |s|
  {
    if |s| == 0 then [] else [s[|s| - 1]] + Reverse(s[..|s| - 1])
  }

  /** The digits of `dec`, lowest first, into `temp`; returns how many. */
  method ExtractDigits(dec: nat, temp: array<byte>) returns (count: nat)
    requires temp.Length == 20 && dec <= INT64_MAX
    modifies temp
    ensures 0 < count <= 19 && Reverse(temp[..count]) == Numeral(dec, 10)
  {
    hide Power, DigitsOf, Reverse, Numeral;
    count := 0;
    if dec == 0 {
      temp[count] := ZERO;
      count := count + 1;
      assert temp[..1] == [ZERO];
      OneZero();
      return;
    }
    var rest: nat := dec;
    ExtractStart(dec, temp[..0]);
    while rest > 0
      invariant count <= 19 && rest < Power(10, 19 - count) && (count == 0 ==> rest == dec)
      invariant DigitsOf(rest, 10) + Reverse(temp[..count]) == DigitsOf(dec, 10)
      decreases rest
    {
      OneDigit(rest, 19 - count);
      ghost var was := temp[..count];
      temp[count] := ZERO + rest % 10;
      assert temp[..count + 1] == was + [ZERO + rest % 10];
      ExtendReverse(was, temp[..count + 1], rest);
      count := count + 1;
      rest := rest / 10;
    }
    NoDigits(temp[..count]);
  }

  lemma OneZero()
    ensures Reverse([ZERO]) == Numeral(0, 10)
  {
    assert [ZERO][..0] == [];
  }

  lemma ExtractStart(dec: nat, none: seq<byte>)
    requires 0 < dec <= INT64_MAX && |none| == 0
    ensures DigitsOf(dec, 10) + Reverse(none) == DigitsOf(dec, 10) == Numeral(dec, 10)
    ensures dec < Power(10, 19)
  {
    hide Power;
    Powers();
  }

  lemma OneDigit(rest: nat, left: nat)
    requires 0 < rest < Power(10, left)
    ensures left > 0 && rest / 10 < Power(10, left - 1)
  {
    if left > 0 {
      DivBound(rest, 10, Power(10, left - 1));
    }
  }

  lemma NoDigits(digits: seq<byte>)
    ensures DigitsOf(0, 10) + Reverse(digits) == Reverse(digits)
  {
    assert DigitsOf(0, 10) == [];
  }

  lemma ExtendReverse(was: seq<byte>, now: seq<byte>, rest: nat)
    requires rest > 0 && now == was + [DigitChar(rest % 10)]
    ensures DigitsOf(rest / 10, 10) + Reverse(now) == DigitsOf(rest, 10) + Reverse(was)
  {
    assert now[..|now| - 1] == was;
  }

  /** Appends the digits of `temp` in reverse order to the first `start` bytes of `buffer`. */
  method AppendReversed(buffer: array<byte>, start: nat, temp: array<byte>, count: nat) returns (pos: nat)
    requires buffer.Length == 21 && temp.Length == 20 && buffer != temp && count <= 19 && start + count <= 20
    modifies buffer
    ensures pos == start + count && buffer[..pos] == old(buffer[..start]) + Reverse(temp[..count])
  {
    pos := start;
    var tempPos := count;
    while tempPos > 0
      invariant 0 <= tempPos <= count && pos + tempPos == start + count
      invariant buffer[..pos] + Reverse(temp[..tempPos]) == old(buffer[..start]) + Reverse(temp[..count])
    {
      tempPos := tempPos - 1;
      ghost var was := buffer[..pos];
      assert temp[..tempPos + 1][..tempPos] == temp[..tempPos];
      assert was + Reverse(temp[..tempPos + 1]) == was + [temp[tempPos]] + Reverse(temp[..tempPos]);
      buffer[pos] := temp[tempPos];
      assert buffer[..pos + 1] == was + [temp[tempPos]];
      pos := pos + 1;
    }
    assert buffer[..pos] + Reverse(temp[..0]) == buffer[..pos];
  }

  /** The text `print_decimal` builds in its 21-byte buffer; the terminator fits behind it. */
  method PrintDecimal(dec: int) returns (text: seq<byte>)
    requires INT64_MIN <= dec <= INT64_MAX
    ensures text == DecimalText(dec)
  {
    hide Reverse, DigitsOf;
    var buffer, temp := new byte[21](_ => 0), new byte[20](_ => 0);
    var pos, tempPos, magnitude := 0, 0, dec;
    if dec < 0 {
      magnitude := Negate64(dec);
    }
    if magnitude >= 0 {
      tempPos := ExtractDigits(magnitude, temp);
    }
    if dec < 0 {
      buffer[pos] := MINUS;
      pos := pos + 1;
    }
    ghost var sign, digits := buffer[..pos], Reverse(temp[..tempPos]);
    pos := AppendReversed(buffer, pos, temp, tempPos);
    buffer[pos] := 0;
    text := buffer[..pos];
    assert text == sign + digits;
    assert sign == if dec < 0 then [MINUS] else [];
  }

  // ---------------------------------------------------------------- print_hex

  /** `hex >> (4 * k)`. */
  function Shift(hex: nat, k: nat): nat {
    if k == 0 then hex else Shift(hex, k - 1) / 16
  }

  lemma {:induction false} ShiftBound(hex: nat, k: nat, n: nat)
    requires k <= n && hex < Power(16, n)
    ensures Shift(hex, k) < Power(16, n - k)
  {
    if k > 0 {
      ShiftBound(hex, k - 1, n);
      DivBound(Shift(hex, k - 1), 16, Power(16, n - k));
    }
  }

  /** What the buffer holds when `k` nibbles are still to come. */
  function HexSoFar(hex: nat, k: nat): seq<byte> {
    [ZERO, 120] + if k == 0 then Numeral(hex, 16) else DigitsOf(Shift(hex, k), 16)
  }

  /** A nibble is put out unless it is a leading zero; the last one always is. */
  lemma HexStep(hex: nat, k: nat)
    ensures var nibble := Shift(hex, k) % 16; var puts := nibble != 0 || Shift(hex, k + 1) > 0 || k == 0;
      && puts == (k == 0 || Shift(hex, k) > 0)
      && HexSoFar(hex, k) == HexSoFar(hex, k + 1) + if puts then [DigitChar(nibble)] else []
  {
    var n := Shift(hex, k);
    assert Shift(hex, k + 1) == n / 16;
    if n == 0 {
      assert DigitsOf(0, 16) == [];
    }
  }

  /** The text `print_hex` builds in its 19-byte buffer; the terminator fits behind it. */
  method PrintHex(hex: nat) returns (text: seq<byte>)
    requires hex < U64
    ensures text == Hex(hex)
  {
    hide Shift, HexSoFar, DigitsOf, Hex, DigitChar, Numeral;
    var buffer := new byte[19](_ => 0);
    buffer[0], buffer[1] := ZERO, 120;
    var started, pos := false, 2;
    HexStart(hex);
    var k := 16;
    while k > 0
      invariant 0 <= k <= 16 && 2 <= pos <= 18 - k
      invariant started <==> k == 0 || Shift(hex, k) > 0
      invariant buffer[..pos] == HexSoFar(hex, k)
    {
      k := k - 1;
      HexStep(hex, k);
      var nibble := Shift(hex, k) % 16;
      if nibble != 0 || started || k == 0 {
        ghost var was := buffer[..pos];
        buffer[pos] := DigitChar(nibble);
        assert buffer[..pos + 1] == was + [DigitChar(nibble)];
        pos := pos + 1;
        started := true;
      }
    }
    WholeHex(hex);
    buffer[pos] := 0;
    text := buffer[..pos];
  }

  lemma HexStart(hex: nat)
    requires hex < U64
    ensures Shift(hex, 16) == 0 && HexSoFar(hex, 16) == [ZERO, 120]
  {
    hide Shift;
    Powers();
    ShiftBound(hex, 16, 16);
  }

  lemma WholeHex(hex: nat)
    ensures HexSoFar(hex, 0) == Hex(hex)
  {
  }
}
