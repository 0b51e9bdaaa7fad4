/**
 * Integers as text. Two library routines the core relies on:
 * `seal::util::uint_to_hex_string` (an unsigned value as upper-case
 * hexadecimal digits without leading zeros) and `std::stoi` (the C library's
 * `strtol` restricted to the range of `int`), in base 10 when coefficient
 * rows are read and in base 16 when a decrypted prediction is decoded.
 */
module Numerals {
  import opened Wrappers
  import opened Cpp

  /** The two bases the source parses and prints in. */
  type Base = b: int | b == 10 || b == 16 witness 10

  /** `isspace` in the "C" locale: space, tab, newline, vertical tab, form feed, carriage return. */
  predicate IsSpace(c: char) {
    c == ' ' || 9 <= c as int <= 13
  }

  predicate IsHexDigit(c: char) {
    ('0' <= c <= '9') || ('a' <= c <= 'f') || ('A' <= c <= 'F')
  }

  function DigitValue(c: char): (d: nat)
    requires IsHexDigit(c)
    ensures d < 16
    ensures '0' <= c <= '9' <==> d < 10
  {
    if '0' <= c <= '9' then c as int - '0' as int
    else if 'a' <= c <= 'f' then c as int - 'a' as int + 10
    else c as int - 'A' as int + 10
  }

  predicate IsDigitIn(c: char, base: Base) {
    IsHexDigit(c) && DigitValue(c) < base
  }

  predicate AllDigitsIn(s: string, base: Base) {
    forall i :: 0 <= i < |s| ==> IsDigitIn(s[i], base)
  }

  /** The upper-case digit for `d`, as `uint_to_hex_string` writes it. */
  function DigitChar(d: nat): (c: char)
    requires d < 16
    ensures IsHexDigit(c) && DigitValue(c) == d
    ensures c != '-' && c != '+' && !IsSpace(c)
  {
    if d < 10 then ('0' as int + d) as char else ('A' as int + d - 10) as char
  }

  /** The value of a string of digits, most significant digit first. */
  function DigitsValue(s: string, base: Base): nat
    requires AllDigitsIn(s, base)
  {
    if s == [] then 0
    else DigitsValue(s[..|s| - 1], base) * base + DigitValue(s[|s| - 1])
  }

  /**
   * `v` written in `base` with no leading zeros, "0" for zero. For base 16
   * this is `seal::util::uint_to_hex_string(&v, 1)` for every `v` below 2^64.
   */
  function Numeral(v: nat, base: Base): (s: string)
    decreases v
  {
    if v < base then [DigitChar(v)]
    else Numeral(v / base, base) + [DigitChar(v % base)]
  }

  /** Decimal text of a signed value: a minus sign, then the digits of its magnitude. */
  function DecimalString(x: int): string {
    if x < 0 then "-" + Numeral(-x, 10) else Numeral(x, 10)
  }

  /** A numeral is a non-empty run of digits of its base that reads back as the value. */
  lemma {:induction false} NumeralValue(v: nat, base: Base)
    ensures |Numeral(v, base)| >= 1
    ensures AllDigitsIn(Numeral(v, base), base)
    ensures DigitsValue(Numeral(v, base), base) == v
    decreases v
  {
    var s := Numeral(v, base);
    if v >= base {
      var prefix := Numeral(v / base, base);
      NumeralValue(v / base, base);
      assert s[..|s| - 1] == prefix;
      assert DigitsValue(s, base) == (v / base) * base + v % base;
    }
  }

  /** Only the numeral of zero starts with the digit '0'. */
  lemma {:induction false} NumeralLeadingDigit(v: nat, base: Base)
    ensures |Numeral(v, base)| >= 1
    ensures Numeral(v, base)[0] == '0' ==> v == 0 && Numeral(v, base) == "0"
    decreases v
  {
    if v >= base {
      NumeralLeadingDigit(v / base, base);
      assert Numeral(v, base)[0] == Numeral(v / base, base)[0];
    }
  }

  /** The text after leading white space, as `strtol` skips it. */
  function SkipSpace(s: string): (t: string)
    ensures |t| <= |s| && t == s[|s| - |t|..]
    ensures forall i :: 0 <= i < |s| - |t| ==> IsSpace(s[i])
    ensures t == [] || !IsSpace(t[0])
  {
    if s != [] && IsSpace(s[0]) then
      var t := SkipSpace(s[1..]);
      assert forall i :: 1 <= i < |s| - |t| ==> s[i] == s[1..][i - 1];
      t
    else s
  }

  /** The length of the longest prefix of `s` made of digits of `base`. */
  function DigitRun(s: string, base: Base): (n: nat)
    ensures n <= |s|
    ensures AllDigitsIn(s[..n], base)
    ensures n < |s| ==> !IsDigitIn(s[n], base)
  {
    if s != [] && IsDigitIn(s[0], base) then
      var n := 1 + DigitRun(s[1..], base);
      assert s[..n] == [s[0]] + s[1..][..n - 1];
      n
    else 0
  }

  /** `strtol` with base 16 skips a "0x" or "0X" prefix when a hexadecimal digit follows it. */
  predicate HasHexPrefix(s: string) {
    |s| >= 3 && s[0] == '0' && (s[1] == 'x' || s[1] == 'X') && IsHexDigit(s[2])
  }

  /**
   * `std::stoi(s, nullptr, base)`: skip white space, accept one optional
   * sign, (in base 16) an optional "0x" prefix, then read the longest run of
   * digits and ignore whatever follows it. No digit at all raises
   * `std::invalid_argument`; a value outside the range of `int` raises
   * `std::out_of_range`.
   */
  function Stoi(s: string, base: Base): (r: Result<int, CppException>)
    ensures r.Success? ==> Int32Min <= r.value <= Int32Max
    ensures SkipSpace(s) == [] ==> r == Failure(InvalidArgument)
    ensures r == Failure(InvalidArgument) <==> DigitRun(NumberText(s, base), base) == 0
    ensures r == Failure(OutOfRange) <==>
      DigitRun(NumberText(s, base), base) > 0 && !InInt32(SignedRun(NumberText(s, base), IsNegative(s), base))
    ensures r.Success? ==> r.value == SignedRun(NumberText(s, base), IsNegative(s), base)
  {
    ReadDigits(NumberText(s, base), IsNegative(s), base)
  }

  /** Whether the number `Stoi` reads carries a minus sign. */
  predicate IsNegative(s: string) {
    var t := SkipSpace(s);
    t != [] && t[0] == '-'
  }

  /** The text `Stoi` takes its digits from: after white space, one optional sign and, in base 16, an optional "0x". */
  function NumberText(s: string, base: Base): (digits: string)
    ensures |digits| <= |s|
  {
    var t := SkipSpace(s);
    var unsigned := if t != [] && (t[0] == '-' || t[0] == '+') then t[1..] else t;
    if base == 16 && HasHexPrefix(unsigned) then unsigned[2..] else unsigned
  }

  predicate InInt32(v: int) {
    Int32Min <= v <= Int32Max
  }

  /** The value of the leading run of digits of `digits`, negated when `negative`. */
  function SignedRun(digits: string, negative: bool, base: Base): int {
    var magnitude: int := DigitsValue(digits[..DigitRun(digits, base)], base);
    if negative then -magnitude else magnitude
  }

  /** The part of `Stoi` after the sign and prefix: the leading digit run, negated when a minus sign was seen. */
  function ReadDigits(digits: string, negative: bool, base: Base): (r: Result<int, CppException>)
    ensures r.Success? ==> Int32Min <= r.value <= Int32Max
    ensures digits == [] ==> r == Failure(InvalidArgument)
    ensures r == Failure(InvalidArgument) <==> DigitRun(digits, base) == 0
    ensures r == Failure(OutOfRange) <==> DigitRun(digits, base) > 0 && !InInt32(SignedRun(digits, negative, base))
    ensures r.Success? ==> r.value == SignedRun(digits, negative, base)
  {
    if DigitRun(digits, base) == 0 then Failure(InvalidArgument)
    else
      var v := SignedRun(digits, negative, base);
      if InInt32(v) then Success(v) else Failure(OutOfRange)
  }

  /** A whole run of digits, followed by anything that is not a digit, reads as its value. */
  lemma ReadDigitsOfRun(s: string, rest: string, negative: bool, base: Base)
    requires s != [] && AllDigitsIn(s, base)
    requires rest == [] || !IsDigitIn(rest[0], base)
    requires Int32Min <= (if negative then -(DigitsValue(s, base) as int) else DigitsValue(s, base)) <= Int32Max
    ensures ReadDigits(s + rest, negative, base)
         == Success(if negative then -(DigitsValue(s, base) as int) else DigitsValue(s, base))
  {
    DigitRunAppend(s, rest, base);
    assert (s + rest)[..|s|] == s;
  }

  /** `std::stoi` reads back the numeral of every value that fits in an `int`. */
  lemma StoiNumeral(v: nat, base: Base)
    requires v <= Int32Max
    ensures Stoi(Numeral(v, base), base) == Success(v)
  {
    var s := Numeral(v, base);
    NumeralValue(v, base);
    NumeralLeadingDigit(v, base);
    StoiOfDigits(s, base);
  }

  /** A digit string that starts with '0' only when it is "0" reads as its value. */
  lemma StoiOfDigits(s: string, base: Base)
    requires s != [] && AllDigitsIn(s, base)
    requires s[0] == '0' ==> s == "0"
    requires DigitsValue(s, base) <= Int32Max
    ensures Stoi(s, base) == Success(DigitsValue(s, base))
  {
    PlainDigits(s, base);
    assert s + [] == s;
    ReadDigitsOfRun(s, [], false, base);
  }

  /** A digit string has no white space, sign or "0x" prefix in front for `Stoi` to strip. */
  lemma PlainDigits(s: string, base: Base)
    requires s != [] && AllDigitsIn(s, base)
    requires s[0] == '0' ==> s == "0"
    ensures Stoi(s, base) == ReadDigits(s, false, base)
  {
    var c := s[0];
    assert IsDigitIn(c, base);
    StoiUnsigned(s, base);
  }

  /** Text that starts with neither white space, a sign nor a "0x" prefix is read from its first character. */
  lemma StoiUnsigned(s: string, base: Base)
    requires s != [] && !IsSpace(s[0]) && s[0] != '-' && s[0] != '+'
    requires base == 16 ==> !HasHexPrefix(s)
    ensures Stoi(s, base) == ReadDigits(s, false, base)
  {
    assert SkipSpace(s) == s;
  }

  /** The decimal numeral of a value beyond the range of `int` makes `std::stoi` throw `std::out_of_range`. */
  lemma StoiTooLarge(v: nat)
    requires v > Int32Max
    ensures Stoi(Numeral(v, 10), 10) == Failure(OutOfRange)
  {
    var s := Numeral(v, 10);
    NumeralValue(v, 10);
    assert IsDigitIn(s[0], 10);
    StoiUnsigned(s, 10);
    assert s + [] == s;
    DigitRunAppend(s, [], 10);
    assert s[..DigitRun(s, 10)] == s;
  }

  /** `std::stoi` in base 10 reads back the decimal text of every `int`. */
  lemma StoiDecimal(x: Int32)
    ensures Stoi(DecimalString(x), 10) == Success(x)
  {
    if x < 0 {
      var s := Numeral(-(x as int), 10);
      NumeralValue(-(x as int), 10);
      assert IsDigitIn(s[0], 10);
      assert SkipSpace("-" + s) == "-" + s;
      assert ("-" + s)[1..] == s + [];
      ReadDigitsOfRun(s, [], true, 10);
    } else {
      StoiNumeral(x, 10);
    }
  }

  /** Text after the digits does not change what `std::stoi` reads. */
  lemma StoiIgnoresSuffix(v: nat, rest: string)
    requires v <= Int32Max
    requires rest == [] || !IsDigitIn(rest[0], 10)
    ensures Stoi(Numeral(v, 10) + rest, 10) == Success(v)
  {
    var s := Numeral(v, 10);
    NumeralValue(v, 10);
    assert IsDigitIn((s + rest)[0], 10);
    StoiUnsigned(s + rest, 10);
    ReadDigitsOfRun(s, rest, false, 10);
  }

  lemma {:induction false} DigitRunAppend(s: string, rest: string, base: Base)
    requires AllDigitsIn(s, base)
    requires rest == [] || !IsDigitIn(rest[0], base)
    ensures DigitRun(s + rest, base) == |s|
    decreases |s|
  {
    if s == [] {
      assert s + rest == rest;
    } else {
      assert (s + rest)[1..] == s[1..] + rest;
      DigitRunAppend(s[1..], rest, base);
    }
  }
}
