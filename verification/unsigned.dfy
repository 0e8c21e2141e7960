/**
 The unsigned C arithmetic the client relies on: `size_t` subtraction, which
 wraps modulo 2^64, and `std::strtoul` in base 10 on a platform whose
 `unsigned long` is 64 bits wide.
 */
module Unsigned {

  /** 2^64, the modulus of `size_t` and of `unsigned long` arithmetic. */
  const Modulus: nat := 0x1_0000_0000_0000_0000

  /** `ULONG_MAX`, the value `strtoul` saturates at. */
  const ULongMax: nat := Modulus - 1

  /**
   `x` brought into `[0, 2^64)` by adding or removing multiples of 2^64, as
   a conversion to an unsigned 64-bit type does.
   */
  function Wrap(x: int): (r: nat)
    ensures r < Modulus
    decreases if x < 0 then 1 else 0, if x < 0 then -x else x
  {
    if x < 0 then Wrap(x + Modulus)
    else if x >= Modulus then Wrap(x - Modulus)
    else x
  }

  /** Wrapping is reduction modulo 2^64. */
  lemma {:induction false} WrapIsModulo(x: int)
    ensures Wrap(x) == x % Modulus
    decreases if x < 0 then 1 else 0, if x < 0 then -x else x
  {
    if x < 0 {
      WrapIsModulo(x + Modulus);
    } else if x >= Modulus {
      WrapIsModulo(x - Modulus);
    }
  }

  /** `a - b` evaluated on `size_t`. */
  function Sub(a: nat, b: nat): (r: nat)
    ensures r < Modulus
  {
    Wrap(a - b)
  }

  /**
   Subtracting on `size_t` and adding back gives the original value modulo
   2^64, and exactly the original value when nothing wrapped.
   */
  lemma SubAddsBack(a: nat, b: nat)
    requires a < Modulus
    ensures (b + Sub(a, b)) % Modulus == a
    ensures b <= a ==> Sub(a, b) == a - b
    ensures b > a ==> b + Sub(a, b) >= Modulus
  {
    WrapIsModulo(a - b);
  }

  /** The characters `isspace` accepts in the "C" locale. */
  predicate IsSpace(c: char) {
    c == ' ' || c == '\t' || c == '\n' || c == '\r' || c as int == 0x0B || c as int == 0x0C
  }

  predicate IsDigit(c: char) {
    '0' <= c <= '9'
  }

  predicate AllDigits(d: string) {
    forall i :: 0 <= i < |d| ==> IsDigit(d[i])
  }

  /** What remains of `s` once its leading white space is skipped. */
  function SkipSpace(s: string): (r: string)
    ensures |r| <= |s| && r == s[|s| - |r|..]
    ensures r == [] || !IsSpace(r[0])
  {
    if s != [] && IsSpace(s[0]) then SkipSpace(s[1..]) else s
  }

  /** Everything skipped is white space. */
  lemma {:induction false} SkipSpaceSkipsOnlySpace(s: string)
    ensures forall i :: 0 <= i < |s| - |SkipSpace(s)| ==> IsSpace(s[i])
  {
    if s != [] && IsSpace(s[0]) {
      SkipSpaceSkipsOnlySpace(s[1..]);
    }
  }

  /** Text that does not start with white space is left as it is. */
  lemma NoSpaceToSkip(s: string)
    requires s == [] || !IsSpace(s[0])
    ensures SkipSpace(s) == s
  {
  }

  /** The length of the run of decimal digits at the front of `s`. */
  function DigitRun(s: string): (n: nat)
    ensures n <= |s| && AllDigits(s[..n])
    ensures n == |s| || !IsDigit(s[n])
  {
    if s != [] && IsDigit(s[0]) then
      var n := 1 + DigitRun(s[1..]);
      assert s[..n] == [s[0]] + s[1..][..n - 1];
      n
    else 0
  }

  /** The number a run of decimal digits denotes. */
  function DecimalValue(d: string): nat
    requires AllDigits(d)
  {
    if d == [] then 0 else 10 * DecimalValue(d[..|d| - 1]) + (d[|d| - 1] as int - '0' as int)
  }

  /** A magnitude beyond `ULONG_MAX` reads as `ULONG_MAX`. */
  function Saturate(m: nat): (v: nat)
    ensures v <= ULongMax
    ensures m <= ULongMax ==> v == m
  {
    if m > ULongMax then ULongMax else m
  }

  /** `-m` converted to `unsigned long`, for `m <= ULONG_MAX`: the value that adds up with `m` to 0 modulo 2^64. */
  function Negate(m: nat): (v: nat)
    requires m <= ULongMax
    ensures v <= ULongMax
    ensures m + v == 0 || m + v == Modulus
  {
    if m == 0 then 0 else Modulus - m
  }

  /** The conversion of the digit run at the front of `u`, after any sign was read. */
  function Convert(u: string, negative: bool): (v: nat)
    ensures v <= ULongMax
  {
    var n := DigitRun(u);
    if n == 0 then 0
    else
      var m := DecimalValue(u[..n]);
      if negative && m <= ULongMax then Negate(m) else Saturate(m)
  }

  /** `std::strtoul(s, nullptr, 10)` where `s` is the text up to the terminating NUL. */
  function StrToUL(s: string): (v: nat)
    ensures v <= ULongMax
  {
    var t := SkipSpace(s);
    if t != [] && t[0] == '-' then Convert(t[1..], true)
    else if t != [] && t[0] == '+' then Convert(t[1..], false)
    else Convert(t, false)
  }

  /**
   When the text starts with a digit, `strtoul` returns the value of the
   digit run there, saturated at `ULONG_MAX`.
   */
  lemma StrToULReadsDigitRun(s: string)
    requires s != [] && IsDigit(s[0])
    ensures StrToUL(s) == Saturate(DecimalValue(s[..DigitRun(s)]))
  {
    assert !IsSpace(s[0]);
    NoSpaceToSkip(s);
  }

  /**
   When the text is empty or starts with anything that is not white space,
   a sign or a digit, `strtoul` converts nothing and returns 0.
   */
  lemma StrToULWithoutDigits(s: string)
    requires s == [] || !(IsDigit(s[0]) || IsSpace(s[0]) || s[0] == '+' || s[0] == '-')
    ensures StrToUL(s) == 0
  {
    NoSpaceToSkip(s);
  }

  /** The decimal digit character of `d < 10`. */
  function DigitChar(d: nat): (c: char)
    requires d < 10
    ensures IsDigit(c) && c as int - '0' as int == d
  {
    ('0' as int + d) as char
  }

  /** The decimal text of `n` without leading zeros, as a server writes a length field. */
  function Decimal(n: nat): (d: string)
    ensures |d| > 0 && AllDigits(d)
  {
    if n < 10 then [DigitChar(n)] else Decimal(n / 10) + [DigitChar(n % 10)]
  }

  /** Reading back the decimal text of a number gives the number. */
  lemma {:induction false} DecimalRoundTrip(n: nat)
    ensures DecimalValue(Decimal(n)) == n
  {
    if n >= 10 {
      var d := Decimal(n);
      assert d[..|d| - 1] == Decimal(n / 10);
      DecimalRoundTrip(n / 10);
    }
  }

  /** A digit run followed by a non-digit is read up to its end and no further. */
  lemma {:induction false} DigitRunStopsAtNonDigit(d: string, rest: string)
    requires AllDigits(d)
    requires rest == [] || !IsDigit(rest[0])
    ensures DigitRun(d + rest) == |d|
  {
    if d != [] {
      assert (d + rest)[1..] == d[1..] + rest;
      DigitRunStopsAtNonDigit(d[1..], rest);
    }
  }

  /**
   A length written in decimal and followed by anything but another digit
   (the `\r\n` ending the field, say) is read back by `strtoul` exactly,
   as long as it fits in an `unsigned long`.
   */
  lemma StrToULDecimal(n: nat, rest: string)
    requires n <= ULongMax
    requires rest == [] || !IsDigit(rest[0])
    ensures StrToUL(Decimal(n) + rest) == n
  {
    var d := Decimal(n);
    var s := d + rest;
    assert s[0] == d[0];
    StrToULReadsDigitRun(s);
    DigitRunStopsAtNonDigit(d, rest);
    assert s[..|d|] == d;
    DecimalRoundTrip(n);
  }
}
