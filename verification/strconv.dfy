/**
 `strconv.ParseInt(s, 0, 64)` as the placeholder index parser uses it:
 optional sign, base taken from the prefix, 64-bit signed range.
 */
module Strconv {
  import opened Wrappers

  const MaxInt64: int := 0x7fff_ffff_ffff_ffff
  const MinInt64: int := -0x8000_0000_0000_0000

  /** Digit value of a character, letters counting from 10 in either case. */
  function DigitValue(c: char): Option<nat> {
    if '0' <= c <= '9' then Some(c as int - '0' as int)
    else if 'a' <= c <= 'z' then Some(c as int - 'a' as int + 10)
    else if 'A' <= c <= 'Z' then Some(c as int - 'A' as int + 10)
    else None
  }

  predicate IsDigitOf(c: char, base: nat) {
    DigitValue(c).Some? && DigitValue(c).value < base
  }

  /** Every character of `s` is a digit of `base`. */
  predicate AllDigitsOf(s: string, base: nat) {
    forall k :: 0 <= k < |s| ==> IsDigitOf(s[k], base)
  }

  function Pow(b: nat, e: nat): nat
    decreases e
  {
    if e == 0 then 1 else b * Pow(b, e - 1)
  }

  /** The number the digits denote: the sum of each digit times `base` to the
      power of the number of digits after it. */
  function Positional(s: string, base: nat): nat
    requires AllDigitsOf(s, base)
    decreases |s|
  {
    if s == [] then 0
    else DigitValue(s[0]).value * Pow(base, |s| - 1) + Positional(s[1..], base)
  }

  /** The arithmetic of `PositionalSnoc`: a leading digit worth `d * p`
      before the next digit is read is worth `d * (base * p)` after it. */
  lemma ShiftDigit(d: nat, p: nat, q: nat, base: nat, last: nat)
    ensures d * (base * p) + (q * base + last) == (d * p + q) * base + last
  {
    calc {
      (d * p + q) * base;
      d * p * base + q * base;
      d * (base * p) + q * base;
    }
  }

  /** Value of the digits `s`, most significant first; absent as soon as one
      character is not a digit of `base`. */
  function DigitsValue(s: string, base: nat): (r: Option<nat>)
    ensures r.Some? <==> AllDigitsOf(s, base)
    ensures r.Some? ==> r.value == Positional(s, base)
    decreases |s|
  {
    if s == [] then Some(0)
    else
      var init := s[..|s| - 1];
      assert forall k :: 0 <= k < |init| ==> init[k] == s[k];
      match DigitsValue(init, base)
      case None => None
      case Some(v) =>
        if IsDigitOf(s[|s| - 1], base) then
          PositionalSnoc(s, base);
          Some(v * base + DigitValue(s[|s| - 1]).value)
        else None
  }

  /** Reading one more digit multiplies the value so far by the base. */
  lemma {:induction false} PositionalSnoc(s: string, base: nat)
    requires s != [] && AllDigitsOf(s, base)
    ensures AllDigitsOf(s[..|s| - 1], base)
    ensures Positional(s, base) ==
      Positional(s[..|s| - 1], base) * base + DigitValue(s[|s| - 1]).value
    decreases |s|
  {
    var init := s[..|s| - 1];
    assert forall k :: 0 <= k < |init| ==> init[k] == s[k];
    if |s| > 1 {
      var u := s[1..];
      assert AllDigitsOf(u, base) by {
        assert forall k :: 0 <= k < |u| ==> u[k] == s[k + 1];
      }
      PositionalSnoc(u, base);
      assert u[..|u| - 1] == init[1..];
      assert u[|u| - 1] == s[|s| - 1];
      var d := DigitValue(s[0]).value;
      var p := Pow(base, |s| - 2);
      assert Pow(base, |s| - 1) == base * p;
      ShiftDigit(d, p, Positional(init[1..], base), base, DigitValue(s[|s| - 1]).value);
    }
  }

  /** `strconv.ParseUint(s, 0, 64)` without its `_` separators: `0b`, `0o`,
      `0x` select bases 2, 8, 16 when a digit follows, any other leading `0`
      selects base 8, and base 10 otherwise. */
  function ParseUintBase0(s: string): Option<nat> {
    if s == [] then None
    else if s[0] == '0' then
      if |s| >= 3 && (s[1] == 'b' || s[1] == 'B') then DigitsValue(s[2..], 2)
      else if |s| >= 3 && (s[1] == 'o' || s[1] == 'O') then DigitsValue(s[2..], 8)
      else if |s| >= 3 && (s[1] == 'x' || s[1] == 'X') then DigitsValue(s[2..], 16)
      else DigitsValue(s[1..], 8)
    else DigitsValue(s, 10)
  }

  /** `strconv.ParseInt(s, 0, 64)`: absent on a syntax error and on a value
      outside the signed 64-bit range. */
  function ParseInt(s: string): (r: Option<int>)
    ensures r.Some? ==> MinInt64 <= r.value <= MaxInt64
    ensures r.Some? ==> s != [] && (r.value < 0 ==> s[0] == '-')
  {
    if s == [] then None
    else
      var neg := s[0] == '-';
      var digits := if s[0] == '+' || s[0] == '-' then s[1..] else s;
      match ParseUintBase0(digits)
      case None => None
      case Some(u) =>
        if !neg && u > MaxInt64 then None
        else if neg && u > -MinInt64 then None
        else
          var v: int := if neg then -(u as int) else u;
          Some(v)
  }

  /** A single character that is neither a sign nor a decimal digit is not a
      number. */
  lemma ParseIntNonDigit(c: char)
    requires !('0' <= c <= '9') && c != '+' && c != '-'
    ensures ParseInt([c]) == None
  {
    assert !IsDigitOf([c][0], 10);
  }

  /** A single decimal digit reads as its value (`0` through the octal rule). */
  lemma ParseIntDigit(d: char)
    requires '0' <= d <= '9'
    ensures ParseInt([d]) == Some(d as int - '0' as int)
  {
    var s := [d];
    assert s[1..] == [];
    assert s[..0] == [];
    if d != '0' {
      assert DigitsValue(s, 10) == Some(d as int - '0' as int);
    }
  }

  /** Decimal digits of `n` with no leading zero, as `strconv.Itoa` writes them. */
  function Decimal(n: nat): (r: string)
    ensures r != []
    ensures n > 0 ==> r[0] != '0'
    ensures forall k :: 0 <= k < |r| ==> '0' <= r[k] <= '9'
    decreases n
  {
    var d := ['0' + (n % 10) as char];
    if n < 10 then d else Decimal(n / 10) + d
  }

  /** `strconv.FormatInt(n, 10)`. */
  function FormatInt(n: int): string {
    if n < 0 then "-" + Decimal(-n) else Decimal(n)
  }

  lemma {:induction false} DecimalValue(n: nat)
    ensures DigitsValue(Decimal(n), 10) == Some(n)
    decreases n
  {
    var r := Decimal(n);
    var d := ['0' + (n % 10) as char];
    if n >= 10 {
      DecimalValue(n / 10);
      assert r[..|r| - 1] == Decimal(n / 10);
    } else {
      assert r[..|r| - 1] == [];
    }
  }

  /** A decimal numeral reads as its value. */
  lemma ParseDecimal(n: nat)
    requires n <= MaxInt64
    ensures ParseInt(Decimal(n)) == Some(n)
  {
    ParseFormatInt(n);
  }

  /** Parsing the decimal rendering of any 64-bit integer gives it back. */
  lemma ParseFormatInt(n: int)
    requires MinInt64 <= n <= MaxInt64
    ensures ParseInt(FormatInt(n)) == Some(n)
  {
    var m := if n < 0 then -n else n;
    DecimalValue(m);
    var digits := Decimal(m);
    if n < 0 {
      assert FormatInt(n)[1..] == digits;
    }
    if m == 0 {
      assert digits == "0";
      assert digits[1..] == [];
    }
  }
}
