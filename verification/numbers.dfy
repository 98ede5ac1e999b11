/**
 * JavaScript numbers as far as the widget uses them: `Number` applied to a
 * string (the StringToNumber operation of section 7.1.4.1.1 of ECMA-262),
 * multiplication by a positive constant, `+`, `<` and `<=`. Finite values
 * are exact reals.
 */
module Numbers {

  import opened Wrappers
  import opened Text

  /** A JavaScript number: `NaN`, an infinity, or a finite value (the sign of zero is not kept). */
  datatype Num = NaN | Infinite(negative: bool) | Finite(value: real)

  /** Unary `-`. */
  function Negate(x: Num): Num {
    match x
    case NaN => NaN
    case Infinite(n) => Infinite(!n)
    case Finite(v) => Finite(-v)
  }

  /** `x * 60`: a finite value is scaled, `NaN` and the infinities stay as they are. */
  function TimesSixty(x: Num): Num {
    match x
    case Finite(v) => Finite(v * 60.0)
    case _ => x
  }

  /** `x + y`: `NaN` absorbs everything and opposite infinities give `NaN`. */
  function Add(x: Num, y: Num): Num {
    match (x, y)
    case (Finite(a), Finite(b)) => Finite(a + b)
    case (Infinite(p), Infinite(q)) => if p == q then x else NaN
    case (Infinite(_), Finite(_)) => x
    case (Finite(_), Infinite(_)) => y
    case _ => NaN
  }

  /** `x < y`: the order of the extended reals, and false whenever either side is `NaN`. */
  predicate LessThan(x: Num, y: Num) {
    && !x.NaN? && !y.NaN?
    && if x.Finite? && y.Finite? then x.value < y.value
       else (x == Infinite(true) && y != Infinite(true)) || (x != Infinite(false) && y == Infinite(false))
  }

  /** `x <= y`: neither side is `NaN` and `y < x` does not hold. */
  predicate AtMost(x: Num, y: Num) {
    !x.NaN? && !y.NaN? && !LessThan(y, x)
  }

  /** The base-10 value of a run of decimal digits, leading zeros allowed; 0 for the empty run. */
  function DigitsValue(s: string): (n: nat)
    requires IsDigits(s)
  {
    if s == [] then 0 else DigitsValue(s[..|s| - 1]) * 10 + DigitValue(s[|s| - 1])
  }

  /** The shortest decimal spelling of `n`; the reference inverse of `DigitsValue`. */
  function DecimalText(n: nat): (s: string)
    ensures |s| > 0 && IsDigits(s)
  {
    if n < 10 then [DigitChar(n)]
    else DecimalText(n / 10) + [DigitChar(n % 10)]
  }

  /** Reading the decimal spelling of a number gives the number back. */
  lemma {:induction false} DigitsValueOfDecimalText(n: nat)
    ensures DigitsValue(DecimalText(n)) == n
  {
    var s := DecimalText(n);
    if n < 10 {
      assert s[..|s| - 1] == [];
    } else {
      assert s[..|s| - 1] == DecimalText(n / 10);
      DigitsValueOfDecimalText(n / 10);
    }
  }

  /** `m` times 10 to the power `e`, for a possibly negative exponent. */
  function Shift10(m: real, e: int): real
    decreases if e >= 0 then e else -e
  {
    if e == 0 then m
    else if e > 0 then Shift10(m, e - 1) * 10.0
    else Shift10(m, e + 1) / 10.0
  }

  /** The number of decimal digits `s` starts with. */
  function DigitRun(s: string): (n: nat)
    ensures n <= |s|
    ensures n == |s| || !IsDigit(s[n])
  {
    if s != [] && IsDigit(s[0]) then DigitRun(s[1..]) + 1 else 0
  }

  /** All of the first `DigitRun(s)` characters are digits. */
  lemma {:induction false} DigitRunDigits(s: string)
    ensures IsDigits(s[..DigitRun(s)])
  {
    if s != [] && IsDigit(s[0]) {
      var m := DigitRun(s[1..]);
      DigitRunDigits(s[1..]);
      assert s[..m + 1] == [s[0]] + s[1..][..m];
    }
  }

  /** The value of digits `whole`, a decimal point, and digits `frac`. */
  function Mantissa(whole: string, frac: string): real
    requires IsDigits(whole) && IsDigits(frac)
  {
    DigitsValue(whole) as real + Shift10(DigitsValue(frac) as real, -|frac|)
  }

  /** An optional sign followed by at least one digit, and nothing else. */
  function SignedIntegerValue(b: string): (r: Option<int>)
  {
    if b != [] && (b[0] == '+' || b[0] == '-') then
      var d := b[1..];
      if d != [] && IsDigits(d) then
        var v: int := DigitsValue(d);
        Some(if b[0] == '-' then -v else v)
      else None
    else if b != [] && IsDigits(b) then Some(DigitsValue(b))
    else None
  }

  /** The optional exponent part at the end of a decimal literal: 0 when absent, nothing when malformed. */
  function ExponentValue(a: string): (r: Option<int>)
    ensures a == [] ==> r == Some(0)
  {
    if a == [] then Some(0)
    else if a[0] != 'e' && a[0] != 'E' then None
    else SignedIntegerValue(a[1..])
  }

  /**
   * StrUnsignedDecimalLiteral: `Infinity`, or digits with an optional
   * fraction (at least one digit on either side of the point) and an
   * optional exponent; `NaN` for anything else.
   */
  function UnsignedDecimalValue(u: string): (r: Num)
    ensures r.Finite? || r.NaN? || r == Infinite(false)
  {
    if u == "Infinity" then Infinite(false)
    else
      var i := DigitRun(u);
      DigitRunDigits(u);
      var whole, rest := u[..i], u[i..];
      var point := rest != [] && rest[0] == '.';
      var j := if point then DigitRun(rest[1..]) else 0;
      assert point ==> IsDigits(rest[1..][..j]) by {
        if point {
          DigitRunDigits(rest[1..]);
        }
      }
      var frac := if point then rest[1..][..j] else [];
      var tail := if point then rest[1..][j..] else rest;
      if |whole| + |frac| == 0 then NaN
      else
        match ExponentValue(tail)
        case None => NaN
        case Some(e) => Finite(Shift10(Mantissa(whole, frac), e))
  }

  /** Hexadecimal digits, of which the binary and octal ones are a prefix. */
  predicate IsHexDigit(c: char) {
    IsDigit(c) || 'a' <= c <= 'f' || 'A' <= c <= 'F'
  }

  function HexValue(c: char): (d: nat)
    requires IsHexDigit(c)
    ensures d < 16
  {
    if IsDigit(c) then DigitValue(c)
    else if 'a' <= c <= 'f' then c as int - 'a' as int + 10
    else c as int - 'A' as int + 10
  }

  predicate IsRadixDigits(s: string, base: nat) {
    forall i :: 0 <= i < |s| ==> IsHexDigit(s[i]) && HexValue(s[i]) < base
  }

  /** The value of digits in base 2, 8 or 16. */
  function RadixValue(s: string, base: nat): nat
    requires base == 2 || base == 8 || base == 16
    requires IsRadixDigits(s, base)
  {
    if s == [] then 0
    else
      var high := RadixValue(s[..|s| - 1], base);
      (if base == 16 then high * 16 else if base == 8 then high * 8 else high * 2) + HexValue(s[|s| - 1])
  }

  /** The base a NonDecimalIntegerLiteral's prefix letter names (`0x`, `0o`, `0b`), or 0 for no prefix letter. */
  function RadixOf(c: char): nat {
    if c == 'x' || c == 'X' then 16
    else if c == 'o' || c == 'O' then 8
    else if c == 'b' || c == 'B' then 2
    else 0
  }

  /**
   * StringNumericLiteral without its surrounding white space: empty is 0;
   * a `0x`/`0o`/`0b` literal takes no sign; a decimal literal may carry one.
   */
  function LiteralValue(t: string): (r: Num)
    ensures t == [] ==> r == Finite(0.0)
  {
    if t == [] then Finite(0.0)
    else if |t| >= 2 && t[0] == '0' && RadixOf(t[1]) != 0 then
      var base := RadixOf(t[1]);
      if |t| > 2 && IsRadixDigits(t[2..], base) then Finite(RadixValue(t[2..], base) as real) else NaN
    else if t[0] == '+' then UnsignedDecimalValue(t[1..])
    else if t[0] == '-' then Negate(UnsignedDecimalValue(t[1..]))
    else UnsignedDecimalValue(t)
  }

  /**
   * `Number(s)`: white space and line terminators around the literal are
   * ignored, a blank string is 0, `Infinity` may be signed, and whatever is
   * no numeric literal is `NaN`.
   */
  function Number(s: string): (r: Num)
    ensures Trim(s) == [] ==> r == Finite(0.0)
  {
    LiteralValue(Trim(s))
  }

  /** `Number` gives an infinity exactly for `Infinity` with an optional sign, and its sign is the one written. */
  lemma NumberInfinite(s: string)
    ensures Number(s).Infinite? <==> Trim(s) in {"Infinity", "+Infinity", "-Infinity"}
    ensures Number(s).Infinite? ==> (Number(s).negative <==> Trim(s)[0] == '-')
  {
    LiteralInfinite(Trim(s));
  }

  lemma LiteralInfinite(t: string)
    ensures LiteralValue(t).Infinite? <==> t in {"Infinity", "+Infinity", "-Infinity"}
    ensures LiteralValue(t).Infinite? ==> (LiteralValue(t).negative <==> t[0] == '-')
  {
    if t != [] && (t[0] == '+' || t[0] == '-') {
      assert t == [t[0]] + t[1..];
      assert t == "+Infinity" <==> t[0] == '+' && t[1..] == "Infinity";
      assert t == "-Infinity" <==> t[0] == '-' && t[1..] == "Infinity";
    }
    if |t| >= 2 && t[0] == '0' {
      assert t != "Infinity" && t != "+Infinity" && t != "-Infinity";
    }
  }

  /** Leading and trailing white space do not change what `Number` reads. */
  lemma NumberOfTrimmed(s: string)
    ensures Number(Trim(s)) == Number(s)
  {
    TrimIdempotent(s);
  }

  /** White space in front of a literal does not change what `Number` reads. */
  lemma NumberPadded(w: string, s: string)
    requires forall i :: 0 <= i < |w| ==> IsTrimmable(w[i])
    ensures Number(w + s) == Number(s)
  {
    TrimPadded(w, s);
  }

  /** A leading zero does not change the value of a digit run. */
  lemma {:induction false} LeadingZero(s: string)
    requires IsDigits(s)
    ensures IsDigits(['0'] + s) && DigitsValue(['0'] + s) == DigitsValue(s)
  {
    var z := ['0'] + s;
    assert IsDigits(z) by {
      forall i | 0 <= i < |z|
        ensures IsDigit(z[i])
      {
        if i > 0 {
          assert z[i] == s[i - 1];
        }
      }
    }
    if s == [] {
      assert z[..0] == [];
    } else {
      assert z[..|z| - 1] == ['0'] + s[..|s| - 1];
      LeadingZero(s[..|s| - 1]);
    }
  }

  lemma {:induction false} DigitRunOfDigits(s: string)
    requires IsDigits(s)
    ensures DigitRun(s) == |s|
  {
    if s != [] {
      DigitRunOfDigits(s[1..]);
    }
  }

  /** A run of digits read as an unsigned decimal literal: no point, no exponent. */
  lemma UnsignedOfDigits(s: string)
    requires |s| > 0 && IsDigits(s)
    ensures UnsignedDecimalValue(s) == Finite(DigitsValue(s) as real)
  {
    assert s != "Infinity" by {
      assert "Infinity"[0] == 'I';
    }
    DigitRunOfDigits(s);
    assert s[..|s|] == s && s[|s|..] == [];
    assert Mantissa(s, []) == DigitsValue(s) as real;
  }

  /** `Number` of a run of decimal digits is its base-10 value. */
  lemma NumberOfDigits(s: string)
    requires |s| > 0 && IsDigits(s)
    ensures Number(s) == Finite(DigitsValue(s) as real)
  {
    assert IsDigit(s[0]) && IsDigit(s[|s| - 1]);
    TrimOfTrimmed(s);
    LiteralOfDigits(s);
    UnsignedOfDigits(s);
  }

  /** A run of digits has no sign and no radix prefix. */
  lemma LiteralOfDigits(s: string)
    requires |s| > 0 && IsDigits(s)
    ensures LiteralValue(s) == UnsignedDecimalValue(s)
  {
    assert IsDigit(s[0]);
    assert |s| >= 2 ==> IsDigit(s[1]) && RadixOf(s[1]) == 0;
  }

  /** `Number` reads the decimal spelling of `n` as `n`. */
  lemma NumberOfDecimalText(n: nat)
    ensures Number(DecimalText(n)) == Finite(n as real)
  {
    NumberOfDigits(DecimalText(n));
    DigitsValueOfDecimalText(n);
  }
}
