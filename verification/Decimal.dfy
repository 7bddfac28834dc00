/** Exact quantization of decimal numerals to millionths, with 128-bit arithmetic. */
module Decimal {
  import opened Arithmetic
  import opened Hashing

  const U128_LIMIT := 0x1_0000_0000_0000_0000_0000_0000_0000_0000
  const U64_LIMIT := 0x1_0000_0000_0000_0000
  const I32_MIN := -0x8000_0000
  const I32_MAX := 0x7FFF_FFFF

  datatype Error = BadExponent | Negative | BadDigits | ExponentOutOfRange | Overflow

  datatype Result<+T> = Ok(value: T) | Err(error: Error)

  // --------------------------------------------------------------- numerals

  predicate IsDigit(c: char) {
    '0' <= c <= '9'
  }

  predicate AllDigits(s: string) {
    forall c :: c in s ==> IsDigit(c)
  }

  /** The number that a digit string spells. */
  function Digits(s: string): nat
    requires AllDigits(s)
  {
    if s == [] then 0
    else
      assert s[|s| - 1] in s;
      10 * Digits(s[..|s| - 1]) + (s[|s| - 1] as int - '0' as int)
  }

  /** `str::parse::<u128>`. */
  function ParseU128(s: string): Option<nat> {
    var t := if |s| > 0 && s[0] == '+' then s[1..] else s;
    if t == [] || !AllDigits(t) || Digits(t) >= U128_LIMIT then None else Some(Digits(t))
  }

  /** `str::parse::<i32>`. */
  function ParseI32(s: string): Option<int> {
    var signed := |s| > 0 && (s[0] == '+' || s[0] == '-');
    var t := if signed then s[1..] else s;
    if t == [] || !AllDigits(t) then None
    else
      var n := if signed && s[0] == '-' then 0 - Digits(t) as int else Digits(t) as int;
      if I32_MIN <= n <= I32_MAX then Some(n) else None
  }

  /** Index of the first character that is one of `cs`. */
  function Find(s: string, cs: set<char>): (i: Option<nat>)
    ensures i.Some? ==> i.value < |s| && s[i.value] in cs && forall k :: 0 <= k < i.value ==> s[k] !in cs
    ensures i.None? ==> forall k :: 0 <= k < |s| ==> s[k] !in cs
  {
    if s == [] then None
    else if s[0] in cs then Some(0)
    else
      var rest := Find(s[1..], cs);
      if rest.None? then None else Some(rest.value + 1)
  }

  function Without(s: string, c: char): string {
    if s == [] then [] else (if s[0] == c then [] else [s[0]]) + Without(s[1..], c)
  }

  // ------------------------------------------------------------ powers of ten

  function Pow10(n: nat): (p: nat)
    ensures p >= 1
  {
    if n == 0 then 1 else 10 * Pow10(n - 1)
  }

  lemma {:induction false} Pow10Add(a: nat, b: nat)
    ensures Pow10(a + b) == Pow10(a) * Pow10(b)
  {
    if a > 0 { Pow10Add(a - 1, b); }
  }

  lemma {:induction false} Pow10Grows(a: nat, b: nat)
    requires a <= b
    ensures Pow10(a) <= Pow10(b)
  {
    if a < b { Pow10Grows(a, b - 1); }
  }

  /** Every 128-bit integer is below `10^39`. */
  lemma {:induction false} U128Below()
    ensures U128_LIMIT < Pow10(39)
    ensures Pow10(38) < U128_LIMIT
  {
    assert Pow10(3) == 1_000;
    Pow10Product(3, 3, 1_000, 1_000);
    Pow10Product(6, 6, 1_000_000, 1_000_000);
    Pow10Product(12, 6, 1_000_000_000_000, 1_000_000);
    Pow10Product(18, 18, 1_000_000_000_000_000_000, 1_000_000_000_000_000_000);
    Pow10Product(36, 3, 1_000_000_000_000_000_000_000_000_000_000_000_000, 1_000);
    assert Pow10(39) == 10 * Pow10(38);
  }

  lemma {:induction false} Pow10Product(a: nat, b: nat, x: nat, y: nat)
    requires Pow10(a) == x && Pow10(b) == y
    ensures Pow10(a + b) == x * y
  {
    Pow10Add(a, b);
  }

  // ------------------------------------------------------- decimal_millionths

  function Times(a: nat, b: nat): nat {
    a * b
  }

  function Over(a: nat, b: nat): nat
    requires b >= 1
  {
    a / b
  }

  /** `floor(n * 10^shift)`. */
  function Scale(n: nat, shift: int): nat {
    if shift >= 0 then Times(n, Pow10(shift)) else Over(n, Pow10(-shift))
  }

  /** The text split as the program splits it: digits, exponent, number of decimals. */
  datatype Parts = Parts(digits: nat, exponent: int, decimals: nat)

  function ReadParts(text: string): Result<Parts> {
    var e := Find(text, {'e', 'E'});
    if e.None? then ReadMantissa(text, Some(0))
    else ReadMantissa(text[..e.value], ParseI32(text[e.value + 1..]))
  }

  function ReadMantissa(mantissa: string, exponent: Option<int>): Result<Parts> {
    if exponent.None? then Err(BadExponent)
    else if |mantissa| > 0 && mantissa[0] == '-' then Err(Negative)
    else
      var dot := Find(mantissa, {'.'});
      var decimals := if dot.Some? then |mantissa| - dot.value - 1 else 0;
      var digits := ParseU128(Without(mantissa, '.'));
      if digits.None? then Err(BadDigits) else Ok(Parts(digits.value, exponent.value, decimals))
  }

  /** Two's-complement 32-bit arithmetic, as an optimized build performs it. */
  function Wrap32(x: int): (w: int)
    ensures I32_MIN <= w <= I32_MAX
    ensures I32_MIN <= x <= I32_MAX ==> w == x
  {
    (x - I32_MIN) % 0x1_0000_0000 + I32_MIN
  }

  /** Where the decimal point goes in millionths, before 32-bit arithmetic. */
  function PlainShift(p: Parts): int {
    p.exponent - p.decimals + 6
  }

  /** `decimal_millionths`. */
  function DecimalMillionths(text: string): Result<nat> {
    var parts := ReadParts(text);
    if parts.Err? then Err(parts.error)
    else
      var shift := Wrap32(PlainShift(parts.value));
      if shift > 38 then Err(ExponentOutOfRange)
      else
        var n := parts.value.digits;
        var scaled :=
          if shift < -38 then Some(0)
          else if shift >= 0 then (if Times(n, Pow10(shift)) < U128_LIMIT then Some(Times(n, Pow10(shift))) else None)
          else Some(Over(n, Pow10(-shift)));
        if scaled.None? || scaled.value >= U64_LIMIT then Err(Overflow) else Ok(scaled.value)
  }

  // ------------------------------------------------------------- exact values

  /** `x * 10^e`, for any integer `e`: the decimal point moved by `e` places. */
  function Shifted(x: real, e: int): real
    decreases if e < 0 then -e else e
  {
    if e == 0 then x else if e > 0 then 10.0 * Shifted(x, e - 1) else Shifted(x, e + 1) / 10.0
  }

  lemma {:induction false} ShiftedStep(x: real, e: int)
    ensures Shifted(x, e + 1) == 10.0 * Shifted(x, e)
  {
  }

  lemma {:induction false} ShiftedBySix(x: real, e: int)
    ensures Shifted(x, e + 6) == 1000000.0 * Shifted(x, e)
  {
    ShiftedStep(x, e);
    ShiftedStep(x, e + 1);
    ShiftedStep(x, e + 2);
    ShiftedStep(x, e + 3);
    ShiftedStep(x, e + 4);
    ShiftedStep(x, e + 5);
  }

  /** `r` is the integer part of `x`. */
  ghost predicate IsFloor(r: int, x: real) {
    r as real <= x < r as real + 1.0
  }

  /** Scaling in integers is scaling in reals, rounded down. */
  lemma {:induction false} ScaleIsFloor(n: nat, shift: int)
    ensures IsFloor(Scale(n, shift), Shifted(n as real, shift))
    ensures shift >= 0 ==> Scale(n, shift) as real == Shifted(n as real, shift)
    decreases if shift < 0 then -shift else shift
  {
    if shift > 0 {
      ScaleIsFloor(n, shift - 1);
      TimesTen(n, Pow10(shift - 1));
    } else if shift < 0 {
      ScaleIsFloor(n, shift + 1);
      OverTen(n, Pow10(-shift - 1));
    }
  }

  lemma {:induction false} TimesTen(a: nat, p: nat)
    ensures Times(a, 10 * p) == 10 * Times(a, p)
  {
  }

  lemma {:induction false} OverTen(n: nat, p: nat)
    requires p >= 1
    ensures Over(n, 10 * p) == Over(n, p) / 10
  {
    var q, m := DivMod(n, p);
    var q', r := DivMod(q, 10);
    DigitTimes(q', r, p);
    QuotientIs(n, 10 * p, q', r * p + m);
  }

  lemma {:induction false} DigitTimes(q: int, r: int, p: nat)
    requires 0 <= r <= 9
    ensures (q * 10 + r) * p == q * (10 * p) + r * p && 0 <= r * p <= 9 * p
  {
    MulSub(9, r, p);
    MulSub(q * 10, -r, p);
    assert (9 - r) * p >= 0;
  }

  /** Exactly when `decimal_millionths` succeeds, and with what: the cut-off below shift -38
      loses nothing, because no 128-bit integer reaches `10^39`. */
  lemma {:induction false} MillionthsExact(text: string)
    requires ReadParts(text).Ok?
    ensures
      var p := ReadParts(text).value;
      var shift := Wrap32(PlainShift(p));
      DecimalMillionths(text) ==
        if shift > 38 then Err(ExponentOutOfRange)
        else if Scale(p.digits, shift) >= U64_LIMIT then Err(Overflow)
        else Ok(Scale(p.digits, shift))
  {
    var p := ReadParts(text).value;
    PartsBelow(text);
    if Wrap32(PlainShift(p)) < -38 {
      VanishingScale(p.digits, Wrap32(PlainShift(p)));
    }
  }

  lemma {:induction false} VanishingScale(n: nat, shift: int)
    requires n < U128_LIMIT && shift < -38
    ensures Scale(n, shift) == 0
  {
    U128Below();
    Pow10Grows(39, -shift);
    SmallQuotient(n, Pow10(-shift));
  }

  lemma {:induction false} PartsBelow(text: string)
    requires ReadParts(text).Ok?
    ensures ReadParts(text).value.digits < U128_LIMIT && I32_MIN <= ReadParts(text).value.exponent <= I32_MAX
  {
  }

  lemma {:induction false} ZeroScale(shift: int)
    ensures Scale(0, shift) == 0
  {
    if shift < 0 { SmallQuotient(0, Pow10(-shift)); }
  }

  /** All digits of `n` fall off. */
  predicate FallsOff(n: nat, shift: int) {
    shift < 0 && n < Pow10(-shift)
  }

  /** Scaling a positive number gives zero exactly if all its digits fall off. */
  lemma {:induction false} ZeroExactly(n: nat, shift: int)
    requires n > 0
    ensures Scale(n, shift) == 0 <==> FallsOff(n, shift)
  {
    if shift >= 0 {
      LargeScale(n, shift);
    } else if n < Pow10(-shift) {
      SmallQuotient(n, Pow10(-shift));
    } else {
      AtLeastOnce(n, Pow10(-shift));
    }
  }

  lemma {:induction false} AtLeastOnce(n: nat, d: nat)
    requires n >= d > 0
    ensures Over(n, d) >= 1
  {
    var q, r := DivMod(n, d);
  }

  lemma {:induction false} LargeScale(n: nat, shift: nat)
    requires n > 0
    ensures Scale(n, shift) >= if shift > 0 then 10 else 1
  {
    if shift > 0 {
      LargeScale(n, shift - 1);
      TimesTen(n, Pow10(shift - 1));
    }
  }

  lemma {:induction false} SmallQuotient(n: nat, d: nat)
    requires n < d
    ensures Over(n, d) == 0
  {
  }

  // ------------------------------------------------------------------ numerals

  /** Digits, with or without a sign. */
  predicate SignedDigits(s: string) {
    s != "" && (AllDigits(s) || (s[0] in {'+', '-'} && s[1..] != "" && AllDigits(s[1..])))
  }

  /** What they mean. */
  function SignedValue(s: string): int
    requires SignedDigits(s)
  {
    if AllDigits(s) then Digits(s) else if s[0] == '-' then 0 - Digits(s[1..]) as int else Digits(s[1..])
  }

  lemma {:induction false} ParseExactly(s: string)
    ensures ParseI32(s).Some? <==> SignedDigits(s) && -0x8000_0000 <= SignedValue(s) <= 0x7fff_ffff
    ensures ParseI32(s).Some? ==> ParseI32(s).value == SignedValue(s)
  {
    if s != "" { assert s[0] in s; }
  }

  /** A decimal numeral: digits, optionally a fraction, optionally an exponent. */
  datatype Numeral = Numeral(whole: string, fraction: Option<string>, exponent: Option<(char, string)>)

  /** Exponents are 32-bit integers. */
  predicate ExponentOk(s: string) {
    SignedDigits(s) && I32_MIN <= SignedValue(s) <= I32_MAX
  }

  predicate WellFormed(n: Numeral) {
    && n.whole != "" && AllDigits(n.whole)
    && (n.fraction.Some? ==> AllDigits(n.fraction.value))
    && (n.exponent.Some? ==> n.exponent.value.0 in {'e', 'E'} && ExponentOk(n.exponent.value.1))
  }

  function Fraction(n: Numeral): string {
    if n.fraction.Some? then n.fraction.value else ""
  }

  function Mantissa(n: Numeral): string {
    n.whole + if n.fraction.Some? then "." + n.fraction.value else ""
  }

  function Text(n: Numeral): string {
    Mantissa(n) + if n.exponent.Some? then [n.exponent.value.0] + n.exponent.value.1 else ""
  }

  function Exponent(n: Numeral): int
    requires WellFormed(n)
  {
    if n.exponent.Some? then SignedValue(n.exponent.value.1) else 0
  }

  /** What the numeral means: whole part plus fraction, times the power of ten. */
  function Value(n: Numeral): real
    requires WellFormed(n)
  {
    Shifted(Digits(n.whole) as real + Shifted(Digits(Fraction(n)) as real, -|Fraction(n)|), Exponent(n))
  }

  /** The parts of a numeral. */
  function PartsOf(n: Numeral): Parts
    requires WellFormed(n)
  {
    assert AllDigits(n.whole + Fraction(n));
    Parts(Digits(n.whole + Fraction(n)), Exponent(n), |Fraction(n)|)
  }

  /** The number that the parts stand for. */
  function PartsValue(p: Parts): real {
    Shifted(p.digits as real, p.exponent - p.decimals)
  }

  /** It is the number spelled by all digits, with the point moved by the exponent and back over
      the fraction. */
  lemma {:induction false} ValueJoined(n: Numeral)
    requires WellFormed(n)
    ensures Value(n) == PartsValue(PartsOf(n))
  {
    var w, f, k := Digits(n.whole), Digits(Fraction(n)), |Fraction(n)|;
    DigitsAppend(n.whole, Fraction(n));
    JoinedPoint(w, f, k, Exponent(n));
  }

  lemma {:induction false} JoinedPoint(w: nat, f: nat, k: int, e: int)
    requires k >= 0
    ensures Shifted(w as real + Shifted(f as real, -k), e) == Shifted((Times(w, Pow10(k)) + f) as real, e - k)
  {
    var x := Times(w, Pow10(k)) as real;
    assert x == Shifted(w as real, k) by { ScaleIsFloor(w, k); }
    ShiftedTwice(w as real, k, -k);
    ShiftedSum(x, f as real, -k);
    ShiftedTwice(x + f as real, -k, e);
  }

  lemma {:induction false} ShiftedSum(x: real, y: real, e: int)
    ensures Shifted(x + y, e) == Shifted(x, e) + Shifted(y, e)
    decreases if e < 0 then -e else e
  {
    if e > 0 {
      ShiftedSum(x, y, e - 1);
    } else if e < 0 {
      ShiftedSum(x, y, e + 1);
    }
  }

  lemma {:induction false} ShiftedTwice(x: real, a: int, b: int)
    ensures Shifted(Shifted(x, a), b) == Shifted(x, a + b)
    decreases if b < 0 then -b else b
  {
    if b > 0 {
      ShiftedTwice(x, a, b - 1);
      ShiftedStep(x, a + b - 1);
    } else if b < 0 {
      ShiftedTwice(x, a, b + 1);
      ShiftedStep(x, a + b);
    }
  }

  lemma {:induction false} DigitsAppend(a: string, b: string)
    requires AllDigits(a) && AllDigits(b)
    ensures AllDigits(a + b)
    ensures Digits(a + b) == Times(Digits(a), Pow10(|b|)) + Digits(b)
  {
    if b == "" {
      assert a + b == a;
    } else {
      var init, last := b[..|b| - 1], b[|b| - 1];
      assert last in b && forall c :: c in init ==> c in b;
      DigitsAppend(a, init);
      assert (a + b)[..|a + b| - 1] == a + init;
      TimesTen(Digits(a), Pow10(|init|));
    }
  }

  lemma {:induction false} DigitsStep(s: string, c: char, t: string)
    requires AllDigits(s) && IsDigit(c) && t == s + [c]
    ensures AllDigits(t) && Digits(t) == 10 * Digits(s) + (c as int - '0' as int)
  {
    assert t[..|s|] == s;
  }

  lemma {:induction false} FindSkips(a: string, c: char, b: string, cs: set<char>)
    requires forall x :: x in a ==> x !in cs
    ensures c in cs ==> Find(a + [c] + b, cs) == Some(|a|)
    ensures Find(a, cs).None?
  {
    var s := a + [c] + b;
    if c in cs {
      assert s[|a|] == c;
      assert forall k :: 0 <= k < |a| ==> s[k] == a[k] && s[k] in a;
    }
  }

  lemma {:induction false} WithoutDigits(a: string)
    requires AllDigits(a)
    ensures Without(a, '.') == a
  {
    if a != "" {
      assert a[0] in a && forall c :: c in a[1..] ==> c in a;
      WithoutDigits(a[1..]);
    }
  }

  lemma {:induction false} WithoutAppend(a: string, b: string, c: char)
    ensures Without(a + b, c) == Without(a, c) + Without(b, c)
  {
    if a == "" {
      assert a + b == b;
    } else {
      var head := if a[0] == c then [] else [a[0]];
      assert (a + b)[0] == a[0] && (a + b)[1..] == a[1..] + b;
      calc {
        Without(a + b, c);
        head + Without(a[1..] + b, c);
        { WithoutAppend(a[1..], b, c); }
        head + (Without(a[1..], c) + Without(b, c));
        (head + Without(a[1..], c)) + Without(b, c);
      }
    }
  }

  lemma {:induction false} WithoutDot(whole: string, fraction: string)
    requires AllDigits(whole) && AllDigits(fraction)
    ensures Without(whole + ("." + fraction), '.') == whole + fraction
  {
    WithoutDigits(whole);
    WithoutDigits(fraction);
    WithoutAppend(whole, "." + fraction, '.');
    assert ("." + fraction)[1..] == fraction;
    assert Without("." + fraction, '.') == [] + fraction == fraction;
  }

  lemma {:induction false} MantissaDigits(n: Numeral)
    requires WellFormed(n)
    ensures Without(Mantissa(n), '.') == n.whole + Fraction(n)
  {
    if n.fraction.Some? {
      WithoutDot(n.whole, n.fraction.value);
    } else {
      WithoutDigits(n.whole);
      assert Mantissa(n) == n.whole && n.whole + Fraction(n) == n.whole;
    }
  }

  lemma {:induction false} MantissaDot(n: Numeral)
    requires WellFormed(n)
    ensures Find(Mantissa(n), {'.'}) == if n.fraction.Some? then Some(|n.whole|) else None
    ensures n.fraction.Some? ==> |Mantissa(n)| - |n.whole| - 1 == |Fraction(n)|
  {
    if n.fraction.Some? {
      FindSkips(n.whole, '.', n.fraction.value, {'.'});
      assert Mantissa(n) == n.whole + "." + n.fraction.value;
    } else {
      FindSkips(n.whole, '.', "", {'.'});
      assert Mantissa(n) == n.whole;
    }
  }

  lemma {:induction false} MantissaPlain(n: Numeral)
    requires WellFormed(n)
    ensures forall x :: x in Mantissa(n) ==> x !in {'e', 'E'}
    ensures Mantissa(n) != "" && IsDigit(Mantissa(n)[0])
    ensures AllDigits(n.whole + Fraction(n)) && IsDigit((n.whole + Fraction(n))[0])
  {
    assert n.whole[0] in n.whole;
  }

  lemma {:induction false} SplitAt(a: string, c: char, b: string)
    ensures (a + ([c] + b))[..|a|] == a && (a + ([c] + b))[|a| + 1..] == b && a + ([c] + b) == a + [c] + b
  {
  }

  /** The text splits at its exponent mark. */
  lemma {:induction false} TextSplits(n: Numeral)
    requires WellFormed(n)
    ensures ReadParts(Text(n)) == ReadMantissa(Mantissa(n), Some(Exponent(n)))
  {
    var m := Mantissa(n);
    MantissaPlain(n);
    if n.exponent.Some? {
      var (c, x) := n.exponent.value;
      FindSkips(m, c, x, {'e', 'E'});
      SplitAt(m, c, x);
      ParseExactly(x);
    } else {
      FindSkips(m, 'e', "", {'e', 'E'});
      assert Text(n) == m;
    }
  }

  /** The program's splitting of the text finds the numeral's parts. */
  lemma {:induction false} TextParts(n: Numeral)
    requires WellFormed(n)
    ensures AllDigits(n.whole + Fraction(n))
    ensures ReadParts(Text(n)) ==
            if Digits(n.whole + Fraction(n)) >= U128_LIMIT then Err(BadDigits)
            else Ok(Parts(Digits(n.whole + Fraction(n)), Exponent(n), |Fraction(n)|))
  {
    var m, digits := Mantissa(n), n.whole + Fraction(n);
    var dot := if n.fraction.Some? then Some(|n.whole|) else None;
    assert ReadParts(Text(n)) == ReadMantissa(m, Some(Exponent(n))) by { TextSplits(n); }
    assert m != "" && IsDigit(m[0]) && AllDigits(digits) && IsDigit(digits[0]) by { MantissaPlain(n); }
    assert Without(m, '.') == digits by { MantissaDigits(n); }
    assert Find(m, {'.'}) == dot && (dot.Some? ==> |m| - |n.whole| - 1 == |Fraction(n)|) by { MantissaDot(n); }
    MantissaReads(m, Exponent(n), dot, digits);
  }

  lemma {:induction false} MantissaReads(m: string, e: int, dot: Option<nat>, digits: string)
    requires m != "" && IsDigit(m[0]) && Find(m, {'.'}) == dot && Without(m, '.') == digits
    requires digits != "" && IsDigit(digits[0]) && AllDigits(digits)
    ensures ReadMantissa(m, Some(e)) ==
            if Digits(digits) >= U128_LIMIT then Err(BadDigits)
            else Ok(Parts(Digits(digits), e, if dot.Some? then |m| - dot.value - 1 else 0))
  {
  }

  /** A shift that 32 bits cannot hold, and digits that it matters for. */
  predicate Wrapped(p: Parts) {
    PlainShift(p) != Wrap32(PlainShift(p)) && p.digits != 0
  }

  /** All digits fall off, as they should and also after the shift wrapped around. */
  predicate Vanishes(p: Parts) {
    PlainShift(p) < 0 && FallsOff(p.digits, Wrap32(PlainShift(p)))
  }

  /** Whenever the program quantizes, the result is the integer part of a million times the value,
      exactly unless the shift wrapped around on digits that do not all fall off anyway. */
  lemma {:induction false} FloorOfParts(text: string, p: Parts)
    requires ReadParts(text) == Ok(p) && DecimalMillionths(text).Ok?
    ensures IsFloor(DecimalMillionths(text).value, PartsValue(p) * 1000000.0) <==> !Wrapped(p) || Vanishes(p)
  {
    var e := PlainShift(p);
    assert DecimalMillionths(text).value == Scale(p.digits, Wrap32(e)) by { MillionthsExact(text); }
    assert p.digits < U128_LIMIT && e <= I32_MAX + 6 by { PartsBelow(text); }
    ShiftedBySix(p.digits as real, p.exponent - p.decimals);
    assert IsFloor(Scale(p.digits, Wrap32(e)), Shifted(p.digits as real, e)) <==> !Wrapped(p) || Vanishes(p) by {
      WrapFloor(p.digits, e);
      if p.digits > 0 { ZeroExactly(p.digits, Wrap32(e)); }
    }
  }

  lemma {:induction false} WrapFloor(n: nat, e: int)
    requires n < U128_LIMIT && e <= I32_MAX + 6
    ensures
      var r := Scale(n, Wrap32(e));
      IsFloor(r, Shifted(n as real, e)) <==> !(e != Wrap32(e) && n != 0) || (e < 0 && r == 0)
  {
    ScaleIsFloor(n, e);
    if n == 0 {
      ZeroScale(e);
      ZeroScale(Wrap32(e));
    } else if e < I32_MIN {
      VanishingScale(n, e);
    } else if e > I32_MAX {
      assert Wrap32(e) == e - 0x1_0000_0000;
      VanishingScale(n, Wrap32(e));
      LargeScale(n, e);
    }
  }

  /** What a 64-bit integer or double is printed as: short, and with a small exponent. */
  predicate Printable(n: Numeral)
    requires WellFormed(n)
  {
    |Fraction(n)| <= 400 && -400 <= Exponent(n) <= 400
  }

  /** Quantization of a number as it is printed: it succeeds exactly if the digits fit 128 bits, the
      shift is at most 38 and the millionths fit 64 bits, and gives their integer part. */
  lemma {:induction false} PrintedExactly(n: Numeral)
    requires WellFormed(n) && Printable(n)
    ensures DecimalMillionths(Text(n)).Ok? <==>
              && PartsOf(n).digits <= 0xffff_ffff_ffff_ffff_ffff_ffff_ffff_ffff && PlainShift(PartsOf(n)) <= 38
              && Value(n) * 1000000.0 < 18446744073709551616.0
    ensures DecimalMillionths(Text(n)).Ok? ==> IsFloor(DecimalMillionths(Text(n)).value, Value(n) * 1000000.0)
  {
    var p := PartsOf(n);
    var e := PlainShift(p);
    assert Wrap32(e) == e;
    TextParts(n);
    if p.digits < U128_LIMIT {
      MillionthsExact(Text(n));
      assert Value(n) == PartsValue(p) by { ValueJoined(n); }
      ShiftedBySix(p.digits as real, p.exponent - p.decimals);
      ScaleIsFloor(p.digits, e);
    }
  }

  /** Of any text, printed or not: the integer part, exactly unless the 32-bit shift wrapped. */
  lemma {:induction false} QuantizedExactly(n: Numeral)
    requires WellFormed(n) && DecimalMillionths(Text(n)).Ok?
    ensures IsFloor(DecimalMillionths(Text(n)).value, Value(n) * 1000000.0)
            <==> !Wrapped(PartsOf(n)) || Vanishes(PartsOf(n))
  {
    var p := PartsOf(n);
    assert ReadParts(Text(n)) == Ok(p) by { TextParts(n); }
    assert Value(n) == PartsValue(p) by { ValueJoined(n); }
    FloorOfParts(Text(n), p);
  }

  /** The largest exponent there is. */
  lemma {:induction false} LargestExponent()
    ensures AllDigits("2147483647") && Digits("2147483647") == I32_MAX
  {
    DigitsStep("", '2', "2");
    DigitsStep("2", '1', "21");
    DigitsStep("21", '4', "214");
    DigitsStep("214", '7', "2147");
    DigitsStep("2147", '4', "21474");
    DigitsStep("21474", '8', "214748");
    DigitsStep("214748", '3', "2147483");
    DigitsStep("2147483", '6', "21474836");
    DigitsStep("21474836", '4', "214748364");
    DigitsStep("214748364", '7', "2147483647");
  }

  /** `2.5e-3` is 2500 millionths. */
  lemma {:induction false} SmallExponent(n: Numeral)
    requires n == Numeral("2", Some("5"), Some(('e', "-3")))
    ensures WellFormed(n) && Value(n) == 0.0025 && DecimalMillionths("2.5e-3") == Ok(2500)
  {
    SmallExponentParts(n);
    assert Value(n) == 0.0025 by {
      ValueJoined(n);
      assert Shifted(25.0, -4) == 0.0025;
    }
    var text := Text(n);
    assert text == "2.5e-3";
    assert ReadParts(text) == Ok(Parts(25, -3, 1)) by { TextParts(n); }
    PartsMillionths(text);
  }

  lemma {:induction false} PartsMillionths(text: string)
    requires ReadParts(text) == Ok(Parts(25, -3, 1))
    ensures DecimalMillionths(text) == Ok(2500)
  {
    assert Pow10(2) == 100;
  }

  lemma {:induction false} SmallExponentParts(n: Numeral)
    requires n == Numeral("2", Some("5"), Some(('e', "-3")))
    ensures WellFormed(n) && PartsOf(n) == Parts(25, -3, 1)
  {
    assert SignedDigits("-3") && SignedValue("-3") == -3 by {
      DigitsStep("", '3', "3");
      assert "-3"[1..] == "3" && "-3"[0] in "-3";
    }
    DigitsStep("", '2', "2");
    DigitsStep("2", '5', "25");
    assert n.whole + Fraction(n) == "25";
  }

  /** `1e2147483647`, which is no number that gets printed, would become zero. */
  lemma {:induction false} HugeExponentWraps(n: Numeral)
    requires n == Numeral("1", None, Some(('e', "2147483647")))
    ensures WellFormed(n) && !Printable(n) && Wrapped(PartsOf(n))
    ensures DecimalMillionths(Text(n)) == Ok(0) && Value(n) >= 1.0
  {
    assert WellFormed(n) && Exponent(n) == I32_MAX by { LargestExponent(); }
    assert PartsOf(n) == Parts(1, I32_MAX, 0) by {
      DigitsStep("", '1', "1");
      assert n.whole + Fraction(n) == "1";
    }
    var e := I32_MAX + 6;
    assert Wrap32(e) == e - 0x1_0000_0000;
    assert ReadParts(Text(n)) == Ok(PartsOf(n)) by { TextParts(n); }
    assert DecimalMillionths(Text(n)) == Ok(0) by {
      MillionthsExact(Text(n));
      VanishingScale(1, Wrap32(e));
    }
    assert Value(n) == Shifted(1.0, I32_MAX) by { ValueJoined(n); }
    ScaleIsFloor(1, I32_MAX);
    LargeScale(1, I32_MAX);
  }
}
