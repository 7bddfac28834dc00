/** How the JSON parser reads a decimal fraction back: it rounds the digits to a 64-bit double and
    divides once by the power of ten.  The division is taken to be exact and the result to be printed
    with as few digits as say so. */
module Reread {
  import opened Arithmetic
  import opened Decimal

  /** Integers below `2^53` are doubles. */
  const DOUBLE_LIMIT := 0x20_0000_0000_0000

  /** The distance between doubles around `d`. */
  function Unit(d: nat): (u: nat)
    ensures u >= 1
  {
    if d < DOUBLE_LIMIT then 1 else 2 * Unit(d / 2)
  }

  /** The double nearest to `d`, the even one of two. */
  function Nearest(d: nat): nat {
    var q, r := d / Unit(d), d % Unit(d);
    Times(if 2 * r < Unit(d) || (2 * r == Unit(d) && q % 2 == 0) then q else q + 1, Unit(d))
  }

  /** Digits below `2^53` are kept. */
  lemma {:induction false} NearestExact(d: nat)
    ensures Nearest(d) == d <==> d % Unit(d) == 0
  {
    var q, r := DivMod(d, Unit(d));
    MulSub(q, -1, Unit(d));
  }

  function DigitChar(d: nat): char
    requires d < 10
  {
    (d + '0' as int) as char
  }

  /** `d` in `n` digits. */
  function Padded(d: nat, n: nat): string {
    if n == 0 then "" else Padded(d / 10, n - 1) + [DigitChar(d % 10)]
  }

  /** `d` over `10^n`, without trailing zeros. */
  function Stripped(d: nat, n: nat): (nat, nat) {
    if n > 0 && d % 10 == 0 then Stripped(d / 10, n - 1) else (d, n)
  }

  /** `0.` and some digits. */
  predicate IsFraction(text: string) {
    |text| > 2 && text[..2] == "0." && AllDigits(text[2..])
  }

  /** The text of the number after one pass through parser and printer; only fractions change. */
  function Again(text: string): string {
    if !IsFraction(text) then text
    else
      var places := |text| - 2;
      var d := Nearest(Digits(text[2..]));
      if d >= Pow10(places) then "1.0"
      else
        var (e, n) := Stripped(d, places);
        "0." + if n == 0 then "0" else Padded(e, n)
  }

  /** Padding and reading digits are inverse to each other. */
  lemma {:induction false} PaddedDigits(f: string)
    requires AllDigits(f)
    ensures Digits(f) < Pow10(|f|) && Padded(Digits(f), |f|) == f
  {
    if f != "" {
      var init, last := f[..|f| - 1], f[|f| - 1];
      assert last in f && AllDigits(init);
      PaddedDigits(init);
      assert f == init + [last];
    }
  }

  lemma {:induction false} DigitsPadded(d: nat, n: nat)
    requires d < Pow10(n)
    ensures |Padded(d, n)| == n && AllDigits(Padded(d, n)) && Digits(Padded(d, n)) == d
  {
    if n > 0 {
      DigitsPadded(d / 10, n - 1);
      DigitsStep(Padded(d / 10, n - 1), DigitChar(d % 10), Padded(d, n));
    }
  }

  lemma {:induction false} StrippedKeeps(d: nat, n: nat)
    requires d < Pow10(n)
    ensures Stripped(d, n).1 <= n && Stripped(d, n).0 < Pow10(Stripped(d, n).1)
    ensures Stripped(d, n).1 == n <==> Stripped(d, n) == (d, n)
    ensures d % 10 != 0 ==> Stripped(d, n) == (d, n)
  {
    if n > 0 && d % 10 == 0 { StrippedKeeps(d / 10, n - 1); }
  }

  /** A fraction without trailing zeros comes back as it was exactly if its digits are a double; so do
      all with digits below `2^53`. */
  lemma {:induction false} ComesBackExactly(text: string)
    requires IsFraction(text) && text[|text| - 1] != '0'
    ensures Again(text) == text <==> Digits(text[2..]) % Unit(Digits(text[2..])) == 0
  {
    var f := text[2..];
    var x, places := Digits(f), |f|;
    var d := Nearest(x);
    assert text == "0." + f;
    PaddedDigits(f);
    NearestExact(x);
    LastDigit(f);
    if d == x {
      StrippedKeeps(d, places);
    } else if d >= Pow10(places) {
      assert text[0] == '0' && "1.0"[0] == '1';
    } else {
      var (e, n) := Stripped(d, places);
      StrippedKeeps(d, places);
      DigitsPadded(e, n);
      DigitsPadded(d, places);
      assert Again(text)[2..] == if n == 0 then "0" else Padded(e, n);
    }
  }

  lemma {:induction false} LastDigit(f: string)
    requires AllDigits(f) && f != "" && f[|f| - 1] != '0'
    ensures Digits(f) % 10 != 0
  {
    assert f[|f| - 1] in f;
  }

  /** `d` and `k` zeros. */
  function WithZeros(d: nat, k: nat): nat {
    if k == 0 then d else 10 * WithZeros(d, k - 1)
  }

  lemma {:induction false} ZerosStripped(d: nat, n: nat, k: nat)
    ensures Stripped(WithZeros(d, k), n + k) == Stripped(d, n)
  {
    if k > 0 {
      var e := WithZeros(d, k - 1);
      ZerosStripped(d, n, k - 1);
      assert (10 * e) / 10 == e && (10 * e) % 10 == 0;
    }
  }

  lemma {:induction false} AgainIs(text: string, x: nat, d: nat, e: nat, n: nat)
    requires IsFraction(text) && Digits(text[2..]) == x && Nearest(x) == d < Pow10(|text| - 2)
    requires Stripped(d, |text| - 2) == (e, n) && n > 0
    ensures Again(text) == "0." + Padded(e, n)
  {
  }

  /** 10099999999999999 lies half-way between two doubles, and 10100000000000000 is the even one. */
  lemma {:induction false} RoundsUp(x: nat, d: nat)
    requires x == 10099999999999999 && d == 10100000000000000
    ensures Nearest(x) == d
  {
    assert Unit(x / 2) == 1;
    assert Unit(x) == 2;
  }

  lemma {:induction false} SixPlaces()
    ensures Padded(101, 6) == "000101"
  {
    DigitsStep("", '0', "0");
    DigitsStep("0", '0', "00");
    DigitsStep("00", '0', "000");
    DigitsStep("000", '1', "0001");
    DigitsStep("0001", '0', "00010");
    DigitsStep("00010", '1', "000101");
    PaddedDigits("000101");
  }

  lemma {:induction false} TwentyPlaces(d: nat, places: nat)
    requires d == 10100000000000000 && places == 20
    ensures d < Pow10(places) && Stripped(d, places) == (101, 6)
  {
    assert WithZeros(101, 7) == 1010000000;
    assert WithZeros(101, 14) == 10100000000000000;
    ZerosStripped(101, 6, 14);
    assert Pow10(10) == 10000000000;
    Pow10Add(10, 10);
  }

  /** So `0.00010099999999999999` comes back as `0.000101`. */
  lemma {:induction false} ComesBackHigher(low: string, x: nat)
    requires IsFraction(low) && |low| == 22 && Digits(low[2..]) == x == 10099999999999999
    ensures Again(low) == "0." + "000101"
  {
    var d := x + 1;
    RoundsUp(x, d);
    TwentyPlaces(d, |low| - 2);
    AgainIs(low, x, d, 101, 6);
    SixPlaces();
  }
}
