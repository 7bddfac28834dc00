/** Probability distributions of a decision answer: exact values, quantized to parts per
    million, and the window that the contract accepts. */
module Distribution {
  import opened Hashing
  import opened Decimal

  const PPM := 1_000_000

  /** A JSON number; its value is taken to be exactly what its text says. */
  datatype Number = Number(negative: bool, numeral: Numeral)

  /** Numbers as they are printed, which never takes anywhere near `2^30` decimals. */
  type Json = x: Number | WellFormed(x.numeral) && Printed(x.numeral) witness Number(false, Numeral("0", None, None))

  predicate Printed(n: Numeral) {
    |Fraction(n)| < 0x4000_0000
  }

  function TextOf(x: Json): string {
    (if x.negative then "-" else "") + Text(x.numeral)
  }

  function ValueOf(x: Json): real {
    if x.negative then -Value(x.numeral) else Value(x.numeral)
  }

  /** `ppm`. */
  function Ppm(x: Json): Option<nat> {
    if !(0.0 <= ValueOf(x) <= 1.0) then None
    else
      var q := DecimalMillionths(TextOf(x));
      if q.Err? then None else Some(q.value)
  }

  /** The numeral's digits and exponent stay within what the conversion can hold. */
  predicate Convertible(n: Numeral)
    requires WellFormed(n)
  {
    PartsOf(n).digits < U128_LIMIT && Wrap32(PlainShift(PartsOf(n))) <= 38
  }

  /** The numbers that `ppm` accepts. */
  predicate PpmOk(x: Json) {
    0.0 <= ValueOf(x) <= 1.0 && !x.negative && Convertible(x.numeral)
  }

  /** `ppm` quantizes exactly, stays within a million, and says no only to numbers outside
      `0..1`, to a minus sign, and to numerals it cannot hold. */
  lemma {:induction false} PpmExact(x: Json)
    ensures Ppm(x).Some? <==> PpmOk(x)
    ensures Ppm(x).Some? ==> IsFloor(Ppm(x).value, ValueOf(x) * 1000000.0) && Ppm(x).value <= PPM
  {
    if 0.0 <= ValueOf(x) <= 1.0 {
      if x.negative {
        NegativeRefused(x);
      } else {
        assert "" + Text(x.numeral) == Text(x.numeral);
        ConvertibleQuantizes(x.numeral);
      }
    }
  }

  lemma {:induction false} NegativeRefused(x: Json)
    requires x.negative
    ensures DecimalMillionths(TextOf(x)).Err?
  {
    var s := TextOf(x);
    var e := Find(s, {'e', 'E'});
    assert s[0] == '-';
    if e.Some? {
      assert e.value > 0;
      assert s[..e.value][0] == '-';
    }
  }

  lemma {:induction false} ConvertibleQuantizes(n: Numeral)
    requires WellFormed(n) && Printed(n) && Value(n) <= 1.0
    ensures DecimalMillionths(Text(n)).Ok? <==> Convertible(n)
    ensures DecimalMillionths(Text(n)).Ok? ==>
              IsFloor(DecimalMillionths(Text(n)).value, Value(n) * 1000000.0) && DecimalMillionths(Text(n)).value <= PPM
  {
    var p := PartsOf(n);
    var e := PlainShift(p);
    TextParts(n);
    if p.digits < U128_LIMIT && Wrap32(e) <= 38 {
      SmallValue(n);
      MillionthsExact(Text(n));
    }
  }

  /** A convertible number up to one has a shift that does not wrap, or no digit but zero. */
  lemma {:induction false} SmallValue(n: Numeral)
    requires WellFormed(n) && Printed(n) && Value(n) <= 1.0 && Convertible(n)
    ensures
      var p := PartsOf(n);
      var r := Scale(p.digits, Wrap32(PlainShift(p)));
      !Wrapped(p) && IsFloor(r, Value(n) * 1000000.0) && r <= PPM
  {
    var p := PartsOf(n);
    assert I32_MIN <= p.exponent <= I32_MAX;
    assert Value(n) == PartsValue(p) by { ValueJoined(n); }
    ShiftedBySix(p.digits as real, p.exponent - p.decimals);
    SmallScale(p.digits, PlainShift(p));
  }

  lemma {:induction false} SmallScale(d: nat, e: int)
    requires I32_MIN - 0x4000_0000 < e <= I32_MAX + 6 && Wrap32(e) <= 38
    requires Shifted(d as real, e) <= 1000000.0
    ensures
      var r := Scale(d, Wrap32(e));
      (d != 0 ==> e == Wrap32(e)) && IsFloor(r, Shifted(d as real, e)) && r <= PPM
  {
    ScaleIsFloor(d, e);
    if d == 0 {
      ZeroScale(e);
      ZeroScale(Wrap32(e));
    } else if e > I32_MAX {
      ShiftedBySix(d as real, e - 6);
      ScaleIsFloor(d, e - 6);
      LargeScale(d, e - 6);
    }
  }

  // ------------------------------------------------------------ distributions

  predicate Listed(obj: map<string, Json>, name: string) {
    name in obj && PpmOk(obj[name])
  }

  /** All options are named, once each, and each value quantizes. */
  predicate Quantizable(obj: map<string, Json>, names: seq<string>) {
    && |obj| == |names| && NoRepeats(names)
    && forall i :: 0 <= i < |names| ==> Listed(obj, names[i])
  }

  function RealSum(vs: seq<real>): real {
    if vs == [] then 0.0 else RealSum(vs[..|vs| - 1]) + vs[|vs| - 1]
  }

  function Sum(q: seq<nat>): nat {
    if q == [] then 0 else Sum(q[..|q| - 1]) + q[|q| - 1]
  }

  ghost function ListedValue(obj: map<string, Json>, name: string): real {
    if name in obj then ValueOf(obj[name]) else 0.0
  }

  /** The listed values, in the order of the names. */
  ghost function Values(obj: map<string, Json>, names: seq<string>): (vs: seq<real>)
    ensures |vs| == |names| && forall i :: 0 <= i < |names| ==> vs[i] == ListedValue(obj, names[i])
  {
    seq(|names|, i requires 0 <= i < |names| => ListedValue(obj, names[i]))
  }

  predicate NearOne(x: real) {
    -0.000001 <= x - 1.0 <= 0.000001
  }

  /** The window of the contract. */
  predicate InWindow(sum: nat, n: nat) {
    sum <= PPM && sum + n >= PPM
  }

  /** Each `q[i]` is the integer part of `vs[i]` in millionths. */
  ghost predicate Floors(q: seq<nat>, vs: seq<real>) {
    |q| == |vs| && forall i :: 0 <= i < |vs| ==> IsFloor(q[i], vs[i] * 1000000.0)
  }

  /** Integer parts are unique. */
  lemma {:induction false} FloorsUnique(q: seq<nat>, q': seq<nat>, vs: seq<real>)
    requires Floors(q, vs) && Floors(q', vs)
    ensures q == q'
  {
    forall i | 0 <= i < |vs| ensures q[i] == q'[i] {
      assert IsFloor(q[i], vs[i] * 1000000.0) && IsFloor(q'[i], vs[i] * 1000000.0);
    }
  }

  /** The quantized value of a number, if it has one. */
  method ReadPpm(x: Json) returns (p: Option<nat>)
    ensures p.Some? <==> PpmOk(x)
    ensures p.Some? ==> IsFloor(p.value, ValueOf(x) * 1000000.0)
  {
    PpmExact(x);
    return Ppm(x);
  }

  /** One option of a distribution: its value, exact and quantized. */
  function OptionOf(obj: map<string, Json>, name: string): Option<(real, nat)> {
    if name !in obj || Ppm(obj[name]).None? then None else Some((ValueOf(obj[name]), Ppm(obj[name]).value))
  }

  lemma {:induction false} OptionExact(obj: map<string, Json>, name: string)
    ensures OptionOf(obj, name).Some? <==> Listed(obj, name)
    ensures OptionOf(obj, name).Some? ==>
              var (v, p) := OptionOf(obj, name).value;
              v == ListedValue(obj, name) && IsFloor(p, v * 1000000.0)
  {
    if name in obj { PpmExact(obj[name]); }
  }

  ghost predicate AllRead(read: string -> Option<(real, nat)>, names: seq<string>) {
    forall i :: 0 <= i < |names| ==> read(names[i]).Some?
  }

  /** Sum and quantized values of what `read` finds under the names. */
  ghost predicate Gathered(
    read: string -> Option<(real, nat)>, names: seq<string>, vs: seq<real>, sum: real, q: seq<nat>) {
    && |vs| == |q| == |names| && sum == RealSum(vs)
    && forall i :: 0 <= i < |names| ==> read(names[i]) == Some((vs[i], q[i]))
  }

  lemma {:induction false} GatherOne(
    read: string -> Option<(real, nat)>, names: seq<string>, i: nat, vs: seq<real>, sum: real, q: seq<nat>)
    requires i < |names| && Gathered(read, names[..i], vs, sum, q) && read(names[i]).Some?
    ensures
      var (v, p) := read(names[i]).value;
      Gathered(read, names[..i + 1], vs + [v], sum + v, q + [p])
  {
    var (v, p) := read(names[i]).value;
    assert (vs + [v])[..|vs|] == vs;
  }

  /** The loop of `distribution`, with `read` for one option. */
  method QuantizeAll(read: string -> Option<(real, nat)>, names: seq<string>)
    returns (r: Option<(real, seq<nat>)>, ghost vs: seq<real>)
    ensures r.Some? <==> AllRead(read, names)
    ensures r.Some? ==> Gathered(read, names, vs, r.value.0, r.value.1)
  {
    var rawSum, q: seq<nat> := 0.0, [];
    vs := [];
    for i := 0 to |names|
      invariant Gathered(read, names[..i], vs, rawSum, q)
    {
      var option := read(names[i]);
      if option.None? {
        return None, vs;
      }
      GatherOne(read, names, i, vs, rawSum, q);
      vs := vs + [option.value.0];
      rawSum := rawSum + option.value.0;
      q := q + [option.value.1];
    }
    assert names[..|names|] == names;
    return Some((rawSum, q)), vs;
  }

  /** What the loop finds in an object. */
  function Reader(obj: map<string, Json>): string -> Option<(real, nat)> {
    name => OptionOf(obj, name)
  }

  lemma {:induction false} ObjectRead(obj: map<string, Json>, names: seq<string>)
    ensures AllRead(Reader(obj), names) <==> forall i :: 0 <= i < |names| ==> Listed(obj, names[i])
  {
    forall i | 0 <= i < |names| ensures Reader(obj)(names[i]).Some? <==> Listed(obj, names[i]) {
      OptionExact(obj, names[i]);
    }
  }

  lemma {:induction false} ObjectGathered(
    obj: map<string, Json>, names: seq<string>, vs: seq<real>, sum: real, q: seq<nat>)
    requires Gathered(Reader(obj), names, vs, sum, q)
    ensures vs == Values(obj, names) && Floors(q, Values(obj, names))
  {
    forall i | 0 <= i < |names| ensures vs[i] == ListedValue(obj, names[i]) && IsFloor(q[i], vs[i] * 1000000.0) {
      assert Reader(obj)(names[i]) == Some((vs[i], q[i]));
      OptionExact(obj, names[i]);
    }
  }

  /** The distribution sums to one within a millionth, and `q` holds its integer parts, which fit
      the contract's window. */
  ghost predicate Accepted(obj: map<string, Json>, names: seq<string>, q: seq<nat>) {
    && Quantizable(obj, names) && Floors(q, Values(obj, names))
    && NearOne(RealSum(Values(obj, names))) && InWindow(Sum(q), |names|)
  }

  /** `distribution`: accepts exactly the distributions that sum to one within a millionth and
      whose integer parts fit the contract's window, and returns these parts. */
  method Quantize(obj: map<string, Json>, names: seq<string>) returns (r: Option<seq<nat>>)
    ensures r.Some? ==> Accepted(obj, names, r.value)
    ensures forall q :: Accepted(obj, names, q) ==> r == Some(q)
  {
    DistinctExactly(names);
    if |obj| != |names| || |set name | name in names| != |names| {
      return None;
    }
    var all, vs := QuantizeAll(Reader(obj), names);
    ObjectRead(obj, names);
    if all.None? {
      return None;
    }
    ObjectGathered(obj, names, vs, all.value.0, all.value.1);
    var (rawSum, q) := all.value;
    forall q' | Floors(q', Values(obj, names)) ensures q' == q { FloorsUnique(q', q, Values(obj, names)); }
    if rawSum < 0.999999 || rawSum > 1.000001 {
      return None;
    }
    if Sum(q) > 1000000 || Sum(q) + |names| < 1000000 {
      return None;
    }
    return Some(q);
  }

  /** Every value is a whole number of millionths. */
  ghost predicate AllExact(q: seq<nat>, vs: seq<real>)
    requires |q| == |vs|
  {
    forall i :: 0 <= i < |vs| ==> q[i] as real == vs[i] * 1000000.0
  }

  /** Rounding each option down loses less than one millionth per option, and nothing at all
      exactly when every option is a whole number of millionths. */
  lemma {:induction false} FloorSums(q: seq<nat>, vs: seq<real>)
    requires Floors(q, vs)
    ensures Sum(q) as real <= RealSum(vs) * 1000000.0
    ensures vs != [] ==> RealSum(vs) * 1000000.0 < Sum(q) as real + |vs| as real
    ensures Sum(q) as real == RealSum(vs) * 1000000.0 <==> AllExact(q, vs)
  {
    if vs != [] {
      var n := |vs| - 1;
      FloorSums(q[..n], vs[..n]);
      assert IsFloor(q[n], vs[n] * 1000000.0);
      assert AllExact(q, vs) <==> AllExact(q[..n], vs[..n]) && q[n] as real == vs[n] * 1000000.0;
    }
  }

  /** Exactly when the contract window turns down a distribution whose raw sum was near one:
      the sum is 1.000001 to the last digit and no option was rounded. */
  lemma {:induction false} WindowExact(q: seq<nat>, vs: seq<real>)
    requires Floors(q, vs) && NearOne(RealSum(vs))
    ensures InWindow(Sum(q), |vs|) <==> !(RealSum(vs) == 1.000001 && AllExact(q, vs))
  {
    FloorSums(q, vs);
  }

  /** So a distribution that sums to one always passes. */
  lemma {:induction false} SumOneAccepted(q: seq<nat>, vs: seq<real>)
    requires Floors(q, vs) && RealSum(vs) == 1.0
    ensures NearOne(RealSum(vs)) && InWindow(Sum(q), |vs|)
  {
    WindowExact(q, vs);
  }

  /** A numeral without exponent, less than one. */
  lemma {:induction false} PlainFraction(n: Numeral)
    requires n.whole == "0" && n.fraction.Some? && n.exponent.None? && AllDigits(n.fraction.value)
    ensures WellFormed(n) && Value(n) == Shifted(Digits(n.fraction.value) as real, -|n.fraction.value|)
    ensures PartsOf(n) == Parts(Digits(n.fraction.value), 0, |n.fraction.value|)
  {
    DigitsStep("", '0', "0");
    DigitsAppend("0", n.fraction.value);
  }

  /** `0.5` */
  function Half(): (n: Numeral) {
    Numeral("0", Some("5"), None)
  }

  /** `0.500001` */
  function HalfAndMore(): (n: Numeral) {
    Numeral("0", Some("500001"), None)
  }

  lemma {:induction false} HalfIs()
    ensures WellFormed(Half()) && Printed(Half()) && Convertible(Half()) && Value(Half()) == 0.5
  {
    DigitsStep("", '5', "5");
    PlainFraction(Half());
    assert Shifted(5.0, -1) == Shifted(5.0, 0) / 10.0;
  }

  lemma {:induction false} HalfAndMoreIs()
    ensures WellFormed(HalfAndMore()) && Printed(HalfAndMore()) && Convertible(HalfAndMore())
    ensures Value(HalfAndMore()) == 0.500001
  {
    DigitsStep("", '5', "5");
    DigitsStep("5", '0', "50");
    DigitsStep("50", '0', "500");
    DigitsStep("500", '0', "5000");
    DigitsStep("5000", '0', "50000");
    DigitsStep("50000", '1', "500001");
    PlainFraction(HalfAndMore());
    ShiftedBySix(500001.0, -6);
  }

  lemma {:induction false} SumOfTwo(a: real, b: real)
    ensures RealSum([a, b]) == a + b
  {
    assert [a, b][..1] == [a] && [a][..0] == [];
    assert RealSum([a]) == a;
  }

  /** And a distribution that fails: `0.5` and `0.500001`. */
  lemma {:induction false} WindowRejects() returns (obj: map<string, Json>)
    ensures obj.Keys == {"a", "b"}
    ensures obj["a"] == Number(false, Half()) && obj["b"] == Number(false, HalfAndMore())
    ensures Quantizable(obj, ["a", "b"]) && NearOne(RealSum(Values(obj, ["a", "b"])))
    ensures forall q :: !Accepted(obj, ["a", "b"], q)
  {
    obj := HalvesObject();
    var vs := Values(obj, ["a", "b"]);
    SumOfTwo(0.5, 0.500001);
    forall q ensures !(Floors(q, vs) && InWindow(Sum(q), 2)) { HalvesRejected(q); }
  }

  lemma {:induction false} HalvesObject() returns (obj: map<string, Json>)
    ensures obj.Keys == {"a", "b"}
    ensures obj["a"] == Number(false, Half()) && obj["b"] == Number(false, HalfAndMore())
    ensures Quantizable(obj, ["a", "b"]) && Values(obj, ["a", "b"]) == [0.5, 0.500001]
  {
    var half, more := HalfNumbers();
    obj := map["a" := half, "b" := more];
  }

  lemma {:induction false} HalfNumbers() returns (half: Json, more: Json)
    ensures half == Number(false, Half()) && PpmOk(half) && ValueOf(half) == 0.5
    ensures more == Number(false, HalfAndMore()) && PpmOk(more) && ValueOf(more) == 0.500001
  {
    HalfIs();
    HalfAndMoreIs();
    half, more := Number(false, Half()), Number(false, HalfAndMore());
  }

  lemma {:induction false} HalvesRejected(q: seq<nat>)
    ensures !(Floors(q, [0.5, 0.500001]) && InWindow(Sum(q), 2))
  {
    if Floors(q, [0.5, 0.500001]) {
      var vs := [0.5, 0.500001];
      assert IsFloor(q[0], vs[0] * 1000000.0) && IsFloor(q[1], vs[1] * 1000000.0);
      SumOfTwo(0.5, 0.500001);
      WindowExact(q, vs);
    }
  }

  // ------------------------------------------------------------------- choices

  ghost predicate MaximalAt(q: seq<nat>, k: nat)
    requires k < |q|
  {
    forall i :: 0 <= i < |q| ==> q[i] <= q[k]
  }

  /** Quantizing keeps a maximal option maximal; an option that passes as maximal is within one
      millionth of the true maximum. */
  lemma {:induction false} MaximumSurvives(q: seq<nat>, vs: seq<real>, k: nat)
    requires Floors(q, vs) && k < |vs|
    ensures (forall i :: 0 <= i < |vs| ==> vs[i] <= vs[k]) ==> MaximalAt(q, k)
    ensures MaximalAt(q, k) ==> forall i :: 0 <= i < |vs| ==> vs[i] < vs[k] + 0.000001
  {
    forall i | 0 <= i < |vs|
      ensures vs[i] <= vs[k] ==> q[i] <= q[k]
      ensures q[i] <= q[k] ==> vs[i] < vs[k] + 0.000001
    {
      assert IsFloor(q[i], vs[i] * 1000000.0) && IsFloor(q[k], vs[k] * 1000000.0);
    }
  }

  datatype Answer = Answer(kind: nat, selected: nat, valuePpm: nat, confidencePpm: nat, probabilitiesPpm: seq<nat>)

  /** A choice item of a response; `None` stands for a field of the wrong type. */
  datatype ChoiceItem = ChoiceItem(
    isChoice: bool, choice: Option<string>, probabilities: Option<map<string, Json>>, confidence: Option<Json>)

  /** `options.iter().position(..)`. */
  function Position(options: seq<string>, name: string): (k: Option<nat>)
    ensures k.Some? <==> name in options
    ensures k.Some? ==> k.value < |options| && options[k.value] == name && name !in options[..k.value]
  {
    if options == [] then None
    else if options[0] == name then Some(0)
    else
      var rest := Position(options[1..], name);
      assert rest.Some? ==> options[..rest.value + 1] == [options[0]] + options[1..][..rest.value];
      if rest.None? then None else Some(rest.value + 1)
  }

  /** What is signed for a choice: a listed option that is maximal after quantization, over the
      integer parts of an accepted distribution. */
  ghost predicate Signable(options: seq<string>, item: ChoiceItem, a: Answer) {
    && item.isChoice && 2 <= |options| <= 16
    && item.choice.Some? && item.probabilities.Some? && item.confidence.Some?
    && PpmOk(item.confidence.value)
    && Chosen(options, item.choice.value, item.probabilities.value, a.selected, a.probabilitiesPpm)
    && a.kind == 1 && a.valuePpm == 0
    && IsFloor(a.confidencePpm, ValueOf(item.confidence.value) * 1000000.0)
  }

  lemma {:induction false} SignableUnique(options: seq<string>, item: ChoiceItem, a: Answer, b: Answer)
    requires Signable(options, item, a) && Signable(options, item, b)
    ensures a == b
  {
    FloorsUnique(a.probabilitiesPpm, b.probabilitiesPpm, Values(item.probabilities.value, options));
  }

  predicate ExceedsAt(q: seq<nat>, k: nat)
    requires k < |q|
  {
    exists i :: 0 <= i < |q| && q[i] > q[k]
  }

  /** A listed option, and a distribution in which it is maximal. */
  ghost predicate Chosen(options: seq<string>, name: string, probabilities: map<string, Json>, k: nat, q: seq<nat>) {
    Accepted(probabilities, options, q) && k < |options| && options[k] == name && MaximalAt(q, k)
  }

  method Choose(options: seq<string>, name: string, probabilities: map<string, Json>)
    returns (r: Option<(nat, seq<nat>)>)
    ensures r.Some? ==> Chosen(options, name, probabilities, r.value.0, r.value.1)
    ensures r.None? ==> forall k: nat, q :: !Chosen(options, name, probabilities, k, q)
  {
    var selected := Position(options, name);
    if selected.None? {
      return None;
    }
    var q := Quantize(probabilities, options);
    if q.None? || ExceedsAt(q.value, selected.value) {
      return None;
    }
    return Some((selected.value, q.value));
  }

  /** The choice branch of `validate_response`: it answers exactly when there is something
      signable, which is then unique. */
  method ValidateChoice(options: seq<string>, item: ChoiceItem) returns (a: Option<Answer>)
    ensures a.Some? ==> Signable(options, item, a.value)
    ensures a.None? ==> forall b :: !Signable(options, item, b)
  {
    if !item.isChoice || |options| < 2 || |options| > 16 || item.choice.None? || item.probabilities.None? {
      return None;
    }
    var chosen := Choose(options, item.choice.value, item.probabilities.value);
    if chosen.None? || item.confidence.None? {
      return None;
    }
    var confidence := ReadPpm(item.confidence.value);
    if confidence.None? {
      return None;
    }
    return Some(Answer(1, chosen.value.0, 0, confidence.value, chosen.value.1));
  }

  /** The item names an option of greatest probability, and the probabilities sum to one. */
  ghost predicate HonestChoice(options: seq<string>, item: ChoiceItem) {
    && item.isChoice && 2 <= |options| <= 16
    && item.choice.Some? && item.probabilities.Some? && item.confidence.Some?
    && PpmOk(item.confidence.value)
    && Quantizable(item.probabilities.value, options)
    && RealSum(Values(item.probabilities.value, options)) == 1.0
    && item.choice.value in options
    && forall i :: 0 <= i < |options| ==>
         ListedValue(item.probabilities.value, options[i]) <= ListedValue(item.probabilities.value, item.choice.value)
  }

  ghost function IntegerParts(vs: seq<real>): (q: seq<nat>)
    requires forall i :: 0 <= i < |vs| ==> 0.0 <= vs[i]
    ensures Floors(q, vs)
  {
    seq(|vs|, i requires 0 <= i < |vs| => (vs[i] * 1000000.0).Floor)
  }

  /** An honest choice is never turned down. */
  lemma {:induction false} HonestAccepted(options: seq<string>, item: ChoiceItem) returns (a: Answer)
    requires HonestChoice(options, item)
    ensures Signable(options, item, a)
  {
    var vs := Values(item.probabilities.value, options);
    assert forall i :: 0 <= i < |vs| ==> Listed(item.probabilities.value, options[i]) && 0.0 <= vs[i];
    var q := IntegerParts(vs);
    var k :| 0 <= k < |options| && options[k] == item.choice.value;
    SumOneAccepted(q, vs);
    assert forall i :: 0 <= i < |vs| ==> vs[i] <= vs[k];
    MaximumSurvives(q, vs, k);
    a := Answer(1, k, 0, (ValueOf(item.confidence.value) * 1000000.0).Floor, q);
  }

  // --------------------------------------------------------------------- noul

  /** The noul branch of `validate_response`, on the text of the number. */
  function NoulOf(text: string): Option<Answer> {
    var p := ReadParts(text);
    if p.Err? || PartsValue(p.value) > 1.0 then None
    else
      var q := DecimalMillionths(text);
      if q.Err? then None else Some(Answer(3, 0, q.value, 0, []))
  }

  lemma {:induction false} ShiftedSign(x: real, e: int)
    requires x >= 0.0
    ensures Shifted(x, e) >= 0.0
    decreases if e < 0 then -e else e
  {
    if e > 0 {
      ShiftedSign(x, e - 1);
    } else if e < 0 {
      ShiftedSign(x, e + 1);
    }
  }

  /** It is `ppm` of the number. */
  lemma {:induction false} NoulIsPpm(x: Json)
    ensures NoulOf(TextOf(x)) == if Ppm(x).Some? then Some(Answer(3, 0, Ppm(x).value, 0, [])) else None
  {
    if x.negative {
      NegativeRefused(x);
    } else {
      assert TextOf(x) == Text(x.numeral);
      NoulOfNumeral(x.numeral);
    }
  }

  lemma {:induction false} NoulOfNumeral(n: Numeral)
    requires WellFormed(n)
    ensures 0.0 <= Value(n)
    ensures NoulOf(Text(n)) == if Value(n) <= 1.0 && DecimalMillionths(Text(n)).Ok?
                               then Some(Answer(3, 0, DecimalMillionths(Text(n)).value, 0, [])) else None
  {
    var text, p, v := Text(n), PartsOf(n), Value(n);
    assert ReadParts(text).Ok? ==> ReadParts(text).value == p by { TextParts(n); }
    assert v == PartsValue(p) && 0.0 <= v by { ValueNotNegative(n); }
    NoulByValue(text, p, v);
  }

  lemma {:induction false} ValueNotNegative(n: Numeral)
    requires WellFormed(n)
    ensures Value(n) == PartsValue(PartsOf(n)) && 0.0 <= Value(n)
  {
    var p := PartsOf(n);
    ValueJoined(n);
    ShiftedSign(p.digits as real, p.exponent - p.decimals);
  }

  lemma {:induction false} NoulByValue(text: string, p: Parts, v: real)
    requires ReadParts(text).Ok? ==> ReadParts(text).value == p
    requires v == PartsValue(p)
    ensures NoulOf(text) == if v <= 1.0 && DecimalMillionths(text).Ok?
                            then Some(Answer(3, 0, DecimalMillionths(text).value, 0, [])) else None
  {
  }

  /** `0.00010099999999999999`, the double before `0.000101`. */
  function JustBelow(): (n: Numeral) {
    Numeral("0", Some("00010099999999999999"), None)
  }

  /** `0.000101` */
  function JustThere(): (n: Numeral) {
    Numeral("0", Some("000101"), None)
  }

  lemma {:induction false} NinesAre()
    ensures AllDigits("99999999999999") && Digits("99999999999999") == 99999999999999
  {
    SevenNines();
    DigitsAppend("9999999", "9999999");
    assert Pow10(7) == 10000000;
    assert "9999999" + "9999999" == "99999999999999";
  }

  lemma {:induction false} SevenNines()
    ensures AllDigits("9999999") && Digits("9999999") == 9999999
  {
    DigitsStep("", '9', "9");
    DigitsStep("9", '9', "99");
    DigitsStep("99", '9', "999");
    DigitsStep("999", '9', "9999");
    DigitsStep("9999", '9', "99999");
    DigitsStep("99999", '9', "999999");
    DigitsStep("999999", '9', "9999999");
  }

  lemma {:induction false} ZerosAndOne()
    ensures AllDigits("00010") && Digits("00010") == 10
  {
    DigitsStep("", '0', "0");
    DigitsStep("0", '0', "00");
    DigitsStep("00", '0', "000");
    DigitsStep("000", '1', "0001");
    DigitsStep("0001", '0', "00010");
  }

  lemma {:induction false} JustBelowDigits()
    ensures AllDigits("00010099999999999999") && Digits("00010099999999999999") == 10099999999999999
  {
    ZerosAndOne();
    DigitsStep("00010", '0', "000100");
    NinesAre();
    DigitsAppend("000100", "99999999999999");
    assert "000100" + "99999999999999" == "00010099999999999999";
    assert Pow10(7) == 10000000;
    Pow10Add(7, 7);
  }

  lemma {:induction false} JustBelowIs()
    ensures WellFormed(JustBelow()) && Printed(JustBelow()) && Convertible(JustBelow())
    ensures 0.0001 <= Value(JustBelow()) < 0.000101
  {
    JustBelowDigits();
    PlainFraction(JustBelow());
    TwentyPlaces(10099999999999999.0);
  }

  lemma {:induction false} TwentyPlaces(x: real)
    ensures Shifted(x, -20) == x / 100000000000000000000.0
  {
    ShiftedBySix(x, -20);
    ShiftedBySix(x, -14);
    ShiftedBySix(x, -8);
    assert Shifted(x, -2) == x / 100.0;
  }

  lemma {:induction false} JustThereIs()
    ensures WellFormed(JustThere()) && Printed(JustThere()) && Convertible(JustThere())
    ensures Value(JustThere()) == 0.000101
  {
    ZerosAndOne();
    DigitsStep("00010", '1', "000101");
    PlainFraction(JustThere());
    ShiftedBySix(101.0, -6);
  }

  /** The two quantize differently. */
  lemma {:induction false} NeighboursDiffer()
    ensures NoulOf(Text(JustBelow())) == Some(Answer(3, 0, 100, 0, []))
    ensures NoulOf(Text(JustThere())) == Some(Answer(3, 0, 101, 0, []))
  {
    JustBelowIs();
    JustThereIs();
    NoulAt(JustBelow(), 100);
    NoulAt(JustThere(), 101);
  }

  lemma {:induction false} NoulAt(n: Numeral, r: nat)
    requires WellFormed(n) && Printed(n) && Convertible(n) && Value(n) <= 1.0 && IsFloor(r, Value(n) * 1000000.0)
    ensures NoulOf(Text(n)) == Some(Answer(3, 0, r, 0, []))
  {
    assert DecimalMillionths(Text(n)).Ok? && IsFloor(DecimalMillionths(Text(n)).value, Value(n) * 1000000.0) by {
      ConvertibleQuantizes(n);
    }
    SameFloor(DecimalMillionths(Text(n)).value, r, Value(n) * 1000000.0);
    NoulOfNumeral(n);
  }

  lemma {:induction false} SameFloor(a: int, b: int, x: real)
    requires IsFloor(a, x) && IsFloor(b, x)
    ensures a == b
  {
  }
}
