/** Decimal network weights brought to the least whole numbers with the same ratios. */
module Weights {
  import opened Wrappers

  type Positive = n: int | 0 < n witness 1

  const UINT64_LIMIT := 0x1_0000_0000_0000_0000

  type Uint64 = n: int | 0 <= n < UINT64_LIMIT

  /** The number coefficient / 10^scale. */
  datatype Decimal = Decimal(coefficient: Positive, scale: nat)

  /** What one network selection says about its weight. */
  datatype Selection = Unweighted | Weighted(weight: Decimal) | InvalidText

  // ---------------------------------------------------------------- reading

  /** The text before and after the first `mark`. */
  function Cut(s: string, mark: char): (r: (string, Option<string>))
    ensures mark !in r.0
    ensures r.1.None? ==> r.0 == s
    ensures r.1.Some? ==> s == r.0 + [mark] + r.1.value
  {
    if s == [] then ("", None)
    else if s[0] == mark then ("", Some(s[1..]))
    else
      var rest := Cut(s[1..], mark);
      ([s[0]] + rest.0, rest.1)
  }

  predicate IsDigit(c: char) {
    '0' <= c <= '9'
  }

  predicate AsciiDigits(s: string) {
    s != "" && forall i :: 0 <= i < |s| ==> IsDigit(s[i])
  }

  function Digit(c: char): nat
    requires IsDigit(c)
  {
    c as int - '0' as int
  }

  function Number(s: string): nat
    requires forall i :: 0 <= i < |s| ==> IsDigit(s[i])
  {
    if s == "" then 0 else 10 * Number(s[..|s| - 1]) + Digit(s[|s| - 1])
  }

  /** A weight text is digits, perhaps with one point inside, and not zero. */
  function ParseWeight(raw: string): Option<Decimal> {
    var (whole, fraction) := Cut(raw, '.');
    if !AsciiDigits(whole) || (fraction.Some? && !AsciiDigits(fraction.value)) then None
    else
      var tail := if fraction.Some? then fraction.value else "";
      var coefficient := Number(whole + tail);
      if coefficient <= 0 then None else Some(Decimal(coefficient, |tail|))
  }

  function ParseSelection(raw: string): Selection {
    var (address, text) := Cut(raw, '@');
    match text
    case None => Unweighted
    case Some(weight) =>
      match ParseWeight(weight)
      case None => InvalidText
      case Some(decimal) => Weighted(decimal)
  }

  function Power10(n: nat): Positive {
    if n == 0 then 1 else 10 * Power10(n - 1)
  }

  function DecimalOf(selection: Selection): Decimal {
    if selection.Weighted? then selection.weight else Decimal(1, 0)
  }

  /** The number a selection stands for. */
  function Value(selection: Selection): (v: real)
    ensures v > 0.0
  {
    var decimal := DecimalOf(selection);
    decimal.coefficient as real / Power10(decimal.scale) as real
  }

  lemma {:induction false} CutAt(before: string, after: string, mark: char)
    requires mark !in before
    ensures Cut(before, mark) == (before, None)
    ensures Cut(before + [mark] + after, mark) == (before, Some(after))
  {
    if before == "" {
      assert before + [mark] + after == [mark] + after;
    } else {
      assert (before + [mark] + after)[1..] == before[1..] + [mark] + after;
      CutAt(before[1..], after, mark);
      assert [before[0]] + before[1..] == before;
    }
  }

  lemma DigitsHaveNoPoint(s: string)
    requires AsciiDigits(s)
    ensures '.' !in s
  {
    assert forall i :: 0 <= i < |s| ==> IsDigit(s[i]);
  }

  lemma {:induction false} NumberOfMore(s: string, c: char)
    requires (forall i :: 0 <= i < |s| ==> IsDigit(s[i])) && IsDigit(c)
    ensures (forall i :: 0 <= i < |s + [c]| ==> IsDigit((s + [c])[i])) && Number(s + [c]) == 10 * Number(s) + Digit(c)
  {
    assert (s + [c])[..|s|] == s;
  }

  lemma TenTimes(coefficient: Positive, scale: nat)
    ensures Value(Weighted(Decimal(10 * coefficient, scale + 1))) == Value(Weighted(Decimal(coefficient, scale)))
  {
    var c, p := coefficient as real, Power10(scale) as real;
    assert (10 * coefficient) as real == 10.0 * c && Power10(scale + 1) as real == 10.0 * p;
    Cancel(c, p);
  }

  lemma Cancel(c: real, p: real)
    requires p > 0.0
    ensures (10.0 * c) / (10.0 * p) == c / p
  {
    var quotient := c / p;
    assert quotient * p == c;
    assert quotient * (10.0 * p) == 10.0 * c;
  }

  lemma {:induction false} ParseWhole(whole: string)
    requires AsciiDigits(whole)
    ensures ParseWeight(whole) == if Number(whole) <= 0 then None else Some(Decimal(Number(whole), 0))
  {
    DigitsHaveNoPoint(whole);
    CutAt(whole, "", '.');
    assert whole + "" == whole;
  }

  lemma DigitsTogether(a: string, b: string)
    requires AsciiDigits(a) && AsciiDigits(b)
    ensures AsciiDigits(a + b)
  {
  }

  lemma {:induction false} ParsePoint(whole: string, fraction: string)
    requires AsciiDigits(whole) && AsciiDigits(fraction) && AsciiDigits(whole + fraction)
    ensures ParseWeight(whole + "." + fraction) ==
            if Number(whole + fraction) <= 0 then None else Some(Decimal(Number(whole + fraction), |fraction|))
  {
    DigitsHaveNoPoint(whole);
    CutAt(whole, fraction, '.');
  }

  predicate SameWeight(a: Option<Decimal>, b: Option<Decimal>) {
    (a.Some? <==> b.Some?) && (a.Some? ==> Value(Weighted(a.value)) == Value(Weighted(b.value)))
  }

  lemma TenfoldIsSame(coefficient: nat, scale: nat, a: Option<Decimal>, b: Option<Decimal>)
    requires a == if coefficient <= 0 then None else Some(Decimal(coefficient, scale))
    requires b == if 10 * coefficient <= 0 then None else Some(Decimal(10 * coefficient, scale + 1))
    ensures SameWeight(b, a)
  {
    if coefficient > 0 {
      TenTimes(coefficient, scale);
    }
  }

  /** A point with a zero after whole digits changes nothing. */
  lemma PointZeroIsIgnored(whole: string)
    requires AsciiDigits(whole)
    ensures SameWeight(ParseWeight(whole + "." + "0"), ParseWeight(whole))
  {
    DigitsTogether(whole, "0");
    ParseWhole(whole);
    ParsePoint(whole, "0");
    NumberOfMore(whole, '0');
    TenfoldIsSame(Number(whole), 0, ParseWeight(whole), ParseWeight(whole + "." + "0"));
  }

  /** A zero after the last decimal changes nothing. */
  lemma TrailingZeroIsIgnored(whole: string, fraction: string)
    requires AsciiDigits(whole) && AsciiDigits(fraction)
    ensures SameWeight(ParseWeight(whole + "." + (fraction + "0")), ParseWeight(whole + "." + fraction))
  {
    DigitsTogether(whole, fraction);
    DigitsTogether(fraction, "0");
    DigitsTogether(whole, fraction + "0");
    ParsePoint(whole, fraction);
    ParsePoint(whole, fraction + "0");
    assert whole + (fraction + "0") == (whole + fraction) + "0";
    NumberOfMore(whole + fraction, '0');
    TenfoldIsSame(Number(whole + fraction), |fraction|, ParseWeight(whole + "." + fraction),
                  ParseWeight(whole + "." + (fraction + "0")));
  }

  // ---------------------------------------------------------------- the greatest common divisor

  function Gcd(a: nat, b: nat): nat
    decreases b
  {
    if b == 0 then a else Gcd(b, a % b)
  }

  lemma Collect(a: nat, b: nat, x: int, y: int, p: nat, q: nat, g: nat)
    requires b != 0 && x * b + y * (a % b) == g && b == p * g && a % b == q * g
    ensures y * a + (x - y * (a / b)) * b == g
    ensures a == (a / b * p + q) * g
  {
    var d, r := a / b, a % b;
    assert a == d * b + r;
    calc {
      y * a + (x - y * d) * b;
      y * (d * b + r) + (x - y * d) * b;
      y * (d * b) + y * r + x * b - (y * d) * b;
      { assert y * (d * b) == (y * d) * b; }
      x * b + y * r;
    }
    assert d * (p * g) == (d * p) * g;
  }

  /** The divisor divides both numbers and is a combination of them. */
  lemma {:induction false} GcdIsCombination(a: nat, b: nat) returns (x: int, y: int, p: nat, q: nat)
    ensures x * a + y * b == Gcd(a, b)
    ensures a == p * Gcd(a, b) && b == q * Gcd(a, b)
    decreases b
  {
    if b == 0 {
      x, y, p, q := 1, 0, 1, 0;
    } else {
      var x', y', p', q' := GcdIsCombination(b, a % b);
      Collect(a, b, x', y', p', q', Gcd(a, b));
      x, y := y', x' - y' * (a / b);
      p, q := a / b * p' + q', p';
    }
  }

  function Common(values: seq<nat>): nat {
    if values == [] then 0 else Gcd(Common(values[..|values| - 1]), values[|values| - 1])
  }

  function Dot(a: seq<int>, values: seq<nat>): int
    requires |a| == |values|
  {
    if a == [] then 0 else Dot(a[..|a| - 1], values[..|a| - 1]) + a[|a| - 1] * values[|a| - 1]
  }

  function Times(x: int, a: seq<int>): (r: seq<int>)
    ensures |r| == |a|
  {
    seq(|a|, i requires 0 <= i < |a| => x * a[i])
  }

  lemma {:induction false} DotOfTimes(x: int, a: seq<int>, values: seq<nat>)
    requires |a| == |values|
    ensures Dot(Times(x, a), values) == x * Dot(a, values)
  {
    if a != [] {
      var n := |a| - 1;
      assert Times(x, a)[..n] == Times(x, a[..n]);
      DotOfTimes(x, a[..n], values[..n]);
      Factor(x, Dot(a[..n], values[..n]), a[n], values[n]);
    }
  }

  lemma Factor(x: int, d: int, a: int, v: int)
    ensures x * d + (x * a) * v == x * (d + a * v)
  {
  }

  lemma {:induction false} DotOfMore(a: seq<int>, y: int, values: seq<nat>, last: nat)
    requires |a| == |values|
    ensures Dot(a + [y], values + [last]) == Dot(a, values) + y * last
  {
    assert (a + [y])[..|a|] == a && (values + [last])[..|a|] == values;
  }

  /** `q` times `g` is each of the values. */
  predicate Quotients(values: seq<nat>, q: seq<nat>, g: nat) {
    |q| == |values| && forall i :: 0 <= i < |values| ==> IsProduct(values[i], q[i], g)
  }

  predicate IsProduct(n: nat, q: nat, g: nat) {
    n == q * g
  }

  function TimesNat(x: nat, a: seq<nat>): (r: seq<nat>)
    ensures |r| == |a|
  {
    seq(|a|, i requires 0 <= i < |a| => x * a[i])
  }

  lemma QuotientsOfDivisor(values: seq<nat>, q: seq<nat>, g: nat, p: nat, h: nat)
    requires Quotients(values, q, g) && g == p * h
    ensures Quotients(values, TimesNat(p, q), h)
  {
    forall i | 0 <= i < |values|
      ensures IsProduct(values[i], TimesNat(p, q)[i], h)
    {
      assert IsProduct(values[i], q[i], g);
      assert q[i] * (p * h) == (p * q[i]) * h;
    }
  }

  lemma {:induction false} CommonIsCombination(values: seq<nat>) returns (a: seq<int>, q: seq<nat>)
    ensures |a| == |values| && Dot(a, values) == Common(values)
    ensures Quotients(values, q, Common(values))
  {
    if values == [] {
      a, q := [], [];
    } else {
      var n := |values| - 1;
      var init, last := values[..n], values[n];
      var a0, q0 := CommonIsCombination(init);
      var x, y, p, k := GcdIsCombination(Common(init), last);
      DotOfTimes(x, a0, init);
      DotOfMore(Times(x, a0), y, init, last);
      QuotientsOfDivisor(init, q0, Common(init), p, Common(values));
      a, q := Times(x, a0) + [y], TimesNat(p, q0) + [k];
      assert init + [last] == values;
    }
  }

  // ---------------------------------------------------------------- least vectors

  predicate AllPositive(v: seq<nat>) {
    forall i :: 0 <= i < |v| ==> 0 < v[i]
  }

  predicate SameRatio(a: nat, b: nat, c: nat, d: nat) {
    a * d == b * c
  }

  /** The entries stand in the same ratios. */
  predicate Proportional(w: seq<nat>, v: seq<nat>) {
    |w| == |v| && forall i, j :: 0 <= i < |v| && 0 <= j < |v| ==> SameRatio(w[i], w[j], v[i], v[j])
  }

  lemma {:induction false} CommonIsPositive(values: seq<nat>)
    requires AllPositive(values) && values != []
    ensures Common(values) > 0
  {
    var a, q := CommonIsCombination(values);
    assert IsProduct(values[0], q[0], Common(values));
  }

  function DividedBy(values: seq<nat>, g: Positive): (r: seq<nat>)
    ensures |r| == |values|
  {
    seq(|values|, i requires 0 <= i < |values| => values[i] / g)
  }

  /** The values divided by their greatest common divisor. */
  function Least(values: seq<nat>): (r: seq<nat>)
    requires AllPositive(values)
    ensures |r| == |values|
  {
    if values == [] then []
    else
      CommonIsPositive(values);
      DividedBy(values, Common(values))
  }

  lemma SmallMultiple(x: int, g: int, r: int)
    requires x * g == r && -g < r < g
    ensures x == 0
  {
    assert x >= 1 ==> x * g >= g;
    assert x <= -1 ==> x * g <= -g;
  }

  lemma {:induction false} DivideProduct(n: nat, q: nat, g: nat)
    requires g > 0 && IsProduct(n, q, g)
    ensures n / g == q
  {
    assert n == n / g * g + n % g;
    SmallMultiple(q - n / g, g, n % g);
  }

  /** A combination of the least vector that is one. */
  lemma {:induction false} LeastCombination(values: seq<nat>) returns (a: seq<int>)
    requires AllPositive(values) && values != []
    ensures |a| == |values| && Dot(a, Least(values)) == 1
    ensures Quotients(values, Least(values), Common(values))
  {
    var g := Common(values);
    var q;
    a, q := CommonIsCombination(values);
    CommonIsPositive(values);
    forall i | 0 <= i < |values|
      ensures Least(values)[i] == q[i]
    {
      assert IsProduct(values[i], q[i], g);
      DivideProduct(values[i], q[i], g);
    }
    assert Least(values) == q;
    DotOfProducts(a, values, q, g);
    assert Dot(a, q) * g == g;
    Unit(Dot(a, q), g);
  }

  lemma Unit(d: int, g: int)
    requires g > 0 && d * g == g
    ensures d == 1
  {
  }

  lemma {:induction false} DotOfProducts(a: seq<int>, values: seq<nat>, q: seq<nat>, g: nat)
    requires |a| == |values| && Quotients(values, q, g)
    ensures Dot(a, values) == Dot(a, q) * g
  {
    if a != [] {
      var n := |a| - 1;
      DotOfProducts(a[..n], values[..n], q[..n], g);
      assert IsProduct(values[n], q[n], g);
      assert a[n] * (q[n] * g) == (a[n] * q[n]) * g;
      Distribute(Dot(a[..n], q[..n]), a[n] * q[n], g);
    }
  }

  lemma Distribute(x: int, y: int, g: int)
    ensures (x + y) * g == x * g + y * g
  {
  }

  lemma QuotientRatio(vi: nat, vj: nat, qi: nat, qj: nat, g: nat)
    requires IsProduct(vi, qi, g) && IsProduct(vj, qj, g) && 0 < vi
    ensures 0 < qi && SameRatio(qi, qj, vi, vj)
  {
    assert qi * (qj * g) == qj * (qi * g);
  }

  lemma QuotientsAreProportional(values: seq<nat>, q: seq<nat>, g: nat)
    requires AllPositive(values) && Quotients(values, q, g)
    ensures AllPositive(q) && Proportional(q, values)
  {
    forall i, j | 0 <= i < |values| && 0 <= j < |values|
      ensures 0 < q[i] && SameRatio(q[i], q[j], values[i], values[j])
    {
      assert IsProduct(values[i], q[i], g) && IsProduct(values[j], q[j], g);
      QuotientRatio(values[i], values[j], q[i], q[j], g);
    }
  }

  lemma {:induction false} LeastIsProportional(values: seq<nat>)
    requires AllPositive(values)
    ensures AllPositive(Least(values)) && Proportional(Least(values), values)
  {
    if values != [] {
      var a := LeastCombination(values);
      QuotientsAreProportional(values, Least(values), Common(values));
    }
  }

  lemma {:induction false} DotSwaps(a: seq<int>, w: seq<nat>, q: seq<nat>, wi: nat, qi: nat)
    requires |a| == |w| == |q|
    requires forall j :: 0 <= j < |w| ==> SameRatio(wi, w[j], qi, q[j])
    ensures wi * Dot(a, q) == qi * Dot(a, w)
  {
    if a != [] {
      var n := |a| - 1;
      DotSwaps(a[..n], w[..n], q[..n], wi, qi);
      assert SameRatio(wi, w[n], qi, q[n]);
      SwapTerm(wi, qi, a[n], w[n], q[n]);
      Factored(wi, Dot(a[..n], q[..n]), a[n] * q[n]);
      Factored(qi, Dot(a[..n], w[..n]), a[n] * w[n]);
    }
  }

  lemma SwapTerm(wi: int, qi: int, a: int, w: int, q: int)
    requires wi * q == w * qi
    ensures wi * (a * q) == qi * (a * w)
  {
    assert wi * (a * q) == a * (wi * q);
    assert qi * (a * w) == a * (w * qi);
  }

  lemma Factored(x: int, d: int, t: int)
    ensures x * (d + t) == x * d + x * t
  {
  }

  /** `w` is `k` times the vector `q`. */
  predicate IsMultiple(w: seq<nat>, k: nat, q: seq<nat>) {
    |w| == |q| && forall i :: 0 <= i < |q| ==> IsProduct(w[i], k, q[i])
  }

  lemma RatioPasses(wi: nat, wj: nat, vi: nat, vj: nat, qi: nat, qj: nat, g: nat)
    requires SameRatio(wi, wj, vi, vj) && IsProduct(vi, qi, g) && IsProduct(vj, qj, g) && g > 0
    ensures SameRatio(wi, wj, qi, qj)
  {
    assert wi * (qj * g) == wj * (qi * g);
    assert (wi * qj) * g == (wj * qi) * g;
    CancelFactor(wi * qj, wj * qi, g);
  }

  lemma CancelFactor(x: int, y: int, g: int)
    requires g > 0 && x * g == y * g
    ensures x == y
  {
    SmallMultiple(x - y, g, 0);
  }

  lemma {:induction false} ProportionalToLeast(values: seq<nat>, w: seq<nat>)
    requires AllPositive(values) && values != [] && Proportional(w, values)
    ensures Proportional(w, Least(values))
  {
    var a := LeastCombination(values);
    CommonIsPositive(values);
    forall i, j | 0 <= i < |values| && 0 <= j < |values|
      ensures SameRatio(w[i], w[j], Least(values)[i], Least(values)[j])
    {
      assert SameRatio(w[i], w[j], values[i], values[j]);
      assert IsProduct(values[i], Least(values)[i], Common(values)) && IsProduct(values[j], Least(values)[j], Common(values));
      RatioPasses(w[i], w[j], values[i], values[j], Least(values)[i], Least(values)[j], Common(values));
    }
  }

  /** Every positive vector with these ratios is a positive multiple of the least one. */
  lemma EveryAnswerIsAMultiple(values: seq<nat>, w: seq<nat>) returns (k: nat)
    requires AllPositive(values) && values != [] && AllPositive(w) && Proportional(w, values)
    ensures 0 < k && IsMultiple(w, k, Least(values))
  {
    var a := LeastCombination(values);
    LeastIsProportional(values);
    ProportionalToLeast(values, w);
    var q := Least(values);
    var d := Dot(a, w);
    forall i | 0 <= i < |q|
      ensures w[i] == d * q[i] && 0 < d
    {
      forall j | 0 <= j < |w|
        ensures SameRatio(w[i], w[j], q[i], q[j])
      {
      }
      DotSwaps(a, w, q, w[i], q[i]);
      PositiveFactor(w[i], q[i], d);
    }
    assert w[0] == d * q[0];
    k := d;
    assert forall i :: 0 <= i < |q| ==> IsProduct(w[i], k, q[i]);
  }

  lemma PositiveFactor(w: nat, q: nat, d: int)
    requires 0 < w && 0 < q && w * 1 == q * d
    ensures 0 < d && w == d * q
  {
    assert d <= 0 ==> q * d <= 0;
  }

  /** Vectors in the same ratios have one least vector. */
  lemma {:induction false} SameRatiosSameLeast(values: seq<nat>, other: seq<nat>)
    requires AllPositive(values) && AllPositive(other) && Proportional(values, other)
    ensures Least(values) == Least(other)
  {
    if values != [] {
      var q, r := Least(values), Least(other);
      LeastIsProportional(values);
      LeastIsProportional(other);
      ProportionalChain(q, values, other);
      ProportionalBack(values, other);
      ProportionalChain(r, other, values);
      var k := EveryAnswerIsAMultiple(other, q);
      var m := EveryAnswerIsAMultiple(values, r);
      forall i | 0 <= i < |q|
        ensures q[i] == r[i]
      {
        assert IsProduct(q[i], k, r[i]) && IsProduct(r[i], m, q[i]);
        EachOther(q[i], r[i], k, m);
      }
    }
  }

  lemma EachOther(q: nat, r: nat, k: nat, m: nat)
    requires 0 < k && 0 < m && q == k * r && r == m * q
    ensures q == r
  {
    assert r <= k * r;
    assert q <= m * q;
  }

  lemma ProportionalBack(v: seq<nat>, w: seq<nat>)
    requires Proportional(v, w)
    ensures Proportional(w, v)
  {
    forall i, j | 0 <= i < |v| && 0 <= j < |v|
      ensures SameRatio(w[i], w[j], v[i], v[j])
    {
      assert SameRatio(v[i], v[j], w[i], w[j]);
    }
  }

  lemma RatioChain(ui: nat, uj: nat, vi: nat, vj: nat, wi: nat, wj: nat)
    requires SameRatio(ui, uj, vi, vj) && SameRatio(vi, vj, wi, wj) && 0 < vi && 0 < vj
    ensures SameRatio(ui, uj, wi, wj)
  {
    // ui vj = uj vi and vi wj = vj wi
    calc {
      (ui * wj) * (vi * vj);
      (ui * vj) * (vi * wj);
      (uj * vi) * (vj * wi);
      (uj * wi) * (vi * vj);
    }
    assert 0 < vi * vj;
    CancelFactor(ui * wj, uj * wi, vi * vj);
  }

  lemma ProportionalChain(u: seq<nat>, v: seq<nat>, w: seq<nat>)
    requires Proportional(u, v) && Proportional(v, w) && AllPositive(v)
    ensures Proportional(u, w)
  {
    forall i, j | 0 <= i < |v| && 0 <= j < |v|
      ensures SameRatio(u[i], u[j], w[i], w[j])
    {
      RatioChain(u[i], u[j], v[i], v[j], w[i], w[j]);
    }
  }

  // ---------------------------------------------------------------- normalisation

  function MaxScale(parsed: seq<Selection>): (m: nat)
    ensures forall i :: 0 <= i < |parsed| ==> DecimalOf(parsed[i]).scale <= m
  {
    if parsed == [] then 0
    else
      var rest, scale := MaxScale(parsed[..|parsed| - 1]), DecimalOf(parsed[|parsed| - 1]).scale;
      if scale > rest then scale else rest
  }

  /** A selection's number in units of 10^-top. */
  function Scaled(selection: Selection, top: nat): (v: nat)
    requires DecimalOf(selection).scale <= top
    ensures 0 < v
  {
    DecimalOf(selection).coefficient * Power10(top - DecimalOf(selection).scale)
  }

  function ScaledValues(parsed: seq<Selection>, top: nat): (r: seq<nat>)
    requires forall i :: 0 <= i < |parsed| ==> DecimalOf(parsed[i]).scale <= top
    ensures |r| == |parsed| && AllPositive(r)
  {
    seq(|parsed|, i requires 0 <= i < |parsed| => Scaled(parsed[i], top))
  }

  /** The least whole numbers in the ratios of the selections. */
  function Normalized(parsed: seq<Selection>): (r: seq<nat>)
    ensures |r| == |parsed|
  {
    Least(ScaledValues(parsed, MaxScale(parsed)))
  }

  /** What fits in 64 bits, and zero for what does not. */
  function Fitted(weight: nat): Uint64 {
    if weight < UINT64_LIMIT then weight else 0
  }

  method AnyInvalid(parsed: seq<Selection>) returns (invalid: bool)
    ensures invalid == (InvalidText in parsed)
  {
    for index := 0 to |parsed|
      invariant InvalidText !in parsed[..index]
    {
      if parsed[index].InvalidText? {
        return true;
      }
    }
    return false;
  }

  method LargestScale(parsed: seq<Selection>) returns (maxScale: nat)
    ensures maxScale == MaxScale(parsed)
  {
    maxScale := 0;
    for index := 0 to |parsed|
      invariant maxScale == MaxScale(parsed[..index])
    {
      assert parsed[..index + 1][..index] == parsed[..index];
      if parsed[index].Weighted? && parsed[index].weight.scale > maxScale {
        maxScale := parsed[index].weight.scale;
      }
    }
    assert parsed[..|parsed|] == parsed;
  }

  method ScaleAll(parsed: seq<Selection>, maxScale: nat) returns (values: seq<nat>, divisor: nat)
    requires maxScale == MaxScale(parsed)
    ensures values == ScaledValues(parsed, maxScale) && divisor == Common(values)
  {
    values, divisor := [], 0;
    for index := 0 to |parsed|
      invariant |values| == index && divisor == Common(values)
      invariant forall i :: 0 <= i < index ==> values[i] == Scaled(parsed[i], maxScale)
    {
      var decimal := DecimalOf(parsed[index]);
      var value := decimal.coefficient * Power10(maxScale - decimal.scale);
      assert value == Scaled(parsed[index], maxScale);
      divisor := Gcd(divisor, value);
      assert (values + [value])[..index] == values;
      values := values + [value];
    }
  }

  method DivideAll(values: seq<nat>, divisor: nat) returns (result: seq<Uint64>)
    requires AllPositive(values) && divisor == Common(values)
    ensures |result| == |values| && forall i :: 0 <= i < |values| ==> result[i] == Fitted(Least(values)[i])
  {
    result := seq(|values|, i => 0);
    if values != [] {
      CommonIsPositive(values);
    }
    for index := 0 to |values|
      invariant |result| == |values|
      invariant forall i :: 0 <= i < index ==> result[i] == Fitted(Least(values)[i])
      invariant forall i :: index <= i < |values| ==> result[i] == 0
    {
      var weight := values[index] / divisor;
      assert weight == Least(values)[index];
      if weight < UINT64_LIMIT && weight > 0 {
        result := result[index := weight];
      }
    }
  }

  /** All zero when some text is invalid, else each least number that fits. */
  method NormalizeNetworkWeights(parsed: seq<Selection>) returns (result: seq<Uint64>)
    ensures |result| == |parsed|
    ensures InvalidText in parsed ==> forall i :: 0 <= i < |parsed| ==> result[i] == 0
    ensures InvalidText !in parsed ==> forall i :: 0 <= i < |parsed| ==> result[i] == Fitted(Normalized(parsed)[i])
  {
    var invalid := AnyInvalid(parsed);
    if invalid {
      return seq(|parsed|, i => 0);
    }
    var maxScale := LargestScale(parsed);
    var values, divisor := ScaleAll(parsed, maxScale);
    result := DivideAll(values, divisor);
  }

  // ---------------------------------------------------------------- what the weights mean

  function Numbers(parsed: seq<Selection>): (r: seq<real>)
    ensures |r| == |parsed|
  {
    seq(|parsed|, i requires 0 <= i < |parsed| => Value(parsed[i]))
  }

  /** The whole numbers stand in the exact ratios of the real numbers. */
  predicate ExactRatios(w: seq<nat>, numbers: seq<real>) {
    |w| == |numbers| && forall i, j :: 0 <= i < |w| && 0 <= j < |w| ==> ExactRatio(w[i], w[j], numbers[i], numbers[j])
  }

  predicate ExactRatio(wi: nat, wj: nat, ni: real, nj: real) {
    wi as real * nj == wj as real * ni
  }

  /** `value` is `number` counted in units of 1 / t. */
  predicate InUnits(value: nat, number: real, t: real) {
    value as real == number * t
  }

  predicate AllInUnits(values: seq<nat>, numbers: seq<real>, t: real) {
    t > 0.0 && |values| == |numbers| && forall i :: 0 <= i < |values| ==> InUnits(values[i], numbers[i], t)
  }

  lemma {:induction false} PowerSum(m: nat, n: nat)
    ensures Power10(m + n) == Power10(m) * Power10(n)
    decreases m
  {
    if m != 0 {
      PowerSum(m - 1, n);
      assert 10 * (Power10(m - 1) * Power10(n)) == (10 * Power10(m - 1)) * Power10(n);
    }
  }

  lemma RealProduct(a: int, b: int)
    ensures (a * b) as real == a as real * b as real
  {
  }

  lemma Regroup(c: real, p: real, f: real, v: real)
    requires v * p == c
    ensures c * f == v * (f * p)
  {
  }

  lemma QuotientTimes(c: real, p: real)
    requires p > 0.0
    ensures (c / p) * p == c
  {
  }

  lemma ScaledCore(c: int, f: int, p: int, v: real)
    requires v * p as real == c as real
    ensures (c * f) as real == v * (f * p) as real
  {
    RealProduct(c, f);
    RealProduct(f, p);
    Regroup(c as real, p as real, f as real, v);
  }

  lemma ValueInUnits(selection: Selection)
    ensures InUnits(DecimalOf(selection).coefficient, Value(selection), Power10(DecimalOf(selection).scale) as real)
  {
    QuotientTimes(DecimalOf(selection).coefficient as real, Power10(DecimalOf(selection).scale) as real);
  }

  lemma {:induction false} ScaledIsProduct(selection: Selection, top: nat)
    requires DecimalOf(selection).scale <= top
    ensures IsProduct(Scaled(selection, top), DecimalOf(selection).coefficient, Power10(top - DecimalOf(selection).scale))
    ensures IsProduct(Power10(top), Power10(top - DecimalOf(selection).scale), Power10(DecimalOf(selection).scale))
  {
    PowerSum(top - DecimalOf(selection).scale, DecimalOf(selection).scale);
  }

  lemma CoreInUnits(scaled: nat, c: nat, f: nat, p: nat, t: nat, v: real)
    requires InUnits(c, v, p as real) && IsProduct(t, f, p) && IsProduct(scaled, c, f)
    ensures InUnits(scaled, v, t as real)
  {
    ScaledCore(c, f, p, v);
  }

  /** A scaled number is the number times ten to the scale. */
  lemma {:induction false} ScaledIsExact(selection: Selection, top: nat)
    requires DecimalOf(selection).scale <= top
    ensures InUnits(Scaled(selection, top), Value(selection), Power10(top) as real)
  {
    var scale := DecimalOf(selection).scale;
    ScaledIsProduct(selection, top);
    ValueInUnits(selection);
    CoreInUnits(Scaled(selection, top), DecimalOf(selection).coefficient, Power10(top - scale), Power10(scale),
                Power10(top), Value(selection));
  }

  lemma {:induction false} ScaledInUnits(parsed: seq<Selection>, top: nat)
    requires forall i :: 0 <= i < |parsed| ==> DecimalOf(parsed[i]).scale <= top
    ensures AllInUnits(ScaledValues(parsed, top), Numbers(parsed), Power10(top) as real)
  {
    forall i | 0 <= i < |parsed|
      ensures InUnits(ScaledValues(parsed, top)[i], Numbers(parsed)[i], Power10(top) as real)
    {
      ScaledIsExact(parsed[i], top);
    }
  }

  lemma CancelReal(x: real, y: real, t: real)
    requires t > 0.0
    ensures x * t == y * t <==> x == y
  {
    if x * t == y * t {
      assert (x - y) * t == 0.0;
    }
  }

  lemma MoveUnit(w: real, n: real, t: real)
    ensures w * (n * t) == (w * n) * t
  {
  }

  lemma RatioMeaning(wi: nat, wj: nat, vi: nat, vj: nat, ni: real, nj: real, t: real)
    requires t > 0.0 && InUnits(vi, ni, t) && InUnits(vj, nj, t)
    ensures SameRatio(wi, wj, vi, vj) <==> ExactRatio(wi, wj, ni, nj)
  {
    RealProduct(wi, vj);
    RealProduct(wj, vi);
    MoveUnit(wi as real, nj, t);
    MoveUnit(wj as real, ni, t);
    CancelReal(wi as real * nj, wj as real * ni, t);
  }

  lemma RatiosMeaning(w: seq<nat>, values: seq<nat>, numbers: seq<real>, t: real)
    requires AllInUnits(values, numbers, t)
    ensures ExactRatios(w, numbers) <==> Proportional(w, values)
  {
    forall i, j | 0 <= i < |w| && 0 <= j < |w| && |w| == |values|
      ensures SameRatio(w[i], w[j], values[i], values[j]) <==> ExactRatio(w[i], w[j], numbers[i], numbers[j])
    {
      assert InUnits(values[i], numbers[i], t) && InUnits(values[j], numbers[j], t);
      RatioMeaning(w[i], w[j], values[i], values[j], numbers[i], numbers[j], t);
    }
  }

  /** Exact ratios are proportions of the scaled values. */
  lemma {:induction false} ParsedRatios(parsed: seq<Selection>, w: seq<nat>, values: seq<nat>)
    requires values == ScaledValues(parsed, MaxScale(parsed))
    ensures ExactRatios(w, Numbers(parsed)) <==> Proportional(w, values)
  {
    ScaledInUnits(parsed, MaxScale(parsed));
    RatiosMeaning(w, values, Numbers(parsed), Power10(MaxScale(parsed)) as real);
  }

  /** Ratios are exact, and every other positive answer is a whole multiple: the least one, and unique as such. */
  lemma NormalizedIsLeast(parsed: seq<Selection>, w: seq<nat>) returns (k: nat)
    requires parsed != []
    ensures AllPositive(Normalized(parsed)) && ExactRatios(Normalized(parsed), Numbers(parsed))
    ensures AllPositive(w) && ExactRatios(w, Numbers(parsed)) ==> 0 < k && IsMultiple(w, k, Normalized(parsed))
  {
    var values := ScaledValues(parsed, MaxScale(parsed));
    LeastIsProportional(values);
    ParsedRatios(parsed, Least(values), values);
    ParsedRatios(parsed, w, values);
    k := 1;
    if AllPositive(w) && Proportional(w, values) {
      k := EveryAnswerIsAMultiple(values, w);
    }
  }

  lemma PartRatio(d: nat, x: nat, y: nat, qx: nat, qy: nat, vx: nat, vy: nat)
    requires IsProduct(qx, d, x) && IsProduct(qy, d, y) && 0 < qx && SameRatio(qx, qy, vx, vy)
    ensures 0 < d && 0 < x && SameRatio(x, y, vx, vy)
  {
    assert d != 0 && x != 0;
    assert (x * vy) * d == (d * x) * vy;
    assert (y * vx) * d == (d * y) * vx;
    CancelFactor(x * vy, y * vx, d);
  }

  lemma PartsAreProportional(d: nat, parts: seq<nat>, q: seq<nat>, values: seq<nat>)
    requires IsMultiple(q, d, parts) && AllPositive(q) && Proportional(q, values)
    ensures AllPositive(parts) && Proportional(parts, values)
  {
    forall i, j | 0 <= i < |q| && 0 <= j < |q|
      ensures 0 < parts[i] && SameRatio(parts[i], parts[j], values[i], values[j])
    {
      assert IsProduct(q[i], d, parts[i]) && IsProduct(q[j], d, parts[j]) && SameRatio(q[i], q[j], values[i], values[j]);
      PartRatio(d, parts[i], parts[j], q[i], q[j], values[i], values[j]);
    }
  }

  lemma {:induction false} OnlyUnit(q: nat, d: nat, part: nat, k: nat)
    requires 0 < q && 0 < k && IsProduct(q, d, part) && IsProduct(part, k, q)
    ensures d == 1
  {
    assert 0 < d;
    EachOther(part, q, k, d);
    Unit(d, q);
  }

  /** No number above one divides all weights. */
  lemma NormalizedIsPrimitive(parsed: seq<Selection>, d: nat, parts: seq<nat>)
    requires parsed != [] && IsMultiple(Normalized(parsed), d, parts)
    ensures d == 1
  {
    var values := ScaledValues(parsed, MaxScale(parsed));
    var q := Least(values);
    LeastIsProportional(values);
    PartsAreProportional(d, parts, q, values);
    var k := EveryAnswerIsAMultiple(values, parts);
    assert IsProduct(q[0], d, parts[0]) && IsProduct(parts[0], k, q[0]);
    OnlyUnit(q[0], d, parts[0], k);
  }

  predicate IsFactor(other: real, factor: real, number: real) {
    other == factor * number
  }

  lemma SameFactor(wi: nat, wj: nat, ni: real, nj: real, oi: real, oj: real, factor: real)
    requires ExactRatio(wi, wj, ni, nj) && IsFactor(oi, factor, ni) && IsFactor(oj, factor, nj)
    ensures ExactRatio(wi, wj, oi, oj)
  {
    var x, y := wi as real, wj as real;
    assert x * (factor * nj) == factor * (x * nj);
    assert y * (factor * ni) == factor * (y * ni);
  }

  lemma FactorKeepsRatios(w: seq<nat>, numbers: seq<real>, other: seq<real>, factor: real)
    requires |numbers| == |other| && ExactRatios(w, numbers)
    requires forall i :: 0 <= i < |other| ==> IsFactor(other[i], factor, numbers[i])
    ensures ExactRatios(w, other)
  {
    forall i, j | 0 <= i < |w| && 0 <= j < |w|
      ensures ExactRatio(w[i], w[j], other[i], other[j])
    {
      assert ExactRatio(w[i], w[j], numbers[i], numbers[j]);
      assert IsFactor(other[i], factor, numbers[i]) && IsFactor(other[j], factor, numbers[j]);
      SameFactor(w[i], w[j], numbers[i], numbers[j], other[i], other[j], factor);
    }
  }

  /** Numbers that differ by one common factor give the same weights: units and spelling do not matter. */
  lemma {:induction false} CommonFactorIsIgnored(parsed: seq<Selection>, other: seq<Selection>, factor: real)
    requires |parsed| == |other| && factor > 0.0
    requires forall i :: 0 <= i < |parsed| ==> IsFactor(Numbers(other)[i], factor, Numbers(parsed)[i])
    ensures Normalized(other) == Normalized(parsed)
  {
    var v, w := ScaledValues(parsed, MaxScale(parsed)), ScaledValues(other, MaxScale(other));
    var q := Least(v);
    LeastIsProportional(v);
    ParsedRatios(parsed, q, v);
    FactorKeepsRatios(q, Numbers(parsed), Numbers(other), factor);
    ParsedRatios(other, q, w);
    ProportionalBack(q, v);
    ProportionalChain(v, q, w);
    SameRatiosSameLeast(v, w);
  }

  // ---------------------------------------------------------------- from texts to weights

  function Selections(values: seq<string>): (r: seq<Selection>)
    ensures |r| == |values|
  {
    seq(|values|, i requires 0 <= i < |values| => ParseSelection(values[i]))
  }

  /** The weights of the network arguments of a command line. */
  method ParseNetworkSelections(values: seq<string>) returns (weights: seq<Uint64>)
    ensures |weights| == |values|
    ensures InvalidText in Selections(values) ==> forall i :: 0 <= i < |values| ==> weights[i] == 0
    ensures InvalidText !in Selections(values) ==>
              forall i :: 0 <= i < |values| ==> weights[i] == Fitted(Normalized(Selections(values))[i])
  {
    var parsed: seq<Selection> := [];
    for index := 0 to |values|
      invariant |parsed| == index && parsed == Selections(values)[..index]
    {
      parsed := parsed + [ParseSelection(values[index])];
    }
    assert parsed == Selections(values);
    weights := NormalizeNetworkWeights(parsed);
  }

  lemma SelectionOfText(address: string, weight: string)
    requires '@' !in address
    ensures ParseSelection(address + "@" + weight)
         == match ParseWeight(weight) case None => InvalidText case Some(decimal) => Weighted(decimal)
  {
    CutAt(address, weight, '@');
  }

  lemma SameNumbersSameWeights(parsed: seq<Selection>, other: seq<Selection>)
    requires Numbers(parsed) == Numbers(other)
    ensures Normalized(parsed) == Normalized(other)
  {
    forall i | 0 <= i < |parsed| ensures IsFactor(Numbers(other)[i], 1.0, Numbers(parsed)[i]) {
    }
    CommonFactorIsIgnored(parsed, other, 1.0);
  }

  /** A zero at the end of one decimal changes no weight of any selection. */
  lemma TrailingZeroChangesNoWeight(values: seq<string>, i: nat, address: string, whole: string, fraction: string)
    requires i < |values| && '@' !in address && AsciiDigits(whole) && AsciiDigits(fraction)
    requires values[i] == address + "@" + (whole + "." + fraction)
    ensures var longer := values[i := address + "@" + (whole + "." + (fraction + "0"))];
            && (InvalidText in Selections(longer) <==> InvalidText in Selections(values))
            && Normalized(Selections(longer)) == Normalized(Selections(values))
  {
    var longer := values[i := address + "@" + (whole + "." + (fraction + "0"))];
    SelectionOfText(address, whole + "." + fraction);
    SelectionOfText(address, whole + "." + (fraction + "0"));
    TrailingZeroIsIgnored(whole, fraction);
    var before, after := Selections(values), Selections(longer);
    assert before[i].InvalidText? <==> after[i].InvalidText?;
    forall k | 0 <= k < |values| ensures (before[k] == InvalidText <==> after[k] == InvalidText) && Numbers(before)[k] == Numbers(after)[k] {
    }
    assert Numbers(before) == Numbers(after);
    SameNumbersSameWeights(after, before);
  }
}
