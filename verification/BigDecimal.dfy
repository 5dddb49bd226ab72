/** Exact decimal arithmetic (icecreme/bigdecimal.c): a mantissa and a decimal scale.  GMP integers are int; a scale
    is a C int, whose overflow is an outcome of its own. */
module BigDecimal {
  import opened Util
  import opened Products
  import opened Decimal

  datatype BigDecimal = BigDecimal(mantissa: int, scale: nat)

  const BD_DIV_EXTRA_DIGITS: nat := 20

  // The scale is one that the field can hold.
  predicate Stored(x: BigDecimal) {
    x.scale <= INT_MAX
  }

  function Pow10(n: nat): (r: nat)
    ensures r > 0
  {
    if n == 0 then 1 else 10 * Pow10(n - 1)
  }

  // What a BigDecimal stands for.
  function Val(x: BigDecimal): real {
    x.mantissa as real / Pow10(x.scale) as real
  }

  function AbsReal(r: real): real {
    if r < 0.0 then -r else r
  }

  // ---- the operations

  function MaxScale(a: BigDecimal, b: BigDecimal): nat {
    if a.scale > b.scale then a.scale else b.scale
  }

  // bd_align: the mantissa at a scale that is not smaller.
  function AtScale(x: BigDecimal, scale: nat): int
    requires x.scale <= scale
  {
    if x.scale < scale then x.mantissa * Pow10(scale - x.scale) else x.mantissa
  }

  function Add(a: BigDecimal, b: BigDecimal): BigDecimal {
    var s := MaxScale(a, b);
    BigDecimal(AtScale(a, s) + AtScale(b, s), s)
  }

  function Sub(a: BigDecimal, b: BigDecimal): BigDecimal {
    var s := MaxScale(a, b);
    BigDecimal(AtScale(a, s) - AtScale(b, s), s)
  }

  function ExactProduct(a: BigDecimal, b: BigDecimal): BigDecimal {
    BigDecimal(a.mantissa * b.mantissa, a.scale + b.scale)
  }

  function Mul(a: BigDecimal, b: BigDecimal): Outcome<BigDecimal> {
    if a.scale + b.scale > INT_MAX then Overflows else Returns(ExactProduct(a, b))
  }

  function Compare(a: BigDecimal, b: BigDecimal): int {
    var s := MaxScale(a, b);
    var na, nb := AtScale(a, s), AtScale(b, s);
    if na < nb then -1 else if na > nb then 1 else 0
  }

  // mpz_tdiv_qr: the quotient is cut off toward zero.
  function TruncDiv(n: int, d: int): (int, int)
    requires d != 0
  {
    var q: int := if (n < 0) == (d < 0) then Quot(Abs(n), Abs(d)) else 0 - Quot(Abs(n), Abs(d));
    (q, n - Product(q, d))
  }

  // Half away from zero.
  function RoundDiv(n: int, d: int): int
    requires d != 0
  {
    var (q, r) := TruncDiv(n, d);
    if 2 * Abs(r) >= Abs(d) then (if n == 0 || (n < 0) == (d < 0) then q + 1 else q - 1) else q
  }

  function Trim(m: int, scale: nat): BigDecimal
    decreases scale
  {
    if scale > 0 && TruncDiv(m, 10).1 == 0 then Trim(TruncDiv(m, 10).0, scale - 1) else BigDecimal(m, scale)
  }

  function WorkingScale(a: BigDecimal, b: BigDecimal): nat {
    MaxScale(a, b) + BD_DIV_EXTRA_DIGITS
  }

  function Numerator(a: BigDecimal, b: BigDecimal): int {
    a.mantissa * Pow10(b.scale - a.scale + WorkingScale(a, b))
  }

  function Quotient(a: BigDecimal, b: BigDecimal): BigDecimal
    requires b.mantissa != 0
  {
    Trim(RoundDiv(Numerator(a, b), b.mantissa), WorkingScale(a, b))
  }

  function Div(a: BigDecimal, b: BigDecimal): Outcome<BigDecimal> {
    if b.mantissa == 0 then Aborts
    else if WorkingScale(a, b) > INT_MAX || b.scale - a.scale + WorkingScale(a, b) > INT_MAX then Overflows
    else Returns(Quotient(a, b))
  }

  // ---- real arithmetic

  // Products under a name, so that the proofs below can treat them as atoms.
  function Times(x: real, y: real): real {
    x * y
  }

  lemma TimesAssociates(x: real, y: real, z: real)
    ensures Times(Times(x, y), z) == Times(x, Times(y, z))
  {
    assert (x * y) * z == x * (y * z);
  }

  lemma TimesCommutes(x: real, y: real)
    ensures Times(x, y) == Times(y, x)
  {
  }

  lemma TimesDistributes(x: real, y: real, p: real)
    ensures Times(x, p) + Times(y, p) == Times(x + y, p) && Times(x, p) - Times(y, p) == Times(x - y, p)
  {
    assert x * p + y * p == (x + y) * p;
    assert x * p - y * p == (x - y) * p;
  }

  lemma TimesOrder(x: real, y: real, p: real)
    requires p > 0.0
    ensures x < y <==> Times(x, p) < Times(y, p)
    ensures x == y <==> Times(x, p) == Times(y, p)
  {
    if x < y {
      assert (y - x) * p > 0.0;
    } else if x > y {
      assert (x - y) * p > 0.0;
    }
  }

  lemma TimesRatio(x: real, y: real)
    requires y != 0.0
    ensures Times(x / y, y) == x
  {
  }

  lemma TimesCast(a: int, b: int)
    ensures (a * b) as real == Times(a as real, b as real)
  {
  }

  function PowReal(n: nat): (r: real)
    ensures r > 0.0
  {
    Pow10(n) as real
  }

  lemma {:induction false} PowAdd(m: nat, n: nat)
    ensures PowReal(m + n) == Times(PowReal(m), PowReal(n))
  {
    if m > 0 {
      PowAdd(m - 1, n);
      var p, q := PowReal(m - 1), PowReal(n);
      assert PowReal(m + n) == 10.0 * PowReal(m - 1 + n);
      assert PowReal(m) == 10.0 * p;
      assert 10.0 * (p * q) == (10.0 * p) * q;
    }
  }

  // ---- values and mantissas

  lemma ValueTimes(x: BigDecimal)
    ensures Times(Val(x), PowReal(x.scale)) == x.mantissa as real
  {
    TimesRatio(x.mantissa as real, PowReal(x.scale));
  }

  lemma ValueFrom(x: BigDecimal, v: real)
    requires x.mantissa as real == Times(v, PowReal(x.scale))
    ensures Val(x) == v
  {
    ValueTimes(x);
    hide Val, Times, PowReal;
    TimesOrder(Val(x), v, PowReal(x.scale));
  }

  lemma AtScaleProduct(x: BigDecimal, scale: nat)
    requires x.scale <= scale
    ensures AtScale(x, scale) as real == Times(x.mantissa as real, PowReal(scale - x.scale))
  {
    TimesCast(x.mantissa, Pow10(scale - x.scale));
    hide Times;
    if x.scale == scale {
      assert Pow10(0) == 1;
      OneTimes(x.mantissa);
    }
  }

  lemma OneTimes(m: int)
    ensures m as real == Times(m as real, 1.0)
  {
  }

  // The mantissa at a larger scale stands for the same value.
  lemma AtScaleValue(x: BigDecimal, scale: nat)
    requires x.scale <= scale
    ensures AtScale(x, scale) as real == Times(Val(x), PowReal(scale))
  {
    hide *;
    AtScaleProduct(x, scale);
    ValueTimes(x);
    PowAdd(x.scale, scale - x.scale);
    TimesAssociates(Val(x), PowReal(x.scale), PowReal(scale - x.scale));
  }

  // ---- addition, subtraction, multiplication and comparison are exact

  lemma AddIsExact(a: BigDecimal, b: BigDecimal)
    ensures Val(Add(a, b)) == Val(a) + Val(b)
    ensures Val(Sub(a, b)) == Val(a) - Val(b)
    ensures Add(a, b).scale == Sub(a, b).scale == if a.scale < b.scale then b.scale else a.scale
  {
    var s := MaxScale(a, b);
    assert a.scale <= s && b.scale <= s;
    assert Add(a, b) == BigDecimal(AtScale(a, s) + AtScale(b, s), s);
    assert Sub(a, b) == BigDecimal(AtScale(a, s) - AtScale(b, s), s);
    hide *;
    AtScaleValue(a, s);
    AtScaleValue(b, s);
    TimesDistributes(Val(a), Val(b), PowReal(s));
    ValueFrom(Add(a, b), Val(a) + Val(b));
    ValueFrom(Sub(a, b), Val(a) - Val(b));
  }

  lemma ProductMantissa(a: BigDecimal, b: BigDecimal)
    ensures ExactProduct(a, b).mantissa as real == Times(a.mantissa as real, b.mantissa as real)
    ensures ExactProduct(a, b).scale == a.scale + b.scale
  {
  }

  lemma SwapMiddle(x: real, p: real, y: real, q: real)
    ensures Times(Times(x, p), Times(y, q)) == Times(Times(x, y), Times(p, q))
  {
    hide *;
    TimesAssociates(x, p, Times(y, q));
    TimesAssociates(p, y, q);
    TimesCommutes(p, y);
    TimesAssociates(y, p, q);
    TimesAssociates(x, y, Times(p, q));
  }

  lemma ProductValue(a: BigDecimal, b: BigDecimal)
    ensures Val(ExactProduct(a, b)) == Times(Val(a), Val(b))
  {
    hide *;
    ProductMantissa(a, b);
    ValueTimes(a);
    ValueTimes(b);
    PowAdd(a.scale, b.scale);
    SwapMiddle(Val(a), PowReal(a.scale), Val(b), PowReal(b.scale));
    ValueFrom(ExactProduct(a, b), Times(Val(a), Val(b)));
  }

  // The product is exact, and there is one exactly when the sum of the scales is an int.
  lemma MulIsExact(a: BigDecimal, b: BigDecimal)
    ensures Mul(a, b).Returns? <==> a.scale + b.scale <= INT_MAX
    ensures Mul(a, b).Returns? ==> Stored(Mul(a, b).value) && Val(Mul(a, b).value) == Val(a) * Val(b)
    ensures Mul(a, b).Returns? ==> Mul(a, b).value.scale == a.scale + b.scale
    ensures !Mul(a, b).Returns? ==> Mul(a, b) == Overflows
  {
    ProductValue(a, b);
    hide Val, ExactProduct;
    assert ExactProduct(a, b).scale == a.scale + b.scale by {
      ProductMantissa(a, b);
    }
  }

  // ---- squaring 0.1 again and again

  function TwoTo(n: nat): (r: nat)
    ensures r > 0
  {
    if n == 0 then 1 else 2 * TwoTo(n - 1)
  }

  function Squared(n: nat): Outcome<BigDecimal> {
    if n == 0 then Returns(BigDecimal(1, 1))
    else
      var x := Squared(n - 1);
      if x.Returns? then Mul(x.value, x.value) else x
  }

  // A number as small as a unit at some scale needs at least that scale.
  lemma UnitNeedsItsScale(x: BigDecimal, scale: nat)
    requires Val(x) == Val(BigDecimal(1, scale))
    ensures x.scale >= scale
  {
    if x.scale < scale {
      AtScaleValue(x, scale);
      ValueTimes(BigDecimal(1, scale));
      assert AtScale(x, scale) == x.mantissa * Pow10(scale - x.scale);
      assert Pow10(scale - x.scale) == 10 * Pow10(scale - x.scale - 1);
      hide Val, Times, PowReal, Pow10, AtScale;
      NotATenth(x.mantissa, Pow10(scale - x.scale - 1));
    }
  }

  lemma NotATenth(m: int, p: int)
    ensures m * (10 * p) != 1
  {
    assert m * (10 * p) == 10 * (m * p);
  }

  lemma FiveDoublings(n: nat)
    ensures TwoTo(n + 5) == 32 * TwoTo(n)
  {
    assert TwoTo(n + 1) == 2 * TwoTo(n);
    assert TwoTo(n + 2) == 2 * TwoTo(n + 1);
    assert TwoTo(n + 3) == 2 * TwoTo(n + 2);
    assert TwoTo(n + 4) == 2 * TwoTo(n + 3);
  }

  lemma TenDoublings(n: nat)
    ensures TwoTo(n + 10) == 1024 * TwoTo(n)
  {
    FiveDoublings(n);
    FiveDoublings(n + 5);
  }

  lemma TwoToThirty()
    ensures TwoTo(30) == 0x4000_0000
  {
    TenDoublings(0);
    TenDoublings(10);
    TenDoublings(20);
    assert TwoTo(0) == 1;
    hide TwoTo;
  }

  lemma {:induction false} TwoToAscends(m: nat, n: nat)
    requires m <= n
    ensures TwoTo(m) <= TwoTo(n)
  {
    if m < n {
      TwoToAscends(m, n - 1);
    }
  }

  lemma {:induction false} SquaredIs(n: nat)
    requires n <= 30
    ensures Squared(n) == Returns(BigDecimal(1, TwoTo(n)))
  {
    if n > 0 {
      SquaredIs(n - 1);
      TwoToThirty();
      TwoToAscends(n, 30);
      assert Squared(n) == Mul(BigDecimal(1, TwoTo(n - 1)), BigDecimal(1, TwoTo(n - 1)));
      assert TwoTo(n) == TwoTo(n - 1) + TwoTo(n - 1);
      hide TwoTo, Squared;
    }
  }

  // 0.1 can be squared thirty times; the next square overflows.
  lemma {:induction false} SquaringOverflows(n: nat)
    ensures Squared(n).Returns? <==> n <= 30
    ensures n == 30 ==> Squared(n) == Returns(BigDecimal(1, 0x4000_0000))
  {
    if n <= 30 {
      SquaredIs(n);
      TwoToThirty();
      hide TwoTo;
    } else {
      SquaringOverflows(n - 1);
    }
  }

  // The square of 10^-(2^30) overflows, and no scale that is an int could express it.
  lemma OverflowingProduct(x: BigDecimal, y: BigDecimal)
    requires x == BigDecimal(1, 0x4000_0000) && Stored(y)
    ensures Mul(x, x) == Overflows && Val(y) != Val(x) * Val(x)
  {
    var square := BigDecimal(1, 0x8000_0000);
    assert ExactProduct(x, x) == square;
    hide Val, Pow10;
    ProductValue(x, x);
    if Val(y) == Val(square) {
      UnitNeedsItsScale(y, 0x8000_0000);
    }
  }

  lemma CompareIsOrder(a: BigDecimal, b: BigDecimal)
    ensures Compare(a, b) == -1 <==> Val(a) < Val(b)
    ensures Compare(a, b) == 1 <==> Val(a) > Val(b)
    ensures Compare(a, b) == 0 <==> Val(a) == Val(b)
  {
    var s := MaxScale(a, b);
    assert a.scale <= s && b.scale <= s;
    assert Compare(a, b)
      == if AtScale(a, s) < AtScale(b, s) then -1 else if AtScale(a, s) > AtScale(b, s) then 1 else 0;
    hide *;
    AtScaleValue(a, s);
    AtScaleValue(b, s);
    TimesOrder(Val(a), Val(b), PowReal(s));
    TimesOrder(Val(b), Val(a), PowReal(s));
  }

  // ---- rounding division of integers

  lemma TruncDivParts(n: int, d: int)
    requires d != 0
    ensures TruncDiv(n, d).1 == n - Product(TruncDiv(n, d).0, d)
    ensures Abs(TruncDiv(n, d).1) < Abs(d)
    ensures TruncDiv(n, d).1 != 0 ==> n != 0 && (TruncDiv(n, d).1 < 0) == (n < 0)
  {
    DivMod(Abs(n), Abs(d));
    SignProducts(Quot(Abs(n), Abs(d)), Abs(d));
    hide Product, Quot;
  }

  lemma Step(q: int, d: int)
    ensures Product(q + 1, d) == Product(q, d) + d && Product(q - 1, d) == Product(q, d) - d
  {
  }

  // The nearest integer to n / d, and of two equally near the one farther from zero.
  lemma RoundDivNearest(n: int, d: int)
    requires d != 0
    ensures var p := Product(RoundDiv(n, d), d);
      && 2 * Abs(p - n) <= Abs(d)
      && (2 * Abs(p - n) == Abs(d) ==> Abs(p) > Abs(n))
  {
    var q, r := TruncDiv(n, d).0, TruncDiv(n, d).1;
    TruncDivParts(n, d);
    Step(q, d);
    assert RoundDiv(n, d)
      == if 2 * Abs(r) >= Abs(d) then (if n == 0 || (n < 0) == (d < 0) then q + 1 else q - 1) else q;
    hide TruncDiv, Product, RoundDiv;
  }

  // It is exact on multiples.
  lemma RoundDivExact(n: int, d: int, k: int)
    requires d != 0 && n == Product(k, d)
    ensures RoundDiv(n, d) == k
  {
    RoundDivNearest(n, d);
    var q := RoundDiv(n, d);
    ProductDistributes(q, k, d);
    hide Product, RoundDiv;
    if 2 * Abs(Product(q - k, d)) == Abs(d) {
      SmallMultiple(q - k, d);
      ZeroProduct(d);
    }
    SmallMultiple(q - k, d);
  }

  lemma ZeroProduct(d: int)
    ensures Product(0, d) == 0
  {
  }

  // ---- trimming

  lemma TrimStep(m: int)
    requires TruncDiv(m, 10).1 == 0
    ensures m == 10 * TruncDiv(m, 10).0
  {
  }

  // Trimming keeps the value and leaves scale 0 or a last digit that is not zero.
  lemma {:induction false} TrimKeepsValue(m: int, scale: nat)
    ensures Val(Trim(m, scale)) == Val(BigDecimal(m, scale))
    ensures Trim(m, scale).scale == 0 || Trim(m, scale).mantissa % 10 != 0
    ensures Trim(m, scale).scale <= scale
    decreases scale
  {
    if scale > 0 && TruncDiv(m, 10).1 == 0 {
      var q := TruncDiv(m, 10).0;
      TrimStep(m);
      TrimKeepsValue(q, scale - 1);
      TenTimes(q, scale);
    } else {
      NotTrimmed(m);
    }
  }

  lemma NotTrimmed(m: int)
    ensures m % 10 == 0 ==> TruncDiv(m, 10).1 == 0
  {
    if m % 10 == 0 {
      var k := m / 10;
      TruncDivParts(m, 10);
      assert m == 10 * k;
      SmallMultiple(TruncDiv(m, 10).0 - k, 10);
    }
  }

  lemma TenTimes(q: int, scale: nat)
    requires scale > 0
    ensures Val(BigDecimal(10 * q, scale)) == Val(BigDecimal(q, scale - 1))
  {
    var x := BigDecimal(q, scale - 1);
    AtScaleValue(x, scale);
    assert Pow10(1) == 10;
    assert AtScale(x, scale) == 10 * q;
    hide Val, Times, PowReal, AtScale;
    ValueFrom(BigDecimal(10 * q, scale), Val(x));
  }

  // ---- division

  lemma ValueNonzero(b: BigDecimal)
    requires b.mantissa != 0
    ensures Val(b) != 0.0
  {
    ValueTimes(b);
  }

  lemma NumeratorProduct(a: BigDecimal, b: BigDecimal)
    ensures b.scale - a.scale + WorkingScale(a, b) >= 0
    ensures Numerator(a, b) as real == Times(a.mantissa as real, PowReal(b.scale - a.scale + WorkingScale(a, b)))
  {
    TimesCast(a.mantissa, Pow10(b.scale - a.scale + WorkingScale(a, b)));
  }

  // The numerator is the true quotient at the working scale, times the divisor.
  lemma NumeratorIs(a: BigDecimal, b: BigDecimal, w: real)
    requires Times(w, Val(b)) == Val(a)
    ensures Numerator(a, b) as real == Times(Times(w, PowReal(WorkingScale(a, b))), b.mantissa as real)
  {
    hide *;
    var s := WorkingScale(a, b);
    NumeratorProduct(a, b);
    var e := b.scale - a.scale + s;
    ValueTimes(a);
    ValueTimes(b);
    PowAdd(a.scale, e);
    PowAdd(s, b.scale);
    TimesAssociates(Val(a), PowReal(a.scale), PowReal(e));
    SwapMiddle(w, PowReal(s), Val(b), PowReal(b.scale));
  }

  // The rounding of integers, seen in the reals.
  lemma RoundingError(n: int, d: int, q: int, x: real)
    requires d != 0 && n as real == Times(x, d as real)
    requires 2 * Abs(Product(q, d) - n) <= Abs(d)
    requires 2 * Abs(Product(q, d) - n) == Abs(d) ==> Abs(Product(q, d)) > Abs(n)
    ensures 2.0 * AbsReal(q as real - x) <= 1.0
    ensures 2.0 * AbsReal(q as real - x) == 1.0 ==> AbsReal(q as real) > AbsReal(x)
  {
    var y := AbsReal(d as real);
    TimesCast(q, d);
    assert Product(q, d) as real == Times(q as real, d as real);
    TimesDistributes(q as real, x, d as real);
    AbsTimes(q as real - x, d as real);
    AbsTimes(q as real, d as real);
    AbsTimes(x, d as real);
    AbsCast(Product(q, d) - n);
    AbsCast(Product(q, d));
    AbsCast(n);
    AbsCast(d);
    HalfTimes(AbsReal(q as real - x), y);
    hide Times, Product, Abs, AbsReal;
    TimesOrder(AbsReal(x), AbsReal(q as real), y);
  }

  lemma AbsTimes(x: real, y: real)
    ensures AbsReal(Times(x, y)) == Times(AbsReal(x), AbsReal(y))
  {
    if x < 0.0 {
      assert (-x) * y == -(x * y);
      if y < 0.0 {
        assert x * y == (-x) * (-y) >= 0.0;
      } else {
        assert (-x) * y >= 0.0;
      }
    } else if y < 0.0 {
      assert x * (-y) == -(x * y) && x * (-y) >= 0.0;
    } else {
      assert x * y >= 0.0;
    }
  }

  lemma AbsCast(i: int)
    ensures AbsReal(i as real) == Abs(i) as real
  {
  }

  lemma HalfTimes(x: real, y: real)
    requires y > 0.0
    ensures 2.0 * Times(x, y) <= y <==> 2.0 * x <= 1.0
    ensures 2.0 * Times(x, y) == y <==> 2.0 * x == 1.0
  {
    TimesOrder(2.0 * x, 1.0, y);
    TimesOrder(1.0, 2.0 * x, y);
    assert Times(2.0 * x, y) == 2.0 * Times(x, y);
  }

  lemma DivBeforeTrim(a: BigDecimal, b: BigDecimal, w: real) returns (q: int)
    requires b.mantissa != 0 && Times(w, Val(b)) == Val(a)
    ensures Val(Quotient(a, b)) == Val(BigDecimal(q, WorkingScale(a, b)))
    ensures q == RoundDiv(Numerator(a, b), b.mantissa)
    ensures var x := Times(w, PowReal(WorkingScale(a, b)));
      && 2.0 * AbsReal(q as real - x) <= 1.0
      && (2.0 * AbsReal(q as real - x) == 1.0 ==> AbsReal(q as real) > AbsReal(x))
  {
    q := RoundDiv(Numerator(a, b), b.mantissa);
    assert Quotient(a, b) == Trim(q, WorkingScale(a, b));
    hide *;
    TrimKeepsValue(q, WorkingScale(a, b));
    NumeratorIs(a, b, w);
    RoundDivNearest(Numerator(a, b), b.mantissa);
    RoundingError(Numerator(a, b), b.mantissa, q, Times(w, PowReal(WorkingScale(a, b))));
  }

  lemma DivError(a: BigDecimal, b: BigDecimal, w: real)
    requires b.mantissa != 0 && Times(w, Val(b)) == Val(a)
    ensures var v := Val(Quotient(a, b));
      && 2.0 * Times(AbsReal(v - w), PowReal(WorkingScale(a, b))) <= 1.0
      && (2.0 * Times(AbsReal(v - w), PowReal(WorkingScale(a, b))) == 1.0 ==> AbsReal(v) > AbsReal(w))
  {
    assert AbsReal(PowReal(WorkingScale(a, b))) == PowReal(WorkingScale(a, b));
    hide *;
    var q := DivBeforeTrim(a, b, w);
    var v := Val(Quotient(a, b));
    var p := PowReal(WorkingScale(a, b));
    ValueTimes(BigDecimal(q, WorkingScale(a, b)));
    TimesDistributes(v, w, p);
    AbsTimes(v - w, p);
    AbsTimes(v, p);
    AbsTimes(w, p);
    TimesOrder(AbsReal(w), AbsReal(v), p);
  }

  // Main results on division.

  predicate ScalesAllowDiv(a: BigDecimal, b: BigDecimal) {
    a.scale + BD_DIV_EXTRA_DIGITS <= INT_MAX && 2 * b.scale - a.scale + BD_DIV_EXTRA_DIGITS <= INT_MAX
  }

  // Division by zero is refused.  The working scale and the exponent of the scaled dividend are ints exactly under the
  // condition on the scales.
  lemma DivFitsIff(a: BigDecimal, b: BigDecimal)
    ensures Div(a, b).Aborts? <==> Val(b) == 0.0
    ensures Div(a, b).Returns? <==> Val(b) != 0.0 && ScalesAllowDiv(a, b)
    ensures Div(a, b).Returns? ==> Div(a, b).value == Quotient(a, b) && Stored(Div(a, b).value)
  {
    if b.mantissa != 0 {
      ValueNonzero(b);
      TrimKeepsValue(RoundDiv(Numerator(a, b), b.mantissa), WorkingScale(a, b));
    }
    hide Numerator, RoundDiv, Trim, Pow10;
  }

  // Where it does not overflow, the quotient is off by at most half a unit at twenty digits beyond the larger scale,
  // and a tie goes away from zero.
  lemma DivIsNearest(a: BigDecimal, b: BigDecimal)
    ensures Div(a, b).Returns? <==> Val(b) != 0.0 && ScalesAllowDiv(a, b)
    ensures Div(a, b).Aborts? <==> Val(b) == 0.0
    ensures Div(a, b).Returns? ==>
      var error := AbsReal(Val(Div(a, b).value) - Val(a) / Val(b));
      var unit := 1.0 / PowReal(MaxScale(a, b) + 20);
      && 2.0 * error <= unit
      && (2.0 * error == unit ==> AbsReal(Val(Div(a, b).value)) > AbsReal(Val(a) / Val(b)))
  {
    DivFitsIff(a, b);
    if Div(a, b).Returns? {
      assert b.mantissa != 0;
      var w := Val(a) / Val(b);
      TimesRatio(Val(a), Val(b));
      DivError(a, b, w);
      var p := PowReal(MaxScale(a, b) + BD_DIV_EXTRA_DIGITS);
      assert p == PowReal(WorkingScale(a, b));
      hide Val, Times, PowReal, Div, Quotient;
      UnitTimes(AbsReal(Val(Quotient(a, b)) - w), p);
    }
  }

  // 1 divided by 10^-(2^30) overflows, though the quotient is a whole number.
  lemma OverflowingQuotient(a: BigDecimal, b: BigDecimal)
    requires a == BigDecimal(1, 0) && b == BigDecimal(1, 0x4000_0000)
    ensures Div(a, b) == Overflows && Stored(a) && Stored(b)
  {
  }

  lemma UnitTimes(x: real, p: real)
    requires p > 0.0
    ensures 2.0 * Times(x, p) <= 1.0 <==> 2.0 * x <= 1.0 / p
    ensures 2.0 * Times(x, p) == 1.0 <==> 2.0 * x == 1.0 / p
  {
    var u := 1.0 / p;
    TimesRatio(1.0, p);
    TimesOrder(2.0 * x, u, p);
    TimesOrder(u, 2.0 * x, p);
    assert Times(2.0 * x, p) == 2.0 * Times(x, p);
  }

  predicate IsDecimal(w: real, k: int, scale: nat) {
    w == Val(BigDecimal(k, scale))
  }

  // w is a decimal with so many digits after the point.
  ghost predicate Terminates(w: real, scale: nat) {
    exists k :: IsDecimal(w, k, scale)
  }

  // It is exact whenever some decimal of that scale is.
  lemma DivExactIff(a: BigDecimal, b: BigDecimal)
    requires Div(a, b).Returns?
    ensures Val(b) != 0.0
    ensures Val(Div(a, b).value) == Val(a) / Val(b)
      <==> Terminates(Val(a) / Val(b), MaxScale(a, b) + 20)
  {
    DivFitsIff(a, b);
    assert b.mantissa != 0;
    var w := Val(a) / Val(b);
    var s := WorkingScale(a, b);
    TimesRatio(Val(a), Val(b));
    assert s == MaxScale(a, b) + BD_DIV_EXTRA_DIGITS;
    hide *;
    var q := DivBeforeTrim(a, b, w);
    TerminatesBy(w, q, s);
    if Terminates(w, s) {
      var k := TerminatesAt(w, s);
      ExactQuotient(a, b, w, k);
    }
  }

  lemma TerminatesBy(w: real, k: int, scale: nat)
    ensures w == Val(BigDecimal(k, scale)) ==> Terminates(w, scale)
  {
    assert IsDecimal(w, k, scale) <==> w == Val(BigDecimal(k, scale));
  }

  lemma TerminatesAt(w: real, scale: nat) returns (k: int)
    requires Terminates(w, scale)
    ensures w == Val(BigDecimal(k, scale))
  {
    k :| IsDecimal(w, k, scale);
  }

  lemma ExactQuotient(a: BigDecimal, b: BigDecimal, w: real, k: int)
    requires b.mantissa != 0 && Times(w, Val(b)) == Val(a) && Val(BigDecimal(k, WorkingScale(a, b))) == w
    ensures RoundDiv(Numerator(a, b), b.mantissa) == k
  {
    hide *;
    NumeratorIs(a, b, w);
    ValueTimes(BigDecimal(k, WorkingScale(a, b)));
    ProductCast(k, b.mantissa);
    RoundDivExact(Numerator(a, b), b.mantissa, k);
  }

  lemma ProductCast(k: int, d: int)
    ensures Product(k, d) as real == Times(k as real, d as real)
  {
    TimesCast(k, d);
  }

  // The result never ends in a superfluous zero.
  lemma DivIsTrimmed(a: BigDecimal, b: BigDecimal)
    requires Div(a, b).Returns?
    ensures Div(a, b).value.scale == 0 || Div(a, b).value.mantissa % 10 != 0
  {
    TrimKeepsValue(RoundDiv(Numerator(a, b), b.mantissa), WorkingScale(a, b));
    hide Trim, RoundDiv, Numerator, WorkingScale, Val;
  }

  // ---- text

  const PLUS: byte := 43
  const DOT: byte := 46

  function Zeros(n: nat): (r: seq<byte>)
    ensures |r| == n
  {
    seq(n, i => ZERO)
  }

  function Padded(x: BigDecimal): (r: seq<byte>)
    ensures |r| > x.scale
  {
    var digits := Digits(Abs(x.mantissa));
    if x.scale + 1 > |digits| then Zeros(x.scale + 1 - |digits|) + digits else digits
  }

  function Sign(negative: bool): seq<byte> {
    if negative then [MINUS] else []
  }

  function Pointed(whole: seq<byte>, fraction: seq<byte>): seq<byte> {
    whole + [DOT] + fraction
  }

  // At least one digit on each side of the point.
  function ToString(x: BigDecimal): seq<byte> {
    var p := Padded(x);
    Sign(x.mantissa < 0) + Pointed(p[..|p| - x.scale], if x.scale > 0 then p[|p| - x.scale..] else [ZERO])
  }

  // The digits, without a sign: some before the point, some after it.
  function ParseUnsigned(s: seq<byte>): Option<(nat, nat)> {
    var n := CountDigits(s);
    DigitsCounted(s);
    var t := s[n..];
    if t != [] && t[0] == DOT then
      var f := CountDigits(t[1..]);
      DigitsCounted(t[1..]);
      assert 1 + f == |t| ==> t[1..][..f] == t[1..];
      if 1 + f != |t| || n + f == 0 then None else Some((DigitsValue(s[..n] + t[1..]), f))
    else if t != [] || n == 0 then None
    else Some((DigitsValue(s[..n]), 0))
  }

  function Parse(s: seq<byte>): Option<BigDecimal> {
    var signed := s != [] && (s[0] == PLUS || s[0] == MINUS);
    match ParseUnsigned(if signed then s[1..] else s)
    case None => None
    case Some((m, scale)) => Some(BigDecimal(if signed && s[0] == MINUS then 0 - m else m, scale))
  }

  lemma {:induction false} LeadingZeros(n: nat, digits: seq<byte>)
    requires AllDigits(digits)
    ensures AllDigits(Zeros(n) + digits) && DigitsValue(Zeros(n) + digits) == DigitsValue(digits)
  {
    var s := Zeros(n) + digits;
    if digits != [] {
      LeadingZeros(n, digits[..|digits| - 1]);
      assert s[..|s| - 1] == Zeros(n) + digits[..|digits| - 1];
    } else if n > 0 {
      LeadingZeros(n - 1, []);
      assert s[..|s| - 1] == Zeros(n - 1) + [];
    }
  }

  lemma PaddedValue(x: BigDecimal)
    ensures AllDigits(Padded(x)) && DigitsValue(Padded(x)) == Abs(x.mantissa)
  {
    var digits := Digits(Abs(x.mantissa));
    DigitsRoundTrip(Abs(x.mantissa));
    hide Digits, DigitsValue;
    if x.scale + 1 > |digits| {
      LeadingZeros(x.scale + 1 - |digits|, digits);
    }
  }

  lemma UnsignedRoundTrip(whole: seq<byte>, fraction: seq<byte>)
    requires AllDigits(whole) && AllDigits(fraction) && whole != []
    ensures AllDigits(whole + fraction)
    ensures ParseUnsigned(Pointed(whole, fraction)) == Some((DigitsValue(whole + fraction), |fraction|))
    ensures Pointed(whole, fraction) != [] && IsDigit(Pointed(whole, fraction)[0])
  {
    hide CountDigits, DigitsValue;
    var t := [DOT] + fraction;
    CountExactly(whole, t);
    CountExactly(fraction, []);
    assert fraction + [] == fraction;
    var s := whole + t;
    assert Pointed(whole, fraction) == s && s[0] == whole[0];
    assert s[..|whole|] == whole && s[|whole|..] == t && t[1..] == fraction;
  }

  lemma AppendZero(p: seq<byte>)
    requires AllDigits(p)
    ensures AllDigits(p + [ZERO]) && DigitsValue(p + [ZERO]) == 10 * DigitsValue(p)
  {
    assert (p + [ZERO])[..|p|] == p;
  }

  lemma PaddedStart(x: BigDecimal)
    ensures Padded(x)[0] == ZERO ==> |Padded(x)| - x.scale == 1
  {
    hide Digits;
  }

  // The text taken apart at its point.
  lemma TextParts(x: BigDecimal) returns (whole: seq<byte>, fraction: seq<byte>)
    ensures AllDigits(whole) && AllDigits(fraction) && whole != []
    ensures ToString(x) == Sign(x.mantissa < 0) + Pointed(whole, fraction)
    ensures AllDigits(whole + fraction) && |fraction| == (if x.scale > 0 then x.scale else 1)
    ensures DigitsValue(whole + fraction) == if x.scale > 0 then Abs(x.mantissa) else 10 * Abs(x.mantissa)
    ensures whole[0] == ZERO ==> |whole| == 1
  {
    PaddedValue(x);
    PaddedStart(x);
    hide DigitsValue, Padded, Digits;
    var p := Padded(x);
    AppendZero(p);
    whole := p[..|p| - x.scale];
    fraction := if x.scale > 0 then p[|p| - x.scale..] else [ZERO];
    assert whole + fraction == if x.scale > 0 then p else p + [ZERO];
  }

  predicate IsSign(sign: seq<byte>) {
    sign == [] || sign == [PLUS] || sign == [MINUS]
  }

  function WithSign(sign: seq<byte>, m: nat): int {
    if sign == [MINUS] then 0 - (m as int) else m
  }

  lemma SignedParse(sign: seq<byte>, s: seq<byte>, m: nat, scale: nat)
    requires IsSign(sign) && s != [] && (IsDigit(s[0]) || s[0] == DOT) && ParseUnsigned(s) == Some((m, scale))
    ensures Parse(sign + s) == Some(BigDecimal(WithSign(sign, m), scale))
  {
    hide ParseUnsigned;
    assert sign != [] ==> (sign + s)[1..] == s;
    assert sign == [] ==> sign + s == s;
  }

  // Reading the text back keeps the value; only a whole number comes back at scale 1.
  lemma TextRoundTrip(x: BigDecimal)
    ensures Parse(ToString(x)) == Some(if x.scale == 0 then BigDecimal(10 * x.mantissa, 1) else x)
    ensures Parse(ToString(x)).Some? ==> Val(Parse(ToString(x)).value) == Val(x)
  {
    TextParsed(x);
    hide ToString, Parse, Val;
    if x.scale == 0 {
      TenTimes(x.mantissa, 1);
    }
  }

  // The text without its sign.
  lemma TextUnsigned(x: BigDecimal) returns (t: seq<byte>)
    ensures ToString(x) == Sign(x.mantissa < 0) + t && t != [] && IsDigit(t[0])
    ensures x.scale > 0 ==> ParseUnsigned(t) == Some((Abs(x.mantissa), x.scale))
    ensures x.scale == 0 ==> ParseUnsigned(t) == Some((10 * Abs(x.mantissa), 1))
  {
    hide *;
    var whole, fraction := TextParts(x);
    UnsignedRoundTrip(whole, fraction);
    t := Pointed(whole, fraction);
  }

  lemma TextParsed(x: BigDecimal)
    ensures Parse(ToString(x)) == Some(if x.scale == 0 then BigDecimal(10 * x.mantissa, 1) else x)
  {
    var sign, m := Sign(x.mantissa < 0), Abs(x.mantissa);
    var k: nat := 10 * m;
    assert IsSign(sign) && x.mantissa == WithSign(sign, m) && 10 * x.mantissa == WithSign(sign, k);
    hide *;
    var t := TextUnsigned(x);
    if x.scale > 0 {
      SignedParse(sign, t, m, x.scale);
    } else {
      SignedParse(sign, t, k, 1);
    }
  }

  // ---- which texts are numbers, and which numbers they are

  // [sign] digits ['.' digits], with at least one digit.
  datatype Literal = Literal(sign: seq<byte>, whole: seq<byte>, pointed: bool, fraction: seq<byte>)

  ghost predicate LiteralOk(l: Literal) {
    && IsSign(l.sign) && AllDigits(l.whole) && AllDigits(l.fraction)
    && (!l.pointed ==> l.fraction == []) && !(l.whole == [] && l.fraction == [])
  }

  function LiteralText(l: Literal): seq<byte> {
    l.sign + (l.whole + if l.pointed then [DOT] + l.fraction else [])
  }

  // The whole part and the fraction as a real, with the sign.
  ghost function LiteralValue(l: Literal): real
    requires LiteralOk(l)
  {
    var r := DigitsValue(l.whole) as real + DigitsValue(l.fraction) as real / Pow10(|l.fraction|) as real;
    if l.sign == [MINUS] then -r else r
  }

  lemma {:induction false} DigitsSplit(whole: seq<byte>, fraction: seq<byte>)
    requires AllDigits(whole) && AllDigits(fraction)
    ensures AllDigits(whole + fraction)
    ensures DigitsValue(whole + fraction) == DigitsValue(whole) * Pow10(|fraction|) + DigitsValue(fraction)
  {
    if fraction == [] {
      assert whole + fraction == whole && Pow10(0) == 1 && DigitsValue([]) == 0;
    } else {
      var n := |fraction| - 1;
      DigitsSplit(whole, fraction[..n]);
      assert (whole + fraction)[..|whole| + n] == whole + fraction[..n];
      TenfoldSplit(DigitsValue(whole), Pow10(n), DigitsValue(fraction[..n]));
    }
  }

  lemma TenfoldSplit(w: nat, p: nat, f: nat)
    ensures 10 * (w * p + f) == w * (10 * p) + 10 * f
  {
  }

  // The digits of both parts, put together, stand for the value at the scale of the fraction.
  lemma PartsValue(whole: seq<byte>, fraction: seq<byte>)
    requires AllDigits(whole) && AllDigits(fraction) && AllDigits(whole + fraction)
    ensures DigitsValue(whole + fraction) as real / Pow10(|fraction|) as real
      == DigitsValue(whole) as real + DigitsValue(fraction) as real / Pow10(|fraction|) as real
  {
    DigitsSplit(whole, fraction);
    hide DigitsValue, Pow10;
    SumRatio(DigitsValue(whole), Pow10(|fraction|), DigitsValue(fraction));
  }

  lemma SumRatio(w: nat, p: nat, f: nat)
    requires p > 0
    ensures (w * p + f) as real / p as real == w as real + f as real / p as real
  {
    assert (w * p + f) as real == w as real * p as real + f as real;
  }

  lemma UnsignedLiteral(l: Literal)
    requires LiteralOk(l) && l.sign == []
    ensures AllDigits(l.whole + l.fraction)
    ensures ParseUnsigned(LiteralText(l)) == Some((DigitsValue(l.whole + l.fraction), |l.fraction|))
    ensures LiteralText(l) != [] && (IsDigit(LiteralText(l)[0]) || LiteralText(l)[0] == DOT)
  {
    var rest := if l.pointed then [DOT] + l.fraction else [];
    var s := l.whole + rest;
    assert LiteralText(l) == s;
    hide CountDigits, DigitsValue;
    CountExactly(l.whole, rest);
    CountExactly(l.fraction, []);
    assert l.fraction + [] == l.fraction && l.whole + [] == l.whole;
    assert s[..|l.whole|] == l.whole && s[|l.whole|..] == rest;
    assert l.pointed ==> rest[1..] == l.fraction;
    assert l.whole != [] ==> s[0] == l.whole[0];
  }

  lemma LiteralUnsigned(l: Literal)
    requires LiteralOk(l)
    ensures LiteralOk(l.(sign := [])) && LiteralText(l) == l.sign + LiteralText(l.(sign := []))
    ensures IsSign(l.sign)
  {
    var t := l.whole + if l.pointed then [DOT] + l.fraction else [];
    assert [] + t == t;
  }

  lemma SignedValue(l: Literal)
    requires LiteralOk(l) && AllDigits(l.whole + l.fraction)
    ensures Val(BigDecimal(WithSign(l.sign, DigitsValue(l.whole + l.fraction)), |l.fraction|)) == LiteralValue(l)
  {
    PartsValue(l.whole, l.fraction);
    hide DigitsValue, Pow10;
    NegatedRatio(DigitsValue(l.whole + l.fraction), Pow10(|l.fraction|));
  }

  lemma NegatedRatio(m: int, p: nat)
    requires p > 0
    ensures (0 - m) as real / p as real == -(m as real / p as real)
  {
  }

  // A literal is read as the number at the scale of its fraction that has its value.
  lemma LiteralParsed(l: Literal)
    requires LiteralOk(l)
    ensures Parse(LiteralText(l)).Some?
    ensures var x := Parse(LiteralText(l)).value; x.scale == |l.fraction| && Val(x) == LiteralValue(l)
  {
    hide Parse, ParseUnsigned, LiteralText, LiteralOk, LiteralValue, Val, WithSign, Pow10, DigitsValue;
    LiteralUnsigned(l);
    UnsignedLiteral(l.(sign := []));
    SignedParse(l.sign, LiteralText(l.(sign := [])), DigitsValue(l.whole + l.fraction), |l.fraction|);
    SignedValue(l);
  }

  // The digits, and what comes after them: nothing, or a point and digits.
  lemma UnsignedShape(u: seq<byte>) returns (whole: seq<byte>, t: seq<byte>)
    requires ParseUnsigned(u).Some?
    ensures u == whole + t && AllDigits(whole)
    ensures if t == [] then whole != [] else t[0] == DOT && AllDigits(t[1..]) && !(whole == [] && t[1..] == [])
  {
    var n := CountDigits(u);
    DigitsCounted(u);
    whole, t := u[..n], u[n..];
    if t != [] && t[0] == DOT {
      DigitsCounted(t[1..]);
      assert t[1..][..CountDigits(t[1..])] == t[1..];
    }
    hide CountDigits, DigitsValue, AllDigits;
  }

  lemma UnsignedIsLiteral(u: seq<byte>) returns (l: Literal)
    requires ParseUnsigned(u).Some?
    ensures LiteralOk(l) && l.sign == [] && LiteralText(l) == u
  {
    hide ParseUnsigned, AllDigits;
    var whole, t := UnsignedShape(u);
    NoDigits();
    if t == [] {
      l := Literal([], whole, false, []);
      assert [] + (whole + []) == whole && whole + t == whole;
    } else {
      l := Literal([], whole, true, t[1..]);
      assert t == [DOT] + t[1..] && [] + (whole + t) == whole + t;
    }
  }

  lemma NoDigits()
    ensures AllDigits([])
  {
  }

  lemma UnsignedPart(s: seq<byte>) returns (sign: seq<byte>, u: seq<byte>)
    requires Parse(s).Some?
    ensures IsSign(sign) && s == sign + u && ParseUnsigned(u).Some?
  {
    hide ParseUnsigned;
    var signed := s != [] && (s[0] == PLUS || s[0] == MINUS);
    sign, u := if signed then s[..1] else [], if signed then s[1..] else s;
  }

  // What is read is a literal.
  lemma ReadIsLiteral(s: seq<byte>) returns (l: Literal)
    requires Parse(s).Some?
    ensures LiteralOk(l) && LiteralText(l) == s
  {
    hide Parse, ParseUnsigned, LiteralText;
    var sign, u := UnsignedPart(s);
    var v := UnsignedIsLiteral(u);
    l := v.(sign := sign);
    LiteralUnsigned(l);
    assert l.(sign := []) == v;
  }

  lemma Punctuation()
    ensures [PLUS] == Ascii("+") && [DOT] == Ascii(".")
  {
  }

  // string->bigdecimal reads exactly the literals.
  lemma ParsesExactlyLiterals(s: seq<byte>)
    ensures Parse(s).Some? <==> exists l :: LiteralOk(l) && LiteralText(l) == s
  {
    if Parse(s).Some? {
      var l := ReadIsLiteral(s);
    }
    if l :| LiteralOk(l) && LiteralText(l) == s {
      LiteralParsed(l);
    }
    hide Parse, LiteralOk, LiteralText;
  }

  // What is printed is the literal with the number's value, its scale or a single zero behind the point, a minus sign
  // only for negative mantissas, and no superfluous zero in front.
  lemma PrintsPlainLiteral(x: BigDecimal) returns (l: Literal)
    ensures LiteralOk(l) && LiteralText(l) == ToString(x) && LiteralValue(l) == Val(x)
    ensures l.pointed && |l.fraction| == (if x.scale == 0 then 1 else x.scale)
    ensures l.sign == (if x.mantissa < 0 then [MINUS] else [])
    ensures l.whole != [] && (l.whole[0] == ZERO ==> |l.whole| == 1)
  {
    assert IsSign(Sign(x.mantissa < 0)) && Sign(x.mantissa < 0) == if x.mantissa < 0 then [MINUS] else [];
    hide *;
    var whole, fraction := TextParts(x);
    l := Literal(Sign(x.mantissa < 0), whole, true, fraction);
    PointedLiteral(l);
    LiteralParsed(l);
    TextRoundTrip(x);
  }

  lemma PointedLiteral(l: Literal)
    requires IsSign(l.sign) && AllDigits(l.whole) && AllDigits(l.fraction) && l.pointed && l.whole != []
    ensures LiteralOk(l) && LiteralText(l) == l.sign + Pointed(l.whole, l.fraction)
  {
    assert l.whole + ([DOT] + l.fraction) == l.whole + [DOT] + l.fraction;
  }

  // ---- the operations as they run

  // The division with its temporaries overwritten step by step.
  method BigDecimalDiv(a: BigDecimal, b: BigDecimal) returns (r: Outcome<BigDecimal>)
    ensures r == Div(a, b)
  {
    hide Pow10, TruncDiv;
    if b.mantissa == 0 {
      return Aborts;
    }
    var workingScale := MaxScale(a, b) + BD_DIV_EXTRA_DIGITS;
    if workingScale > INT_MAX {
      return Overflows;
    }
    var exp := b.scale - a.scale + workingScale;
    if exp > INT_MAX {
      return Overflows;
    }
    var numerator := a.mantissa * Pow10(exp);
    var (quotient, remainder) := TruncDiv(numerator, b.mantissa);
    if 2 * Abs(remainder) >= Abs(b.mantissa) {
      if numerator == 0 || (numerator < 0) == (b.mantissa < 0) {
        quotient := quotient + 1;
      } else {
        quotient := quotient - 1;
      }
    }
    var scale: nat := workingScale;
    while scale > 0
      invariant Trim(quotient, scale) == Trim(RoundDiv(numerator, b.mantissa), workingScale)
    {
      var (q, r2) := TruncDiv(quotient, 10);
      if r2 != 0 {
        break;
      }
      quotient := q;
      scale := scale - 1;
    }
    return Returns(BigDecimal(quotient, scale));
  }

  method ScanDigits(s: seq<byte>, from: nat) returns (i: nat)
    requires from <= |s|
    ensures from <= i <= |s| && i == from + CountDigits(s[from..])
  {
    i := from;
    while i < |s| && IsDigit(s[i])
      invariant from <= i <= |s| && i + CountDigits(s[i..]) == from + CountDigits(s[from..])
    {
      assert s[i..][1..] == s[i + 1..];
      i := i + 1;
    }
  }

  // The part of bd_parse after the sign.
  method ParseDigits(s: seq<byte>, start: nat) returns (r: Option<(nat, nat)>)
    requires start <= |s|
    ensures r == ParseUnsigned(s[start..])
  {
    hide CountDigits, DigitsValue;
    ghost var u := s[start..];
    var i := ScanDigits(s, start);
    var intDigits := s[start..i];
    DigitsCounted(u);
    ghost var t := u[|intDigits|..];
    assert intDigits == u[..|intDigits|] && s[i..] == t;
    if i < |s| && s[i] == DOT {
      var fracStart := i + 1;
      assert s[fracStart..] == t[1..];
      DigitsCounted(t[1..]);
      i := ScanDigits(s, fracStart);
      if i != |s| || |intDigits| + (i - fracStart) == 0 {
        return None;
      }
      assert t[1..][..i - fracStart] == t[1..] && s[fracStart..i] == s[fracStart..];
      return Some((DigitsValue(intDigits + s[fracStart..i]), i - fracStart));
    }
    if i != |s| || |intDigits| == 0 {
      return None;
    }
    return Some((DigitsValue(intDigits), 0));
  }

  // bd_parse
  method BdParse(s: seq<byte>) returns (r: Option<BigDecimal>)
    ensures r == Parse(s)
  {
    hide ParseUnsigned;
    var i := 0;
    var neg := false;
    if i < |s| && (s[i] == PLUS || s[i] == MINUS) {
      neg := s[i] == MINUS;
      i := i + 1;
    }
    assert s[0..] == s;
    var parsed := ParseDigits(s, i);
    match parsed
    case None => return None;
    case Some((m, scale)) =>
      var mantissa: int := m;
      return Some(BigDecimal(if neg then -mantissa else mantissa, scale));
  }

  // Zeros in front of the digits, up to a width.
  method PadLeft(digits: seq<byte>, width: nat) returns (padded: seq<byte>)
    ensures padded == if width > |digits| then Zeros(width - |digits|) + digits else digits
  {
    var pad := if width > |digits| then width - |digits| else 0;
    padded := [];
    for i := 0 to pad
      invariant padded == Zeros(i)
    {
      padded := padded + [ZERO];
    }
    padded := padded + digits;
  }

  lemma TextLength(x: BigDecimal)
    ensures |ToString(x)| == |Sign(x.mantissa < 0)| + (|Padded(x)| - x.scale) + 1 + (if x.scale > 0 then x.scale else 1)
  {
    hide Padded, Sign;
  }

  // bd_to_string.  The length of the text is computed in ints, and overflows exactly when the text is too long for one.
  method BdToString(x: BigDecimal) returns (out: Outcome<seq<byte>>)
    ensures out == if |ToString(x)| <= 0x7FFF_FFFF then Returns(ToString(x)) else Overflows
  {
    var digits := Digits(Abs(x.mantissa));
    ghost var long := |ToString(x)| > INT_MAX;
    TextLength(x);
    assert |Padded(x)| == if x.scale + 1 > |digits| then x.scale + 1 else |digits|;
    hide Padded, ToString;
    if |digits| > INT_MAX || x.scale + 1 > INT_MAX {
      assert long;
      return Overflows;
    }
    var padded := PadLeft(digits, x.scale + 1);
    assert padded == Padded(x) by {
      PaddedIs(x);
    }
    var intLen := |padded| - x.scale;
    var total := (if x.mantissa < 0 then 1 else 0) + intLen + 1 + (if x.scale > 0 then x.scale else 1);
    assert total == |ToString(x)|;
    if total > INT_MAX {
      return Overflows;
    }
    var text := TextOf(x, padded);
    return Returns(text);
  }

  lemma PaddedIs(x: BigDecimal)
    ensures var digits := Digits(Abs(x.mantissa));
      Padded(x) == if x.scale + 1 > |digits| then Zeros(x.scale + 1 - |digits|) + digits else digits
  {
  }

  // Sign, digits, point and digits, appended one after the other.
  method TextOf(x: BigDecimal, padded: seq<byte>) returns (out: seq<byte>)
    requires padded == Padded(x)
    ensures out == ToString(x)
  {
    hide Padded, Sign;
    var whole := padded[..|padded| - x.scale];
    var fraction := if x.scale > 0 then padded[|padded| - x.scale..] else [ZERO];
    out := Sign(x.mantissa < 0);
    out := out + whole;
    out := out + [DOT];
    out := out + fraction;
    Regroup(Sign(x.mantissa < 0), whole, [DOT], fraction);
  }
}
