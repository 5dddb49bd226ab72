/** gcd and lcm (icecreme/builtins.c): a fold over 64-bit integers that escalates to arbitrary precision. */
module GcdLcm {
  import opened Util
  import opened Products
  import opened SchemeValue

  const INT64_MIN: int := -0x8000_0000_0000_0000

  datatype Arg = Fixnum(i: int64) | Bignum(n: int) | NotInteger

  function ArgValue(a: Arg): int
    requires !a.NotInteger?
  {
    if a.Fixnum? then a.i else a.n
  }

  predicate AllIntegers(args: seq<Arg>) {
    forall k :: 0 <= k < |args| ==> !args[k].NotInteger?
  }

  // ---- greatest common divisors

  ghost predicate Divides(d: int, n: int) {
    exists k :: Product(k, d) == n
  }

  function Gcd(a: nat, b: nat): nat
    decreases b
  {
    if b == 0 then a else Gcd(b, a % b)
  }

  lemma Remainder(a: nat, b: nat)
    requires b > 0
    ensures a % b == a - Product(a / b, b)
  {
  }

  lemma DividesBy(d: int, n: int, k: int)
    requires Product(k, d) == n
    ensures Divides(d, n)
  {
  }

  lemma DividesSelf(n: int)
    ensures Divides(n, n) && Divides(n, 0) && Divides(1, n)
  {
    DividesBy(n, n, 1);
    DividesBy(n, 0, 0);
    DividesBy(1, n, n);
  }

  lemma DividesCombination(d: int, m: int, n: int, q: int)
    requires Divides(d, m) && Divides(d, n)
    ensures Divides(d, m - Product(q, n)) && Divides(d, m + Product(q, n))
  {
    var i :| Product(i, d) == m;
    var j :| Product(j, d) == n;
    ProductAssociates(q, j, d);
    ProductDistributes(i, Product(q, j), d);
    DividesBy(d, m - Product(q, n), i - Product(q, j));
    DividesBy(d, m + Product(q, n), i + Product(q, j));
  }

  lemma DividesTransitive(a: int, b: int, c: int)
    requires Divides(a, b) && Divides(b, c)
    ensures Divides(a, c)
  {
    var i :| Product(i, a) == b;
    var j :| Product(j, b) == c;
    ProductAssociates(j, i, a);
    DividesBy(a, c, Product(j, i));
  }

  lemma {:induction false} GcdDivides(a: nat, b: nat)
    ensures Divides(Gcd(a, b), a) && Divides(Gcd(a, b), b)
    decreases b
  {
    if b == 0 {
      DividesSelf(a);
    } else {
      GcdDivides(b, a % b);
      Remainder(a, b);
      DividesCombination(Gcd(a, b), a % b, b, a / b);
    }
  }

  lemma {:induction false} GcdGreatest(a: nat, b: nat, d: int)
    requires Divides(d, a) && Divides(d, b)
    ensures Divides(d, Gcd(a, b))
    decreases b
  {
    if b != 0 {
      Remainder(a, b);
      DividesCombination(d, a, b, a / b);
      GcdGreatest(b, a % b, d);
    }
  }

  lemma DividesAbs(d: int, n: int)
    ensures Divides(d, n) <==> Divides(d, Abs(n))
  {
    if k :| Product(k, d) == n {
      SignProducts(k, d);
      DividesBy(d, -n, -k);
    }
    if k :| Product(k, d) == Abs(n) {
      SignProducts(k, d);
      DividesBy(d, 0 - Abs(n) as int, -k);
    }
  }

  function GcdAll(args: seq<Arg>): nat
    requires AllIntegers(args)
  {
    if args == [] then 0 else Gcd(GcdAll(args[..|args| - 1]), Abs(ArgValue(args[|args| - 1])))
  }

  ghost predicate DividesAll(d: int, args: seq<Arg>)
    requires AllIntegers(args)
  {
    forall k :: 0 <= k < |args| ==> Divides(d, ArgValue(args[k]))
  }

  // The fold computes the greatest common divisor of all its arguments: it divides each, and whatever divides each
  // divides it.
  lemma {:induction false} GcdAllIsGcd(args: seq<Arg>, d: int)
    requires AllIntegers(args)
    ensures DividesAll(d, args) <==> Divides(d, GcdAll(args))
  {
    if args == [] {
      DividesSelf(d);
    } else {
      var front := args[..|args| - 1];
      var n := ArgValue(args[|args| - 1]);
      GcdAllIsGcd(front, d);
      DividesAbs(d, n);
      if DividesAll(d, args) {
        GcdGreatest(GcdAll(front), Abs(n), d);
      } else if Divides(d, GcdAll(args)) {
        GcdDivides(GcdAll(front), Abs(n));
        DividesTransitive(d, GcdAll(args), GcdAll(front));
        DividesTransitive(d, GcdAll(args), Abs(n));
      }
    }
  }

  // ---- least common multiples

  function Lcm(a: nat, b: nat): int {
    if a == 0 || b == 0 then 0 else GcdPositive(a, b); Product(Quot(a, Gcd(a, b)), b)
  }

  lemma {:induction false} GcdPositive(a: nat, b: nat)
    ensures Gcd(a, b) > 0 <==> a > 0 || b > 0
    decreases b
  {
    if b > 0 {
      GcdPositive(b, a % b);
    }
  }

  lemma QuotExact(x: nat, g: nat)
    requires g > 0 && Divides(g, x)
    ensures Product(Quot(x, g), g) == x
  {
    var k :| Product(k, g) == x;
    QuotOfMultiple(k, g, x);
  }

  // The greatest common divisor as a combination of the two numbers.
  lemma {:induction false} Bezout(a: nat, b: nat) returns (x: int, y: int)
    ensures Gcd(a, b) == Product(x, a) + Product(y, b)
    decreases b
  {
    if b == 0 {
      x, y := 1, 0;
    } else {
      var u, v := Bezout(b, a % b);
      Remainder(a, b);
      var q := a / b;
      ProductCommutes(v, a - Product(q, b));
      ProductDistributes(a, Product(q, b), v);
      ProductCommutes(a, v);
      ProductCommutes(Product(q, b), v);
      ProductAssociates(v, q, b);
      ProductDistributes(u, Product(v, q), b);
      x, y := v, u - Product(v, q);
    }
  }

  // Lcm is a common multiple, and divides every other.
  lemma LcmIsMultiple(a: nat, b: nat)
    ensures Lcm(a, b) >= 0 && Divides(a, Lcm(a, b)) && Divides(b, Lcm(a, b))
  {
    if a == 0 || b == 0 {
      DividesSelf(a);
      DividesSelf(b);
    } else {
      GcdPositive(a, b);
      GcdDivides(a, b);
      var g := Gcd(a, b);
      QuotExact(a, g);
      QuotExact(b, g);
      var i, j := Quot(a, g), Quot(b, g);
      NonNegative(i, b);
      DividesBy(b, Product(i, b), i);
      ProductAssociates(i, j, g);
      ProductCommutes(i, j);
      ProductAssociates(j, i, g);
      DividesBy(a, Product(i, b), j);
    }
  }

  lemma LcmIsLeast(a: nat, b: nat, m: int)
    requires Divides(a, m) && Divides(b, m)
    ensures Divides(Lcm(a, b), m)
  {
    if a == 0 || b == 0 {
      OnlyZero(if a == 0 then a else b, m);
      DividesSelf(0);
    } else {
      GcdPositive(a, b);
      GcdDivides(a, b);
      var g := Gcd(a, b);
      QuotExact(a, g);
      QuotExact(b, g);
      var i, j := Quot(a, g), Quot(b, g);
      var x, y := Bezout(a, b);
      var k :| Product(k, a) == m;
      var l :| Product(l, b) == m;
      // m * g == (x * l + y * k) * (i * b) * g, and g is not zero
      LeastCombination(a, b, g, i, j, x, y, k, l, m);
      DividesBy(Product(i, b), m, Product(x, l) + Product(y, k));
    }
  }

  lemma OnlyZero(z: int, m: int)
    requires z == 0 && Divides(z, m)
    ensures m == 0
  {
    var k :| Product(k, z) == m;
  }

  lemma LeastCombination(a: int, b: int, g: int, i: int, j: int, x: int, y: int, k: int, l: int, m: int)
    requires g != 0 && Product(i, g) == a && Product(j, g) == b && g == Product(x, a) + Product(y, b)
    requires Product(k, a) == m && Product(l, b) == m
    ensures Product(Product(x, l) + Product(y, k), Product(i, b)) == m
  {
    // x * m == x * l * b, and y * m == y * k * i * g
    var p := Product(i, b);
    assert Product(Product(x, l), Product(p, g)) == Product(Product(x, a), m) by {
      Rearranged(x, l, i, b, g, a, m);
    }
    assert Product(Product(y, k), Product(p, g)) == Product(Product(y, b), m) by {
      RearrangedAgain(y, k, i, b, g, a, m);
    }
    ProductDistributes(Product(x, a), Product(y, b), m);
    ProductDistributes(Product(x, l), Product(y, k), Product(p, g));
    ProductAssociates(Product(x, l) + Product(y, k), p, g);
    ProductCommutes(g, m);
    Cancel(Product(Product(x, l) + Product(y, k), p), m, g);
  }

  lemma Rearranged(x: int, l: int, i: int, b: int, g: int, a: int, m: int)
    requires Product(i, g) == a && Product(l, b) == m
    ensures Product(Product(x, l), Product(Product(i, b), g)) == Product(Product(x, a), m)
  {
    assert (x * l) * ((i * b) * g) == (x * (i * g)) * (l * b);
  }

  lemma RearrangedAgain(y: int, k: int, i: int, b: int, g: int, a: int, m: int)
    requires Product(i, g) == a && Product(k, a) == m
    ensures Product(Product(y, k), Product(Product(i, b), g)) == Product(Product(y, b), m)
  {
    assert (y * k) * ((i * b) * g) == (y * b) * (k * (i * g));
  }

  lemma Cancel(u: int, v: int, g: int)
    requires g != 0 && Product(u, g) == Product(v, g)
    ensures u == v
  {
    assert (u - v) * g == 0;
  }

  function LcmAll(args: seq<Arg>): (r: int)
    requires AllIntegers(args)
    ensures r >= 0
  {
    if args == [] then 1
    else
      var before := LcmAll(args[..|args| - 1]);
      LcmIsMultiple(before, Abs(ArgValue(args[|args| - 1])));
      Lcm(before, Abs(ArgValue(args[|args| - 1])))
  }

  ghost predicate MultipleOfAll(m: int, args: seq<Arg>)
    requires AllIntegers(args)
  {
    forall k :: 0 <= k < |args| ==> Divides(ArgValue(args[k]), m)
  }

  lemma AbsDivides(n: int, m: int)
    ensures Divides(n, m) <==> Divides(Abs(n), m)
  {
    if k :| Product(k, n) == m {
      SignProducts(k, Abs(n));
      DividesBy(Abs(n), m, if n < 0 then -k else k);
    }
    if k :| Product(k, Abs(n)) == m {
      SignProducts(k, n);
      DividesBy(n, m, if n < 0 then -k else k);
    }
  }

  // The fold computes the least common multiple of all its arguments: the multiples of it are exactly their common
  // multiples.
  lemma {:induction false} LcmAllIsLcm(args: seq<Arg>, m: int)
    requires AllIntegers(args)
    ensures MultipleOfAll(m, args) <==> Divides(LcmAll(args), m)
  {
    if args == [] {
      DividesSelf(m);
    } else {
      var front := args[..|args| - 1];
      var n := ArgValue(args[|args| - 1]);
      LcmAllIsLcm(front, m);
      AbsDivides(n, m);
      LcmIsMultiple(LcmAll(front), Abs(n));
      if MultipleOfAll(m, args) {
        LcmIsLeast(LcmAll(front), Abs(n), m);
      } else if Divides(LcmAll(args), m) {
        DividesTransitive(LcmAll(front), LcmAll(args), m);
        DividesTransitive(Abs(n), LcmAll(args), m);
      }
    }
  }

  // ---- the procedures as they run; a variable of type int64 never leaves its range

  const INT64_MAX: int := 0x7FFF_FFFF_FFFF_FFFF

  predicate FitsInt64(n: int) {
    INT64_MIN <= n <= INT64_MAX
  }

  // make_bigint_from_mpz: a result that fits becomes a fixnum again.
  function FromInt(n: int): Arg {
    if FitsInt64(n) then Fixnum(n) else Bignum(n)
  }

  method I64Gcd(a: int64, b: int64) returns (g: int64)
    requires a != INT64_MIN && b != INT64_MIN
    ensures g == Gcd(Abs(a), Abs(b))
  {
    var x: int64, y: int64 := a, b;
    if x < 0 {
      x := -x;
    }
    if y < 0 {
      y := -y;
    }
    while y != 0
      invariant x >= 0 && y >= 0 && Gcd(x, y) == Gcd(Abs(a), Abs(b))
      decreases y
    {
      var t: int64 := y;
      y := x % y;
      x := t;
    }
    return x;
  }

  lemma GcdFits(a: nat, b: nat)
    requires FitsInt64(a) && FitsInt64(b)
    ensures FitsInt64(Gcd(a, b))
    decreases b
  {
    if b > 0 {
      GcdFits(b, a % b);
    }
  }

  // A result is a number without a sign, and a fixnum exactly if it fits one.
  predicate Plain(r: Arg) {
    !r.NotInteger? && ArgValue(r) >= 0 && (r.Fixnum? <==> -0x8000_0000_0000_0000 <= ArgValue(r) < 0x8000_0000_0000_0000)
  }

  lemma GcdIsPlain(args: seq<Arg>)
    requires AllIntegers(args)
    ensures var r := FromInt(GcdAll(args)); Plain(r) && forall d :: Divides(d, ArgValue(r)) <==> DividesAll(d, args)
  {
    forall d ensures Divides(d, GcdAll(args)) <==> DividesAll(d, args) {
      GcdAllIsGcd(args, d);
    }
    hide Divides, DividesAll, GcdAll;
  }

  lemma LcmIsPlain(args: seq<Arg>)
    requires AllIntegers(args)
    ensures var r := FromInt(LcmAll(args)); Plain(r) && forall m :: Divides(ArgValue(r), m) <==> MultipleOfAll(m, args)
  {
    forall m ensures Divides(LcmAll(args), m) <==> MultipleOfAll(m, args) {
      LcmAllIsLcm(args, m);
    }
    hide Divides, MultipleOfAll, LcmAll;
  }

  // Integers are answered by the number whose divisors are exactly the common divisors of all of them.
  method BiGcd(args: seq<Arg>) returns (r: Result<Arg>)
    ensures r.Ok? <==> AllIntegers(args)
    ensures r.Ok? ==> Plain(r.value) && forall d :: Divides(d, ArgValue(r.value)) <==> DividesAll(d, args)
  {
    hide Gcd, Plain, Divides, DividesAll;
    var acc: int64 := 0;
    var isBig := false;
    var bacc: nat := 0;
    for i := 0 to |args|
      invariant AllIntegers(args[..i])
      invariant GcdAll(args[..i]) == (if isBig then bacc else acc)
    {
      assert args[..i + 1][..i] == args[..i];
      match args[i]
      case NotInteger => return Abort;
      case Fixnum(n) =>
        if !isBig && n != INT64_MIN && acc != INT64_MIN {
          acc := I64Gcd(acc, n);
        } else {
          bacc := Gcd(if isBig then bacc else Abs(acc), Abs(n));
          isBig := true;
        }
      case Bignum(n) =>
        bacc := Gcd(if isBig then bacc else Abs(acc), Abs(n));
        isBig := true;
    }
    assert args[..|args|] == args;
    GcdIsPlain(args);
    return Ok(FromInt(if isBig then bacc else acc));
  }

  // mpz_divexact, for a divisor of x
  function DivExact(x: int, g: nat): int
    requires g > 0
  {
    if x < 0 then 0 - Quot(Abs(x), g) else Quot(x, g)
  }

  // One step of the fold in arbitrary precision; the accumulator may turn negative.
  method LcmStep(bacc: int, bv: int) returns (r: int)
    ensures Abs(r) == Lcm(Abs(bacc), Abs(bv))
  {
    if bv == 0 {
      return 0;
    }
    var g := Gcd(Abs(bacc), Abs(bv));
    GcdPositive(Abs(bacc), Abs(bv));
    r := Product(DivExact(bacc, g), bv);
    if bacc == 0 {
      assert Quot(0, g) == 0;
      assert Product(0, bv) == 0;
    } else {
      AbsProduct(DivExact(bacc, g), bv);
      assert Abs(DivExact(bacc, g)) == Quot(Abs(bacc), g);
    }
  }

  // Integers are answered by the number whose multiples are exactly the common multiples of all of them.
  method BiLcm(args: seq<Arg>) returns (r: Result<Arg>)
    ensures r.Ok? <==> AllIntegers(args)
    ensures r.Ok? ==> Plain(r.value) && forall m :: Divides(ArgValue(r.value), m) <==> MultipleOfAll(m, args)
  {
    hide Gcd, Lcm, Quot, Product, Plain, Divides, MultipleOfAll;
    var acc: int64 := 1;
    var isBig := false;
    var bacc: int := 0;
    for i := 0 to |args|
      invariant AllIntegers(args[..i]) && acc >= 0
      invariant LcmAll(args[..i]) == (if isBig then Abs(bacc) else acc)
    {
      assert args[..i + 1][..i] == args[..i];
      if args[i].NotInteger? {
        return Abort;
      }
      var stepped := false;
      if !isBig && args[i].Fixnum? && args[i].i != INT64_MIN && acc != INT64_MIN {
        stepped, acc := LcmFast(acc, args[i].i);
      }
      if !stepped {
        bacc := LcmStep(if isBig then bacc else acc, ArgValue(args[i]));
        isBig := true;
      }
    }
    assert args[..|args|] == args;
    LcmIsPlain(args);
    return Ok(FromInt(if isBig then Abs(bacc) else acc));
  }

  // One step in 64 bits, unless the product overflows.
  method LcmFast(acc: int64, n: int64) returns (stepped: bool, next: int64)
    requires acc >= 0 && n != INT64_MIN
    ensures next == if stepped then Lcm(acc, Abs(n)) else acc
    ensures stepped <==> FitsInt64(Lcm(acc, Abs(n)))
    ensures next >= 0
  {
    hide Gcd;
    LcmIsMultiple(acc, Abs(n));
    var vv: int64 := if n < 0 then -n else n;
    if vv == 0 {
      return true, 0;
    }
    var g := I64Gcd(acc, vv);
    GcdPositive(acc, vv);
    var product := Product(Quot(acc, g), vv);
    if acc == 0 {
      assert Quot(0, g) == 0;
      assert Product(0, vv) == 0;
    }
    if FitsInt64(product) {
      return true, product;
    }
    return false, acc;
  }
}
