/** Products and quotients of integers, under names that proofs can treat as atoms. */
module Products {
  function Product(x: int, y: int): int {
    x * y
  }

  function Abs(i: int): nat {
    if i < 0 then -i else i
  }

  lemma SignProducts(k: int, b: int)
    ensures Product(-k, b) == -Product(k, b) && Product(k, -b) == -Product(k, b) && Product(-k, -b) == Product(k, b)
  {
  }

  lemma ProductAssociates(x: int, y: int, z: int)
    ensures Product(Product(x, y), z) == Product(x, Product(y, z))
  {
    assert (x * y) * z == x * (y * z);
  }

  lemma ProductCommutes(x: int, y: int)
    ensures Product(x, y) == Product(y, x)
  {
  }

  lemma ProductDistributes(x: int, y: int, z: int)
    ensures Product(x + y, z) == Product(x, z) + Product(y, z) && Product(x - y, z) == Product(x, z) - Product(y, z)
  {
    assert (x + y) * z == x * z + y * z;
    assert (x - y) * z == x * z - y * z;
  }

  function Quot(x: nat, y: nat): nat
    requires y > 0
  {
    x / y
  }

  lemma DivMod(a: nat, b: nat)
    requires b > 0
    ensures Product(Quot(a, b), b) <= a < Product(Quot(a, b), b) + b
  {
  }

  lemma AtLeastOnce(m: nat, b: nat)
    requires m > 0
    ensures Product(m, b) >= b
  {
    assert m * b == (m - 1) * b + b;
  }

  lemma AbsProduct(x: int, y: int)
    ensures Abs(Product(x, y)) == Product(Abs(x), Abs(y))
  {
    SignProducts(Abs(x), Abs(y));
    NonNegative(Abs(x), Abs(y));
    hide Product;
  }

  lemma NonNegative(x: nat, y: nat)
    ensures Product(x, y) >= 0
  {
  }

  // A multiple of d that is smaller than d is zero.
  lemma SmallMultiple(m: int, d: int)
    requires Abs(Product(m, d)) < Abs(d)
    ensures m == 0
  {
    AbsProduct(m, d);
    hide Product;
    if m != 0 {
      AtLeastOnce(Abs(m), Abs(d));
    }
  }

  lemma QuotOfMultiple(k: int, y: nat, x: nat)
    requires y > 0 && Product(k, y) == x
    ensures Quot(x, y) == k
  {
    DivMod(x, y);
    ProductDistributes(k, Quot(x, y), y);
    hide Product, Quot;
    SmallMultiple(k - Quot(x, y), y);
  }
}
