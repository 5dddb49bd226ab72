/** Unsigned 64-bit words as naturals: C's wrap-around is written out, exclusive or is taken bit by bit. */
module Word64 {
  const MODULUS: nat := 0x1_0000_0000_0000_0000

  type Word = w: nat | w < MODULUS

  function Pow2(n: nat): nat {
    if n == 0 then 1 else 2 * Pow2(n - 1)
  }

  function BitXor(a: nat, b: nat): nat {
    if a == 0 && b == 0 then 0
    else (a % 2 + b % 2) % 2 + 2 * BitXor(a / 2, b / 2)
  }

  lemma {:induction false} BitXorBelow(a: nat, b: nat, n: nat)
    requires a < Pow2(n) && b < Pow2(n)
    ensures BitXor(a, b) < Pow2(n)
  {
    if n > 0 && (a != 0 || b != 0) {
      BitXorBelow(a / 2, b / 2, n - 1);
    }
  }

  lemma {:induction false} BitXorZero(a: nat)
    ensures BitXor(a, 0) == a
  {
    if a != 0 {
      BitXorZero(a / 2);
    }
  }

  lemma HalvesOf(m: nat, r: nat)
    requires m < 2
    ensures (m + 2 * r) % 2 == m && (m + 2 * r) / 2 == r
  {
  }

  lemma {:induction false} BitXorParts(a: nat, b: nat)
    ensures BitXor(a, b) % 2 == (a % 2 + b % 2) % 2 && BitXor(a, b) / 2 == BitXor(a / 2, b / 2)
  {
    HalvesOf((a % 2 + b % 2) % 2, BitXor(a / 2, b / 2));
  }

  lemma SameHalves(a: nat, b: nat)
    requires a % 2 == b % 2 && a / 2 == b / 2
    ensures a == b
  {
  }

  lemma ParityUndone(x: nat, y: nat)
    requires x < 2 && y < 2
    ensures (x + (x + y) % 2) % 2 == y
  {
  }

  lemma {:induction false} BitXorUndone(a: nat, b: nat)
    ensures BitXor(a, BitXor(a, b)) == b
    decreases a + b
  {
    if a != 0 || b != 0 {
      BitXorUndone(a / 2, b / 2);
      var c := BitXor(a, b);
      BitXorParts(a, b);
      BitXorParts(a, c);
      ParityUndone(a % 2, b % 2);
      SameHalves(BitXor(a, c), b);
    }
  }

  lemma Double(a: int, b: int)
    ensures 2 * (a * b) == (2 * a) * b
  {
  }

  lemma {:induction false} Pow2Add(m: nat, n: nat)
    ensures Pow2(m + n) == Pow2(m) * Pow2(n)
  {
    if m > 0 {
      Pow2Add(m - 1, n);
      Double(Pow2(m - 1), Pow2(n));
    }
  }

  lemma Pow2Of64()
    ensures Pow2(64) == MODULUS
  {
    assert Pow2(4) == 16 by { assert Pow2(2) == 4; }
    Pow2Add(4, 4);
    Pow2Add(8, 8);
    Pow2Add(16, 16);
    Pow2Add(32, 32);
  }

  function Xor(a: Word, b: Word): Word {
    Pow2Of64();
    BitXorBelow(a, b, 64);
    BitXor(a, b)
  }

  function Add(a: Word, b: Word): Word {
    (a + b) % MODULUS
  }

  function ShiftLeft6(a: Word): Word {
    (a * 64) % MODULUS
  }

  function ShiftRight2(a: Word): Word {
    a / 4
  }

  lemma XorCancels(a: Word, b: Word, c: Word)
    ensures Xor(a, b) == Xor(a, c) ==> b == c
    ensures Xor(a, b) == a <==> b == 0
  {
    BitXorUndone(a, b);
    BitXorUndone(a, c);
    BitXorUndone(a, 0);
    BitXorZero(a);
  }

  lemma AddCancels(a: Word, b: Word, c: Word)
    ensures Add(a, c) == Add(b, c) ==> a == b
  {
  }

  // ---- the operations bit by bit

  // Bit k, the lowest being bit 0.
  function Bit(a: nat, k: nat): nat {
    if k == 0 then a % 2 else Bit(a / 2, k - 1)
  }

  lemma {:induction false} XorBit(a: nat, b: nat, k: nat)
    ensures Bit(BitXor(a, b), k) == (Bit(a, k) + Bit(b, k)) % 2
    decreases k
  {
    BitXorParts(a, b);
    if k > 0 {
      XorBit(a / 2, b / 2, k - 1);
    }
    hide BitXor;
  }

  lemma ModParts(x: nat, m: nat)
    requires m > 0
    ensures (x % (2 * m)) % 2 == x % 2 && (x % (2 * m)) / 2 == x / 2 % m
  {
    var q, r := x / 2 / m, x / 2 % m;
    assert x / 2 == q * m + r;
    Double(q, m);
    assert x == q * (2 * m) + (2 * r + x % 2);
    RemainderIs(x, 2 * m, q, 2 * r + x % 2);
  }

  lemma RemainderIs(x: int, d: nat, q: int, r: nat)
    requires d > 0 && x == q * d + r && r < d
    ensures x % d == r
  {
    assert x - d * (x / d) == x % d;
    var k := x / d - q;
    assert d * k == r - x % d;
    MultipleOf(d, k);
  }

  lemma MultipleOf(d: nat, k: int)
    ensures k >= 1 ==> d * k >= d
    ensures k <= -1 ==> d * k <= 0 - d
  {
  }

  // Cutting a number to n bits leaves the lower ones.
  lemma {:induction false} LowBits(x: nat, n: nat, k: nat)
    requires k < n
    ensures Pow2(n) > 0 && Bit(x % Pow2(n), k) == Bit(x, k)
  {
    Positive(n - 1);
    ModParts(x, Pow2(n - 1));
    if k > 0 {
      LowBits(x / 2, n - 1, k - 1);
    }
  }

  lemma {:induction false} Positive(n: nat)
    ensures Pow2(n) > 0
  {
    if n > 0 {
      Positive(n - 1);
    }
  }

  lemma DoubledBit(x: nat, k: nat)
    ensures Bit(2 * x, k) == if k == 0 then 0 else Bit(x, k - 1)
  {
  }

  lemma {:induction false} ShiftedBit(a: nat, n: nat, k: nat)
    ensures Bit(Pow2(n) * a, k) == if k < n then 0 else Bit(a, k - n)
  {
    if n > 0 {
      Double(Pow2(n - 1), a);
      DoubledBit(Pow2(n - 1) * a, k);
      if k > 0 {
        ShiftedBit(a, n - 1, k - 1);
      }
    }
  }

  // Left by six and right by two places, with zeros moved in and the bits beyond the 64th lost.
  lemma ShiftBits(a: Word, k: nat)
    requires k < 64
    ensures Bit(ShiftLeft6(a), k) == if k < 6 then 0 else Bit(a, k - 6)
    ensures Bit(ShiftRight2(a), k) == Bit(a, k + 2)
  {
    assert Pow2(6) == 64 by {
      assert Pow2(4) == 16;
    }
    Pow2Of64();
    hide Pow2;
    ShiftedBit(a, 6, k);
    LowBits(a * 64, 64, k);
    TwoLower(a, k);
    hide Bit;
  }

  lemma TwoLower(a: nat, k: nat)
    ensures Bit(a / 4, k) == Bit(a, k + 2)
  {
    assert a / 4 == a / 2 / 2;
    assert Bit(a, k + 2) == Bit(a / 2, k + 1);
  }

  // C's sum, which wraps around.
  lemma AddWraps(a: Word, b: Word)
    ensures Add(a, b) == if a + b < 0x1_0000_0000_0000_0000 then a + b else a + b - 0x1_0000_0000_0000_0000
  {
  }
}
