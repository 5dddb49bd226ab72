/** The ICE encoding of a labelled datum (src/creme/compile/chunk_serializer.cr, icecreme/opcodes.h). */
module IceFormat {
  import opened Util
  import opened Decimal
  import opened SchemeHeap
  import opened LabelledDatum

  const TAG_INT: byte := 0
  const TAG_FLOAT: byte := 1
  const TAG_SYM: byte := 4
  const TAG_STR: byte := 5
  const TAG_BOOL: byte := 6
  const TAG_NIL: byte := 7
  const TAG_CHAR: byte := 8
  const TAG_PAIR: byte := 9
  const TAG_VECTOR: byte := 10
  const TAG_BLOB: byte := 11
  const TAG_LABEL_DEF: byte := 13
  const TAG_LABEL_REF: byte := 14

  // Value tags of icecreme/value.h.
  const T_BOOL: nat := 1
  const T_INT: nat := 2
  const T_FLOAT: nat := 3
  const T_SYM: nat := 4
  const T_STR: nat := 5
  const T_CHAR: nat := 6
  const T_BYTEVECTOR: nat := 9
  const T_BIGINT: nat := 23

  const MAX_COUNT: nat := 0x20_0000
  const MAX_DATUM_DEPTH: nat := 4000
  const LABELS_CAP: nat := 256

  predicate AreBytes(s: seq<int>) {
    forall k :: 0 <= k < |s| ==> 0 <= s[k] < 256
  }

  function AsBytes(s: seq<int>): (r: seq<byte>)
    requires AreBytes(s)
    ensures |r| == |s| && forall k :: 0 <= k < |s| ==> r[k] == s[k]
  {
    seq(|s|, k requires 0 <= k < |s| => s[k])
  }

  function AsInts(s: seq<byte>): (r: seq<int>)
    ensures |r| == |s| && forall k :: 0 <= k < |s| ==> r[k] == s[k]
  {
    seq(|s|, k requires 0 <= k < |s| => s[k])
  }

  predicate FitsInt64(n: int) {
    -0x8000_0000_0000_0000 <= n < 0x8000_0000_0000_0000
  }

  // make_bigint_from_mpz: an integer that fits int64 is never a bignum.
  function IntegerLeaf(n: int): Leaf {
    Leaf(if FitsInt64(n) then T_INT else T_BIGINT, [n])
  }

  function I32(n: nat): (r: seq<byte>)
    ensures |r| == 4
  {
    LittleEndian(n, 4)
  }

  // The serializer converts every count to a signed 32-bit integer, raising if it does not fit.
  predicate FitsInt32(n: nat) {
    n < 0x8000_0000
  }

  // A leaf that the serializer writes and the loader reads back; strings and symbols come from the pool.
  predicate Serialisable(pool: seq<seq<byte>>, l: Leaf) {
    || l == NIL
    || l == Leaf(T_BOOL, [0]) || l == Leaf(T_BOOL, [1])
    || (|l.payload| == 1 && l == IntegerLeaf(l.payload[0]) && FitsInt32(|DecimalText(l.payload[0])|))
    || (l.tag == T_FLOAT && |l.payload| == 8 && AreBytes(l.payload))
    || (l.tag == T_CHAR && |l.payload| == 1 && FitsInt64(l.payload[0]))
    || ((l.tag == T_SYM || l.tag == T_STR) && AreBytes(l.payload) && AsBytes(l.payload) in pool)
    || (l.tag == T_BYTEVECTOR && AreBytes(l.payload) && FitsInt32(|l.payload|))
  }

  function PoolIndex(pool: seq<seq<byte>>, s: seq<byte>): (r: nat)
    requires s in pool
    ensures r < |pool| && pool[r] == s
  {
    if pool[0] == s then 0 else 1 + PoolIndex(pool[1..], s)
  }

  function EncodeLeaf(pool: seq<seq<byte>>, l: Leaf): seq<byte>
    requires Serialisable(pool, l)
  {
    if l == NIL then [TAG_NIL]
    else if l.tag == T_BOOL then [TAG_BOOL, l.payload[0]]
    else if l.tag == T_INT || l.tag == T_BIGINT then
      var text := DecimalText(l.payload[0]);
      [TAG_INT] + I32(|text|) + text
    else if l.tag == T_FLOAT then [TAG_FLOAT] + AsBytes(l.payload)
    else if l.tag == T_CHAR then
      Pow256Values();
      [TAG_CHAR] + SignedLittleEndian(l.payload[0], 8)
    else if l.tag == T_SYM then [TAG_SYM] + LittleEndian(PoolIndex(pool, AsBytes(l.payload)), 3)
    else if l.tag == T_STR then [TAG_STR] + LittleEndian(PoolIndex(pool, AsBytes(l.payload)), 3)
    else [TAG_BLOB] + I32(|l.payload|) + AsBytes(l.payload)
  }

  // Every leaf of the text is serialisable, every count fits, and only an actual datum carries a label.
  predicate Encodable(pool: seq<seq<byte>>, s: Syn) {
    match s
    case Atom(l) => Serialisable(pool, l)
    case Ref(n) => FitsInt32(n)
    case Def(n, d) => FitsInt32(n) && !d.Def? && !d.Ref? && Encodable(pool, d)
    case Node(vector, parts) =>
      && (!vector ==> |parts| == 2) && FitsInt32(|parts|)
      && forall k :: 0 <= k < |parts| ==> Encodable(pool, parts[k])
  }

  function Encode(pool: seq<seq<byte>>, s: Syn): (r: seq<byte>)
    requires Encodable(pool, s)
    ensures |r| >= 1
    decreases s, 0
  {
    match s
    case Atom(l) => EncodeLeaf(pool, l)
    case Ref(n) => [TAG_LABEL_REF] + I32(n)
    case Def(n, d) => [TAG_LABEL_DEF] + I32(n) + Encode(pool, d)
    case Node(vector, parts) =>
      (if vector then [TAG_VECTOR] + I32(|parts|) else [TAG_PAIR]) + EncodeParts(pool, s, |parts|)
  }

  function EncodeParts(pool: seq<seq<byte>>, s: Syn, k: nat): seq<byte>
    requires Encodable(pool, s) && s.Node? && k <= |s.parts|
    decreases s, 0, k
  {
    if k == 0 then [] else EncodeParts(pool, s, k - 1) + Encode(pool, s.parts[k - 1])
  }

  // ---- which leaves that is

  // Decimal texts of 64-bit integers are short.
  lemma {:induction false} ShortDigits(n: nat, bound: nat, k: nat)
    requires n < bound && k > 0 && bound == TenTo(k)
    ensures |Digits(n)| <= k
    decreases k
  {
    if n >= 10 {
      ShortDigits(n / 10, TenTo(k - 1), k - 1);
    }
  }

  function TenTo(k: nat): nat {
    if k == 0 then 1 else 10 * TenTo(k - 1)
  }

  lemma FixnumText(n: int)
    requires -0x8000_0000_0000_0000 <= n < 0x8000_0000_0000_0000
    ensures |DecimalText(n)| <= 20
  {
    assert TenTo(5) == 100_000;
    assert TenTo(10) == 10_000_000_000;
    assert TenTo(15) == 1_000_000_000_000_000;
    assert TenTo(19) == 10_000_000_000_000_000_000;
    ShortDigits(if n < 0 then -n else n, TenTo(19), 19);
    hide Digits, TenTo;
  }

  // Every fixnum, every bignum and bytevector of less than 2 GB, every float by its eight bytes, every character code of
  // 64 bits, and every symbol and string of the pool can be serialised, and so can booleans and nil.
  lemma LiteralsAreSerialisable(pool: seq<seq<byte>>, l: Leaf)
    requires
      || l == Leaf(0, []) || l == Leaf(1, [0]) || l == Leaf(1, [1])
      || (l.tag == 2 && |l.payload| == 1 && -0x8000_0000_0000_0000 <= l.payload[0] < 0x8000_0000_0000_0000)
      || (l.tag == 23 && |l.payload| == 1 && !(-0x8000_0000_0000_0000 <= l.payload[0] < 0x8000_0000_0000_0000)
          && |DecimalText(l.payload[0])| < 0x8000_0000)
      || (l.tag == 3 && |l.payload| == 8 && forall k :: 0 <= k < 8 ==> 0 <= l.payload[k] <= 255)
      || (l.tag == 6 && |l.payload| == 1 && -0x8000_0000_0000_0000 <= l.payload[0] < 0x8000_0000_0000_0000)
      || ((l.tag == 4 || l.tag == 5) && exists s :: s in pool && l.payload == AsInts(s))
      || (l.tag == 9 && |l.payload| < 0x8000_0000 && forall k :: 0 <= k < |l.payload| ==> 0 <= l.payload[k] <= 255)
    ensures Serialisable(pool, l)
  {
    if l.tag == 2 {
      FixnumText(l.payload[0]);
    }
    if s :| s in pool && l.payload == AsInts(s) {
      assert AreBytes(l.payload) && AsBytes(l.payload) == s;
    }
    hide DecimalText;
  }
}
