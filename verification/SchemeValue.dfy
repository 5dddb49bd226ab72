/** Scheme values as the text codecs see them: trees, since neither codec looks at sharing. */
module SchemeValue {
  import opened Util
  import opened Decimal

  type int64 = i: int | -0x8000_0000_0000_0000 <= i < 0x8000_0000_0000_0000

  // Str and Sym hold raw bytes; Char a code point (an int64).  Float keeps the text that strtod is given.  Ref is an
  // actor reference by its URI; Other is any value that no codec writes.
  datatype Value =
    | Nil | Bool(b: bool) | Int(i: int64) | Float(text: seq<byte>)
    | Str(bytes: seq<byte>) | Sym(name: seq<byte>) | Char(code: int)
    | Pair(car: Value, cdr: Value) | Vector(items: seq<Value>)
    | Record(typeName: seq<byte>, fields: seq<Value>) | Ref(uri: seq<byte>) | Other

  function Prepend(items: seq<Value>, tail: Value): Value {
    if items == [] then tail else Pair(items[0], Prepend(items[1..], tail))
  }

  predicate IsProperList(v: Value) {
    match v
    case Nil => true
    case Pair(_, d) => IsProperList(d)
    case _ => false
  }

  // The cars of a chain of pairs.
  function ListItems(v: Value): (r: seq<Value>)
    ensures forall k :: 0 <= k < |r| ==> r[k] < v
  {
    if v.Pair? then [v.car] + ListItems(v.cdr) else []
  }

  lemma {:induction false} ListItemsOfPrepend(items: seq<Value>)
    ensures IsProperList(Prepend(items, Nil)) && ListItems(Prepend(items, Nil)) == items
  {
    if items != [] {
      ListItemsOfPrepend(items[1..]);
    }
  }

  predicate FloatFree(v: Value) {
    match v
    case Float(_) => false
    case Pair(a, d) => FloatFree(a) && FloatFree(d)
    case Vector(items) => forall k :: 0 <= k < |items| ==> FloatFree(items[k])
    case Record(_, fields) => forall k :: 0 <= k < |fields| ==> FloatFree(fields[k])
    case _ => true
  }

  predicate AllFloatFree(items: seq<Value>) {
    forall k :: 0 <= k < |items| ==> FloatFree(items[k])
  }

  lemma {:induction false} ListFloatFree(v: Value)
    requires FloatFree(v)
    ensures AllFloatFree(ListItems(v))
  {
    if v.Pair? {
      ListFloatFree(v.cdr);
    }
  }

  function Max(a: nat, b: nat): nat {
    if a > b then a else b
  }
}
