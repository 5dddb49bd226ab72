/** Small facts about finite collections shared by several modules. */
module Util {
  datatype Option<+T> = None | Some(value: T)

  datatype Result<+T> = Ok(value: T) | Abort

  // What a computation on C ints comes to: a value, an abort, or an addition or product past the range of int, on
  // which C puts no meaning.
  datatype Outcome<+T> = Returns(value: T) | Aborts | Overflows

  const INT_MAX: nat := 0x7FFF_FFFF

  ghost predicate Distinct<T>(s: seq<T>) {
    forall i, j :: 0 <= i < j < |s| ==> s[i] != s[j]
  }

  function Elems<T(==)>(s: seq<T>): set<T> {
    set x | x in s
  }

  // The pigeonhole principle: a duplicate-free sequence drawn from a finite set is no longer than the set.
  lemma {:induction false} DistinctWithin<T>(s: seq<T>, space: set<T>)
    requires Distinct(s) && forall x :: x in s ==> x in space
    ensures |s| <= |space|
  {
    if s != [] {
      var last := s[|s| - 1];
      var front := s[..|s| - 1];
      forall x | x in front ensures x in space - {last} {
        var i :| 0 <= i < |front| && front[i] == x;
        assert s[i] == x && s[i] != last;
      }
      DistinctWithin(front, space - {last});
    }
  }

  function Interval(n: nat): (r: set<nat>)
    ensures forall i: nat :: i in r <==> i < n
    ensures |r| == n
  {
    if n == 0 then {} else Interval(n - 1) + {n - 1}
  }

  lemma Associates<T>(a: seq<T>, b: seq<T>, c: seq<T>)
    ensures a + b + c == a + (b + c)
  {
  }

  lemma Regroup<T>(a: seq<T>, b: seq<T>, c: seq<T>, d: seq<T>)
    ensures a + (b + c + d) == a + b + (c + d)
    ensures a + (b + c + d) == a + b + c + d
    ensures b + c + d == b + (c + d)
  {
  }
}
