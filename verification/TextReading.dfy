/** What the readers of texts return, and how it builds up. */
module TextReading {
  import opened Util

  // What a text reader returns: items read, put after those read before.
  ghost function After<T, R>(done: seq<T>, r: Result<(seq<T>, R)>): Result<(seq<T>, R)> {
    match r
    case Abort => Abort
    case Ok((more, rest)) => Ok((done + more, rest))
  }

  lemma AfterNothing<T, R>(r: Result<(seq<T>, R)>)
    ensures After([], r) == r
  {
    assert r.Ok? ==> [] + r.value.0 == r.value.0;
  }

  lemma AfterEnd<T, R>(done: seq<T>, r: Result<(seq<T>, R)>)
    ensures r.Abort? ==> After(done, r).Abort?
    ensures r.Ok? ==> After(done, r) == Ok((done + r.value.0, r.value.1))
    ensures r.Ok? && r.value.0 == [] ==> After(done, r) == Ok((done, r.value.1))
  {
    assert done + [] == done;
  }

  lemma AfterTwice<T, R>(a: seq<T>, b: seq<T>, r: Result<(seq<T>, R)>)
    ensures After(a, After(b, r)) == After(a + b, r)
  {
    assert r.Ok? ==> a + (b + r.value.0) == a + b + r.value.0;
  }
}
