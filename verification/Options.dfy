/** Optional values, and optional lists that grow at the front. */
module Options {

  datatype Option<+T> = None | Some(value: T)

  function Prepend<T>(first: seq<T>, rest: Option<seq<T>>): Option<seq<T>> {
    match rest
    case Some(values) => Some(first + values)
    case None => None
  }

  lemma PrependJoins<T>(a: seq<T>, b: seq<T>, r: Option<seq<T>>)
    ensures Prepend(a, Prepend(b, r)) == Prepend(a + b, r)
    ensures Prepend([], r) == r
  {
    if r.Some? {
      assert a + (b + r.value) == a + b + r.value;
      assert [] + r.value == r.value;
    }
  }
}
