/** Optional values, for the source's `Option` and for reads that can fail; and a fact about sequences. */
module Wrappers {
  datatype Option<+T> = None | Some(value: T)

  lemma Associate<T>(a: seq<T>, b: seq<T>, c: seq<T>)
    ensures (a + b) + c == a + (b + c)
  {
  }
}
