/** What several modules share: bytes, optional values and sequences. */
module Common {

  type byte = x: int | 0 <= x < 256 witness 0

  datatype Option<T> = None | Some(value: T)

  function Least(a: nat, b: nat): nat {
    if a < b then a else b
  }

  lemma Associates<T>(a: seq<T>, b: seq<T>, c: seq<T>)
    ensures (a + b) + c == a + (b + c)
  {
  }
}
