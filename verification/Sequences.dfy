/** Bytes, the lesser of two numbers, and a law of concatenation that large proofs would rather be told than find. */
module Sequences {
  type byte = x: int | 0 <= x < 256
  type Octets = seq<byte>

  function Min(a: int, b: int): int {
    if a < b then a else b
  }

  lemma Regroup<T>(a: seq<T>, b: seq<T>, c: seq<T>)
    ensures (a + b) + c == a + (b + c)
  {
  }
}
