/** What most of the model uses. */
module Basics {
  type Byte = b: nat | b < 256

  datatype Option<+T> = None | Some(value: T)

  function Abs(n: int): nat
  {
    if n < 0 then -n else n
  }

  lemma Fourth(q: nat, r: nat)
    requires r < 4
    ensures (4 * q + r) / 4 == q && (4 * q + r) % 4 == r
  {
  }

  lemma Eighth(q: nat, r: nat)
    requires r < 8
    ensures (8 * q + r) / 8 == q && (8 * q + r) % 8 == r
  {
  }
}
