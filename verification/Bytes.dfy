/** Octets, and stretches of them, as every component of the model uses them. */
module Bytes {

  type Byte = b: int | 0 <= b < 256

  /** Addition of unsigned chars. */
  function Add8(a: Byte, b: Byte): (r: Byte)
  {
    (a as int + b as int) % 256
  }

  /** Subtraction of unsigned chars. */
  function Sub8(a: Byte, b: Byte): (r: Byte)
    ensures Add8(r, b) == a
  {
    (a as int - b as int) % 256
  }

  /** The stretches one after the other. */
  function Join(bs: seq<seq<Byte>>): (s: seq<Byte>)
  {
    if bs == [] then [] else Join(bs[..|bs| - 1]) + bs[|bs| - 1]
  }

  lemma JoinLast(bs: seq<seq<Byte>>, b: seq<Byte>)
    ensures Join(bs + [b]) == Join(bs) + b
  {
    assert (bs + [b])[..|bs|] == bs;
  }
}
