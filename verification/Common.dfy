/** Small types that several of the models share. */
module Common {
  datatype Option<T> = None | Some(value: T)

  /** A byte as a number. */
  type Octet = x: int | 0 <= x < 256

  /** A byte that is only moved about. */
  type Byte = bv8

  const TWO32 := 0x1_0000_0000
  const TWO64 := 0x1_0000_0000_0000_0000

  function Pow2(n: nat): nat {
    if n == 0 then 1 else 2 * Pow2(n - 1)
  }

  lemma Assoc<T>(a: seq<T>, b: seq<T>, c: seq<T>)
    ensures a + (b + c) == a + b + c
  {
  }

  function Reversed<T>(s: seq<T>): (r: seq<T>)
    ensures |r| == |s|
  {
    if s == [] then [] else Reversed(s[1..]) + [s[0]]
  }
}
