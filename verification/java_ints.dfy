/** Java's 32-bit `int`: its range and its wrap-around arithmetic. */
module JavaInts {

  const Int32Min: int := -0x8000_0000
  const Int32Max: int := 0x7fff_ffff

  /** The `int` a Java expression yields for the exact value x: the one
      value of the 32-bit range that is congruent to x modulo 2^32. */
  function Wrap32(x: int): (r: int)
    ensures Int32Min <= r <= Int32Max
    ensures (r - x) % 0x1_0000_0000 == 0
    ensures Int32Min <= x <= Int32Max ==> r == x
  {
    (x - Int32Min) % 0x1_0000_0000 + Int32Min
  }

  /** Subtracting one from the smallest `int` wraps round to the largest. */
  lemma DecrementWraps()
    ensures Wrap32(Int32Min - 1) == Int32Max
  {
  }
}
