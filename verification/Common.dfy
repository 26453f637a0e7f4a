/** What several models share. */
module Common {

  type byte = x: int | 0 <= x < 256

  lemma MulAtLeast(c: nat, d: int)
    requires d >= 1
    ensures c * d >= c
  {
  }
}
