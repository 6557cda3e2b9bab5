// Small things several modules share.
module Basics {

  datatype Option<+T> = None | Some(value: T)

  datatype Result<+T> = Ok(value: T) | Err(error: string)

  /** The size of the 32-bit address space. */
  const SPACE32: nat := 0x1_0000_0000

  type Byte = b: int | 0 <= b < 256

  lemma {:induction false} MultiplesGrow(k: nat, a: nat, b: nat)
    requires a <= b
    ensures k * a <= k * b
  {
    if a < b {
      MultiplesGrow(k, a, b - 1);
    }
  }

  /** Taking a remainder of an index that ran past the end at most once. */
  lemma ModOnce(i: nat, n: nat)
    requires 0 < n && i < 2 * n
    ensures i % n == if i < n then i else i - n
  {
    var d := i / n;
    assert i == n * d + i % n;
    if d >= 2 {
      MultiplesGrow(n, 2, d);
    } else if d == 1 {
      assert n * d == n;
    }
  }
}
