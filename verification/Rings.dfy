/** What the ring modules share. */
module Rings {
  datatype Option<+T> = None | Some(value: T)

  /** The slot `k` places after slot `i` in a ring of `n` slots. */
  function Slot(i: nat, k: nat, n: nat): (s: nat)
    requires i < n && k <= n
    ensures s < n
  {
    if i + k < n then i + k else i + k - n
  }
}
