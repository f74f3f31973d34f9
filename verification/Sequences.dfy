/** What the lists and queues of the kernel have in common. */
module Sequences {
  /** No element occurs twice. */
  ghost predicate NoRepeat(q: seq<nat>) {
    forall i, j | 0 <= i < j < |q| :: q[i] != q[j]
  }
}
