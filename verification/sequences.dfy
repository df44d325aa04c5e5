/** What the verifier is told about sequences where it does not see it. */
module Sequences {
  lemma Assoc<T>(x: seq<T>, y: seq<T>, z: seq<T>)
    ensures (x + y) + z == x + (y + z)
  {}

  lemma HeadAndTail<T>(x: seq<T>)
    requires x != []
    ensures [x[0]] + x[1..] == x
  {}
}
