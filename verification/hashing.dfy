/** Hash functions as parameters: nothing is assumed of them but the digest length. Every hash
    of fixed length has collisions, so binding results say more than that one exists: they
    hand back two inputs that the computations in question did hash. */
module Hashing {
  import opened Bytes

  type HashFunction = Bytes -> Bytes

  ghost predicate Digests(h: HashFunction, size: nat) {
    forall x: Bytes :: |h(x)| == size
  }

  ghost predicate Collision(h: HashFunction, x: Bytes, y: Bytes) {
    x != y && h(x) == h(y)
  }

  /** A collision between an input from `a` and one from `b`. */
  ghost predicate Clash(h: HashFunction, a: set<Bytes>, b: set<Bytes>, x: Bytes, y: Bytes) {
    x in a && y in b && Collision(h, x, y)
  }

  function Elements(inputs: seq<Bytes>): set<Bytes> {
    set x | x in inputs
  }
}
