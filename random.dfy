/**
 * The engine's only source of randomness is Math.random(), used to pick a
 * swap partner in a Fisher-Yates shuffle. It is modelled as an oracle that is
 * handed in from outside: draw(k) is whatever the k-th call produced. Nothing
 * is known about its distribution, so every property proved here and by the
 * callers holds for every possible sequence of random numbers.
 */
module Random {

  /** A random source: the k-th call answers draw(k). */
  class Rng {
    const draw: nat -> nat
    var calls: nat

    constructor (draw: nat -> nat)
      ensures this.draw == draw && calls == 0
    {
      this.draw := draw;
      calls := 0;
    }

    /** Math.floor(Math.random() * n): an index below n. */
    method Below(n: nat) returns (j: nat)
      requires n >= 1
      modifies this
      ensures j < n
      ensures j == draw(old(calls)) % n && calls == old(calls) + 1
    {
      j := draw(calls) % n;
      calls := calls + 1;
    }
  }

  /** In-place Fisher-Yates shuffle: the array ends up a permutation of what it held. */
  method Shuffle<T>(a: array<T>, rng: Rng)
    modifies a, rng
    ensures multiset(a[..]) == multiset(old(a[..]))
  {
    var i := a.Length - 1;
    while i > 0
      invariant -1 <= i < a.Length || a.Length == 0
      invariant multiset(a[..]) == multiset(old(a[..]))
      decreases i
    {
      var j := rng.Below(i + 1);
      a[i], a[j] := a[j], a[i];
      i := i - 1;
    }
  }
}
