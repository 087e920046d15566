/** The random source the screensaver draws from (Math.random in the source),
    injected as an object so that every proof holds whatever values it yields. */
module Oracle {

  /** Math.floor(u * n) for a draw u in [0, 1): an index below n. */
  function ScaledIndex(u: real, n: nat): (i: nat)
    requires 0.0 <= u < 1.0 && n > 0
    ensures i < n
    ensures i as real <= u * n as real < i as real + 1.0
  {
    assert u * n as real < n as real by { ScaleBelow(u, n); }
    (u * n as real).Floor
  }

  lemma ScaleBelow(u: real, n: nat)
    requires 0.0 <= u < 1.0 && n > 0
    ensures 0.0 <= u * n as real < n as real
  {
    assert (1.0 - u) * n as real > 0.0;
  }

  /** A seeded linear congruential generator standing in for Math.random. */
  class Random {
    var state: nat

    const Modulus: nat := 0x8000_0000

    ghost predicate Valid()
      reads this
    {
      state < Modulus
    }

    constructor (seed: nat)
      ensures Valid()
    {
      state := seed % 0x8000_0000;
    }

    /** One draw in [0, 1), like Math.random(). */
    method Next() returns (u: real)
      requires Valid()
      modifies this
      ensures Valid()
      ensures 0.0 <= u < 1.0
    {
      state := (state * 1103515245 + 12345) % Modulus;
      u := state as real / Modulus as real;
    }

    /** Math.floor(Math.random() * n): an index in [0, n). */
    method Below(n: nat) returns (i: nat)
      requires Valid() && n > 0
      modifies this
      ensures Valid()
      ensures i < n
    {
      var u := Next();
      i := ScaledIndex(u, n);
    }
  }
}
