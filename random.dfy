/** The seeded pseudo-random generator the generators draw from (an XORShift64 of the
    random-seedable package). Its internals are not part of this model: the class keeps
    a state and advances it with a stand-in recurrence, and callers rely only on the
    ranges the three operations promise. */
module Random {

  const Modulus: nat := 0x1_0000_0000_0000_0000

  class Prng {
    var state: nat

    constructor (seed: nat)
      ensures state == seed % Modulus
    {
      state := seed % Modulus;
    }

    /** Advances the state by one step of the stand-in recurrence. */
    method Next() returns (v: nat)
      modifies this
      ensures v == state && v < Modulus
    {
      state := (state * 6364136223846793005 + 1442695040888963407) % Modulus;
      v := state;
    }

    /** r.float(): a number in [0, 1). */
    method Float() returns (f: real)
      modifies this
      ensures 0.0 <= f < 1.0
    {
      var v := Next();
      f := v as real / Modulus as real;
    }

    /** r.randBelow(n): an integer in [0, n). */
    method RandBelow(n: nat) returns (k: nat)
      requires n > 0
      modifies this
      ensures k < n
    {
      var v := Next();
      k := v % n;
    }

    /** r.choice(s): one of the elements of a non-empty sequence. */
    method Choice<T>(s: seq<T>) returns (v: T)
      requires |s| > 0
      modifies this
      ensures v in s
    {
      var k := RandBelow(|s|);
      v := s[k];
    }
  }
}
