/** The initial states of SHA-256 and SHA-512 (FIPS 180-4, section 5.3): fractions of square roots of primes. */
module HashConstants {
  import opened HashSpec

  /** The first eight primes, and the whole parts of their square roots */
  const PRIMES: seq<nat> := [2, 3, 5, 7, 11, 13, 17, 19]
  const ROOTS: seq<nat> := [1, 1, 2, 2, 3, 3, 4, 4]

  const WORD: nat := 0x1_0000_0000

  /** r is the square root of p times a unit, rounded down. */
  predicate IsRoot(r: nat, p: nat, unit: nat) { r * r <= p * unit * unit < (r + 1) * (r + 1) }

  lemma InitialState256(i: nat)
    requires i < 8
    ensures IsRoot(ROOTS[i] * WORD + IV256[i], PRIMES[i], WORD)
  {
    assert i == 0 || i == 1 || i == 2 || i == 3 || i == 4 || i == 5 || i == 6 || i == 7;
  }

  /** The words of SHA-512 are split into halves. */
  lemma InitialState512(i: nat)
    requires i < 8
    ensures IsRoot(ROOTS[i] * WORD * WORD + IV512[i] * WORD + IV512[8 + i], PRIMES[i], WORD * WORD)
  {
    assert i == 0 || i == 1 || i == 2 || i == 3 || i == 4 || i == 5 || i == 6 || i == 7;
  }
}
