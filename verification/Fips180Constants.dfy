/** What the constants and functions of FIPS PUB 180-1 are, apart from their definitions. */
module Fips180Constants {

  import opened Bytes
  import opened Fips180

  const TWO_60 := 0x1000_0000_0000_0000

  /** k is the integral part of 2^30 times the square root of n. */
  predicate IsRoot(k: nat, n: nat) {
    k * k <= n * TWO_60 < (k + 1) * (k + 1)
  }

  /** The constants are the roots of 2, 3, 5 and 10. */
  lemma KIsRoot(t: nat)
    requires t < 80
    ensures IsRoot(K(t) as nat, if t < 20 then 2 else if t < 40 then 3 else if t < 60 then 5 else 10)
  {
    assert IsRoot(0x5A827999, 2) && IsRoot(0x6ED9EBA1, 3) && IsRoot(0x8F1BBCDC, 5) && IsRoot(0xCA62C1D6, 10);
  }

  // A word m marks places; for a single bit m the conditions below are all cases there are.

  /** Where b has ones, the function of the first twenty steps takes the bits of c, */
  lemma ChoosesC(t: nat, b: Word, c: Word, d: Word, m: Word)
    requires t < 20 && b & m == m
    ensures F(t, b, c, d) & m == c & m
  {
  }

  /** and where it has zeros those of d. */
  lemma ChoosesD(t: nat, b: Word, c: Word, d: Word, m: Word)
    requires t < 20 && b & m == 0
    ensures F(t, b, c, d) & m == d & m
  {
  }

  /** That of the second and the last twenty is the parity: where two words agree, it takes the third. */
  lemma ParityTakesD(t: nat, b: Word, c: Word, d: Word, m: Word)
    requires 20 <= t && !(40 <= t < 60) && b & m == c & m
    ensures F(t, b, c, d) & m == d & m
  {
  }

  lemma ParityTakesC(t: nat, b: Word, c: Word, d: Word, m: Word)
    requires 20 <= t && !(40 <= t < 60) && b & m == d & m
    ensures F(t, b, c, d) & m == c & m
  {
  }

  lemma ParityTakesB(t: nat, b: Word, c: Word, d: Word, m: Word)
    requires 20 <= t && !(40 <= t < 60) && c & m == d & m
    ensures F(t, b, c, d) & m == b & m
  {
  }

  /** That of the third twenty is the majority: where two words agree, it takes these. */
  lemma MajorityOfBC(t: nat, b: Word, c: Word, d: Word, m: Word)
    requires 40 <= t < 60 && b & m == c & m
    ensures F(t, b, c, d) & m == b & m
  {
  }

  lemma MajorityOfBD(t: nat, b: Word, c: Word, d: Word, m: Word)
    requires 40 <= t < 60 && b & m == d & m
    ensures F(t, b, c, d) & m == b & m
  {
  }

  lemma MajorityOfCD(t: nat, b: Word, c: Word, d: Word, m: Word)
    requires 40 <= t < 60 && c & m == d & m
    ensures F(t, b, c, d) & m == c & m
  {
  }

  /** The octets of the initial words, the last octet of each first, count up in steps of 0x22, down again,
      and down from 0xF0 in steps of 0x0F. */
  lemma InitialPattern()
    ensures INITIAL.a as nat == 0x01 + 0x23 * 0x100 + 0x45 * 0x1_0000 + 0x67 * 0x100_0000
    ensures INITIAL.b as nat == 0x89 + 0xAB * 0x100 + 0xCD * 0x1_0000 + 0xEF * 0x100_0000
    ensures INITIAL.c as nat == 0xFE + 0xDC * 0x100 + 0xBA * 0x1_0000 + 0x98 * 0x100_0000
    ensures INITIAL.d as nat == 0x76 + 0x54 * 0x100 + 0x32 * 0x1_0000 + 0x10 * 0x100_0000
    ensures INITIAL.e as nat == 0xF0 + 0xE1 * 0x100 + 0xD2 * 0x1_0000 + 0xC3 * 0x100_0000
  {
  }
}
