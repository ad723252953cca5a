/** Where the constants of SHA-256 come from (sections 4.2.2 and 5.3.3 of FIPS 180-4): the first 32
    bits of the fractional parts of the cube roots of the first 64 prime numbers, and of the square
    roots of the first eight. */
module Sha256Constants {
  import opened Streaming
  import opened Sha256

  /** The first 64 prime numbers. */
  function Prime(t: nat): nat
    requires t < 64
  {
    var (row, i) := (t / 8, t % 8);
    if row == 0 then [2, 3, 5, 7, 11, 13, 17, 19][i]
    else if row == 1 then [23, 29, 31, 37, 41, 43, 47, 53][i]
    else if row == 2 then [59, 61, 67, 71, 73, 79, 83, 89][i]
    else if row == 3 then [97, 101, 103, 107, 109, 113, 127, 131][i]
    else if row == 4 then [137, 139, 149, 151, 157, 163, 167, 173][i]
    else if row == 5 then [179, 181, 191, 193, 197, 199, 211, 223][i]
    else if row == 6 then [227, 229, 233, 239, 241, 251, 257, 263][i]
    else [269, 271, 277, 281, 283, 293, 307, 311][i]
  }

  /** The whole part of the cube root of one of these primes. */
  function Whole(p: nat): (c: nat)
    ensures p < 343 ==> p == 0 || c * c * c <= p < (c + 1) * (c + 1) * (c + 1)
  {
    if p < 8 then 1 else if p < 27 then 2 else if p < 64 then 3 else if p < 125 then 4 else if p < 216 then 5 else 6
  }

  /** x is the cube root of p, times 2^32 and rounded down. */
  predicate CubeRoot(p: nat, x: nat)
  {
    x * x * x <= p * 0x1_0000_0000_0000_0000_0000_0000 < (x + 1) * (x + 1) * (x + 1)
  }

  lemma FirstQuarter(t: nat)
    requires 0 <= t < 16
    ensures CubeRoot(Prime(t), Whole(Prime(t)) * 0x1_0000_0000 + RoundConstant(t))
  {
  }

  lemma SecondQuarter(t: nat)
    requires 16 <= t < 32
    ensures CubeRoot(Prime(t), Whole(Prime(t)) * 0x1_0000_0000 + RoundConstant(t))
  {
  }

  lemma ThirdQuarter(t: nat)
    requires 32 <= t < 48
    ensures CubeRoot(Prime(t), Whole(Prime(t)) * 0x1_0000_0000 + RoundConstant(t))
  {
  }

  lemma LastQuarter(t: nat)
    requires 48 <= t < 64
    ensures CubeRoot(Prime(t), Whole(Prime(t)) * 0x1_0000_0000 + RoundConstant(t))
  {
  }

  /** Every round constant has the bits of its cube root. */
  lemma RoundConstantCorrect(t: nat)
    requires t < 64
    ensures CubeRoot(Prime(t), Whole(Prime(t)) * 0x1_0000_0000 + RoundConstant(t))
  {
    if t < 16 {
      FirstQuarter(t);
    } else if t < 32 {
      SecondQuarter(t);
    } else if t < 48 {
      ThirdQuarter(t);
    } else {
      LastQuarter(t);
    }
  }

  /** x is the square root of p, times 2^32 and rounded down. */
  predicate SquareRoot(p: nat, x: nat)
  {
    x * x <= p * 0x1_0000_0000_0000_0000 < (x + 1) * (x + 1)
  }

  /** The whole part of the square root of one of the first eight primes. */
  function WholeRoot(p: nat): (c: nat)
    ensures 0 < p < 25 ==> c * c <= p < (c + 1) * (c + 1)
  {
    if p < 4 then 1 else if p < 9 then 2 else if p < 16 then 3 else 4
  }

  /** Every word of the initial hash value has the bits of its square root. */
  lemma InitialValueCorrect(i: nat)
    requires i < 8
    ensures SquareRoot(Prime(i), WholeRoot(Prime(i)) * 0x1_0000_0000 + IV[i])
  {
    var p := Prime(i);
    assert i < 4 ==> p == (if i == 0 then 2 else if i == 1 then 3 else if i == 2 then 5 else 7);
    assert i >= 4 ==> p == (if i == 4 then 11 else if i == 5 then 13 else if i == 6 then 17 else 19);
  }
}
