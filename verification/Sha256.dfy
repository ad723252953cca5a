/** SHA-256: the digest that FIPS 180-4 defines, and the word functions of scripts/mkhash.c. */
module Sha256 {
  import opened Streaming
  import opened ShaRounds

  type State = s: seq<Word> | |s| == 8 witness seq(8, i => 0)

  // ----- FIPS 180-4 -----

  /** Section 3.2, operations 3 and 4. */
  function RotR(x: bv32, n: bv6): bv32
    requires n <= 32
  {
    (x >> n) | (x << (32 - n))
  }

  /** Section 4.1.2, on the bits of words. */
  function ChBits(x: bv32, y: bv32, z: bv32): bv32 { (x & y) ^ (!x & z) }
  function MajBits(x: bv32, y: bv32, z: bv32): bv32 { (x & y) ^ (x & z) ^ (y & z) }

  function Ch(x: Word, y: Word, z: Word): Word { FromBits(ChBits(Bits(x), Bits(y), Bits(z))) }
  function Maj(x: Word, y: Word, z: Word): Word { FromBits(MajBits(Bits(x), Bits(y), Bits(z))) }
  function BigSigma0(x: Word): Word { FromBits(RotR(Bits(x), 2) ^ RotR(Bits(x), 13) ^ RotR(Bits(x), 22)) }
  function BigSigma1(x: Word): Word { FromBits(RotR(Bits(x), 6) ^ RotR(Bits(x), 11) ^ RotR(Bits(x), 25)) }
  function SmallSigma0(x: Word): Word { FromBits(RotR(Bits(x), 7) ^ RotR(Bits(x), 18) ^ (Bits(x) >> 3)) }
  function SmallSigma1(x: Word): Word { FromBits(RotR(Bits(x), 17) ^ RotR(Bits(x), 19) ^ (Bits(x) >> 10)) }

  /** Section 4.2.2. */
  function RoundConstant(t: nat): Word
  {
    var (row, i) := (t / 8, t % 8);
    if t >= 64 then 0
    else if row == 0 then
      [0x428a2f98, 0x71374491, 0xb5c0fbcf, 0xe9b5dba5, 0x3956c25b, 0x59f111f1, 0x923f82a4, 0xab1c5ed5][i]
    else if row == 1 then
      [0xd807aa98, 0x12835b01, 0x243185be, 0x550c7dc3, 0x72be5d74, 0x80deb1fe, 0x9bdc06a7, 0xc19bf174][i]
    else if row == 2 then
      [0xe49b69c1, 0xefbe4786, 0x0fc19dc6, 0x240ca1cc, 0x2de92c6f, 0x4a7484aa, 0x5cb0a9dc, 0x76f988da][i]
    else if row == 3 then
      [0x983e5152, 0xa831c66d, 0xb00327c8, 0xbf597fc7, 0xc6e00bf3, 0xd5a79147, 0x06ca6351, 0x14292967][i]
    else if row == 4 then
      [0x27b70a85, 0x2e1b2138, 0x4d2c6dfc, 0x53380d13, 0x650a7354, 0x766a0abb, 0x81c2c92e, 0x92722c85][i]
    else if row == 5 then
      [0xa2bfe8a1, 0xa81a664b, 0xc24b8b70, 0xc76c51a3, 0xd192e819, 0xd6990624, 0xf40e3585, 0x106aa070][i]
    else if row == 6 then
      [0x19a4c116, 0x1e376c08, 0x2748774c, 0x34b0bcb5, 0x391c0cb3, 0x4ed8aa4a, 0x5b9cca4f, 0x682e6ff3][i]
    else [0x748f82ee, 0x78a5636f, 0x84c87814, 0x8cc70208, 0x90befffa, 0xa4506ceb, 0xbef9a3f7, 0xc67178f2][i]
  }

  /** Section 5.3.3. */
  const IV: State := [
    0x6A09E667, 0xBB67AE85, 0x3C6EF372, 0xA54FF53A, 0x510E527F, 0x9B05688C, 0x1F83D9AB, 0x5BE0CD19]

  const STANDARD: Mix<Word> := Mix(BigSigma0, BigSigma1, SmallSigma0, SmallSigma1, Ch, Maj, Sum, RoundConstant)

  /** Section 5.2.1: the t-th word of a block, most significant byte first. */
  function BlockWord(b: Block, t: nat): Word
    requires t < 16
  {
    var (b0: int, b1: int, b2: int, b3: int) := (b[4 * t], b[4 * t + 1], b[4 * t + 2], b[4 * t + 3]);
    0x1000000 * b0 + 0x10000 * b1 + 0x100 * b2 + b3
  }

  function BlockWords(b: Block): (w: seq<Word>)
    ensures |w| == 16
  {
    seq(16, t requires 0 <= t < 16 => BlockWord(b, t))
  }

  /** Section 6.2.2: the hash value after one more block. */
  function Hash(h: State, b: Block): State { Compress(STANDARD, h, BlockWords(b)) }

  /** The n least significant bytes of a number, most significant first. */
  function BigEndian(x: nat, n: nat): (r: seq<Byte>)
    ensures |r| == n
  {
    if n == 0 then [] else BigEndian(x / 256, n - 1) + [x % 256]
  }

  /** Section 5.1.1, with the length in bits taken modulo 2^64. */
  function Pad(m: seq<Byte>): (r: seq<Byte>)
    ensures |r| % 64 == 0
  {
    Padded(m, BigEndian(BitCount(|m|), 8))
  }

  function Serialise(s: seq<Word>): (r: seq<Byte>)
    ensures |r| == 4 * |s|
  {
    if s == [] then [] else Serialise(s[..|s| - 1]) + BigEndian(s[|s| - 1], 4)
  }

  /** Section 6.2: the digest of a message. */
  function Digest(m: seq<Byte>): seq<Byte>
  {
    Serialise(Absorb(Hash, IV, Pad(m)))
  }

  // ----- the word functions of the program -----

  /** Ch and Maj as mkhash.c writes them. */
  function ChProgramBits(x: bv32, y: bv32, z: bv32): bv32 { (x & (y ^ z)) ^ z }
  function MajProgramBits(x: bv32, y: bv32, z: bv32): bv32 { (x & (y | z)) | (y & z) }

  function ChProgram(x: Word, y: Word, z: Word): Word { FromBits(ChProgramBits(Bits(x), Bits(y), Bits(z))) }
  function MajProgram(x: Word, y: Word, z: Word): Word { FromBits(MajProgramBits(Bits(x), Bits(y), Bits(z))) }

  const PROGRAM: Rewritten<Word> := Rewritten(ChProgram, MajProgram)

  /** The rewritten elementary functions are the ones of the standard. */
  lemma ChCorrect(x: bv32, y: bv32, z: bv32)
    ensures ChProgramBits(x, y, z) == ChBits(x, y, z)
  {
    assert (x & (y ^ z)) ^ z == (x & y) ^ (!x & z);
  }

  lemma MajCorrect(x: bv32, y: bv32, z: bv32)
    ensures MajProgramBits(x, y, z) == MajBits(x, y, z)
  {
    assert (x & (y | z)) | (y & z) == (x & y) ^ (x & z) ^ (y & z);
  }

  lemma ChEverywhere()
    ensures forall x: Word, y: Word, z: Word :: PROGRAM.Ch(x, y, z) == STANDARD.Ch(x, y, z)
  {
    forall x: Word, y: Word, z: Word
      ensures PROGRAM.Ch(x, y, z) == STANDARD.Ch(x, y, z)
    {
      ChCorrect(Bits(x), Bits(y), Bits(z));
    }
  }

  lemma MajEverywhere()
    ensures forall x: Word, y: Word, z: Word :: PROGRAM.Maj(x, y, z) == STANDARD.Maj(x, y, z)
  {
    forall x: Word, y: Word, z: Word
      ensures PROGRAM.Maj(x, y, z) == STANDARD.Maj(x, y, z)
    {
      MajCorrect(Bits(x), Bits(y), Bits(z));
    }
  }

  lemma SumAssociatesEverywhere()
    ensures forall x: Word, y: Word, z: Word :: Sum(Sum(x, y), z) == Sum(x, Sum(y, z))
  {
    forall x: Word, y: Word, z: Word
      ensures Sum(Sum(x, y), z) == Sum(x, Sum(y, z))
    {
      SumAssociates(x, y, z);
    }
  }

  lemma SumEverywhere()
    ensures Sums(Sum)
  {
    SumAssociatesEverywhere();
  }

  /** On all words the program's round computes what the standard's does. */
  lemma ProgramRewrites()
    ensures Rewrites(STANDARD, PROGRAM)
  {
    ChEverywhere();
    MajEverywhere();
    SumEverywhere();
    RewritesSums(STANDARD, PROGRAM);
  }

  /** be16dec and be32dec: shifts and ors of disjoint bytes. */
  function Be16Dec(p: seq<Byte>): (r: int)
    requires |p| == 2
    ensures 0 <= r < 0x10000
  {
    var (hi: int, lo: int) := (p[0], p[1]);
    0x100 * hi + lo
  }

  function Be32Dec(p: seq<Byte>): Word
    requires |p| == 4
  {
    0x10000 * Be16Dec(p[..2]) + Be16Dec(p[2..])
  }

  /** be32enc: four bytes of a number, each shifted down and masked. */
  function Be32Enc(u: nat): (r: seq<Byte>)
    ensures |r| == 4
  {
    [u / 0x1000000 % 256, u / 0x10000 % 256, u / 0x100 % 256, u % 256]
  }

  /** be64enc. */
  function Be64Enc(u: nat): (r: seq<Byte>)
    ensures |r| == 8
  {
    Be32Enc(u / 0x1_0000_0000) + Be32Enc(u % 0x1_0000_0000)
  }

  lemma Be32DecCorrect(b: Block, t: nat)
    requires t < 16
    ensures Be32Dec(b[4 * t..4 * t + 4]) == BlockWord(b, t)
  {
    var p := b[4 * t..4 * t + 4];
    assert p[0] == b[4 * t] && p[1] == b[4 * t + 1] && p[2] == b[4 * t + 2] && p[3] == b[4 * t + 3];
  }

  /** Writing a word and reading it back gives the word. */
  lemma WordRoundTrip(w: Word)
    ensures Be32Dec(Be32Enc(w)) == w
  {
    assert w / 0x10000 == 0x100 * (w / 0x1000000) + w / 0x10000 % 256;
    assert w / 0x100 == 0x100 * (w / 0x10000) + w / 0x100 % 256;
  }

  lemma FourBytes(u: nat, n: nat)
    ensures BigEndian(u, n + 4) == BigEndian(u / 0x1_0000_0000, n) + Be32Enc(u)
  {
    var (u1, u2, u3) := (u / 0x100, u / 0x10000, u / 0x1000000);
    assert u1 / 256 == u2 && u2 / 256 == u3 && u3 / 256 == u / 0x1_0000_0000;
    assert BigEndian(u, n + 4) == BigEndian(u1, n + 3) + [u % 256];
    assert BigEndian(u1, n + 3) == BigEndian(u2, n + 2) + [u1 % 256];
    assert BigEndian(u2, n + 2) == BigEndian(u3, n + 1) + [u2 % 256];
    assert BigEndian(u3, n + 1) == BigEndian(u / 0x1_0000_0000, n) + [u3 % 256];
  }

  lemma LowBytes(q: nat, v: nat)
    ensures (0x1_0000_0000 * q + v) / 0x100 == 0x1000000 * q + v / 0x100
    ensures (0x1_0000_0000 * q + v) / 0x10000 == 0x10000 * q + v / 0x10000
    ensures (0x1_0000_0000 * q + v) / 0x1000000 == 0x100 * q + v / 0x1000000
  {
  }

  lemma LowByte(a: nat, q: nat, v: nat, k: nat)
    requires a == 0x100 * (k * q) + v
    ensures a % 256 == v % 256
  {
  }

  lemma LowHalf(u: nat)
    ensures Be32Enc(u % 0x1_0000_0000) == Be32Enc(u)
  {
    var q, v := u / 0x1_0000_0000, u % 0x1_0000_0000;
    LowBytes(q, v);
    LowByte(u, q, v, 0x1000000);
    LowByte(u / 0x100, q, v / 0x100, 0x10000);
    LowByte(u / 0x10000, q, v / 0x10000, 0x100);
    LowByte(u / 0x1000000, q, v / 0x1000000, 1);
  }

  /** be32enc writes the bytes of a word, most significant first. */
  lemma Be32EncCorrect(w: Word)
    ensures Be32Enc(w) == BigEndian(w, 4)
  {
    FourBytes(w, 0);
    assert BigEndian(w / 0x1_0000_0000, 0) == [];
  }

  /** be64enc writes the number most significant byte first. */
  lemma Be64EncCorrect(u: nat)
    ensures Be64Enc(u) == BigEndian(u, 8)
  {
    var h := u / 0x1_0000_0000;
    FourBytes(u, 4);
    FourBytes(h, 0);
    LowHalf(u);
    assert BigEndian(h / 0x1_0000_0000, 0) == [];
  }
}
