/** MD5: the digest that RFC 1321 defines, and the steps of MD5_body in scripts/mkhash.c. */
module Md5 {
  import opened Streaming
  import opened Md5Constants

  datatype Registers = Registers(a: Word, b: Word, c: Word, d: Word)

  type Words = x: seq<Word> | |x| == 16 witness seq(16, i => 0)

  // ----- RFC 1321 -----

  /** Section 3.4: the four auxiliary functions, on bits and on words. */
  function FBits(x: bv32, y: bv32, z: bv32): bv32 { (x & y) | (!x & z) }
  function GBits(x: bv32, y: bv32, z: bv32): bv32 { (x & z) | (y & !z) }
  function HBits(x: bv32, y: bv32, z: bv32): bv32 { x ^ y ^ z }
  function IBits(x: bv32, y: bv32, z: bv32): bv32 { y ^ (x | !z) }

  function Auxiliary(i: nat, x: Word, y: Word, z: Word): Word
  {
    if i < 16 then FromBits(FBits(Bits(x), Bits(y), Bits(z)))
    else if i < 32 then FromBits(GBits(Bits(x), Bits(y), Bits(z)))
    else if i < 48 then FromBits(HBits(Bits(x), Bits(y), Bits(z)))
    else FromBits(IBits(Bits(x), Bits(y), Bits(z)))
  }

  /** The word of the block used in step i, and the distance of its rotation. */
  function WordIndex(i: nat): (k: nat)
    ensures k < 16
  {
    if i < 16 then i % 16
    else if i < 32 then (5 * i + 1) % 16
    else if i < 48 then (3 * i + 5) % 16
    else 7 * i % 16
  }

  function Distance(i: nat): (s: nat)
    ensures 0 < s < 32
  {
    var j := i % 4;
    if i < 16 then (if j == 0 then 7 else if j == 1 then 12 else if j == 2 then 17 else 22)
    else if i < 32 then (if j == 0 then 5 else if j == 1 then 9 else if j == 2 then 14 else 20)
    else if i < 48 then (if j == 0 then 4 else if j == 1 then 11 else if j == 2 then 16 else 23)
    else (if j == 0 then 6 else if j == 1 then 10 else if j == 2 then 15 else 21)
  }

  function RotL(x: Word, s: nat): Word
    requires 0 < s < 32
  {
    FromBits((Bits(x) << s) | (Bits(x) >> (32 - s)))
  }

  /** One operation: a = b + ((a + aux(b,c,d) + X[k] + T[i]) <<< s). */
  function StepWord(i: nat, a: Word, b: Word, c: Word, d: Word, x: Words): Word
    requires i < 64
  {
    Sum(b, RotL(Sum(Sum(Sum(a, Auxiliary(i, b, c, d)), x[WordIndex(i)]), Additive(i)), Distance(i)))
  }

  /** After an operation the names of the registers move on by one. */
  function Operations(v: Registers, x: Words, n: nat): Registers
    requires n <= 64
  {
    if n == 0 then v
    else
      var w := Operations(v, x, n - 1);
      Registers(w.d, StepWord(n - 1, w.a, w.b, w.c, w.d, x), w.b, w.c)
  }

  /** Section 2: words are stored least significant byte first. */
  function BlockWord(b: Block, t: nat): Word
    requires t < 16
  {
    var (b0: int, b1: int, b2: int, b3: int) := (b[4 * t], b[4 * t + 1], b[4 * t + 2], b[4 * t + 3]);
    b0 + 0x100 * b1 + 0x10000 * b2 + 0x1000000 * b3
  }

  function BlockWords(b: Block): Words
  {
    seq(16, t requires 0 <= t < 16 => BlockWord(b, t))
  }

  /** Section 3.4: one block. (The number of operations is 64, given as a multiple of the block
      so that the verifier does not unroll them.) */
  function Hash(h: Registers, b: Block): Registers
  {
    var v := Operations(h, BlockWords(b), |b|);
    Registers(Sum(v.a, h.a), Sum(v.b, h.b), Sum(v.c, h.c), Sum(v.d, h.d))
  }

  /** Section 3.3. */
  const IV: Registers := Registers(0x67452301, 0xefcdab89, 0x98badcfe, 0x10325476)

  /** The n least significant bytes of a number, least significant first. */
  function LittleEndian(x: nat, n: nat): (r: seq<Byte>)
    ensures |r| == n
  {
    if n == 0 then [] else [x % 256] + LittleEndian(x / 256, n - 1)
  }

  /** Sections 3.1 and 3.2; the length in bits is taken modulo 2^64. */
  function Pad(m: seq<Byte>): (r: seq<Byte>)
  {
    Padded(m, LittleEndian(BitCount(|m|), 8))
  }

  /** Section 3.5. */
  function Output(v: Registers): seq<Byte>
  {
    LittleEndian(v.a, 4) + LittleEndian(v.b, 4) + LittleEndian(v.c, 4) + LittleEndian(v.d, 4)
  }

  function Digest(m: seq<Byte>): seq<Byte>
  {
    Output(Absorb(Hash, IV, Pad(m)))
  }

  // ----- the program -----

  /** The macros that compute the auxiliary functions. */
  datatype Macro = F | G | H | H2 | I

  function Apply(f: Macro, x: bv32, y: bv32, z: bv32): bv32
  {
    match f
    case F => z ^ (x & (y ^ z))
    case G => y ^ (z & (x ^ y))
    case H => (x ^ y) ^ z
    case H2 => x ^ (y ^ z)
    case I => y ^ (x | !z)
  }

  /** The arguments of one STEP: the macro, the word of the block, the additive constant and the
      distance of the rotation. */
  datatype Row = Row(f: Macro, k: nat, t: Word, s: nat)

  function Round1(j: nat): Row
    requires j < 16
  {
    match j
    case 0 => Row(F, 0, 0xd76aa478, 7)
    case 1 => Row(F, 1, 0xe8c7b756, 12)
    case 2 => Row(F, 2, 0x242070db, 17)
    case 3 => Row(F, 3, 0xc1bdceee, 22)
    case 4 => Row(F, 4, 0xf57c0faf, 7)
    case 5 => Row(F, 5, 0x4787c62a, 12)
    case 6 => Row(F, 6, 0xa8304613, 17)
    case 7 => Row(F, 7, 0xfd469501, 22)
    case 8 => Row(F, 8, 0x698098d8, 7)
    case 9 => Row(F, 9, 0x8b44f7af, 12)
    case 10 => Row(F, 10, 0xffff5bb1, 17)
    case 11 => Row(F, 11, 0x895cd7be, 22)
    case 12 => Row(F, 12, 0x6b901122, 7)
    case 13 => Row(F, 13, 0xfd987193, 12)
    case 14 => Row(F, 14, 0xa679438e, 17)
    case _ => Row(F, 15, 0x49b40821, 22)
  }

  function Round2(j: nat): Row
    requires j < 16
  {
    match j
    case 0 => Row(G, 1, 0xf61e2562, 5)
    case 1 => Row(G, 6, 0xc040b340, 9)
    case 2 => Row(G, 11, 0x265e5a51, 14)
    case 3 => Row(G, 0, 0xe9b6c7aa, 20)
    case 4 => Row(G, 5, 0xd62f105d, 5)
    case 5 => Row(G, 10, 0x02441453, 9)
    case 6 => Row(G, 15, 0xd8a1e681, 14)
    case 7 => Row(G, 4, 0xe7d3fbc8, 20)
    case 8 => Row(G, 9, 0x21e1cde6, 5)
    case 9 => Row(G, 14, 0xc33707d6, 9)
    case 10 => Row(G, 3, 0xf4d50d87, 14)
    case 11 => Row(G, 8, 0x455a14ed, 20)
    case 12 => Row(G, 13, 0xa9e3e905, 5)
    case 13 => Row(G, 2, 0xfcefa3f8, 9)
    case 14 => Row(G, 7, 0x676f02d9, 14)
    case _ => Row(G, 12, 0x8d2a4c8a, 20)
  }

  function Round3(j: nat): Row
    requires j < 16
  {
    match j
    case 0 => Row(H, 5, 0xfffa3942, 4)
    case 1 => Row(H2, 8, 0x8771f681, 11)
    case 2 => Row(H, 11, 0x6d9d6122, 16)
    case 3 => Row(H2, 14, 0xfde5380c, 23)
    case 4 => Row(H, 1, 0xa4beea44, 4)
    case 5 => Row(H2, 4, 0x4bdecfa9, 11)
    case 6 => Row(H, 7, 0xf6bb4b60, 16)
    case 7 => Row(H2, 10, 0xbebfbc70, 23)
    case 8 => Row(H, 13, 0x289b7ec6, 4)
    case 9 => Row(H2, 0, 0xeaa127fa, 11)
    case 10 => Row(H, 3, 0xd4ef3085, 16)
    case 11 => Row(H2, 6, 0x04881d05, 23)
    case 12 => Row(H, 9, 0xd9d4d039, 4)
    case 13 => Row(H2, 12, 0xe6db99e5, 11)
    case 14 => Row(H, 15, 0x1fa27cf8, 16)
    case _ => Row(H2, 2, 0xc4ac5665, 23)
  }

  function Round4(j: nat): Row
    requires j < 16
  {
    match j
    case 0 => Row(I, 0, 0xf4292244, 6)
    case 1 => Row(I, 7, 0x432aff97, 10)
    case 2 => Row(I, 14, 0xab9423a7, 15)
    case 3 => Row(I, 5, 0xfc93a039, 21)
    case 4 => Row(I, 12, 0x655b59c3, 6)
    case 5 => Row(I, 3, 0x8f0ccc92, 10)
    case 6 => Row(I, 10, 0xffeff47d, 15)
    case 7 => Row(I, 1, 0x85845dd1, 21)
    case 8 => Row(I, 8, 0x6fa87e4f, 6)
    case 9 => Row(I, 15, 0xfe2ce6e0, 10)
    case 10 => Row(I, 6, 0xa3014314, 15)
    case 11 => Row(I, 13, 0x4e0811a1, 21)
    case 12 => Row(I, 4, 0xf7537e82, 6)
    case 13 => Row(I, 11, 0xbd3af235, 10)
    case 14 => Row(I, 2, 0x2ad7d2bb, 15)
    case _ => Row(I, 9, 0xeb86d391, 21)
  }

  function Step(i: nat): Row
    requires i < 64
  {
    if i < 16 then Round1(i) else if i < 32 then Round2(i - 16) else if i < 48 then Round3(i - 32) else Round4(i - 48)
  }

  /** STEP, with the register it overwrites as the result. */
  function ProgramStep(r: Row, a: Word, b: Word, c: Word, d: Word, x: Word): Word
    requires 0 < r.s < 32
  {
    var t := Sum(a, Sum(Sum(FromBits(Apply(r.f, Bits(b), Bits(c), Bits(d))), x), r.t));
    Sum(RotL(t, r.s), b)
  }

  /** The rewritten auxiliary functions are the ones of the standard. */
  lemma ApplyF(x: bv32, y: bv32, z: bv32)
    ensures Apply(F, x, y, z) == FBits(x, y, z)
  {
    assert z ^ (x & (y ^ z)) == (x & y) | (!x & z);
  }

  lemma ApplyG(x: bv32, y: bv32, z: bv32)
    ensures Apply(G, x, y, z) == GBits(x, y, z)
  {
    assert y ^ (z & (x ^ y)) == (x & z) | (y & !z);
  }

  lemma ApplyH(x: bv32, y: bv32, z: bv32)
    ensures Apply(H, x, y, z) == HBits(x, y, z) == Apply(H2, x, y, z)
  {
    assert x ^ (y ^ z) == (x ^ y) ^ z;
  }

  /** The macro belongs to the round of step i. */
  predicate Fits(f: Macro, i: nat)
  {
    if i < 16 then f == F else if i < 32 then f == G else if i < 48 then f == H || f == H2 else f == I
  }

  lemma Round1Correct(j: nat)
    requires j < 16
    ensures Fits(Round1(j).f, j) && Round1(j).k == WordIndex(j) && Round1(j).s == Distance(j)
    ensures Round1(j).t == Additive(j)
  {
  }

  lemma Round2Correct(j: nat)
    requires j < 16
    ensures Fits(Round2(j).f, 16 + j) && Round2(j).k == WordIndex(16 + j) && Round2(j).s == Distance(16 + j)
    ensures Round2(j).t == Additive(16 + j)
  {
  }

  lemma Round3Correct(j: nat)
    requires j < 16
    ensures Fits(Round3(j).f, 32 + j) && Round3(j).k == WordIndex(32 + j) && Round3(j).s == Distance(32 + j)
    ensures Round3(j).t == Additive(32 + j)
  {
  }

  lemma Round4Correct(j: nat)
    requires j < 16
    ensures Fits(Round4(j).f, 48 + j) && Round4(j).k == WordIndex(48 + j) && Round4(j).s == Distance(48 + j)
    ensures Round4(j).t == Additive(48 + j)
  {
  }

  /** Each of the 64 calls of STEP uses the function, the word, the additive constant and the
      distance that the standard prescribes. */
  lemma TableCorrect(i: nat)
    requires i < 64
    ensures Fits(Step(i).f, i) && Step(i).k == WordIndex(i) && Step(i).s == Distance(i)
    ensures Step(i).t == Additive(i)
  {
    if i < 16 { Round1Correct(i); }
    else if i < 32 { Round2Correct(i - 16); }
    else if i < 48 { Round3Correct(i - 32); }
    else { Round4Correct(i - 48); }
  }

  lemma MacroCorrect(f: Macro, i: nat, x: Word, y: Word, z: Word)
    requires i < 64 && Fits(f, i)
    ensures FromBits(Apply(f, Bits(x), Bits(y), Bits(z))) == Auxiliary(i, x, y, z)
  {
    hide Apply, FBits, GBits, HBits, Bits, FromBits;
    ApplyF(Bits(x), Bits(y), Bits(z));
    ApplyG(Bits(x), Bits(y), Bits(z));
    ApplyH(Bits(x), Bits(y), Bits(z));
    ApplyI(Bits(x), Bits(y), Bits(z));
  }

  lemma ApplyI(x: bv32, y: bv32, z: bv32)
    ensures Apply(I, x, y, z) == IBits(x, y, z)
  {
  }

  /** On all words a STEP computes what the standard's operation does. */
  lemma StepCorrect(i: nat, a: Word, b: Word, c: Word, d: Word, x: Words)
    requires i < 64
    ensures Step(i).k < 16 && 0 < Step(i).s < 32
    ensures ProgramStep(Step(i), a, b, c, d, x[Step(i).k]) == StepWord(i, a, b, c, d, x)
  {
    hide Apply, Auxiliary, Bits, FromBits, RotL, Sum, Round1, Round2, Round3, Round4, Step, WordIndex, Distance;
    var r := Step(i);
    TableCorrect(i);
    MacroCorrect(r.f, i, b, c, d);
    var f, w := Auxiliary(i, b, c, d), x[WordIndex(i)];
    SumAssociates(a, f, w);
    SumAssociates(a, Sum(f, w), r.t);
    var t := Sum(a, Sum(Sum(f, w), r.t));
    SumCommutes(RotL(t, r.s), b);
  }

  lemma SumCommutes(x: Word, y: Word)
    ensures Sum(x, y) == Sum(y, x)
  {
  }
}
