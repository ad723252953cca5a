/** What the two hash functions of scripts/mkhash.c have in common: 64-byte blocks absorbed one
    after the other, and a final padding of the message. */
module Streaming {
  import opened Common

  type Byte = x: int | 0 <= x < 256
  type Block = b: seq<Byte> | |b| == 64 witness seq(64, i => 0)

  /** A 32-bit word of the machine. Sums are taken modulo 2^32; the bitwise operations work on
      its bits. */
  type Word = x: int | 0 <= x < 0x1_0000_0000

  function Bits(x: Word): bv32 { x as bv32 }
  function FromBits(b: bv32): Word { b as int }

  function Sum(x: Word, y: Word): Word { (x + y) % 0x1_0000_0000 }

  lemma SumAssociates(x: Word, y: Word, z: Word)
    ensures Sum(Sum(x, y), z) == Sum(x, Sum(y, z))
  {
    Wrap(x + y);
    Wrap(y + z);
    Wrap(Sum(x, y) + z);
    Wrap(x + Sum(y, z));
  }

  lemma Wrap(n: nat)
    requires n < 0x2_0000_0000
    ensures n % 0x1_0000_0000 == if n < 0x1_0000_0000 then n else n - 0x1_0000_0000
  {
  }

  /** The state after the complete blocks of data; an incomplete last block is not touched. */
  function Absorb<S>(f: (S, Block) -> S, s: S, data: seq<Byte>): S
  {
    if |data| < 64 then s else Absorb(f, f(s, data[..64]), data[64..])
  }

  /** Blocks can be absorbed in two portions, if the first consists of k complete blocks. */
  lemma {:induction false} AbsorbConcat<S>(f: (S, Block) -> S, s: S, a: seq<Byte>, k: nat, b: seq<Byte>)
    requires |a| == 64 * k
    ensures Absorb(f, s, a + b) == Absorb(f, Absorb(f, s, a), b)
    decreases k
  {
    if k == 0 {
      assert a + b == b;
    } else {
      assert (a + b)[..64] == a[..64] && (a + b)[64..] == a[64..] + b;
      AbsorbConcat(f, f(s, a[..64]), a[64..], k - 1, b);
    }
  }

  lemma AbsorbOne<S>(f: (S, Block) -> S, s: S, a: seq<Byte>, k: nat, b: Block)
    requires |a| == 64 * k
    ensures Absorb(f, s, a + b) == f(Absorb(f, s, a), b)
  {
    AbsorbConcat(f, s, a, k, b);
    assert b[..64] == b && b[64..] == [];
  }

  function Zeros(n: nat): (r: seq<Byte>)
    ensures |r| == n
  {
    seq(n, i => 0)
  }

  /** The number of zero bytes between the marker byte 0x80 and the 8 bytes of the length. */
  function ZeroCount(n: nat): (k: nat)
    ensures k < 64 && (n + 1 + k) % 64 == 56
  {
    (119 - n % 64) % 64
  }

  /** It is the least number of zeros that works. */
  lemma ZeroCountLeast(n: nat, j: nat)
    requires (n + 1 + j) % 64 == 56
    ensures ZeroCount(n) <= j
  {
  }

  /** The message followed by 0x80, zeros and its length in bits, as both standards pad it. */
  function Padded(m: seq<Byte>, length: seq<Byte>): (r: seq<Byte>)
    requires |length| == 8
    ensures |r| % 64 == 0
  {
    m + [0x80] + Zeros(ZeroCount(|m|)) + length
  }

  /** The length of n bytes in bits, modulo 2^64. */
  function BitCount(n: nat): nat { 8 * n % U64 }

  function Flatten(chunks: seq<seq<Byte>>): seq<Byte>
  {
    if chunks == [] then [] else Flatten(chunks[..|chunks| - 1]) + chunks[|chunks| - 1]
  }

  lemma FlattenNext(chunks: seq<seq<Byte>>, i: nat)
    requires i < |chunks|
    ensures Flatten(chunks[..i + 1]) == Flatten(chunks[..i]) + chunks[i]
  {
    assert chunks[..i + 1][..i] == chunks[..i];
  }

  /** memcpy from a value, and memset to zero. */
  method Copy(dst: array<Byte>, at: nat, src: seq<Byte>)
    requires at + |src| <= dst.Length
    modifies dst
    ensures dst[..] == old(dst[..at]) + src + old(dst[at + |src|..])
  {
    forall i | 0 <= i < |src| {
      dst[at + i] := src[i];
    }
  }

  lemma Reassemble(d: seq<Byte>, r: seq<Byte>, data: seq<Byte>, i: nat, k: nat)
    requires i <= k <= |data|
    ensures d + (r + data[..i]) + data[i..k] + data[k..] == d + r + data
  {
    assert data[..i] + data[i..k] == data[..k] && data[..k] + data[k..] == data;
    assert d + (r + data[..i]) + data[i..k] + data[k..] == d + r + (data[..i] + data[i..k] + data[k..]);
  }

  lemma ZerosAt(blocks: nat, r: nat)
    requires r < 64
    ensures ZeroCount(64 * blocks + r) == if r < 56 then 55 - r else 119 - r
  {
  }

  /** The padded message is the complete blocks and then one or two more. */
  lemma PadBlocks(d: seq<Byte>, rest: seq<Byte>, blocks: nat, length: seq<Byte>)
    requires |d| == 64 * blocks && |rest| < 64 && |length| == 8
    ensures var r := |rest|;
            Padded(d + rest, length) ==
              if r < 56 then d + (rest + ([0x80] + Zeros(55 - r)) + length)
              else d + (rest + ([0x80] + Zeros(63 - r))) + (Zeros(56) + length)
  {
    var r := |rest|;
    ZerosAt(blocks, r);
    if r >= 56 {
      assert Zeros(119 - r) == Zeros(63 - r) + Zeros(56);
    }
  }
}
