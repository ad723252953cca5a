/** The streaming interface of MD5 in scripts/mkhash.c: MD5_begin, MD5_hash and MD5_end on a
    context that is updated in place. */
module Md5Context {
  import opened Common
  import opened Streaming
  import opened Md5

  const U29: nat := 0x2000_0000
  const U32: nat := 0x1_0000_0000

  class Context {
    var lo: nat
    var hi: nat
    var a: Word
    var b: Word
    var c: Word
    var d: Word
    const buffer: array<Byte>
    ghost var blocks: nat        // complete blocks taken in so far
    ghost var done: seq<Byte>    // their bytes
    ghost var rest: seq<Byte>    // the bytes that wait for their block to be completed

    /** The registers hold the hash value of the complete blocks. */
    ghost predicate Hashed()
      reads this
    {
      |done| == 64 * blocks && Registers(a, b, c, d) == Absorb(Hash, IV, done)
    }

    ghost predicate Valid()
      reads this, buffer
    {
      && Hashed() && |rest| < 64
      && buffer.Length == 64 && buffer[..|rest|] == rest
      && Counts(lo, hi, 64 * blocks + |rest|)
    }

    ghost function Message(): seq<Byte>
      reads this
    {
      done + rest
    }

    /** MD5_begin. */
    constructor ()
      ensures Valid() && Message() == [] && fresh(buffer)
    {
      a, b, c, d := 0x67452301, 0xefcdab89, 0x98badcfe, 0x10325476;
      lo, hi := 0, 0;
      buffer := new Byte[64](_ => 0);
      blocks, done, rest := 0, [], [];
    }

    /** The 64 STEPs of MD5_body on one block, four at a time, and the final additions. */
    method Block(data: Streaming.Block)
      modifies this`a, this`b, this`c, this`d
      ensures Registers(a, b, c, d) == Hash(old(Registers(a, b, c, d)), data)
    {
      hide ProgramStep, StepWord, Step, BlockWord;
      var x := BlockWords(data);
      var savedA, savedB, savedC, savedD := a, b, c, d;
      ghost var v := Registers(a, b, c, d);
      var i := 0;
      while i < 64
        invariant i <= 64 && i % 4 == 0
        invariant Registers(a, b, c, d) == Operations(v, x, i)
      {
        StepCorrect(i, a, b, c, d, x);
        a := ProgramStep(Step(i), a, b, c, d, x[Step(i).k]);
        assert Registers(d, a, b, c) == Operations(v, x, i + 1);
        StepCorrect(i + 1, d, a, b, c, x);
        d := ProgramStep(Step(i + 1), d, a, b, c, x[Step(i + 1).k]);
        assert Registers(c, d, a, b) == Operations(v, x, i + 2);
        StepCorrect(i + 2, c, d, a, b, x);
        c := ProgramStep(Step(i + 2), c, d, a, b, x[Step(i + 2).k]);
        assert Registers(b, c, d, a) == Operations(v, x, i + 3);
        StepCorrect(i + 3, b, c, d, a, x);
        b := ProgramStep(Step(i + 3), b, c, d, a, x[Step(i + 3).k]);
        i := i + 4;
      }
      a, b, c, d := Sum(a, savedA), Sum(b, savedB), Sum(c, savedC), Sum(d, savedD);
    }

    /** MD5_body: one or more complete blocks, from position k of the data on. */
    method Body(data: seq<Byte>, k: nat, size: nat, ghost n: nat)
      requires size == 64 * n && n > 0 && k + size <= |data|
      requires Hashed() && rest == []
      modifies this`a, this`b, this`c, this`d, this`blocks, this`done
      ensures Hashed() && blocks == old(blocks) + n && done == old(done) + data[k..k + size]
    {
      hide Hash;
      var j := 0;
      ghost var i := 0;
      while true
        invariant i < n && j == 64 * i
        invariant Hashed() && blocks == old(blocks) + i && done == old(done) + data[k..k + j]
        decreases n - i
      {
        var b := data[k + j..k + j + 64];
        AbsorbOne(Hash, IV, done, blocks, b);
        Block(b);
        assert data[k..k + j + 64] == data[k..k + j] + b;
        blocks, done := blocks + 1, done + b;
        j, i := j + 64, i + 1;
        if j == size {
          break;
        }
      }
    }

    /** Copies new bytes behind the waiting ones. */
    method Append(used: nat, data: seq<Byte>)
      requires buffer.Length == 64 && used == |rest| && used + |data| <= 64 && buffer[..used] == rest
      modifies buffer
      ensures buffer[..used + |data|] == rest + data
    {
      Copy(buffer, used, data);
      assert buffer[..used + |data|] == buffer[..][..used + |data|];
    }

    /** MD5_body on the full buffer. */
    method BufferedBlock()
      requires buffer.Length == 64 && |done| == 64 * blocks && Registers(a, b, c, d) == Absorb(Hash, IV, done)
      modifies this`a, this`b, this`c, this`d, this`blocks, this`done, this`rest
      ensures Hashed() && blocks == old(blocks) + 1 && done == old(done) + old(buffer[..]) && rest == []
    {
      rest := [];
      var b := buffer[..];
      Body(b, 0, 64, 1);
      assert b[0..64] == b;
    }

    /** The counter update of MD5_hash. */
    method CountBytes(size: nat, ghost n: nat)
      requires Counts(lo, hi, n) && size < U64
      modifies this`lo, this`hi
      ensures Counts(lo, hi, n + size)
    {
      var savedLo := lo;
      lo := (savedLo + size) % U29;
      if lo < savedLo {
        hi := (hi + 1) % U32;
      }
      hi := (hi + size / U29 % U32) % U32;
      CounterStep(savedLo, old(hi), n, size, lo, hi);
    }

    /** The complete blocks of the data from position k on, and the position behind them. */
    method CompleteBlocks(data: seq<Byte>, k: nat) returns (j: nat)
      requires k <= |data| && Hashed() && rest == []
      modifies this`a, this`b, this`c, this`d, this`blocks, this`done
      ensures k <= j <= |data| < j + 64
      ensures Hashed() && 64 * blocks == 64 * old(blocks) + (j - k) && done == old(done) + data[k..j]
    {
      hide Hash, Absorb;
      j := k;
      if |data| - k >= 64 {
        var size := (|data| - k) / 64 * 64;
        Body(data, k, size, (|data| - k) / 64);
        j := k + size;
      }
    }

    /** The number of bytes left in the buffer from earlier updates, read off the counter. */
    method BytesBuffered() returns (used: nat)
      requires Counts(lo, hi, 64 * blocks + |rest|) && |rest| < 64
      ensures used == |rest|
    {
      used := lo % 64;
      BytesWaiting(lo, hi, blocks, |rest|);
    }

    /** Completes the waiting block and hashes it. */
    method FillBuffer(used: nat, data: seq<Byte>)
      requires Hashed() && used == |rest| && used < 64 <= used + |data| && buffer.Length == 64 && buffer[..used] == rest
      modifies this`a, this`b, this`c, this`d, this`blocks, this`done, this`rest, buffer
      ensures Hashed() && blocks == old(blocks) + 1 && rest == []
      ensures done == old(done) + (old(rest) + data[..64 - used])
    {
      hide Hash, Absorb;
      Append(used, data[..64 - used]);
      assert buffer[..64] == buffer[..];
      BufferedBlock();
    }

    /** Leaves the incomplete last block in the buffer. */
    method KeepRest(data: seq<Byte>, k: nat)
      requires k <= |data| < k + 64 && buffer.Length == 64
      modifies this`rest, buffer
      ensures rest == data[k..] && buffer[..|rest|] == rest
    {
      rest := [];
      assert buffer[..0] == [];
      Append(0, data[k..]);
      rest := data[k..];
    }

    /** The data from position k on, when nothing waits in the buffer. */
    method HashFrom(data: seq<Byte>, k: nat) returns (j: nat)
      requires k <= |data| && Hashed() && rest == [] && buffer.Length == 64
      modifies this`a, this`b, this`c, this`d, this`blocks, this`done, this`rest, buffer
      ensures k <= j <= |data| && Hashed() && 64 * blocks + |rest| == 64 * old(blocks) + |data| - k
      ensures done == old(done) + data[k..j] && rest == data[j..] && |rest| < 64 && buffer[..|rest|] == rest
    {
      hide Hash, Absorb;
      j := CompleteBlocks(data, k);
      KeepRest(data, j);
    }

    /** MD5_hash. */
    method Update(data: seq<Byte>)
      requires Valid() && |data| < U64
      modifies this, buffer
      ensures Valid() && Message() == old(Message()) + data
    {
      hide Hash, Counts, Absorb;
      var used := BytesBuffered();
      ghost var n := 64 * blocks + |rest|;
      CountBytes(|data|, n);
      var k := 0;
      if used > 0 {
        var available := 64 - used;
        if |data| < available {
          Append(used, data);
          rest := rest + data;
          return;
        }
        FillBuffer(used, data);
        k := available;
      }
      ghost var k0 := k;
      k := HashFrom(data, k);
      assert 64 * blocks + |rest| == n + |data|;
      Reassemble(old(done), old(rest), data, k0, k);
    }

    /** The first part of MD5_end: the marker byte and the zeros up to byte 56. */
    method PadToLength(ghost length: seq<Byte>) returns (ghost front: seq<Byte>)
      requires Valid() && |length| == 8
      modifies this, buffer
      ensures Hashed() && lo == old(lo) && hi == old(hi)
      ensures buffer.Length == 64 && front == buffer[..56]
      ensures Padded(old(Message()), length) == done + (front + length)
    {
      hide Hash, Counts, Absorb, Padded;
      var used := BytesBuffered();
      PadBlocks(done, rest, blocks, length);
      Append(used, [0x80]);
      rest := rest + [0x80];
      used := used + 1;
      var available := 64 - used;
      if available < 8 {
        Append(used, Zeros(available));
        assert buffer[..64] == buffer[..];
        assert buffer[..] == old(rest) + ([0x80] + Zeros(63 - |old(rest)|));
        BufferedBlock();
        used, available := 0, 64;
        assert buffer[..0] == [];
      }
      Append(used, Zeros(available - 8));
      front := buffer[..56];
      assert old(|rest|) < 56 ==> front == old(rest) + ([0x80] + Zeros(55 - |old(rest)|));
      assert old(|rest|) >= 56 ==> front == Zeros(56);
    }

    /** MD5_end, which also clears the context. */
    method Final() returns (result: seq<Byte>)
      requires Valid()
      modifies this, buffer
      ensures result == Digest(old(Message()))
      ensures a == b == c == d == lo == hi == 0 && forall i :: 0 <= i < buffer.Length ==> buffer[i] == 0
    {
      hide Hash, Counts, Absorb, Padded, LittleEndian, Low;
      ghost var m := Message();
      ghost var length := LittleEndian(BitCount(|m|), 8);
      LengthBytes(lo, hi, 64 * blocks + |rest|);
      ghost var front := PadToLength(length);
      lo := lo * 8 % U32;
      Copy(buffer, 56, Low(lo) + Low(hi));
      assert buffer[..] == front + length;
      ghost var d0 := done;
      BufferedBlock();
      assert done == Md5.Pad(m);
      LowCorrect(a);
      LowCorrect(b);
      LowCorrect(c);
      LowCorrect(d);
      result := Low(a) + Low(b) + Low(c) + Low(d);
      a, b, c, d, lo, hi := 0, 0, 0, 0, 0, 0;
      forall j | 0 <= j < buffer.Length {
        buffer[j] := 0;
      }
    }
  }

  /** md5_hash: the digest of a file that is read in pieces. However it is split, the result is
      the digest of the whole. */
  method HashChunks(chunks: seq<seq<Byte>>) returns (digest: seq<Byte>)
    requires forall c :: c in chunks ==> |c| < U64
    ensures digest == Digest(Flatten(chunks))
  {
    var ctx := new Context();
    var i := 0;
    while i < |chunks|
      invariant i <= |chunks|
      invariant fresh(ctx) && fresh(ctx.buffer)
      invariant ctx.Valid() && ctx.Message() == Flatten(chunks[..i])
    {
      FlattenNext(chunks, i);
      ctx.Update(chunks[i]);
      i := i + 1;
    }
    assert chunks[..i] == chunks;
    digest := ctx.Final();
  }

  /** Four bytes of a number, each shifted down and truncated. */
  function Low(u: nat): (r: seq<Byte>)
    ensures |r| == 4
  {
    [u % 256, u / 0x100 % 256, u / 0x10000 % 256, u / 0x1000000 % 256]
  }

  lemma LowThen(u: nat, n: nat)
    ensures LittleEndian(u, n + 4) == Low(u) + LittleEndian(u / U32, n)
  {
    var (u1, u2, u3) := (u / 0x100, u / 0x10000, u / 0x1000000);
    ShiftTwice(u);
    assert LittleEndian(u, n + 4) == [u % 256] + LittleEndian(u1, n + 3);
    assert LittleEndian(u1, n + 3) == [u1 % 256] + LittleEndian(u2, n + 2);
    assert LittleEndian(u2, n + 2) == [u2 % 256] + LittleEndian(u3, n + 1);
    assert LittleEndian(u3, n + 1) == [u3 % 256] + LittleEndian(u / U32, n);
  }

  lemma ShiftTwice(u: nat)
    ensures u / 0x100 / 256 == u / 0x10000 && u / 0x10000 / 256 == u / 0x1000000 && u / 0x1000000 / 256 == u / U32
  {
  }

  lemma LowCorrect(u: nat)
    ensures Low(u) == LittleEndian(u, 4)
  {
    LowThen(u, 0);
    assert LittleEndian(u / U32, 0) == [];
  }

  lemma LowOfSum(hi: nat, l: nat)
    requires l < U32
    ensures Low(hi * U32 + l) == Low(l) && (hi * U32 + l) / U32 == hi
  {
    var u := hi * U32 + l;
    assert u / 0x100 == 0x1000000 * hi + l / 0x100;
    assert u / 0x10000 == 0x10000 * hi + l / 0x10000;
    assert u / 0x1000000 == 0x100 * hi + l / 0x1000000;
    LowByte(u, 0x1000000 * hi, l);
    LowByte(u / 0x100, 0x10000 * hi, l / 0x100);
    LowByte(u / 0x10000, 0x100 * hi, l / 0x10000);
    LowByte(u / 0x1000000, hi, l / 0x1000000);
  }

  lemma LowByte(u: nat, k: nat, l: nat)
    requires u == 0x100 * k + l
    ensures u % 256 == l % 256
  {
  }

  /** The two halves of the counter, the lower one shifted by three bits, are the bytes of the
      length in bits. */
  lemma LengthBytes(lo: nat, hi: nat, n: nat)
    requires Counts(lo, hi, n)
    ensures Low(lo * 8 % U32) + Low(hi) == LittleEndian(BitCount(n), 8)
  {
    var l := lo * 8;
    assert l < U32 && l % U32 == l;
    BitCountSplit(n);
    assert BitCount(n) == hi * U32 + l;
    LowThen(hi * U32 + l, 4);
    LowOfSum(hi, l);
    LowCorrect(hi);
  }

  lemma BitCountSplit(n: nat)
    ensures BitCount(n) == 8 * (n % U61)
  {
    var q, r := n / U61, n % U61;
    assert 8 * n == U64 * q + 8 * r;
  }

  /** The counter of mkhash.c: hi counts units of 2^29 bytes and lo the bytes below that; hi
      wraps around at 2^32. */
  ghost predicate Counts(lo: nat, hi: nat, n: nat)
  {
    lo < U29 && hi < U32 && hi * U29 + lo == n % U61
  }

  /** Adding size bytes, with the carry detected by comparing the low part before and after. */
  lemma CounterStep(lo: nat, hi: nat, n: nat, size: nat, lo': nat, hi': nat)
    requires Counts(lo, hi, n)
    requires lo' == (lo + size) % U29
    requires var carried := if lo' < lo then (hi + 1) % U32 else hi; hi' == (carried + size / U29 % U32) % U32
    ensures Counts(lo', hi', n + size)
  {
    var q, r := size / U29, size % U29;
    var carry := if lo' < lo then 1 else 0;
    LowCarry(lo, size, lo');
    assert hi' == (hi + carry + q) % U32 by {
      HighAdds(hi, carry, q);
    }
    var w := (hi + carry + q) / U32;
    assert hi' * U29 + lo' == hi * U29 + lo + size - w * U61;
    var z := n / U61;
    assert n + size == (z + w) * U61 + (hi' * U29 + lo');
    ModUnique(n + size, z + w, hi' * U29 + lo');
  }

  lemma LowCarry(lo: nat, size: nat, lo': nat)
    requires lo < U29 && lo' == (lo + size) % U29
    ensures lo' + (if lo' < lo then U29 else 0) == lo + size % U29
  {
    assert (lo + size) % U29 == (lo + size % U29) % U29;
  }

  lemma HighAdds(hi: nat, carry: nat, q: nat)
    requires hi < U32 && carry <= 1
    ensures ((hi + carry) % U32 + q % U32) % U32 == (hi + carry + q) % U32
  {
  }

  lemma ModUnique(x: nat, q: nat, r: nat)
    requires x == q * U61 + r && r < U61
    ensures x % U61 == r
  {
  }

  lemma BytesWaiting(lo: nat, hi: nat, blocks: nat, r: nat)
    requires Counts(lo, hi, 64 * blocks + r) && r < 64
    ensures lo % 64 == r
  {
    var q := (64 * blocks + r) / U61;
    assert hi * U29 + lo == 64 * blocks + r - U61 * q;
  }
}
