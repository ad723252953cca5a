/** The streaming interface of SHA-256 in scripts/mkhash.c: SHA256_Init, SHA256_Update,
    SHA256_Pad and SHA256_Final on a context that is updated in place. */
module Sha256Context {
  import opened Common
  import opened Streaming
  import opened ShaRounds
  import opened Sha256

  class Context {
    const state: array<Word>
    const buf: array<Byte>
    var count: nat
    ghost var blocks: nat        // complete blocks taken in so far
    ghost var done: seq<Byte>    // their bytes
    ghost var rest: seq<Byte>    // the bytes that wait for their block to be completed

    /** The complete blocks are hashed, the rest waits in the buffer, and the count is the
        length of the whole message in bits modulo 2^64. */
    ghost predicate Valid()
      reads this, state, buf
    {
      && state.Length == 8 && buf.Length == 64
      && |done| == 64 * blocks && |rest| < 64
      && state[..] == Absorb(Hash, IV, done)
      && buf[..|rest|] == rest
      && count == BitCount(64 * blocks + |rest|)
    }

    ghost function Message(): seq<Byte>
      reads this
    {
      done + rest
    }

    /** SHA256_Init. */
    constructor ()
      ensures Valid() && Message() == [] && fresh(state) && fresh(buf)
    {
      state := new Word[8](i requires 0 <= i < 8 => IV[i]);
      buf := new Byte[64](_ => 0);
      count := 0;
      blocks, done, rest := 0, [], [];
      new;
      assert state[..] == IV;
    }

    /** SHA256_Transform, with the decoding of the block by be32dec_vect. */
    method Transform(b: Block)
      requires state.Length == 8
      modifies state
      ensures state[..] == Hash(old(state[..]), b)
    {
      var w := new Word[64](_ => 0);
      var i := 0;
      while i < 16
        invariant i <= 16
        invariant forall t :: 0 <= t < i ==> w[t] == BlockWord(b, t)
        invariant state[..] == old(state[..])
      {
        Be32DecCorrect(b, i);
        w[i] := Be32Dec(b[4 * i..4 * i + 4]);
        i := i + 1;
      }
      assert w[..16] == BlockWords(b);
      var S := new Word[8](_ => 0);
      ProgramRewrites();
      ShaRounds.Transform(STANDARD, PROGRAM, state, w, S);
    }

    /** Hashes the block that the bytes b complete. */
    method TakeBlock(b: Block)
      requires state.Length == 8 && |done| == 64 * blocks && state[..] == Absorb(Hash, IV, done)
      modifies this, state
      ensures |done| == 64 * blocks && blocks == old(blocks) + 1 && rest == []
      ensures done == old(done) + b && state[..] == Absorb(Hash, IV, done)
      ensures count == old(count)
    {
      hide Hash;
      ghost var h := state[..];
      Transform(b);
      Hashed(done, blocks, b, h, state[..]);
      blocks, done, rest := blocks + 1, done + b, [];
    }

    /** The number of bytes left in the buffer from earlier updates, read off the count. */
    method BytesBuffered() returns (r: nat)
      requires count == BitCount(64 * blocks + |rest|) && |rest| < 64
      ensures r == |rest|
    {
      BytesWaiting(blocks, |rest|);
      r := count / 8 % 64;
    }

    /** Adds the length of new data to the count. */
    method CountBytes(len: nat, ghost n: nat)
      requires count == BitCount(n)
      modifies this`count
      ensures count == BitCount(n + len)
    {
      CountAdds(n, len);
      count := (count + 8 * len % U64) % U64;
    }

    /** Copies new bytes behind the waiting ones. */
    method Append(r: nat, data: seq<Byte>)
      requires buf.Length == 64 && r == |rest| && r + |data| <= 64 && buf[..r] == rest
      modifies buf
      ensures buf[..r + |data|] == rest + data
    {
      Copy(buf, r, data);
      assert buf[..r + |data|] == buf[..][..r + |data|];
    }

    /** Hashes all complete blocks of the data from position k on. */
    method TakeBlocks(data: seq<Byte>, k: nat) returns (j: nat)
      requires k <= |data|
      requires state.Length == 8 && |done| == 64 * blocks && state[..] == Absorb(Hash, IV, done) && rest == []
      modifies this, state
      ensures k <= j <= |data| < j + 64
      ensures |done| == 64 * blocks && state[..] == Absorb(Hash, IV, done) && rest == []
      ensures 64 * blocks == 64 * old(blocks) + (j - k)
      ensures done == old(done) + data[k..j] && count == old(count)
    {
      hide Hash;
      j := k;
      while j + 64 <= |data|
        invariant k <= j <= |data|
        invariant |done| == 64 * blocks && state[..] == Absorb(Hash, IV, done) && rest == []
        invariant 64 * blocks == 64 * old(blocks) + (j - k)
        invariant done == old(done) + data[k..j] && count == old(count)
      {
        ghost var before := done;
        TakeBlock(data[j..j + 64]);
        assert data[k..j + 64] == data[k..j] + data[j..j + 64];
        j := j + 64;
      }
    }

    /** The data from position k on, when nothing waits in the buffer. */
    method HashFrom(data: seq<Byte>, k: nat) returns (j: nat)
      requires k <= |data| && buf.Length == 64 && rest == []
      requires state.Length == 8 && |done| == 64 * blocks && state[..] == Absorb(Hash, IV, done)
      modifies this, state, buf
      ensures k <= j <= |data| && |done| == 64 * blocks && state[..] == Absorb(Hash, IV, done)
      ensures 64 * blocks + |rest| == 64 * old(blocks) + |data| - k && count == old(count)
      ensures done == old(done) + data[k..j] && rest == data[j..] && |rest| < 64 && buf[..|rest|] == rest
    {
      hide Hash, Absorb;
      j := TakeBlocks(data, k);
      assert buf[..0] == [];
      Append(0, data[j..]);
      rest := data[j..];
    }

    /** SHA256_Update. */
    method Update(data: seq<Byte>)
      requires Valid() && |data| < U64
      modifies this, state, buf
      ensures Valid() && Message() == old(Message()) + data
    {
      hide Hash, BitCount, Absorb;
      var r := BytesBuffered();
      ghost var n := 64 * blocks + |rest|;
      CountBytes(|data|, n);
      if |data| < 64 - r {
        Append(r, data);
        rest := rest + data;
        return;
      }
      Append(r, data[..64 - r]);
      var b := buf[..];
      assert b == rest + data[..64 - r];
      TakeBlock(b);
      var k := HashFrom(data, 64 - r);
      Reassemble(old(done), old(rest), data, 64 - r, k);
    }

    /** The marker and zeros complete the waiting block, which is hashed. */
    method CompleteBlock(r: nat)
      requires state.Length == 8 && |done| == 64 * blocks && state[..] == Absorb(Hash, IV, done)
      requires buf.Length == 64 && r == |rest| && r < 64 && buf[..r] == rest
      modifies this, state, buf
      ensures |done| == 64 * blocks && blocks == old(blocks) + 1 && rest == [] && count == old(count)
      ensures done == old(done) + (old(rest) + ([0x80] + Zeros(63 - r))) && state[..] == Absorb(Hash, IV, done)
    {
      hide Hash, Absorb;
      Append(r, [0x80] + Zeros(63 - r));
      var b := buf[..];
      assert b == rest + ([0x80] + Zeros(63 - r));
      TakeBlock(b);
    }

    /** The first part of SHA256_Pad: fills the buffer up to byte 56, hashing a block on the way
        if there is not enough room. */
    method PadToLength(ghost length: seq<Byte>) returns (ghost front: seq<Byte>)
      requires Valid() && |length| == 8
      modifies this, state, buf
      ensures state.Length == 8 && |done| == 64 * blocks && state[..] == Absorb(Hash, IV, done)
      ensures buf.Length == 64 && front == buf[..56] && count == old(count)
      ensures Padded(old(Message()), length) == done + (front + length)
    {
      hide Hash, BitCount, Absorb, Padded;
      var r := BytesBuffered();
      PadBlocks(done, rest, blocks, length);
      if r < 56 {
        Append(r, [0x80] + Zeros(55 - r));
      } else {
        CompleteBlock(r);
        assert buf[..0] == [];
        Append(0, Zeros(56));
        assert [] + Zeros(56) == Zeros(56);
      }
      front := buf[..56];
    }

    /** SHA256_Pad. Afterwards only the hash value in the state is of interest. */
    method Pad()
      requires Valid()
      modifies this, state, buf
      ensures state.Length == 8 && state[..] == Absorb(Hash, IV, Sha256.Pad(old(Message())))
    {
      hide Hash, BitCount, Absorb, Padded;
      ghost var length, m := Be64Enc(count), Message();
      Be64EncCorrect(count);
      PadLength(m);
      ghost var front := PadToLength(length);
      Copy(buf, 56, Be64Enc(count));
      var b := buf[..];
      assert b == front + length;
      TakeBlock(b);
    }

    /** SHA256_Final, which also clears the context. */
    method Final() returns (digest: seq<Byte>)
      requires Valid()
      modifies this, state, buf
      ensures digest == Digest(old(Message()))
      ensures state.Length == 8 && buf.Length == 64 && count == 0
      ensures (forall i :: 0 <= i < 8 ==> state[i] == 0) && (forall i :: 0 <= i < 64 ==> buf[i] == 0)
    {
      hide Hash, BitCount, Absorb;
      ghost var m := Message();
      Pad();
      digest := [];
      var i := 0;
      while i < 8
        invariant i <= 8 && state.Length == 8
        invariant state[..] == Absorb(Hash, IV, Sha256.Pad(m))
        invariant digest == Serialise(state[..i])
      {
        Be32EncCorrect(state[i]);
        assert state[..i + 1][..i] == state[..i];
        digest := digest + Be32Enc(state[i]);
        i := i + 1;
      }
      assert state[..8] == state[..];
      forall j | 0 <= j < 8 {
        state[j] := 0;
      }
      forall j | 0 <= j < 64 {
        buf[j] := 0;
      }
      count := 0;
    }
  }

  /** sha256_hash: the digest of a file that is read in pieces. However it is split, the result
      is the digest of the whole. */
  method HashChunks(chunks: seq<seq<Byte>>) returns (digest: seq<Byte>)
    requires forall c :: c in chunks ==> |c| < U64
    ensures digest == Digest(Flatten(chunks))
  {
    var ctx := new Context();
    var i := 0;
    while i < |chunks|
      invariant i <= |chunks|
      invariant fresh(ctx) && fresh(ctx.state) && fresh(ctx.buf)
      invariant ctx.Valid() && ctx.Message() == Flatten(chunks[..i])
    {
      FlattenNext(chunks, i);
      ctx.Update(chunks[i]);
      i := i + 1;
    }
    assert chunks[..i] == chunks;
    digest := ctx.Final();
  }

  lemma PadLength(m: seq<Byte>)
    ensures Sha256.Pad(m) == Padded(m, BigEndian(BitCount(|m|), 8))
  {
  }

  lemma Hashed(done: seq<Byte>, blocks: nat, b: Block, h: State, h': State)
    requires |done| == 64 * blocks && h == Absorb(Hash, IV, done) && h' == Hash(h, b)
    ensures h' == Absorb(Hash, IV, done + b)
  {
    AbsorbOne(Hash, IV, done, blocks, b);
  }

  /** The number of waiting bytes can be read off the wrapped bit count. */
  lemma BytesWaiting(blocks: nat, r: nat)
    requires r < 64
    ensures BitCount(64 * blocks + r) / 8 % 64 == r
  {
    var n := 64 * blocks + r;
    var q := 8 * n / U64;
    assert 8 * n == U64 * q + BitCount(n);
    assert BitCount(n) == 8 * (n - U61 * q);
    Remainder64(BitCount(n) / 8, blocks - U61 / 64 * q, r);
  }

  lemma Remainder64(x: int, q: int, r: nat)
    requires x == 64 * q + r && r < 64
    ensures x % 64 == r
  {
  }

  lemma CountAdds(a: nat, b: nat)
    ensures (BitCount(a) + 8 * b % U64) % U64 == BitCount(a + b)
  {
    var (p, q) := (8 * a / U64, 8 * b / U64);
    var x := BitCount(a) + 8 * b % U64;
    var w := x / U64;
    assert 8 * (a + b) == U64 * (p + q) + x;
    Remainder(8 * (a + b), p + q + w, x % U64);
  }

  lemma Remainder(x: int, q: int, r: nat)
    requires x == U64 * q + r && r < U64
    ensures x % U64 == r
  {
  }
}
