/** The structure of the SHA-256 compression function, for any kind of word: the shifting
    registers of FIPS 180-4 section 6.2.2 and the rotating array of SHA256_Transform in
    scripts/mkhash.c. The arithmetic on words comes in as a parameter. */
module ShaRounds {

  /** The word functions of the standard: the functions of section 4.1.2 by their names there,
      addition, and the constant of each round. */
  datatype Mix<!W> = Mix(
    Sigma0: W -> W, Sigma1: W -> W,
    sigma0: W -> W, sigma1: W -> W,
    Ch: (W, W, W) -> W, Maj: (W, W, W) -> W,
    add: (W, W) -> W,
    K: nat -> W)

  function T1<W>(m: Mix<W>, h: W, e: W, f: W, g: W, k: W, w: W): W
  {
    m.add(m.add(m.add(m.add(h, m.Sigma1(e)), m.Ch(e, f, g)), k), w)
  }

  function T2<W>(m: Mix<W>, a: W, b: W, c: W): W { m.add(m.Sigma0(a), m.Maj(a, b, c)) }

  /** The program's own Ch and Maj. */
  datatype Rewritten<!W> = Rewritten(Ch: (W, W, W) -> W, Maj: (W, W, W) -> W)

  /** The same two words in the order of RND, which also swaps K and W. */
  function ProgramT1<W>(m: Mix<W>, p: Rewritten<W>, h: W, e: W, f: W, g: W, k: W, w: W): W
  {
    m.add(h, m.add(m.add(m.Sigma1(e), p.Ch(e, f, g)), m.add(w, k)))
  }

  function ProgramT2<W>(m: Mix<W>, p: Rewritten<W>, a: W, b: W, c: W): W { m.add(m.Sigma0(a), p.Maj(a, b, c)) }

  ghost predicate Rewrites<W(!new)>(m: Mix<W>, p: Rewritten<W>)
  {
    && (forall h: W, e: W, f: W, g: W, k: W, w: W {:trigger ProgramT1(m, p, h, e, f, g, k, w)} ::
          ProgramT1(m, p, h, e, f, g, k, w) == T1(m, h, e, f, g, k, w))
    && (forall a: W, b: W, c: W {:trigger ProgramT2(m, p, a, b, c)} ::
          ProgramT2(m, p, a, b, c) == T2(m, a, b, c))
  }

  ghost predicate Sums<W(!new)>(add: (W, W) -> W)
  {
    && (forall x: W, y: W :: add(x, y) == add(y, x))
    && (forall x: W, y: W, z: W :: add(add(x, y), z) == add(x, add(y, z)))
  }

  /** Sums may be regrouped, and Ch and Maj computed in another way. */
  lemma RewritesSums<W(!new)>(m: Mix<W>, p: Rewritten<W>)
    requires Sums(m.add)
    requires forall x: W, y: W, z: W :: p.Ch(x, y, z) == m.Ch(x, y, z)
    requires forall x: W, y: W, z: W :: p.Maj(x, y, z) == m.Maj(x, y, z)
    ensures Rewrites(m, p)
  {
    forall h: W, e: W, f: W, g: W, k: W, w: W
      ensures ProgramT1(m, p, h, e, f, g, k, w) == T1(m, h, e, f, g, k, w)
    {
      var s, c := m.Sigma1(e), m.Ch(e, f, g);
      calc {
        m.add(h, m.add(m.add(s, c), m.add(w, k)));
        m.add(h, m.add(m.add(s, c), m.add(k, w)));
        m.add(h, m.add(s, m.add(c, m.add(k, w))));
        m.add(m.add(h, s), m.add(c, m.add(k, w)));
        m.add(m.add(m.add(h, s), c), m.add(k, w));
        m.add(m.add(m.add(m.add(h, s), c), k), w);
      }
    }
  }

  /** One round on the registers a to h: everything moves one register further. */
  function Round<W>(m: Mix<W>, v: seq<W>, k: W, w: W): (r: seq<W>)
    requires |v| == 8
    ensures |r| == 8
  {
    var t1 := T1(m, v[7], v[4], v[5], v[6], k, w);
    [m.add(t1, T2(m, v[0], v[1], v[2])), v[0], v[1], v[2], m.add(v[3], t1), v[4], v[5], v[6]]
  }

  /** The first n words of the message schedule of a block of 16 words. */
  function Schedule<W>(m: Mix<W>, b: seq<W>, n: nat): (w: seq<W>)
    requires |b| == 16 && n >= 16
    ensures |w| == n
  {
    if n == 16 then b
    else
      var w := Schedule(m, b, n - 1);
      w + [m.add(m.add(m.add(m.sigma1(w[n - 3]), w[n - 8]), m.sigma0(w[n - 16])), w[n - 17])]
  }

  /** The registers after the first n rounds. */
  function Rounds<W>(m: Mix<W>, v: seq<W>, w: seq<W>, n: nat): (r: seq<W>)
    requires |v| == 8 && n <= |w|
    ensures |r| == 8
  {
    if n == 0 then v else Round(m, Rounds(m, v, w, n - 1), m.K(n - 1), w[n - 1])
  }

  /** The number of rounds and of schedule words. (Given as a multiple of the 16 words of the
      block, so that the verifier does not unroll it.) */
  function RoundCount<W>(b: seq<W>): (n: nat)
    requires |b| == 16
    ensures n == 64
  {
    4 * |b|
  }

  /** The schedule of a block. */
  function Words<W>(m: Mix<W>, b: seq<W>): (w: seq<W>)
    requires |b| == 16
    ensures |w| == 64
  {
    Schedule(m, b, RoundCount(b))
  }

  /** The whole block: 64 rounds, then the old hash value is added word by word. */
  function Compress<W>(m: Mix<W>, h: seq<W>, b: seq<W>): (r: seq<W>)
    requires |h| == 8 && |b| == 16
    ensures |r| == 8
  {
    var v := Rounds(m, h, Words(m, b), RoundCount(b));
    seq(8, i requires 0 <= i < 8 => m.add(h[i], v[i]))
  }

  lemma {:induction false} SchedulePrefix<W>(m: Mix<W>, b: seq<W>, n: nat, k: nat)
    requires |b| == 16 && 16 <= n <= k
    ensures Schedule(m, b, k)[..n] == Schedule(m, b, n)
  {
    if n < k {
      SchedulePrefix(m, b, n, k - 1);
      assert Schedule(m, b, k)[..n] == Schedule(m, b, k - 1)[..n];
    }
  }

  lemma ScheduleWords<W>(m: Mix<W>, b: seq<W>, w: seq<W>, n: nat)
    requires |b| == 16 && |w| == 64 && 16 <= n <= 64 && w[..n] == Schedule(m, b, n)
    ensures forall i :: 0 <= i < n ==> w[i] == Words(m, b)[i]
  {
    SchedulePrefix(m, b, n, 64);
    forall i | 0 <= i < n
      ensures w[i] == Words(m, b)[i]
    {
      assert w[i] == w[..n][i] == Words(m, b)[..n][i];
    }
  }

  // ----- the program -----

  /** Where step i finds the k-th of the registers a to h. */
  function Position(i: nat, k: nat): nat
    requires i <= 16
  {
    (64 + k - i) % 8
  }

  lemma Positions(i: nat)
    requires i < 16
    ensures Position(i + 1, 0) == Position(i, 7)
    ensures forall k: nat :: k < 7 ==> Position(i + 1, k + 1) == Position(i, k)
    ensures forall j: nat, k: nat :: j < k < 8 ==> Position(i, j) != Position(i, k)
  {
    forall j: nat, k: nat | j < k < 8
      ensures Position(i, j) != Position(i, k)
    {
      assert 0 < (64 + k - i) - (64 + j - i) < 8;
    }
  }

  /** The registers a to h before step i: the array holds them rotated by i places. */
  function View<W>(s: seq<W>, i: nat): (v: seq<W>)
    requires |s| == 8 && i <= 16
    ensures |v| == 8
  {
    seq(8, k requires 0 <= k < 8 => s[Position(i, k)])
  }

  /** RND. */
  method Rnd<W>(m: Mix<W>, p: Rewritten<W>, S: array<W>,
                a: nat, b: nat, c: nat, d: nat, e: nat, f: nat, g: nat, h: nat, k: W, w: W)
    requires S.Length == 8
    requires a < 8 && b < 8 && c < 8 && d < 8 && e < 8 && f < 8 && g < 8 && h < 8
    requires h != a && h != b && h != c && h != d && h != e && h != f && h != g
    requires d != a && d != b && d != c && d != e && d != f && d != g
    modifies S
    ensures var t1 := ProgramT1(m, p, old(S[h]), old(S[e]), old(S[f]), old(S[g]), k, w);
            && S[d] == m.add(old(S[d]), t1)
            && S[h] == m.add(t1, ProgramT2(m, p, old(S[a]), old(S[b]), old(S[c])))
    ensures forall x :: 0 <= x < 8 && x != h && x != d ==> S[x] == old(S[x])
  {
    S[h] := m.add(S[h], m.add(m.add(m.Sigma1(S[e]), p.Ch(S[e], S[f], S[g])), m.add(w, k)));
    S[d] := m.add(S[d], S[h]);
    S[h] := m.add(S[h], m.add(m.Sigma0(S[a]), p.Maj(S[a], S[b], S[c])));
  }

  /** RNDr: step i of 16 with the word w. Nothing is moved: the names rotate instead. */
  method RotatingRound<W(!new)>(m: Mix<W>, p: Rewritten<W>, S: array<W>, i: nat, k: W, w: W)
    requires S.Length == 8 && i < 16 && Rewrites(m, p)
    modifies S
    ensures View(S[..], i + 1) == Round(m, View(old(S[..]), i), k, w)
  {
    Positions(i);
    var a, b, c, d := Position(i, 0), Position(i, 1), Position(i, 2), Position(i, 3);
    var e, f, g, h := Position(i, 4), Position(i, 5), Position(i, 6), Position(i, 7);
    ghost var v := View(S[..], i);
    Rnd(m, p, S, a, b, c, d, e, f, g, h, k, w);
    ghost var v' := View(S[..], i + 1);
    assert v'[0] == S[h] && v'[1] == S[a] && v'[2] == S[b] && v'[3] == S[c];
    assert v'[4] == S[d] && v'[5] == S[e] && v'[6] == S[f] && v'[7] == S[g];
  }

  /** Round ii + i. The words it needs are the first ones of the schedule s. */
  method RNDr<W(!new)>(m: Mix<W>, p: Rewritten<W>, S: array<W>, w: array<W>, i: nat, ii: nat,
                      ghost v: seq<W>, ghost s: seq<W>)
    requires S.Length == 8 && w.Length == 64 && S != w && i < 16 && ii + 16 <= 64 && |v| == 8 && |s| == 64
    requires Rewrites(m, p) && w[ii + i] == s[ii + i]
    requires View(S[..], i) == Rounds(m, v, s, ii + i)
    modifies S
    ensures View(S[..], i + 1) == Rounds(m, v, s, ii + i + 1)
  {
    RotatingRound(m, p, S, i, m.K(i + ii), w[i + ii]);
  }

  lemma ScheduleNext<W>(m: Mix<W>, b: seq<W>, w: seq<W>, n: nat)
    requires |b| == 16 && n >= 16 && w == Schedule(m, b, n)
    ensures Schedule(m, b, n + 1) ==
            w + [m.add(m.add(m.add(m.sigma1(w[n - 2]), w[n - 7]), m.sigma0(w[n - 15])), w[n - 16])]
  {
  }

  /** MSCH: one more word of the schedule. */
  method MSCH<W>(m: Mix<W>, w: array<W>, ii: nat, i: nat, ghost b: seq<W>)
    requires w.Length == 64 && i + ii + 16 < 64 && |b| == 16
    requires w[..i + ii + 16] == Schedule(m, b, i + ii + 16)
    modifies w
    ensures w[..i + ii + 17] == Schedule(m, b, i + ii + 17)
  {
    hide Schedule;
    ghost var n := i + ii + 16;
    ScheduleNext(m, b, w[..n], n);
    w[i + ii + 16] := m.add(m.add(m.add(m.sigma1(w[i + ii + 14]), w[i + ii + 9]), m.sigma0(w[i + ii + 1])), w[i + ii]);
    assert w[..n + 1] == w[..n] + [w[n]];
  }

  /** Four of the 16 rounds of one turn of the loop, from round i on. */
  method FourRounds<W(!new)>(m: Mix<W>, p: Rewritten<W>, S: array<W>, w: array<W>, i: nat, ii: nat,
                            ghost v: seq<W>, ghost s: seq<W>)
    requires S.Length == 8 && w.Length == 64 && S != w && i <= 12 && ii + 16 <= 64 && |v| == 8 && |s| == 64
    requires Rewrites(m, p) && forall n :: ii <= n < ii + 16 ==> w[n] == s[n]
    requires View(S[..], i) == Rounds(m, v, s, ii + i)
    modifies S
    ensures View(S[..], i + 4) == Rounds(m, v, s, ii + i + 4)
  {
    RNDr(m, p, S, w, i, ii, v, s);
    RNDr(m, p, S, w, i + 1, ii, v, s);
    RNDr(m, p, S, w, i + 2, ii, v, s);
    RNDr(m, p, S, w, i + 3, ii, v, s);
  }

  /** The 16 rounds of one turn of the loop. */
  method SixteenRounds<W(!new)>(m: Mix<W>, p: Rewritten<W>, S: array<W>, w: array<W>, ii: nat,
                               ghost v: seq<W>, ghost s: seq<W>)
    requires S.Length == 8 && w.Length == 64 && S != w && ii + 16 <= 64 && |v| == 8 && |s| == 64
    requires Rewrites(m, p) && forall n :: ii <= n < ii + 16 ==> w[n] == s[n]
    requires View(S[..], 0) == Rounds(m, v, s, ii)
    modifies S
    ensures View(S[..], 16) == Rounds(m, v, s, ii + 16)
  {
    hide Rounds, View, Rewrites;
    FourRounds(m, p, S, w, 0, ii, v, s);
    FourRounds(m, p, S, w, 4, ii, v, s);
    FourRounds(m, p, S, w, 8, ii, v, s);
    FourRounds(m, p, S, w, 12, ii, v, s);
  }

  /** The 16 schedule words of one turn of the loop. */
  method SixteenWords<W>(m: Mix<W>, w: array<W>, ii: nat, ghost b: seq<W>)
    requires w.Length == 64 && ii + 32 <= 64 && |b| == 16
    requires w[..ii + 16] == Schedule(m, b, ii + 16)
    modifies w
    ensures w[..ii + 32] == Schedule(m, b, ii + 32)
  {
    MSCH(m, w, ii, 0, b);
    MSCH(m, w, ii, 1, b);
    MSCH(m, w, ii, 2, b);
    MSCH(m, w, ii, 3, b);
    MSCH(m, w, ii, 4, b);
    MSCH(m, w, ii, 5, b);
    MSCH(m, w, ii, 6, b);
    MSCH(m, w, ii, 7, b);
    MSCH(m, w, ii, 8, b);
    MSCH(m, w, ii, 9, b);
    MSCH(m, w, ii, 10, b);
    MSCH(m, w, ii, 11, b);
    MSCH(m, w, ii, 12, b);
    MSCH(m, w, ii, 13, b);
    MSCH(m, w, ii, 14, b);
    MSCH(m, w, ii, 15, b);
  }

  lemma ViewAgain<W>(s: seq<W>)
    requires |s| == 8
    ensures View(s, 0) == s && View(s, 16) == s
  {
    assert forall k :: 0 <= k < 8 ==> Position(0, k) == k && Position(16, k) == k;
  }

  /** SHA256_Transform, after the block has been decoded into the first 16 words of W. */
  method Transform<W(!new)>(m: Mix<W>, p: Rewritten<W>, state: array<W>, w: array<W>, S: array<W>)
    requires state.Length == 8 && w.Length == 64 && S.Length == 8 && Rewrites(m, p)
    requires state != w && state != S && w != S
    modifies state, w, S
    ensures state[..] == Compress(m, old(state[..]), old(w[..16]))
  {
    ghost var v, b := state[..], w[..16];
    forall i | 0 <= i < 8 {
      S[i] := state[i];
    }
    assert S[..] == v;
    var i := 0;
    while i < 64
      invariant i == 0 || i == 16 || i == 32 || i == 48 || i == 64
      invariant i < 64 ==> w[..i + 16] == Schedule(m, b, i + 16)
      invariant S[..] == Rounds(m, v, Words(m, b), i)
      invariant state[..] == v
    {
      ViewAgain(S[..]);
      assert w[..][..i + 16] == w[..i + 16];
      ScheduleWords(m, b, w[..], i + 16);
      SixteenRounds(m, p, S, w, i, v, Words(m, b));
      ViewAgain(S[..]);
      if i < 48 {
        SixteenWords(m, w, i, b);
      }
      i := i + 16;
    }
    forall k | 0 <= k < 8 {
      state[k] := m.add(state[k], S[k]);
    }
  }
}
