/**
 * The pure reference for the seed-expansion stream: the 32-byte nonce
 * block, the hash chain s, H(s), H(H(s)), ... that the state runs along,
 * and the byte stream a squeeze of n bytes emits from it.
 */
module HashChain {
  import opened Primitives

  /** `u16::to_be_bytes`: the most significant byte first. */
  function ToBeBytes(n: u16): (b: seq<byte>)
    ensures |b| == 2
    ensures b[0] as int * 0x100 + b[1] as int == n as int
  {
    [n / 0x100, n % 0x100]
  }

  /**
   * The 32-byte block hashed after the seed by `init`: thirty zero bytes,
   * then the nonce in big-endian order.
   */
  function NonceBlock(nonce: u16): (z: seq<byte>)
    ensures |z| == 32
    ensures forall i :: 0 <= i < 30 ==> z[i] == 0
    ensures z[30..] == ToBeBytes(nonce)
    ensures z[30] as int * 0x100 + z[31] as int == nonce as int
  {
    seq(30, _ => 0) + ToBeBytes(nonce)
  }

  /** The state `init(seed, nonce)` produces. */
  function InitState(hash: Hash, seed: seq<byte>, nonce: u16): Digest {
    hash(seed + NonceBlock(nonce))
  }

  /** The state `absorb(input)` produces from state s. */
  function AbsorbState(hash: Hash, s: Digest, input: seq<byte>): Digest {
    hash(s + input)
  }

  /** H^k(s): the k-th element of the hash chain that starts at s. */
  function Iterate(hash: Hash, s: Digest, k: nat): Digest
    decreases k
  {
    if k == 0 then s else hash(Iterate(hash, s, k - 1))
  }

  /**
   * The n bytes a squeeze emits from state s: s itself as the first block,
   * then the stream of H(s), the last block cut to what is still needed.
   */
  function SqueezeStream(hash: Hash, s: Digest, n: nat): (out: seq<byte>)
    ensures |out| == n
    decreases n
  {
    if n == 0 then []
    else if n < DIGEST_BYTES then s[..n]
    else s + SqueezeStream(hash, hash(s), n - DIGEST_BYTES)
  }

  /** The state a squeeze of n bytes leaves: one hash per block, partial or not. */
  function SqueezeState(hash: Hash, s: Digest, n: nat): Digest
    decreases n
  {
    if n == 0 then s
    else if n < DIGEST_BYTES then hash(s)
    else SqueezeState(hash, hash(s), n - DIGEST_BYTES)
  }

  /** Number of blocks, counting a final partial one, in n bytes: ceil(n / 32). */
  function Blocks(n: nat): nat {
    (n + DIGEST_BYTES - 1) / DIGEST_BYTES
  }

  // ---------------------------------------------------------------------
  // The nonce block

  /** The nonce encoding is injective. */
  lemma NonceBlockInjective(a: u16, b: u16)
    requires NonceBlock(a) == NonceBlock(b)
    ensures a == b
  {
  }

  /**
   * The whole input `init` hashes determines both the seed and the nonce,
   * whatever the lengths of the seeds.
   */
  lemma {:induction false} InitInputInjective(seed1: seq<byte>, nonce1: u16, seed2: seq<byte>, nonce2: u16)
    requires seed1 + NonceBlock(nonce1) == seed2 + NonceBlock(nonce2)
    ensures seed1 == seed2 && nonce1 == nonce2
  {
    var x := seed1 + NonceBlock(nonce1);
    assert |seed1| == |seed2|;
    assert seed1 == x[..|seed1|];
    assert seed2 == x[..|seed2|];
    assert NonceBlock(nonce1) == x[|seed1|..];
    assert NonceBlock(nonce2) == x[|seed2|..];
    NonceBlockInjective(nonce1, nonce2);
  }

  // ---------------------------------------------------------------------
  // The hash chain

  /** Starting the chain one step later is the same as one more step. */
  lemma {:induction false} IterateShift(hash: Hash, s: Digest, k: nat)
    ensures Iterate(hash, hash(s), k) == Iterate(hash, s, k + 1)
    decreases k
  {
    if k > 0 {
      IterateShift(hash, s, k - 1);
    }
  }

  /** Chain steps compose: H^b(H^a(s)) == H^(a+b)(s). */
  lemma {:induction false} IterateAdd(hash: Hash, s: Digest, a: nat, b: nat)
    ensures Iterate(hash, Iterate(hash, s, a), b) == Iterate(hash, s, a + b)
    decreases b
  {
    if b > 0 {
      IterateAdd(hash, s, a, b - 1);
    }
  }

  // ---------------------------------------------------------------------
  // The squeezed stream

  /** One pass of the squeeze loop: emit min(n, 32) bytes of s, then go on from H(s). */
  lemma SqueezeStep(hash: Hash, s: Digest, n: nat, c: nat)
    requires 0 < n && c == (if n < DIGEST_BYTES then n else DIGEST_BYTES)
    ensures SqueezeStream(hash, s, n) == s[..c] + SqueezeStream(hash, hash(s), n - c)
    ensures SqueezeState(hash, s, n) == SqueezeState(hash, hash(s), n - c)
  {
  }

  /**
   * The squeeze loop's bookkeeping: if the unwritten part of the whole
   * stream, from offset idx, is the stream of the current state, then the
   * next c bytes are the current state's and what follows is the stream of
   * its hash.
   */
  lemma RemainderStep(hash: Hash, stream: seq<byte>, idx: nat, cur: Digest, left: nat, c: nat)
    requires idx + left == |stream| && 0 < left
    requires c == (if left < DIGEST_BYTES then left else DIGEST_BYTES)
    requires stream[idx..] == SqueezeStream(hash, cur, left)
    ensures forall t :: 0 <= t < c ==> stream[idx + t] == cur[t]
    ensures stream[idx + c..] == SqueezeStream(hash, hash(cur), left - c)
    ensures SqueezeState(hash, cur, left) == SqueezeState(hash, hash(cur), left - c)
  {
    SqueezeStep(hash, cur, left, c);
  }

  /** Byte j of the stream is byte j % 32 of the chain element H^(j / 32)(s). */
  lemma {:induction false} SqueezeStreamAt(hash: Hash, s: Digest, n: nat, j: nat)
    requires j < n
    ensures SqueezeStream(hash, s, n)[j] == Iterate(hash, s, j / DIGEST_BYTES)[j % DIGEST_BYTES]
    decreases n
  {
    if n >= DIGEST_BYTES && j >= DIGEST_BYTES {
      SqueezeStreamAt(hash, hash(s), n - DIGEST_BYTES, j - DIGEST_BYTES);
      assert (j - DIGEST_BYTES) / DIGEST_BYTES == j / DIGEST_BYTES - 1;
      assert (j - DIGEST_BYTES) % DIGEST_BYTES == j % DIGEST_BYTES;
      IterateShift(hash, s, j / DIGEST_BYTES - 1);
    }
  }

  /** Each full block i of the stream is the whole chain element H^i(s). */
  lemma SqueezeStreamBlock(hash: Hash, s: Digest, n: nat, i: nat)
    requires DIGEST_BYTES * (i + 1) <= n
    ensures SqueezeStream(hash, s, n)[DIGEST_BYTES * i..DIGEST_BYTES * (i + 1)] == Iterate(hash, s, i)
  {
    var out := SqueezeStream(hash, s, n);
    var blk := out[DIGEST_BYTES * i..DIGEST_BYTES * (i + 1)];
    forall t | 0 <= t < DIGEST_BYTES
      ensures blk[t] == Iterate(hash, s, i)[t]
    {
      var j := DIGEST_BYTES * i + t;
      SqueezeStreamAt(hash, s, n, j);
      assert j / DIGEST_BYTES == i && j % DIGEST_BYTES == t;
    }
  }

  /**
   * A final partial block of r = n % 32 bytes is the first r bytes of the
   * chain element H^k(s), where k = n / 32.
   */
  lemma SqueezeStreamTail(hash: Hash, s: Digest, n: nat)
    requires n % DIGEST_BYTES != 0
    ensures SqueezeStream(hash, s, n)[DIGEST_BYTES * (n / DIGEST_BYTES)..]
         == Iterate(hash, s, n / DIGEST_BYTES)[..n % DIGEST_BYTES]
  {
    var k := n / DIGEST_BYTES;
    var r := n % DIGEST_BYTES;
    var tail := SqueezeStream(hash, s, n)[DIGEST_BYTES * k..];
    assert |tail| == r;
    forall t | 0 <= t < r
      ensures tail[t] == Iterate(hash, s, k)[t]
    {
      var j := DIGEST_BYTES * k + t;
      SqueezeStreamAt(hash, s, n, j);
      assert j / DIGEST_BYTES == k && j % DIGEST_BYTES == t;
    }
  }

  /**
   * Any buffer whose first n bytes are the stream holds each full block i
   * of the chain at offset 32 * i and the truncated block k = n / 32 after.
   */
  lemma SqueezeOutputLayout(hash: Hash, s: Digest, n: nat, o: seq<byte>)
    requires n <= |o| && o[..n] == SqueezeStream(hash, s, n)
    ensures forall i :: 0 <= i && DIGEST_BYTES * (i + 1) <= n ==>
      o[DIGEST_BYTES * i..DIGEST_BYTES * (i + 1)] == Iterate(hash, s, i)
    ensures n % DIGEST_BYTES != 0 ==>
      o[DIGEST_BYTES * (n / DIGEST_BYTES)..n] == Iterate(hash, s, n / DIGEST_BYTES)[..n % DIGEST_BYTES]
  {
    forall i | 0 <= i && DIGEST_BYTES * (i + 1) <= n
      ensures o[DIGEST_BYTES * i..DIGEST_BYTES * (i + 1)] == Iterate(hash, s, i)
    {
      SqueezeStreamBlock(hash, s, n, i);
      assert o[DIGEST_BYTES * i..DIGEST_BYTES * (i + 1)] == o[..n][DIGEST_BYTES * i..DIGEST_BYTES * (i + 1)];
    }
    if n % DIGEST_BYTES != 0 {
      SqueezeStreamTail(hash, s, n);
      assert o[DIGEST_BYTES * (n / DIGEST_BYTES)..n] == o[..n][DIGEST_BYTES * (n / DIGEST_BYTES)..];
    }
  }

  /**
   * A squeeze of n bytes advances the state by one hash per block, the
   * truncated last block included: the final state is H^ceil(n/32)(s).
   */
  lemma {:induction false} SqueezeStateIterate(hash: Hash, s: Digest, n: nat)
    ensures SqueezeState(hash, s, n) == Iterate(hash, s, Blocks(n))
    decreases n
  {
    if n >= DIGEST_BYTES {
      SqueezeStateIterate(hash, hash(s), n - DIGEST_BYTES);
      assert Blocks(n - DIGEST_BYTES) + 1 == Blocks(n);
      IterateShift(hash, s, Blocks(n - DIGEST_BYTES));
    }
  }

  /** A shorter squeeze from the same state emits a prefix of a longer one. */
  lemma SqueezeStreamPrefix(hash: Hash, s: Digest, m: nat, n: nat)
    requires m <= n
    ensures SqueezeStream(hash, s, m) == SqueezeStream(hash, s, n)[..m]
  {
    forall j | 0 <= j < m
      ensures SqueezeStream(hash, s, m)[j] == SqueezeStream(hash, s, n)[j]
    {
      SqueezeStreamAt(hash, s, m, j);
      SqueezeStreamAt(hash, s, n, j);
    }
  }

  /**
   * After k whole blocks the rest of the stream is the stream of the
   * chain element H^k(s).
   */
  lemma {:induction false} SqueezeStreamSplit(hash: Hash, s: Digest, k: nat, m: nat)
    ensures SqueezeStream(hash, s, DIGEST_BYTES * k + m)
         == SqueezeStream(hash, s, DIGEST_BYTES * k) + SqueezeStream(hash, Iterate(hash, s, k), m)
    decreases k
  {
    if k > 0 {
      var n := DIGEST_BYTES * k + m;
      assert n - DIGEST_BYTES == DIGEST_BYTES * (k - 1) + m;
      SqueezeStreamSplit(hash, hash(s), k - 1, m);
      IterateShift(hash, s, k - 1);
      assert DIGEST_BYTES * k - DIGEST_BYTES == DIGEST_BYTES * (k - 1);
    }
  }

  /**
   * Two squeezes in a row leave the state H^(ceil(n1/32) + ceil(n2/32))(s).
   * When the first squeeze is a whole number of blocks they also emit
   * exactly what one squeeze of n1 + n2 bytes would.
   */
  lemma ConsecutiveSqueezes(hash: Hash, s: Digest, n1: nat, n2: nat)
    ensures SqueezeState(hash, SqueezeState(hash, s, n1), n2) == Iterate(hash, s, Blocks(n1) + Blocks(n2))
    ensures n1 % DIGEST_BYTES == 0 ==>
      SqueezeStream(hash, s, n1) + SqueezeStream(hash, SqueezeState(hash, s, n1), n2) == SqueezeStream(hash, s, n1 + n2)
      && SqueezeState(hash, SqueezeState(hash, s, n1), n2) == SqueezeState(hash, s, n1 + n2)
  {
    SqueezeStateIterate(hash, s, n1);
    SqueezeStateIterate(hash, SqueezeState(hash, s, n1), n2);
    IterateAdd(hash, s, Blocks(n1), Blocks(n2));
    if n1 % DIGEST_BYTES == 0 {
      var k := n1 / DIGEST_BYTES;
      assert n1 == DIGEST_BYTES * k;
      assert Blocks(n1) == k;
      SqueezeStreamSplit(hash, s, k, n2);
      SqueezeStateIterate(hash, s, n1 + n2);
      assert Blocks(n1 + n2) == k + Blocks(n2);
    }
  }

  /**
   * When a squeeze is not a whole number of blocks, a second squeeze does
   * not continue the stream: the rest of the truncated chain element is
   * never emitted. Some hash and state tell the two apart.
   */
  lemma ResumedSqueezeDiscontinuous(n: nat)
    requires n % DIGEST_BYTES != 0
    ensures exists hash: Hash, s: Digest ::
      SqueezeStream(hash, s, n) + SqueezeStream(hash, SqueezeState(hash, s, n), n) != SqueezeStream(hash, s, 2 * n)
  {
    var e: Digest := [1] + seq(DIGEST_BYTES - 1, _ => 0);
    var hash: Hash := _ => e;
    var first := SqueezeStream(hash, e, n);
    var second := SqueezeStream(hash, SqueezeState(hash, e, n), n);
    var whole := SqueezeStream(hash, e, 2 * n);
    SqueezeStateIterate(hash, e, n);
    assert SqueezeState(hash, e, n) == e;
    SqueezeStreamAt(hash, e, n, 0);
    assert (first + second)[n] == 1;
    SqueezeStreamAt(hash, e, 2 * n, n);
    assert Iterate(hash, e, n / DIGEST_BYTES) == e;
    assert whole[n] == 0;
  }
}
