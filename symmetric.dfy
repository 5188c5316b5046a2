/**
 * The seed-expansion stream of src/symmetric.rs: a 32-byte state that is
 * set from a seed and a nonce, can absorb more input, and is squeezed by
 * emitting the state and replacing it with its own hash, block by block.
 * The 128 and 256 streams are both this one construction; they differ
 * only in the block size of `*_squeezeblocks`.
 */
module Symmetric {
  import opened Primitives
  import opened HashChain

  /** Block sizes (bytes) of SHAKE128 and SHAKE256, FIPS 202 section 6.2. */
  const SHAKE128_RATE: usize := 168
  const SHAKE256_RATE: usize := 136

  const STREAM128_BLOCKBYTES: usize := SHAKE128_RATE
  const STREAM256_BLOCKBYTES: usize := SHAKE256_RATE

  /** The stream state: one 32-byte buffer, overwritten in place. */
  class State {
    const s: array<byte>

    ghost predicate Valid()
      reads this
    {
      s.Length == DIGEST_BYTES
    }

    /** `State::default()`: the all-zero state. */
    constructor ()
      ensures Valid() && fresh(s)
      ensures forall i :: 0 <= i < DIGEST_BYTES ==> s[i] == 0
    {
      s := new byte[DIGEST_BYTES](_ => 0);
    }
  }

  /** Both stream kinds name the same state type. */
  type Stream128State = State
  type Stream256State = State

  /**
   * `dst[off..off + |src|].copy_from_slice(src)`, and also the hasher's
   * `finalize(&mut dst)` when off == 0: overwrite exactly that window.
   */
  method CopyFromSlice(dst: array<byte>, off: nat, src: seq<byte>)
    requires off + |src| <= dst.Length
    modifies dst
    ensures forall j :: 0 <= j < |src| ==> dst[off + j] == src[j]
    ensures forall j :: 0 <= j < dst.Length && !(off <= j < off + |src|) ==> dst[j] == old(dst[j])
  {
    var i := 0;
    while i < |src|
      invariant 0 <= i <= |src|
      invariant forall j :: 0 <= j < i ==> dst[off + j] == src[j]
      invariant forall j :: 0 <= j < dst.Length && !(off <= j < off + i) ==> dst[j] == old(dst[j])
    {
      dst[off + i] := src[i];
      i := i + 1;
    }
  }

  /** `finalize(&mut state.s)`: the state buffer becomes the digest. */
  method Finalize(state: State, digest: Digest)
    requires state.Valid()
    modifies state.s
    ensures state.Valid()
    ensures state.s[..] == digest
  {
    CopyFromSlice(state.s, 0, digest);
    assert forall j :: 0 <= j < DIGEST_BYTES ==> state.s[..][j] == digest[j];
  }

  /**
   * `init`: state := H(seed ++ nonce block). The result does not depend on
   * the previous state.
   */
  method Init(state: State, hash: Hash, seed: seq<byte>, nonce: u16)
    requires state.Valid()
    modifies state.s
    ensures state.Valid()
    ensures state.s[..] == InitState(hash, seed, nonce)
    ensures state.s[..] == hash(seed + seq(30, _ => 0) + ToBeBytes(nonce))
  {
    var nonceBytes := new byte[32](_ => 0);
    CopyFromSlice(nonceBytes, 30, ToBeBytes(nonce));
    assert nonceBytes[..] == NonceBlock(nonce) by {
      assert forall j :: 0 <= j < 32 ==> nonceBytes[..][j] == NonceBlock(nonce)[j];
    }
    assert seed + seq(30, _ => 0) + ToBeBytes(nonce) == seed + NonceBlock(nonce);
    Finalize(state, hash(seed + nonceBytes[..]));
  }

  /**
   * `squeezebytes`: fill out[..outlen] with the state, then its hash, and
   * so on, the last block truncated; the state is hashed after every
   * block, the truncated one included. Bytes past outlen are untouched.
   */
  method SqueezeBytes(state: State, hash: Hash, out: array<byte>, outlen: usize)
    requires state.Valid()
    requires outlen <= out.Length
    requires out != state.s
    modifies state.s, out
    ensures state.Valid()
    ensures out[..outlen] == SqueezeStream(hash, old(state.s[..]), outlen)
    ensures out[outlen..] == old(out[outlen..])
    ensures state.s[..] == SqueezeState(hash, old(state.s[..]), outlen)
    ensures forall i :: 0 <= i && DIGEST_BYTES * (i + 1) <= outlen ==>
      out[DIGEST_BYTES * i..DIGEST_BYTES * (i + 1)] == Iterate(hash, old(state.s[..]), i)
    ensures outlen % DIGEST_BYTES != 0 ==>
      out[DIGEST_BYTES * (outlen / DIGEST_BYTES)..outlen]
        == Iterate(hash, old(state.s[..]), outlen / DIGEST_BYTES)[..outlen % DIGEST_BYTES]
    ensures state.s[..] == Iterate(hash, old(state.s[..]), Blocks(outlen))
    ensures outlen == 0 ==> state.s[..] == old(state.s[..])
  {
    ghost var s0: Digest := state.s[..];
    SqueezeLoop(state, hash, out, outlen);
    SqueezedBuffer(hash, s0, outlen, out[..], old(out[..]));
    SqueezeStateIterate(hash, s0, outlen);
  }

  /**
   * The `while idx < outlen` loop of `squeezebytes`: each pass writes the
   * state (cut to the bytes still needed) at `idx` and hashes the state.
   * Stated pointwise; `SqueezedBuffer` restates it on slices.
   */
  method SqueezeLoop(state: State, hash: Hash, out: array<byte>, outlen: usize)
    requires state.Valid()
    requires outlen <= out.Length
    requires out != state.s
    modifies state.s, out
    ensures state.Valid()
    ensures forall j :: 0 <= j < outlen ==> out[j] == SqueezeStream(hash, old(state.s[..]), outlen)[j]
    ensures forall j :: outlen <= j < out.Length ==> out[j] == old(out[j])
    ensures state.s[..] == SqueezeState(hash, old(state.s[..]), outlen)
  {
    ghost var s0: Digest := state.s[..];
    ghost var stream := SqueezeStream(hash, s0, outlen);
    var idx := 0;
    while idx < outlen
      invariant 0 <= idx <= outlen
      invariant forall j :: 0 <= j < idx ==> out[j] == stream[j]
      invariant forall j :: idx <= j < out.Length ==> out[j] == old(out[j])
      invariant stream[idx..] == SqueezeStream(hash, state.s[..], outlen - idx)
      invariant SqueezeState(hash, state.s[..], outlen - idx) == SqueezeState(hash, s0, outlen)
      decreases outlen - idx
    {
      var left := outlen - idx;
      ghost var cur: Digest := state.s[..];
      ghost var c := if left < 32 then left else 32;
      RemainderStep(hash, stream, idx, cur, left, c);
      if left >= 32 {
        CopyFromSlice(out, idx, state.s[..]);
        idx := idx + 32;
      } else {
        CopyFromSlice(out, idx, state.s[..left]);
        idx := outlen;
      }
      Finalize(state, hash(state.s[..]));
    }
  }

  /**
   * What the squeeze loop leaves in the output buffer o (o0 before the
   * loop), stated on slices: the stream, its block layout, and the bytes
   * past outlen unchanged.
   */
  lemma SqueezedBuffer(hash: Hash, s0: Digest, outlen: nat, o: seq<byte>, o0: seq<byte>)
    requires outlen <= |o| == |o0|
    requires forall j :: 0 <= j < outlen ==> o[j] == SqueezeStream(hash, s0, outlen)[j]
    requires forall j :: outlen <= j < |o| ==> o[j] == o0[j]
    ensures o[..outlen] == SqueezeStream(hash, s0, outlen)
    ensures o[outlen..] == o0[outlen..]
    ensures forall i :: 0 <= i && DIGEST_BYTES * (i + 1) <= outlen ==>
      o[DIGEST_BYTES * i..DIGEST_BYTES * (i + 1)] == Iterate(hash, s0, i)
    ensures outlen % DIGEST_BYTES != 0 ==>
      o[DIGEST_BYTES * (outlen / DIGEST_BYTES)..outlen]
        == Iterate(hash, s0, outlen / DIGEST_BYTES)[..outlen % DIGEST_BYTES]
  {
    assert o[..outlen] == SqueezeStream(hash, s0, outlen);
    assert o[outlen..] == o0[outlen..] by {
      assert forall j :: 0 <= j < |o| - outlen ==> o[outlen..][j] == o0[outlen..][j];
    }
    SqueezeOutputLayout(hash, s0, outlen, o);
  }

  /** `absorb`: state := H(state ++ input); nothing else changes. */
  method Absorb(state: State, hash: Hash, input: seq<byte>)
    requires state.Valid()
    modifies state.s
    ensures state.Valid()
    ensures state.s[..] == AbsorbState(hash, old(state.s[..]), input)
  {
    Finalize(state, hash(state.s[..] + input));
  }

  /**
   * `outblocks as usize * rate` with release-mode (wrapping) arithmetic on
   * a 64-bit target, where the cast from u64 is the identity.
   */
  function BlockBytes(outblocks: u64, rate: usize): (n: usize)
    ensures n == (outblocks * rate) % USIZE_MODULUS
    ensures outblocks * rate < USIZE_MODULUS ==> n == outblocks * rate
  {
    var product := outblocks * rate;
    if product < USIZE_MODULUS then product else product % USIZE_MODULUS
  }

  method Stream128Init(state: Stream128State, hash: Hash, seed: seq<byte>, nonce: u16)
    requires state.Valid()
    modifies state.s
    ensures state.Valid()
    ensures state.s[..] == InitState(hash, seed, nonce)
  {
    Init(state, hash, seed, nonce);
  }

  /** Squeeze outblocks blocks of SHAKE128_RATE bytes each. */
  method Stream128SqueezeBlocks(out: array<byte>, outblocks: u64, state: Stream128State, hash: Hash)
    requires state.Valid()
    requires BlockBytes(outblocks, SHAKE128_RATE) <= out.Length
    requires out != state.s
    modifies state.s, out
    ensures state.Valid()
    ensures outblocks * SHAKE128_RATE < USIZE_MODULUS ==> BlockBytes(outblocks, SHAKE128_RATE) == outblocks * SHAKE128_RATE
    ensures out[..BlockBytes(outblocks, SHAKE128_RATE)]
         == SqueezeStream(hash, old(state.s[..]), BlockBytes(outblocks, SHAKE128_RATE))
    ensures out[BlockBytes(outblocks, SHAKE128_RATE)..] == old(out[BlockBytes(outblocks, SHAKE128_RATE)..])
    ensures state.s[..] == Iterate(hash, old(state.s[..]), Blocks(BlockBytes(outblocks, SHAKE128_RATE)))
  {
    SqueezeBytes(state, hash, out, BlockBytes(outblocks, SHAKE128_RATE));
  }

  method Stream128Absorb(state: Stream128State, hash: Hash, input: seq<byte>)
    requires state.Valid()
    modifies state.s
    ensures state.Valid()
    ensures state.s[..] == AbsorbState(hash, old(state.s[..]), input)
  {
    Absorb(state, hash, input);
  }

  method Stream256Init(state: Stream256State, hash: Hash, seed: seq<byte>, nonce: u16)
    requires state.Valid()
    modifies state.s
    ensures state.Valid()
    ensures state.s[..] == InitState(hash, seed, nonce)
  {
    Init(state, hash, seed, nonce);
  }

  /** Squeeze outblocks blocks of SHAKE256_RATE bytes each. */
  method Stream256SqueezeBlocks(out: array<byte>, outblocks: u64, state: Stream256State, hash: Hash)
    requires state.Valid()
    requires BlockBytes(outblocks, SHAKE256_RATE) <= out.Length
    requires out != state.s
    modifies state.s, out
    ensures state.Valid()
    ensures outblocks * SHAKE256_RATE < USIZE_MODULUS ==> BlockBytes(outblocks, SHAKE256_RATE) == outblocks * SHAKE256_RATE
    ensures out[..BlockBytes(outblocks, SHAKE256_RATE)]
         == SqueezeStream(hash, old(state.s[..]), BlockBytes(outblocks, SHAKE256_RATE))
    ensures out[BlockBytes(outblocks, SHAKE256_RATE)..] == old(out[BlockBytes(outblocks, SHAKE256_RATE)..])
    ensures state.s[..] == Iterate(hash, old(state.s[..]), Blocks(BlockBytes(outblocks, SHAKE256_RATE)))
  {
    SqueezeBytes(state, hash, out, BlockBytes(outblocks, SHAKE256_RATE));
  }

  method Stream256Absorb(state: Stream256State, hash: Hash, input: seq<byte>)
    requires state.Valid()
    modifies state.s
    ensures state.Valid()
    ensures state.s[..] == AbsorbState(hash, old(state.s[..]), input)
  {
    Absorb(state, hash, input);
  }

  /**
   * A `*_squeezeblocks` call ends on a whole 32-byte digest exactly when
   * outblocks is a multiple of 4 (4 * 168 == 21 * 32, 4 * 136 == 17 * 32),
   * and only then does the next squeeze continue its stream.
   */
  lemma WholeDigestsIffMultipleOfFour(outblocks: nat)
    ensures (outblocks * SHAKE128_RATE) % DIGEST_BYTES == 0 <==> outblocks % 4 == 0
    ensures (outblocks * SHAKE256_RATE) % DIGEST_BYTES == 0 <==> outblocks % 4 == 0
  {
    RateResidue(outblocks);
  }

  /**
   * Both rates are 8 more than a multiple of 32, so `outblocks` blocks
   * overshoot a whole number of digests by 8 bytes per block modulo 32.
   */
  lemma RateResidue(outblocks: nat)
    ensures (outblocks * SHAKE128_RATE) % DIGEST_BYTES == 8 * (outblocks % 4)
    ensures (outblocks * SHAKE256_RATE) % DIGEST_BYTES == 8 * (outblocks % 4)
  {
    var q, r := outblocks / 4, outblocks % 4;
    assert outblocks == 4 * q + r;
    ModOfMultiplePlus(outblocks * SHAKE128_RATE, 21 * q + 5 * r, 8 * r);
    ModOfMultiplePlus(outblocks * SHAKE256_RATE, 17 * q + 4 * r, 8 * r);
  }

  /** Euclidean division by 32 is unique: `32x + b` leaves remainder `b` when `0 <= b < 32`. */
  lemma ModOfMultiplePlus(a: int, x: int, b: int)
    requires 0 <= b < DIGEST_BYTES
    requires a == DIGEST_BYTES * x + b
    ensures a % DIGEST_BYTES == b
  {
  }
}
