# Seed-expansion stream of pqc_dilithium, in Dafny

This project models `src/symmetric.rs` of a Rust implementation of a
module-lattice signature scheme (Dilithium). That file holds the
seed-expansion stream that the samplers read. Despite its SHAKE-like names,
the stream is not the FIPS 202 extendable-output function. It is a hash
chain over Keccak-256, with this layout:

- The state is one 32-byte buffer.
- `init(seed, nonce)` sets the state to `H(seed ‖ Z)`. `Z` is thirty zero
  bytes followed by the `u16` nonce in big-endian order.
- `absorb(input)` sets the state to `H(state ‖ input)`.
- `squeezebytes(out, outlen)` writes the state as a 32-byte block, then
  replaces the state with `H(state)`, and repeats. The last block is cut
  to the bytes still needed, but the state is hashed after it all the same.
- `stream128_*` and `stream256_*` are this one construction on one state
  type. They differ only in the block size of `*_squeezeblocks`: 168 bytes
  (`SHAKE128_RATE`) and 136 bytes (`SHAKE256_RATE`).

Files:
- `primitives.dfy` (module `Primitives`): the byte and integer types and the
  hash. Keccak-256 is the `Hash` type, an arbitrary function from bytes to a
  32-byte digest, and every operation takes it as a parameter. Successive
  hasher `update` calls are modelled as hashing their concatenation.
- `hash_chain.dfy` (module `HashChain`): the pure reference. It defines the
  nonce block, the chain `Hⁱ(s)` (`Iterate`), the bytes a squeeze emits
  (`SqueezeStream`) and the state it leaves (`SqueezeState`), and proves
  lemmas about them.
- `symmetric.dfy` (module `Symmetric`): the imperative model.
  - `State` is a class holding a 32-byte array.
  - `init`, `squeezebytes` and `absorb` are methods that overwrite that
    array in place. `squeezebytes` keeps the source's `while idx < outlen`
    loop.
  - `copy_from_slice` is `CopyFromSlice`; the hasher's `finalize` is
    `Finalize`, which copies the digest with `CopyFromSlice`.
  - The stream wrappers call these methods, as the source does.
  - Each method's `ensures` ties the new state and the output buffer to
    the reference functions.

The stream is a hash chain and nothing consumes the state, so a squeeze
can be followed by another squeeze or by `absorb`.

The block sizes 168 and 136 are not multiples of 32. Unless `outblocks` is
a multiple of 4 (4·168 = 21·32, 4·136 = 17·32), a `*_squeezeblocks` call
ends with a truncated chain digest and hashes past it, so the rest of that
digest is never emitted and the next call does not continue one stream.
`WholeDigestsIffMultipleOfFour` shows that a call emits whole digests
exactly when `outblocks` is a multiple of 4. `ConsecutiveSqueezes` shows
that in that case the next squeeze continues the stream exactly.
`ResumedSqueezeDiscontinuous` shows a hash and a state for which the
outputs differ when the first squeeze ends mid-digest.
This is not a defect: signer and verifier re-derive the same bytes from
the same state.

## Model

| member | source | states |
|---|---|---|
| `HashChain.ToBeBytes` | src/symmetric.rs:25 | `nonce.to_be_bytes()` is two bytes, high byte first: `b[0]*256 + b[1] == nonce` |
| `HashChain.NonceBlock` | src/symmetric.rs:22-25 | the block hashed after the seed is 32 bytes: bytes 0..30 are zero and bytes 30..32 are the big-endian nonce |
| `HashChain.NonceBlockInjective` | src/symmetric.rs:22-26 | distinct nonces give distinct nonce blocks |
| `HashChain.InitInputInjective` | src/symmetric.rs:23-26 | the bytes `init` hashes, `seed ‖ Z(nonce)`, determine both seed and nonce, for seeds of any lengths |
| `HashChain.SqueezeStream` | src/symmetric.rs:30-45 | the reference stream of `outlen` bytes is exactly `outlen` long (full blocks of the state, then its hash, and so on, the last block cut) |
| `HashChain.IterateShift` | src/symmetric.rs:41-43 | one hash step before `k` chain steps is `k + 1` chain steps: `Hᵏ(H(s)) == Hᵏ⁺¹(s)` |
| `HashChain.IterateAdd` | src/symmetric.rs:41-43 | chain steps compose: `Hᵇ(Hᵃ(s)) == Hᵃ⁺ᵇ(s)` |
| `HashChain.SqueezeStep` | src/symmetric.rs:33-43 | one pass of the loop emits `min(left, 32)` bytes of the state and continues from `H(state)` |
| `HashChain.RemainderStep` | src/symmetric.rs:32-44 | the loop's bookkeeping: if the unwritten rest of the stream is the stream of the current state, its next `min(left, 32)` bytes are that state's and what follows is the stream of its hash |
| `HashChain.SqueezeStreamAt` | src/symmetric.rs:32-44 | byte `j` of the stream is byte `j % 32` of `H^(j/32)(s₀)` |
| `HashChain.SqueezeStreamBlock` | src/symmetric.rs:34-36 | each full block `i` (`32(i+1) <= outlen`) of the stream is exactly `Hⁱ(s₀)` |
| `HashChain.SqueezeStreamTail` | src/symmetric.rs:37-39 | a final partial block of `r = outlen % 32` bytes is `Hᵏ(s₀)[..r]`, with `k = outlen / 32` |
| `HashChain.SqueezeOutputLayout` | src/symmetric.rs:32-44 | a buffer whose first `outlen` bytes are the stream holds `Hⁱ(s₀)` at offset `32i` for every full block, and the truncated `Hᵏ(s₀)` after them |
| `HashChain.SqueezeStateIterate` | src/symmetric.rs:32-44 | the state after a squeeze of `n` bytes is `H^⌈n/32⌉(s₀)`: it advances after the truncated block too |
| `HashChain.SqueezeStreamPrefix` | src/symmetric.rs:30-45 | squeezing fewer bytes from the same state gives a prefix of squeezing more |
| `HashChain.SqueezeStreamSplit` | src/symmetric.rs:30-45 | after `k` whole blocks, the rest of the stream is the stream of `Hᵏ(s₀)` |
| `HashChain.ConsecutiveSqueezes` | src/symmetric.rs:30-45 | two squeezes in a row leave the state `H^(⌈n1/32⌉+⌈n2/32⌉)(s₀)`; when `n1` is a multiple of 32 they emit and leave exactly what one squeeze of `n1 + n2` bytes does |
| `HashChain.ResumedSqueezeDiscontinuous` | src/symmetric.rs:58-64 | when `n` is not a multiple of 32 (as for 168 and 136), some hash and state make two squeezes of `n` bytes differ from one of `2n` |
| `Symmetric.State.constructor` | src/symmetric.rs:6-9 | `State::default()` is a fresh 32-byte all-zero buffer |
| `Symmetric.CopyFromSlice` | src/symmetric.rs:35-38 | `copy_from_slice` / `finalize` overwrite exactly the window `dst[off..off+len]` with the source and leave every other byte unchanged |
| `Symmetric.Finalize` | src/symmetric.rs:27 | `hasher.finalize(&mut state.s)` makes the state buffer equal to the digest |
| `Symmetric.Init` | src/symmetric.rs:21-28 | the new state is `H(seed ‖ 0³⁰ ‖ be16(nonce))`, whatever the state was before |
| `Symmetric.SqueezeBytes` | src/symmetric.rs:30-45 | `out[..outlen]` is the reference stream and `out[outlen..]` is unchanged; full block `i` is `Hⁱ(s₀)`, the partial block is a prefix of `Hᵏ(s₀)`; the final state is `H^⌈outlen/32⌉(s₀)`, and it is unchanged when `outlen == 0`; the loop terminates |
| `Symmetric.SqueezeLoop` | src/symmetric.rs:32-44 | the `while idx < outlen` loop writes byte `j` of the reference stream at every `j < outlen`, leaves every later byte of `out` as it was, and leaves the state `SqueezeState(s₀, outlen)` |
| `Symmetric.SqueezedBuffer` | src/symmetric.rs:32-44 | a buffer whose first `outlen` bytes match the stream, with the rest as before, has the stream as its `..outlen` slice, the block layout, and its `outlen..` slice unchanged |
| `Symmetric.Absorb` | src/symmetric.rs:47-52 | the new state is `H(old state ‖ input)`; only the state buffer changes |
| `Symmetric.BlockBytes` | src/symmetric.rs:63 | `outblocks as usize * RATE` is `(outblocks * RATE) mod 2^64`, so exactly `outblocks * RATE` whenever that product fits in a 64-bit `usize` |
| `Symmetric.Stream128Init` | src/symmetric.rs:54-56 | same state as `init`: `H(seed ‖ Z(nonce))` |
| `Symmetric.Stream128SqueezeBlocks` | src/symmetric.rs:58-64 | emits exactly `outblocks * 168` bytes (without overflow) of the reference stream and leaves the state `H^⌈outblocks*168/32⌉(s₀)` |
| `Symmetric.Stream128Absorb` | src/symmetric.rs:66-68 | same state as `absorb`: `H(old state ‖ input)` |
| `Symmetric.Stream256Init` | src/symmetric.rs:70-72 | identical contract to `Stream128Init`, since both name the same `State` |
| `Symmetric.Stream256SqueezeBlocks` | src/symmetric.rs:74-80 | emits exactly `outblocks * 136` bytes (without overflow) of the reference stream and leaves the state `H^⌈outblocks*136/32⌉(s₀)` |
| `Symmetric.WholeDigestsIffMultipleOfFour` | src/symmetric.rs:58-64 | `outblocks * 168` and `outblocks * 136` are multiples of 32 exactly when `outblocks` is a multiple of 4, so only then does a `*_squeezeblocks` call end on a whole digest |
| `Symmetric.RateResidue` | src/symmetric.rs:58-64 | `outblocks * 168` and `outblocks * 136` are both `8 * (outblocks % 4)` modulo 32 |
| `Symmetric.Stream256Absorb` | src/symmetric.rs:82-84 | identical contract to `Stream128Absorb` |

## Left out

- Keccak-256 itself (`tiny_keccak::Keccak::v256`): an external primitive. It is any function yielding 32 bytes, passed as a parameter.
- `_crh` (src/symmetric.rs:17-19): it calls `shake256` from `fips202.rs`, which is not part of this model.
- `SHAKE128_RATE` and `SHAKE256_RATE` come from `fips202.rs`, which is not part of this model. They are taken as the FIPS 202 rates, 168 and 136 bytes.
- Slice-bound panics: the source panics when `out` is shorter than `outlen`. The model makes `outlen <= out.Length` a precondition.
- Aliasing: the borrow checker keeps `out` and the state apart. The model makes that a precondition.
- Symmetric.BlockBytes: fixes a 64-bit `usize` with release-mode wrapping. A debug build panics on overflow instead. A wasm32 build truncates `outblocks` to 32 bits and wraps modulo 2^32. Neither is modelled.
- src/api.rs, src/wasm.rs, pkg/pqc_dilithium.d.ts, tests/integration.rs: API facade, host bindings, generated declarations and tests. Their behaviour rests on the signing code (NTT, samplers, packing, signing loop), which is not part of this model.
