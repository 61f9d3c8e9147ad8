/** Byte strings, 32-byte digests and what it means to break a hash. */
module Bytes {

  type Byte = b: int | 0 <= b < 256

  type Bytes = seq<Byte>

  /** A BLAKE3 output, a Merkle node or a public key: exactly 32 bytes. */
  type Digest = d: Bytes | |d| == 32 witness ZERO_BYTES

  const ZERO_BYTES: Bytes :=
    [0, 0, 0, 0, 0, 0, 0, 0, 0, 0, 0, 0, 0, 0, 0, 0,
     0, 0, 0, 0, 0, 0, 0, 0, 0, 0, 0, 0, 0, 0, 0, 0]

  const ZERO_DIGEST: Digest := ZERO_BYTES

  /** BLAKE3 is never opened up: every result below holds for an arbitrary function of this type. */
  type HashFn = Bytes -> Digest

  /** Two different inputs with one hash. Soundness results end in "or here is one of these". */
  predicate Collision(h: HashFn, pair: (Bytes, Bytes)) {
    pair.0 != pair.1 && h(pair.0) == h(pair.1)
  }

  datatype Option<+T> = None | Some(value: T)

  datatype Result<+T, +E> = Ok(value: T) | Err(error: E)
}
