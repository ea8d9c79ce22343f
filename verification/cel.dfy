/** The records of a TCG Canonical Event Log as the replay consumes them. */
module Cel {

  /** An unsigned 8-bit value (Go `uint8`). */
  newtype byte = x: int | 0 <= x < 0x100

  /** Raw bytes. A Go `string` is an immutable byte sequence and `string(b)`
      reinterprets `b` without changing it, so Go strings are `Bytes` too. */
  type Bytes = seq<byte>

  /** A hash algorithm identifier (Go `crypto.Hash`). */
  type HashAlgorithm = nat

  /** The claimed digest of a record's content, one per hash algorithm. */
  type Digests = map<HashAlgorithm, Bytes>

  /** One log entry: the register it was extended into (`index`), the
      register family that index belongs to (`indexType`), the encoded
      event and its claimed digests. */
  datatype Record = Record(index: nat, indexType: byte, content: Bytes, digests: Digests)
}
