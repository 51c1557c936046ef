/** Option and Result, the two shapes every fallible operation of the SDK answers in. */
module Outcomes {
  datatype Option<+T> = None | Some(value: T)

  datatype Result<+T, +E> = Ok(value: T) | Err(error: E) {
    predicate IsFailure() {
      Err?
    }

    function PropagateFailure<U>(): Result<U, E>
      requires Err?
    {
      Err(error)
    }

    function Extract(): T
      requires Ok?
    {
      value
    }
  }
}

/** The machine integers of the source, as ranges of the unbounded integers. */
module Words {
  type Byte = b: int | 0 <= b < 0x100
  type U32 = n: int | 0 <= n < 0x1_0000_0000
  type U64 = n: int | 0 <= n < 0x1_0000_0000_0000_0000
  type I64 = n: int | -0x8000_0000_0000_0000 <= n < 0x8000_0000_0000_0000

  type Bytes = seq<Byte>

  /** A SHA-256 digest: 32 bytes, and nothing else is assumed of it. */
  type Digest = b: Bytes | |b| == 32 witness seq(32, _ => 0)

  /** A raw Ed25519 public key. */
  type Key32 = b: Bytes | |b| == 32 witness seq(32, _ => 0)

  const I64_MIN: I64 := -0x8000_0000_0000_0000
  const I64_MAX: I64 := 0x7FFF_FFFF_FFFF_FFFF
}
