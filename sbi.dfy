/**
 * Decoding of an SBI call's reply (kernel/src/sbi/mod.rs).
 *
 * An SBI call returns two words: an error code in `a0` and a value in `a1`.
 * The `ecall` itself is firmware I/O, so the model takes the two reply
 * words as inputs. Error codes are those of chapter 3 ("Binary Encoding")
 * of the RISC-V Supervisor Binary Interface specification; a negative code
 * `-k` arrives as the two's-complement word `0 - k`.
 */
module Sbi {
  import opened Wrappers
  import opened Machine

  datatype StandardError =
    | Unknown
    | Failed
    | NotSupported
    | InvalidParam
    | Denied
    | InvalidAddr
    | AlreadyAvailable
    | AlreadyStarted
    | AlreadyStopped

  /** The magnitude `k` of the code `-k` the SBI specification assigns to each standard error. */
  function Magnitude(e: StandardError): (k: Word)
    requires e != Unknown
    ensures 1 <= k <= 8
  {
    match e
    case Failed => 1
    case NotSupported => 2
    case InvalidParam => 3
    case Denied => 4
    case InvalidAddr => 5
    case AlreadyAvailable => 6
    case AlreadyStarted => 7
    case AlreadyStopped => 8
  }

  /** The error word `-k` of a standard error, in two's complement. */
  function CodeWord(e: StandardError): Word
    requires e != Unknown
  {
    0 - Magnitude(e)
  }

  /**
   * `call`'s mapping from the reply `(error, value)` to
   * `Result<usize, StandardError>`, matching on `error as isize`.
   */
  function Decode(error: Word, value: Word): (r: Result<Word, StandardError>)
    ensures r.Ok? <==> error == 0
    ensures r.Ok? ==> r.value == value
    ensures r.Err? && r.error != Unknown ==> error == CodeWord(r.error)
    ensures r.Err? && r.error == Unknown ==> error != 0 && 0 - error > 8
  {
    if error == 0 then Ok(value)
    else if error == 0 - 1 then Err(Failed)
    else if error == 0 - 2 then Err(NotSupported)
    else if error == 0 - 3 then Err(InvalidParam)
    else if error == 0 - 4 then Err(Denied)
    else if error == 0 - 5 then Err(InvalidAddr)
    else if error == 0 - 6 then Err(AlreadyAvailable)
    else if error == 0 - 7 then Err(AlreadyStarted)
    else if error == 0 - 8 then Err(AlreadyStopped)
    else Err(Unknown)
  }

  /** Every standard error is recovered from its own code, whatever the value word holds. */
  lemma DecodeCode(e: StandardError, value: Word)
    requires e != Unknown
    ensures Decode(CodeWord(e), value) == Err(e)
  {
  }

  /** On an error the value word is discarded: the decode depends on the error word alone. */
  lemma DecodeIgnoresValueOnError(error: Word, v1: Word, v2: Word)
    requires error != 0
    ensures Decode(error, v1) == Decode(error, v2)
  {
  }

  /** Positive codes (words below 2^63) are all `Unknown`, as is every code below -8. */
  lemma OutOfRangeIsUnknown(error: Word, value: Word)
    requires 0 < error < 0x8000_0000_0000_0000 || (error >= 0x8000_0000_0000_0000 && 0 - error > 8)
    ensures Decode(error, value) == Err(Unknown)
  {
  }
}
