/** Machine integers, byte strings and the checked arithmetic both programs rely on. */
module Solana {

  const U16_MAX: int := 0xFFFF
  const U32_MAX: int := 0xFFFF_FFFF
  const U64_MAX: int := 0xFFFF_FFFF_FFFF_FFFF

  type u8 = x: int | 0 <= x < 0x100
  type u16 = x: int | 0 <= x <= U16_MAX
  type u64 = x: int | 0 <= x <= U64_MAX
  type i64 = x: int | -0x8000_0000_0000_0000 <= x < 0x8000_0000_0000_0000

  /** The UTF-8 bytes of a Rust `String`; `len()` of a string is the length of this sequence. */
  type Bytes = seq<u8>

  datatype Option<+T> = None | Some(value: T)

  datatype Result<+T, +E> = Ok(value: T) | Err(error: E)

  /** What an instruction hands back to the runtime: success, or the error that aborts the transaction. */
  datatype Outcome<+E> = Pass | Fail(error: E)

  /** `u64::checked_add`: `None` exactly when the mathematical sum leaves the u64 range. */
  function CheckedAdd(a: u64, b: u64): (r: Option<u64>)
    ensures r.None? <==> a + b > U64_MAX
    ensures r.Some? ==> r.value == a + b
  {
    if a + b <= U64_MAX then Some(a + b) else None
  }

  /** `u64::checked_sub`: `None` exactly when the difference would be negative. */
  function CheckedSub(a: u64, b: u64): (r: Option<u64>)
    ensures r.None? <==> a < b
    ensures r.Some? ==> r.value == a - b
  {
    if b <= a then Some(a - b) else None
  }

  /** What a transaction leaves in the store: all writes on success, none on failure. */
  function Commit<S, E>(s: S, r: Result<S, E>): S
  {
    if r.Ok? then r.value else s
  }

  /** What a transaction reports to its caller. */
  function Report<S, E>(r: Result<S, E>): Outcome<E>
  {
    if r.Ok? then Pass else Fail(r.error)
  }
}
