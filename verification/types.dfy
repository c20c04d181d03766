/** Basic value types shared by the converter model: bytes, 32-bit code units,
    the sentinel values folded into the converter's 32-bit answers, and small
    wrappers for optional and failing results.
 */
module Types {

  /** One octet of a byte buffer (the source reads it as `unsigned char`). */
  type byte = x: int | 0 <= x < 0x100

  /** A `uint32_t`: a codepoint, a byte count, or one of the two sentinels. */
  type uint32 = x: int | 0 <= x < 0x1_0000_0000

  /** The converter interface's "cannot be converted" answer (`utf::illegal`). */
  const IllegalRaw: uint32 := 0xFFFF_FFFF

  /** The converter interface's "need more input or room" answer (`utf::incomplete`). */
  const IncompleteRaw: uint32 := 0xFFFF_FFFE

  /** One past the largest Unicode codepoint, U+10FFFF. */
  const CodepointLimit: int := 0x11_0000

  predicate IsSentinel(x: uint32) {
    x == IllegalRaw || x == IncompleteRaw
  }

  /** The answer of one `to_unicode` or `from_unicode` call, as a tagged value
      instead of a `uint32_t` that doubles as a sentinel. `Value` carries a
      codepoint (decoding) or a number of bytes written (encoding). */
  datatype Outcome = Value(v: uint32) | Illegal | Incomplete

  /** Reads a raw 32-bit answer the way callers of the converter interface do. */
  function FromRaw(x: uint32): (r: Outcome)
    ensures r.Value? <==> !IsSentinel(x)
    ensures r.Value? ==> r.v == x
    ensures r == Illegal <==> x == IllegalRaw
  {
    if x == IllegalRaw then Illegal
    else if x == IncompleteRaw then Incomplete
    else Value(x)
  }

  datatype Option<+T> = None | Some(value: T)

  datatype Result<+T, +E> = Success(value: T) | Failure(error: E)

  function Min(a: int, b: int): int {
    if a <= b then a else b
  }
}
