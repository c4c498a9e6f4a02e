/** Go's built-in value types as the authentication core uses them. */
module GoTypes {

  /** A Go `byte`. */
  newtype byte = x: int | 0 <= x < 256

  /** A Go `string` is an immutable sequence of bytes, and so is a `[]byte`. */
  type GoString = seq<byte>

  /**
   * What running a Go expression produces: a value, or the run-time panic
   * "index out of range" that a slice index past the end raises.
   */
  datatype Exec<+T> = Done(value: T) | IndexOutOfRange

  /** The bytes of an ASCII string literal. */
  function Ascii(s: string): (r: GoString)
    requires forall i :: 0 <= i < |s| ==> s[i] as int < 128
    ensures |r| == |s|
    ensures forall i :: 0 <= i < |s| ==> r[i] as int == s[i] as int
  {
    seq(|s|, i requires 0 <= i < |s| => s[i] as int as byte)
  }
}
