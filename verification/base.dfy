/** Shared vocabulary: optional values, results, and Go's byte strings. */
module Base {

  /** A Go `byte`. */
  type Byte = b: int | 0 <= b < 256

  /** Go `string` and `[]byte` are both byte sequences; `len` counts bytes. */
  type Bytes = seq<Byte>

  /** An unsigned 32-bit value, the result type of the ring's hash function. */
  type Hash32 = h: int | 0 <= h < 0x1_0000_0000

  /** A `func(data []byte) uint32`. */
  type HashFn = Bytes -> Hash32

  datatype Option<+T> = None | Some(value: T)

  datatype Result<+T, +E> = Success(value: T) | Failure(error: E)

  /** No element occurs twice. */
  predicate NoDup<T(==)>(s: seq<T>) {
    forall i, j :: 0 <= i < j < |s| ==> s[i] != s[j]
  }

  /** The bytes of a string literal written in ASCII. */
  function Ascii(s: string): (b: Bytes)
    requires forall i :: 0 <= i < |s| ==> s[i] as int < 256
    ensures |b| == |s|
    ensures forall i :: 0 <= i < |s| ==> b[i] == s[i] as int
  {
    seq(|s|, i requires 0 <= i < |s| => s[i] as int)
  }

  /** The byte '/'. */
  const Slash: Byte := 47
}
