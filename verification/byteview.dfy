/**
 * `ByteView`: an immutable view of bytes holding either a byte slice `b` or
 * a string `s`; when `b` is non-nil it is used, otherwise `s` is.
 */
module ByteViews {
  import opened Base

  /** `b == None` is the nil slice. */
  datatype ByteView = ByteView(b: Option<Bytes>, s: Bytes)

  /** `ByteView{b: bytes}`, as loads and peer fetches build it. */
  function OfBytes(bytes: Bytes): ByteView {
    ByteView(Some(bytes), [])
  }

  /** `ByteView{s: str}`. */
  function OfString(str: Bytes): ByteView {
    ByteView(None, str)
  }

  /** `String`: the viewed bytes, as a string; a non-nil `b` wins over `s`. */
  function String(v: ByteView): (str: Bytes)
    ensures v.b.Some? ==> str == v.b.value
    ensures v.b.None? ==> str == v.s
  {
    if v.b.Some? then v.b.value else v.s
  }

  /** `Len`: the number of viewed bytes, whichever field holds them. */
  function Len(v: ByteView): (n: nat)
    ensures n == |String(v)|
  {
    if v.b.Some? then |v.b.value| else |v.s|
  }

  /** `cloneBytes`: a new slice of the same length, filled by `copy`. */
  function CloneBytes(b: Bytes): (clone: Bytes)
    ensures clone == b
  {
    seq(|b|, i requires 0 <= i < |b| => b[i])
  }

  /**
   * `ByteSlice`: the viewed bytes as a slice. The source returns a copy so
   * that the caller cannot write into the view; values are immutable here.
   */
  function ByteSlice(v: ByteView): (r: Bytes)
    ensures r == String(v)
    ensures |r| == Len(v)
  {
    if v.b.Some? then CloneBytes(v.b.value) else v.s
  }

  /** Wrapping bytes or a string and reading them back gives them back, whichever way they are read. */
  lemma ViewRoundTrip(bytes: Bytes)
    ensures ByteSlice(OfBytes(bytes)) == String(OfBytes(bytes)) == bytes
    ensures ByteSlice(OfString(bytes)) == String(OfString(bytes)) == bytes
    ensures Len(OfBytes(bytes)) == Len(OfString(bytes)) == |bytes|
  {
  }
}
