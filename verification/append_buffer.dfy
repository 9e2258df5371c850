/**
 * The append buffer (`struct buffer`): a growable byte string a frame is
 * assembled in before it is written out in one go.
 */
module AppendBuffer {
  import opened Bytes

  class Buffer {
    /** The bytes appended so far (`b`). */
    var b: seq<Byte>
    /** Their count (`len`). */
    var len: int

    ghost predicate Valid()
      reads this
    {
      len == |b|
    }

    /** `BUFFER_INIT`: an empty buffer. */
    constructor ()
      ensures Valid() && b == []
    {
      b := [];
      len := 0;
    }

    /**
     * `appendToBuffer(buf, s, n)`: grows the buffer by the first n bytes of
     * s. `grown` is whether the `realloc` succeeded; when it did not, the
     * buffer is left as it was. Appending all of s adds s itself.
     */
    method Append(s: seq<Byte>, n: int, grown: bool)
      requires Valid() && 0 <= n <= |s|
      modifies this
      ensures Valid()
      ensures b == if grown then old(b) + s[..n] else old(b)
      ensures grown && n == |s| ==> b == old(b) + s
    {
      if !grown {
        return;
      }
      b := b + s[..n];
      len := len + n;
    }
  }
}
