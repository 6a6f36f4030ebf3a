/** The append-only output buffer: a Go byte slice, i.e. a backing array (its capacity) and a length. */
module Buffer {
  import opened Bytes

  class ByteBuf {
    /** The backing array; `data.Length` is the slice's capacity. */
    var data: array<byte>
    /** The slice's length: the bytes written so far are `data[..len]`. */
    var len: nat

    ghost predicate Valid()
      reads this
    {
      len <= data.Length
    }

    /** The bytes of the slice, `buf[:len(buf)]`. */
    function Contents(): seq<byte>
      reads this, data
      requires Valid()
    {
      data[..len]
    }

    /** `var buf []byte`: the nil slice, length and capacity 0. */
    constructor ()
      ensures Valid() && fresh(data)
      ensures Contents() == [] && data.Length == 0
    {
      data := new byte[0];
      len := 0;
    }

    /**
     * reserveBuffer: extends the length by `appendSize`, keeping the bytes already written.
     * When the capacity is too small it moves to a fresh array of capacity 2*len + appendSize;
     * otherwise the same array is kept. The new tail holds whatever the array held there.
     */
    method Reserve(appendSize: nat)
      requires Valid()
      modifies this
      ensures Valid() && len == old(len) + appendSize
      ensures data[..old(len)] == old(Contents())
      ensures old(data.Length) < len ==> fresh(data) && data.Length == 2 * old(len) + appendSize
      ensures old(data.Length) >= len ==> data == old(data)
    {
      var newSize := len + appendSize;
      if data.Length < newSize {
        // the new capacity is twice the length plus what is asked for
        var newBuf := new byte[len * 2 + appendSize];
        forall k | 0 <= k < len {
          newBuf[k] := data[k];
        }
        data := newBuf;
      }
      len := newSize;
    }

    /** Go's `append(buf, s...)`: the slice grows by exactly `s`. */
    method Append(s: seq<byte>)
      requires Valid()
      modifies this, data
      ensures Valid() && Contents() == old(Contents()) + s
      ensures data == old(data) || fresh(data)
    {
      var start := len;
      Reserve(|s|);
      forall k | 0 <= k < |s| {
        data[start + k] := s[k];
      }
      assert forall k :: 0 <= k < start ==> data[k] == old(Contents())[k];
      assert data[..len] == old(Contents()) + s;
    }
  }
}
