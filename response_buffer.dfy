/**
 * The growable buffer `http_get` accumulates the response in: `response`,
 * reallocated to `response_size + n + 1` bytes for every chunk of `n` bytes
 * read, with a NUL written after the last byte.
 */
module ResponseBuffers {
  import opened CStrings

  class ResponseBuffer {
    /** `response`: null until the first chunk arrives. */
    var data: array?<byte>
    /** `response_size`: the number of bytes received so far. */
    var length: nat

    /** The block holds exactly the received bytes and the NUL after them. */
    ghost predicate Valid()
      reads this, data
    {
      (data == null ==> length == 0) &&
      (data != null ==> data.Length == length + 1 && data[length] == NUL)
    }

    /** The bytes received so far. */
    function Contents(): seq<byte>
      reads this, data
      requires Valid()
    {
      if data == null then [] else data[..length]
    }

    /** `char *response = NULL; size_t response_size = 0;` */
    constructor ()
      ensures Valid() && data == null && length == 0
      ensures Contents() == []
    {
      data := null;
      length := 0;
    }

    /**
     * One pass of the read loop for a chunk of `|chunk| > 0` bytes.
     * `grows` is the outcome of `realloc`. When it fails the block is freed
     * and `ok` is false; otherwise the
     * chunk is appended after the bytes already there, which stay as they
     * were, and a NUL follows it.
     */
    method Append(chunk: seq<byte>, grows: bool) returns (ok: bool)
      requires Valid() && |chunk| > 0
      modifies this
      ensures Valid() && ok == grows
      ensures ok ==> fresh(data) && length == old(length) + |chunk|
      ensures ok ==> Contents() == old(Contents()) + chunk
      ensures !ok ==> data == null && length == 0
    {
      ok := grows;
      if !ok {
        // free(response): the bytes received so far are released
        data, length := null, 0;
        return;
      }
      var size, n := length, |chunk|;
      var block := new byte[size + n + 1](_ => NUL);
      if data != null {
        // realloc carries the old block, its NUL included, over to the new one
        var previous: array<byte> := data;
        var k := 0;
        while k < previous.Length
          invariant 0 <= k <= previous.Length
          invariant block[..k] == previous[..k]
        {
          block[k] := previous[k];
          k := k + 1;
        }
        assert block[..size] == previous[..size];
      }
      // memcpy(response + response_size, buffer, n)
      var j := 0;
      while j < n
        invariant 0 <= j <= n
        invariant block[..size] == old(Contents())
        invariant block[size..size + j] == chunk[..j]
      {
        block[size + j] := chunk[j];
        j := j + 1;
      }
      assert block[..size + n] == old(Contents()) + chunk by {
        assert block[..size + n] == block[..size] + block[size..size + n];
      }
      data := block;
      length := size + n;
      data[length] := NUL;
    }
  }
}
