/** A client connection's bounded send buffer: space is made, filled in place, flushed in parts. */
module SendBuffer {
  import opened Chunked

  const OK := 0
  const ERROR := -1
  const AGAIN := -2

  class Connection {
    const bufSize: nat             // the configured send buffer size
    var closed: bool
    var buffer: array?<Byte>
    var len: nat
    var deferred: bool             // on the list of connections flushed at the end of the loop turn
    ghost var appended: seq<Byte>  // everything ever put into the buffer
    ghost var accepted: seq<Byte>  // everything the socket took

    ghost function Buffered(): seq<Byte>
      requires buffer != null ==> len <= buffer.Length
      reads this, buffer
    {
      if buffer == null then [] else buffer[..len]
    }

    /** FIFO: what the socket took, then what is buffered, is what was appended. */
    ghost predicate Valid()
      reads this, buffer
    {
      && (buffer != null ==> buffer.Length == bufSize && len <= bufSize)
      && (buffer == null ==> len == 0)
      && (!closed ==> accepted + Buffered() == appended)
      && (closed ==> buffer == null)
    }

    constructor (bufSize: nat)
      ensures Valid() && this.bufSize == bufSize && !closed && !deferred && buffer == null
      ensures appended == [] && accepted == []
    {
      this.bufSize := bufSize;
      closed, deferred, buffer, len := false, false, null, 0;
      appended, accepted := [], [];
    }

    /** Give the buffer to the socket; `write` is how much it takes, negative when it fails. */
    method Flush(write: int) returns (ret: int)
      requires Valid() && write <= len
      modifies this`closed, this`buffer, this`len, this`accepted, buffer
      ensures Valid() && appended == old(appended)
      ensures ret == if old(closed) || (old(len) > 0 && write < 0) then ERROR
                     else if old(len) == 0 || write == old(len) then OK else AGAIN
      ensures ret == ERROR ==> closed
      ensures ret != ERROR ==>
          !closed && buffer == old(buffer) && len == old(len) - (if old(len) == 0 then 0 else write)
      ensures ret == OK ==> len == 0 && accepted == appended
    {
      if closed {
        return ERROR;
      }
      if buffer == null || len == 0 {
        return OK;
      }
      if write < 0 {
        Close();
        return ERROR;
      }
      Taken(write);
      return if len > 0 then AGAIN else OK;
    }

    /** The socket took `write` bytes: the rest moves to the front. */
    method Taken(write: nat)
      requires Valid() && !closed && buffer != null && write <= len
      modifies this`len, this`accepted, buffer
      ensures Valid() && len == old(len) - write && accepted == old(accepted) + old(buffer[..write])
    {
      ghost var sofar, was := accepted, buffer[..len];
      accepted := accepted + buffer[..write];
      len := len - write;
      if len > 0 {
        Compact(write);
      }
      assert buffer[..len] == was[write..];
      assert sofar + was == sofar + was[..write] + was[write..];
    }

    /** memmove of the rest of the buffer to its front. */
    method Compact(write: nat)
      requires buffer != null && write + len <= buffer.Length
      modifies buffer
      ensures buffer[..len] == old(buffer[write..write + len])
    {
      forall i | 0 <= i < len {
        buffer[i] := buffer[i + write];
      }
    }

    method Close()
      requires Valid()
      modifies this`closed, this`buffer, this`len
      ensures Valid() && closed
    {
      closed := true;
      buffer := null;
      len := 0;
    }

    /** Room for `size` more bytes at the end of the buffer, or a negative code. The buffer is flushed first
        if it has less. */
    method MakeSpace(size: nat, write: int) returns (ret: int)
      requires Valid() && write <= len
      modifies this, buffer
      ensures Valid() && appended == old(appended)
      ensures ret >= 0 ==> !closed && buffer != null && ret == bufSize - len && ret >= size
      ensures ret < 0 ==> ret == ERROR || ret == AGAIN
      ensures ret == AGAIN ==> !closed && bufSize - len < size
      ensures ret == ERROR <==> old(closed) || size > bufSize || (bufSize - old(len) < size && write < 0)
      ensures ret == ERROR ==> closed || size > bufSize
      ensures old(closed) || size > bufSize ==> deferred == old(deferred) && closed == old(closed) && len == old(len)
      ensures !old(closed) && size <= bufSize ==> deferred
      ensures ret != ERROR ==> len == old(len) - if bufSize - old(len) < size then write else 0
      ensures old(buffer) != null && buffer != old(buffer) ==> closed
      ensures old(buffer) == null && buffer != null ==> fresh(buffer)
    {
      if closed || size > bufSize {
        return ERROR;
      }
      deferred := true;
      if buffer == null {
        buffer := new Byte[bufSize];
        len := 0;
        return bufSize;
      }
      if bufSize - len >= size {
        return bufSize - len;
      }
      var flushed := Flush(write);
      if flushed == ERROR {
        return ERROR;
      }
      return if bufSize - len >= size then bufSize - len else AGAIN;
    }

    /** The bytes a producer wrote behind the buffered ones become part of the buffer. */
    method Append(n: nat)
      requires Valid() && !closed && buffer != null && len + n <= bufSize
      modifies this`len, this`appended
      ensures Valid() && len == old(len) + n && appended == old(appended) + buffer[old(len)..len]
    {
      appended := appended + buffer[len..len + n];
      assert buffer[..len + n] == buffer[..len] + buffer[len..len + n];
      len := len + n;
    }

    /** The flush at the end of the loop turn; a buffer that has become empty is given back. */
    method DeferRoutine(write: int)
      requires Valid() && write <= len && deferred
      modifies this, buffer
      ensures Valid() && appended == old(appended) && !deferred
      ensures closed <==> old(closed) || (old(len) > 0 && write < 0)
      ensures !closed ==> len == old(len) - if old(len) > 0 then write else 0
      ensures !closed ==> buffer == if len == 0 then null else old(buffer)
    {
      deferred := false;
      if closed {
        return;
      }
      var flushed := Flush(write);
      if flushed == OK {
        buffer := null;
      }
    }
  }
}
