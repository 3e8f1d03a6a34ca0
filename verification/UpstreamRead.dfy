/** Reading from an upstream connection with push-back, and the header reader that uses it. */
module UpstreamRead {
  import opened Common

  type Byte = b: nat | b < 256

  const ERROR := -1
  const AGAIN := -2
  const BUFFER := 4096

  class Stream {
    ghost const stream: seq<Byte>    // everything the upstream will ever send
    var preread: seq<Byte>           // pushed back, to be read first
    var failed: bool
    ghost var consumed: seq<Byte>    // handed to readers and not pushed back
    ghost var unread: seq<Byte>      // still in the socket

    /** Nothing is lost, repeated or reordered, and the push-back is never larger than one header buffer. */
    ghost predicate Valid()
      reads this
    {
      !failed ==> consumed + preread + unread == stream && |preread| <= BUFFER
    }

    constructor (ghost stream: seq<Byte>)
      ensures Valid() && this.stream == stream && consumed == [] && preread == [] && unread == stream && !failed
    {
      this.stream := stream;
      preread, failed, consumed, unread := [], false, [], stream;
    }

    /** What a read gives: of what was pushed back as much as fits, and behind all of that, if there is room
        left, what has arrived. */
    static function Given(preread: seq<Byte>, bufLen: nat, arrived: Option<seq<Byte>>): (data: seq<Byte>)
    {
      if bufLen < |preread| then preread[..bufLen]
      else if (preread != [] && bufLen == |preread|) || arrived == None then preread
      else preread + arrived.value
    }

    /** `arrived` is what the socket hands over now, None when it fails. */
    method Read(bufLen: nat, arrived: Option<seq<Byte>>) returns (ret: int, data: seq<Byte>)
      requires Valid() && !failed
      requires arrived.Some? ==> arrived.value <= unread
      requires arrived.Some? ==> |preread| + |arrived.value| <= if bufLen < |preread| then |preread| else bufLen
      modifies this
      ensures Valid() && failed == (ret == ERROR)
      ensures ret == ERROR <==> arrived == None && (bufLen > |old(preread)| || old(preread) == [])
      ensures ret == AGAIN <==> old(preread) == [] && arrived == Some([])
      ensures ret == AGAIN ==> consumed == old(consumed) && preread == old(preread) && unread == old(unread)
      ensures ret >= 0 ==> ret == |data| <= bufLen && consumed == old(consumed) + data
      ensures ret >= 0 ==> data == Given(old(preread), bufLen, arrived)
      ensures ret >= 0 ==> preread == if bufLen < |old(preread)| then old(preread)[bufLen..] else []
      ensures ret >= 0 || ret == AGAIN || ret == ERROR
    {
      data := [];
      var room := bufLen;
      ghost var rest := consumed + preread + unread;
      if preread != [] {
        if bufLen < |preread| {
          data := preread[..bufLen];
          consumed := consumed + data;
          assert preread == data + preread[bufLen..];
          preread := preread[bufLen..];
          assert consumed + preread + unread == rest;
          return bufLen, data;
        }
        data := preread;
        room := room - |preread|;
        consumed := consumed + data;
        preread := [];
        assert consumed + preread + unread == rest;
        if room == 0 {
          return |data|, data;
        }
      }
      if arrived == None {
        failed := true;
        return ERROR, [];
      }
      var more := arrived.value;
      assert unread == more + unread[|more|..];
      data := data + more;
      consumed := consumed + more;
      unread := unread[|more|..];
      assert consumed + preread + unread == rest;
      return if data == [] then AGAIN else |data|, data;
    }

    /** Give back the tail of what was read last. */
    method ReadNotFinish(tail: seq<Byte>)
      requires Valid() && !failed && |tail| <= |consumed| && tail == consumed[|consumed| - |tail|..] && |tail| <= BUFFER
      requires tail != [] ==> preread == []
      modifies this
      ensures Valid() && !failed && unread == old(unread)
      ensures consumed == old(consumed)[..|old(consumed)| - |tail|]
      ensures preread == if tail == [] then old(preread) else tail
    {
      if tail == [] {
        return;
      }
      assert preread == [];
      assert consumed == consumed[..|consumed| - |tail|] + tail;
      preread := tail;
      consumed := consumed[..|consumed| - |tail|];
    }

    /** One turn of the header reader: read a bufferful, let the parser take a prefix, push the rest
        back. `parse` returns how much it took, None for a bad response. The parser always sees the
        stream from the first byte it has not taken, and the push-back never finds one pending. */
    method HeaderTurn(arrived: Option<seq<Byte>>, parse: seq<Byte> -> Option<nat>) returns (ret: int, seen: seq<Byte>)
      requires Valid() && !failed
      requires arrived.Some? ==> arrived.value <= unread && |preread| + |arrived.value| <= BUFFER
      requires forall s :: parse(s).Some? ==> parse(s).value <= |s|
      modifies this
      ensures Valid() && (failed <==> ret == ERROR)
      ensures ret == AGAIN <==> old(preread) == [] && arrived == Some([])
      ensures ret == ERROR <==>
          && ret != AGAIN
          && ((arrived == None && |old(preread)| < BUFFER) || parse(Given(old(preread), BUFFER, arrived)) == None)
      ensures ret >= 0 ==>
          seen == Given(old(preread), BUFFER, arrived) && parse(seen) == Some(ret) && preread == seen[ret..]
      ensures ret >= 0 ==> old(consumed) + seen <= stream && consumed == old(consumed) + seen[..ret]
      ensures ret == AGAIN ==> consumed == old(consumed) && preread == old(preread)
    {
      var n, buffer := Read(BUFFER, arrived);
      if n < 0 {
        return n, [];
      }
      ghost var before := consumed;
      assert consumed + preread + unread == stream;
      var took := parse(buffer);
      if took == None {
        failed := true;
        return ERROR, buffer;
      }
      assert buffer == buffer[..took.value] + buffer[took.value..];
      ReadNotFinish(buffer[took.value..]);
      return took.value, buffer;
    }
  }
}
