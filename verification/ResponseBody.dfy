/** The body loop of an HTTP/1 response: generate into the send buffer, pack in place, account, repeat. */
module ResponseBody {
  import opened Common
  import opened Chunked
  import opened SendBuffer

  const MIN_SPACE := 4096

  /** One call of the body generator: bytes (none at the end of a body of unknown length), or a suspension. */
  datatype Piece = Data(bytes: seq<Byte>) | Suspend

  datatype Status = Finished | Again | Failed | Continue

  class Response {
    const c: Connection
    const version: nat               // 0 for HTTP/1.0
    const contentLength: Option<nat> // None is the "not set" marker, after the header filters
    const original: Option<nat>      // as set by the content module, before them
    var generated: nat
    ghost var start: nat             // how much was appended before the body
    ghost var pieces: seq<seq<Byte>> // the pieces packed so far; the last one of a finished body may be empty
    ghost var finished: bool

    predicate IsChunked() {
      version != 0 && contentLength == None
    }

    /** The generator has delivered everything. */
    predicate Complete()
      reads this
    {
      original.Some? && generated >= original.value
    }

    /** What the body has put behind `start`: the pieces, chunked if need be. */
    ghost predicate Sent(body: seq<Byte>)
      reads this`pieces, this`finished
    {
      && Sendable(pieces) && (finished ==> pieces != [])
      && body == if !IsChunked() then Concat(pieces) else if finished then Body(pieces) else Stream(pieces)
    }

    /** A body of unknown length has no empty piece, unless it is the one that ends it. */
    ghost predicate EndsAtEmpty()
      reads this`pieces, this`finished
    {
      original == None ==> NoneEmpty(if finished && pieces != [] then pieces[..|pieces| - 1] else pieces)
    }

    ghost predicate Valid()
      reads this, c, c.buffer
    {
      && c.Valid() && start <= |c.appended| && Sent(c.appended[start..]) && EndsAtEmpty()
      && generated == |Concat(pieces)|
      && (finished && original.Some? ==> Complete())
      && c.bufSize < 0x1_0000_0000
    }

    constructor (c: Connection, version: nat, contentLength: Option<nat>, original: Option<nat>)
      requires c.Valid() && !c.closed && c.bufSize < 0x1_0000_0000
      ensures Valid() && this.c == c && this.version == version
      ensures this.contentLength == contentLength && this.original == original
      ensures pieces == [] && !finished && start == |c.appended|
    {
      this.c, this.version, this.contentLength, this.original := c, version, contentLength, original;
      generated, pieces, finished, start := 0, [], false, |c.appended|;
    }

    /** Write `bytes` into the buffer from `pos` on. */
    static method Copy(buffer: array<Byte>, pos: nat, bytes: seq<Byte>)
      requires pos + |bytes| <= buffer.Length
      modifies buffer
      ensures forall k :: 0 <= k < buffer.Length ==>
          buffer[k] == if pos <= k < pos + |bytes| then bytes[k - pos] else old(buffer[k])
    {
      forall i | 0 <= i < |bytes| {
        buffer[pos + i] := bytes[i];
      }
    }

    /** Pack the `length` bytes at `payload` where they are; the result is the packed length. */
    method Pack(buffer: array<Byte>, payload: nat, length: nat, isLast: bool) returns (n: nat)
      requires length < 0x1_0000_0000
      requires if IsChunked() then PREFIX <= payload && payload + length + SUFFIX <= buffer.Length
               else payload + length <= buffer.Length
      modifies buffer
      ensures !IsChunked() ==> n == length && buffer[..] == old(buffer[..])
      ensures IsChunked() ==>
          var from := payload - PREFIX;
          && from + n <= buffer.Length && n <= PREFIX + length + SUFFIX
          && buffer[..from] == old(buffer[..from])
          && buffer[from..from + n] == Packed(old(buffer[payload..payload + length]), isLast)
    {
      if !IsChunked() {
        return length;
      }
      ghost var data := buffer[payload..payload + length];
      var head := Padded(length) + CRLF;
      var tail := if length != 0 && isLast then CRLF + LAST else CRLF;
      Copy(buffer, payload - PREFIX, head);
      Copy(buffer, payload + length, tail);
      n := PREFIX + length + |tail|;
      Joined(buffer, payload, head, data, tail);
    }

    lemma Joined(buffer: array<Byte>, payload: nat, head: seq<Byte>, data: seq<Byte>, tail: seq<Byte>)
      requires |head| <= payload && payload + |data| + |tail| <= buffer.Length
      requires forall k :: 0 <= k < |head| ==> buffer[payload - |head| + k] == head[k]
      requires forall k :: 0 <= k < |data| ==> buffer[payload + k] == data[k]
      requires forall k :: 0 <= k < |tail| ==> buffer[payload + |data| + k] == tail[k]
      ensures buffer[payload - |head|..payload + |data| + |tail|] == head + data + tail
    {
      var from := payload - |head|;
      assert buffer[from..payload] == head;
      assert buffer[payload..payload + |data|] == data;
      assert buffer[payload + |data|..payload + |data| + |tail|] == tail;
      assert buffer[from..payload + |data| + |tail|]
          == buffer[from..payload] + buffer[payload..payload + |data|]
             + buffer[payload + |data|..payload + |data| + |tail|];
    }

    /** What is buffered when the generator is called: the buffer is flushed if it has too little room. */
    function Left(write: int): int
      reads c
    {
      if c.bufSize - c.len < MIN_SPACE then c.len - write else c.len
    }

    /** The room there is for what it generates, the chunk framing left out. */
    function Room(write: int): int
      reads c
    {
      c.bufSize - Left(write) - if version != 0 && contentLength == None then PREFIX + SUFFIX else 0
    }

    /** What the generator does with that room. */
    static function Asked(room: int, gen: nat -> Piece): (p: Piece)
      ensures room >= 0 ==> p == gen(room)
    {
      if room >= 0 then gen(room) else Data([])
    }

    /** No pass can succeed: the connection is gone or going, or its buffer too small. */
    predicate Hopeless(write: int)
      reads c
    {
      c.closed || c.bufSize < MIN_SPACE || (c.bufSize - c.len < MIN_SPACE && write < 0)
    }

    /** One pass of the loop. `write` is what the socket takes if the buffer must be flushed, `gen`
        the generator, given the room it has. */
    method Pass(write: int, gen: nat -> Piece) returns (status: Status)
      requires Valid() && !finished && write <= c.len
      requires forall room :: gen(room).Data? ==> |gen(room).bytes| <= room
      modifies this, c, c.buffer
      ensures Valid() && start == old(start)
      ensures finished <==> status == Finished
      ensures status == Failed <==> old(Hopeless(write))
      ensures status == Again <==>
          && !old(Hopeless(write))
          && (c.bufSize - old(Left(write)) < MIN_SPACE || (!old(Complete()) && Asked(old(Room(write)), gen) == Suspend))
      ensures status == Again || status == Failed ==> pieces == old(pieces) && c.appended == old(c.appended)
      ensures status == Continue || status == Finished ==>
          pieces == old(pieces) + [if old(Complete()) then [] else Asked(old(Room(write)), gen).bytes]
      ensures status == Finished ==>
          if original.Some? then |Concat(pieces)| >= original.value else pieces[|pieces| - 1] == []
      ensures status == Continue ==>
          if original.Some? then |Concat(pieces)| < original.value else pieces[|pieces| - 1] != []
    {
      hide Decode, Packed, Stream, Body, Concat, Sendable, Sent, EndsAtEmpty;
      var space := c.MakeSpace(MIN_SPACE, write);
      if space < 0 {
        return if space == AGAIN then Again else Failed;
      }
      var lead := if IsChunked() then PREFIX else 0;
      var room := if IsChunked() then space - PREFIX - SUFFIX else space;
      var data: seq<Byte> := [];
      var isLast := true;
      if !Complete() {
        var piece := gen(room);
        if piece == Suspend {
          return Again;
        }
        data := piece.bytes;
        isLast := if original.Some? then generated + |data| >= original.value else data == [];
        generated := generated + |data|;
      }
      Put(data, isLast, lead);
      status := if isLast then Finished else Continue;
    }

    /** Copy and pack one piece behind the buffered bytes, and account for it. */
    method Put(data: seq<Byte>, isLast: bool, lead: nat)
      requires c.Valid() && !c.closed && c.buffer != null && c.bufSize < 0x1_0000_0000
      requires start <= |c.appended| && Sent(c.appended[start..]) && EndsAtEmpty() && !finished
      requires generated == |Concat(pieces)| + |data|
      requires if original.Some? then isLast ==> Complete() else isLast <==> data == []
      requires lead == if IsChunked() then PREFIX else 0
      requires c.len + |data| + (if IsChunked() then PREFIX + SUFFIX else 0) <= c.bufSize
      modifies this`pieces, this`finished, c`len, c`appended, c.buffer
      ensures Valid() && finished == isLast
      ensures pieces == old(pieces) + [data]
    {
      hide Packed, Padded, Decode, Stream, Concat, Sendable;
      ghost var body := c.appended[start..];
      Emit(data, isLast, lead);
      assert c.appended[start..] == body + if IsChunked() then Packed(data, isLast) else data;
      SentMore(body, data, isLast);
      pieces := pieces + [data];
      finished := isLast;
    }

    lemma SentMore(body: seq<Byte>, data: seq<Byte>, isLast: bool)
      requires Sent(body) && !finished && |data| < 0x1_0000_0000
      ensures Sendable(pieces + [data]) && Concat(pieces + [data]) == Concat(pieces) + data
      ensures body + (if IsChunked() then Packed(data, isLast) else data)
           == if !IsChunked() then Concat(pieces + [data])
              else if isLast then Body(pieces + [data]) else Stream(pieces + [data])
    {
      StreamGrows(pieces, data);
      assert (pieces + [data])[..|pieces|] == pieces;
    }

    /** The loop events in between: a flush for a writable socket, or at the end of the loop turn. */
    method FlushBetween(write: int, atTurnEnd: bool)
      requires Valid() && write <= c.len && (atTurnEnd ==> c.deferred)
      modifies c, c.buffer
      ensures Valid() && c.appended == old(c.appended)
      ensures c.closed <==> old(c.closed) || (old(c.len) > 0 && write < 0)
      ensures !c.closed ==> c.len == old(c.len) - if old(c.len) > 0 then write else 0
    {
      if atTurnEnd {
        c.DeferRoutine(write);
      } else {
        var ret := c.Flush(write);
      }
    }

    /** End to end: once the body is finished, what the socket took and what is still buffered, behind
        the response headers, is the generated content. A chunked body decodes to it, with nothing left
        behind, exactly if no piece before the last one was empty. */
    lemma WireCarriesTheContent()
      requires Valid() && finished && !c.closed
      ensures var body := (c.accepted + c.Buffered())[start..];
              if version != 0 && contentLength == None
              then Decode(body) == Some((Concat(pieces), [])) <==> NoneEmpty(pieces[..|pieces| - 1])
              else body == Concat(pieces)
      ensures version != 0 && contentLength == None && original == None ==>
          Decode((c.accepted + c.Buffered())[start..]) == Some((Concat(pieces), []))
      ensures original.Some? ==> |Concat(pieces)| >= original.value
    {
      var body := c.appended[start..];
      assert body + [] == body;
      if IsChunked() {
        BodyDecodes(pieces, []);
      }
    }

    method Emit(data: seq<Byte>, isLast: bool, lead: nat)
      requires c.Valid() && !c.closed && c.buffer != null && |data| < 0x1_0000_0000
      requires lead == if IsChunked() then PREFIX else 0
      requires c.len + |data| + (if IsChunked() then PREFIX + SUFFIX else 0) <= c.bufSize
      modifies c`len, c`appended, c.buffer
      ensures c.Valid() && !c.closed
      ensures c.appended == old(c.appended) + (if IsChunked() then Packed(data, isLast) else data)
    {
      ghost var sofar := c.buffer[..c.len];
      var n := FillAndPack(data, isLast, lead);
      assert c.buffer[..c.len] == sofar;
      c.Append(n);
    }

    method FillAndPack(data: seq<Byte>, isLast: bool, lead: nat) returns (n: nat)
      requires c.buffer != null && |data| < 0x1_0000_0000
      requires lead == if IsChunked() then PREFIX else 0
      requires c.len + |data| + (if IsChunked() then PREFIX + SUFFIX else 0) <= c.buffer.Length
      modifies c.buffer
      ensures c.len + n <= c.buffer.Length
      ensures c.buffer[..c.len] == old(c.buffer[..c.len])
      ensures c.buffer[c.len..c.len + n] == if IsChunked() then Packed(data, isLast) else data
    {
      hide Packed, Padded;
      var payload := c.len + lead;
      Copy(c.buffer, payload, data);
      ghost var filled := c.buffer[..];
      assert c.buffer[payload..payload + |data|] == data;
      assert filled[payload..payload + |data|] == data && filled[..c.len] == old(c.buffer[..c.len]);
      n := Pack(c.buffer, payload, |data|, isLast);
      if !IsChunked() {
        assert c.buffer[..] == filled && c.buffer[..c.len] == filled[..c.len];
        assert c.buffer[payload..payload + n] == filled[payload..payload + n];
      }
    }
  }
}
