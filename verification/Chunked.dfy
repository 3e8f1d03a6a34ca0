/** The chunked transfer coding: packing around a payload that is already in place, and a decoder
    by section 7.1 of RFC 9112 that tolerates blanks after the size. */
module Chunked {
  import opened Common

  type Byte = b: nat | b < 256

  const CR: Byte := 13
  const LF: Byte := 10
  const SP: Byte := 32
  const CRLF: seq<Byte> := [13, 10]
  const LAST: seq<Byte> := [48, 13, 10, 13, 10]      // "0" CRLF CRLF
  const PREFIX := 10
  const SUFFIX := 7

  // ---------- hexadecimal sizes ----------

  function Digit(d: nat): Byte
    requires d < 16
  {
    if d < 10 then 48 + d else 87 + d
  }

  /** The value of a hexadecimal digit, in either case. */
  function DigitValue(b: Byte): Option<nat> {
    if 48 <= b <= 57 then Some(b - 48)
    else if 97 <= b <= 102 then Some(b - 87)
    else if 65 <= b <= 70 then Some(b - 55)
    else None
  }

  /** Lower-case hexadecimal without leading zeros. */
  function Hex(n: nat): (s: seq<Byte>)
    ensures |s| > 0
  {
    if n < 16 then [Digit(n)] else Hex(n / 16) + [Digit(n % 16)]
  }

  function Power16(k: nat): nat {
    if k == 0 then 1 else 16 * Power16(k - 1)
  }

  lemma {:induction false} HexFits(n: nat, k: nat)
    requires k > 0 && n < Power16(k)
    ensures |Hex(n)| <= k
  {
    if n >= 16 {
      assert Power16(1) == 16;
      HexFits(n / 16, k - 1);
    }
  }

  /** What "%-8x" prints. */
  function Padded(n: nat): (s: seq<Byte>)
    requires n < 0x1_0000_0000
    ensures |s| == 8
  {
    SizeFits(n);
    Hex(n) + seq(8 - |Hex(n)|, _ => SP)
  }

  lemma SizeFits(n: nat)
    requires n < 0x1_0000_0000
    ensures |Hex(n)| <= 8
  {
    assert Power16(8) == 0x1_0000_0000 by {
      assert Power16(4) == 0x1_0000;
    }
    HexFits(n, 8);
  }

  // ---------- packing ----------

  /** One packed piece. */
  function Packed(data: seq<Byte>, last: bool): seq<Byte>
    requires |data| < 0x1_0000_0000
  {
    Padded(|data|) + CRLF + data + (if data != [] && last then CRLF + LAST else CRLF)
  }

  // ---------- decoding ----------

  /** The number a digit string continues to, and what follows the digits. */
  function ReadHex(s: seq<Byte>, n: nat): (r: (nat, seq<Byte>))
    ensures |r.1| <= |s|
  {
    if s == [] || DigitValue(s[0]) == None then (n, s)
    else ReadHex(s[1..], 16 * n + DigitValue(s[0]).value)
  }

  function SkipBlanks(s: seq<Byte>): (r: seq<Byte>)
    ensures |r| <= |s|
  {
    if s != [] && (s[0] == SP || s[0] == 9) then SkipBlanks(s[1..]) else s
  }

  /** The chunk-size line: at least one digit, optional blanks, CRLF. */
  function ReadSize(s: seq<Byte>): (r: Option<(nat, seq<Byte>)>)
    ensures r.Some? ==> |r.value.1| < |s|
  {
    if s == [] || DigitValue(s[0]) == None then None
    else
      var (n, rest) := ReadHex(s, 0);
      var line := SkipBlanks(rest);
      if CRLF <= line then Some((n, line[2..])) else None
  }

  /** A whole chunked body: its content, and the bytes after the terminal chunk. */
  function Decode(s: seq<Byte>): Option<(seq<Byte>, seq<Byte>)>
    decreases |s|
  {
    match ReadSize(s)
    case None => None
    case Some((n, rest)) =>
      if n == 0 then
        if CRLF <= rest then Some(([], rest[2..])) else None
      else if n + 2 <= |rest| && CRLF <= rest[n..] then
        match Decode(rest[n + 2..])
        case None => None
        case Some((body, after)) => Some((rest[..n] + body, after))
      else None
  }

  // ---------- the decoder undoes the packing ----------

  lemma DigitReads(d: nat)
    requires d < 16
    ensures DigitValue(Digit(d)) == Some(d)
  {
  }

  lemma {:induction false} ReadHexOfHex(n: nat, rest: seq<Byte>)
    requires rest == [] || DigitValue(rest[0]) == None
    ensures ReadHex(Hex(n) + rest, 0) == (n, rest)
  {
    ReadHexDigits(n, rest);
    assert ReadHex(rest, n) == (n, rest);
  }

  lemma {:induction false} ReadHexDigits(n: nat, rest: seq<Byte>)
    ensures ReadHex(Hex(n) + rest, 0) == ReadHex(rest, n)
  {
    if n < 16 {
      DigitReads(n);
      assert ([Digit(n)] + rest)[1..] == rest;
    } else {
      DigitReads(n % 16);
      var tail := [Digit(n % 16)] + rest;
      ReadHexDigits(n / 16, tail);
      assert Hex(n) + rest == Hex(n / 16) + tail;
      assert tail[1..] == rest;
    }
  }

  lemma {:induction false} HexStartsWithDigit(n: nat)
    ensures DigitValue(Hex(n)[0]).Some?
  {
    if n < 16 {
      DigitReads(n);
    } else {
      HexStartsWithDigit(n / 16);
    }
  }

  lemma {:induction false} BlanksSkipped(k: nat, rest: seq<Byte>)
    requires rest != [] && rest[0] != SP && rest[0] != 9
    ensures SkipBlanks(seq(k, _ => SP) + rest) == rest
  {
    var blanks := seq(k, _ => SP);
    if k == 0 {
      assert blanks + rest == rest;
    } else {
      BlanksSkipped(k - 1, rest);
      assert (blanks + rest)[1..] == seq(k - 1, _ => SP) + rest;
    }
  }

  lemma SizeLineReads(n: nat, rest: seq<Byte>)
    requires n < 0x1_0000_0000
    ensures ReadSize(Padded(n) + CRLF + rest) == Some((n, rest))
  {
    SizeFits(n);
    var blanks := seq(8 - |Hex(n)|, _ => SP);
    var line := CRLF + rest;
    var s := Padded(n) + CRLF + rest;
    assert s == Hex(n) + (blanks + line);
    HexStartsWithDigit(n);
    assert s[0] == Hex(n)[0];
    ReadHexOfHex(n, blanks + line);
    BlanksSkipped(8 - |Hex(n)|, line);
    assert line[2..] == rest;
  }

  /** A non-empty piece decodes to itself, whatever follows. */
  lemma PieceDecodes(data: seq<Byte>, rest: seq<Byte>)
    requires data != [] && |data| < 0x1_0000_0000
    ensures Decode(Packed(data, false) + rest)
         == match Decode(rest) case None => None case Some((body, after)) => Some((data + body, after))
  {
    var follow := data + CRLF + rest;
    assert Packed(data, false) + rest == Padded(|data|) + CRLF + follow;
    SizeLineReads(|data|, follow);
    assert follow[|data|..] == CRLF + rest && follow[..|data|] == data && follow[|data| + 2..] == rest;
  }

  /** A piece packed as the last one also carries the terminal chunk. */
  lemma LastPieceDecodes(data: seq<Byte>, rest: seq<Byte>)
    requires data != [] && |data| < 0x1_0000_0000
    ensures Decode(Packed(data, true) + rest) == Some((data, rest))
  {
    assert Packed(data, true) + rest == Packed(data, false) + (LAST + rest);
    PieceDecodes(data, LAST + rest);
    assert LAST + rest == [48] + (CRLF + (CRLF + rest));
    var line := CRLF + (CRLF + rest);
    assert Hex(0) == [48];
    ReadHexOfHex(0, line);
    assert SkipBlanks(line) == line && line[2..] == CRLF + rest && (CRLF + rest)[2..] == rest;
    assert Decode(LAST + rest) == Some(([], rest));
    assert data + [] == data;
  }

  /** An empty piece is the terminal chunk, whether or not it was meant to be the last one. */
  lemma EmptyPieceEnds(last: bool, rest: seq<Byte>)
    ensures Decode(Packed([], last) + rest) == Some(([], rest))
  {
    assert Packed([], last) + rest == Padded(0) + CRLF + (CRLF + rest);
    SizeLineReads(0, CRLF + rest);
    assert (CRLF + rest)[2..] == rest;
  }

  /** "hi", packed as the last piece, and the end of any piece of 26 bytes that is not the last. */
  lemma OnTheWire(data: seq<Byte>)
    requires |data| == 26
    ensures Packed([104, 105], true)
         == [50, 32, 32, 32, 32, 32, 32, 32, 13, 10, 104, 105, 13, 10, 48, 13, 10, 13, 10]
    ensures Packed(data, false) == [49, 97, 32, 32, 32, 32, 32, 32, 13, 10] + data + [13, 10]
  {
    assert Hex(2) == [50] && Hex(1) == [49] && Hex(26) == [49, 97];
    assert seq(7, _ => SP) == [32, 32, 32, 32, 32, 32, 32] && seq(6, _ => SP) == [32, 32, 32, 32, 32, 32];
  }

  // ---------- whole bodies ----------

  function Concat(pieces: seq<seq<Byte>>): seq<Byte> {
    if pieces == [] then [] else pieces[0] + Concat(pieces[1..])
  }

  /** The bytes of a body sent in `pieces`, none of them the last so far. */
  function Stream(pieces: seq<seq<Byte>>): seq<Byte>
    requires Sendable(pieces)
  {
    if pieces == [] then [] else Packed(pieces[0], false) + Stream(pieces[1..])
  }

  predicate Sendable(pieces: seq<seq<Byte>>) {
    forall k :: 0 <= k < |pieces| ==> |pieces[k]| < 0x1_0000_0000
  }

  predicate NoneEmpty(pieces: seq<seq<Byte>>) {
    forall k :: 0 <= k < |pieces| ==> pieces[k] != []
  }

  /** The bytes of a body, whose last piece is packed as such. */
  function Body(pieces: seq<seq<Byte>>): seq<Byte>
    requires Sendable(pieces) && pieces != []
  {
    Stream(pieces[..|pieces| - 1]) + Packed(pieces[|pieces| - 1], true)
  }

  /** After any non-empty pieces the decoder is where it would be without them. */
  lemma {:induction false} StreamDecodes(pieces: seq<seq<Byte>>, rest: seq<Byte>)
    requires Sendable(pieces) && NoneEmpty(pieces)
    ensures Decode(Stream(pieces) + rest)
         == match Decode(rest) case None => None case Some((body, after)) => Some((Concat(pieces) + body, after))
  {
    if pieces == [] {
      assert Stream(pieces) + rest == rest;
      assert forall body :: Concat(pieces) + body == body;
    } else {
      assert Stream(pieces) + rest == Packed(pieces[0], false) + (Stream(pieces[1..]) + rest);
      PieceDecodes(pieces[0], Stream(pieces[1..]) + rest);
      StreamDecodes(pieces[1..], rest);
      if Decode(rest).Some? {
        var body := Decode(rest).value.0;
        assert pieces[0] + (Concat(pieces[1..]) + body) == Concat(pieces) + body;
      }
    }
  }

  lemma {:induction false} StreamGrows(pieces: seq<seq<Byte>>, data: seq<Byte>)
    requires Sendable(pieces) && |data| < 0x1_0000_0000
    ensures Sendable(pieces + [data])
    ensures Stream(pieces + [data]) == Stream(pieces) + Packed(data, false)
    ensures Concat(pieces + [data]) == Concat(pieces) + data
  {
    if pieces == [] {
      assert pieces + [data] == [data] && [data][1..] == [];
      assert Packed(data, false) + [] == Packed(data, false) && data + [] == data;
    } else {
      var rest := pieces[1..];
      assert (pieces + [data])[1..] == rest + [data];
      StreamGrows(rest, data);
      assert Packed(pieces[0], false) + (Stream(rest) + Packed(data, false)) == Stream(pieces) + Packed(data, false);
      assert pieces[0] + (Concat(rest) + data) == Concat(pieces) + data;
    }
  }

  lemma {:induction false} StreamSplit(a: seq<seq<Byte>>, b: seq<seq<Byte>>)
    requires Sendable(a) && Sendable(b)
    ensures Sendable(a + b) && Stream(a + b) == Stream(a) + Stream(b)
    ensures Concat(a + b) == Concat(a) + Concat(b)
  {
    if a == [] {
      assert a + b == b;
    } else {
      assert (a + b)[1..] == a[1..] + b;
      StreamSplit(a[1..], b);
      assert Packed(a[0], false) + (Stream(a[1..]) + Stream(b)) == Stream(a) + Stream(b);
      assert a[0] + (Concat(a[1..]) + Concat(b)) == Concat(a) + Concat(b);
    }
  }

  /** The last piece ends the body, empty or not. */
  lemma LastDecodes(data: seq<Byte>, rest: seq<Byte>)
    requires |data| < 0x1_0000_0000
    ensures Decode(Packed(data, true) + rest) == Some((data, rest))
  {
    if data == [] {
      EmptyPieceEnds(true, rest);
    } else {
      LastPieceDecodes(data, rest);
    }
  }

  /** An empty piece ends the body wherever it is, and leaves the rest behind. */
  lemma EmptyPieceCuts(before: seq<seq<Byte>>, after: seq<Byte>)
    requires Sendable(before) && NoneEmpty(before)
    ensures Decode(Stream(before) + (Packed([], false) + after)) == Some((Concat(before), after))
  {
    StreamDecodes(before, Packed([], false) + after);
    EmptyPieceEnds(false, after);
    assert Concat(before) + [] == Concat(before);
  }

  /** A body decodes to its pieces, and ends with its last one, exactly if none before that is empty. */
  lemma BodyDecodes(pieces: seq<seq<Byte>>, rest: seq<Byte>)
    requires Sendable(pieces) && pieces != []
    ensures Decode(Body(pieces) + rest) == Some((Concat(pieces), rest)) <==> NoneEmpty(pieces[..|pieces| - 1])
  {
    var front, last := pieces[..|pieces| - 1], pieces[|pieces| - 1];
    assert pieces == front + [last];
    StreamGrows(front, last);
    hide Decode, Packed, Stream, Concat;
    var tail := Packed(last, true) + rest;
    assert Body(pieces) + rest == Stream(front) + tail;
    if NoneEmpty(front) {
      StreamDecodes(front, tail);
      LastDecodes(last, rest);
    } else {
      LongPacked(last, true);
      EmptyFrontCuts(front, tail);
    }
  }

  lemma LongPacked(data: seq<Byte>, last: bool)
    requires |data| < 0x1_0000_0000
    ensures |Packed(data, last)| > 0
  {
  }

  /** A body with an empty piece before its end leaves all that follows behind, and more. */
  lemma EmptyFrontCuts(front: seq<seq<Byte>>, tail: seq<Byte>)
    requires Sendable(front) && !NoneEmpty(front)
    ensures Decode(Stream(front) + tail).Some? && |Decode(Stream(front) + tail).value.1| >= |tail|
  {
    var j := FirstEmpty(front);
    var before, behind := front[..j], front[j + 1..];
    assert front == before + ([[]] + behind) && Sendable(behind) && Sendable([[]] + behind);
    StreamSplit(before, [[]] + behind);
    assert ([[]] + behind)[1..] == behind;
    var after := Stream(behind) + tail;
    assert Stream(front) + tail == Stream(before) + (Packed([], false) + after);
    hide Decode, Packed, Concat;
    EmptyPieceCuts(before, after);
  }

  lemma FirstEmpty(pieces: seq<seq<Byte>>) returns (j: nat)
    requires !NoneEmpty(pieces)
    ensures j < |pieces| && pieces[j] == [] && NoneEmpty(pieces[..j])
  {
    j := 0;
    while pieces[j] != []
      invariant j < |pieces| && NoneEmpty(pieces[..j])
      decreases |pieces| - j
    {
      j := j + 1;
    }
  }
}
