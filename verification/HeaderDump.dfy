/** Headers in memory, their dump into one buffer and the loader that reads them back. */
module HeaderDump {
  import opened Common
  import opened Chunked

  datatype Header = Header(name: seq<Byte>, value: seq<Byte>)

  /** The two length fields are shorts. */
  const SHORT_LIMIT := 32768

  predicate Storable(h: Header) {
    |h.name| < SHORT_LIMIT && |h.value| < SHORT_LIMIT
  }

  /** Two shorts, two terminated strings, and one more byte if that makes the length even. */
  function DumpLength(nameLen: nat, valueLen: nat): nat {
    var len := 4 + nameLen + valueLen + 2;
    if len % 2 != 0 then len + 1 else len
  }

  /** The dump is as long as its parts, rounded up to an even number. */
  lemma DumpIsEven(nameLen: nat, valueLen: nat)
    ensures var n, parts := DumpLength(nameLen, valueLen), 2 + 2 + (nameLen + 1) + (valueLen + 1);
        n % 2 == 0 && parts <= n <= parts + 1
  {
  }

  function Short(n: nat): seq<Byte>
    requires n < SHORT_LIMIT
  {
    [n % 256, n / 256]
  }

  function Fields(h: Header): seq<Byte>
    requires Storable(h)
  {
    Short(|h.name|) + Short(|h.value|) + h.name + [0] + h.value + [0]
  }

  /** `s` is a dump of `h`. Nothing is known about the byte that rounds it up. */
  predicate IsDump(h: Header, s: seq<Byte>) {
    Storable(h) && |s| == DumpLength(|h.name|, |h.value|) && Fields(h) <= s
  }

  /** `s` holds dumps of all `hs`, one after the other. */
  predicate Dumped(hs: seq<Header>, s: seq<Byte>) {
    if hs == [] then s == []
    else
      var len := DumpLength(|hs[0].name|, |hs[0].value|);
      len <= |s| && IsDump(hs[0], s[..len]) && Dumped(hs[1..], s[len..])
  }

  lemma {:induction false} DumpedAppend(hs: seq<Header>, s: seq<Byte>, h: Header, t: seq<Byte>)
    requires Dumped(hs, s) && IsDump(h, t)
    ensures Dumped(hs + [h], s + t)
  {
    if hs == [] {
      assert s + t == t && t[..|t|] == t && hs + [h] == [h];
    } else {
      var len := DumpLength(|hs[0].name|, |hs[0].value|);
      assert (s + t)[..len] == s[..len] && (s + t)[len..] == s[len..] + t;
      assert (hs + [h])[1..] == hs[1..] + [h];
      DumpedAppend(hs[1..], s[len..], h, t);
    }
  }

  // ---------- building a header in memory ----------

  method Put(a: array<Byte>, pos: nat, bytes: seq<Byte>)
    requires pos + |bytes| <= a.Length
    modifies a
    ensures a[..pos] == old(a[..pos]) && a[pos..pos + |bytes|] == bytes
    ensures a[pos + |bytes|..] == old(a[pos + |bytes|..])
  {
    forall i | 0 <= i < |bytes| {
      a[pos + i] := bytes[i];
    }
  }

  /** A string and the byte that ends it. */
  method PutString(a: array<Byte>, pos: nat, bytes: seq<Byte>)
    requires pos + |bytes| + 1 <= a.Length
    modifies a
    ensures a[..pos + |bytes| + 1] == old(a[..pos]) + (bytes + [0])
  {
    Put(a, pos, bytes);
    var end := pos + |bytes|;
    assert a[..end] == a[..pos] + a[pos..end];
    a[end] := 0;
    assert a[..end + 1] == a[..end] + [0];
    assert old(a[..pos]) + bytes + [0] == old(a[..pos]) + (bytes + [0]);
  }

  /** The memory of a new header, from its length fields on. */
  method New(name: seq<Byte>, value: seq<Byte>) returns (h: array<Byte>)
    requires Storable(Header(name, value))
    ensures fresh(h) && IsDump(Header(name, value), h[..])
  {
    h := new Byte[DumpLength(|name|, |value|)];
    var n, v := Short(|name|), Short(|value|);
    h[0], h[1], h[2], h[3] := n[0], n[1], v[0], v[1];
    assert h[..4] == n + v;
    PutString(h, 4, name);
    PutString(h, 4 + |name| + 1, value);
    var end := 4 + |name| + 1 + |value| + 1;
    assert h[..end] == n + v + (name + [0]) + (value + [0]);
    assert n + v + (name + [0]) + (value + [0]) == n + v + name + [0] + value + [0];
    assert h[..end] <= h[..];
  }

  // ---------- reading one header ----------

  function ReadShort(s: seq<Byte>, pos: nat): nat
    requires pos + 1 < |s|
  {
    var low: nat, high: nat := s[pos], s[pos + 1];
    low + 256 * high
  }

  /** What the loader sees at the start of `s`: the strings lie behind the length fields. */
  function Load(s: seq<Byte>): Header
    requires 4 <= |s| && 4 + ReadShort(s, 0) + 1 + ReadShort(s, 2) <= |s|
  {
    var nameLen, valueLen := ReadShort(s, 0), ReadShort(s, 2);
    var value := 4 + nameLen + 1;
    Header(s[4..4 + nameLen], s[value..value + valueLen])
  }

  lemma FieldsAre(h: Header)
    requires Storable(h)
    ensures var f, n, v := Fields(h), |h.name|, |h.value|;
            && |f| == 6 + n + v && f[..4] == Short(n) + Short(v)
            && f[4..4 + n] == h.name && f[5 + n..5 + n + v] == h.value
  {
    var f, n, v := Fields(h), |h.name|, |h.value|;
    var lengths := Short(n) + Short(v);
    assert f == lengths + (h.name + ([0] + (h.value + [0])));
    assert f[4..4 + n] == (h.name + ([0] + (h.value + [0])))[..n];
    assert f[5 + n..5 + n + v] == (h.value + [0])[..v];
  }

  lemma LoadUndoesDump(h: Header, s: seq<Byte>)
    requires var len := DumpLength(|h.name|, |h.value|); len <= |s| && IsDump(h, s[..len])
    ensures 4 <= |s| && ReadShort(s, 0) == |h.name| && ReadShort(s, 2) == |h.value|
    ensures 4 + |h.name| + 1 + |h.value| <= |s| && Load(s) == h
  {
    var f, n, v := Fields(h), |h.name|, |h.value|;
    FieldsAre(h);
    assert f == s[..|f|];
    hide Fields, IsDump;
    assert f[..4] == s[..4];
    assert s[0] == f[..4][0] && s[1] == f[..4][1] && s[2] == f[..4][2] && s[3] == f[..4][3];
    SliceOfSlice(s, 0, |f|, 4, 4 + n);
    SliceOfSlice(s, 0, |f|, 5 + n, 5 + n + v);
  }

  // ---------- all headers of a response ----------

  /** The memory of each header starts with a dump of it. */
  ghost predicate InMemory(images: seq<array<Byte>>, hs: seq<Header>)
    reads images
  {
    |images| == |hs| && forall i :: 0 <= i < |hs| ==> IsDump(hs[i], images[i][..])
  }

  /** How many headers a response may have, if they are to be dumped. */
  const SLOTS := 100

  /** The counting loop, which remembers every header in the next slot of a fixed array. Nothing stops
      it at the end of the array; not `inside` is where it would go on behind it. */
  method Collect(images: seq<array<Byte>>) returns (inside: bool, stored: array<array?<Byte>>, total: nat)
    ensures fresh(stored) && stored.Length == SLOTS
    ensures inside <==> |images| <= SLOTS
    ensures inside ==> total == Total(images) && forall i :: 0 <= i < |images| ==> stored[i] == images[i]
  {
    stored := new array?<Byte>[SLOTS](_ => null);
    total := 0;
    for i := 0 to |images|
      invariant i <= SLOTS && total == Total(images[..i])
      invariant forall k :: 0 <= k < i ==> stored[k] == images[k]
    {
      if i == SLOTS {
        return false, stored, total;
      }
      TotalStep(images, i);
      stored[i] := images[i];
      total := total + images[i].Length;
    }
    assert images[..|images|] == images;
    return true, stored, total;
  }

  /** Dumps the headers into one buffer, whose size was counted before. None is the overrun. */
  method Store(images: seq<array<Byte>>, ghost hs: seq<Header>) returns (buffer: Option<array<Byte>>)
    requires InMemory(images, hs)
    ensures buffer.Some? <==> |hs| <= SLOTS
    ensures buffer.Some? ==> fresh(buffer.value) && Dumped(hs, buffer.value[..])
  {
    hide Dumped, IsDump;
    var inside, stored, total := Collect(images);
    if !inside {
      return None;
    }
    var dump := new Byte[total];
    StartDump(dump);
    var headerPos := 0;
    for i := 0 to |images|
      invariant headerPos == Total(images[..i]) <= total == Total(images)
      invariant InMemory(images, hs) && forall k :: 0 <= k < |images| ==> stored[k] == images[k]
      invariant Dumped(hs[..i], dump[..headerPos])
    {
      TotalStep(images, i);
      assert hs[..i] + [hs[i]] == hs[..i + 1];
      StoreOne(dump, headerPos, stored[i], hs[..i], hs[i]);
      headerPos := headerPos + stored[i].Length;
    }
    assert images[..|images|] == images && hs[..|images|] == hs && dump[..headerPos] == dump[..];
    return Some(dump);
  }

  lemma StartDump(buffer: array<Byte>)
    ensures Dumped([], buffer[..0])
  {
  }

  method StoreOne(buffer: array<Byte>, pos: nat, image: array<Byte>, ghost hs: seq<Header>, ghost h: Header)
    requires buffer != image && pos + image.Length <= buffer.Length
    requires Dumped(hs, buffer[..pos]) && IsDump(h, image[..])
    modifies buffer
    ensures Dumped(hs + [h], buffer[..pos + image.Length])
  {
    hide Dumped, IsDump;
    Put(buffer, pos, image[..]);
    DumpedAppend(hs, buffer[..pos], h, image[..]);
    var n := pos + image.Length;
    assert buffer[..n] == buffer[..pos] + buffer[pos..n];
  }

  function Total(images: seq<array<Byte>>): nat {
    if images == [] then 0 else Total(images[..|images| - 1]) + images[|images| - 1].Length
  }

  lemma {:induction false} TotalStep(images: seq<array<Byte>>, i: nat)
    requires i < |images|
    ensures Total(images[..i + 1]) == Total(images[..i]) + images[i].Length <= Total(images)
    decreases |images| - i
  {
    assert images[..i + 1][..i] == images[..i];
    if i + 1 == |images| {
      assert images[..i + 1] == images;
    } else {
      TotalStep(images, i + 1);
    }
  }

  /** The headers the loader finds in `s`, unless it would read behind the end. */
  function Loaded(s: seq<Byte>, num: nat): Option<seq<Header>> {
    if num == 0 then Some([])
    else if |s| < 4 || |s| < DumpLength(ReadShort(s, 0), ReadShort(s, 2)) then None
    else
      var rest := Loaded(s[DumpLength(ReadShort(s, 0), ReadShort(s, 2))..], num - 1);
      if rest == None then None else Some([Load(s)] + rest.value)
  }

  /** Whatever was dumped comes back. */
  lemma {:induction false} DumpedIsLoaded(hs: seq<Header>, s: seq<Byte>)
    requires Dumped(hs, s)
    ensures Loaded(s, |hs|) == Some(hs)
  {
    if hs != [] {
      var len := DumpLength(|hs[0].name|, |hs[0].value|);
      LoadUndoesDump(hs[0], s);
      hide IsDump, Load;
      DumpedIsLoaded(hs[1..], s[len..]);
      assert hs == [hs[0]] + hs[1..];
    }
  }

  lemma LoadStep(s: seq<Byte>, pos: nat, n: nat)
    requires n > 0 && pos <= |s| && Loaded(s[pos..], n).Some?
    ensures |s[pos..]| >= 4 && DumpLength(ReadShort(s[pos..], 0), ReadShort(s[pos..], 2)) <= |s[pos..]|
    ensures var len := DumpLength(ReadShort(s[pos..], 0), ReadShort(s[pos..], 2));
            Loaded(s[pos + len..], n - 1).Some?
            && Loaded(s[pos..], n).value == [Load(s[pos..])] + Loaded(s[pos + len..], n - 1).value
  {
    hide Load;
    var t := s[pos..];
    var len := DumpLength(ReadShort(t, 0), ReadShort(t, 2));
    assert t[len..] == s[pos + len..];
  }

  method LoadAll(buffer: seq<Byte>, num: nat) returns (loaded: seq<Header>)
    requires Loaded(buffer, num).Some?
    ensures Loaded(buffer, num) == Some(loaded)
  {
    hide Loaded, Load;
    var pos: nat := 0;
    loaded := [];
    assert buffer[0..] == buffer && loaded + Loaded(buffer, num).value == Loaded(buffer, num).value;
    for i := 0 to num
      invariant pos <= |buffer| && Loaded(buffer[pos..], num - i).Some?
      invariant Loaded(buffer, num) == Some(loaded + Loaded(buffer[pos..], num - i).value)
    {
      LoadStep(buffer, pos, num - i);
      var h := Load(buffer[pos..]);
      var len := DumpLength(ReadShort(buffer[pos..], 0), ReadShort(buffer[pos..], 2));
      ghost var rest := Loaded(buffer[pos + len..], num - i - 1).value;
      assert loaded + ([h] + rest) == (loaded + [h]) + rest;
      loaded := loaded + [h];
      pos := pos + len;
    }
    NoneLeft(buffer[pos..]);
    assert loaded + [] == loaded;
  }

  lemma NoneLeft(s: seq<Byte>)
    ensures Loaded(s, 0) == Some([])
  {
  }
}
