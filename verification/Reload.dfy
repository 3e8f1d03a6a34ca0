/** Listening sockets across configuration reloads: a new configuration takes over the sockets of the
    live one for the addresses they share, by marking both with the number of the reload. */
module Reload {
  import opened Common

  /** One address of a Listen, with its socket and its reuse mark. */
  datatype Slot = Slot(address: string, fd: int, magic: nat)

  /** The open listening sockets, and how many times something else was closed. */
  datatype Kernel = Kernel(sockets: map<int, string>, stray: nat)

  predicate HasAddress(slots: seq<Slot>, address: string) {
    exists i :: 0 <= i < |slots| && slots[i].address == address
  }

  predicate HasFd(slots: seq<Slot>, fd: int) {
    exists i :: 0 <= i < |slots| && slots[i].fd == fd
  }

  /** No two slots have one descriptor. */
  ghost predicate Owned(slots: seq<Slot>) {
    forall i, j :: 0 <= i < j < |slots| ==> slots[i].fd != slots[j].fd
  }

  /** Every slot has a socket of its address. */
  ghost predicate Serves(k: Kernel, slots: seq<Slot>) {
    forall i :: 0 <= i < |slots| ==>
      slots[i].fd >= 0 && slots[i].fd in k.sockets && k.sockets[slots[i].fd] == slots[i].address
  }

  /** The open sockets are exactly those of `slots`. */
  ghost predicate Holds(k: Kernel, slots: seq<Slot>) {
    Serves(k, slots) && forall fd :: fd in k.sockets ==> HasFd(slots, fd)
  }

  /** And each slot has one of its own. */
  ghost predicate Exact(k: Kernel, slots: seq<Slot>) {
    Holds(k, slots) && Owned(slots)
  }

  /** Slot `j` is the first of its address. */
  ghost predicate IsFirst(slots: seq<Slot>, address: string, j: int) {
    0 <= j < |slots| && slots[j].address == address && forall i :: 0 <= i < j ==> slots[i].address != address
  }

  /** A slot with a live address has the socket of the first live slot of that address. */
  ghost predicate TakesOver(live: seq<Slot>, slot: Slot) {
    HasAddress(live, slot.address) ==> exists j :: IsFirst(live, slot.address, j) && slot.fd == live[j].fd
  }

  /** No live address is listed twice. */
  ghost predicate LiveOnce(live: seq<Slot>, addresses: seq<string>) {
    forall i, j :: 0 <= i < j < |addresses| && addresses[i] == addresses[j] ==> !HasAddress(live, addresses[i])
  }

  /** The slots without their marks. */
  function Unmarked(slots: seq<Slot>): (r: seq<Slot>)
    ensures |r| == |slots|
  {
    seq(|slots|, i requires 0 <= i < |slots| => slots[i].(magic := 0))
  }

  lemma UnmarkedSame(a: seq<Slot>, b: seq<Slot>)
    requires Unmarked(a) == Unmarked(b)
    ensures |a| == |b| && forall i :: 0 <= i < |a| ==> a[i].address == b[i].address && a[i].fd == b[i].fd
  {
    forall i | 0 <= i < |a|
      ensures a[i].address == b[i].address && a[i].fd == b[i].fd
    {
      assert Unmarked(a)[i] == a[i].(magic := 0) && Unmarked(b)[i] == b[i].(magic := 0);
    }
  }

  // ---------- closing ----------

  function Close(k: Kernel, fd: int): Kernel {
    if fd in k.sockets then k.(sockets := k.sockets - {fd}) else k.(stray := k.stray + 1)
  }

  /** The free handler: sockets marked by the current reload stay open. */
  function Freed(k: Kernel, slots: seq<Slot>, count: nat): Kernel {
    if slots == [] then k
    else
      var rest := Freed(k, slots[..|slots| - 1], count);
      var last := slots[|slots| - 1];
      if last.magic < count then Close(rest, last.fd) else rest
  }

  /** The sockets that go: those of the slots not marked by the current reload. */
  predicate Goes(slots: seq<Slot>, count: nat, fd: int) {
    exists i :: 0 <= i < |slots| && slots[i].magic < count && slots[i].fd == fd
  }

  /** No two slots that go have one descriptor. */
  ghost predicate GoesOnce(slots: seq<Slot>, count: nat) {
    forall i, j :: 0 <= i < j < |slots| && slots[i].magic < count && slots[j].magic < count ==>
      slots[i].fd != slots[j].fd
  }

  /** The sockets that go are closed, each once exactly if no two slots that go share one. */
  lemma {:induction false} FreedClosesOnce(k: Kernel, slots: seq<Slot>, count: nat)
    requires Serves(k, slots)
    ensures var f := Freed(k, slots, count);
        && f.stray >= k.stray && (f.stray == k.stray <==> GoesOnce(slots, count))
        && f.sockets == map fd | fd in k.sockets && !Goes(slots, count, fd) :: k.sockets[fd]
  {
    if slots == [] {
      assert forall fd :: !Goes(slots, count, fd);
    } else {
      var n := |slots| - 1;
      var rest, last := slots[..n], slots[n];
      FreedClosesOnce(k, rest, count);
      OneMoreGoes(slots, count);
      assert last.fd in k.sockets;
    }
  }

  lemma OneMoreGoes(slots: seq<Slot>, count: nat)
    requires slots != []
    ensures var rest, last := slots[..|slots| - 1], slots[|slots| - 1];
        && (forall fd :: Goes(slots, count, fd) <==> Goes(rest, count, fd) || (last.magic < count && last.fd == fd))
        && (GoesOnce(slots, count) <==>
              GoesOnce(rest, count) && (last.magic < count ==> !Goes(rest, count, last.fd)))
  {
    var n := |slots| - 1;
    var rest, last := slots[..n], slots[n];
    assert forall i :: 0 <= i < n ==> rest[i] == slots[i];
    forall fd | Goes(rest, count, fd)
      ensures Goes(slots, count, fd)
    {
      var i :| 0 <= i < |rest| && rest[i].magic < count && rest[i].fd == fd;
      assert slots[i].fd == fd;
    }
    forall fd | Goes(slots, count, fd)
      ensures Goes(rest, count, fd) || (last.magic < count && last.fd == fd)
    {
      var i :| 0 <= i < |slots| && slots[i].magic < count && slots[i].fd == fd;
      assert i < n ==> rest[i].fd == fd;
    }
    if last.magic < count && Goes(rest, count, last.fd) {
      var i :| 0 <= i < |rest| && rest[i].magic < count && rest[i].fd == last.fd;
      assert slots[i].fd == slots[n].fd && !GoesOnce(slots, count);
    }
  }

  /** A configuration none of whose slots is marked is freed cleanly exactly if no two share a socket. */
  lemma SharedIsClosedTwice(k: Kernel, slots: seq<Slot>, count: nat)
    requires Serves(k, slots) && forall i :: 0 <= i < |slots| ==> slots[i].magic < count
    ensures Freed(k, slots, count).stray == k.stray <==> Owned(slots)
  {
    FreedClosesOnce(k, slots, count);
  }

  /** Even a reload that lists the address again closes it: only the first slot of a socket is marked. */
  lemma SharedIsLost(k: Kernel, slots: seq<Slot>, i: nat, j: nat, count: nat)
    requires Serves(k, slots) && i < j < |slots| && slots[i].fd == slots[j].fd && slots[j].magic < count
    ensures slots[i].fd !in Freed(k, slots[i := slots[i].(magic := count)], count).sockets
  {
    var marked := slots[i := slots[i].(magic := count)];
    FreedClosesOnce(k, marked, count);
    assert marked[j] == slots[j] && Goes(marked, count, slots[i].fd);
  }

  /** Slots of a Listen whose loop did not get to them. */
  ghost predicate Blank(slots: seq<Slot>) {
    forall i :: 0 <= i < |slots| ==> slots[i].fd == 0 && slots[i].magic == 0
  }

  /** Each of them closes descriptor 0. */
  lemma {:induction false} FreedBlank(k: Kernel, slots: seq<Slot>, count: nat)
    requires Blank(slots) && count > 0 && slots != []
    ensures var f := Freed(k, slots, count);
            f.sockets == k.sockets - {0} && f.stray == k.stray + |slots| - (if 0 in k.sockets then 1 else 0)
  {
    var rest := slots[..|slots| - 1];
    if rest == [] {
      assert Freed(k, rest, count) == k;
      assert 0 !in k.sockets ==> k.sockets - {0} == k.sockets;
    } else {
      FreedBlank(k, rest, count);
    }
  }

  lemma {:induction false} FreedAppend(k: Kernel, a: seq<Slot>, b: seq<Slot>, count: nat)
    ensures Freed(k, a + b, count) == Freed(Freed(k, a, count), b, count)
  {
    if b == [] {
      assert a + b == a;
    } else {
      var rest := b[..|b| - 1];
      FreedAppend(k, a, rest, count);
      assert (a + b)[..|a + b| - 1] == a + rest;
    }
  }

  // ---------- while a new configuration is built ----------

  /** `filled` is what the new configuration has so far. Sockets both have are marked in both, nothing
      else is, and those are the only ones that slots may share. */
  ghost predicate Mixed(k: Kernel, live: seq<Slot>, filled: seq<Slot>, count: nat) {
    && count > 0 && Owned(live) && Serves(k, live) && Serves(k, filled)
    && (forall fd :: fd in k.sockets ==> HasFd(live, fd) || HasFd(filled, fd))
    && Marked(live, filled, count) && Marked(filled, live, count)
    && (forall i :: 0 <= i < |filled| ==> TakesOver(live, filled[i]))
    && (forall i, j :: 0 <= i < j < |filled| && filled[i].fd == filled[j].fd ==> HasFd(live, filled[i].fd))
  }

  /** The slots of `a` whose sockets `b` has, too, are marked. */
  ghost predicate Marked(a: seq<Slot>, b: seq<Slot>, count: nat) {
    forall i :: 0 <= i < |a| ==> a[i].magic <= count && (a[i].magic == count <==> HasFd(b, a[i].fd))
  }

  lemma MixedStart(k: Kernel, live: seq<Slot>, count: nat)
    requires Exact(k, live) && forall j :: 0 <= j < |live| ==> live[j].magic < count
    ensures count > 0 ==> Mixed(k, live, [], count)
  {
  }

  lemma LiveIsOpen(k: Kernel, live: seq<Slot>, filled: seq<Slot>, count: nat)
    requires Mixed(k, live, filled, count)
    ensures forall j :: 0 <= j < |live| ==> live[j].fd >= 0
  {
  }

  lemma MixedReuse(k: Kernel, live: seq<Slot>, filled: seq<Slot>, count: nat, j: nat)
    requires Mixed(k, live, filled, count) && j < |live| && IsFirst(live, live[j].address, j)
    ensures Mixed(k, live[j := live[j].(magic := count)], filled + [live[j].(magic := count)], count)
  {
    var slot := live[j].(magic := count);
    var live2, filled2 := live[j := slot], filled + [slot];
    AppendHas(filled, slot);
    SameButMarks(live, live2);
    assert IsFirst(live2, slot.address, j);
    MarkedBoth(live, filled, count, j);
  }

  lemma MarkedBoth(live: seq<Slot>, filled: seq<Slot>, count: nat, j: nat)
    requires Marked(live, filled, count) && Marked(filled, live, count) && Owned(live) && j < |live|
    ensures var slot := live[j].(magic := count);
        Marked(live[j := slot], filled + [slot], count) && Marked(filled + [slot], live[j := slot], count)
  {
    var slot := live[j].(magic := count);
    AppendHas(filled, slot);
    SameButMarks(live, live[j := slot]);
    assert live[j := slot][j] == slot;
  }

  /** Marks do not matter to what slots have. */
  lemma SameButMarks(a: seq<Slot>, b: seq<Slot>)
    requires |a| == |b| && forall i :: 0 <= i < |a| ==> a[i].address == b[i].address && a[i].fd == b[i].fd
    ensures forall x :: HasAddress(a, x) <==> HasAddress(b, x)
    ensures forall fd :: HasFd(a, fd) <==> HasFd(b, fd)
    ensures forall slot :: TakesOver(a, slot) <==> TakesOver(b, slot)
  {
    TakenOverToo(a, b);
    TakenOverToo(b, a);
  }

  lemma TakenOverToo(a: seq<Slot>, b: seq<Slot>)
    requires |a| == |b| && forall i :: 0 <= i < |a| ==> a[i].address == b[i].address && a[i].fd == b[i].fd
    ensures forall slot :: TakesOver(a, slot) ==> TakesOver(b, slot)
  {
    forall slot | TakesOver(a, slot) && HasAddress(b, slot.address)
      ensures TakesOver(b, slot)
    {
      var i :| 0 <= i < |b| && b[i].address == slot.address;
      assert a[i].address == slot.address;
      var j :| IsFirst(a, slot.address, j) && slot.fd == a[j].fd;
      assert IsFirst(b, slot.address, j);
    }
  }

  lemma AppendHas(slots: seq<Slot>, slot: Slot)
    ensures forall a :: HasAddress(slots + [slot], a) <==> HasAddress(slots, a) || a == slot.address
    ensures forall fd :: HasFd(slots + [slot], fd) <==> HasFd(slots, fd) || fd == slot.fd
  {
    var more := slots + [slot];
    assert more[|slots|] == slot && forall i :: 0 <= i < |slots| ==> more[i] == slots[i];
  }

  lemma MixedFresh(k: Kernel, live: seq<Slot>, filled: seq<Slot>, count: nat, slot: Slot)
    requires Mixed(k, live, filled, count) && slot.magic == 0 && slot.fd >= 0 && slot.fd !in k.sockets
    requires !HasAddress(live, slot.address)
    ensures Mixed(k.(sockets := k.sockets[slot.fd := slot.address]), live, filled + [slot], count)
  {
    AppendHas(filled, slot);
  }

  /** Freeing the old configuration leaves exactly the new one's sockets open; each slot has its own
      exactly if no live address was listed twice. */
  lemma Commit(k: Kernel, live: seq<Slot>, filled: seq<Slot>, count: nat)
    requires Mixed(k, live, filled, count)
    ensures var f := Freed(k, live, count);
        && Holds(f, filled) && f.stray == k.stray && (Exact(f, filled) <==> LiveOnce(live, Addresses(filled)))
  {
    FreedClosesOnce(k, live, count);
    StaysIffMarked(k, live, filled, count);
    OwnedIffOnce(k, live, filled, count);
  }

  /** Freeing the new configuration leaves exactly the old one's sockets open. */
  lemma Rollback(k: Kernel, live: seq<Slot>, filled: seq<Slot>, count: nat)
    requires Mixed(k, live, filled, count)
    ensures var f := Freed(k, filled, count); Exact(f, live) && f.stray == k.stray
  {
    FreedClosesOnce(k, filled, count);
    StaysIffMarked(k, filled, live, count);
  }

  /** A socket of `going` that goes is not in `staying`, and one that does not go is. */
  lemma StaysIffMarked(k: Kernel, going: seq<Slot>, staying: seq<Slot>, count: nat)
    requires Marked(going, staying, count)
    requires forall fd :: fd in k.sockets ==> HasFd(going, fd) || HasFd(staying, fd)
    ensures forall fd :: fd in k.sockets ==> (Goes(going, count, fd) <==> !HasFd(staying, fd))
  {
    forall fd | fd in k.sockets
      ensures Goes(going, count, fd) <==> !HasFd(staying, fd)
    {
      if HasFd(going, fd) {
        var j :| 0 <= j < |going| && going[j].fd == fd;
      }
    }
  }

  /** Two slots share a socket exactly if they have one address and it is live. */
  lemma OwnedIffOnce(k: Kernel, live: seq<Slot>, filled: seq<Slot>, count: nat)
    requires Mixed(k, live, filled, count)
    ensures Owned(filled) <==> LiveOnce(live, Addresses(filled))
  {
    forall i, j | 0 <= i < j < |filled| && filled[i].fd == filled[j].fd
      ensures filled[i].address == filled[j].address && HasAddress(live, filled[i].address)
    {
      var a :| 0 <= a < |live| && live[a].fd == filled[i].fd;
      assert live[a].address == filled[i].address;
    }
    forall i, j | 0 <= i < j < |filled| && filled[i].address == filled[j].address
                  && HasAddress(live, filled[i].address)
      ensures filled[i].fd == filled[j].fd
    {
      var a :| IsFirst(live, filled[i].address, a) && filled[i].fd == live[a].fd;
      var b :| IsFirst(live, filled[j].address, b) && filled[j].fd == live[b].fd;
      assert a == b;
    }
    var addresses := Addresses(filled);
    assert forall i :: 0 <= i < |filled| ==> addresses[i] == filled[i].address;
    if !Owned(filled) {
      var i, j :| 0 <= i < j < |filled| && filled[i].fd == filled[j].fd;
      assert addresses[i] == addresses[j] && HasAddress(live, addresses[i]);
    }
  }

  /** Two configurations that differ in marks only have the same sockets. */
  lemma SocketsAreTheSlots(k1: Kernel, k2: Kernel, slots1: seq<Slot>, slots2: seq<Slot>)
    requires Exact(k1, slots1) && Exact(k2, slots2) && Unmarked(slots1) == Unmarked(slots2)
    ensures k1.sockets == k2.sockets
  {
    SocketsIncluded(k1, k2, slots1, slots2);
    SocketsIncluded(k2, k1, slots2, slots1);
    forall fd
      ensures fd in k1.sockets <==> fd in k2.sockets
      ensures fd in k1.sockets ==> k1.sockets[fd] == k2.sockets[fd]
    {
    }
  }

  lemma SocketsIncluded(k1: Kernel, k2: Kernel, slots1: seq<Slot>, slots2: seq<Slot>)
    requires Exact(k1, slots1) && Serves(k2, slots2) && Unmarked(slots1) == Unmarked(slots2)
    ensures forall fd :: fd in k1.sockets ==> fd in k2.sockets && k1.sockets[fd] == k2.sockets[fd]
  {
    UnmarkedSame(slots1, slots2);
    forall fd | fd in k1.sockets
      ensures fd in k2.sockets && k1.sockets[fd] == k2.sockets[fd]
    {
      var i :| 0 <= i < |slots1| && slots1[i].fd == fd;
    }
  }

  // ---------- reloading ----------

  datatype Outcome =
    | Success
    | Refused             // before the addresses, or behind those of the last Listen that was parsed
    | Broken(left: nat)   // at an address, with so many of its Listen not listened on

  function Flat(conf: seq<seq<string>>): seq<string> {
    if conf == [] then [] else Flat(conf[..|conf| - 1]) + conf[|conf| - 1]
  }

  function Addresses(slots: seq<Slot>): (r: seq<string>)
    ensures |r| == |slots|
  {
    seq(|slots|, i requires 0 <= i < |slots| => slots[i].address)
  }

  function Blanks(addresses: seq<string>): (r: seq<Slot>)
    ensures |r| == |addresses|
  {
    seq(|addresses|, i requires 0 <= i < |addresses| => Slot(addresses[i], 0, 0))
  }

  /** Each of the first `n` addresses is either taken over or can be listened on. */
  predicate Opens(live: seq<Slot>, addresses: seq<string>, answers: seq<Option<nat>>, n: nat)
    requires n <= |addresses| == |answers|
  {
    forall j :: 0 <= j < n ==> HasAddress(live, addresses[j]) || answers[j].Some?
  }

  lemma NoneOpens(live: seq<Slot>, addresses: seq<string>, answers: seq<Option<nat>>)
    requires |addresses| == |answers|
    ensures Opens(live, addresses, answers, 0)
  {
  }

  lemma OpensStep(live: seq<Slot>, addresses: seq<string>, answers: seq<Option<nat>>, n: nat)
    requires n < |addresses| == |answers|
    ensures Opens(live, addresses, answers, n + 1)
            <==> Opens(live, addresses, answers, n) && (HasAddress(live, addresses[n]) || answers[n].Some?)
    ensures Opens(live, addresses, answers, |addresses|) ==> Opens(live, addresses, answers, n + 1)
  {
  }

  lemma OpensSame(a: seq<Slot>, b: seq<Slot>, addresses: seq<string>, answers: seq<Option<nat>>)
    requires Unmarked(a) == Unmarked(b) && |addresses| == |answers|
    ensures Opens(a, addresses, answers, |addresses|) <==> Opens(b, addresses, answers, |addresses|)
  {
    SameAddresses(a, b);
  }

  lemma FlatNothing(conf: seq<seq<string>>)
    ensures Flat(conf[..0]) == []
  {
  }

  lemma {:induction false} FlatStart(conf: seq<seq<string>>, i: nat)
    requires i < |conf|
    ensures Flat(conf[..i]) + conf[i] == Flat(conf[..i + 1]) <= Flat(conf)
    decreases |conf| - i
  {
    assert conf[..i + 1][..i] == conf[..i];
    if i + 1 == |conf| {
      assert conf[..i + 1] == conf;
    } else {
      FlatStart(conf, i + 1);
    }
  }

  /** A configuration that fails inside a loop closes descriptor 0 for every address it has left. */
  lemma BrokenFrees(k: Kernel, live: seq<Slot>, filled: seq<Slot>, blank: seq<Slot>, count: nat)
    requires Mixed(k, live, filled, count) && Blank(blank) && blank != []
    ensures var f, g := Freed(k, filled, count), Freed(k, filled + blank, count);
            && Exact(f, live) && f.stray == k.stray
            && g.sockets == f.sockets - {0} && g.stray == k.stray + |blank| - (if 0 in f.sockets then 1 else 0)
            && (Exact(g, live) <==> 0 !in f.sockets)
  {
    Rollback(k, live, filled, count);
    FreedAppend(k, filled, blank, count);
    var f := Freed(k, filled, count);
    FreedBlank(f, blank, count);
    if 0 in f.sockets {
      assert HasFd(live, 0);
    } else {
      assert f.sockets - {0} == f.sockets;
    }
  }

  /** The first slot the loop has not got to. */
  lemma NextIsBlank(next: seq<Slot>, all: seq<Slot>, i: nat)
    requires |next| == |all| && i < |all| && next[i..] == all[i..]
    ensures next[i] == all[i]
  {
    assert next[i] == next[i..][0] && all[i] == all[i..][0];
  }

  lemma SlotIsBlank(first: seq<Slot>, all: seq<Slot>, addresses: seq<string>, i: nat)
    requires all == first + Blanks(addresses) && i < |addresses|
    ensures |first| + i < |all| && all[|first| + i] == Slot(addresses[i], 0, 0)
  {
  }

  lemma TailIsBlank(first: seq<Slot>, all: seq<Slot>, addresses: seq<string>, i: nat)
    requires all == first + Blanks(addresses) && i < |addresses|
    ensures Blank(all[|first| + i..])
  {
  }

  lemma SameAddresses(a: seq<Slot>, b: seq<Slot>)
    requires Unmarked(a) == Unmarked(b)
    ensures forall x :: HasAddress(a, x) <==> HasAddress(b, x)
  {
    UnmarkedSame(a, b);
  }

  lemma StillTheAddresses(a: seq<Slot>, b: seq<Slot>, i: nat)
    requires i < |a| == |b| && a[..i] == b[..i] && a[i + 1..] == b[i + 1..] && a[i].address == b[i].address
    ensures Addresses(a) == Addresses(b)
  {
    assert forall j :: 0 <= j < i ==> a[j] == a[..i][j] && b[j] == b[..i][j];
    assert forall j :: i < j < |a| ==> a[j] == a[i + 1..][j - i - 1] && b[j] == b[i + 1..][j - i - 1];
  }

  class Server {
    var kernel: Kernel
    var reloadCount: nat
    var live: seq<Slot>
    var next: seq<Slot>   // the configuration that is being parsed

    ghost predicate Valid()
      reads this
    {
      Exact(kernel, live) && forall j :: 0 <= j < |live| ==> live[j].magic <= reloadCount
    }

    constructor ()
      ensures Valid() && live == [] && next == [] && kernel == Kernel(map[], 0) && reloadCount == 0
    {
      kernel, reloadCount, live, next := Kernel(map[], 0), 0, [], [];
    }

    /** The live socket of an address, which is marked. */
    method ReuseFd(address: string) returns (fd: int)
      modifies `live
      ensures HasAddress(old(live), address) ==>
          exists j :: IsFirst(old(live), address, j) && fd == old(live)[j].fd
                      && live == old(live)[j := old(live)[j].(magic := reloadCount)]
      ensures !HasAddress(old(live), address) ==> fd == -1 && live == old(live)
    {
      for j := 0 to |live|
        invariant live == old(live) && forall i :: 0 <= i < j ==> live[i].address != address
      {
        if live[j].address == address {
          assert IsFirst(live, address, j);
          fd := live[j].fd;
          live := live[j := live[j].(magic := reloadCount)];
          return;
        }
      }
      return -1;
    }

    /** A new socket, at the first free descriptor from the answer on, unless the call fails. */
    method TcpListen(address: string, answer: Option<nat>) returns (fd: int)
      modifies `kernel
      ensures answer == None ==> fd < 0 && kernel == old(kernel)
      ensures answer.Some? ==> fd >= 0 && fd !in old(kernel.sockets)
                               && kernel == old(kernel).(sockets := old(kernel.sockets)[fd := address])
    {
      if answer == None {
        return -1;
      }
      fd := answer.value;
      while fd in kernel.sockets
        invariant fd >= 0
        decreases set x | x in kernel.sockets && x >= fd
      {
        ghost var above := set x | x in kernel.sockets && x >= fd;
        assert (set x | x in kernel.sockets && x >= fd + 1) == above - {fd} && fd in above;
        fd := fd + 1;
      }
      kernel := kernel.(sockets := kernel.sockets[fd := address]);
    }

    /** Fills the slot `i` of the new configuration. */
    method ListenOn(i: nat, answer: Option<nat>) returns (ok: bool)
      requires i < |next| && Mixed(kernel, live, next[..i], reloadCount)
      requires next[i].magic == 0
      modifies `kernel, `live, `next
      ensures ok <==> HasAddress(old(live), old(next)[i].address) || answer.Some?
      ensures |next| == |old(next)| && next[..i] == old(next)[..i] && next[i + 1..] == old(next)[i + 1..]
      ensures next[i].address == old(next)[i].address
      ensures ok ==> Mixed(kernel, live, next[..i + 1], reloadCount)
      ensures !ok ==> next == old(next) && Mixed(kernel, live, next[..i], reloadCount)
      ensures Unmarked(live) == Unmarked(old(live)) && kernel.stray == old(kernel.stray)
    {
      hide Mixed;
      LiveIsOpen(kernel, live, next[..i], reloadCount);
      var address := next[i].address;
      ghost var filled := next[..i];
      ghost var was := live;
      var fd := ReuseFd(address);
      if fd >= 0 {
        ghost var j :| IsFirst(was, address, j) && fd == was[j].fd
                       && live == was[j := was[j].(magic := reloadCount)];
        MixedReuse(kernel, was, filled, reloadCount, j);
        next := next[i := next[i].(magic := reloadCount, fd := fd)];
        assert next[..i + 1] == filled + [next[i]];
        return true;
      }
      assert !HasAddress(live, address);
      ghost var before := kernel;
      fd := TcpListen(address, answer);
      if fd < 0 {
        return false;
      }
      next := next[i := next[i].(fd := fd)];
      MixedFresh(before, live, filled, reloadCount, next[i]);
      assert next[..i + 1] == filled + [next[i]];
      return true;
    }

    /** The new configuration is filled up to `n`, out of `all` its slots so far. */
    ghost predicate Posting(all: seq<Slot>, n: nat, was: seq<Slot>)
      reads this
    {
      && n <= |next| == |all| && Mixed(kernel, live, next[..n], reloadCount)
      && next[n..] == all[n..] && Addresses(next) == Addresses(all) && Unmarked(live) == Unmarked(was)
    }

    lemma PostingStarts(first: seq<Slot>, all: seq<Slot>, addresses: seq<string>)
      requires next == all == first + Blanks(addresses) && Mixed(kernel, live, first, reloadCount)
      ensures Posting(all, |first|, live) && Addresses(all) == Addresses(first) + addresses
    {
      assert all[..|first|] == first;
    }

    lemma PostingIs(all: seq<Slot>, n: nat, was: seq<Slot>)
      requires Posting(all, n, was)
      ensures n <= |next| == |all| && Mixed(kernel, live, next[..n], reloadCount) && next[n..] == all[n..]
      ensures Addresses(next) == Addresses(all) && Unmarked(live) == Unmarked(was)
    {
    }

    method PostOne(all: seq<Slot>, n: nat, answer: Option<nat>, ghost was: seq<Slot>) returns (ok: bool)
      requires n < |all| && Posting(all, n, was) && all[n].magic == 0
      modifies `kernel, `live, `next
      ensures ok <==> HasAddress(was, all[n].address) || answer.Some?
      ensures Posting(all, if ok then n + 1 else n, was) && kernel.stray == old(kernel.stray)
    {
      hide Mixed;
      ghost var before := next;
      NextIsBlank(next, all, n);
      SameAddresses(was, live);
      ok := ListenOn(n, answer);
      StillTheAddresses(before, next, n);
      assert ok ==> next[n + 1..] == before[n + 1..] == all[n..][1..];
    }

    /** The loop of a Listen over its addresses, behind those of the earlier ones. */
    method Post(addresses: seq<string>, answers: seq<Option<nat>>) returns (ok: bool, left: nat)
      requires |answers| == |addresses| && Mixed(kernel, live, next, reloadCount)
      modifies `kernel, `live, `next
      ensures ok <==> Opens(old(live), addresses, answers, |addresses|)
      ensures Addresses(next) == Addresses(old(next)) + addresses
      ensures Unmarked(live) == Unmarked(old(live)) && kernel.stray == old(kernel.stray)
      ensures ok ==> Mixed(kernel, live, next, reloadCount)
      ensures !ok ==>
          && 0 < left <= |next| && Mixed(kernel, live, next[..|next| - left], reloadCount)
          && Blank(next[|next| - left..])
    {
      hide Mixed, Posting, Unmarked, HasAddress, Blank, Opens, Addresses, Blanks;
      ghost var was := live;
      var base := |next|;
      next := next + Blanks(addresses);
      var all := next;
      PostingStarts(old(next), all, addresses);
      NoneOpens(was, addresses, answers);
      for i := 0 to |addresses|
        invariant Posting(all, base + i, was) && kernel.stray == old(kernel.stray)
        invariant Opens(was, addresses, answers, i)
      {
        OpensStep(was, addresses, answers, i);
        SlotIsBlank(old(next), all, addresses, i);
        ok := PostOne(all, base + i, answers[i], was);
        PostingIs(all, if ok then base + i + 1 else base + i, was);
        if !ok {
          TailIsBlank(old(next), all, addresses, i);
          return false, |addresses| - i;
        }
      }
      PostingIs(all, |all|, was);
      assert next[..|all|] == next;
      return true, 0;
    }

    /** The free handler of a configuration. */
    method Free(slots: seq<Slot>)
      modifies `kernel
      ensures kernel == Freed(old(kernel), slots, reloadCount)
    {
      for i := 0 to |slots|
        invariant kernel == Freed(old(kernel), slots[..i], reloadCount)
      {
        assert slots[..i + 1][..i] == slots[..i];
        if slots[i].magic < reloadCount {
          kernel := Close(kernel, slots[i].fd);
        }
      }
      assert slots[..|slots|] == slots;
    }

    /** What has been parsed of a new configuration. */
    ghost predicate Parsing(addresses: seq<string>, was: seq<Slot>)
      reads this
    {
      && Mixed(kernel, live, next, reloadCount)
      && Addresses(next) == addresses && Unmarked(live) == Unmarked(was)
    }

    lemma ParsingStarts(was: seq<Slot>)
      requires Exact(kernel, live) && next == [] && was == live && reloadCount > 0
      requires forall j :: 0 <= j < |live| ==> live[j].magic < reloadCount
      ensures Parsing([], was)
    {
      MixedStart(kernel, live, reloadCount);
    }

    /** Puts the new configuration in place and frees the old one. */
    method Install(ghost addresses: seq<string>, ghost was: seq<Slot>)
      requires Parsing(addresses, was)
      modifies `kernel, `live
      ensures Holds(kernel, live) && Addresses(live) == addresses && kernel.stray == old(kernel.stray)
      ensures Valid() <==> LiveOnce(was, addresses)
      ensures forall i :: 0 <= i < |live| ==> TakesOver(was, live[i])
    {
      hide HasAddress, HasFd, IsFirst, TakesOver, Serves, Owned, Freed;
      Commit(kernel, live, next, reloadCount);
      UnmarkedSame(was, live);
      SameButMarks(was, live);
      var gone := live;
      live := next;
      Free(gone);
    }

    /** Frees the new configuration. */
    method Discard(ghost addresses: seq<string>, ghost was: seq<Slot>, ghost before: Kernel)
      requires Parsing(addresses, was) && Exact(before, was) && kernel.stray == before.stray
      modifies `kernel
      ensures Valid() && kernel == before && Unmarked(live) == Unmarked(was)
    {
      Rollback(kernel, live, next, reloadCount);
      Free(next);
      SocketsAreTheSlots(before, kernel, was, live);
    }

    /** Frees a new configuration that failed with some addresses left. */
    method DiscardBroken(left: nat, ghost was: seq<Slot>, ghost before: Kernel)
      requires 0 < left <= |next| && Blank(next[|next| - left..])
      requires Mixed(kernel, live, next[..|next| - left], reloadCount) && Unmarked(live) == Unmarked(was)
      requires Exact(before, was) && kernel.stray == before.stray
      modifies `kernel
      ensures Unmarked(live) == Unmarked(was) && kernel.sockets == before.sockets - {0}
      ensures kernel.stray == before.stray + left - (if 0 in before.sockets then 1 else 0)
      ensures Valid() <==> 0 !in before.sockets
    {
      ghost var filled, blank := next[..|next| - left], next[|next| - left..];
      assert next == filled + blank;
      BrokenFrees(kernel, live, filled, blank, reloadCount);
      SocketsAreTheSlots(before, Freed(kernel, filled, reloadCount), was, live);
      Free(next);
    }

    method Parse(conf: seq<seq<string>>, answers: seq<seq<Option<nat>>>, luaOk: bool, postOk: seq<bool>)
      returns (out: Outcome)
      requires Valid() && |answers| == |postOk| == |conf|
      requires forall i :: 0 <= i < |conf| ==> |answers[i]| == |conf[i]|
      modifies this
      ensures reloadCount == old(reloadCount) + 1
      ensures out == Success <==>
                luaOk && conf != []
                && forall i :: 0 <= i < |conf| ==> postOk[i] && Opens(old(live), conf[i], answers[i], |conf[i]|)
      ensures out == Success ==>
                && Holds(kernel, live) && Addresses(live) == Flat(conf) && kernel.stray == old(kernel.stray)
                && (Valid() <==> LiveOnce(old(live), Flat(conf)))
                && forall i :: 0 <= i < |live| ==> TakesOver(old(live), live[i])
      ensures out == Refused ==> Valid() && kernel == old(kernel) && Unmarked(live) == Unmarked(old(live))
      ensures out.Broken? ==>
                && Unmarked(live) == Unmarked(old(live)) && kernel.sockets == old(kernel.sockets) - {0}
                && kernel.stray == old(kernel.stray) + out.left - (if 0 in old(kernel.sockets) then 1 else 0)
                && (Valid() <==> 0 !in old(kernel.sockets))
    {
      hide Mixed, Exact, Holds, LiveOnce, Opens, Unmarked, Addresses, Blanks, Flat, Blank;
      reloadCount := reloadCount + 1;
      if !luaOk {
        return Refused;
      }
      ghost var was, before := live, kernel;
      next := [];
      ParsingStarts(was);
      FlatNothing(conf);
      for i := 0 to |conf|
        invariant Parsing(Flat(conf[..i]), was) && kernel.stray == before.stray && reloadCount == old(reloadCount) + 1
        invariant forall k :: 0 <= k < i ==> postOk[k] && Opens(was, conf[k], answers[k], |conf[k]|)
      {
        FlatStart(conf, i);
        OpensSame(was, live, conf[i], answers[i]);
        var ok, left := Post(conf[i], answers[i]);
        if !ok {
          DiscardBroken(left, was, before);
          return Broken(left);
        }
        if !postOk[i] {
          Discard(Flat(conf[..i + 1]), was, before);
          return Refused;
        }
      }
      assert conf[..|conf|] == conf;
      if conf == [] {
        Discard(Flat(conf), was, before);
        return Refused;
      }
      Install(Flat(conf), was);
      return Success;
    }
  }
}
