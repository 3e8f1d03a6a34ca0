/** An upstream: its hostnames' address lists, the resolve rounds that edit them, and the requests
    that pick addresses and hold connections in between. */
module Upstream {
  import opened Common
  import opened Connections
  import opened AddressLists
  import opened MergeDiff
  import Health

  /** `s` is the address of a reply's entry, on the port of the hostname if that has one. */
  predicate Fits(s: Sockaddr, entry: Sockaddr, port: nat) {
    && s.key == entry.key && (s.Inet? <==> entry.Inet?)
    && (s.Inet? && port != 0 ==> s.port == port)
    && (s.Inet? && port == 0 ==> s.port == entry.port)
  }

  /** The port of the hostname, if any, replaces the one in the reply. */
  function Bind(s: Sockaddr, port: nat): (r: Sockaddr)
    ensures Fits(r, s, port)
  {
    match s
    case Inet(key, p) => Inet(key, if port != 0 then port else p)
    case Unix(_) => s
  }

  function ReplyKeys(reply: seq<Sockaddr>): (keys: seq<real>)
  {
    seq(|reply|, k requires 0 <= k < |reply| => reply[k].key)
  }

  /** Address `a` is what step `s` of the diff left behind. */
  ghost predicate Matched(a: Address, s: Step, olds: seq<Address>, reply: seq<Sockaddr>, port: nat)
    reads a
  {
    match s
    case Keep(i, p) => i < |olds| && a == olds[i] && !a.resolveDeleted
    case Drop(i) => i < |olds| && a == olds[i] && a.resolveDeleted
    case Add(p) => p < |reply| && a !in olds && a.sockaddr == Bind(reply[p], port) && !a.resolveDeleted
  }

  ghost predicate Matches(list: seq<Address>, steps: seq<Step>, olds: seq<Address>, reply: seq<Sockaddr>, port: nat)
    reads list
  {
    |list| == |steps| && forall k :: 0 <= k < |list| ==> Matched(list[k], steps[k], olds, reply, port)
  }

  lemma {:induction false} MatchesSurvivors(list: seq<Address>, steps: seq<Step>, olds: seq<Address>,
                                            reply: seq<Sockaddr>, port: nat)
    requires Matches(list, steps, olds, reply, port)
    ensures Matches(Unmarked(list), Survivors(steps), olds, reply, port)
  {
    if list != [] {
      assert Matched(list[0], steps[0], olds, reply, port);
      assert Matches(list[1..], steps[1..], olds, reply, port);
      MatchesSurvivors(list[1..], steps[1..], olds, reply, port);
    }
  }

  /** Address `a` is what the surviving step `s` stands for: the old object, or a new one bound to the entry. */
  ghost predicate StandsFor(a: Address, s: Step, olds: seq<Address>, reply: seq<Sockaddr>, port: nat) {
    match s
    case Keep(i, _) => i < |olds| && a == olds[i]
    case Drop(_) => false
    case Add(p) => p < |reply| && a !in olds && a.sockaddr == Bind(reply[p], port)
  }

  /** A list made from `olds` by the diff against `reply`. */
  ghost predicate Merged(list: seq<Address>, olds: seq<Address>, reply: seq<Sockaddr>, port: nat) {
    var steps := Survivors(Diff(Keys(olds), ReplyKeys(reply), 0, 0));
    |list| == |steps| && forall k :: 0 <= k < |list| ==> StandsFor(list[k], steps[k], olds, reply, port)
  }

  lemma SweptListIsMerged(list: seq<Address>, olds: seq<Address>, reply: seq<Sockaddr>, port: nat)
    requires Matches(list, Diff(Keys(olds), ReplyKeys(reply), 0, 0), olds, reply, port)
    ensures Merged(Unmarked(list), olds, reply, port)
  {
    var steps := Diff(Keys(olds), ReplyKeys(reply), 0, 0);
    MatchesSurvivors(list, steps, olds, reply, port);
    SurvivorsAreTheReply(Keys(olds), ReplyKeys(reply), 0, 0);
    forall k | 0 <= k < |Unmarked(list)|
      ensures StandsFor(Unmarked(list)[k], Survivors(steps)[k], olds, reply, port)
    {
      assert Matched(Unmarked(list)[k], Survivors(steps)[k], olds, reply, port);
    }
  }

  /** Entry by entry: an address that was not there before fits the entry it stands for. */
  lemma NewOnesFit(list: seq<Address>, olds: seq<Address>, reply: seq<Sockaddr>, port: nat)
    requires Merged(list, olds, reply, port)
    ensures |list| == |reply|
    ensures forall k :: 0 <= k < |list| && list[k] !in olds ==> Fits(list[k].sockaddr, reply[k], port)
  {
    SurvivorsAreTheReply(Keys(olds), ReplyKeys(reply), 0, 0);
    var steps := Survivors(Diff(Keys(olds), ReplyKeys(reply), 0, 0));
    forall k | 0 <= k < |list| && list[k] !in olds
      ensures Fits(list[k].sockaddr, reply[k], port)
    {
      assert StandsFor(list[k], steps[k], olds, reply, port);
    }
  }

  /** Marked or not, every old address is still linked after the sweep. */
  lemma OldsStay(list: seq<Address>, olds: seq<Address>, reply: seq<Sockaddr>, port: nat)
    requires Matches(list, Diff(Keys(olds), ReplyKeys(reply), 0, 0), olds, reply, port)
    ensures forall a <- olds :: a in list
  {
    var steps := Diff(Keys(olds), ReplyKeys(reply), 0, 0);
    OldOnesInOrder(Keys(olds), ReplyKeys(reply), 0, 0);
    forall i | 0 <= i < |olds|
      ensures olds[i] in list
    {
      OldStepsAreSteps(steps);
      assert OldSteps(steps)[i] in OldSteps(steps);
      var k :| 0 <= k < |steps| && steps[k] == OldSteps(steps)[i];
      assert Matched(list[k], steps[k], olds, reply, port);
    }
  }

  lemma {:induction false} OldStepsAreSteps(steps: seq<Step>)
    ensures forall s <- OldSteps(steps) :: s in steps
  {
    if steps != [] {
      OldStepsAreSteps(steps[1..]);
    }
  }

  /** After the sweep the unmarked addresses are the reply, in its order. */
  lemma SweptListIsTheReply(list: seq<Address>, olds: seq<Address>, reply: seq<Sockaddr>, port: nat)
    requires Matches(list, Diff(Keys(olds), ReplyKeys(reply), 0, 0), olds, reply, port)
    ensures Keys(Unmarked(list)) == ReplyKeys(reply)
  {
    var steps := Diff(Keys(olds), ReplyKeys(reply), 0, 0);
    MatchesSurvivors(list, steps, olds, reply, port);
    SurvivorsAreTheReply(Keys(olds), ReplyKeys(reply), 0, 0);
    var alive := Unmarked(list);
    forall k | 0 <= k < |alive|
      ensures Keys(alive)[k] == ReplyKeys(reply)[k]
    {
      assert Matched(alive[k], Survivors(steps)[k], olds, reply, port);
    }
  }

  lemma SweptListIsInOrder(list: seq<Address>, olds: seq<Address>, reply: seq<Sockaddr>, port: nat)
    requires Matches(list, Diff(Keys(olds), ReplyKeys(reply), 0, 0), olds, reply, port)
    requires InOrder(olds) && Sorted(ReplyKeys(reply))
    ensures InOrder(list)
  {
    var oldKeys, newKeys := Keys(olds), ReplyKeys(reply);
    var steps := Diff(oldKeys, newKeys, 0, 0);
    InOrderIsSorted(olds);
    var least := if oldKeys != [] && (newKeys == [] || oldKeys[0] <= newKeys[0]) then oldKeys[0]
                 else if newKeys != [] then newKeys[0] else 0.0;
    MergedIsSorted(oldKeys, newKeys, 0, 0, least);
    forall k | 0 <= k < |list| - 1
      ensures list[k].sockaddr.key <= list[k + 1].sockaddr.key
    {
      SortedByIndex(steps, oldKeys, newKeys, least, k);
      assert Matched(list[k], steps[k], olds, reply, port) && Matched(list[k + 1], steps[k + 1], olds, reply, port);
    }
    InOrderByIndex(list);
  }

  ghost predicate AllFit(list: seq<Address>, entries: seq<Sockaddr>, port: nat) {
    |list| == |entries| && forall k :: 0 <= k < |list| ==> Fits(list[k].sockaddr, entries[k], port)
  }

  lemma FitIsSorted(list: seq<Address>, entries: seq<Sockaddr>, port: nat)
    requires AllFit(list, entries, port) && Sorted(ReplyKeys(entries))
    ensures InOrder(list)
  {
    assert Keys(list) == ReplyKeys(entries);
    SortedInOrder(list);
  }

  lemma NothingUnlinked(list: seq<Address>, heads: seq<seq<Address>>, list2: seq<Address>, heads2: seq<seq<Address>>,
                        h: nat)
    requires |heads| == |heads2| && h < |heads| && heads2 == heads[h := heads2[h]]
    requires forall g :: 0 <= g < |heads| ==> heads[g] == Of(list, g) && heads2[g] == Of(list2, g)
    requires forall a <- list :: a.hostname < |heads|
    requires forall a <- heads[h] :: a in heads2[h]
    ensures forall a <- list :: a in list2
  {
    forall a | a in list
      ensures a in list2
    {
      OfMembers(list, a.hostname);
      OfMembers(list2, a.hostname);
      assert a in heads[a.hostname];
    }
  }

  lemma OthersApart(list: seq<Address>, heads: seq<seq<Address>>, g: nat, h: nat)
    requires g < |heads| && h < |heads| && g != h && heads[g] == Of(list, g) && heads[h] == Of(list, h)
    ensures forall a <- heads[g] :: a !in heads[h]
  {
    OfMembers(list, g);
    OfMembers(list, h);
  }

  twostate lemma {:induction false} SameMarks(list: seq<Address>)
    requires forall a <- list :: a.resolveDeleted == old(a.resolveDeleted)
    ensures Unmarked(list) == old(Unmarked(list))
  {
    if list != [] {
      SameMarks(list[1..]);
    }
  }

  predicate OnPort(s: Sockaddr, port: nat) {
    s.Inet? && port != 0 ==> s.port == port
  }

  /** A connection held by a request. */
  datatype Handle = Handle(address: Address, connection: nat)

  datatype Got = Connected(handle: Handle) | Again | Error

  class Upstream {
    const idleMax: nat
    const needResolved: seq<bool>
    const ports: seq<nat>
    const limits: Health.Limits
    var addressHead: seq<Address>
    var hostHeads: seq<seq<Address>>
    var deferred: seq<Address>           // deleted addresses waiting for their connections
    var addressNum: nat
    var table: seq<Address>              // what the load balancer was built from
    var resolveIndex: nat                // 0, or one more than the hostname being queried
    var resolveUpdated: bool
    var waitHead: seq<nat>
    var elsewhere: set<nat>              // requests whose list node is on a list that is not `waitHead`
    ghost var freed: set<Address>
    ghost var held: set<Handle>

    /** A hostname with a port has all its addresses on that port. */
    ghost predicate Linked()
      reads this`addressHead, this`hostHeads, this`deferred, this`freed
    {
      && |hostHeads| == |needResolved| == |ports|
      && Once(addressHead) && Once(deferred)
      && (forall a <- addressHead :: a !in deferred && a !in freed && a.hostname < |hostHeads|)
      && (forall a <- deferred :: a !in freed)
      && (forall a <- addressHead :: OnPort(a.sockaddr, ports[a.hostname]))
      && (forall g :: 0 <= g < |hostHeads| ==> hostHeads[g] == Of(addressHead, g))
    }

    ghost predicate Ordered()
      reads this`hostHeads
    {
      forall g :: 0 <= g < |hostHeads| ==> InOrder(hostHeads[g])
    }

    ghost predicate Served()
      reads this`addressNum, this`table, this`addressHead
    {
      addressNum > 0 ==> |table| == addressNum && forall a <- table :: a in addressHead
    }

    ghost predicate Pools()
      reads this`addressHead, this`deferred, addressHead, deferred
    {
      (forall a <- addressHead :: a.Valid(idleMax)) && (forall a <- deferred :: a.Valid(idleMax))
    }

    /** The held connections are exactly the active ones of addresses not freed. */
    ghost predicate Handles()
      reads this`addressHead, this`deferred, this`held, addressHead, deferred
    {
      && (forall x <- held :: (x.address in addressHead || x.address in deferred) && x.connection in x.address.active)
      && (forall a, c | a in addressHead && c in a.active :: Handle(a, c) in held)
      && (forall a, c | a in deferred && c in a.active :: Handle(a, c) in held)
    }

    /** Only hostnames below `n` have marked addresses, and any mark asks for a rebuild. */
    ghost predicate Marks(n: nat)
      reads this`addressHead, this`resolveUpdated, addressHead`resolveDeleted
    {
      forall a <- addressHead :: a.resolveDeleted ==> a.hostname < n && resolveUpdated
    }

    /** A request waits once, and its list node is on no other list. */
    ghost predicate Waiting()
      reads this`waitHead, this`elsewhere
    {
      Once(waitHead) && forall r <- waitHead :: r !in elsewhere
    }

    ghost predicate Valid()
      reads this, addressHead, deferred
    {
      && Linked() && Ordered() && Served() && Pools() && Handles() && Waiting()
      && resolveIndex <= |hostHeads|
      && (resolveIndex > 0 ==> needResolved[resolveIndex - 1])
      && Marks(if resolveIndex == 0 then 0 else resolveIndex - 1)
    }

    /** Link a new address; the same position in both lists. */
    method AddressAdd(h: nat, sockaddr: Sockaddr, before: Option<Address>) returns (a: Address)
      requires Linked() && h < |hostHeads|
      requires before.Some? ==> before.value in hostHeads[h]
      modifies this`addressHead, this`hostHeads
      ensures Linked() && fresh(a)
      ensures a.sockaddr == Bind(sockaddr, ports[h]) && Fits(a.sockaddr, sockaddr, ports[h])
      ensures a.hostname == h && !a.resolveDeleted
      ensures a.active == [] && a.idle == [] && a.Valid(idleMax)
      ensures addressHead == InsertBefore(old(addressHead), before, a)
      ensures hostHeads == old(hostHeads)[h := InsertBefore(old(hostHeads[h]), before, a)]
      ensures forall b :: b in addressHead <==> b in old(addressHead) || b == a
    {
      a := new Address(Bind(sockaddr, ports[h]), h);
      OfMembers(addressHead, h);
      InsertMembers(addressHead, before, a);
      forall g | 0 <= g < |hostHeads|
        ensures Of(InsertBefore(addressHead, before, a), g)
             == if g == h then InsertBefore(hostHeads[h], before, a) else hostHeads[g]
      {
        OfInsert(addressHead, before, a, g);
      }
      addressHead := InsertBefore(addressHead, before, a);
      hostHeads := hostHeads[h := InsertBefore(hostHeads[h], before, a)];
    }

    /** Move an address from both lists to the deferred one. */
    method AddressDelete(a: Address)
      requires Linked() && a in addressHead
      modifies this`addressHead, this`hostHeads, this`deferred
      ensures Linked() && |hostHeads| == old(|hostHeads|)
      ensures addressHead == Without(old(addressHead), a) && deferred == old(deferred) + [a]
    {
      WithoutMembers(addressHead, a);
      OnceAppend(deferred, a);
      forall g | 0 <= g < |hostHeads|
        ensures Of(Without(addressHead, a), g) == if g == a.hostname then Without(hostHeads[g], a) else hostHeads[g]
      {
        OfWithout(addressHead, a, g);
        OfMembers(addressHead, g);
        if g != a.hostname {
          WithoutAbsent(hostHeads[g], a);
        }
      }
      hostHeads := hostHeads[a.hostname := Without(hostHeads[a.hostname], a)];
      addressHead := Without(addressHead, a);
      deferred := deferred + [a];
    }

    /** Half-way through a purge of `all`: `kept` and `moved` are behind the cursor, `rest` ahead of it. */
    ghost predicate Purging(all: seq<Address>, kept: seq<Address>, moved: seq<Address>, rest: seq<Address>,
                            deferredBefore: seq<Address>)
      reads this, rest, all
    {
      && Linked()
      && kept + Unmarked(rest) == Unmarked(all) && moved + Marked(rest) == Marked(all)
      && addressHead == kept + rest && addressNum == |kept| && deferred == deferredBefore + moved
    }

    /** Unlink every marked address and count the others, just before the load balancer is rebuilt. */
    method Purge()
      requires Linked()
      modifies this`addressHead, this`hostHeads, this`deferred, this`addressNum
      ensures Linked() && |hostHeads| == old(|hostHeads|)
      ensures addressHead == Unmarked(old(addressHead)) && addressNum == |addressHead|
      ensures deferred == old(deferred) + Marked(old(addressHead))
      ensures forall a :: a in addressHead <==> a in old(addressHead) && !a.resolveDeleted
      ensures forall a :: a in deferred <==> a in old(deferred) || (a in old(addressHead) && a.resolveDeleted)
    {
      addressNum := 0;
      var rest := addressHead;
      ghost var all, kept, moved := addressHead, [], [];
      while rest != []
        invariant Purging(all, kept, moved, rest, old(deferred)) && |hostHeads| == old(|hostHeads|)
      {
        kept, moved := PurgeOne(all, kept, moved, rest, old(deferred));
        rest := rest[1..];
      }
      assert kept + [] == kept && moved + [] == moved;
      UnmarkedMembers(all);
    }

    /** One turn of the purge, at the head of `rest`. */
    method PurgeOne(ghost all: seq<Address>, ghost kept: seq<Address>, ghost moved: seq<Address>, rest: seq<Address>,
                    ghost deferredBefore: seq<Address>)
      returns (ghost kept2: seq<Address>, ghost moved2: seq<Address>)
      requires Purging(all, kept, moved, rest, deferredBefore) && rest != []
      modifies this`addressHead, this`hostHeads, this`deferred, this`addressNum
      ensures Purging(all, kept2, moved2, rest[1..], deferredBefore) && |hostHeads| == old(|hostHeads|)
    {
      var a := rest[0];
      assert rest == [a] + rest[1..];
      assert addressHead == kept + [a] + rest[1..] && addressHead[|kept|] == a;
      kept2 := if a.resolveDeleted then kept else kept + [a];
      moved2 := if a.resolveDeleted then moved + [a] else moved;
      assert kept2 + Unmarked(rest[1..]) == kept + Unmarked(rest);
      assert moved2 + Marked(rest[1..]) == moved + Marked(rest);
      if a.resolveDeleted {
        OnceMiddle(kept, a, rest[1..]);
        WithoutAt(kept, a, rest[1..]);
        AddressDelete(a);
      } else {
        addressNum := addressNum + 1;
      }
    }

    // ---------- the diff of one reply ----------

    /** Half-way through the sweep of hostname `h`: `done` is what is behind the cursor, left there
        by `steps`; `olds[i..]` and `reply[p..]` are still to be compared. */
    ghost predicate Sweeping(h: nat, olds: seq<Address>, reply: seq<Sockaddr>, i: nat, p: nat,
                             done: seq<Address>, steps: seq<Step>, wasUpdated: bool)
      reads this, olds, done
    {
      && Linked() && h < |hostHeads| && i <= |olds| && p <= |reply|
      && hostHeads[h] == done + olds[i..]
      && Matches(done, steps, olds, reply, ports[h])
      && steps + Diff(Keys(olds), ReplyKeys(reply), i, p) == Diff(Keys(olds), ReplyKeys(reply), 0, 0)
      && (forall a <- olds[i..] :: !a.resolveDeleted)
      && resolveUpdated == (wasUpdated || Changed(steps))
    }

    /** What the sweep of `h` leaves alone. */
    ghost predicate Around(h: nat)
      reads this, addressHead, deferred
    {
      && Linked() && Served() && Pools() && Handles() && Marks(h + 1)
      && (forall g :: 0 <= g < |hostHeads| && g != h ==> InOrder(hostHeads[g]))
    }

    /** The address at the cursor is met for the first time. */
    lemma AtCursor(h: nat, olds: seq<Address>, reply: seq<Sockaddr>, i: nat, p: nat,
                   done: seq<Address>, steps: seq<Step>, wasUpdated: bool)
      requires Sweeping(h, olds, reply, i, p, done, steps, wasUpdated) && i < |olds|
      ensures olds[i..] == [olds[i]] + olds[i + 1..]
      ensures olds[i] !in done && olds[i] !in olds[i + 1..]
      ensures olds[i].hostname == h && olds[i] in hostHeads[h]
    {
      OfOnce(addressHead, h);
      assert olds[i..] == [olds[i]] + olds[i + 1..];
      OnceMiddle(done, olds[i], olds[i + 1..]);
      assert hostHeads[h][|done|] == olds[i];
      OfMembers(addressHead, h);
    }

    /** Equal heads: go on. */
    lemma KeepStep(h: nat, olds: seq<Address>, reply: seq<Sockaddr>, i: nat, p: nat,
                          done: seq<Address>, steps: seq<Step>, wasUpdated: bool)
      returns (done2: seq<Address>, steps2: seq<Step>)
      requires Sweeping(h, olds, reply, i, p, done, steps, wasUpdated)
      requires i < |olds| && p < |reply| && reply[p].key == olds[i].sockaddr.key
      ensures Sweeping(h, olds, reply, i + 1, p + 1, done2, steps2, wasUpdated)
    {
      done2, steps2 := done + [olds[i]], steps + [Keep(i, p)];
      assert olds[i..] == [olds[i]] + olds[i + 1..];
      StepTaken(steps, Keep(i, p), Keys(olds), ReplyKeys(reply), i, p, i + 1, p + 1);
      assert Matched(olds[i], Keep(i, p), olds, reply, ports[h]);
    }

    /** The old head is not in the reply: mark it; it stays linked because the load balancer uses it. */
    method DropStep(h: nat, ghost olds: seq<Address>, ghost reply: seq<Sockaddr>, ghost i: nat, ghost p: nat,
                    ghost done: seq<Address>, ghost steps: seq<Step>, ghost wasUpdated: bool, address: Address)
      returns (ghost done2: seq<Address>, ghost steps2: seq<Step>)
      requires Sweeping(h, olds, reply, i, p, done, steps, wasUpdated) && Around(h)
      requires i < |olds| && address == olds[i] && (p < |reply| ==> address.sockaddr.key < reply[p].key)
      modifies this`resolveUpdated, address`resolveDeleted
      ensures Sweeping(h, olds, reply, i + 1, p, done2, steps2, wasUpdated) && Around(h)
    {
      done2, steps2 := done + [olds[i]], steps + [Drop(i)];
      AtCursor(h, olds, reply, i, p, done, steps, wasUpdated);
      StepTaken(steps, Drop(i), Keys(olds), ReplyKeys(reply), i, p, i + 1, p);
      MarkDeleted(h, address);
      assert Drop(i) in steps2;
      assert Matched(address, Drop(i), olds, reply, ports[h]);
    }

    method MarkDeleted(h: nat, address: Address)
      requires Around(h) && address.hostname == h
      modifies this`resolveUpdated, address`resolveDeleted
      ensures Around(h) && resolveUpdated && address.resolveDeleted
    {
      address.resolveDeleted := true;
      resolveUpdated := true;
    }

    /** The reply has an address the list has not: link it before the old head, or at the end. */
    method AddStep(h: nat, ghost olds: seq<Address>, reply: seq<Sockaddr>, ghost i: nat, p: nat,
                   ghost done: seq<Address>, ghost steps: seq<Step>, ghost wasUpdated: bool, before: Option<Address>)
      returns (ghost done2: seq<Address>, ghost steps2: seq<Step>)
      requires Sweeping(h, olds, reply, i, p, done, steps, wasUpdated) && Around(h)
      requires p < |reply| && before == (if i < |olds| then Some(olds[i]) else None)
      requires i < |olds| ==> reply[p].key < olds[i].sockaddr.key
      modifies this`resolveUpdated, this`addressHead, this`hostHeads
      ensures Sweeping(h, olds, reply, i, p + 1, done2, steps2, wasUpdated) && Around(h)
      ensures hostHeads == old(hostHeads)[h := hostHeads[h]]
    {
      if i < |olds| {
        AtCursor(h, olds, reply, i, p, done, steps, wasUpdated);
      }
      StepTaken(steps, Add(p), Keys(olds), ReplyKeys(reply), i, p, i, p + 1);
      var a := AddNew(h, reply[p], before);
      InsertAt(done, olds[i..], before, a);
      done2, steps2 := done + [a], steps + [Add(p)];
      assert Add(p) in steps2;
      assert Matched(a, Add(p), olds, reply, ports[h]);
    }

    method AddNew(h: nat, sockaddr: Sockaddr, before: Option<Address>) returns (a: Address)
      requires Around(h) && h < |hostHeads|
      requires before.Some? ==> before.value in hostHeads[h]
      modifies this`resolveUpdated, this`addressHead, this`hostHeads
      ensures Around(h) && resolveUpdated && fresh(a)
      ensures a.sockaddr == Bind(sockaddr, ports[h]) && !a.resolveDeleted
      ensures hostHeads == old(hostHeads)[h := InsertBefore(old(hostHeads[h]), before, a)]
    {
      a := AddressAdd(h, sockaddr, before);
      resolveUpdated := true;
    }

    /** The three loops of the diff. Afterwards the list is what the value-level diff says. */
    method Sweep(h: nat, reply: seq<Sockaddr>)
      requires Around(h) && Marks(h) && h < |hostHeads| && InOrder(hostHeads[h]) && Sorted(ReplyKeys(reply))
      modifies this`resolveUpdated, this`addressHead, this`hostHeads, hostHeads[h]`resolveDeleted
      ensures Around(h) && Ordered() && hostHeads == old(hostHeads)[h := hostHeads[h]]
      ensures var olds := old(hostHeads[h]);
          Matches(hostHeads[h], Diff(Keys(olds), ReplyKeys(reply), 0, 0), olds, reply, ports[h])
      ensures resolveUpdated == (old(resolveUpdated) || Keys(old(hostHeads[h])) != ReplyKeys(reply))
    {
      var olds := hostHeads[h];
      ghost var was := resolveUpdated;
      SweepBegins(h, reply);
      var i, p, done, steps := SweepBoth(h, olds, reply, was);
      done, steps := SweepOlds(h, olds, reply, i, p, done, steps, was);
      done, steps := SweepNews(h, olds, reply, p, done, steps, was);
      SweepEnds(h, olds, reply, done, steps, was);
    }

    lemma SweepBegins(h: nat, reply: seq<Sockaddr>)
      requires Around(h) && Marks(h) && h < |hostHeads|
      ensures Sweeping(h, hostHeads[h], reply, 0, 0, [], [], resolveUpdated)
    {
      OfMembers(addressHead, h);
    }

    /** Second loop: the rest of the list is not in the reply. */
    method SweepOlds(h: nat, olds: seq<Address>, ghost reply: seq<Sockaddr>, from: nat, ghost p: nat,
                     ghost done0: seq<Address>, ghost steps0: seq<Step>, ghost was: bool)
      returns (ghost done: seq<Address>, ghost steps: seq<Step>)
      requires Sweeping(h, olds, reply, from, p, done0, steps0, was) && Around(h)
      requires from == |olds| || p == |reply|
      modifies this`resolveUpdated, olds`resolveDeleted
      ensures Sweeping(h, olds, reply, |olds|, p, done, steps, was) && Around(h)
    {
      var i := from;
      done, steps := done0, steps0;
      while i < |olds|
        invariant Sweeping(h, olds, reply, i, p, done, steps, was) && Around(h)
      {
        done, steps := DropStep(h, olds, reply, i, p, done, steps, was, olds[i]);
        i := i + 1;
      }
    }

    /** First loop: both lists have a head. */
    method SweepBoth(h: nat, olds: seq<Address>, reply: seq<Sockaddr>, ghost was: bool)
      returns (i: nat, p: nat, ghost done: seq<Address>, ghost steps: seq<Step>)
      requires Sweeping(h, olds, reply, 0, 0, [], [], was) && Around(h)
      modifies this`resolveUpdated, this`addressHead, this`hostHeads, olds`resolveDeleted
      ensures Sweeping(h, olds, reply, i, p, done, steps, was) && Around(h)
      ensures hostHeads == old(hostHeads)[h := hostHeads[h]]
      ensures i == |olds| || p == |reply|
    {
      hide Matches, Around, Diff, Changed, Linked, Keys, ReplyKeys;
      i, p, done, steps := 0, 0, [], [];
      while p < |reply| && i < |olds|
        invariant i <= |olds| && p <= |reply| && Sweeping(h, olds, reply, i, p, done, steps, was) && Around(h)
        invariant hostHeads == old(hostHeads)[h := hostHeads[h]]
        decreases |reply| - p + |olds| - i
      {
        i, p, done, steps := SweepTurn(h, olds, reply, i, p, done, steps, was);
      }
    }

    /** One turn: the heads are equal, or one of them comes first. */
    method SweepTurn(h: nat, olds: seq<Address>, reply: seq<Sockaddr>, i: nat, p: nat,
                     ghost done: seq<Address>, ghost steps: seq<Step>, ghost was: bool)
      returns (i2: nat, p2: nat, ghost done2: seq<Address>, ghost steps2: seq<Step>)
      requires Sweeping(h, olds, reply, i, p, done, steps, was) && Around(h) && i < |olds| && p < |reply|
      modifies this`resolveUpdated, this`addressHead, this`hostHeads, olds`resolveDeleted
      ensures Sweeping(h, olds, reply, i2, p2, done2, steps2, was) && Around(h)
      ensures hostHeads == old(hostHeads)[h := hostHeads[h]]
      ensures i <= i2 <= |olds| && p <= p2 <= |reply| && i + p < i2 + p2
    {
      hide Matches, Around, Diff, Changed, Linked, Keys, ReplyKeys;
      if reply[p].key == olds[i].sockaddr.key {
        done2, steps2 := KeepStep(h, olds, reply, i, p, done, steps, was);
        i2, p2 := i + 1, p + 1;
      } else if reply[p].key < olds[i].sockaddr.key {
        done2, steps2 := AddStep(h, olds, reply, i, p, done, steps, was, Some(olds[i]));
        i2, p2 := i, p + 1;
      } else {
        done2, steps2 := DropStep(h, olds, reply, i, p, done, steps, was, olds[i]);
        i2, p2 := i + 1, p;
      }
    }

    /** Third loop: the rest of the reply is new. */
    method SweepNews(h: nat, ghost olds: seq<Address>, reply: seq<Sockaddr>, from: nat,
                     ghost done0: seq<Address>, ghost steps0: seq<Step>, ghost was: bool)
      returns (ghost done: seq<Address>, ghost steps: seq<Step>)
      requires Sweeping(h, olds, reply, |olds|, from, done0, steps0, was) && Around(h)
      modifies this`resolveUpdated, this`addressHead, this`hostHeads
      ensures Sweeping(h, olds, reply, |olds|, |reply|, done, steps, was) && Around(h)
      ensures hostHeads == old(hostHeads)[h := hostHeads[h]]
    {
      var p := from;
      done, steps := done0, steps0;
      while p < |reply|
        invariant Sweeping(h, olds, reply, |olds|, p, done, steps, was) && Around(h)
        invariant hostHeads == old(hostHeads)[h := hostHeads[h]]
      {
        done, steps := AddStep(h, olds, reply, |olds|, p, done, steps, was, None);
        p := p + 1;
      }
    }

    lemma SweepEnds(h: nat, olds: seq<Address>, reply: seq<Sockaddr>, done: seq<Address>, steps: seq<Step>, was: bool)
      requires Sweeping(h, olds, reply, |olds|, |reply|, done, steps, was) && Around(h)
      requires InOrder(olds) && Sorted(ReplyKeys(reply))
      ensures Ordered()
      ensures Matches(hostHeads[h], Diff(Keys(olds), ReplyKeys(reply), 0, 0), olds, reply, ports[h])
      ensures resolveUpdated == (was || Keys(olds) != ReplyKeys(reply))
    {
      assert steps == Diff(Keys(olds), ReplyKeys(reply), 0, 0) && hostHeads[h] == done;
      SweptListIsInOrder(done, olds, reply, ports[h]);
      ChangedMeansDifferent(Keys(olds), ReplyKeys(reply), 0, 0);
      assert Keys(olds)[0..] == Keys(olds) && ReplyKeys(reply)[0..] == ReplyKeys(reply);
    }

    // ---------- rounds ----------

    /** Query the next hostname that needs it; after the last one, purge and rebuild the load
        balancer if anything changed, and wake the requests that waited for a first address. */
    method ResolveHostname() returns (query: Option<nat>, woken: seq<nat>)
      requires Linked() && Ordered() && Served() && Pools() && Handles() && Waiting()
      requires resolveIndex <= |hostHeads| && Marks(resolveIndex)
      modifies this`addressHead, this`hostHeads, this`deferred, this`addressNum, this`table,
               this`resolveIndex, this`resolveUpdated, this`waitHead
      ensures Valid() && |hostHeads| == old(|hostHeads|)
      ensures query.Some? ==>
          && resolveIndex == query.value + 1 && IsNext(old(resolveIndex), query.value) && woken == []
          && unchanged(`addressHead, `hostHeads, `deferred, `addressNum, `table, `resolveUpdated, `waitHead)
      ensures query == None ==>
          resolveIndex == 0 && forall g :: old(resolveIndex) <= g < |needResolved| ==> !needResolved[g]
      ensures query == None && !old(resolveUpdated) ==>
          && woken == []
          && unchanged(`addressHead, `hostHeads, `deferred, `addressNum, `table, `resolveUpdated, `waitHead)
      ensures query == None && old(resolveUpdated) ==>
          && addressHead == Unmarked(old(addressHead)) && deferred == old(deferred) + Marked(old(addressHead))
          && addressNum == |addressHead|
          && (addressNum > 0 ==> table == addressHead && !resolveUpdated && woken == old(waitHead) && waitHead == [])
          && (addressNum == 0 ==> table == old(table) && resolveUpdated && woken == [] && waitHead == old(waitHead))
      ensures forall g :: 0 <= g < |hostHeads| ==> Unmarked(hostHeads[g]) == Unmarked(old(hostHeads)[g])
      ensures forall a <- old(addressHead) :: a in addressHead || a in deferred
    {
      woken := [];
      var next := NextToResolve(resolveIndex);
      if next < |needResolved| {
        resolveIndex := next + 1;
        return Some(next), [];
      }
      query := None;
      resolveIndex := 0;
      if !resolveUpdated {
        return;
      }
      woken := EndRound();
      forall g | 0 <= g < |hostHeads|
        ensures Unmarked(hostHeads[g]) == hostHeads[g]
      {
        OfMembers(addressHead, g);
        NothingMarked(hostHeads[g]);
      }
    }

    /** Hostname `next` is the first from `from` on that has to be resolved. */
    predicate IsNext(from: nat, next: nat) {
      from <= next < |needResolved| && needResolved[next] && forall g :: from <= g < next ==> !needResolved[g]
    }

    /** The loop that skips hostnames given as plain addresses. */
    method NextToResolve(from: nat) returns (next: nat)
      requires from <= |needResolved|
      ensures from <= next <= |needResolved|
      ensures next < |needResolved| ==> needResolved[next]
      ensures forall g :: from <= g < next ==> !needResolved[g]
    {
      next := from;
      while next < |needResolved| && !needResolved[next]
        invariant from <= next <= |needResolved|
        invariant forall g :: from <= g < next ==> !needResolved[g]
      {
        next := next + 1;
      }
    }

    method EndRound() returns (woken: seq<nat>)
      requires Linked() && Ordered() && Pools() && Handles() && Waiting() && resolveUpdated && resolveIndex == 0
      modifies this`addressHead, this`hostHeads, this`deferred, this`addressNum, this`table,
               this`resolveUpdated, this`waitHead
      ensures Valid() && |hostHeads| == old(|hostHeads|)
      ensures addressHead == Unmarked(old(addressHead)) && deferred == old(deferred) + Marked(old(addressHead))
      ensures addressNum == |addressHead|
      ensures addressNum > 0 ==> table == addressHead && !resolveUpdated && woken == old(waitHead) && waitHead == []
      ensures addressNum == 0 ==> table == old(table) && resolveUpdated && woken == [] && waitHead == old(waitHead)
      ensures forall g :: 0 <= g < |hostHeads| ==> hostHeads[g] == Unmarked(old(hostHeads)[g])
      ensures forall a <- old(addressHead) :: a in addressHead || a in deferred
    {
      hide Linked, Ordered, Pools, Handles, InOrder;
      PurgeAll();
      if addressNum == 0 {
        return [];
      }
      table := addressHead;
      resolveUpdated := false;
      woken := waitHead;
      waitHead := [];
    }

    /** The purge, with everything it keeps. */
    method PurgeAll()
      requires Linked() && Ordered() && Pools() && Handles()
      modifies this`addressHead, this`hostHeads, this`deferred, this`addressNum
      ensures Linked() && Ordered() && Pools() && Handles() && |hostHeads| == old(|hostHeads|)
      ensures addressHead == Unmarked(old(addressHead)) && deferred == old(deferred) + Marked(old(addressHead))
      ensures addressNum == |addressHead| && forall a <- addressHead :: !a.resolveDeleted
      ensures forall g :: 0 <= g < |hostHeads| ==> hostHeads[g] == Unmarked(old(hostHeads)[g])
      ensures forall a <- old(addressHead) :: a in addressHead || a in deferred
    {
      Purge();
      forall g | 0 <= g < |hostHeads|
        ensures hostHeads[g] == Unmarked(old(hostHeads)[g]) && InOrder(hostHeads[g])
      {
        OfUnmarked(old(addressHead), g);
        UnmarkedInOrder(old(hostHeads)[g]);
      }
    }

    /** A reply of the resolver to the outstanding query; None is its "ERROR" message. Whether or
        not the round ends with it, the hostname's live addresses are afterwards the reply, and each
        is the address object the diff kept for that entry, or a new one bound to it. */
    method OnRead(reply: Option<seq<Sockaddr>>) returns (query: Option<nat>, woken: seq<nat>)
      requires Valid() && resolveIndex > 0
      requires reply.Some? ==> Sorted(ReplyKeys(reply.value))
      modifies this`addressHead, this`hostHeads, this`deferred, this`addressNum, this`table,
               this`resolveIndex, this`resolveUpdated, this`waitHead, hostHeads[resolveIndex - 1]`resolveDeleted
      ensures Valid() && |hostHeads| == old(|hostHeads|)
      ensures reply.Some? ==> Keys(Unmarked(hostHeads[old(resolveIndex) - 1])) == ReplyKeys(reply.value)
      ensures reply.Some? ==>
          var h := old(resolveIndex) - 1;
          Merged(Unmarked(hostHeads[h]), old(hostHeads)[h], reply.value, ports[h])
      ensures reply.Some? ==>
          var h := old(resolveIndex) - 1;
          var list := Unmarked(hostHeads[h]);
          |list| == |reply.value|
          && forall k :: 0 <= k < |list| && list[k] !in old(hostHeads)[h] ==>
               Fits(list[k].sockaddr, reply.value[k], ports[h])
      ensures query == None && reply.Some? ==> Keys(hostHeads[old(resolveIndex) - 1]) == ReplyKeys(reply.value)
      ensures forall g :: 0 <= g < |hostHeads| && (g != old(resolveIndex) - 1 || reply == None) ==>
          Unmarked(hostHeads[g]) == old(Unmarked(hostHeads[g]))
      ensures old(deferred) <= deferred && forall a <- old(addressHead) :: a in addressHead || a in deferred
      ensures query.Some? ==> resolveIndex == query.value + 1 && IsNext(old(resolveIndex), query.value)
      ensures query.Some? ==> deferred == old(deferred)
      ensures query == None ==>
          resolveIndex == 0 && forall g :: old(resolveIndex) <= g < |needResolved| ==> !needResolved[g]
      ensures var differs := reply.Some? && old(Keys(hostHeads[resolveIndex - 1])) != ReplyKeys(reply.value);
              Roused(query == None && (old(resolveUpdated) || differs), woken, old(waitHead), old(table))
    {
      hide Merged, InOrder, Ordered, Served, Pools, Handles, Linked, Waiting, Marks, Keys, ReplyKeys;
      var h := resolveIndex - 1;
      if reply.Some? {
        TakeReply(h, reply.value);
      } else {
        MarksGrow(h);
      }
      query, woken := ResolveHostname();
      if query == None {
        RoundIsOver(h);
      }
      if reply.Some? {
        NewOnesFit(Unmarked(hostHeads[h]), old(hostHeads)[h], reply.value, ports[h]);
      }
    }

    /** At the end of a round that changed something, all waiters are woken, in order, unless there is
        still no address. Otherwise all go on waiting. */
    ghost predicate Roused(rebuilt: bool, woken: seq<nat>, waiting0: seq<nat>, table0: seq<Address>)
      reads this
    {
      if rebuilt && addressHead != [] then
        woken == waiting0 && waitHead == [] && table == addressHead && addressNum == |table|
      else woken == [] && waitHead == waiting0 && table == table0
    }

    /** The sweep unlinks nothing, and leaves the other hostnames' lists alone. */
    method SweepAlone(h: nat, reply: seq<Sockaddr>)
      requires Around(h) && Ordered() && Marks(h) && h < |hostHeads| && Sorted(ReplyKeys(reply))
      modifies this`resolveUpdated, this`addressHead, this`hostHeads, hostHeads[h]`resolveDeleted
      ensures Around(h) && Ordered() && hostHeads == old(hostHeads)[h := hostHeads[h]]
      ensures forall a <- old(addressHead) :: a in addressHead
      ensures forall g :: 0 <= g < |hostHeads| && g != h ==> Unmarked(hostHeads[g]) == old(Unmarked(hostHeads[g]))
      ensures var olds := old(hostHeads[h]);
          Matches(hostHeads[h], Diff(Keys(olds), ReplyKeys(reply), 0, 0), olds, reply, ports[h])
      ensures resolveUpdated == (old(resolveUpdated) || Keys(old(hostHeads[h])) != ReplyKeys(reply))
    {
      hide Merged, InOrder, Served, Pools, Handles, Marks, Matches;
      ghost var heads, list := hostHeads, addressHead;
      Sweep(h, reply);
      OldsStay(hostHeads[h], heads[h], reply, ports[h]);
      NothingUnlinked(list, heads, addressHead, hostHeads, h);
      forall g | 0 <= g < |heads| && g != h
        ensures Unmarked(heads[g]) == old(Unmarked(heads[g]))
      {
        OthersApart(list, heads, g, h);
        SameMarks(heads[g]);
      }
    }

    method TakeReply(h: nat, reply: seq<Sockaddr>)
      requires Linked() && Ordered() && Served() && Pools() && Handles() && Marks(h) && h < |hostHeads|
      requires Sorted(ReplyKeys(reply))
      modifies this`resolveUpdated, this`addressHead, this`hostHeads, hostHeads[h]`resolveDeleted
      ensures Linked() && Ordered() && Served() && Pools() && Handles() && Marks(h + 1)
      ensures hostHeads == old(hostHeads)[h := hostHeads[h]] && forall a <- old(addressHead) :: a in addressHead
      ensures forall g :: 0 <= g < |hostHeads| && g != h ==> Unmarked(hostHeads[g]) == old(Unmarked(hostHeads[g]))
      ensures Keys(Unmarked(hostHeads[h])) == ReplyKeys(reply)
      ensures resolveUpdated == (old(resolveUpdated) || Keys(old(hostHeads[h])) != ReplyKeys(reply))
      ensures Merged(Unmarked(hostHeads[h]), old(hostHeads[h]), reply, ports[h])
    {
      ghost var olds := hostHeads[h];
      SweepAlone(h, reply);
      SweptListIsTheReply(hostHeads[h], olds, reply, ports[h]);
      SweptListIsMerged(hostHeads[h], olds, reply, ports[h]);
    }

    lemma MarksGrow(n: nat)
      requires Marks(n)
      ensures Marks(n + 1)
    {
    }

    lemma RoundIsOver(h: nat)
      requires Valid() && resolveIndex == 0 && h < |hostHeads|
      ensures Unmarked(hostHeads[h]) == hostHeads[h]
    {
      OfMembers(addressHead, h);
      NothingMarked(hostHeads[h]);
    }

    // ---------- deferred freeing ----------

    /** Half-way through the deferred list. */
    ghost predicate Freeing(kept: seq<Address>, rest: seq<Address>)
      reads this, addressHead, deferred, kept
    {
      && Linked() && Pools() && Handles() && deferred == kept + rest
      && forall a <- kept :: a.active != [] || a.idle != []
    }

    /** Free every deleted address without connections. */
    method DeferFree()
      requires Linked() && Pools() && Handles()
      modifies this`deferred, this`freed
      ensures Linked() && Pools() && Handles()
      ensures forall a <- deferred :: a in old(deferred) && (a.active != [] || a.idle != [])
      ensures forall a <- freed :: a in old(freed) || (a in old(deferred) && a.active == [] && a.idle == [])
      ensures forall a <- old(deferred) :: a in deferred || a in freed
    {
      var rest := deferred;
      ghost var kept := [];
      while rest != []
        invariant Freeing(kept, rest)
        invariant forall a <- deferred :: a in old(deferred)
        invariant forall a <- freed :: a in old(freed) || (a in old(deferred) && a.active == [] && a.idle == [])
        invariant forall a <- old(deferred) :: a in deferred || a in freed
      {
        kept := FreeOne(kept, rest);
        rest := rest[1..];
      }
    }

    method FreeOne(ghost kept: seq<Address>, rest: seq<Address>) returns (ghost kept2: seq<Address>)
      requires Freeing(kept, rest) && rest != []
      modifies this`deferred, this`freed
      ensures Freeing(kept2, rest[1..])
      ensures if rest[0].active == [] && rest[0].idle == []
              then deferred == Without(old(deferred), rest[0]) && freed == old(freed) + {rest[0]}
              else deferred == old(deferred) && freed == old(freed)
      ensures forall a :: a in deferred <==> a in old(deferred) && !(a == rest[0] && a.active == [] && a.idle == [])
    {
      var a := rest[0];
      assert rest == [a] + rest[1..];
      assert deferred == kept + [a] + rest[1..] && deferred[|kept|] == a;
      OnceMiddle(kept, a, rest[1..]);
      WithoutAt(kept, a, rest[1..]);
      WithoutMembers(deferred, a);
      if a.active == [] && a.idle == [] {
        deferred := Without(deferred, a);
        freed := freed + {a};
        kept2 := kept;
      } else {
        kept2 := kept + [a];
      }
    }

    /** The resolve timer: nothing while a round is on; else free what can be freed and start a round. */
    method Timer() returns (query: Option<nat>, woken: seq<nat>)
      requires Valid()
      modifies this`addressHead, this`hostHeads, this`deferred, this`addressNum, this`table,
               this`resolveIndex, this`resolveUpdated, this`waitHead, this`freed
      ensures Valid() && |hostHeads| == old(|hostHeads|)
      ensures forall a <- freed :: a in old(freed) || (a in old(deferred) && a.active == [] && a.idle == [])
      ensures forall a <- old(deferred) :: a in deferred || a in freed
      ensures old(resolveIndex) == 0 ==> forall a <- old(deferred) :: a.active == [] && a.idle == [] ==> a in freed
      ensures forall a <- old(addressHead) :: a in addressHead || a in deferred
      ensures forall g :: 0 <= g < |hostHeads| ==> Unmarked(hostHeads[g]) == Unmarked(old(hostHeads)[g])
      ensures old(resolveIndex) != 0 ==> query == None && unchanged(this)
      ensures query.Some? ==>
          && resolveIndex == query.value + 1 && IsNext(0, query.value)
          && unchanged(`addressHead, `hostHeads, `addressNum, `table, `resolveUpdated, `waitHead)
      ensures old(resolveIndex) == 0 && (exists g :: 0 <= g < |needResolved| && needResolved[g]) ==> query.Some?
      ensures Roused(old(resolveIndex) == 0 && query == None && old(resolveUpdated), woken, old(waitHead), old(table))
    {
      if resolveIndex != 0 {
        return None, [];
      }
      DeferFree();
      query, woken := ResolveHostname();
    }

    // ---------- requests ----------

    /** The address that a pick chooses, if any. */
    ghost function Picked(pick: Option<nat>): set<Address>
      requires addressNum > 0 && pick.Some? ==> pick.value < |table|
      reads this`addressNum, this`table
    {
      if addressNum > 0 && pick.Some? then {table[pick.value]} else {}
    }

    /** `pick` is the load balancer's choice, an index into the table it was last built from. */
    method GetConnection(r: nat, pick: Option<nat>, connectOk: bool) returns (got: Got)
      requires Valid() && (addressNum > 0 && pick.Some? ==> pick.value < |table|)
      modifies this`waitHead, this`held, Picked(pick)`idle, Picked(pick)`idleNum, Picked(pick)`active,
               Picked(pick)`requests, Picked(pick)`serial
      ensures Valid()
      ensures got == Again <==> addressNum == 0
      ensures got == Error <==> addressNum > 0 && (pick == None || (old(table[pick.value].idle) == [] && !connectOk))
      ensures waitHead == old(waitHead) +
          if addressNum == 0 && r !in old(waitHead) && r !in elsewhere then [r] else []
      ensures got.Connected? ==>
          var a := got.handle.address;
          && a in addressHead && a !in freed && pick.Some? && a == table[pick.value]
          && got.handle !in old(held) && held == old(held) + {got.handle}
          && a.requests == old(table[pick.value].requests)[got.handle.connection := r]
          && a.active == old(table[pick.value].active) + [got.handle.connection]
          && a.idle == (if old(table[pick.value].idle) != [] then old(table[pick.value].idle)[1..] else [])
      ensures !got.Connected? ==> held == old(held) && forall a <- Picked(pick) :: unchanged(a)
    {
      if addressNum == 0 {
        if r !in waitHead && r !in elsewhere {
          OnceAppend(waitHead, r);
          waitHead := waitHead + [r];
        }
        return Again;
      }
      if pick == None {
        return Error;
      }
      assert table[pick.value] in table;
      got := Connect(table[pick.value], r, connectOk);
    }

    /** Reuse or open a connection to the picked address. */
    method Connect(address: Address, r: nat, connectOk: bool) returns (got: Got)
      requires Valid() && address in addressHead
      modifies this`held, address`idle, address`idleNum, address`active, address`requests, address`serial
      ensures Valid()
      ensures got == if old(address.idle) != [] then Connected(Handle(address, old(address.idle)[0]))
                     else if connectOk then Connected(Handle(address, old(address.serial))) else Error
      ensures got.Connected? ==>
          && got.handle !in old(held) && held == old(held) + {got.handle}
          && address.requests == old(address.requests)[got.handle.connection := r]
          && address.active == old(address.active) + [got.handle.connection]
          && address.idle == if old(address.idle) != [] then old(address.idle)[1..] else []
      ensures !got.Connected? ==> held == old(held) && unchanged(address)
    {
      hide Linked, Ordered, Served, Waiting, Marks;
      assert address.Valid(idleMax);
      var c := address.Get(r, connectOk, idleMax);
      if c == None {
        return Error;
      }
      got := Connected(Handle(address, c.value));
      held := held + {got.handle};
    }

    /** A request gives its connection back. */
    method Release(x: Handle, error: bool, clean: bool, closed: bool, now: nat)
      requires Valid() && x in held
      modifies this`held, x.address`failure, x.address`idle, x.address`idleNum, x.address`active, x.address`requests
      ensures Valid() && held == old(held) - {x}
      ensures x.address.failure == Health.Note(old(x.address.failure), !error, limits, now)
      ensures x.address.active == Without(old(x.address.active), x.connection)
      ensures var idle := old(x.address.idle);
          x.address.idle == if error || !clean || closed then idle
                            else (if |idle| > idleMax then idle[1..] else idle) + [x.connection]
    {
      hide Linked, Ordered, Served, Waiting, Marks;
      assert x.address.Valid(idleMax);
      WithoutMembers(x.address.active, x.connection);
      x.address.Release(x.connection, error, clean, closed, limits, idleMax, now);
      held := held - {x};
    }

    /** Close the failed connection and get another. The address is marked down for the time of the
        pick: `pick` is the load balancer's choice, given whether it finds that address pickable. */
    method Retry(x: Handle, r: nat, error: bool, closed: bool, now: nat, timeout: nat, filter: bool,
                 pick: bool -> Option<nat>, connectOk: bool) returns (got: Got)
      requires Valid() && x in held && forall b :: addressNum > 0 && pick(b).Some? ==> pick(b).value < |table|
      modifies this`waitHead, this`held, x.address`failure, x.address`healthcheck,
               ({x.address} + Picked(pick(false)))`idle, ({x.address} + Picked(pick(false)))`idleNum,
               ({x.address} + Picked(pick(false)))`active, ({x.address} + Picked(pick(false)))`requests,
               Picked(pick(false))`serial
      ensures Valid()
      ensures held == old(held) - {x} + (if got.Connected? then {got.handle} else {})
      ensures got == Again <==> addressNum == 0
      ensures waitHead == old(waitHead) +
          if addressNum == 0 && r !in old(waitHead) && r !in elsewhere then [r] else []
      ensures got.Connected? ==>
          pick(false).Some? && got.handle.address == table[pick(false).value] && got.handle.address in addressHead
      ensures addressNum > 0 && pick(false).Some? && connectOk ==> got.Connected?
      ensures x.connection !in x.address.idle
      ensures x.address.failure == Health.Note(old(x.address.failure), !error, limits, now)
      ensures x.address.healthcheck == old(x.address.healthcheck).(downTime :=
          if old(x.address.healthcheck.downTime) == 1 then 0 else old(x.address.healthcheck.downTime))
    {
      hide Linked, Ordered, Served, Pools, Handles, Marks, Waiting;
      NotPooled(x);
      Release(x, error, false, closed, now);
      got := PickElsewhere(x.address, r, now, timeout, filter, pick, connectOk);
    }

    lemma NotPooled(x: Handle)
      requires Valid() && x in held
      ensures x.connection !in x.address.idle
    {
      assert x.address.Valid(idleMax);
    }

    /** The pick of a retry, while the address of the failed connection is marked down. */
    method PickElsewhere(failed: Address, r: nat, now: nat, timeout: nat, filter: bool,
                         pick: bool -> Option<nat>, connectOk: bool) returns (got: Got)
      requires Valid() && forall b :: addressNum > 0 && pick(b).Some? ==> pick(b).value < |table|
      modifies this`waitHead, this`held, failed`healthcheck, Picked(pick(false))`idle, Picked(pick(false))`idleNum,
               Picked(pick(false))`active, Picked(pick(false))`requests, Picked(pick(false))`serial
      ensures Valid()
      ensures held == old(held) + (if got.Connected? then {got.handle} else {})
      ensures got == Again <==> addressNum == 0
      ensures waitHead == old(waitHead) +
          if addressNum == 0 && r !in old(waitHead) && r !in elsewhere then [r] else []
      ensures got.Connected? ==>
          pick(false).Some? && got.handle.address == table[pick(false).value] && got.handle.address in addressHead
      ensures addressNum > 0 && pick(false).Some? && connectOk ==> got.Connected?
      ensures failed.idle == old(failed.idle) || (old(failed.idle) != [] && failed.idle == old(failed.idle)[1..])
      ensures failed.healthcheck == old(failed.healthcheck).(downTime :=
          if old(failed.healthcheck.downTime) == 1 then 0 else old(failed.healthcheck.downTime))
    {
      hide Linked, Ordered, Served, Pools, Handles, Marks, Waiting;
      if failed.healthcheck.downTime == 0 {
        SetCheckDown(failed, 1);
      }
      ghost var idle := failed.idle;
      var choice := pick(failed.IsPickable(now, timeout, filter));
      got := GetConnection(r, choice, connectOk);
      assert failed in Picked(choice) && got.Connected? ==> got.handle.address == failed;
      assert failed !in Picked(choice) ==> failed.idle == idle;
      if failed.healthcheck.downTime == 1 {
        SetCheckDown(failed, 0);
      }
    }

    method SetCheckDown(address: Address, downTime: nat)
      requires Valid()
      modifies address`healthcheck
      ensures Valid() && address.healthcheck == old(address.healthcheck).(downTime := downTime)
    {
      address.healthcheck := address.healthcheck.(downTime := downTime);
    }

    /** The list node of a request goes on another list: it is a new subrequest, on its father's list,
        or it waits for a sub-configuration. */
    method LinkElsewhere(r: nat)
      requires Valid() && r !in waitHead
      modifies this`elsewhere
      ensures Valid() && elsewhere == old(elsewhere) + {r}
    {
      elsewhere := elsewhere + {r};
    }

    method UnlinkElsewhere(r: nat)
      requires Valid()
      modifies this`elsewhere
      ensures Valid() && elsewhere == old(elsewhere) - {r}
    {
      elsewhere := elsewhere - {r};
    }

    /** A waiting request is closed. */
    method CloseWaiting(r: nat)
      requires Valid() && r in waitHead
      modifies this`waitHead
      ensures Valid() && waitHead == Without(old(waitHead), r) && r !in waitHead
    {
      WithoutMembers(waitHead, r);
      waitHead := Without(waitHead, r);
    }

    /** An event on a pooled connection closes it. */
    method CloseIdle(address: Address, c: nat)
      requires Valid() && (address in addressHead || address in deferred) && c in address.idle
      modifies address`idle, address`idleNum, address`active, address`requests
      ensures Valid()
      ensures address.idle == Without(old(address.idle), c) && address.active == old(address.active)
    {
      assert address.Valid(idleMax);
      address.CloseIdle(c, idleMax);
    }

    // ---------- start ----------

    constructor (idleMax: nat, needResolved: seq<bool>, ports: seq<nat>, limits: Health.Limits)
      requires |needResolved| == |ports|
      ensures Valid() && addressHead == [] && addressNum == 0 && held == {} && freed == {} && resolveIndex == 0
      ensures this.needResolved == needResolved && this.ports == ports && !resolveUpdated
      ensures hostHeads == seq(|needResolved|, _ => []) && waitHead == [] && elsewhere == {} && deferred == []
    {
      this.idleMax, this.needResolved, this.ports, this.limits := idleMax, needResolved, ports, limits;
      addressHead, deferred, table, waitHead := [], [], [], [];
      hostHeads := seq(|needResolved|, _ => []);
      addressNum, resolveIndex, resolveUpdated := 0, 0, false;
      freed, held, elsewhere := {}, {}, {};
    }

    /** Link the addresses known at configuration time: given literally, or resolved once. */
    method Init(initial: seq<seq<Sockaddr>>)
      requires Valid() && addressHead == [] && addressNum == 0 && resolveIndex == 0 && !resolveUpdated
      requires |initial| == |needResolved| && forall h :: 0 <= h < |initial| ==> Sorted(ReplyKeys(initial[h]))
      modifies this`addressHead, this`hostHeads, this`addressNum, this`table
      ensures Valid() && table == addressHead && addressNum == |addressHead| && |hostHeads| == |initial|
      ensures forall h :: 0 <= h < |initial| ==> AllFit(hostHeads[h], initial[h], ports[h])
    {
      var h := 0;
      while h < |initial|
        invariant 0 <= h <= |initial| && Starting(initial, h)
      {
        InitHost(initial, h);
        h := h + 1;
      }
      table := addressHead;
    }

    /** The hostnames before `h` are linked, the others still empty. */
    ghost predicate Starting(initial: seq<seq<Sockaddr>>, h: nat)
      reads this, addressHead, deferred
    {
      && Linked() && Ordered() && Pools() && Handles() && Marks(0) && resolveIndex == 0
      && |initial| == |hostHeads| && addressNum == |addressHead|
      && (forall g :: 0 <= g < h && g < |initial| ==> AllFit(hostHeads[g], initial[g], ports[g]))
      && (forall g :: h <= g < |hostHeads| ==> hostHeads[g] == [])
    }

    method InitHost(initial: seq<seq<Sockaddr>>, h: nat)
      requires Starting(initial, h) && h < |initial| && Sorted(ReplyKeys(initial[h]))
      modifies this`addressHead, this`hostHeads, this`addressNum
      ensures Starting(initial, h + 1)
    {
      AppendAll(h, initial[h]);
      FitIsSorted(hostHeads[h], initial[h], ports[h]);
    }

    ghost predicate Growing()
      reads this, addressHead, deferred
    {
      Linked() && Pools() && Handles() && Marks(0) && addressNum == |addressHead|
    }

    method AppendAll(h: nat, reply: seq<Sockaddr>)
      requires Growing() && h < |hostHeads| && hostHeads[h] == []
      modifies this`addressHead, this`hostHeads, this`addressNum
      ensures Growing() && |hostHeads| == old(|hostHeads|)
      ensures hostHeads == old(hostHeads)[h := hostHeads[h]]
      ensures AllFit(hostHeads[h], reply, ports[h])
    {
      for k := 0 to |reply|
        invariant Growing() && |hostHeads| == old(|hostHeads|)
        invariant hostHeads == old(hostHeads)[h := hostHeads[h]]
        invariant AllFit(hostHeads[h], reply[..k], ports[h])
      {
        AppendOne(h, reply, k);
      }
      assert reply[..|reply|] == reply;
    }

    method AppendOne(h: nat, reply: seq<Sockaddr>, k: nat)
      requires Growing() && h < |hostHeads| && k < |reply| && AllFit(hostHeads[h], reply[..k], ports[h])
      modifies this`addressHead, this`hostHeads, this`addressNum
      ensures Growing() && |hostHeads| == old(|hostHeads|)
      ensures hostHeads == old(hostHeads)[h := hostHeads[h]]
      ensures AllFit(hostHeads[h], reply[..k + 1], ports[h])
    {
      hide Of, InsertBefore, Consistent;
      var a := AddressAdd(h, reply[k], None);
      AtTheEnd(old(addressHead), a);
      AtTheEnd(old(hostHeads)[h], a);
      addressNum := addressNum + 1;
    }
  }

  /** A subrequest asks for a connection before the first address is known. It is told to come again,
      but its list node is on its father's list: the end of the round does not wake it. */
  method SubrequestForgotten(limits: Health.Limits) returns (u: Upstream, got: Got, woken: seq<nat>)
    ensures fresh(u) && u.Valid() && got == Again && u.addressHead != [] && woken == [] && u.waitHead == []
  {
    hide Merged, InOrder, Keys, ReplyKeys, Upstream.Linked, Upstream.Ordered, Upstream.Pools, Upstream.Handles,
      Upstream.Marks;
    u := FirstQuery(7, limits);
    got := u.GetConnection(7, None, true);
    OneReply(Inet(1.0, 80));
    var query;
    query, woken := u.OnRead(Some([Inet(1.0, 80)]));
    HeadsAreListed(u);
  }

  /** The only hostname is being resolved for the first time, and `r` is a subrequest. */
  method FirstQuery(r: nat, limits: Health.Limits) returns (u: Upstream)
    ensures fresh(u) && u.Valid() && u.resolveIndex == 1 && u.hostHeads == [[]] && u.addressHead == []
    ensures u.addressNum == 0 && u.waitHead == [] && u.elsewhere == {r} && u.needResolved == [true]
  {
    hide Upstream.Linked, Upstream.Ordered, Upstream.Pools, Upstream.Handles, Upstream.Marks;
    u := new Upstream(0, [true], [0], limits);
    u.LinkElsewhere(r);
    assert u.needResolved[0];
    var query, none := u.Timer();
  }

  lemma HeadsAreListed(u: Upstream)
    requires u.Valid() && |u.hostHeads| > 0 && u.hostHeads[0] != []
    ensures u.addressHead != []
  {
    OfMembers(u.addressHead, 0);
    assert u.hostHeads[0][0] in u.hostHeads[0];
  }

  lemma OneReply(s: Sockaddr)
    ensures ReplyKeys([s]) == [s.key] && Sorted(ReplyKeys([s])) && Keys([]) == []
    ensures forall list :: Keys(list) == ReplyKeys([s]) ==> list != []
  {
  }

  lemma AtTheEnd(list: seq<Address>, a: Address)
    ensures InsertBefore(list, None, a) == list + [a]
  {
    InsertAt(list, [], None, a);
    assert list + [] == list && list + [a] + [] == list + [a];
  }

  lemma StepTaken(steps: seq<Step>, s: Step, olds: seq<real>, news: seq<real>, i: nat, p: nat, i2: nat, p2: nat)
    requires i <= |olds| && p <= |news| && i2 <= |olds| && p2 <= |news|
    requires Diff(olds, news, i, p) == [s] + Diff(olds, news, i2, p2)
    ensures (steps + [s]) + Diff(olds, news, i2, p2) == steps + Diff(olds, news, i, p)
    ensures Changed(steps + [s]) <==> Changed(steps) || !s.Keep?
  {
    assert (steps + [s])[|steps|] == s;
    assert forall t <- steps :: t in steps + [s];
  }
}
