/** The weighted random load balancer: one array that is at the same time a prefix-sum table
    over the weights and a partition into available (front) and not-available (back) addresses. */
module RandomPick {
  import opened Common

  datatype Address = Address(id: nat, weight: real)

  // ---------- weights and the intervals they own ----------

  /** Sum of the first `i` weights. */
  function Prefix(order: seq<Address>, i: nat): real
    requires i <= |order|
  {
    if i == 0 then 0.0 else Prefix(order, i - 1) + order[i - 1].weight
  }

  ghost predicate Positive(order: seq<Address>) {
    forall i :: 0 <= i < |order| ==> order[i].weight > 0.0
  }

  /** Address `i` owns the point `x` of the weight axis. */
  predicate Owns(order: seq<Address>, i: nat, x: real) {
    i < |order| && Prefix(order, i) <= x < Prefix(order, i + 1)
  }

  lemma {:induction false} PrefixIncreases(order: seq<Address>, i: nat, j: nat)
    requires Positive(order) && i < j <= |order|
    ensures Prefix(order, i) < Prefix(order, j)
  {
    if i + 1 < j {
      PrefixIncreases(order, i, j - 1);
    }
  }

  lemma OwnerIsUnique(order: seq<Address>, i: nat, j: nat, x: real)
    requires Positive(order) && Owns(order, i, x) && Owns(order, j, x)
    ensures i == j
  {
    if i + 1 < j {
      PrefixIncreases(order, i + 1, j);
    } else if j + 1 < i {
      PrefixIncreases(order, j + 1, i);
    }
  }

  /** The owner of `x` among the first `limit` addresses, found by the obvious linear scan. */
  function Owner(order: seq<Address>, limit: nat, x: real): (i: nat)
    requires limit <= |order| && 0.0 <= x < Prefix(order, limit)
    ensures i < limit && Owns(order, i, x)
  {
    if x >= Prefix(order, limit - 1) then limit - 1 else Owner(order, limit - 1, x)
  }

  /** Exchanging i < j shifts exactly the sums in (i, j] by the weight difference. */
  lemma {:induction false} SwapShiftsSums(order: seq<Address>, i: nat, j: nat, k: nat)
    requires i < j < |order| && k <= |order|
    ensures Prefix(Swap(order, i, j), k)
         == Prefix(order, k) + (if i < k <= j then order[j].weight - order[i].weight else 0.0)
  {
    if k > 0 {
      SwapShiftsSums(order, i, j, k - 1);
    }
  }

  lemma {:induction false} SwapShiftsAllSums(order: seq<Address>, i: nat, j: nat)
    requires i < j < |order|
    ensures forall k :: 0 <= k <= |order| ==>
        Prefix(Swap(order, i, j), k)
        == Prefix(order, k) + (if i < k <= j then order[j].weight - order[i].weight else 0.0)
  {
    forall k | 0 <= k <= |order|
      ensures Prefix(Swap(order, i, j), k)
           == Prefix(order, k) + (if i < k <= j then order[j].weight - order[i].weight else 0.0)
    {
      SwapShiftsSums(order, i, j, k);
    }
  }

  /** Which side of slot `m` the owner of `x` lies on is decided by the two sums around `m`. */
  lemma OwnerSide(order: seq<Address>, m: nat, target: nat, x: real)
    requires Positive(order) && m < |order| && Owns(order, target, x)
    ensures x >= Prefix(order, m + 1) <==> target > m
    ensures x < Prefix(order, m) <==> target < m
  {
    if target + 1 < m {
      PrefixIncreases(order, target + 1, m);
    } else if m + 1 < target {
      PrefixIncreases(order, m + 1, target);
    }
    PrefixIncreases(order, m, m + 1);
    PrefixIncreases(order, target, target + 1);
  }

  // ---------- what one pick does, on values ----------

  datatype Outcome = Outcome(address: Address, order: seq<Address>, available: nat, draws: nat)

  /** The `n`th random number scaled to a total: any point in [0, total). */
  type Draws = (nat, real) -> real

  ghost predicate InRange(draw: Draws) {
    forall n, total :: 0.0 < total ==> 0.0 <= draw(n, total) < total
  }

  /** Scaling random numbers of [0, 1) by the total, as the code does, is such a source. */
  lemma ScalingIsInRange(u: nat -> real, draw: Draws)
    requires forall n :: 0.0 <= u(n) < 1.0
    requires forall n, total :: draw(n, total) == u(n) * total
    ensures InRange(draw)
  {
    forall n: nat, total: real | 0.0 < total
      ensures 0.0 <= draw(n, total) < total
    {
      assert draw(n, total) == u(n) * total;
      ScaledDraw(u(n), total);
    }
  }

  lemma ScaledDraw(u: real, total: real)
    requires 0.0 <= u < 1.0 && 0.0 < total
    ensures 0.0 <= u * total < total
  {
  }

  /** Index hit by draw `n` among the first `limit` addresses; the default 0 is for points outside
      the table, which `HitOwns` rules out. */
  ghost function Hit(order: seq<Address>, limit: nat, draw: Draws, n: nat): (i: nat)
    requires 0 < limit <= |order|
    ensures i < limit
  {
    var x := draw(n, Prefix(order, limit));
    if 0.0 <= x < Prefix(order, limit) then Owner(order, limit, x) else 0
  }

  lemma HitOwns(order: seq<Address>, limit: nat, draw: Draws, n: nat)
    requires Positive(order) && 0 < limit <= |order| && InRange(draw)
    ensures Owns(order, Hit(order, limit, draw, n), draw(n, Prefix(order, limit)))
  {
    PrefixIncreases(order, 0, limit);
  }

  /** Draws restricted to the available part: keep a pickable hit, expire any other. */
  ghost function Retry(order: seq<Address>, available: nat, last: Address, draw: Draws,
                       n: nat, pickable: Address -> bool): Outcome
    requires available <= |order|
    decreases available
  {
    if available == 0 then Outcome(last, order, 0, n)
    else
      var i := Hit(order, available, draw, n);
      if pickable(order[i]) then Outcome(order[i], order, available, n + 1)
      else Retry(Swap(order, i, available - 1), available - 1, order[i], draw, n + 1, pickable)
  }

  ghost function Choose(order: seq<Address>, available: nat, draw: Draws,
                        up: Address -> bool, pickable: Address -> bool): Outcome
    requires available <= |order| && 0 < |order|
  {
    var i := Hit(order, |order|, draw, 0);
    if i < available then
      if pickable(order[i]) then Outcome(order[i], order, available, 1)
      else Retry(Swap(order, i, available - 1), available - 1, order[i], draw, 1, pickable)
    else if up(order[i]) then Outcome(order[i], Swap(order, available, i), available + 1, 1)
    else if pickable(order[i]) then Outcome(order[i], order, available, 1)
    else Retry(order, available, order[i], draw, 1, pickable)
  }

  // ---------- what that means for a caller ----------

  /** From `(order, available)` to `(order2, available2)` the table only moved unpickable
      addresses out of the available part; the part behind it is untouched. */
  ghost predicate OnlyExpired(order: seq<Address>, available: nat, order2: seq<Address>, available2: nat,
                              pickable: Address -> bool) {
    && available2 <= available <= |order| == |order2|
    && multiset(order2) == multiset(order)
    && multiset(order2[..available]) == multiset(order[..available])
    && order2[available..] == order[available..]
    && forall k :: available2 <= k < available ==> !pickable(order2[k])
  }

  lemma ExpireStep(order: seq<Address>, i: nat, available: nat, pickable: Address -> bool)
    requires i < available <= |order| && !pickable(order[i])
    ensures OnlyExpired(order, available, Swap(order, i, available - 1), available - 1, pickable)
  {
    var order2 := Swap(order, i, available - 1);
    SwapKeepsMultiset(order, i, available - 1);
    SwapKeepsMultiset(order[..available], i, available - 1);
    assert order2[..available] == Swap(order[..available], i, available - 1);
  }

  lemma ExpireTrans(o1: seq<Address>, a1: nat, o2: seq<Address>, a2: nat, o3: seq<Address>, a3: nat,
                    pickable: Address -> bool)
    requires OnlyExpired(o1, a1, o2, a2, pickable) && OnlyExpired(o2, a2, o3, a3, pickable)
    ensures OnlyExpired(o1, a1, o3, a3, pickable)
  {
    assert o2[..a1] == o2[..a2] + o2[a2..a1] && o3[..a1] == o3[..a2] + o3[a2..a1];
    assert o3[a2..a1] == o3[a2..][..a1 - a2] && o2[a2..a1] == o2[a2..][..a1 - a2];
    assert o3[a1..] == o3[a2..][a1 - a2..] && o2[a1..] == o2[a2..][a1 - a2..];
    forall k | a2 <= k < a1
      ensures o3[k] == o2[k]
    {
      assert o3[k] == o3[a2..][k - a2] && o2[k] == o2[a2..][k - a2];
    }
  }

  /** How a retry that starts with the unpickable `last` may end. */
  ghost predicate Settled(order: seq<Address>, available: nat, last: Address, r: Outcome, pickable: Address -> bool) {
    && OnlyExpired(order, available, r.order, r.available, pickable)
    && (pickable(r.address) <==> r.available > 0)
    && (r.address == last || r.address in order[..available])
  }

  lemma ExpireThenSettle(order: seq<Address>, i: nat, available: nat, last: Address, r: Outcome,
                         pickable: Address -> bool)
    requires i < available <= |order| && !pickable(order[i])
    requires Settled(Swap(order, i, available - 1), available - 1, order[i], r, pickable)
    ensures Settled(order, available, last, r, pickable)
  {
    var order2 := Swap(order, i, available - 1);
    ExpireStep(order, i, available, pickable);
    ExpireTrans(order, available, order2, available - 1, r.order, r.available, pickable);
    if r.address in order2[..available - 1] {
      var k :| 0 <= k < available - 1 && order2[k] == r.address;
      assert r.address == order[..available][if k == i then available - 1 else k];
    } else {
      assert r.address == order[..available][i];
    }
  }

  lemma {:induction false} RetrySettles(order: seq<Address>, available: nat, last: Address,
                                        draw: Draws, n: nat, pickable: Address -> bool)
    requires available <= |order| && !pickable(last)
    ensures var r := Retry(order, available, last, draw, n, pickable);
            && Settled(order, available, last, r, pickable)
            && r.draws <= n + available
    decreases available
  {
    hide Hit, Prefix;
    if available > 0 {
      var i := Hit(order, available, draw, n);
      if !pickable(order[i]) {
        hide Settled;
        var order2 := Swap(order, i, available - 1);
        RetrySettles(order2, available - 1, order[i], draw, n + 1, pickable);
        var r := Retry(order2, available - 1, order[i], draw, n + 1, pickable);
        ExpireThenSettle(order, i, available, last, r, pickable);
      }
    }
  }

  /** What a caller may rely on: the result is pickable unless the whole available part was
      unpickable, in which case that part is empty afterwards; apart from one recovered
      address nothing enters the available part, and only unpickable addresses leave it. */
  ghost predicate GoodPick(order: seq<Address>, available: nat, r: Outcome, up: Address -> bool,
                           pickable: Address -> bool)
    requires available <= |order|
  {
    && |r.order| == |order| && r.available <= |order|
    && multiset(r.order) == multiset(order)
    && r.address in order
    && (!pickable(r.address) ==> r.available == 0 && forall k :: 0 <= k < available ==> !pickable(order[k]))
    && (|| OnlyExpired(order, available, r.order, r.available, pickable)
        || Recovers(order, available, r, up))
  }

  ghost predicate Recovers(order: seq<Address>, available: nat, r: Outcome, up: Address -> bool) {
    exists i :: available <= i < |order| && up(order[i]) && r.address == order[i]
             && r.order == Swap(order, available, i) && r.available == available + 1
  }

  lemma SettledIsGood(order: seq<Address>, available: nat, last: Address, r: Outcome,
                      up: Address -> bool, pickable: Address -> bool)
    requires Settled(order, available, last, r, pickable) && last in order
    ensures GoodPick(order, available, r, up, pickable)
  {
    if r.available == 0 {
      forall k | 0 <= k < available
        ensures !pickable(order[k])
      {
        assert order[..available][k] in multiset(r.order[..available]);
      }
    }
  }

  lemma KeepIsGood(order: seq<Address>, available: nat, i: nat, up: Address -> bool, pickable: Address -> bool)
    requires available <= |order| && i < |order| && pickable(order[i])
    ensures GoodPick(order, available, Outcome(order[i], order, available, 1), up, pickable)
  {
  }

  lemma RecoverIsGood(order: seq<Address>, available: nat, i: nat, up: Address -> bool, pickable: Address -> bool)
    requires available <= i < |order| && up(order[i]) && pickable(order[i])
    ensures GoodPick(order, available, Outcome(order[i], Swap(order, available, i), available + 1, 1), up, pickable)
  {
    SwapKeepsMultiset(order, available, i);
    assert Recovers(order, available, Outcome(order[i], Swap(order, available, i), available + 1, 1), up);
  }

  lemma RetryIsGood(order: seq<Address>, available: nat, last: Address, draw: Draws,
                    up: Address -> bool, pickable: Address -> bool)
    requires available <= |order| && last in order && !pickable(last)
    ensures var r := Retry(order, available, last, draw, 1, pickable);
            GoodPick(order, available, r, up, pickable) && r.draws <= 1 + available
  {
    RetrySettles(order, available, last, draw, 1, pickable);
    SettledIsGood(order, available, last, Retry(order, available, last, draw, 1, pickable), up, pickable);
  }

  lemma ExpireIsGood(order: seq<Address>, available: nat, i: nat, draw: Draws,
                     up: Address -> bool, pickable: Address -> bool)
    requires i < available <= |order| && !pickable(order[i])
    ensures var r := Retry(Swap(order, i, available - 1), available - 1, order[i], draw, 1, pickable);
            GoodPick(order, available, r, up, pickable) && r.draws <= available
  {
    var order2 := Swap(order, i, available - 1);
    RetrySettles(order2, available - 1, order[i], draw, 1, pickable);
    var r := Retry(order2, available - 1, order[i], draw, 1, pickable);
    ExpireThenSettle(order, i, available, order[i], r, pickable);
    SettledIsGood(order, available, order[i], r, up, pickable);
  }

  lemma PickGuarantee(order: seq<Address>, available: nat, draw: Draws,
                      up: Address -> bool, pickable: Address -> bool)
    requires available <= |order| && 0 < |order|
    requires forall a <- order :: up(a) ==> pickable(a)
    ensures GoodPick(order, available, Choose(order, available, draw, up, pickable), up, pickable)
    ensures Choose(order, available, draw, up, pickable).draws <= 1 + available
  {
    var i := Hit(order, |order|, draw, 0);
    if i >= available && up(order[i]) {
      RecoverIsGood(order, available, i, up, pickable);
    } else if pickable(order[i]) {
      KeepIsGood(order, available, i, up, pickable);
    } else if i < available {
      ExpireIsGood(order, available, i, draw, up, pickable);
    } else {
      RetryIsGood(order, available, order[i], draw, up, pickable);
    }
  }

  /** Shares: whatever permutation the table is in, the point drawn first selects address `i`
      exactly on an interval whose width is that address's weight. */
  lemma ShareIsWeight(order: seq<Address>, i: nat, draw: Draws)
    requires Positive(order) && i < |order| && InRange(draw)
    ensures Hit(order, |order|, draw, 0) == i
       <==> Prefix(order, i) <= draw(0, Prefix(order, |order|)) < Prefix(order, i) + order[i].weight
  {
    var x := draw(0, Prefix(order, |order|));
    HitOwns(order, |order|, draw, 0);
    if Owns(order, i, x) {
      OwnerIsUnique(order, i, Hit(order, |order|, draw, 0), x);
    }
  }

  lemma OwnerIsHit(order: seq<Address>, limit: nat, draw: Draws, n: nat, i: nat)
    requires Positive(order) && 0 < limit <= |order| && InRange(draw) && Owns(order, i, draw(n, Prefix(order, limit)))
    ensures Hit(order, limit, draw, n) == i
  {
    HitOwns(order, limit, draw, n);
    OwnerIsUnique(order, i, Hit(order, limit, draw, n), draw(n, Prefix(order, limit)));
  }

  /** The first draw decides: the address it falls on is the result if it is pickable, or if it has come back
      from behind the available part, which it then joins. Otherwise the retries begin, without it. */
  lemma FirstDrawDecides(order: seq<Address>, available: nat, draw: Draws, up: Address -> bool,
                         pickable: Address -> bool, i: nat)
    requires Positive(order) && available <= |order| && InRange(draw)
    requires Owns(order, i, draw(0, Prefix(order, |order|)))
    ensures var r := Choose(order, available, draw, up, pickable);
        && (i >= available && up(order[i]) ==>
              r == Outcome(order[i], order[available := order[i]][i := order[available]], available + 1, 1))
        && (i >= available && !up(order[i]) && pickable(order[i]) ==> r == Outcome(order[i], order, available, 1))
        && (i >= available && !up(order[i]) && !pickable(order[i]) ==>
              r == Retry(order, available, order[i], draw, 1, pickable))
        && (i < available && pickable(order[i]) ==> r == Outcome(order[i], order, available, 1))
        && (i < available && !pickable(order[i]) ==>
              r == Retry(order[i := order[available - 1]][available - 1 := order[i]], available - 1, order[i], draw, 1,
                         pickable))
  {
    OwnerIsHit(order, |order|, draw, 0, i);
    if i >= available {
      assert order[available := order[i]][i := order[available]] == Swap(order, available, i);
    } else {
      assert order[i := order[available - 1]][available - 1 := order[i]] == Swap(order, i, available - 1);
    }
  }

  /** So does every retry, among the available addresses. When there is none left, the last one is the result. */
  lemma RetryDecides(order: seq<Address>, available: nat, last: Address, draw: Draws, n: nat,
                     pickable: Address -> bool, i: nat)
    requires Positive(order) && available <= |order| && InRange(draw)
    ensures available == 0 ==> Retry(order, available, last, draw, n, pickable) == Outcome(last, order, 0, n)
    ensures 0 < available && Owns(order, i, draw(n, Prefix(order, available))) ==>
        && i < available
        && Retry(order, available, last, draw, n, pickable)
           == if pickable(order[i]) then Outcome(order[i], order, available, n + 1)
              else Retry(order[i := order[available - 1]][available - 1 := order[i]], available - 1, order[i], draw,
                         n + 1, pickable)
  {
    if 0 < available && Owns(order, i, draw(n, Prefix(order, available))) {
      OwnerIsHit(order, available, draw, n, i);
      assert order[i := order[available - 1]][available - 1 := order[i]] == Swap(order, i, available - 1);
    }
  }

  /** A pickable address is the result of the first draw exactly on an interval as wide as its weight. */
  lemma ChosenOnItsShare(order: seq<Address>, available: nat, draw: Draws, up: Address -> bool,
                         pickable: Address -> bool, i: nat)
    requires Positive(order) && available <= |order| && InRange(draw) && i < |order|
    requires pickable(order[i]) && forall a <- order :: up(a) ==> pickable(a)
    requires forall j :: 0 <= j < |order| && j != i ==> order[j] != order[i]
    ensures var r := Choose(order, available, draw, up, pickable);
        r.draws == 1 && r.address == order[i]
        <==> Prefix(order, i) <= draw(0, Prefix(order, |order|)) < Prefix(order, i) + order[i].weight
  {
    var x := draw(0, Prefix(order, |order|));
    HitOwns(order, |order|, draw, 0);
    var k := Hit(order, |order|, draw, 0);
    FirstDrawDecides(order, available, draw, up, pickable, k);
    FirstFails(order, available, draw, up, pickable, k);
    assert Owns(order, i, x) <==> Prefix(order, i) <= x < Prefix(order, i) + order[i].weight;
    if Owns(order, i, x) {
      OwnerIsUnique(order, i, k, x);
    }
    hide Choose, Retry, Prefix, Hit;
  }

  lemma FirstFails(order: seq<Address>, available: nat, draw: Draws, up: Address -> bool,
                   pickable: Address -> bool, k: nat)
    requires Positive(order) && available <= |order| && InRange(draw) && k < |order|
    requires Owns(order, k, draw(0, Prefix(order, |order|))) && forall a <- order :: up(a) ==> pickable(a)
    ensures var r := Choose(order, available, draw, up, pickable);
        !pickable(order[k]) ==> r.draws > 1 || r.address == order[k]
  {
    hide Choose, Retry, Prefix, Hit, Owns;
    FirstDrawDecides(order, available, draw, up, pickable, k);
    if !pickable(order[k]) {
      var left := if k < available then available - 1 else available;
      var rest := if k < available then order[k := order[available - 1]][available - 1 := order[k]] else order;
      RetryDecides(rest, left, order[k], draw, 1, pickable, 0);
      if left > 0 {
        RetryCounts(rest, left, order[k], draw, 1, pickable);
      }
    }
  }

  /** A retry that can draw does. */
  lemma RetryCounts(order: seq<Address>, available: nat, last: Address, draw: Draws, n: nat, pickable: Address -> bool)
    requires 0 < available <= |order|
    ensures Retry(order, available, last, draw, n, pickable).draws > n
    decreases available
  {
    var i := Hit(order, available, draw, n);
    if !pickable(order[i]) && available > 1 {
      RetryCounts(Swap(order, i, available - 1), available - 1, order[i], draw, n + 1, pickable);
    }
  }

  // ---------- the table itself ----------

  datatype Slot = Slot(hash: real, address: Option<Address>)

  class Context {
    var totalNum: nat
    var availableNum: nat
    var addresses: array<Slot>
    ghost var order: seq<Address>    // the addresses in table order
    ghost var listed: seq<Address>   // the address list of the last update

    /** A permutation of the listed addresses, each slot (and the sentinel) holding exactly the
        sum of the weights before it. */
    ghost predicate Valid()
      reads this, addresses
    {
      && availableNum <= totalNum == |order|
      && addresses.Length == totalNum + 1
      && Positive(order)
      && multiset(order) == multiset(listed)
      && (forall i {:trigger addresses[i]} :: 0 <= i < totalNum ==>
            addresses[i] == Slot(Prefix(order, i), Some(order[i])))
      && addresses[totalNum] == Slot(Prefix(order, totalNum), None)
    }

    constructor ()
      ensures totalNum == 0 && availableNum == 0 && order == [] && listed == []
      ensures fresh(addresses) && addresses.Length == 0
    {
      totalNum, availableNum := 0, 0;
      addresses := new Slot[0];
      order, listed := [], [];
    }

    method Update(list: seq<Address>)
      requires Positive(list)
      modifies this
      ensures Valid() && fresh(addresses)
      ensures order == listed == list && availableNum == totalNum == |list|
    {
      totalNum, availableNum := |list|, |list|;
      order, listed := list, list;
      addresses := FilledTable(list);
    }

    /** The fill loop of the update, into the freshly allocated table. */
    static method FilledTable(list: seq<Address>) returns (table: array<Slot>)
      ensures fresh(table) && table.Length == |list| + 1
      ensures forall k {:trigger table[k]} :: 0 <= k < |list| ==> table[k] == Slot(Prefix(list, k), Some(list[k]))
      ensures table[|list|] == Slot(Prefix(list, |list|), None)
    {
      table := new Slot[|list| + 1];
      var hash := 0.0;
      var i := 0;
      while i < |list|
        invariant 0 <= i <= |list| && hash == Prefix(list, i)
        invariant forall k {:trigger table[k]} :: 0 <= k < i ==> table[k] == Slot(Prefix(list, k), Some(list[k]))
      {
        table[i] := Slot(hash, Some(list[i]));
        hash := hash + list[i].weight;
        i := i + 1;
      }
      table[i] := Slot(hash, None);
    }

    method Exchange(index1: nat, index2: nat)
      requires Valid() && index1 <= index2 < totalNum
      modifies this`order, addresses
      ensures Valid() && order == Swap(old(order), index1, index2)
    {
      if index1 == index2 {
        return;
      }
      assert index1 < index2;
      ghost var was := order;
      order := Swap(order, index1, index2);
      SwapKeepsMultiset(was, index1, index2);
      var address1, address2 := addresses[index1].address, addresses[index2].address;
      addresses[index1] := addresses[index1].(address := address2);
      addresses[index2] := addresses[index2].(address := address1);
      var diff := address2.value.weight - address1.value.weight;
      SwapShiftsAllSums(was, index1, index2);
      if diff != 0.0 {
        Shift(index1 + 1, index2, diff);
      }
    }

    /** The patch loop of the exchange: add `diff` to the sums in [from, to]. */
    method Shift(from: nat, to: nat, diff: real)
      requires from <= to < addresses.Length
      modifies addresses
      ensures forall k :: 0 <= k < addresses.Length ==> addresses[k].address == old(addresses[k].address)
      ensures forall k :: 0 <= k < addresses.Length ==>
          addresses[k].hash == old(addresses[k].hash) + (if from <= k <= to then diff else 0.0)
    {
      var i := from;
      while i <= to
        invariant from <= i <= to + 1
        invariant forall k :: 0 <= k < addresses.Length ==> addresses[k].address == old(addresses[k].address)
        invariant forall k :: 0 <= k < addresses.Length ==>
            addresses[k].hash == old(addresses[k].hash) + (if from <= k < i then diff else 0.0)
      {
        addresses[i] := addresses[i].(hash := addresses[i].hash + diff);
        i := i + 1;
      }
    }

    /** Exchange `down` with the last available address. */
    method Expire(down: nat)
      requires Valid() && down < availableNum
      modifies this`order, this`availableNum, addresses
      ensures Valid() && availableNum == old(availableNum) - 1
      ensures order == Swap(old(order), down, availableNum)
    {
      availableNum := availableNum - 1;
      Exchange(down, availableNum);
    }

    /** Exchange `recov` with the first not-available address. */
    method Recover(recov: nat)
      requires Valid() && availableNum <= recov < totalNum
      modifies this`order, this`availableNum, addresses
      ensures Valid() && availableNum == old(availableNum) + 1
      ensures order == Swap(old(order), old(availableNum), recov)
    {
      availableNum := availableNum + 1;
      Exchange(availableNum - 1, recov);
    }

    /** A random point below the sum of the first `limit` weights, and its owner. */
    method Random(limit: nat, draw: Draws, n: nat) returns (mid: nat)
      requires Valid() && 0 < limit <= totalNum && InRange(draw)
      ensures mid == Hit(order, limit, draw, n)
    {
      PrefixIncreases(order, 0, limit);
      HitOwns(order, limit, draw, n);
      var hash := draw(n, addresses[limit].hash);
      mid := Search(limit, hash);
      OwnerIsUnique(order, mid, Hit(order, limit, draw, n), hash);
    }

    method Search(limit: nat, hash: real) returns (mid: nat)
      requires Valid() && 0 < limit <= totalNum && 0.0 <= hash < Prefix(order, limit)
      ensures mid < limit && Owns(order, mid, hash)
    {
      ghost var target := Owner(order, limit, hash);
      var low, high, m := 0, limit - 1, -1;
      while low <= high
        invariant 0 <= low <= target <= high < limit
        decreases high - low
      {
        m := (low + high) / 2;
        var lower, upper := addresses[m].hash, addresses[m + 1].hash;
        assert lower == Prefix(order, m) && upper == Prefix(order, m + 1);
        OwnerSide(order, m, target, hash);
        if hash >= upper {
          low := m + 1;
        } else if hash < lower {
          high := m - 1;
        } else {
          break;
        }
      }
      assert low <= high && m >= 0;
      mid := m;
    }

    /** `up` is "no down time on either counter", `pickable` the full test; both are fixed during one pick. */
    method Pick(up: Address -> bool, pickable: Address -> bool, draw: Draws) returns (address: Address)
      requires Valid() && 0 < totalNum && InRange(draw)
      modifies this`order, this`availableNum, addresses
      ensures Valid()
      ensures var r := Choose(old(order), old(availableNum), draw, up, pickable);
              address == r.address && order == r.order && availableNum == r.available
    {
      hide Hit, Prefix, Retry;
      ghost var was, r := order, Choose(order, availableNum, draw, up, pickable);
      var picked := Random(totalNum, draw, 0);
      address := addresses[picked].address.value;
      assert address == was[picked];
      if picked >= availableNum {
        if up(address) {
          assert r == Outcome(address, Swap(was, availableNum, picked), availableNum + 1, 1);
          Recover(picked);
          return;
        }
        if pickable(address) {
          return;
        }
      } else {
        if pickable(address) {
          return;
        }
        assert r == Retry(Swap(was, picked, availableNum - 1), availableNum - 1, address, draw, 1, pickable);
        Expire(picked);
      }
      assert r == Retry(order, availableNum, address, draw, 1, pickable);
      address := PickAgain(address, pickable, draw);
    }

    /** The retry loop of the pick: draw among available addresses only. */
    method PickAgain(last: Address, pickable: Address -> bool, draw: Draws) returns (address: Address)
      requires Valid() && InRange(draw)
      modifies this`order, this`availableNum, addresses
      ensures Valid()
      ensures var r := Retry(old(order), old(availableNum), last, draw, 1, pickable);
              address == r.address && order == r.order && availableNum == r.available
    {
      ghost var r := Retry(order, availableNum, last, draw, 1, pickable);
      var n := 1;
      address := last;
      while availableNum > 0
        invariant Valid()
        invariant r == Retry(order, availableNum, address, draw, n, pickable)
        decreases availableNum
      {
        ghost var was := order;
        var picked := Random(availableNum, draw, n);
        n := n + 1;
        address := addresses[picked].address.value;
        assert address == was[picked];
        if pickable(address) {
          return;
        }
        assert r == Retry(Swap(was, picked, availableNum - 1), availableNum - 1, address, draw, n, pickable);
        Expire(picked);
      }
    }
  }
}
