/** What the balancers make of the addresses' state: an address that a retry has marked is avoided. */
module RetryPick {
  import opened Common
  import Connections
  import RandomPick
  import HashPick

  /** `up` and `pickable` are the tests of the addresses that `order` stands for. */
  ghost predicate Tests(table: seq<Connections.Address>, order: seq<RandomPick.Address>, now: nat, timeout: nat,
                        filter: nat -> bool, up: RandomPick.Address -> bool, pickable: RandomPick.Address -> bool)
    reads table
  {
    forall a <- order ::
      && a.id < |table|
      && (up(a) <==> table[a.id].failure.downTime == 0 && table[a.id].healthcheck.downTime == 0)
      && (pickable(a) <==> table[a.id].IsPickable(now, timeout, filter(a.id)))
  }

  /** The random pick's guarantee for real addresses: that an address which is down on neither counter
      is pickable is a fact about them, and a marked address is chosen only if no available one was pickable. */
  lemma RandomAvoidsMarked(table: seq<Connections.Address>, order: seq<RandomPick.Address>, available: nat,
                           draw: RandomPick.Draws, now: nat, timeout: nat, filter: nat -> bool,
                           up: RandomPick.Address -> bool, pickable: RandomPick.Address -> bool)
    requires available <= |order| && 0 < |order| && Tests(table, order, now, timeout, filter, up, pickable)
    ensures var r := RandomPick.Choose(order, available, draw, up, pickable);
        && RandomPick.GoodPick(order, available, r, up, pickable) && r.address in order
        && (table[r.address.id].healthcheck.downTime != 0 ==>
              && r.available == 0
              && forall k :: 0 <= k < available ==>
                   !table[order[k].id].IsPickable(now, timeout, filter(order[k].id)))
  {
    forall a | a in order && up(a)
      ensures pickable(a)
    {
      assert table[a.id].IsPickable(now, timeout, filter(a.id));
    }
    RandomPick.PickGuarantee(order, available, draw, up, pickable);
    var r := RandomPick.Choose(order, available, draw, up, pickable);
    assert r.address in order && (pickable(r.address) ==> table[r.address.id].healthcheck.downTime == 0);
    assert forall k :: 0 <= k < available ==> order[k] in order;
  }

  /** The hash balancer serves a key from a marked address only if no address with a node is pickable. */
  lemma HashAvoidsMarked(table: seq<Connections.Address>, nodes: seq<HashPick.VNode>, hash: HashPick.Hash,
                         now: nat, timeout: nat, filter: nat -> bool, pickable: HashPick.Address -> bool)
    requires nodes != [] && forall v <- nodes :: v.address.id < |table|
    requires forall v <- nodes ::
        pickable(v.address) <==> table[v.address.id].IsPickable(now, timeout, filter(v.address.id))
    ensures var a := HashPick.Serve(nodes, hash, pickable);
        (exists v <- nodes :: v.address == a)
        && (table[a.id].healthcheck.downTime != 0 ==>
              forall v <- nodes :: !table[v.address.id].IsPickable(now, timeout, filter(v.address.id)))
  {
    HashPick.UnpickableMeansNone(nodes, hash, pickable);
    HashPick.ServedHasNode(nodes, hash, pickable);
  }
}
