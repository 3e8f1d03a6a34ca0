/** The consistent-hash load balancer: a sorted table of virtual nodes, searched by key hash. */
module HashPick {
  import opened Common

  datatype Address = Address(id: nat, weight: real)
  type Hash = h: nat | h < 0x1_0000_0000_0000_0000
  datatype VNode = VNode(hash: Hash, address: Address)

  // ---------- the table ----------

  /** Truncation of a non-negative double, as the C cast does. */
  function VNodeNum(address: Address, perAddress: nat): (n: nat)
    requires address.weight >= 0.0
  {
    if address.weight == 0.0 then perAddress
    else
      var x := address.weight * perAddress as real + 0.5;
      assert x >= 0.0;
      x.Floor
  }

  ghost predicate NonNegative(list: seq<Address>) {
    forall a <- list :: a.weight >= 0.0
  }

  /** The `i`th virtual node of an address; `nodeHash` stands for the hash of the socket address
      xor the hash of the index. */
  function Node(a: Address, i: nat, nodeHash: (Address, nat) -> Hash): VNode {
    VNode(nodeHash(a, i), a)
  }

  /** Virtual nodes of one address, in index order. */
  function NodesOf(a: Address, n: nat, nodeHash: (Address, nat) -> Hash): (s: seq<VNode>)
    ensures |s| == n
    ensures forall k :: 0 <= k < n ==> s[k] == Node(a, k, nodeHash)
  {
    if n == 0 then [] else NodesOf(a, n - 1, nodeHash) + [Node(a, n - 1, nodeHash)]
  }

  /** Virtual nodes of the first `k` addresses of a list. */
  function AllNodes(list: seq<Address>, k: nat, perAddress: nat,
                    nodeHash: (Address, nat) -> Hash): seq<VNode>
    requires k <= |list| && NonNegative(list)
  {
    if k == 0 then []
    else AllNodes(list, k - 1, perAddress, nodeHash)
         + NodesOf(list[k - 1], VNodeNum(list[k - 1], perAddress), nodeHash)
  }

  ghost predicate Sorted(nodes: seq<VNode>) {
    forall i, j :: 0 <= i < j < |nodes| ==> nodes[i].hash <= nodes[j].hash
  }

  /** The count is the weighted share rounded to the nearest integer; weight 0 means weight 1. */
  lemma CountIsRounded(address: Address, perAddress: nat)
    requires address.weight >= 0.0
    ensures var n := VNodeNum(address, perAddress) as real;
            var share := (if address.weight == 0.0 then 1.0 else address.weight) * perAddress as real;
            n - 0.5 <= share < n + 0.5
  {
  }

  /** The table holds the nodes of every listed address, all of them, and nothing else. */
  lemma {:induction false} NodesAreExact(list: seq<Address>, k: nat, perAddress: nat,
                                         nodeHash: (Address, nat) -> Hash, v: VNode)
    requires k <= |list| && NonNegative(list)
    ensures v in AllNodes(list, k, perAddress, nodeHash)
       <==> exists j, i :: 0 <= j < k && 0 <= i < VNodeNum(list[j], perAddress) && v == Node(list[j], i, nodeHash)
  {
    if k > 0 {
      NodesAreExact(list, k - 1, perAddress, nodeHash, v);
      var a := list[k - 1];
      var last := NodesOf(a, VNodeNum(a, perAddress), nodeHash);
      if v in last {
        var i :| 0 <= i < |last| && last[i] == v;
        assert v == Node(a, i, nodeHash);
      }
      forall i | 0 <= i < |last| && v == Node(a, i, nodeHash)
        ensures v in last
      {
        assert last[i] == v;
      }
    }
  }

  /** Each with its own hash. */
  lemma NodesHaveTheirHashes(list: seq<Address>, perAddress: nat, nodeHash: (Address, nat) -> Hash, v: VNode)
    requires NonNegative(list)
    ensures v in AllNodes(list, |list|, perAddress, nodeHash)
       <==> exists j, i :: 0 <= j < |list| && 0 <= i < VNodeNum(list[j], perAddress)
                           && v.address == list[j] && v.hash == nodeHash(list[j], i)
  {
    hide VNodeNum;
    NodesAreExact(list, |list|, perAddress, nodeHash, v);
    forall j, i | 0 <= j < |list| && 0 <= i < VNodeNum(list[j], perAddress)
      ensures v == Node(list[j], i, nodeHash) <==> v.address == list[j] && v.hash == nodeHash(list[j], i)
    {
    }
  }

  /** An address without virtual nodes. */
  predicate Tiny(a: Address, perAddress: nat) {
    a.weight != 0.0 && a.weight * perAddress as real < 0.5
  }

  lemma NoNodesIfTiny(a: Address, perAddress: nat)
    requires a.weight >= 0.0 && perAddress > 0
    ensures VNodeNum(a, perAddress) == 0 <==> Tiny(a, perAddress)
  {
    CountIsRounded(a, perAddress);
  }

  /** The table is empty, and a pick by key reads in front of it, exactly if every weight is tiny. */
  lemma {:induction false} EmptyIfAllTiny(list: seq<Address>, k: nat, perAddress: nat, nodeHash: (Address, nat) -> Hash)
    requires k <= |list| && NonNegative(list) && perAddress > 0
    ensures AllNodes(list, k, perAddress, nodeHash) == [] <==> forall j :: 0 <= j < k ==> Tiny(list[j], perAddress)
  {
    if k > 0 {
      EmptyIfAllTiny(list, k - 1, perAddress, nodeHash);
      NoNodesIfTiny(list[k - 1], perAddress);
    }
  }

  // ---------- the search ----------

  /** Where the binary search may stop: on a node of equal hash, or next to the insertion point. */
  ghost predicate Landing(nodes: seq<VNode>, hash: Hash, k: nat) {
    && k < |nodes|
    && (|| nodes[k].hash == hash
        || (nodes[k].hash < hash && (k + 1 == |nodes| || hash < nodes[k + 1].hash))
        || (hash < nodes[k].hash && (k == 0 || nodes[k - 1].hash < hash)))
  }

  /** The node the search stops on, `last` being the node probed before. */
  function Stop(nodes: seq<VNode>, hash: Hash, low: int, high: int, last: nat): (k: nat)
    requires 0 <= low <= high + 1 <= |nodes| && last < |nodes|
    ensures k < |nodes|
    decreases high - low
  {
    if low > high then last
    else
      var mid := (low + high) / 2;
      if nodes[mid].hash == hash then mid
      else if nodes[mid].hash < hash then Stop(nodes, hash, mid + 1, high, mid)
      else Stop(nodes, hash, low, mid - 1, mid)
  }

  lemma {:induction false} StopIsALanding(nodes: seq<VNode>, hash: Hash, low: int, high: int, last: nat)
    requires Sorted(nodes) && 0 <= low <= high + 1 <= |nodes| && last < |nodes|
    requires low > 0 ==> nodes[low - 1].hash < hash
    requires high + 1 < |nodes| ==> hash < nodes[high + 1].hash
    requires low <= high || last == low - 1 || last == high + 1
    ensures Landing(nodes, hash, Stop(nodes, hash, low, high, last))
    decreases high - low
  {
    hide Landing, Sorted;
    if low <= high {
      var mid := (low + high) / 2;
      if nodes[mid].hash < hash {
        StopIsALanding(nodes, hash, mid + 1, high, mid);
      } else if nodes[mid].hash != hash {
        StopIsALanding(nodes, hash, low, mid - 1, mid);
      } else {
        EqualIsALanding(nodes, hash, mid);
      }
    } else {
      NextToIsALanding(nodes, hash, low, last);
    }
  }

  lemma EqualIsALanding(nodes: seq<VNode>, hash: Hash, k: nat)
    requires k < |nodes| && nodes[k].hash == hash
    ensures Landing(nodes, hash, k)
  {
  }

  /** `at` is the insertion point of the key. */
  lemma NextToIsALanding(nodes: seq<VNode>, hash: Hash, at: nat, k: nat)
    requires at <= |nodes| && k < |nodes| && (k == at - 1 || k == at)
    requires at > 0 ==> nodes[at - 1].hash < hash
    requires at < |nodes| ==> hash < nodes[at].hash
    ensures Landing(nodes, hash, k)
  {
  }

  // ---------- the walk round the circle ----------

  /** The circle, read from the landing node. */
  function Circle(nodes: seq<VNode>, start: nat): (walk: seq<VNode>)
    requires start < |nodes|
    ensures |walk| == |nodes| && walk[0] == nodes[start]
  {
    nodes[start..] + nodes[..start]
  }

  function FirstPickable(walk: seq<VNode>, pickable: Address -> bool): Option<Address> {
    if walk == [] then None
    else if pickable(walk[0].address) then Some(walk[0].address)
    else FirstPickable(walk[1..], pickable)
  }

  /** The address a key is served by: the first pickable one on the walk from its landing node,
      or the landing node's own address when none is pickable. */
  function Serve(nodes: seq<VNode>, hash: Hash, pickable: Address -> bool): Address
    requires nodes != []
  {
    var walk := Circle(nodes, Stop(nodes, hash, 0, |nodes| - 1, 0));
    match FirstPickable(walk, pickable)
    case Some(a) => a
    case None => walk[0].address
  }

  lemma {:induction false} FirstPickableIsPickable(walk: seq<VNode>, pickable: Address -> bool)
    ensures FirstPickable(walk, pickable).Some? <==> exists v <- walk :: pickable(v.address)
    ensures FirstPickable(walk, pickable).Some? ==> pickable(FirstPickable(walk, pickable).value)
  {
    if walk != [] {
      FirstPickableIsPickable(walk[1..], pickable);
      assert walk == [walk[0]] + walk[1..];
    }
  }

  lemma {:induction false} FirstPickableOfTwo(a: seq<VNode>, b: seq<VNode>, pickable: Address -> bool)
    ensures FirstPickable(a + b, pickable)
         == if FirstPickable(a, pickable).Some? then FirstPickable(a, pickable) else FirstPickable(b, pickable)
  {
    if a == [] {
      assert a + b == b;
    } else {
      FirstPickableOfTwo(a[1..], b, pickable);
      assert (a + b)[1..] == a[1..] + b;
    }
  }

  /** The served address is pickable whenever any address with a virtual node is. */
  lemma UnpickableMeansNone(nodes: seq<VNode>, hash: Hash, pickable: Address -> bool)
    requires nodes != []
    ensures pickable(Serve(nodes, hash, pickable)) <==> exists v <- nodes :: pickable(v.address)
  {
    var start := Stop(nodes, hash, 0, |nodes| - 1, 0);
    var walk := Circle(nodes, start);
    assert nodes == nodes[..start] + nodes[start..];
    assert forall v :: v in walk <==> v in nodes;
    FirstPickableIsPickable(walk, pickable);
    assert walk[0] in walk;
  }

  lemma {:induction false} FirstIsOnTheWalk(walk: seq<VNode>, pickable: Address -> bool)
    ensures FirstPickable(walk, pickable).Some? ==> exists v <- walk :: v.address == FirstPickable(walk, pickable).value
  {
    if walk != [] && !pickable(walk[0].address) {
      FirstIsOnTheWalk(walk[1..], pickable);
      assert walk == [walk[0]] + walk[1..];
    }
  }

  lemma ServedHasNode(nodes: seq<VNode>, hash: Hash, pickable: Address -> bool)
    requires nodes != []
    ensures exists v <- nodes :: v.address == Serve(nodes, hash, pickable)
  {
    var start := Stop(nodes, hash, 0, |nodes| - 1, 0);
    var walk := Circle(nodes, start);
    FirstIsOnTheWalk(walk, pickable);
    assert nodes == nodes[..start] + nodes[start..];
    assert forall v :: v in walk <==> v in nodes;
    assert walk[0] in walk;
  }

  lemma {:induction false} SkipsNothingElse(walk: seq<VNode>, a: Address, before: Address -> bool,
                                            after: Address -> bool)
    requires forall v <- walk :: after(v.address) <==> before(v.address) && v.address != a
    ensures FirstPickable(walk, before) == Some(a) || FirstPickable(walk, after) == FirstPickable(walk, before)
  {
    if walk != [] {
      SkipsNothingElse(walk[1..], a, before, after);
    }
  }

  /** Minimal disruption: when `a` goes down (or comes back), only keys served by `a` while it is
      up change their address. */
  lemma DownMovesOnlyItsOwnKeys(nodes: seq<VNode>, hash: Hash, a: Address, before: Address -> bool,
                                after: Address -> bool)
    requires nodes != []
    requires forall v <- nodes :: after(v.address) <==> before(v.address) && v.address != a
    ensures Serve(nodes, hash, before) != a ==> Serve(nodes, hash, after) == Serve(nodes, hash, before)
  {
    var start := Stop(nodes, hash, 0, |nodes| - 1, 0);
    SkipsNothingElse(Circle(nodes, start), a, before, after);
  }

  /** The node `d` steps on from `k`, round the circle. */
  function Next(nodes: seq<VNode>, k: nat, d: nat): VNode
    requires k < |nodes| && d < |nodes|
  {
    if k + d < |nodes| then nodes[k + d] else nodes[k + d - |nodes|]
  }

  /** It is pickable, and none before it is. */
  ghost predicate IsFirst(nodes: seq<VNode>, k: nat, d: nat, pickable: Address -> bool)
    requires k < |nodes| && d < |nodes|
  {
    pickable(Next(nodes, k, d).address) && forall e :: 0 <= e < d ==> !pickable(Next(nodes, k, e).address)
  }

  /** On the way round from node `k`, `a` is the first pickable address, or that of `k` if there is none. */
  ghost predicate FirstFrom(nodes: seq<VNode>, k: nat, pickable: Address -> bool, a: Address)
    requires k < |nodes|
  {
    || (a == nodes[k].address && forall v <- nodes :: !pickable(v.address))
    || exists d :: 0 <= d < |nodes| && IsFirst(nodes, k, d, pickable) && a == Next(nodes, k, d).address
  }

  /** A key is served by the first pickable address from a node of its hash on, or from one next to where
      that would be. */
  lemma ServedFromLanding(nodes: seq<VNode>, hash: Hash, pickable: Address -> bool) returns (k: nat)
    requires nodes != [] && Sorted(nodes)
    ensures Landing(nodes, hash, k) && FirstFrom(nodes, k, pickable, Serve(nodes, hash, pickable))
  {
    k := Stop(nodes, hash, 0, |nodes| - 1, 0);
    StopIsALanding(nodes, hash, 0, |nodes| - 1, 0);
    hide Landing, Sorted, Stop;
    FirstOnCircle(nodes, k, pickable);
  }

  lemma FirstOnCircle(nodes: seq<VNode>, k: nat, pickable: Address -> bool)
    requires k < |nodes|
    ensures var walk := Circle(nodes, k);
        var a := match FirstPickable(walk, pickable) case Some(a) => a case None => walk[0].address;
        FirstFrom(nodes, k, pickable, a)
  {
    var walk := Circle(nodes, k);
    var first := FirstIndex(walk, pickable);
    assert forall d :: 0 <= d < |nodes| ==> Next(nodes, k, d) == walk[d];
    hide Circle, FirstPickable;
    if first < |walk| {
      assert IsFirst(nodes, k, first, pickable);
    } else {
      forall i | 0 <= i < |nodes|
        ensures !pickable(nodes[i].address)
      {
        var d := if i < k then i + |nodes| - k else i - k;
        assert Next(nodes, k, d) == nodes[i] && walk[d] == nodes[i];
      }
    }
  }

  lemma {:induction false} FirstIndex(walk: seq<VNode>, pickable: Address -> bool) returns (i: nat)
    ensures i <= |walk| && forall e :: 0 <= e < i ==> !pickable(walk[e].address)
    ensures FirstPickable(walk, pickable) == if i < |walk| then Some(walk[i].address) else None
    ensures i < |walk| ==> pickable(walk[i].address)
  {
    i := 0;
    if walk != [] && !pickable(walk[0].address) {
      i := FirstIndex(walk[1..], pickable);
      assert forall e :: 1 <= e < i + 1 ==> walk[e] == walk[1..][e - 1];
      i := i + 1;
    }
  }

  /** A key whose hash some node has is served by an address that has such a node, if they all are pickable. */
  lemma EqualHashServes(nodes: seq<VNode>, hash: Hash, pickable: Address -> bool)
    requires Sorted(nodes) && exists v <- nodes :: v.hash == hash
    requires forall v <- nodes :: v.hash == hash ==> pickable(v.address)
    ensures exists v <- nodes :: v.hash == hash && v.address == Serve(nodes, hash, pickable)
  {
    hide Serve;
    var k := ServedFromLanding(nodes, hash, pickable);
    EqualIsLanded(nodes, hash, k);
    assert nodes[k] in nodes && Next(nodes, k, 0) == nodes[k];
  }

  lemma EqualIsLanded(nodes: seq<VNode>, hash: Hash, k: nat)
    requires Sorted(nodes) && Landing(nodes, hash, k) && exists v <- nodes :: v.hash == hash
    ensures nodes[k].hash == hash
  {
    var i :| 0 <= i < |nodes| && nodes[i].hash == hash;
  }

  // ---------- the balancer ----------

  class Context {
    var vnodes: array<VNode>

    constructor ()
      ensures fresh(vnodes) && vnodes.Length == 0
    {
      vnodes := new VNode[0];
    }

    /** `qsort` is the C library's sort by hash: some sorted permutation of its input. */
    method Update(list: seq<Address>, perAddress: nat, nodeHash: (Address, nat) -> Hash,
                  qsort: seq<VNode> -> seq<VNode>)
      requires NonNegative(list)
      requires forall s :: Sorted(qsort(s)) && |qsort(s)| == |s| && multiset(qsort(s)) == multiset(s)
      modifies this
      ensures fresh(vnodes) && Sorted(vnodes[..])
      ensures multiset(vnodes[..]) == multiset(AllNodes(list, |list|, perAddress, nodeHash))
    {
      var num := 0;
      for k := 0 to |list|
        invariant num == |AllNodes(list, k, perAddress, nodeHash)|
      {
        num := num + VNodeNum(list[k], perAddress);
      }
      var table := new VNode[num];
      Fill(table, list, perAddress, nodeHash);
      var sorted := qsort(table[..]);
      forall i | 0 <= i < num {
        table[i] := sorted[i];
      }
      assert table[..] == sorted;
      vnodes := table;
    }

    static method Fill(table: array<VNode>, list: seq<Address>, perAddress: nat,
                       nodeHash: (Address, nat) -> Hash)
      requires NonNegative(list)
      requires table.Length == |AllNodes(list, |list|, perAddress, nodeHash)|
      modifies table
      ensures table[..] == AllNodes(list, |list|, perAddress, nodeHash)
    {
      var p := 0;
      for k := 0 to |list|
        invariant p == |AllNodes(list, k, perAddress, nodeHash)| <= table.Length
        invariant table[..p] == AllNodes(list, k, perAddress, nodeHash)
      {
        ghost var base := AllNodes(list, k, perAddress, nodeHash);
        AllNodesGrow(list, k + 1, |list|, perAddress, nodeHash);
        for i := 0 to VNodeNum(list[k], perAddress)
          invariant p == |base| + i
          invariant table[..p] == base + NodesOf(list[k], i, nodeHash)
        {
          table[p] := Node(list[k], i, nodeHash);
          p := p + 1;
        }
      }
    }

    /** `key` is the hash of the request's key string, None when the key function failed. */
    method Pick(key: Option<Hash>, pickable: Address -> bool) returns (r: Option<Address>)
      requires key.Some? ==> vnodes.Length > 0
      ensures r == if key == None then None else Some(Serve(vnodes[..], key.value, pickable))
    {
      if key == None {
        return None;
      }
      var vnode := Search(key.value);
      r := ServeFrom(vnode, pickable);
    }

    /** The two scans round the circle, and the address to fall back on. */
    method ServeFrom(vnode: nat, pickable: Address -> bool) returns (r: Option<Address>)
      requires vnode < vnodes.Length
      ensures var walk := Circle(vnodes[..], vnode);
              r == Some(match FirstPickable(walk, pickable) case Some(a) => a case None => walk[0].address)
    {
      hide FirstPickable;
      ghost var nodes := vnodes[..];
      assert vnodes[vnode..vnodes.Length] == nodes[vnode..] && vnodes[0..vnode] == nodes[..vnode];
      FirstPickableOfTwo(nodes[vnode..], nodes[..vnode], pickable);
      r := Scan(vnode, vnodes.Length, pickable);
      if r == None {
        r := Scan(0, vnode, pickable);
      }
      if r == None {
        r := Some(vnodes[vnode].address);
      }
    }

    /** One of the two loops over a stretch of the table. */
    method Scan(from: nat, to: nat, pickable: Address -> bool) returns (r: Option<Address>)
      requires from <= to <= vnodes.Length
      ensures r == FirstPickable(vnodes[from..to], pickable)
    {
      var i := from;
      while i < to
        invariant from <= i <= to
        invariant FirstPickable(vnodes[from..to], pickable) == FirstPickable(vnodes[i..to], pickable)
      {
        assert vnodes[i..to][1..] == vnodes[i + 1..to];
        if pickable(vnodes[i].address) {
          return Some(vnodes[i].address);
        }
        i := i + 1;
      }
      return None;
    }

    method Search(hash: Hash) returns (vnode: nat)
      requires vnodes.Length > 0
      ensures vnode == Stop(vnodes[..], hash, 0, vnodes.Length - 1, 0)
    {
      ghost var nodes := vnodes[..];
      var low, high := 0, vnodes.Length - 1;
      vnode := 0;
      while low <= high
        invariant 0 <= low <= high + 1 <= vnodes.Length && vnode < vnodes.Length
        invariant Stop(nodes, hash, 0, |nodes| - 1, 0) == Stop(nodes, hash, low, high, vnode)
        decreases high - low
      {
        var mid := (low + high) / 2;
        vnode := mid;
        if vnodes[mid].hash == hash {
          break;
        }
        if vnodes[mid].hash < hash {
          low := mid + 1;
        } else {
          high := mid - 1;
        }
      }
    }
  }

  lemma {:induction false} AllNodesGrow(list: seq<Address>, k: nat, l: nat, perAddress: nat,
                                        nodeHash: (Address, nat) -> Hash)
    requires k <= l <= |list| && NonNegative(list)
    ensures |AllNodes(list, k, perAddress, nodeHash)| <= |AllNodes(list, l, perAddress, nodeHash)|
  {
    if k < l {
      AllNodesGrow(list, k, l - 1, perAddress, nodeHash);
    }
  }
}
