/** One upstream address: its pool of idle connections and its active ones. */
module Connections {
  import opened Common
  import opened Health

  /** `key` is the rank of the address in the resolver's comparison order, which ignores the port. */
  datatype Sockaddr = Inet(key: real, port: nat) | Unix(key: real)

  // ---------- the two lists, on values ----------

  /** Every connection is in exactly one list and has a request exactly when it is active. */
  ghost predicate Consistent(idle: seq<nat>, active: seq<nat>, requests: map<nat, nat>, serial: nat) {
    && Once(idle) && Once(active) && (forall c <- idle :: c !in active)
    && (forall c <- idle :: c < serial) && (forall c <- active :: c < serial)
    && (forall c :: c in requests <==> c in active)
  }

  lemma ReuseKeeps(idle: seq<nat>, active: seq<nat>, requests: map<nat, nat>, serial: nat, r: nat)
    requires Consistent(idle, active, requests, serial) && idle != []
    ensures Consistent(idle[1..], active + [idle[0]], requests[idle[0] := r], serial)
  {
    var c := idle[0];
    assert c in idle && c !in idle[1..];
    OnceAppend(active, c);
    forall d | d in idle[1..]
      ensures d !in active + [c] && d < serial
    {
      assert d in idle;
    }
  }

  lemma OpenKeeps(idle: seq<nat>, active: seq<nat>, requests: map<nat, nat>, serial: nat, r: nat)
    requires Consistent(idle, active, requests, serial)
    ensures Consistent(idle, active + [serial], requests[serial := r], serial + 1)
  {
    OnceAppend(active, serial);
  }

  lemma CloseKeeps(idle: seq<nat>, active: seq<nat>, requests: map<nat, nat>, serial: nat, c: nat)
    requires Consistent(idle, active, requests, serial)
    ensures Consistent(Without(idle, c), Without(active, c), requests - {c}, serial)
    ensures c !in Without(idle, c) && c !in Without(active, c)
    ensures |Without(idle, c)| == if c in idle then |idle| - 1 else |idle|
  {
    WithoutMembers(idle, c);
    WithoutMembers(active, c);
  }

  lemma PoolKeeps(idle: seq<nat>, active: seq<nat>, requests: map<nat, nat>, serial: nat, c: nat)
    requires Consistent(idle, active, requests, serial) && c !in idle && c in active
    ensures Consistent(idle + [c], Without(active, c), requests - {c}, serial)
  {
    WithoutMembers(active, c);
  }

  // ---------- the address ----------

  class Address {
    const sockaddr: Sockaddr
    const hostname: nat
    var resolveDeleted: bool
    var failure: Counter
    var healthcheck: Counter
    var idleNum: nat
    var idle: seq<nat>              // connections, oldest first
    var active: seq<nat>
    var requests: map<nat, nat>     // the request of a connection, absent when idle
    var serial: nat                 // number of connections so far, and the next identity

    ghost predicate Valid(idleMax: nat)
      reads this
    {
      Consistent(idle, active, requests, serial) && idleNum == |idle| <= idleMax + 1
    }

    constructor (sockaddr: Sockaddr, hostname: nat)
      ensures this.sockaddr == sockaddr && this.hostname == hostname
      ensures !resolveDeleted && idle == [] && active == [] && serial == 0 && failure == FRESH && healthcheck == FRESH
      ensures forall idleMax :: Valid(idleMax)
    {
      this.sockaddr := sockaddr;
      this.hostname := hostname;
      resolveDeleted := false;
      failure, healthcheck := FRESH, FRESH;
      idleNum, idle, active, requests, serial := 0, [], [], map[], 0;
    }

    /** May a request try this address? One that is down on failures is tried once the timeout has passed, by
        one request at a time. `filter` is the answer of the configured filter function, true without one. */
    predicate IsPickable(now: nat, timeout: nat, filter: bool): (p: bool)
      reads this
      ensures healthcheck.downTime != 0 ==> !p
      ensures healthcheck.downTime == 0 && failure.downTime == 0 ==> p
      ensures p && failure.downTime != 0 ==> now - failure.downTime >= timeout && active == [] && filter
      ensures healthcheck.downTime == 0 && now - failure.downTime >= timeout && active == [] && filter ==> p
    {
      if healthcheck.downTime != 0 then false
      else if failure.downTime == 0 then true
      else now >= failure.downTime + timeout && active == [] && filter
    }

    /** A connection for request `r`: the oldest idle one, else a new one if connecting works. */
    method Get(r: nat, connectOk: bool, ghost idleMax: nat) returns (c: Option<nat>)
      requires Valid(idleMax)
      modifies this`idle, this`idleNum, this`active, this`requests, this`serial
      ensures Valid(idleMax)
      ensures c == if old(idle) != [] then Some(old(idle)[0]) else if connectOk then Some(old(serial)) else None
      ensures c == None ==> unchanged(this)
      ensures c.Some? ==> active == old(active) + [c.value] && requests == old(requests)[c.value := r]
      ensures idle == if old(idle) != [] then old(idle)[1..] else []
      ensures c.Some? ==> c.value !in old(active)
    {
      if idle != [] {
        ReuseKeeps(idle, active, requests, serial, r);
        c := Some(idle[0]);
        idle := idle[1..];
        active := active + [c.value];
        idleNum := idleNum - 1;
      } else if connectOk {
        OpenKeeps(idle, active, requests, serial, r);
        c := Some(serial);
        serial := serial + 1;
        active := active + [c.value];
      } else {
        return None;
      }
      requests := requests[c.value := r];
    }

    /** Unlink and free one connection. */
    method Close(c: nat, ghost idleMax: nat)
      requires Valid(idleMax) && (c in idle || c in active)
      modifies this`idle, this`idleNum, this`active, this`requests
      ensures Valid(idleMax)
      ensures idle == Without(old(idle), c) && active == Without(old(active), c)
      ensures requests == old(requests) - {c}
      ensures c !in idle && c !in active
    {
      CloseKeeps(idle, active, requests, serial, c);
      if c !in requests {
        idleNum := idleNum - 1;
      }
      idle := Without(idle, c);
      active := Without(active, c);
      requests := requests - {c};
    }

    /** Read or write event, or timeout, on an idle connection. */
    method CloseIdle(c: nat, ghost idleMax: nat)
      requires Valid(idleMax) && c in idle
      modifies this`idle, this`idleNum, this`active, this`requests
      ensures Valid(idleMax)
      ensures idle == Without(old(idle), c) && active == old(active)
    {
      WithoutAbsent(active, c);
      Close(c, idleMax);
    }

    /** The request is done with the connection: note the result, then close it or pool it. */
    method Release(c: nat, error: bool, clean: bool, closed: bool, limits: Limits, idleMax: nat, now: nat)
      requires Valid(idleMax) && c in active
      modifies this`failure, this`idle, this`idleNum, this`active, this`requests
      ensures Valid(idleMax)
      ensures failure == Note(old(failure), !error, limits, now)
      ensures active == Without(old(active), c) && requests == old(requests) - {c}
      ensures idle == if error || !clean || closed then old(idle)
                      else (if |old(idle)| > idleMax then old(idle)[1..] else old(idle)) + [c]
    {
      failure := Note(failure, !error, limits, now);
      WithoutAbsent(idle, c);
      if error || !clean || closed {
        Close(c, idleMax);
      } else {
        Pool(c, idleMax);
      }
    }

    /** Keep an active connection for reuse, closing the oldest idle one if there are too many. */
    method Pool(c: nat, idleMax: nat)
      requires Valid(idleMax) && c in active
      modifies this`idle, this`idleNum, this`active, this`requests
      ensures Valid(idleMax)
      ensures active == Without(old(active), c) && requests == old(requests) - {c}
      ensures idle == (if |old(idle)| > idleMax then old(idle)[1..] else old(idle)) + [c]
    {
      if idleNum > idleMax {
        var oldest := idle[0];
        WithoutAbsent(active, oldest);
        assert requests - {oldest} == requests;
        Close(oldest, idleMax);
      }
      PoolKeeps(idle, active, requests, serial, c);
      requests := requests - {c};
      idleNum := idleNum + 1;
      active := Without(active, c);
      idle := idle + [c];
    }

    /** A health check finished. */
    method HealthcheckDone(pass: bool, limits: Limits, now: nat)
      modifies this`healthcheck
      ensures healthcheck == Note(old(healthcheck), pass, limits, now)
    {
      healthcheck := Note(healthcheck, pass, limits, now);
    }
  }
}
