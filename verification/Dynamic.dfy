/** The cache of named sub-configurations as an object: placeholder holders with parked requests,
    refreshes, error entries, timers, and the re-entrant wake-up when a holder goes away. */
module Dynamic {
  import opened Common
  import opened DynamicEntry
  import opened DynamicCalls

  class Cache {
    const settings: Settings
    var subs: map<nat, Sub>            // entries, by identity
    var newest: map<string, nat>       // what a lookup by name finds
    var nextId: nat
    var running: set<nat>              // requests inside get_conf()
    var elsewhere: set<nat>            // requests whose list node is on a list that is not a holder's
    ghost var parkedOn: map<nat, nat>  // the holder each parked request waits on
    ghost var pending: set<nat>        // requests whose last call said Again, not woken or closed since
    ghost var log: seq<Entry>          // finished calls

    ghost function Now(): Snapshot
      reads this
    {
      Snapshot(subs, newest, nextId, running, elsewhere, parkedOn, pending, log)
    }

    ghost predicate Valid()
      reads this
    {
      Inv(Now(), settings, {})
    }

    constructor (settings: Settings)
      ensures Valid() && this.settings == settings && Now() == Snapshot(map[], map[], 0, {}, {}, map[], {}, [])
    {
      this.settings := settings;
      subs, newest, nextId, running, elsewhere := map[], map[], 0, {}, {};
      parkedOn, pending, log := map[], {}, [];
    }

    // ---------- the small steps ----------

    /** A bare entry that holds the following requests of its name. */
    method NewHolder(name: string) returns (id: nat)
      modifies this`subs, this`newest, this`nextId
      ensures id == old(nextId) && Now() == Linked(old(Now()), Holder(name, settings.errorTimeout))
    {
      id := nextId;
      nextId := nextId + 1;
      subs := subs[id := Holder(name, settings.errorTimeout)];
      newest := newest[name := id];
    }

    /** Link a new entry in front of the one of its name. */
    method AddSub(name: string, conf: Conf, tag: nat, now: int) returns (id: nat)
      modifies this`subs, this`newest, this`nextId
      ensures id == old(nextId) && Now() == Linked(old(Now()), NewSub(name, conf, tag, now))
    {
      id := nextId;
      nextId := nextId + 1;
      subs := subs[id := NewSub(name, conf, tag, now)];
      newest := newest[name := id];
    }

    /** Append a request to a holder's list, wherever its list node is. */
    method Park(id: nat, r: nat)
      requires id in subs
      modifies this`subs, this`pending, this`parkedOn
      ensures Now() == Parked(old(Now()), id, r)
    {
      subs := subs[id := subs[id].(waiters := subs[id].waiters + [r])];
      parkedOn := parkedOn[r := id];
      pending := pending + {r};
    }

    /** Take a waiter off a holder's list. */
    method Leave(id: nat, r: nat)
      requires id in subs
      modifies this`subs, this`pending, this`parkedOn
      ensures Now() == Left(old(Now()), id, r)
    {
      subs := subs[id := subs[id].(waiters := Without(subs[id].waiters, r))];
      parkedOn := parkedOn - {r};
      pending := pending - {r};
    }

    /** Remove an entry. */
    method Unlink(id: nat)
      requires id in subs
      modifies this`subs, this`newest
      ensures Now() == Unlinked(old(Now()), id)
    {
      newest := NewestWithout(newest, subs[id].name, id);
      subs := subs - {id};
    }

    // ---------- the calls ----------

    /** A request asks for its container, be it new, parked or resumed. `env` answers the calls of
        requests woken on the way; one that does not ask any more has no name there. */
    method Get(r: nat, a: Answer, env: nat -> Answer, ghost dying: set<nat>) returns (result: Result)
      requires Inv(Now(), settings, dying) && (r in running ==> dying == {})
      modifies this`subs, this`newest, this`nextId, this`running, this`parkedOn, this`pending, this`log
      ensures var step := Called(old(Now()), r, a, env, settings);
          result == step.result && Now() == Logged(step.state, r, result)
      ensures Inv(Now(), settings, dying) <==> Sound(old(Now()), r, a, settings)
      decreases if r in running then 7 else 3, 2
    {
      hide Inv, Configured, Looked, Deleted, ReplacesAlone;
      CallKeeps(Now(), r, a, env, settings, dying);
      RunningIsNotParked(Now(), settings, dying);
      StartKeeps(Now(), r, settings, dying);
      var wasRunning := r in running;
      running := running - {r};
      pending := pending - {r};
      if a.name == None || |a.name.value| > 100 {
        result := Error(0);
      } else if a.name.value !in newest {
        result := OnMiss(r, a, env);
      } else {
        result := OnHit(r, wasRunning, a, env, dying);
      }
      ghost var done := Now();
      log := log + [Entry(r, result)];
      LogIsFree(done, Now(), settings, dying);
    }

    /** No entry of that name: make a holder for the followers and run get_conf(), unless the cache is full. */
    method OnMiss(r: nat, a: Answer, env: nat -> Answer) returns (result: Result)
      requires a.name.Some? && a.name.value !in newest
      modifies this`subs, this`newest, this`nextId, this`running, this`parkedOn, this`pending, this`log
      ensures Step(Now(), result) ==
          if |old(subs)| >= settings.subMax then Step(old(Now()), Error(0))
          else Configured(Linked(old(Now()), Holder(a.name.value, settings.errorTimeout)), r, old(nextId), a, settings)
      decreases 3, 1
    {
      hide Configured;
      if |subs| >= settings.subMax {
        return Error(0);
      }
      var id := NewHolder(a.name.value);
      NobodyWaits(subs[id], a, settings);
      result := GetConf(r, id, a, env);
    }

    /** An entry is there. */
    method OnHit(r: nat, wasRunning: bool, a: Answer, env: nat -> Answer, ghost dying: set<nat>)
      returns (result: Result)
      requires Inv(Now(), settings, dying) && a.name.Some? && a.name.value in newest && newest[a.name.value] in subs
      requires wasRunning ==> dying == {}
      modifies this`subs, this`newest, this`nextId, this`running, this`parkedOn, this`pending, this`log
      ensures var id := old(newest)[a.name.value];
          && (!wasRunning ==> Step(Now(), result) == Looked(old(Now()), r, id, a, settings))
          && (wasRunning && ReplacesAlone(old(subs)[id], a, settings) ==>
                Step(Now(), result) == Configured(old(Now()), r, id, a, settings))
          && (wasRunning && !ReplacesAlone(old(subs)[id], a, settings) ==>
                && Leaving(Linked(old(Now()), Successor(old(subs)[id], a, settings)), id, settings, {})
                && result == Container(old(nextId))
                && Now() == Deleted(Linked(old(Now()), Successor(old(subs)[id], a, settings)), id, env, settings))
      decreases if wasRunning then 7 else 3, 1
    {
      hide Inv, Configured, Deleted, ReplacesAlone;
      LookupFinds(Now(), a.name.value, settings, dying);
      var id := newest[a.name.value];
      if wasRunning {
        result := GetConf(r, id, a, env);
      } else if subs[id].errorRet != 0 {
        result := Error(subs[id].errorRet);
      } else if subs[id].holder {
        Park(id, r);
        result := Again;
      } else {
        subs := subs[id := subs[id].(timer := Some(subs[id].conf.idleTimeout * 1000))];
        if !NeedsCheck(subs[id], a) {
          return Container(id);
        }
        subs := subs[id := subs[id].(checkTime := a.now)];
        assert subs == old(subs)[id := Checked(old(subs)[id], a.now)];
        NobodyWaits(subs[id], a, settings);
        result := GetConf(r, id, a, env);
      }
    }

    /** The second half of a call: run get_conf() for entry `id` and act on what it returns. */
    method GetConf(r: nat, id: nat, a: Answer, env: nat -> Answer) returns (result: Result)
      requires id in subs && id < nextId && (!ReplacesAlone(subs[id], a, settings) ==> Inv(Now(), settings, {}))
      modifies this`subs, this`newest, this`nextId, this`running, this`parkedOn, this`pending, this`log
      ensures ReplacesAlone(old(subs)[id], a, settings) ==>
          Step(Now(), result) == Configured(old(Now()), r, id, a, settings)
      ensures !ReplacesAlone(old(subs)[id], a, settings) ==>
          && Leaving(Linked(old(Now()), Successor(old(subs)[id], a, settings)), id, settings, {})
          && result == Container(old(nextId))
          && Now() == Deleted(Linked(old(Now()), Successor(old(subs)[id], a, settings)), id, env, settings)
      decreases if subs[id].waiters != [] then 6 else 2
    {
      hide Inv, Woken, Leaving;
      if a.run.Pending? {
        running := running + {r};
        pending := pending + {r};
        return Again;
      }
      if a.run.Failed? {
        return Error(0);
      }
      match Decide(subs[id], a.run.status, a.run.value, settings.checkInterval != 0)
      case Serve =>
        result := Container(id);
      case Fail =>
        result := Error(0);
      case Gone =>
        subs := subs[id := Missing(subs[id])];
        result := Error(404);
      case Replace(conf, tag) =>
        result := ReplaceBy(id, conf, tag, a.now, env);
    }

    /** Link the new entry, then delete the one it replaces. */
    method ReplaceBy(id: nat, conf: Conf, tag: nat, now: int, env: nat -> Answer) returns (result: Result)
      requires id in subs && id < nextId && (subs[id].waiters != [] ==> Inv(Now(), settings, {}))
      modifies this`subs, this`newest, this`nextId, this`running, this`parkedOn, this`pending, this`log
      ensures var s := Linked(old(Now()), NewSub(old(subs)[id].name, conf, tag, now));
          && (old(subs)[id].waiters != [] ==> Leaving(s, id, settings, {}))
          && result == Container(old(nextId)) && Now() == Deleted(s, id, env, settings)
      decreases if subs[id].waiters != [] then 5 else 1
    {
      hide Inv, Deleted, Leaving;
      if subs[id].waiters != [] {
        ReplaceKeeps(Now(), id, NewSub(subs[id].name, conf, tag, now), settings, {});
      }
      var successor := AddSub(subs[id].name, conf, tag, now);
      Delete(id, env);
      result := Container(successor);
    }

    /** Delete an entry; a holder first wakes its waiters, oldest first, each of which calls again at once. */
    method Delete(id: nat, env: nat -> Answer)
      requires id in subs && (subs[id].waiters != [] ==> Leaving(Now(), id, settings, {}))
      modifies this`subs, this`newest, this`nextId, this`running, this`parkedOn, this`pending, this`log
      ensures Now() == Deleted(old(Now()), id, env, settings)
      decreases if subs[id].waiters != [] then 4 else 0, 1
    {
      hide Inv, Indexed, Accounted, Closing, Woken;
      if subs[id].waiters != [] {
        FailingKeeps(Now(), id, settings);
      }
      if subs[id].holder {
        if subs[id].errorRet == 0 {
          subs := subs[id := subs[id].(errorRet := 500)];
        }
        WakeAll(id, env);
      }
      Unlink(id);
      assert old(subs)[id].waiters == [] ==> subs == old(subs) - {id};
    }

    /** Pop the waiters of a dying holder until there is none. */
    method WakeAll(id: nat, env: nat -> Answer)
      requires id in subs && (subs[id].waiters != [] ==> Inv(Now(), settings, {id}))
      modifies this`subs, this`newest, this`nextId, this`running, this`parkedOn, this`pending, this`log
      ensures old(subs)[id].waiters == [] ==> Now() == old(Now())
      ensures old(subs)[id].waiters != [] ==>
          Now() == Woken(old(Now()), id, |old(subs)[id].waiters|, env, settings)
      decreases if subs[id].waiters != [] then 4 else 0, 0
    {
      hide Inv, WokeOne;
      ghost var waiters := subs[id].waiters;
      ghost var k := 0;
      while subs[id].waiters != []
        invariant id in subs && k <= |waiters| && subs[id].waiters == waiters[k..]
        invariant waiters == [] ==> Now() == old(Now())
        invariant waiters != [] ==> Now() == Woken(old(Now()), id, k, env, settings)
        decreases |waiters| - k
      {
        WakeOne(id, env);
        k := k + 1;
      }
    }

    /** The oldest waiter leaves the list of the dying holder and calls. */
    method WakeOne(id: nat, env: nat -> Answer)
      requires Inv(Now(), settings, {id}) && id in subs && subs[id].waiters != []
      modifies this`subs, this`newest, this`nextId, this`running, this`parkedOn, this`pending, this`log
      ensures Now() == WokeOne(old(Now()), id, env, settings)
      decreases 3, 4
    {
      hide Inv, Quiet;
      var r := subs[id].waiters[0];
      CallerIsReady(Now(), id, env(r), settings);
      Leave(id, r);
      var result := Get(r, env(r), env, {id});
    }

    // ---------- events ----------

    /** The timer of an entry fires. */
    method Timeout(id: nat, env: nat -> Answer)
      requires Valid() && id in subs
      modifies this`subs, this`newest, this`nextId, this`running, this`parkedOn, this`pending, this`log
      ensures Valid() && Now() == Expired(old(Now()), id, env, settings)
    {
      hide Inv, Deleted;
      ExpiryStarts(Now(), id, settings);
      ExpiryIsLocal(Now(), id, env, settings);
      subs := subs[id := subs[id].(timer := None)];
      Delete(id, env);
    }

    /** The list node of a request goes on another list: it is a new subrequest, on its father's list,
        or it waits for an upstream. */
    method LinkElsewhere(r: nat)
      requires Valid() && r !in parkedOn
      modifies this`elsewhere
      ensures Valid() && Now() == old(Now()).(elsewhere := old(elsewhere) + {r})
    {
      hide Indexed, Queued;
      elsewhere := elsewhere + {r};
    }

    method UnlinkElsewhere(r: nat)
      requires Valid()
      modifies this`elsewhere
      ensures Valid() && Now() == old(Now()).(elsewhere := old(elsewhere) - {r})
    {
      hide Indexed, Queued;
      elsewhere := elsewhere - {r};
    }

    /** A parked request is closed. */
    method CloseParked(r: nat, id: nat)
      requires Valid() && id in subs && r in subs[id].waiters
      modifies this`subs, this`pending, this`parkedOn
      ensures Valid() && Now() == Left(old(Now()), id, r) && r !in pending
    {
      hide Indexed, Queued, Accounted;
      LeaveKeeps(Now(), id, r, settings, {});
      Leave(id, r);
    }

    /** A request inside get_conf() is closed; its Lua thread is killed. */
    method CloseRunning(r: nat)
      requires Valid() && r in running
      modifies this`running, this`pending
      ensures Valid() && Now() == Started(old(Now()), r) && r !in pending
    {
      hide Inv;
      StartKeeps(Now(), r, settings, {});
      running := running - {r};
      pending := pending - {r};
    }
  }

  // ---------- runs that go wrong ----------

  const SUSPENDS := Answer(Some("a"), 0, true, Pending)

  /** Request 1 is inside get_conf() for "a", and `waiters` are parked. */
  ghost predicate FirstInside(s: Snapshot, waiters: seq<nat>) {
    && s.subs == map[0 := Holder("a", 0).(waiters := waiters)] && s.newest == map["a" := 0]
    && s.running == {1} && s.parkedOn.Keys == (set w <- waiters)
  }

  /** Request 1 asks for "a" first, and get_conf() is not done. */
  method FirstCalls(checkInterval: nat, subrequest: bool) returns (c: Cache)
    ensures fresh(c) && c.settings == Settings(1, checkInterval, 0) && c.Valid() && FirstInside(c.Now(), [])
    ensures c.elsewhere == if subrequest then {2} else {}
  {
    hide Inv, Called;
    c := new Cache(Settings(1, checkInterval, 0));
    if subrequest {
      c.LinkElsewhere(2);
    }
    FirstSuspends(c.Now(), c.settings);
    var first := c.Get(1, SUSPENDS, _ => SUSPENDS, {});
  }

  lemma FirstSuspends(s: Snapshot, c: Settings)
    requires s == Snapshot(map[], map[], 0, {}, s.elsewhere, map[], {}, []) && c.subMax == 1 && c.errorTimeout == 0
    ensures Sound(s, 1, SUSPENDS, c) && FirstInside(Called(s, 1, SUSPENDS, _ => SUSPENDS, c).state, [])
  {
    assert Holder("a", 0).(waiters := []) == Holder("a", 0);
    var t := Called(s, 1, SUSPENDS, _ => SUSPENDS, c).state;
    assert t.subs == map[0 := Holder("a", 0)] && t.newest == map["a" := 0] && t.running == {1};
  }

  /** Request 2 asks for "a", too. */
  method SecondCalls(c: Cache, ghost waiters: seq<nat>)
    requires c.Valid() && FirstInside(c.Now(), waiters)
    modifies c
    ensures FirstInside(c.Now(), waiters + [2]) && c.elsewhere == old(c.elsewhere)
    ensures c.Valid() <==> 2 !in old(c.parkedOn) && 2 !in c.elsewhere
  {
    hide Inv;
    RunningIsNotParked(c.Now(), c.settings, {});
    var again := c.Get(2, SUSPENDS, _ => SUSPENDS, {});
    assert c.subs == map[0 := Holder("a", 0).(waiters := waiters + [2])];
    assert c.parkedOn.Keys == old(c.parkedOn).Keys + {2};
  }

  /** A request that is run again by its connection while it is parked is appended a second time. */
  method ParkedTwice() returns (c: Cache)
    ensures fresh(c) && 0 in c.subs && c.subs[0].waiters == [2, 2] && !c.Valid()
  {
    hide Inv;
    c := FirstCalls(0, false);
    SecondCalls(c, []);
    assert [] + [2] == [2] && 2 in c.parkedOn;
    SecondCalls(c, [2]);
  }

  /** A subrequest is appended although its node is on its father's list. */
  method SubrequestParked() returns (c: Cache)
    ensures fresh(c) && 0 in c.subs && c.subs[0].waiters == [2] && 2 in c.elsewhere && !c.Valid()
  {
    hide Inv;
    c := FirstCalls(0, true);
    SecondCalls(c, []);
  }

  /** The resumed request is given a container that a waiter has replaced already. */
  method ReplacedUnseen() returns (c: Cache, result: Result)
    ensures fresh(c) && c.Valid() && result.Container? && result.id !in c.subs
  {
    hide Inv, Called, Handed, Outcome;
    var conf := Conf(1, 60, 0, 7);
    var early := Answer(Some("a"), 0, true, Done(None, Str(1, Some(conf))));
    var late := Answer(Some("a"), 5, true, Done(None, Str(2, Some(conf))));
    c := FirstCalls(1, false);
    SecondCalls(c, []);
    assert [] + [2] == [2];
    ReplacedAtOnce(c.Now(), conf, early, late);
    result := c.Get(1, early, _ => late, {});
  }

  lemma ReplacedAtOnce(s: Snapshot, conf: Conf, early: Answer, late: Answer)
    requires Inv(s, Settings(1, 1, 0), {}) && FirstInside(s, [2]) && conf == Conf(1, 60, 0, 7)
    requires early == Answer(Some("a"), 0, true, Done(None, Str(1, Some(conf))))
    requires late == Answer(Some("a"), 5, true, Done(None, Str(2, Some(conf))))
    ensures var step := Called(s, 1, early, _ => late, Settings(1, 1, 0));
        Sound(s, 1, early, Settings(1, 1, 0)) && step.result.Container? && step.result.id !in step.state.subs
  {
    hide Inv, Called;
    RunningIsNotParked(s, Settings(1, 1, 0), {});
    var first := NewSub("a", conf, 1, 0);
    assert Decide(s.subs[0], None, Str(1, Some(conf)), true) == Replace(conf, 1);
    WakeHands(s, 1, early, _ => late, Settings(1, 1, 0));
    assert [2][..0] == [] && Outcome(first, [], _ => late, true) == Some(first);
    assert Asked(first, late, true) == None;
    assert Outcome(first, [2], _ => late, true) == None;
  }
}
