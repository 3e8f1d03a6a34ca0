/** The cache of named sub-configurations, as values: what one call does to it, the re-entrant wake-up
    when a holder goes away, and what both keep. */
module DynamicCalls {
  import opened Common
  import opened DynamicEntry

  datatype Entry = Entry(request: nat, result: Result)

  datatype Settings = Settings(subMax: nat, checkInterval: nat, errorTimeout: nat)

  /** What the cache holds at one moment. */
  datatype Snapshot = Snapshot(
    subs: map<nat, Sub>,       // entries, by identity
    newest: map<string, nat>,  // what a lookup by name finds
    nextId: nat,
    running: set<nat>,         // requests inside get_conf()
    elsewhere: set<nat>,       // requests whose list node is on a list that is not a holder's
    parkedOn: map<nat, nat>,   // the holder each parked request waits on
    pending: set<nat>,         // requests whose last call said Again, not woken or closed since
    log: seq<Entry>)           // finished calls

  datatype Step = Step(state: Snapshot, result: Result)

  // ---------- the small steps ----------

  function Linked(s: Snapshot, sub: Sub): Snapshot {
    s.(subs := s.subs[s.nextId := sub], newest := s.newest[sub.name := s.nextId], nextId := s.nextId + 1)
  }

  function Updated(s: Snapshot, id: nat, sub: Sub): Snapshot {
    s.(subs := s.subs[id := sub])
  }

  function NewestWithout(newest: map<string, nat>, name: string, id: nat): map<string, nat> {
    if name in newest && newest[name] == id then newest - {name} else newest
  }

  function Unlinked(s: Snapshot, id: nat): Snapshot
    requires id in s.subs
  {
    s.(subs := s.subs - {id}, newest := NewestWithout(s.newest, s.subs[id].name, id))
  }

  /** A request goes to the end of a holder's list, wherever its list node is. */
  function Parked(s: Snapshot, id: nat, r: nat): Snapshot
    requires id in s.subs
  {
    s.(subs := s.subs[id := s.subs[id].(waiters := s.subs[id].waiters + [r])], parkedOn := s.parkedOn[r := id],
       pending := s.pending + {r})
  }

  /** A waiter leaves a holder's list: the oldest one to be woken, or any one whose request is closed. */
  function Left(s: Snapshot, id: nat, r: nat): Snapshot
    requires id in s.subs
  {
    s.(subs := s.subs[id := s.subs[id].(waiters := Without(s.subs[id].waiters, r))], parkedOn := s.parkedOn - {r},
       pending := s.pending - {r})
  }

  function Suspended(s: Snapshot, r: nat): Snapshot {
    s.(running := s.running + {r}, pending := s.pending + {r})
  }

  /** A call of `r` begins. */
  function Started(s: Snapshot, r: nat): Snapshot {
    s.(running := s.running - {r}, pending := s.pending - {r})
  }

  function Logged(s: Snapshot, r: nat, result: Result): Snapshot {
    s.(log := s.log + [Entry(r, result)])
  }

  // ---------- a call that wakes nobody ----------

  /** get_conf() is run for entry `id`, and what it returns acted on. */
  function Configured(s: Snapshot, r: nat, id: nat, a: Answer, c: Settings): Step
    requires id in s.subs
  {
    match a.run
    case Pending => Step(Suspended(s, r), Again)
    case Failed => Step(s, Error(0))
    case Done(status, value) =>
      match Decide(s.subs[id], status, value, c.checkInterval != 0)
      case Serve => Step(s, Container(id))
      case Fail => Step(s, Error(0))
      case Gone => Step(Updated(s, id, Missing(s.subs[id])), Error(404))
      case Replace(conf, tag) =>
        Step(Unlinked(Linked(s, NewSub(s.subs[id].name, conf, tag, a.now)), id), Container(s.nextId))
  }

  /** A lookup finds entry `id`. */
  function Looked(s: Snapshot, r: nat, id: nat, a: Answer, c: Settings): Step
    requires id in s.subs
  {
    var sub := s.subs[id];
    if sub.errorRet != 0 then Step(s, Error(sub.errorRet))
    else if sub.holder then Step(Parked(s, id, r), Again)
    else if !NeedsCheck(sub, a) then
      Step(Updated(s, id, sub.(timer := Some(sub.conf.idleTimeout * 1000))), Container(id))
    else Configured(Updated(s, id, Checked(sub, a.now)), r, id, a, c)
  }

  ghost predicate Named(subs: map<nat, Sub>, newest: map<string, nat>) {
    forall n :: n in newest ==> newest[n] in subs && subs[newest[n]].name == n
  }

  /** A call of a new, parked or resumed request. */
  function Quiet(s: Snapshot, r: nat, a: Answer, c: Settings): Step
    requires Named(s.subs, s.newest)
  {
    var s1 := Started(s, r);
    if a.name == None || |a.name.value| > 100 then Step(s1, Error(0))
    else if a.name.value !in s.newest then
      if |s.subs| >= c.subMax then Step(s1, Error(0))
      else Configured(Linked(s1, Holder(a.name.value, c.errorTimeout)), r, s.nextId, a, c)
    else if r in s.running then Configured(s1, r, s.newest[a.name.value], a, c)
    else Looked(s1, r, s.newest[a.name.value], a, c)
  }

  /** Then the call appends its request to a holder's list. */
  predicate Parks(s: Snapshot, r: nat, a: Answer)
    requires Named(s.subs, s.newest)
  {
    && r !in s.running && a.name.Some? && |a.name.value| <= 100 && a.name.value in s.newest
    && s.subs[s.newest[a.name.value]].errorRet == 0 && s.subs[s.newest[a.name.value]].holder
  }

  /** Then it goes, or stays, inside get_conf(). */
  predicate Suspends(s: Snapshot, r: nat, a: Answer, c: Settings)
    requires Named(s.subs, s.newest)
  {
    && a.run.Pending? && a.name.Some? && |a.name.value| <= 100
    && if a.name.value !in s.newest then |s.subs| < c.subMax
       else
         var sub := s.subs[s.newest[a.name.value]];
         r in s.running || (sub.errorRet == 0 && !sub.holder && NeedsCheck(sub, a))
  }

  /** The list node of the request is free if it is to be appended, and it is not parked if it is to
      be inside get_conf(). */
  predicate Sound(s: Snapshot, r: nat, a: Answer, c: Settings)
    requires Named(s.subs, s.newest)
  {
    && (Parks(s, r, a) ==> r !in s.parkedOn && r !in s.elsewhere)
    && (Suspends(s, r, a, c) ==> r !in s.parkedOn)
  }

  lemma AgainMeans(s: Snapshot, r: nat, a: Answer, c: Settings)
    requires Named(s.subs, s.newest)
    ensures Quiet(s, r, a, c).result == Again <==> Parks(s, r, a) || Suspends(s, r, a, c)
  {
  }

  // ---------- the invariant ----------

  /** Entries other than `dying`: one for a name, found by it, with an armed timer, at most `subMax`. */
  ghost predicate Indexed(subs: map<nat, Sub>, newest: map<string, nat>, nextId: nat, subMax: nat, dying: set<nat>) {
    Named(subs, newest) && Bounded(subs, nextId) && Found(subs, newest, dying) && Few(subs.Keys, subMax, dying)
  }

  ghost predicate Bounded(subs: map<nat, Sub>, nextId: nat) {
    forall id :: id in subs ==> id < nextId && |subs[id].name| <= 100 && (subs[id].holder ==> subs[id].tag == 0)
  }

  ghost predicate Found(subs: map<nat, Sub>, newest: map<string, nat>, dying: set<nat>) {
    forall id :: id in subs && id !in dying ==>
      subs[id].name in newest && newest[subs[id].name] == id && subs[id].timer.Some?
  }

  ghost predicate Few(keys: set<nat>, subMax: nat, dying: set<nat>) {
    |keys - dying| <= subMax
  }

  /** Requests are parked on holders only, each in one place (`parkedOn`). */
  ghost predicate Queued(subs: map<nat, Sub>, parkedOn: map<nat, nat>) {
    && (forall id :: id in subs ==> Once(subs[id].waiters) && (!subs[id].holder ==> subs[id].waiters == []))
    && (forall id, r :: id in subs && r in subs[id].waiters ==> r in parkedOn && parkedOn[r] == id)
    && (forall r :: r in parkedOn ==> parkedOn[r] in subs && r in subs[parkedOn[r]].waiters)
  }

  lemma AddKeepsIndex(subs: map<nat, Sub>, newest: map<string, nat>, nextId: nat, subMax: nat, dying: set<nat>,
                      sub: Sub)
    requires Indexed(subs, newest, nextId, subMax, dying)
    requires sub.name !in newest && sub.timer.Some? && sub.tag == 0 && |sub.name| <= 100
    requires |subs| < subMax && dying <= subs.Keys
    ensures Indexed(subs[nextId := sub], newest[sub.name := nextId], nextId + 1, subMax, dying)
    ensures nextId !in subs
  {
    assert nextId !in subs;
    AddIsFound(subs, newest, nextId, dying, sub);
    hide Found, Few;
    assert subs[nextId := sub].Keys == subs.Keys + {nextId};
    OneMoreKey(subs.Keys, subMax, dying, nextId);
  }

  lemma AddIsFound(subs: map<nat, Sub>, newest: map<string, nat>, id: nat, dying: set<nat>, sub: Sub)
    requires Found(subs, newest, dying) && id !in subs && sub.name !in newest && sub.timer.Some?
    ensures Found(subs[id := sub], newest[sub.name := id], dying)
  {
  }

  lemma FewerWithout(s: set<nat>, t: set<nat>)
    ensures |s - t| <= |s|
  {
    assert s == (s - t) + (s * t);
  }

  lemma OneMoreKey(keys: set<nat>, subMax: nat, dying: set<nat>, id: nat)
    requires id !in keys && |keys| < subMax
    ensures Few(keys + {id}, subMax, dying)
  {
    FewerWithout(keys + {id}, dying);
  }

  lemma ReplaceKeepsIndex(subs: map<nat, Sub>, newest: map<string, nat>, nextId: nat, subMax: nat, dying: set<nat>,
                          stale: nat, sub: Sub)
    requires Indexed(subs, newest, nextId, subMax, dying) && stale in subs && stale !in dying
    requires sub.name == subs[stale].name && sub.timer.Some? && !sub.holder && dying <= subs.Keys
    ensures Indexed(subs[nextId := sub], newest[sub.name := nextId], nextId + 1, subMax, dying + {stale})
    ensures nextId !in subs
  {
    assert subs[nextId := sub].Keys - (dying + {stale}) == (subs.Keys - dying) - {stale} + {nextId};
  }

  lemma UpdateKeepsIndex(subs: map<nat, Sub>, newest: map<string, nat>, nextId: nat, subMax: nat, dying: set<nat>,
                         id: nat, sub: Sub)
    requires Indexed(subs, newest, nextId, subMax, dying) && id in subs
    requires sub.name == subs[id].name && sub.holder == subs[id].holder && sub.tag == subs[id].tag
    requires sub.timer.Some? || sub.timer == subs[id].timer || id in dying
    ensures Indexed(subs[id := sub], newest, nextId, subMax, dying)
  {
    assert subs[id := sub].Keys == subs.Keys;
  }

  lemma UnlinkKeepsIndex(subs: map<nat, Sub>, newest: map<string, nat>, nextId: nat, subMax: nat, dying: set<nat>,
                         id: nat)
    requires Indexed(subs, newest, nextId, subMax, dying + {id}) && id in subs && id !in dying
    ensures Indexed(subs - {id}, NewestWithout(newest, subs[id].name, id), nextId, subMax, dying)
  {
    var subs2, newest2 := subs - {id}, NewestWithout(newest, subs[id].name, id);
    assert subs2.Keys - dying == subs.Keys - (dying + {id});
    forall n | n in newest2
      ensures newest2[n] in subs2 && subs2[newest2[n]].name == n
    {
      assert n in newest && newest2[n] == newest[n];
    }
    forall k | k in subs2 && k !in dying
      ensures subs2[k].name in newest2 && newest2[subs2[k].name] == k && subs2[k].timer.Some?
    {
      assert k in subs && k !in dying + {id};
    }
  }

  lemma IndexedWithDying(subs: map<nat, Sub>, newest: map<string, nat>, nextId: nat, subMax: nat, id: nat)
    requires Indexed(subs, newest, nextId, subMax, {}) && id in subs
    ensures Indexed(subs, newest, nextId, subMax, {id})
    ensures subs[id].name in newest && newest[subs[id].name] == id
  {
    assert id !in {};
    FewerWithout(subs.Keys, {id});
    assert subs.Keys - {} == subs.Keys;
    assert forall k :: k in subs && k !in {id} ==> k !in {};
  }

  lemma NewKeepsQueues(subs: map<nat, Sub>, parkedOn: map<nat, nat>, id: nat, sub: Sub)
    requires Queued(subs, parkedOn) && id !in subs && sub.waiters == []
    ensures Queued(subs[id := sub], parkedOn)
  {
  }

  lemma UpdateKeepsQueues(subs: map<nat, Sub>, parkedOn: map<nat, nat>, id: nat, sub: Sub)
    requires Queued(subs, parkedOn) && id in subs && sub.holder == subs[id].holder && sub.waiters == subs[id].waiters
    ensures Queued(subs[id := sub], parkedOn)
  {
  }

  /** Appending a request to a holder's list is right exactly if it is on none. */
  lemma ParkOnce(subs: map<nat, Sub>, parkedOn: map<nat, nat>, id: nat, r: nat)
    requires Queued(subs, parkedOn) && id in subs && subs[id].holder
    ensures Queued(subs[id := subs[id].(waiters := subs[id].waiters + [r])], parkedOn[r := id]) <==> r !in parkedOn
  {
    if r in parkedOn {
      ParkTwice(subs, parkedOn, id, r);
    } else {
      OnceAppend(subs[id].waiters, r);
    }
  }

  lemma ParkTwice(subs: map<nat, Sub>, parkedOn: map<nat, nat>, id: nat, r: nat)
    requires Queued(subs, parkedOn) && id in subs && r in parkedOn
    ensures !Queued(subs[id := subs[id].(waiters := subs[id].waiters + [r])], parkedOn[r := id])
  {
    var longer := subs[id].waiters + [r];
    var subs2, parked2 := subs[id := subs[id].(waiters := longer)], parkedOn[r := id];
    if parkedOn[r] == id {
      var k :| 0 <= k < |subs[id].waiters| && subs[id].waiters[k] == r;
      assert longer[k] == longer[|longer| - 1];
      assert !Once(subs2[id].waiters);
    } else {
      assert r in subs2[parkedOn[r]].waiters && parked2[r] != parkedOn[r];
    }
  }

  lemma LeaveKeepsQueues(subs: map<nat, Sub>, parkedOn: map<nat, nat>, id: nat, r: nat)
    requires Queued(subs, parkedOn) && id in subs && r in subs[id].waiters
    ensures Queued(subs[id := subs[id].(waiters := Without(subs[id].waiters, r))], parkedOn - {r})
    ensures r in parkedOn
  {
    WithoutMembers(subs[id].waiters, r);
    var left := Without(subs[id].waiters, r);
    var subs2, parked2 := subs[id := subs[id].(waiters := left)], parkedOn - {r};
    forall k, q | k in subs2 && q in subs2[k].waiters
      ensures q in parked2 && parked2[q] == k
    {
      assert q in subs[k].waiters && parkedOn[q] == k;
      assert q != r by {
        assert parkedOn[r] == id && (k == id ==> q in left);
      }
    }
    forall q | q in parked2
      ensures q in subs2[parked2[q]].waiters
    {
      assert q in subs[parkedOn[q]].waiters;
    }
  }

  lemma UnlinkKeepsQueues(subs: map<nat, Sub>, parkedOn: map<nat, nat>, id: nat)
    requires Queued(subs, parkedOn) && id in subs && subs[id].waiters == []
    ensures Queued(subs - {id}, parkedOn)
  {
    forall r | r in parkedOn
      ensures parkedOn[r] in subs - {id}
    {
      assert r in subs[parkedOn[r]].waiters;
    }
  }

  /** A pending request is either inside get_conf() or parked, and no parked one is on another list. */
  ghost predicate Accounted(running: set<nat>, parkedOn: map<nat, nat>, pending: set<nat>, elsewhere: set<nat>) {
    running !! parkedOn.Keys && running <= pending <= running + parkedOn.Keys && elsewhere !! parkedOn.Keys
  }

  ghost predicate Queues(s: Snapshot) {
    Queued(s.subs, s.parkedOn) && Accounted(s.running, s.parkedOn, s.pending, s.elsewhere)
  }

  /** A dying holder answers an error, so that nobody parks on it again. */
  ghost predicate Closing(subs: map<nat, Sub>, dying: set<nat>) {
    forall d :: d in dying ==> d in subs && subs[d].holder && subs[d].errorRet != 0
  }

  ghost predicate Inv(s: Snapshot, c: Settings, dying: set<nat>) {
    Indexed(s.subs, s.newest, s.nextId, c.subMax, dying) && Queues(s) && Closing(s.subs, dying)
  }

  /** Entry `id` is to go, and may have a successor already. */
  ghost predicate Leaving(s: Snapshot, id: nat, c: Settings, dying: set<nat>) {
    && Indexed(s.subs, s.newest, s.nextId, c.subMax, dying + {id}) && Queues(s) && Closing(s.subs, dying)
    && id in s.subs && id !in dying
  }

  // ---------- every step keeps it ----------

  lemma HolderKeeps(s: Snapshot, name: string, c: Settings, dying: set<nat>)
    requires Inv(s, c, dying) && name !in s.newest && |s.subs| < c.subMax && |name| <= 100
    ensures Inv(Linked(s, Holder(name, c.errorTimeout)), c, dying) && s.nextId !in s.subs && s.nextId !in dying
  {
    hide Indexed, Queued, Accounted;
    var sub := Holder(name, c.errorTimeout);
    AddKeepsIndex(s.subs, s.newest, s.nextId, c.subMax, dying, sub);
    NewKeepsQueues(s.subs, s.parkedOn, s.nextId, sub);
  }

  lemma ReplaceKeeps(s: Snapshot, id: nat, sub: Sub, c: Settings, dying: set<nat>)
    requires Inv(s, c, dying) && id in s.subs && id !in dying
    requires sub.name == s.subs[id].name && !sub.holder && sub.timer.Some? && sub.waiters == []
    ensures Leaving(Linked(s, sub), id, c, dying) && s.nextId !in s.subs
  {
    hide Indexed, Queued, Accounted;
    ReplaceKeepsIndex(s.subs, s.newest, s.nextId, c.subMax, dying, id, sub);
    NewKeepsQueues(s.subs, s.parkedOn, s.nextId, sub);
  }

  lemma UpdateKeeps(s: Snapshot, id: nat, sub: Sub, c: Settings, dying: set<nat>)
    requires Inv(s, c, dying) && id in s.subs && id !in dying && sub.timer.Some?
    requires sub.name == s.subs[id].name && sub.holder == s.subs[id].holder && sub.tag == s.subs[id].tag
    requires sub.waiters == s.subs[id].waiters
    ensures Inv(Updated(s, id, sub), c, dying)
  {
    hide Indexed, Queued, Accounted;
    UpdateKeepsIndex(s.subs, s.newest, s.nextId, c.subMax, dying, id, sub);
    UpdateKeepsQueues(s.subs, s.parkedOn, id, sub);
  }

  lemma UnlinkKeeps(s: Snapshot, id: nat, c: Settings, dying: set<nat>)
    requires Leaving(s, id, c, dying) && s.subs[id].waiters == []
    ensures Inv(Unlinked(s, id), c, dying)
  {
    hide Indexed, Queued, Accounted, NewestWithout;
    UnlinkKeepsIndex(s.subs, s.newest, s.nextId, c.subMax, dying, id);
    UnlinkKeepsQueues(s.subs, s.parkedOn, id);
  }

  /** Appending a request keeps the invariant exactly if its list node is free. */
  lemma ParkKeeps(s: Snapshot, id: nat, r: nat, c: Settings, dying: set<nat>)
    requires Inv(s, c, dying) && id in s.subs && s.subs[id].holder && r !in s.running
    ensures Inv(Parked(s, id, r), c, dying) <==> r !in s.parkedOn && r !in s.elsewhere
  {
    hide Indexed, Queued;
    var sub := s.subs[id].(waiters := s.subs[id].waiters + [r]);
    UpdateKeepsIndex(s.subs, s.newest, s.nextId, c.subMax, dying, id, sub);
    ParkOnce(s.subs, s.parkedOn, id, r);
  }

  lemma SuspendKeeps(s: Snapshot, r: nat, c: Settings, dying: set<nat>)
    requires Inv(s, c, dying)
    ensures Inv(Suspended(s, r), c, dying) <==> r !in s.parkedOn
  {
    hide Indexed, Queued;
    assert r in Suspended(s, r).running;
  }

  lemma LeaveKeeps(s: Snapshot, id: nat, r: nat, c: Settings, dying: set<nat>)
    requires Inv(s, c, dying) && id in s.subs && r in s.subs[id].waiters
    ensures Inv(Left(s, id, r), c, dying)
    ensures r !in s.running && r !in s.elsewhere && r !in Left(s, id, r).parkedOn
  {
    hide Indexed, Queued;
    var sub := s.subs[id].(waiters := Without(s.subs[id].waiters, r));
    UpdateKeepsIndex(s.subs, s.newest, s.nextId, c.subMax, dying, id, sub);
    LeaveKeepsQueues(s.subs, s.parkedOn, id, r);
  }

  lemma StartKeeps(s: Snapshot, r: nat, c: Settings, dying: set<nat>)
    requires Inv(s, c, dying)
    ensures Inv(Started(s, r), c, dying)
  {
    hide Indexed, Queued;
  }

  /** Nobody waits on entry `id` if the answer replaces it. */
  predicate ReplacesAlone(sub: Sub, a: Answer, c: Settings) {
    a.run.Done? && Decide(sub, a.run.status, a.run.value, c.checkInterval != 0).Replace? ==> sub.waiters == []
  }

  lemma ConfiguredKeeps(s: Snapshot, r: nat, id: nat, a: Answer, c: Settings, dying: set<nat>)
    requires Inv(s, c, dying) && id in s.subs && id !in dying && ReplacesAlone(s.subs[id], a, c)
    ensures Inv(Configured(s, r, id, a, c).state, c, dying) <==> (a.run.Pending? ==> r !in s.parkedOn)
  {
    hide Indexed, Queued, Accounted, Inv, Leaving;
    assert Inv(s, c, dying);
    match a.run
    case Pending => SuspendKeeps(s, r, c, dying);
    case Failed =>
    case Done(status, value) =>
      match Decide(s.subs[id], status, value, c.checkInterval != 0)
      case Serve =>
      case Fail =>
      case Gone => UpdateKeeps(s, id, Missing(s.subs[id]), c, dying);
      case Replace(conf, tag) =>
        var sub := NewSub(s.subs[id].name, conf, tag, a.now);
        ReplaceKeeps(s, id, sub, c, dying);
        assert Linked(s, sub).subs[id] == s.subs[id];
        UnlinkKeeps(Linked(s, sub), id, c, dying);
  }

  /** What a lookup relies on. */
  lemma LookupFinds(s: Snapshot, name: string, c: Settings, dying: set<nat>)
    requires Inv(s, c, dying) && name in s.newest
    ensures var id := s.newest[name];
        && id in s.subs && id < s.nextId && s.subs[id].name == name && |name| <= 100
        && (s.subs[id].holder ==> s.subs[id].tag == 0) && (!s.subs[id].holder ==> s.subs[id].waiters == [])
        && (s.subs[id].errorRet == 0 || !s.subs[id].holder ==> id !in dying)
  {
  }

  /** The call resumes get_conf() for a holder with waiters, and ends with its replacement. */
  predicate Wakes(s: Snapshot, r: nat, a: Answer, c: Settings)
    requires Named(s.subs, s.newest)
  {
    && r in s.running && a.name.Some? && |a.name.value| <= 100 && a.name.value in s.newest
    && !ReplacesAlone(s.subs[s.newest[a.name.value]], a, c)
  }

  lemma LookedKeeps(s: Snapshot, r: nat, id: nat, a: Answer, c: Settings, dying: set<nat>)
    requires Inv(s, c, dying) && id in s.subs && r !in s.running
    requires s.subs[id].errorRet == 0 ==> id !in dying
    requires !s.subs[id].holder ==> s.subs[id].waiters == []
    ensures var sub := s.subs[id];
        Inv(Looked(s, r, id, a, c).state, c, dying) <==>
        && (sub.errorRet == 0 && sub.holder ==> r !in s.parkedOn && r !in s.elsewhere)
        && (sub.errorRet == 0 && !sub.holder && NeedsCheck(sub, a) && a.run.Pending? ==> r !in s.parkedOn)
  {
    hide Inv, NeedsCheck;
    var sub := s.subs[id];
    if sub.errorRet != 0 {
    } else if sub.holder {
      ParkKeeps(s, id, r, c, dying);
    } else if !NeedsCheck(sub, a) {
      UpdateKeeps(s, id, sub.(timer := Some(sub.conf.idleTimeout * 1000)), c, dying);
    } else {
      UpdateKeeps(s, id, Checked(sub, a.now), c, dying);
      ConfiguredKeeps(Updated(s, id, Checked(sub, a.now)), r, id, a, c, dying);
    }
  }

  /** A call that wakes nobody keeps the invariant exactly if it is sound. */
  lemma QuietKeeps(s: Snapshot, r: nat, a: Answer, c: Settings, dying: set<nat>)
    requires Inv(s, c, dying) && (r in s.running ==> dying == {}) && !Wakes(s, r, a, c)
    ensures Inv(Quiet(s, r, a, c).state, c, dying) <==> Sound(s, r, a, c)
  {
    hide Inv, Looked, Configured, ReplacesAlone, NeedsCheck;
    RunningIsNotParked(s, c, dying);
    var s1 := Started(s, r);
    StartKeeps(s, r, c, dying);
    if a.name.Some? && |a.name.value| <= 100 {
      var name := a.name.value;
      if name in s.newest {
        LookupFinds(s, name, c, dying);
        if r in s.running {
          ConfiguredKeeps(s1, r, s.newest[name], a, c, dying);
        } else {
          LookedKeeps(s1, r, s.newest[name], a, c, dying);
        }
      } else if |s.subs| < c.subMax {
        HolderKeeps(s1, name, c, dying);
        assert ReplacesAlone(Holder(name, c.errorTimeout), a, c) by {
          NobodyWaits(Holder(name, c.errorTimeout), a, c);
        }
        ConfiguredKeeps(Linked(s1, Holder(name, c.errorTimeout)), r, s.nextId, a, c, dying);
      }
    }
  }

  lemma NobodyWaits(sub: Sub, a: Answer, c: Settings)
    requires sub.waiters == []
    ensures ReplacesAlone(sub, a, c)
  {
  }

  lemma RunningIsNotParked(s: Snapshot, c: Settings, dying: set<nat>)
    requires Inv(s, c, dying)
    ensures Named(s.subs, s.newest) && s.running !! s.parkedOn.Keys
  {
  }

  // ---------- what a call leaves alone ----------

  /** The name is found with the same entry as before, or not found as before. */
  ghost predicate SameEntry(name: string, s: Snapshot, t: Snapshot) {
    && (name in s.newest <==> name in t.newest)
    && (name in s.newest ==>
          var id := s.newest[name];
          t.newest[name] == id && id in s.subs && id in t.subs && t.subs[id] == s.subs[id])
  }

  ghost predicate SameOthers(s: Snapshot, t: Snapshot, names: set<string>) {
    forall n :: n !in names ==> SameEntry(n, s, t)
  }

  /** Requests other than those called are where they were. */
  ghost predicate OthersStay(s: Snapshot, t: Snapshot, called: seq<nat>) {
    && t.elsewhere == s.elsewhere
    && forall r :: r !in called ==>
         && (r in t.running <==> r in s.running) && (r in t.pending <==> r in s.pending)
         && (r in t.parkedOn <==> r in s.parkedOn) && (r in s.parkedOn ==> t.parkedOn[r] == s.parkedOn[r])
  }

  /** Entries keep their kind, and no identity comes back. */
  ghost predicate Kinds(s: Snapshot, t: Snapshot) {
    && s.nextId <= t.nextId
    && forall n :: n in t.subs && n < s.nextId ==> n in s.subs && t.subs[n].holder == s.subs[n].holder
  }

  ghost predicate Undisturbed(s: Snapshot, t: Snapshot, dying: set<nat>) {
    forall d :: d in dying ==> d in s.subs && d in t.subs && t.subs[d] == s.subs[d]
  }

  lemma SameTrans(s: Snapshot, t: Snapshot, u: Snapshot, names: set<string>)
    requires SameOthers(s, t, names) && SameOthers(t, u, names)
    ensures SameOthers(s, u, names)
  {
    forall n | n !in names
      ensures SameEntry(n, s, u)
    {
      assert SameEntry(n, s, t) && SameEntry(n, t, u);
    }
  }

  lemma SameMore(s: Snapshot, t: Snapshot, names: set<string>, more: set<string>)
    requires SameOthers(s, t, names) && names <= more
    ensures SameOthers(s, t, more)
  {
    forall n | n !in more
      ensures SameEntry(n, s, t)
    {
      assert n !in names;
    }
  }

  lemma StayTrans(s: Snapshot, t: Snapshot, u: Snapshot, called: seq<nat>, later: seq<nat>)
    requires OthersStay(s, t, called) && OthersStay(t, u, later) && forall r <- later :: r in called
    requires Kinds(s, t) && Kinds(t, u)
    ensures OthersStay(s, u, called) && Kinds(s, u)
  {
  }

  lemma NothingStays(s: Snapshot, called: seq<nat>)
    ensures OthersStay(s, s, called) && Kinds(s, s)
  {
  }

  lemma NothingIsSame(s: Snapshot, t: Snapshot, names: set<string>, c: Settings, dying: set<nat>)
    requires Inv(s, c, dying) && t.subs == s.subs && t.newest == s.newest
    ensures SameOthers(s, t, names)
  {
  }

  lemma UpdateIsSame(s: Snapshot, t: Snapshot, id: nat, sub: Sub)
    requires Named(s.subs, s.newest) && id in s.subs && t.subs == s.subs[id := sub] && t.newest == s.newest
    ensures SameOthers(s, t, {s.subs[id].name})
  {
  }

  lemma LinkIsSame(s: Snapshot, sub: Sub)
    requires Named(s.subs, s.newest) && Bounded(s.subs, s.nextId)
    ensures SameOthers(s, Linked(s, sub), {sub.name})
  {
  }

  lemma UnlinkIsSame(s: Snapshot, id: nat)
    requires Named(s.subs, s.newest) && id in s.subs
    ensures SameOthers(s, Unlinked(s, id), {s.subs[id].name})
  {
  }

  lemma SameEntries(s: Snapshot, t: Snapshot, u: Snapshot, names: set<string>)
    requires SameOthers(s, t, names) && u.subs == t.subs && u.newest == t.newest
    ensures SameOthers(s, u, names)
  {
    SameTrans(s, t, t, names);
  }

  /** What a call that wakes nobody may change: its own request's place, and its own name. */
  ghost predicate Local(s: Snapshot, t: Snapshot, r: nat, names: set<string>, dying: set<nat>) {
    SameOthers(s, t, names) && OthersStay(s, t, [r]) && Kinds(s, t) && Undisturbed(s, t, dying) && t.log == s.log
  }

  lemma LocalTrans(s: Snapshot, t: Snapshot, u: Snapshot, r: nat, names: set<string>, dying: set<nat>)
    requires Local(s, t, r, names, dying) && Local(t, u, r, names, dying)
    ensures Local(s, u, r, names, dying)
  {
    SameTrans(s, t, u, names);
  }

  lemma UpdateIsLocal(s: Snapshot, id: nat, sub: Sub, r: nat, c: Settings, dying: set<nat>)
    requires Inv(s, c, dying) && id in s.subs && id !in dying && sub.holder == s.subs[id].holder
    ensures Local(s, Updated(s, id, sub), r, {s.subs[id].name}, dying)
  {
    UpdateIsSame(s, Updated(s, id, sub), id, sub);
  }

  lemma ConfiguredIsLocal(s: Snapshot, r: nat, id: nat, a: Answer, c: Settings, dying: set<nat>)
    requires Inv(s, c, dying) && id in s.subs && id !in dying
    ensures var step := Configured(s, r, id, a, c);
        && Local(s, step.state, r, {s.subs[id].name}, dying)
        && (step.result.Container? ==> step.result.id in step.state.subs && !step.state.subs[step.result.id].holder)
  {
    match a.run
    case Pending => NothingIsSame(s, Suspended(s, r), {s.subs[id].name}, c, dying);
    case Failed => NothingIsSame(s, s, {s.subs[id].name}, c, dying);
    case Done(status, value) =>
      match Decide(s.subs[id], status, value, c.checkInterval != 0)
      case Serve => NothingIsSame(s, s, {s.subs[id].name}, c, dying);
      case Fail => NothingIsSame(s, s, {s.subs[id].name}, c, dying);
      case Gone => UpdateIsLocal(s, id, Missing(s.subs[id]), r, c, dying);
      case Replace(conf, tag) => ReplaceIsLocal(s, id, NewSub(s.subs[id].name, conf, tag, a.now), r, c, dying);
  }

  lemma ReplaceIsLocal(s: Snapshot, id: nat, sub: Sub, r: nat, c: Settings, dying: set<nat>)
    requires Inv(s, c, dying) && id in s.subs && id !in dying && sub.name == s.subs[id].name && !sub.holder
    ensures var t := Unlinked(Linked(s, sub), id);
        Local(s, t, r, {sub.name}, dying) && s.nextId in t.subs && t.subs[s.nextId] == sub
  {
    hide SameOthers, Found, Few;
    LinkIsSame(s, sub);
    var s1 := Linked(s, sub);
    assert Named(s1.subs, s1.newest);
    UnlinkIsSame(s1, id);
    SameTrans(s, s1, Unlinked(s1, id), {sub.name});
  }

  lemma HolderIsLocal(s: Snapshot, name: string, r: nat, c: Settings, dying: set<nat>)
    requires Inv(s, c, dying)
    ensures Local(s, Linked(s, Holder(name, c.errorTimeout)), r, {name}, dying)
  {
    hide SameOthers, Found, Few;
    LinkIsSame(s, Holder(name, c.errorTimeout));
  }

  lemma LookedIsLocal(s: Snapshot, r: nat, id: nat, a: Answer, c: Settings, dying: set<nat>)
    requires Inv(s, c, dying) && id in s.subs && (s.subs[id].errorRet == 0 ==> id !in dying)
    ensures var step := Looked(s, r, id, a, c);
        && Local(s, step.state, r, {s.subs[id].name}, dying)
        && (step.result.Container? ==> step.result.id in step.state.subs && !step.state.subs[step.result.id].holder)
  {
    hide SameOthers, Indexed, Queued, Configured, NeedsCheck;
    var sub := s.subs[id];
    NothingIsSame(s, s, {sub.name}, c, dying);
    if sub.errorRet != 0 {
    } else if sub.holder {
      UpdateIsLocal(s, id, sub.(waiters := sub.waiters + [r]), r, c, dying);
      SameEntries(s, Updated(s, id, sub.(waiters := sub.waiters + [r])), Parked(s, id, r), {sub.name});
    } else if !NeedsCheck(sub, a) {
      UpdateIsLocal(s, id, sub.(timer := Some(sub.conf.idleTimeout * 1000)), r, c, dying);
    } else {
      var s1 := Updated(s, id, Checked(sub, a.now));
      UpdateIsLocal(s, id, Checked(sub, a.now), r, c, dying);
      UpdateKeeps(s, id, Checked(sub, a.now), c, dying);
      ConfiguredIsLocal(s1, r, id, a, c, dying);
      LocalTrans(s, s1, Configured(s1, r, id, a, c).state, r, {sub.name}, dying);
    }
  }

  function Asks(a: Answer): set<string> {
    if a.name.Some? then {a.name.value} else {}
  }

  lemma NewIsLocal(s: Snapshot, r: nat, a: Answer, c: Settings, dying: set<nat>)
    requires Inv(s, c, dying) && a.name.Some? && |a.name.value| <= 100 && a.name.value !in s.newest
    requires |s.subs| < c.subMax
    ensures var step := Configured(Linked(s, Holder(a.name.value, c.errorTimeout)), r, s.nextId, a, c);
        && Local(s, step.state, r, {a.name.value}, dying)
        && (step.result.Container? ==> step.result.id in step.state.subs && !step.state.subs[step.result.id].holder)
  {
    hide Local, Configured, Indexed, Queued;
    var s1 := Linked(s, Holder(a.name.value, c.errorTimeout));
    HolderKeeps(s, a.name.value, c, dying);
    HolderIsLocal(s, a.name.value, r, c, dying);
    ConfiguredIsLocal(s1, r, s.nextId, a, c, dying);
    LocalTrans(s, s1, Configured(s1, r, s.nextId, a, c).state, r, {a.name.value}, dying);
  }

  lemma StartIsLocal(s: Snapshot, r: nat, names: set<string>, c: Settings, dying: set<nat>)
    requires Inv(s, c, dying)
    ensures Local(s, Started(s, r), r, names, dying)
  {
    NothingIsSame(s, Started(s, r), names, c, dying);
  }

  /** A call that wakes nobody touches nothing but its name and its request, and never returns a bare holder. */
  lemma QuietIsLocal(s: Snapshot, r: nat, a: Answer, c: Settings, dying: set<nat>)
    requires Inv(s, c, dying) && (r in s.running ==> dying == {})
    ensures Named(s.subs, s.newest)
    ensures var step := Quiet(s, r, a, c);
        && Local(s, step.state, r, Asks(a), dying)
        && (step.result.Container? ==> step.result.id in step.state.subs && !step.state.subs[step.result.id].holder)
  {
    hide Local, Inv, Configured, Looked;
    RunningIsNotParked(s, c, dying);
    var s1 := Started(s, r);
    StartKeeps(s, r, c, dying);
    StartIsLocal(s, r, Asks(a), c, dying);
    if a.name.Some? && |a.name.value| <= 100 {
      var name := a.name.value;
      if name in s.newest {
        LookupFinds(s, name, c, dying);
        if r in s.running {
          ConfiguredIsLocal(s1, r, s.newest[name], a, c, dying);
        } else {
          LookedIsLocal(s1, r, s.newest[name], a, c, dying);
        }
        LocalTrans(s, s1, Quiet(s, r, a, c).state, r, {name}, dying);
      } else if |s.subs| < c.subMax {
        NewIsLocal(s1, r, a, c, dying);
        LocalTrans(s, s1, Quiet(s, r, a, c).state, r, {name}, dying);
      }
    }
  }

  lemma AgainIsPending(s: Snapshot, r: nat, a: Answer, c: Settings)
    requires Named(s.subs, s.newest)
    ensures r in Quiet(s, r, a, c).state.pending <==> Quiet(s, r, a, c).result == Again
  {
  }

  // ---------- the wake-up ----------

  /** The oldest waiter of the dying holder `id` leaves its list and calls. */
  function WokeOne(s: Snapshot, id: nat, env: nat -> Answer, c: Settings): (t: Snapshot)
    requires Inv(s, c, {id}) && id in s.subs && s.subs[id].waiters != []
    ensures Inv(t, c, {id}) && id in t.subs
    ensures t.subs[id] == s.subs[id].(waiters := s.subs[id].waiters[1..])
  {
    var r := s.subs[id].waiters[0];
    CallerIsReady(s, id, env(r), c);
    var step := Quiet(Left(s, id, r), r, env(r), c);
    Logged(step.state, r, step.result)
  }

  lemma CallerIsReady(s: Snapshot, id: nat, a: Answer, c: Settings)
    requires Inv(s, c, {id}) && id in s.subs && s.subs[id].waiters != []
    ensures var r := s.subs[id].waiters[0];
        var t := Left(s, id, r);
        && Inv(t, c, {id}) && Named(t.subs, t.newest) && r !in t.running && id in t.subs
        && t.subs[id].waiters == s.subs[id].waiters[1..]
        && Inv(Quiet(t, r, a, c).state, c, {id}) && Undisturbed(t, Quiet(t, r, a, c).state, {id})
  {
    hide Inv, Quiet, SameOthers, OthersStay, Kinds;
    var r := s.subs[id].waiters[0];
    var t := Left(s, id, r);
    LeaveKeeps(s, id, r, c, {id});
    RunningIsNotParked(t, c, {id});
    QuietKeeps(t, r, a, c, {id});
    QuietIsLocal(t, r, a, c, {id});
  }

  /** After the first `k` waiters of the dying holder `id` have called. */
  function Woken(s: Snapshot, id: nat, k: nat, env: nat -> Answer, c: Settings): (t: Snapshot)
    requires Inv(s, c, {id}) && id in s.subs && k <= |s.subs[id].waiters|
    ensures Inv(t, c, {id}) && id in t.subs
    ensures t.subs[id] == s.subs[id].(waiters := s.subs[id].waiters[k..])
  {
    if k == 0 then s else WokeOne(Woken(s, id, k - 1, env, c), id, env, c)
  }

  /** What the waiter at place `j` is told. */
  function Turn(s: Snapshot, id: nat, j: nat, env: nat -> Answer, c: Settings): Result
    requires Inv(s, c, {id}) && id in s.subs && j < |s.subs[id].waiters|
  {
    var r := s.subs[id].waiters[j];
    var t := Woken(s, id, j, env, c);
    CallerIsReady(t, id, env(r), c);
    Quiet(Left(t, id, r), r, env(r), c).result
  }

  /** A dying holder without an error code gets one. */
  function Failing(s: Snapshot, id: nat): Snapshot
    requires id in s.subs
  {
    if s.subs[id].errorRet == 0 then Updated(s, id, s.subs[id].(errorRet := 500)) else s
  }

  lemma FailingKeeps(s: Snapshot, id: nat, c: Settings)
    requires Leaving(s, id, c, {}) && s.subs[id].waiters != []
    ensures Inv(Failing(s, id), c, {id})
  {
    hide Indexed, Accounted;
    assert {} + {id} == {id};
    UpdateKeepsIndex(s.subs, s.newest, s.nextId, c.subMax, {id}, id, s.subs[id].(errorRet := 500));
    UpdateKeepsQueues(s.subs, s.parkedOn, id, s.subs[id].(errorRet := 500));
  }

  /** An entry goes, after its waiters have been woken. */
  function Deleted(s: Snapshot, id: nat, env: nat -> Answer, c: Settings): Snapshot
    requires id in s.subs && (s.subs[id].waiters != [] ==> Leaving(s, id, c, {}))
  {
    if s.subs[id].waiters == [] then Unlinked(s, id)
    else
      FailingKeeps(s, id, c);
      Unlinked(Woken(Failing(s, id), id, |s.subs[id].waiters|, env, c), id)
  }

  lemma DeleteKeeps(s: Snapshot, id: nat, env: nat -> Answer, c: Settings)
    requires Leaving(s, id, c, {})
    ensures Inv(Deleted(s, id, env, c), c, {})
  {
    hide Indexed, Queued, Accounted;
    if s.subs[id].waiters == [] {
      UnlinkKeeps(s, id, c, {});
    } else {
      FailingKeeps(s, id, c);
      var t := Woken(Failing(s, id), id, |s.subs[id].waiters|, env, c);
      assert {} + {id} == {id};
      UnlinkKeeps(t, id, c, {});
    }
  }

  // ---------- any call ----------

  /** A call of a new, parked or resumed request, and of those it wakes. */
  function Called(s: Snapshot, r: nat, a: Answer, env: nat -> Answer, c: Settings): Step
    requires Named(s.subs, s.newest) && (r in s.running ==> Inv(s, c, {}))
  {
    if Wakes(s, r, a, c) then
      SuccessorKeeps(s, r, a, c);
      Step(Deleted(Replacing(s, r, a, c), s.newest[a.name.value], env, c), Container(s.nextId))
    else Quiet(s, r, a, c)
  }

  /** The entry that takes the place of one with waiters. */
  function Successor(sub: Sub, a: Answer, c: Settings): Sub
    requires !ReplacesAlone(sub, a, c)
  {
    var v := Decide(sub, a.run.status, a.run.value, c.checkInterval != 0);
    NewSub(sub.name, v.conf, v.tag, a.now)
  }

  /** The call has linked the new entry, and has not deleted the old one yet. */
  function Replacing(s: Snapshot, r: nat, a: Answer, c: Settings): Snapshot
    requires Named(s.subs, s.newest) && Wakes(s, r, a, c)
  {
    Linked(Started(s, r), Successor(s.subs[s.newest[a.name.value]], a, c))
  }

  lemma SuccessorKeeps(s: Snapshot, r: nat, a: Answer, c: Settings)
    requires Inv(s, c, {}) && Wakes(s, r, a, c)
    ensures Leaving(Replacing(s, r, a, c), s.newest[a.name.value], c, {})
    ensures s.nextId !in s.subs && s.newest[a.name.value] < s.nextId
  {
    hide Inv, Decide;
    StartKeeps(s, r, c, {});
    LookupFinds(s, a.name.value, c, {});
    ReplaceKeeps(Started(s, r), s.newest[a.name.value], Successor(s.subs[s.newest[a.name.value]], a, c), c, {});
  }

  lemma LogIsFree(s: Snapshot, t: Snapshot, c: Settings, dying: set<nat>)
    requires t == s.(log := t.log)
    ensures Inv(t, c, dying) <==> Inv(s, c, dying)
  {
  }

  /** Every call keeps the invariant exactly if it is sound. */
  lemma CallKeeps(s: Snapshot, r: nat, a: Answer, env: nat -> Answer, c: Settings, dying: set<nat>)
    requires Inv(s, c, dying) && (r in s.running ==> dying == {})
    ensures Inv(Called(s, r, a, env, c).state, c, dying) <==> Sound(s, r, a, c)
  {
    hide Inv, Quiet, Deleted;
    RunningIsNotParked(s, c, dying);
    if Wakes(s, r, a, c) {
      SuccessorKeeps(s, r, a, c);
      DeleteKeeps(Replacing(s, r, a, c), s.newest[a.name.value], env, c);
    } else {
      QuietKeeps(s, r, a, c, dying);
    }
  }

  // ---------- what the waiters get ----------

  /** Every name that the wake-up of `waiters` on an entry of that name may touch. */
  function Touched(name: string, waiters: seq<nat>, env: nat -> Answer): set<string> {
    {name} + set w <- waiters | env(w).name.Some? :: env(w).name.value
  }

  /** Nothing but the names asked for, the waiters and the dying holder itself is touched. */
  lemma {:induction false} WokenIsLocal(s: Snapshot, id: nat, k: nat, env: nat -> Answer, c: Settings)
    requires Inv(s, c, {id}) && id in s.subs && k <= |s.subs[id].waiters|
    ensures var t := Woken(s, id, k, env, c);
        && SameOthers(s, t, Touched(s.subs[id].name, s.subs[id].waiters, env))
        && OthersStay(s, t, s.subs[id].waiters) && Kinds(s, t)
  {
    hide Inv, SameOthers, OthersStay, Kinds, Touched, Quiet;
    var sub := s.subs[id];
    var names := Touched(sub.name, sub.waiters, env);
    if k == 0 {
      NothingIsSame(s, s, names, c, {id});
      NothingStays(s, sub.waiters);
    } else {
      var t, u := Woken(s, id, k - 1, env, c), Woken(s, id, k, env, c);
      WokenIsLocal(s, id, k - 1, env, c);
      WokeOneIsLocal(t, id, env, c);
      assert sub.waiters[k - 1..][0] == sub.waiters[k - 1];
      TouchedHas(sub.name, sub.waiters, k - 1, env);
      SameMore(t, u, {sub.name} + Asks(env(sub.waiters[k - 1])), names);
      SameTrans(s, t, u, names);
      StayTrans(s, t, u, sub.waiters, [sub.waiters[k - 1]]);
    }
  }

  lemma TouchedHas(name: string, waiters: seq<nat>, j: nat, env: nat -> Answer)
    requires j < |waiters|
    ensures {name} + Asks(env(waiters[j])) <= Touched(name, waiters, env)
  {
    assert waiters[j] in waiters;
  }

  lemma WokeOneIsLocal(s: Snapshot, id: nat, env: nat -> Answer, c: Settings)
    requires Inv(s, c, {id}) && id in s.subs && s.subs[id].waiters != []
    ensures var t := WokeOne(s, id, env, c);
        var r := s.subs[id].waiters[0];
        SameOthers(s, t, {s.subs[id].name} + Asks(env(r))) && OthersStay(s, t, [r]) && Kinds(s, t)
  {
    hide Inv, SameOthers, Quiet, Asks;
    var r := s.subs[id].waiters[0];
    var names := {s.subs[id].name} + Asks(env(r));
    var left := Left(s, id, r);
    CallerIsReady(s, id, env(r), c);
    RunningIsNotParked(s, c, {id});
    UpdateIsSame(s, left, id, left.subs[id]);
    SameMore(s, left, {s.subs[id].name}, names);
    QuietIsLocal(left, r, env(r), c, {id});
    var t := Quiet(left, r, env(r), c).state;
    SameMore(left, t, Asks(env(r)), names);
    SameTrans(s, left, t, names);
    SameEntries(s, t, WokeOne(s, id, env, c), names);
  }

  /** Each waiter calls once, oldest first, and nobody else does; it is pending again exactly if it was told so. */
  lemma {:induction false} WokenInTurn(s: Snapshot, id: nat, k: nat, env: nat -> Answer, c: Settings)
    requires Inv(s, c, {id}) && id in s.subs && k <= |s.subs[id].waiters|
    ensures var t := Woken(s, id, k, env, c);
        && |t.log| == |s.log| + k && t.log[..|s.log|] == s.log
        && forall j :: 0 <= j < k ==>
             && t.log[|s.log| + j] == Entry(s.subs[id].waiters[j], Turn(s, id, j, env, c))
             && (s.subs[id].waiters[j] in t.pending <==> Turn(s, id, j, env, c) == Again)
  {
    hide Inv, Turn;
    if k > 0 {
      WokenInTurn(s, id, k - 1, env, c);
      OneInTurn(s, id, k - 1, env, c);
      WaitersAreOnce(s, id, c);
    }
  }

  lemma OneInTurn(s: Snapshot, id: nat, k: nat, env: nat -> Answer, c: Settings)
    requires Inv(s, c, {id}) && id in s.subs && k < |s.subs[id].waiters|
    ensures var t, u, r := Woken(s, id, k, env, c), Woken(s, id, k + 1, env, c), s.subs[id].waiters[k];
        && u.log == t.log + [Entry(r, Turn(s, id, k, env, c))]
        && (r in u.pending <==> Turn(s, id, k, env, c) == Again)
        && forall q :: q != r ==> (q in u.pending <==> q in t.pending)
  {
    hide Inv, Quiet, SameOthers, Kinds;
    var t, r := Woken(s, id, k, env, c), s.subs[id].waiters[k];
    assert s.subs[id].waiters[k..][0] == r;
    CallerIsReady(t, id, env(r), c);
    AgainIsPending(Left(t, id, r), r, env(r), c);
    QuietIsLocal(Left(t, id, r), r, env(r), c, {id});
  }

  lemma WaitersAreOnce(s: Snapshot, id: nat, c: Settings)
    requires Inv(s, c, {id}) && id in s.subs
    ensures Once(s.subs[id].waiters)
  {
  }

  /** Without a successor, those who ask for the name again get the holder's error code. */
  lemma Refused(s: Snapshot, id: nat, j: nat, env: nat -> Answer, c: Settings)
    requires Inv(s, c, {id}) && id in s.subs && j < |s.subs[id].waiters|
    requires s.subs[id].name in s.newest && s.newest[s.subs[id].name] == id
    requires env(s.subs[id].waiters[j]).name == Some(s.subs[id].name)
    ensures Turn(s, id, j, env, c) == Error(s.subs[id].errorRet)
  {
    hide Configured;
    StillNamed(s, id, j, env, c);
    LookupFinds(s, s.subs[id].name, c, {id});
  }

  lemma {:induction false} StillNamed(s: Snapshot, id: nat, k: nat, env: nat -> Answer, c: Settings)
    requires Inv(s, c, {id}) && id in s.subs && k <= |s.subs[id].waiters|
    requires s.subs[id].name in s.newest && s.newest[s.subs[id].name] == id
    ensures var t := Woken(s, id, k, env, c); s.subs[id].name in t.newest && t.newest[s.subs[id].name] == id
  {
    if k > 0 {
      var name := s.subs[id].name;
      var t := Woken(s, id, k - 1, env, c);
      StillNamed(s, id, k - 1, env, c);
      OneStaysNamed(t, id, env, c);
    }
  }

  lemma OneStaysNamed(s: Snapshot, id: nat, env: nat -> Answer, c: Settings)
    requires Inv(s, c, {id}) && id in s.subs && s.subs[id].waiters != []
    requires s.subs[id].name in s.newest && s.newest[s.subs[id].name] == id
    ensures var t := WokeOne(s, id, env, c); s.subs[id].name in t.newest && t.newest[s.subs[id].name] == id
  {
    hide Configured, Indexed, Queued, NeedsCheck;
    var name := s.subs[id].name;
    var r := s.subs[id].waiters[0];
    var left := Left(s, id, r);
    LookupFinds(s, name, c, {id});
    CallerIsReady(s, id, env(r), c);
    QuietIsLocal(left, r, env(r), c, {id});
    if env(r).name != Some(name) {
      assert SameEntry(name, left, Quiet(left, r, env(r), c).state);
    }
  }

  /** Entry `n` is linked as `left`, or gone. */
  ghost predicate Remains(n: nat, left: Option<Sub>, s: Snapshot) {
    if left == None then n !in s.subs
    else n in s.subs && s.subs[n] == left.value && left.value.name in s.newest && s.newest[left.value.name] == n
  }

  /** The lookup of a live entry does to it what the value-level lookup says, and is told so. */
  lemma LookedMeans(s: Snapshot, r: nat, n: nat, a: Answer, c: Settings)
    requires n in s.subs && n < s.nextId && !s.subs[n].holder && Remains(n, Some(s.subs[n]), s)
    ensures var step := Looked(s, r, n, a, c);
        && Remains(n, Asked(s.subs[n], a, c.checkInterval != 0), step.state)
        && Told(n, s.subs[n], a, c.checkInterval != 0, step.result)
  {
  }

  /** A successor `n` of the dying holder `id`. */
  ghost predicate Succeeds(s: Snapshot, id: nat, n: nat) {
    n != id && id in s.subs && n in s.subs && n < s.nextId && !s.subs[n].holder && s.subs[n].name == s.subs[id].name
    && Remains(n, Some(s.subs[n]), s)
  }

  /** A call while `left` is what there is of entry `n`. */
  lemma SuccessorCalls(s: Snapshot, n: nat, name: string, left: Option<Sub>, r: nat, a: Answer, c: Settings, id: nat)
    requires Inv(s, c, {id}) && r !in s.running && |name| <= 100 && n < s.nextId && Remains(n, left, s)
    requires left.Some? ==> left.value.name == name && !left.value.holder
    ensures Named(s.subs, s.newest)
    ensures var step := Quiet(s, r, a, c);
        if left == None || a.name != Some(name) then Remains(n, left, step.state)
        else
          && Remains(n, Asked(left.value, a, c.checkInterval != 0), step.state)
          && Told(n, left.value, a, c.checkInterval != 0, step.result)
  {
    hide Asked, Told, Looked, Configured;
    RunningIsNotParked(s, c, {id});
    QuietIsLocal(s, r, a, c, {id});
    if left.Some? {
      if a.name == Some(name) {
        LookedMeans(Started(s, r), r, n, a, c);
      } else {
        assert SameEntry(name, s, Quiet(s, r, a, c).state);
      }
    }
  }

  /** One waiter's turn, by the state of the successor before it. */
  lemma OneLeaves(s: Snapshot, id: nat, n: nat, j: nat, left: Option<Sub>, env: nat -> Answer, c: Settings)
    requires Inv(s, c, {id}) && Succeeds(s, id, n) && j < |s.subs[id].waiters|
    requires left.Some? ==> left.value.name == s.subs[id].name && !left.value.holder
    requires Remains(n, left, Woken(s, id, j, env, c))
    ensures var a := env(s.subs[id].waiters[j]);
        var t := Woken(s, id, j + 1, env, c);
        if left == None || a.name != Some(s.subs[id].name) then Remains(n, left, t)
        else
          && Remains(n, Asked(left.value, a, c.checkInterval != 0), t)
          && Told(n, left.value, a, c.checkInterval != 0, Turn(s, id, j, env, c))
  {
    hide Inv, Outcome, Asked, Told, Quiet, SameOthers, OthersStay;
    var t := Woken(s, id, j, env, c);
    var r := s.subs[id].waiters[j];
    assert t.subs[id].waiters[0] == r;
    WokenIsLocal(s, id, j, env, c);
    ShortName(s, id, c);
    CallerIsReady(t, id, env(r), c);
    SuccessorCalls(Left(t, id, r), n, s.subs[id].name, left, r, env(r), c, id);
    assert Woken(s, id, j + 1, env, c) == WokeOne(t, id, env, c);
  }

  lemma ShortName(s: Snapshot, id: nat, c: Settings)
    requires Inv(s, c, {id}) && id in s.subs
    ensures |s.subs[id].name| <= 100
  {
  }

  /** The waiters leave the successor as their answers say. */
  lemma {:induction false} SuccessorIsLeft(s: Snapshot, id: nat, n: nat, k: nat, env: nat -> Answer, c: Settings)
    requires Inv(s, c, {id}) && Succeeds(s, id, n) && k <= |s.subs[id].waiters|
    ensures Remains(n, Outcome(s.subs[n], s.subs[id].waiters[..k], env, c.checkInterval != 0), Woken(s, id, k, env, c))
  {
    hide Inv, Asked, Told, Quiet;
    if k > 0 {
      var waiters := s.subs[id].waiters;
      SuccessorIsLeft(s, id, n, k - 1, env, c);
      assert waiters[..k][..k - 1] == waiters[..k - 1];
      OneLeaves(s, id, n, k - 1, Outcome(s.subs[n], waiters[..k - 1], env, c.checkInterval != 0), env, c);
    }
  }

  /** Who asks for the successor is told by its state at that turn. */
  lemma SuccessorIsTold(s: Snapshot, id: nat, n: nat, j: nat, env: nat -> Answer, c: Settings)
    requires Inv(s, c, {id}) && Succeeds(s, id, n) && j < |s.subs[id].waiters|
    requires env(s.subs[id].waiters[j]).name == Some(s.subs[id].name)
    ensures var left := Outcome(s.subs[n], s.subs[id].waiters[..j], env, c.checkInterval != 0);
        left.Some? ==> Told(n, left.value, env(s.subs[id].waiters[j]), c.checkInterval != 0, Turn(s, id, j, env, c))
  {
    hide Inv, Asked, Told, Quiet;
    SuccessorIsLeft(s, id, n, j, env, c);
    OneLeaves(s, id, n, j, Outcome(s.subs[n], s.subs[id].waiters[..j], env, c.checkInterval != 0), env, c);
  }

  // ---------- a deletion as a whole ----------

  /** Each waiter called once, in order, and nobody else did; it is pending again exactly if it was told so. */
  ghost predicate InOrder(s: Snapshot, t: Snapshot, waiters: seq<nat>) {
    && |t.log| == |s.log| + |waiters| && t.log[..|s.log|] == s.log
    && (forall j :: 0 <= j < |waiters| ==> t.log[|s.log| + j].request == waiters[j])
    && (forall j :: 0 <= j < |waiters| ==> (waiters[j] in t.pending <==> t.log[|s.log| + j].result == Again))
  }

  lemma DeletedInOrder(s: Snapshot, id: nat, env: nat -> Answer, c: Settings)
    requires Leaving(s, id, c, {})
    ensures InOrder(s, Deleted(s, id, env, c), s.subs[id].waiters)
  {
    hide Inv, InOrder, Woken, Indexed, Queued, Accounted, Closing;
    if s.subs[id].waiters == [] {
      NobodyInOrder(s, Unlinked(s, id));
    } else {
      FailingKeeps(s, id, c);
      WokenInOrder(Failing(s, id), id, env, c);
      var t := Woken(Failing(s, id), id, |s.subs[id].waiters|, env, c);
      SameInOrder(Failing(s, id), t, s, Unlinked(t, id), s.subs[id].waiters);
    }
  }

  lemma NobodyInOrder(s: Snapshot, t: Snapshot)
    requires t.log == s.log
    ensures InOrder(s, t, [])
  {
  }

  lemma SameInOrder(s: Snapshot, t: Snapshot, s2: Snapshot, t2: Snapshot, waiters: seq<nat>)
    requires InOrder(s, t, waiters) && s2.log == s.log && t2.log == t.log && t2.pending == t.pending
    ensures InOrder(s2, t2, waiters)
  {
  }

  lemma WokenInOrder(s: Snapshot, id: nat, env: nat -> Answer, c: Settings)
    requires Inv(s, c, {id}) && id in s.subs
    ensures InOrder(s, Woken(s, id, |s.subs[id].waiters|, env, c), s.subs[id].waiters)
  {
    hide Inv, Turn, Woken;
    WokenInTurn(s, id, |s.subs[id].waiters|, env, c);
  }

  /** Nothing is touched but the entry, its waiters, its name and the names they ask for. */
  lemma DeletedIsLocal(s: Snapshot, id: nat, env: nat -> Answer, c: Settings)
    requires Leaving(s, id, c, {})
    ensures var t := Deleted(s, id, env, c);
        && SameOthers(s, t, Touched(s.subs[id].name, s.subs[id].waiters, env))
        && OthersStay(s, t, s.subs[id].waiters) && Kinds(s, t) && id !in t.subs
  {
    hide Woken, Touched, SameOthers, Queued, Accounted, Closing, Found, Few;
    var sub := s.subs[id];
    var names := Touched(sub.name, sub.waiters, env);
    NameIsTouched(sub.name, sub.waiters, env);
    if sub.waiters == [] {
      UnlinkIsSame(s, id);
      SameMore(s, Unlinked(s, id), {sub.name}, names);
    } else {
      FailingKeeps(s, id, c);
      FailingIsLocal(s, id, names, c);
      WokenIsLocal(Failing(s, id), id, |sub.waiters|, env, c);
      var t := Woken(Failing(s, id), id, |sub.waiters|, env, c);
      SameTrans(s, Failing(s, id), t, names);
      UnlinkIsSame(t, id);
      SameMore(t, Unlinked(t, id), {sub.name}, names);
      SameTrans(s, t, Unlinked(t, id), names);
    }
  }

  lemma FailingIsLocal(s: Snapshot, id: nat, names: set<string>, c: Settings)
    requires Named(s.subs, s.newest) && id in s.subs && s.subs[id].name in names
    ensures SameOthers(s, Failing(s, id), names) && Kinds(s, Failing(s, id))
  {
    assert s.subs[id := s.subs[id]] == s.subs;
    UpdateIsSame(s, Failing(s, id), id, Failing(s, id).subs[id]);
    SameMore(s, Failing(s, id), {s.subs[id].name}, names);
  }

  lemma NameIsTouched(name: string, waiters: seq<nat>, env: nat -> Answer)
    ensures {name} <= Touched(name, waiters, env)
  {
  }

  /** Without a successor, who asks for the name again gets the code of the entry, or 500. */
  lemma DeletedRefuses(s: Snapshot, id: nat, j: nat, env: nat -> Answer, c: Settings)
    requires Leaving(s, id, c, {}) && j < |s.subs[id].waiters|
    requires s.subs[id].name in s.newest && s.newest[s.subs[id].name] == id
    requires env(s.subs[id].waiters[j]).name == Some(s.subs[id].name)
    ensures var t := Deleted(s, id, env, c);
        && |t.log| > |s.log| + j
        && t.log[|s.log| + j].result == Error(if s.subs[id].errorRet == 0 then 500 else s.subs[id].errorRet)
  {
    hide Inv, Turn, Woken;
    FailingKeeps(s, id, c);
    WokenInTurn(Failing(s, id), id, |s.subs[id].waiters|, env, c);
    Refused(Failing(s, id), id, j, env, c);
  }

  /** With a successor, it is what the waiters left of it, and who asked for it was told by its state then. */
  ghost predicate Handed(s: Snapshot, t: Snapshot, n: nat, first: Sub, waiters: seq<nat>, env: nat -> Answer,
                         checking: bool)
    requires |t.log| == |s.log| + |waiters|
  {
    && Remains(n, Outcome(first, waiters, env, checking), t)
    && forall j :: 0 <= j < |waiters| ==> ToldAt(n, first, waiters, env, checking, j, t.log, |s.log|)
  }

  /** If waiter `j` asks for entry `n` while it is there, it is told by its state at that turn. */
  ghost predicate ToldAt(n: nat, first: Sub, waiters: seq<nat>, env: nat -> Answer, checking: bool, j: nat,
                         log: seq<Entry>, base: nat)
    requires j < |waiters| && base + j < |log|
  {
    var left := Outcome(first, waiters[..j], env, checking);
    env(waiters[j]).name == Some(first.name) && left.Some? ==>
      Told(n, left.value, env(waiters[j]), checking, log[base + j].result)
  }

  lemma DeletedHands(s: Snapshot, id: nat, n: nat, env: nat -> Answer, c: Settings)
    requires Leaving(s, id, c, {}) && Succeeds(s, id, n) && s.subs[id].waiters != []
    ensures var t := Deleted(s, id, env, c);
        && |t.log| == |s.log| + |s.subs[id].waiters|
        && Handed(s, t, n, s.subs[n], s.subs[id].waiters, env, c.checkInterval != 0)
  {
    hide Inv, Woken, ToldAt, Outcome, Indexed, Queued, Accounted, Closing;
    FailingKeeps(s, id, c);
    WokenHands(Failing(s, id), id, n, env, c);
  }

  lemma WokenHands(s: Snapshot, id: nat, n: nat, env: nat -> Answer, c: Settings)
    requires Inv(s, c, {id}) && Succeeds(s, id, n)
    ensures var t := Woken(s, id, |s.subs[id].waiters|, env, c);
        && |t.log| == |s.log| + |s.subs[id].waiters|
        && Handed(s, t, n, s.subs[n], s.subs[id].waiters, env, c.checkInterval != 0)
  {
    hide Inv, Turn, Woken, Told, Outcome;
    var waiters := s.subs[id].waiters;
    var checking := c.checkInterval != 0;
    var t := Woken(s, id, |waiters|, env, c);
    WokenInTurn(s, id, |waiters|, env, c);
    SuccessorIsLeft(s, id, n, |waiters|, env, c);
    assert waiters[..|waiters|] == waiters;
    forall j | 0 <= j < |waiters|
      ensures ToldAt(n, s.subs[n], waiters, env, checking, j, t.log, |s.log|)
    {
      if env(waiters[j]).name == Some(s.subs[n].name) {
        SuccessorIsTold(s, id, n, j, env, c);
      }
    }
  }

  // ---------- a call as a whole ----------

  /** The requests and the names that a call may touch. */
  function Callers(s: Snapshot, r: nat, a: Answer, c: Settings): seq<nat>
    requires Named(s.subs, s.newest)
  {
    [r] + if Wakes(s, r, a, c) then s.subs[s.newest[a.name.value]].waiters else []
  }

  function Names(s: Snapshot, r: nat, a: Answer, env: nat -> Answer, c: Settings): set<string>
    requires Named(s.subs, s.newest)
  {
    if Wakes(s, r, a, c) then Touched(a.name.value, s.subs[s.newest[a.name.value]].waiters, env) else Asks(a)
  }

  /** Whatever a call does, entries of names nobody asked for and requests nobody called are untouched. */
  lemma CallIsLocal(s: Snapshot, r: nat, a: Answer, env: nat -> Answer, c: Settings, dying: set<nat>)
    requires Inv(s, c, dying) && (r in s.running ==> dying == {})
    ensures Named(s.subs, s.newest)
    ensures var step := Called(s, r, a, env, c);
        && SameOthers(s, step.state, Names(s, r, a, env, c)) && OthersStay(s, step.state, Callers(s, r, a, c))
        && Kinds(s, step.state) && (r in step.state.pending <==> step.result == Again)
        && (step.result.Container? && step.result.id in step.state.subs ==> !step.state.subs[step.result.id].holder)
  {
    hide Inv, Quiet, Deleted, SameOthers, Touched;
    RunningIsNotParked(s, c, dying);
    if Wakes(s, r, a, c) {
      WakeIsLocal(s, r, a, env, c);
    } else {
      AgainIsPending(s, r, a, c);
      QuietIsLocal(s, r, a, c, dying);
    }
  }

  lemma WakeIsLocal(s: Snapshot, r: nat, a: Answer, env: nat -> Answer, c: Settings)
    requires Inv(s, c, {}) && Wakes(s, r, a, c)
    ensures var t := Called(s, r, a, env, c).state;
        && SameOthers(s, t, Names(s, r, a, env, c)) && OthersStay(Started(s, r), t, Callers(s, r, a, c)[1..])
        && Kinds(s, t) && r !in t.pending && s.newest[a.name.value] !in t.subs
        && (s.nextId in t.subs ==> !t.subs[s.nextId].holder)
  {
    hide Deleted, SameOthers, Touched, Indexed, Queued, Closing, ReplacesAlone, Leaving;
    RunningIsNotParked(s, c, {});
    var id, s0, names := s.newest[a.name.value], Started(s, r), Names(s, r, a, env, c);
    var sub := Successor(s.subs[id], a, c);
    var s1 := Linked(s0, sub);
    LookupFinds(s, a.name.value, c, {});
    SuccessorKeeps(s, r, a, c);
    StartKeeps(s, r, c, {});
    NotParkedNotThere(s, r, id, c);
    DeletedIsLocal(s1, id, env, c);
    assert Callers(s, r, a, c)[1..] == s.subs[id].waiters;
    NameIsTouched(sub.name, s.subs[id].waiters, env);
    LinkedIsSame(s0, sub, names, c);
    NothingIsSame(s, s0, names, c, {});
    SameTrans(s, s0, s1, names);
    SameTrans(s, s1, Deleted(s1, id, env, c), names);
  }

  lemma NotParkedNotThere(s: Snapshot, r: nat, id: nat, c: Settings)
    requires Inv(s, c, {}) && r in s.running && id in s.subs
    ensures r !in s.subs[id].waiters
  {
  }

  lemma LinkedIsSame(s: Snapshot, sub: Sub, names: set<string>, c: Settings)
    requires Inv(s, c, {}) && sub.name in names
    ensures SameOthers(s, Linked(s, sub), names)
  {
    hide SameOthers;
    LinkIsSame(s, sub);
    SameMore(s, Linked(s, sub), {sub.name}, names);
  }

  /** A replacement with waiters: the holder goes, each waiter is called once, in order, and told by the
      state of the new entry at its turn, and that is afterwards what the waiters left of it. */
  lemma WakeHands(s: Snapshot, r: nat, a: Answer, env: nat -> Answer, c: Settings)
    requires Inv(s, c, {}) && Wakes(s, r, a, c)
    ensures var step := Called(s, r, a, env, c);
        var was := s.subs[s.newest[a.name.value]];
        && step.result == Container(s.nextId) && InOrder(s, step.state, was.waiters)
        && Handed(s, step.state, s.nextId, Successor(was, a, c), was.waiters, env, c.checkInterval != 0)
  {
    hide Deleted, Handed, Indexed, Queued, Accounted, Decide, InOrder;
    RunningIsNotParked(s, c, {});
    var id := s.newest[a.name.value];
    var s1 := Replacing(s, r, a, c);
    SuccessorKeeps(s, r, a, c);
    var t := Deleted(s1, id, env, c);
    DeletedInOrder(s1, id, env, c);
    SameInOrder(s1, t, s, t, s.subs[id].waiters);
    DeletedHands(s1, id, s.nextId, env, c);
    SameLogHands(s1, s, t, s.nextId, s1.subs[s.nextId], s.subs[id].waiters, env, c.checkInterval != 0);
  }

  /** The caller is given an entry that is gone exactly if a waiter of its name replaced it in turn. */
  lemma GivenUnlessReplaced(s: Snapshot, r: nat, a: Answer, env: nat -> Answer, c: Settings)
    requires Inv(s, c, {}) && Wakes(s, r, a, c)
    ensures var step := Called(s, r, a, env, c);
        var was := s.subs[s.newest[a.name.value]];
        var checking := c.checkInterval != 0;
        step.result.Container? &&
        (step.result.id !in step.state.subs <==>
          exists j :: 0 <= j < |was.waiters| && ReplacesAt(Successor(was, a, c), was.waiters, env, checking, j))
  {
    RunningIsNotParked(s, c, {});
    hide Inv, Called, Outcome, Successor;
    var was := s.subs[s.newest[a.name.value]];
    WakeHands(s, r, a, env, c);
    GoneIffReplaced(Successor(was, a, c), was.waiters, env, c.checkInterval != 0);
  }

  /** If no clock moves, everybody who waited for the name is given the new entry, and so is the caller. */
  lemma EverybodyIsGiven(s: Snapshot, r: nat, a: Answer, env: nat -> Answer, c: Settings)
    requires Inv(s, c, {}) && Wakes(s, r, a, c)
    requires forall w <- s.subs[s.newest[a.name.value]].waiters :: env(w).name == a.name ==> env(w).now <= a.now
    ensures var step := Called(s, r, a, env, c);
        && step.result == Container(s.nextId) && s.nextId in step.state.subs
        && Given(s, step.state, s.nextId, a.name.value, s.subs[s.newest[a.name.value]].waiters, env)
  {
    RunningIsNotParked(s, c, {});
    hide Inv, Called, Outcome, Handed, Given, Calm, InOrder;
    var was := s.subs[s.newest[a.name.value]];
    var first := Successor(was, a, c);
    WakeHands(s, r, a, env, c);
    LookupFinds(s, a.name.value, c, {});
    SameTimeIsCalm(first.name, first.conf, first.tag, a.now, was.waiters, env);
    CalmIsHanded(s, Called(s, r, a, env, c).state, s.nextId, first, was.waiters, env, c.checkInterval != 0);
  }

  /** Every waiter that asks for the name is given entry `n`. */
  ghost predicate Given(s: Snapshot, t: Snapshot, n: nat, name: string, waiters: seq<nat>, env: nat -> Answer) {
    && |t.log| == |s.log| + |waiters|
    && forall j :: 0 <= j < |waiters| && env(waiters[j]).name == Some(name) ==>
         t.log[|s.log| + j] == Entry(waiters[j], Container(n))
  }

  lemma CalmIsHanded(s: Snapshot, t: Snapshot, n: nat, first: Sub, waiters: seq<nat>, env: nat -> Answer,
                     checking: bool)
    requires InOrder(s, t, waiters) && Handed(s, t, n, first, waiters, env, checking) && Calm(first, waiters, env)
    ensures n in t.subs && Given(s, t, n, first.name, waiters, env)
  {
    hide Outcome, Told, Calm;
    CalmStays(first, waiters, env, checking);
    forall j | 0 <= j < |waiters| && env(waiters[j]).name == Some(first.name)
      ensures t.log[|s.log| + j].result == Container(n)
    {
      assert ToldAt(n, first, waiters, env, checking, j, t.log, |s.log|);
      CalmIsGiven(n, first, waiters, env, checking, j, t.log[|s.log| + j].result);
    }
  }

  lemma SameLogHands(s: Snapshot, s2: Snapshot, t: Snapshot, n: nat, first: Sub, waiters: seq<nat>, env: nat -> Answer,
                     checking: bool)
    requires s.log == s2.log && |t.log| == |s.log| + |waiters| && Handed(s, t, n, first, waiters, env, checking)
    ensures Handed(s2, t, n, first, waiters, env, checking)
  {
  }

  // ---------- the timer ----------

  /** The timer of entry `id` fires. */
  function Expired(s: Snapshot, id: nat, env: nat -> Answer, c: Settings): Snapshot
    requires Inv(s, c, {}) && id in s.subs
  {
    ExpiryStarts(s, id, c);
    Deleted(Updated(s, id, s.subs[id].(timer := None)), id, env, c)
  }

  lemma ExpiryStarts(s: Snapshot, id: nat, c: Settings)
    requires Inv(s, c, {}) && id in s.subs
    ensures Leaving(Updated(s, id, s.subs[id].(timer := None)), id, c, {})
    ensures s.subs[id].name in s.newest && s.newest[s.subs[id].name] == id
  {
    hide Indexed, Queued, Accounted;
    var sub := s.subs[id].(timer := None);
    IndexedWithDying(s.subs, s.newest, s.nextId, c.subMax, id);
    assert {} + {id} == {id};
    UpdateKeepsIndex(s.subs, s.newest, s.nextId, c.subMax, {id}, id, sub);
    UpdateKeepsQueues(s.subs, s.parkedOn, id, sub);
  }

  /** The entry is gone, its waiters have called once, in order, and nothing else is touched. */
  lemma ExpiryIsLocal(s: Snapshot, id: nat, env: nat -> Answer, c: Settings)
    requires Inv(s, c, {}) && id in s.subs
    ensures var t := Expired(s, id, env, c);
        var sub := s.subs[id];
        && Inv(t, c, {}) && id !in t.subs && InOrder(s, t, sub.waiters) && OthersStay(s, t, sub.waiters)
        && SameOthers(s, t, Touched(sub.name, sub.waiters, env))
  {
    hide Inv, Deleted, SameOthers, Touched, Indexed, Queued, Accounted, InOrder;
    var sub := s.subs[id];
    var names := Touched(sub.name, sub.waiters, env);
    var s1 := Updated(s, id, sub.(timer := None));
    ExpiryStarts(s, id, c);
    RunningIsNotParked(s, c, {});
    DeleteKeeps(s1, id, env, c);
    DeletedInOrder(s1, id, env, c);
    SameInOrder(s1, Deleted(s1, id, env, c), s, Deleted(s1, id, env, c), sub.waiters);
    DeletedIsLocal(s1, id, env, c);
    UpdateIsSame(s, s1, id, s1.subs[id]);
    NameIsTouched(sub.name, sub.waiters, env);
    SameMore(s, s1, {sub.name}, names);
    SameTrans(s, s1, Deleted(s1, id, env, c), names);
  }

  /** An entry nobody waits on is gone, and that is all. */
  lemma ExpiryIsExact(s: Snapshot, id: nat, env: nat -> Answer, c: Settings)
    requires Inv(s, c, {}) && id in s.subs && s.subs[id].waiters == []
    ensures Expired(s, id, env, c) == s.(subs := s.subs - {id}, newest := s.newest - {s.subs[id].name})
  {
    hide Indexed, Queued, Accounted;
    ExpiryStarts(s, id, c);
    assert s.subs[id := s.subs[id].(timer := None)] - {id} == s.subs - {id};
  }

  /** A waiter that asks for the name of its expired holder again gets 404 or 500, whichever it had. */
  lemma ExpiryRefuses(s: Snapshot, id: nat, j: nat, env: nat -> Answer, c: Settings)
    requires Inv(s, c, {}) && id in s.subs && j < |s.subs[id].waiters|
    requires env(s.subs[id].waiters[j]).name == Some(s.subs[id].name)
    ensures var t := Expired(s, id, env, c);
        && |t.log| > |s.log| + j
        && t.log[|s.log| + j].result == Error(if s.subs[id].errorRet == 0 then 500 else s.subs[id].errorRet)
  {
    hide Deleted, Indexed, Queued, Accounted;
    ExpiryStarts(s, id, c);
    DeletedRefuses(Updated(s, id, s.subs[id].(timer := None)), id, j, env, c);
  }

  // ---------- what the invariant means ----------

  /** No request is forgotten: it is inside get_conf(), or waits on a holder that lookups of its
      name find and whose timer is armed. */
  lemma PendingIsLookedAfter(s: Snapshot, r: nat, c: Settings)
    requires Inv(s, c, {}) && r in s.pending && r !in s.running
    ensures exists id :: id in s.subs && r in s.subs[id].waiters && s.subs[id].holder && s.subs[id].timer.Some?
                        && s.subs[id].name in s.newest && s.newest[s.subs[id].name] == id
  {
    var id := s.parkedOn[r];
    assert id in s.subs && r in s.subs[id].waiters;
    assert id !in {};
  }

  /** Between events: one entry for a name, and no more than the limit. */
  lemma WithinLimits(s: Snapshot, i: nat, j: nat, c: Settings)
    requires Inv(s, c, {}) && i in s.subs && j in s.subs
    ensures s.subs[i].name == s.subs[j].name ==> i == j
    ensures |s.subs| <= c.subMax
  {
    assert i !in {} && j !in {};
    assert s.subs.Keys - {} == s.subs.Keys;
  }
}
