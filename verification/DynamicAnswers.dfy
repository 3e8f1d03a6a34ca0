/** What a call answers and leaves behind, case by case, on the fields of the entry and of what
    get_conf() returned. */
module DynamicAnswers {
  import opened Common
  import opened DynamicEntry
  import opened DynamicCalls

  // ---------- what get_conf() may say ----------

  /** No status, or that of success. */
  ghost predicate IsGood(status: Option<int>) {
    status == None || status.value == 200
  }

  /** There is nothing new: not modified, the tag there was, nothing that can be parsed, or a failure. */
  ghost predicate NothingNew(status: Option<int>, value: Value, tag: nat, checking: bool) {
    || status == Some(304)
    || (status.Some? && status.value != 200 && status.value != 304 && status.value != 404)
    || (IsGood(status) && checking && value.Str? && (value.tag == tag || value.conf == None))
    || (IsGood(status) && !checking && (value.Other? || value.conf == None))
  }

  /** A configuration that differs from the one there is. */
  ghost predicate Delivers(a: Answer, tag: nat, checking: bool) {
    && a.run.Done? && IsGood(a.run.status) && !a.run.value.Other? && a.run.value.conf.Some?
    && (checking ==> a.run.value.Str? && a.run.value.tag != tag)
  }

  /** The entry made of it. */
  ghost predicate IsNew(sub: Sub, name: string, a: Answer, checking: bool)
    requires a.run.Done? && !a.run.value.Other? && a.run.value.conf.Some?
  {
    && sub.name == name && !sub.holder && sub.errorRet == 0 && sub.waiters == []
    && sub.conf == a.run.value.conf.value && sub.checkTime == a.now
    && sub.timer == Some(a.run.value.conf.value.idleTimeout * 1000)
    && (checking ==> a.run.value.Str? && sub.tag == a.run.value.tag) && (!checking ==> sub.tag == 0)
  }

  /** Entry `id` after every outcome but a new configuration. */
  lemma OldOutcome(s: Snapshot, r: nat, id: nat, a: Answer, c: Settings)
    requires id in s.subs && id < s.nextId && (s.subs[id].holder ==> s.subs[id].tag == 0)
    ensures var step, sub := Configured(s, r, id, a, c), s.subs[id];
        var checking := c.checkInterval > 0;
        && (a.run == Pending ==>
              step == Step(s.(running := s.running + {r}, pending := s.pending + {r}), Again))
        && (a.run == Failed ==> step == Step(s, Error(0)))
        && (a.run.Done? && NothingNew(a.run.status, a.run.value, sub.tag, checking) ==>
              step == Step(s, if sub.holder then Error(0) else Container(id)))
        && (a.run.Done? && IsGood(a.run.status) && checking && !a.run.value.Str? ==>
              step == Step(s, Error(0)))
        && (a.run.Done? && a.run.status == Some(404) ==>
              var missing := sub.(errorRet := 404, timer := Some(sub.conf.errorTimeout * 1000));
              step == Step(s.(subs := s.subs[id := missing]), Error(404)))
  {
  }

  /** And after that one, when nobody waits for it. */
  lemma NewOutcome(s: Snapshot, r: nat, id: nat, a: Answer, c: Settings)
    requires id in s.subs && id < s.nextId && Delivers(a, s.subs[id].tag, c.checkInterval > 0)
    ensures var step := Configured(s, r, id, a, c);
        && step.result == Container(s.nextId) && s.nextId in step.state.subs
        && IsNew(step.state.subs[s.nextId], s.subs[id].name, a, c.checkInterval > 0)
        && step.state.subs == s.subs[s.nextId := step.state.subs[s.nextId]] - {id}
        && step.state.newest == s.newest[s.subs[id].name := s.nextId]
  {
  }

  // ---------- a name that is there ----------

  /** The call finds entry `id`. */
  ghost predicate Finds(s: Snapshot, a: Answer, id: nat) {
    a.name.Some? && |a.name.value| <= 100 && a.name.value in s.newest && s.newest[a.name.value] == id && id in s.subs
  }

  /** The check interval of a live entry has passed, and the filter wants the check. */
  ghost predicate Due(sub: Sub, a: Answer) {
    sub.conf.checkInterval > 0 && a.now >= sub.checkTime + sub.conf.checkInterval && a.filter
  }

  /** The cache is as before the call, but that `r` has left where it was and entry `id` is `sub`. */
  ghost predicate Only(s: Snapshot, t: Snapshot, r: nat, id: nat, sub: Sub) {
    t == s.(subs := s.subs[id := sub], running := s.running - {r}, pending := s.pending - {r})
  }

  /** A live entry whose check is not due is served, and lives on for its idle time. */
  lemma FreshIsServed(s: Snapshot, r: nat, id: nat, a: Answer, env: nat -> Answer, c: Settings, dying: set<nat>)
    requires Inv(s, c, dying) && r !in s.running && Finds(s, a, id)
    requires s.subs[id].errorRet == 0 && !s.subs[id].holder && !Due(s.subs[id], a)
    ensures var step := Called(s, r, a, env, c);
        && step.result == Container(id)
        && Only(s, step.state, r, id, s.subs[id].(timer := Some(s.subs[id].conf.idleTimeout * 1000)))
  {
    RunningIsNotParked(s, c, dying);
  }

  /** An entry with an error code answers that code, live or not. */
  lemma ErrorIsAnswered(s: Snapshot, r: nat, id: nat, a: Answer, env: nat -> Answer, c: Settings, dying: set<nat>)
    requires Inv(s, c, dying) && r !in s.running && Finds(s, a, id) && s.subs[id].errorRet != 0
    ensures var step := Called(s, r, a, env, c);
        step.result == Error(s.subs[id].errorRet) && Only(s, step.state, r, id, s.subs[id])
  {
    RunningIsNotParked(s, c, dying);
    assert s.subs[id := s.subs[id]] == s.subs;
  }

  /** A holder without an error code is joined by the request. */
  lemma HolderIsJoined(s: Snapshot, r: nat, id: nat, a: Answer, env: nat -> Answer, c: Settings, dying: set<nat>)
    requires Inv(s, c, dying) && r !in s.running && Finds(s, a, id) && s.subs[id].errorRet == 0 && s.subs[id].holder
    ensures var step := Called(s, r, a, env, c);
        && step.result == Again && step.state.newest == s.newest && r in step.state.pending
        && step.state.subs == s.subs[id := s.subs[id].(waiters := s.subs[id].waiters + [r])]
        && r in step.state.parkedOn && step.state.parkedOn[r] == id
  {
    RunningIsNotParked(s, c, dying);
  }

  /** Nothing is looked up for a request without a usable name, and a full cache takes no new one. */
  lemma RefusedAtOnce(s: Snapshot, r: nat, a: Answer, env: nat -> Answer, c: Settings, dying: set<nat>)
    requires Inv(s, c, dying) && (r in s.running ==> dying == {})
    requires a.name == None || |a.name.value| > 100 || (a.name.value !in s.newest && |s.subs| >= c.subMax)
    ensures var step := Called(s, r, a, env, c);
        step.result == Error(0) && step.state == s.(running := s.running - {r}, pending := s.pending - {r})
  {
    RunningIsNotParked(s, c, dying);
  }

  /** get_conf() is run for entry `id`: by a request that comes back to it, or one that finds the entry due. */
  ghost predicate Checks(s: Snapshot, r: nat, id: nat, a: Answer) {
    && Finds(s, a, id)
    && (r in s.running || (s.subs[id].errorRet == 0 && !s.subs[id].holder && Due(s.subs[id], a)))
  }

  /** The entry as get_conf() finds it: a request that found it due has noted that. */
  ghost function Noted(s: Snapshot, r: nat, id: nat, a: Answer): Sub
    requires id in s.subs
  {
    var sub := s.subs[id];
    if r in s.running then sub else sub.(timer := Some(sub.conf.idleTimeout * 1000), checkTime := a.now)
  }

  /** The state in which get_conf() finds the cache. */
  ghost function Before(s: Snapshot, r: nat, id: nat, a: Answer): Snapshot
    requires id in s.subs
  {
    s.(subs := s.subs[id := Noted(s, r, id, a)], running := s.running - {r}, pending := s.pending - {r})
  }

  lemma DeliversReplaces(sub: Sub, a: Answer, c: Settings)
    ensures Delivers(a, sub.tag, c.checkInterval > 0) <==>
        a.run.Done? && Decide(sub, a.run.status, a.run.value, c.checkInterval != 0).Replace?
  {
  }

  lemma LooksDue(s: Snapshot, r: nat, id: nat, a: Answer, c: Settings)
    requires id in s.subs && s.subs[id].errorRet == 0 && !s.subs[id].holder && Due(s.subs[id], a)
    ensures Looked(s, r, id, a, c) == Configured(Updated(s, id, Checked(s.subs[id], a.now)), r, id, a, c)
  {
  }

  /** The call up to where get_conf() has returned, when nobody is to be woken. */
  lemma ChecksAs(s: Snapshot, r: nat, id: nat, a: Answer, env: nat -> Answer, c: Settings, dying: set<nat>)
    requires Inv(s, c, dying) && (r in s.running ==> dying == {}) && Checks(s, r, id, a)
    requires Delivers(a, s.subs[id].tag, c.checkInterval > 0) ==> s.subs[id].waiters == []
    ensures Called(s, r, a, env, c) == Configured(Before(s, r, id, a), r, id, a, c)
    ensures id < s.nextId && s.subs[id].name == a.name.value && (s.subs[id].holder ==> s.subs[id].tag == 0)
  {
    RunningIsNotParked(s, c, dying);
    LookupFinds(s, a.name.value, c, dying);
    DeliversReplaces(s.subs[id], a, c);
    hide Inv, Configured, Decide, Delivers, Deleted, Successor;
    assert !Wakes(s, r, a, c) && Called(s, r, a, env, c) == Quiet(s, r, a, c);
    hide Called, Wakes;
    if r in s.running {
      assert s.subs[id := s.subs[id]] == s.subs;
      assert Started(s, r) == Before(s, r, id, a);
      assert Quiet(s, r, a, c) == Configured(Started(s, r), r, id, a, c);
    } else {
      LooksDue(Started(s, r), r, id, a, c);
      assert Updated(Started(s, r), id, Checked(s.subs[id], a.now)) == Before(s, r, id, a);
      assert Quiet(s, r, a, c) == Looked(Started(s, r), r, id, a, c);
    }
  }

  /** While get_conf() is not done, and when it fails, nothing else changes. */
  lemma NotDone(s: Snapshot, r: nat, id: nat, a: Answer, env: nat -> Answer, c: Settings, dying: set<nat>)
    requires Inv(s, c, dying) && (r in s.running ==> dying == {}) && Checks(s, r, id, a)
    ensures var step := Called(s, r, a, env, c);
        && (a.run == Failed ==> step.result == Error(0) && Only(s, step.state, r, id, Noted(s, r, id, a)))
        && (a.run == Pending ==>
              && step.result == Again && step.state.newest == s.newest
              && step.state.subs == s.subs[id := Noted(s, r, id, a)]
              && r in step.state.running && r in step.state.pending)
  {
    if !a.run.Done? {
      ChecksAs(s, r, id, a, env, c, dying);
    }
    hide Inv, Called;
  }

  /** A live entry goes on being served by the same container when its configuration is not modified,
      has the tag it had, cannot be parsed, or could not be had. A holder refuses then, and keeps those
      who wait for it. */
  lemma StaleIsServed(s: Snapshot, r: nat, id: nat, a: Answer, env: nat -> Answer, c: Settings, dying: set<nat>)
    requires Inv(s, c, dying) && (r in s.running ==> dying == {}) && Checks(s, r, id, a)
    requires a.run.Done? && NothingNew(a.run.status, a.run.value, s.subs[id].tag, c.checkInterval > 0)
    ensures var step := Called(s, r, a, env, c);
        && step.result == (if s.subs[id].holder then Error(0) else Container(id))
        && Only(s, step.state, r, id, Noted(s, r, id, a))
  {
    ChecksAs(s, r, id, a, env, c, dying);
    hide Inv, Called, Configured;
    OldOutcome(Before(s, r, id, a), r, id, a, c);
  }

  /** A cache that checks takes nothing but strings. */
  lemma OnlyStringsAreChecked(s: Snapshot, r: nat, id: nat, a: Answer, env: nat -> Answer, c: Settings, dying: set<nat>)
    requires Inv(s, c, dying) && (r in s.running ==> dying == {}) && Checks(s, r, id, a) && a.run.Done?
    requires IsGood(a.run.status) && c.checkInterval > 0 && !a.run.value.Str?
    ensures var step := Called(s, r, a, env, c);
        step.result == Error(0) && Only(s, step.state, r, id, Noted(s, r, id, a))
  {
    ChecksAs(s, r, id, a, env, c, dying);
    hide Inv, Called, Configured;
    OldOutcome(Before(s, r, id, a), r, id, a, c);
  }

  /** A configuration that does not exist is remembered, waiters and all, for the error time. */
  lemma MissingIsRecorded(s: Snapshot, r: nat, id: nat, a: Answer, env: nat -> Answer, c: Settings, dying: set<nat>)
    requires Inv(s, c, dying) && (r in s.running ==> dying == {}) && Checks(s, r, id, a)
    requires a.run.Done? && a.run.status == Some(404)
    ensures var step := Called(s, r, a, env, c);
        var sub := Noted(s, r, id, a);
        && step.result == Error(404)
        && Only(s, step.state, r, id, sub.(errorRet := 404, timer := Some(sub.conf.errorTimeout * 1000)))
  {
    ChecksAs(s, r, id, a, env, c, dying);
    hide Inv, Called, Configured;
    OldOutcome(Before(s, r, id, a), r, id, a, c);
    var sub := Noted(s, r, id, a);
    var missing := sub.(errorRet := 404, timer := Some(sub.conf.errorTimeout * 1000));
    SetTwice(s.subs, id, sub, missing);
  }

  /** A new configuration takes the place of an entry nobody waits for, and is served. */
  lemma NewTakesOver(s: Snapshot, r: nat, id: nat, a: Answer, env: nat -> Answer, c: Settings, dying: set<nat>)
    requires Inv(s, c, dying) && (r in s.running ==> dying == {}) && Checks(s, r, id, a)
    requires Delivers(a, s.subs[id].tag, c.checkInterval > 0) && s.subs[id].waiters == []
    ensures var step := Called(s, r, a, env, c);
        && step.result == Container(s.nextId) && s.nextId in step.state.subs
        && IsNew(step.state.subs[s.nextId], a.name.value, a, c.checkInterval > 0)
        && step.state.subs == s.subs[s.nextId := step.state.subs[s.nextId]] - {id}
        && step.state.newest == s.newest[a.name.value := s.nextId]
  {
    ChecksAs(s, r, id, a, env, c, dying);
    hide Inv, Called, Configured;
    NewOutcome(Before(s, r, id, a), r, id, a, c);
    var sub := Called(s, r, a, env, c).state.subs[s.nextId];
    assert s.subs[id := Noted(s, r, id, a)][s.nextId := sub] - {id} == s.subs[s.nextId := sub] - {id};
  }

  /** Where others wait, they are woken for such an entry, and by nothing else. */
  lemma NewIsForTheWaiters(s: Snapshot, r: nat, id: nat, a: Answer, c: Settings)
    requires Inv(s, c, {}) && r in s.running && Finds(s, a, id)
    ensures Named(s.subs, s.newest)
    ensures Wakes(s, r, a, c) <==>
        s.subs[id].waiters != [] && Delivers(a, s.subs[id].tag, c.checkInterval > 0)
    ensures Wakes(s, r, a, c) ==> IsNew(Successor(s.subs[id], a, c), a.name.value, a, c.checkInterval > 0)
  {
    RunningIsNotParked(s, c, {});
    LookupFinds(s, a.name.value, c, {});
    hide Inv;
  }

  // ---------- a new name ----------

  /** A request asks for a name that is not there, and there is room for it. */
  ghost predicate Room(s: Snapshot, a: Answer, c: Settings) {
    a.name.Some? && |a.name.value| <= 100 && a.name.value !in s.newest && |s.subs| < c.subMax
  }

  /** A holder is there for the name, and no other entry has changed. */
  ghost predicate LinksHolder(s: Snapshot, t: Snapshot, name: string, errorRet: nat, timer: nat, c: Settings) {
    && t.newest == s.newest[name := s.nextId] && s.nextId in t.subs
    && t.subs == s.subs[s.nextId := t.subs[s.nextId]]
    && IsHolder(t.subs[s.nextId], name, errorRet, timer, c)
  }

  ghost predicate IsHolder(sub: Sub, name: string, errorRet: nat, timer: nat, c: Settings) {
    && sub.name == name && sub.holder && sub.errorRet == errorRet && sub.waiters == []
    && sub.timer == Some(timer) && sub.conf == Conf(0, 0, c.errorTimeout, 0) && sub.tag == 0 && sub.checkTime == 0
  }

  /** The call makes a holder `sub` with a minute to live, and goes on with that. */
  lemma RoomAs(s: Snapshot, r: nat, a: Answer, env: nat -> Answer, c: Settings, dying: set<nat>) returns (sub: Sub)
    requires Inv(s, c, dying) && (r in s.running ==> dying == {}) && Room(s, a, c)
    ensures Named(s.subs, s.newest) && s.nextId !in s.subs
    ensures IsHolder(sub, a.name.value, 0, 60000, c) && sub.tag == 0
    ensures Called(s, r, a, env, c) == Configured(Within(s, r, a.name.value, sub), r, s.nextId, a, c)
  {
    RunningIsNotParked(s, c, dying);
    UnusedId(s, c, dying);
    hide Inv, Configured, Looked, Deleted, Successor, ReplacesAlone;
    sub := Holder(a.name.value, c.errorTimeout);
    assert Linked(Started(s, r), sub) == Within(s, r, a.name.value, sub);
    assert Called(s, r, a, env, c) == Quiet(s, r, a, c);
  }

  lemma UnusedId(s: Snapshot, c: Settings, dying: set<nat>)
    requires Inv(s, c, dying)
    ensures s.nextId !in s.subs && s.nextId + 1 !in s.subs
  {
  }

  /** The state in which get_conf() finds the cache then. */
  ghost function Within(s: Snapshot, r: nat, name: string, sub: Sub): Snapshot {
    s.(subs := s.subs[s.nextId := sub], newest := s.newest[name := s.nextId], nextId := s.nextId + 1,
       running := s.running - {r}, pending := s.pending - {r})
  }

  /** The holder stays while get_conf() is not done or fails, and also when there is nothing to be had. */
  lemma NewNameGetsHolder(s: Snapshot, r: nat, a: Answer, env: nat -> Answer, c: Settings, dying: set<nat>)
    requires Inv(s, c, dying) && (r in s.running ==> dying == {}) && Room(s, a, c)
    requires a.run.Done? ==> NothingNew(a.run.status, a.run.value, 0, c.checkInterval > 0)
    ensures var step := Called(s, r, a, env, c);
        && LinksHolder(s, step.state, a.name.value, 0, 60000, c)
        && step.result == (if a.run == Pending then Again else Error(0))
        && (r in step.state.running <==> a.run == Pending) && (r in step.state.pending <==> a.run == Pending)
  {
    var sub := RoomAs(s, r, a, env, c, dying);
    hide Inv, Called, Configured;
    OldOutcome(Within(s, r, a.name.value, sub), r, s.nextId, a, c);
  }

  /** What is not there is remembered. */
  lemma NewNameIsMissing(s: Snapshot, r: nat, a: Answer, env: nat -> Answer, c: Settings, dying: set<nat>)
    requires Inv(s, c, dying) && (r in s.running ==> dying == {}) && Room(s, a, c)
    requires a.run.Done? && a.run.status == Some(404)
    ensures var step := Called(s, r, a, env, c);
        step.result == Error(404) && LinksHolder(s, step.state, a.name.value, 404, c.errorTimeout * 1000, c)
  {
    var sub := RoomAs(s, r, a, env, c, dying);
    hide Inv, Called, Configured;
    OldOutcome(Within(s, r, a.name.value, sub), r, s.nextId, a, c);
    var missing := sub.(errorRet := 404, timer := Some(sub.conf.errorTimeout * 1000));
    SetTwice(s.subs, s.nextId, sub, missing);
  }

  /** What is there at once is served, without a holder left behind. */
  lemma NewNameIsServed(s: Snapshot, r: nat, a: Answer, env: nat -> Answer, c: Settings, dying: set<nat>)
    requires Inv(s, c, dying) && (r in s.running ==> dying == {}) && Room(s, a, c)
    requires Delivers(a, 0, c.checkInterval > 0)
    ensures var step := Called(s, r, a, env, c);
        var t, id := step.state, s.nextId + 1;
        && step.result == Container(id) && id in t.subs && IsNew(t.subs[id], a.name.value, a, c.checkInterval > 0)
        && t.subs == s.subs[id := t.subs[id]] && t.newest == s.newest[a.name.value := id]
  {
    var sub := RoomAs(s, r, a, env, c, dying);
    assert sub.name == a.name.value;
    hide Inv, Called, Configured, IsNew, IsHolder, Delivers, Named;
    NewOutcome(Within(s, r, a.name.value, sub), r, s.nextId, a, c);
    HolderIsGone(s, Called(s, r, a, env, c).state, a.name.value, sub);
  }

  lemma SetTwice<K, V>(m: map<K, V>, k: K, v: V, w: V)
    ensures m[k := v][k := w] == m[k := w]
  {
  }

  lemma HolderIsGone(s: Snapshot, t: Snapshot, name: string, holder: Sub)
    requires s.nextId !in s.subs && s.nextId + 1 in t.subs
    requires t.subs == s.subs[s.nextId := holder][s.nextId + 1 := t.subs[s.nextId + 1]] - {s.nextId}
    requires t.newest == s.newest[name := s.nextId][name := s.nextId + 1]
    ensures t.subs == s.subs[s.nextId + 1 := t.subs[s.nextId + 1]] && t.newest == s.newest[name := s.nextId + 1]
  {
  }
}
