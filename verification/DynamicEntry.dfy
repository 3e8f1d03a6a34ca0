/** Entries of the cache of named sub-configurations: what an answer of Lua means for one, and what
    becomes of a fresh one while requests that were parked on its placeholder ask for it. */
module DynamicEntry {
  import opened Common

  type Tag = t: nat | t > 0 witness 1

  /** What a parsed configuration says about itself. */
  datatype Conf = Conf(checkInterval: nat, idleTimeout: nat, errorTimeout: nat, content: int)

  /** What get_conf() returned besides a status code; `conf` is None when it cannot be parsed. */
  datatype Value = Str(tag: Tag, conf: Option<Conf>) | Table(conf: Option<Conf>) | Other

  datatype Run = Pending | Failed | Done(status: Option<int>, value: Value)

  /** Everything one call learns from Lua and the clock. */
  datatype Answer = Answer(name: Option<string>, now: int, filter: bool, run: Run)

  datatype Result = Container(id: nat) | Again | Error(status: nat)

  datatype Sub = Sub(
    name: string,
    holder: bool,            // a bare placeholder, without a container
    errorRet: nat,
    tag: nat,
    checkTime: int,
    conf: Conf,
    timer: Option<nat>,      // milliseconds it was last armed with
    waiters: seq<nat>)       // parked requests, oldest first

  const HOLDER_TIMEOUT := 60000

  /** A bare entry without a container. */
  function Holder(name: string, errorTimeout: nat): Sub {
    Sub(name, true, 0, 0, 0, Conf(0, 0, errorTimeout, 0), Some(HOLDER_TIMEOUT), [])
  }

  /** A freshly parsed entry. */
  function NewSub(name: string, conf: Conf, tag: nat, now: int): Sub {
    Sub(name, false, 0, tag, now, conf, Some(conf.idleTimeout * 1000), [])
  }

  /** A live entry that is about to be checked again. */
  function Checked(sub: Sub, now: int): Sub {
    sub.(timer := Some(sub.conf.idleTimeout * 1000), checkTime := now)
  }

  // ---------- what a finished get_conf() means for an entry ----------

  datatype Verdict = Serve | Fail | Gone | Replace(conf: Conf, tag: nat)

  /** `checking` is whether the cache has a check interval at all. */
  function Decide(sub: Sub, status: Option<int>, value: Value, checking: bool): Verdict {
    if status.Some? && status.value == 304 then (if sub.holder then Fail else Serve)
    else if status.Some? && status.value == 404 then Gone
    else if status.Some? && status.value != 200 then (if sub.holder then Fail else Serve)
    else if checking && !value.Str? then Fail
    else if checking && value.tag == sub.tag then Serve
    else
      var conf := if value.Other? then None else value.conf;
      if conf == None then (if sub.holder then Fail else Serve)
      else Replace(conf.value, if checking then value.tag else 0)
  }

  function NeedsCheck(sub: Sub, a: Answer): bool {
    sub.conf.checkInterval != 0 && a.now - sub.checkTime >= sub.conf.checkInterval && a.filter
  }

  /** An entry whose configuration does not exist any more. */
  function Missing(sub: Sub): Sub {
    sub.(errorRet := 404, timer := Some(sub.conf.errorTimeout * 1000))
  }

  // ---------- what becomes of an entry while waiters ask for it ----------

  /** A live entry after one lookup of it, or None if the lookup replaced it. */
  function Asked(s: Sub, a: Answer, checking: bool): (t: Option<Sub>)
    ensures t.Some? ==> t.value.name == s.name && t.value.holder == s.holder && t.value.waiters == s.waiters
  {
    if s.errorRet != 0 then Some(s)
    else if !NeedsCheck(s, a) then Some(s.(timer := Some(s.conf.idleTimeout * 1000)))
    else
      var c := Checked(s, a.now);
      match a.run
      case Pending => Some(c)
      case Failed => Some(c)
      case Done(status, value) =>
        match Decide(c, status, value, checking)
        case Serve => Some(c)
        case Fail => Some(c)
        case Gone => Some(Missing(c))
        case Replace(_, _) => None
  }

  /** What that lookup is told, `n` being the entry. */
  predicate Told(n: nat, s: Sub, a: Answer, checking: bool, result: Result) {
    if s.errorRet != 0 then result == Error(s.errorRet)
    else if !NeedsCheck(s, a) then result == Container(n)
    else
      match a.run
      case Pending => result == Again
      case Failed => result == Error(0)
      case Done(status, value) =>
        match Decide(Checked(s, a.now), status, value, checking)
        case Serve => result == Container(n)
        case Fail => result == Error(0)
        case Gone => result == Error(404)
        case Replace(_, _) => result.Container?
  }

  /** The entry after all `waiters` have called, those of its name having looked it up. */
  function Outcome(s: Sub, waiters: seq<nat>, env: nat -> Answer, checking: bool): (t: Option<Sub>)
    ensures t.Some? ==> t.value.name == s.name && t.value.holder == s.holder && t.value.waiters == s.waiters
  {
    if waiters == [] then Some(s)
    else
      var before := Outcome(s, waiters[..|waiters| - 1], env, checking);
      var a := env(waiters[|waiters| - 1]);
      if before == None || a.name != Some(s.name) then before else Asked(before.value, a, checking)
  }

  /** The `j`th waiter asks for the name and replaces the entry as it is at its turn. */
  predicate ReplacesAt(s: Sub, waiters: seq<nat>, env: nat -> Answer, checking: bool, j: nat)
    requires j < |waiters|
  {
    var t, a := Outcome(s, waiters[..j], env, checking), env(waiters[j]);
    && a.name == Some(s.name) && t.Some? && t.value.errorRet == 0 && NeedsCheck(t.value, a) && a.run.Done?
    && Decide(Checked(t.value, a.now), a.run.status, a.run.value, checking).Replace?
  }

  /** An entry is gone after the wake-up exactly if some waiter of its name found it due and replaced it. */
  lemma {:induction false} GoneIffReplaced(s: Sub, waiters: seq<nat>, env: nat -> Answer, checking: bool)
    ensures Outcome(s, waiters, env, checking) == None
       <==> exists j :: 0 <= j < |waiters| && ReplacesAt(s, waiters, env, checking, j)
  {
    if waiters != [] {
      var n := |waiters| - 1;
      var rest := waiters[..n];
      GoneIffReplaced(s, rest, env, checking);
      forall j | 0 <= j < n
        ensures ReplacesAt(s, waiters, env, checking, j) <==> ReplacesAt(s, rest, env, checking, j)
      {
        assert rest[..j] == waiters[..j];
      }
      if ReplacesAt(s, waiters, env, checking, n) {
        assert Outcome(s, waiters, env, checking) == None;
      }
    }
  }

  /** No waiter that asks for the name finds the entry due for a check. */
  predicate Calm(s: Sub, waiters: seq<nat>, env: nat -> Answer) {
    s.errorRet == 0 && forall w <- waiters :: env(w).name == Some(s.name) ==> !NeedsCheck(s, env(w))
  }

  /** Then the entry stays, up to its timer. */
  lemma {:induction false} CalmStays(s: Sub, waiters: seq<nat>, env: nat -> Answer, checking: bool)
    requires Calm(s, waiters, env)
    ensures var t := Outcome(s, waiters, env, checking); t.Some? && t.value == s.(timer := t.value.timer)
  {
    if waiters != [] {
      var m := |waiters| - 1;
      assert waiters == waiters[..m] + [waiters[m]];
      CalmStays(s, waiters[..m], env, checking);
      assert waiters[m] in waiters;
    }
  }

  /** And every waiter that asks for it is given it. */
  lemma CalmIsGiven(n: nat, s: Sub, waiters: seq<nat>, env: nat -> Answer, checking: bool, j: nat, result: Result)
    requires Calm(s, waiters, env) && j < |waiters| && env(waiters[j]).name == Some(s.name)
    ensures var t := Outcome(s, waiters[..j], env, checking);
            t.Some? && (Told(n, t.value, env(waiters[j]), checking, result) <==> result == Container(n))
  {
    assert forall w :: w in waiters[..j] ==> w in waiters;
    CalmStays(s, waiters[..j], env, checking);
    assert waiters[j] in waiters;
  }

  /** A clock that does not move makes a fresh entry calm. */
  lemma SameTimeIsCalm(name: string, conf: Conf, tag: nat, now: int, waiters: seq<nat>, env: nat -> Answer)
    requires forall w <- waiters :: env(w).name == Some(name) ==> env(w).now <= now
    ensures Calm(NewSub(name, conf, tag, now), waiters, env)
  {
  }
}
