/** The two down/up counters of an upstream address (passive failures, active health checks). */
module Health {

  /** `downTime` is 0 while up, else the time the address went down. */
  datatype Counter = Counter(downTime: nat, fails: nat, passes: nat)

  datatype Limits = Limits(fails: nat, passes: nat)

  const FRESH := Counter(0, 0, 0)

  /** One finished request or check, noted at time `now`. */
  function Note(c: Counter, pass: bool, limits: Limits, now: nat): Counter {
    if pass then
      var passes := c.passes + 1;
      Counter(if c.downTime != 0 && passes == limits.passes then 0 else c.downTime, 0, passes)
    else
      var fails := c.fails + 1;
      Counter(if c.downTime == 0 && fails == limits.fails then now else c.downTime, fails, 0)
  }

  /** The counter after a whole history of results; `clock` gives the time of each. */
  function After(history: seq<bool>, limits: Limits, clock: nat -> nat): Counter {
    if history == [] then FRESH
    else
      var n := |history| - 1;
      Note(After(history[..n], limits, clock), history[n], limits, clock(n))
  }

  // ---------- the rule a user would state ----------

  /** `n` results of the same kind starting at `from`. */
  predicate Run(history: seq<bool>, from: nat, n: nat, kind: bool) {
    from + n <= |history| && forall k :: from <= k < from + n ==> history[k] == kind
  }

  predicate Recovered(history: seq<bool>, from: nat, passes: nat) {
    exists j :: from <= j <= |history| && Run(history, j, passes, true)
  }

  /** Down: some `limits.fails` consecutive failures were not followed by `limits.passes`
      consecutive passes. A limit of 0 failures switches the counter off. */
  predicate Down(history: seq<bool>, limits: Limits) {
    limits.fails > 0 &&
    exists i :: 0 <= i <= |history| && Run(history, i, limits.fails, false)
             && !Recovered(history, i + limits.fails, limits.passes)
  }

  /** Length of the run of `kind` at the end of the history. */
  function Trailing(history: seq<bool>, kind: bool): (n: nat)
    ensures n <= |history| && Run(history, |history| - n, n, kind)
    ensures n < |history| ==> history[|history| - n - 1] != kind
  {
    if history == [] || history[|history| - 1] != kind then 0
    else Trailing(history[..|history| - 1], kind) + 1
  }

  lemma RunExtends(history: seq<bool>, last: bool, from: nat, n: nat, kind: bool)
    requires from + n <= |history|
    ensures Run(history + [last], from, n, kind) <==> Run(history, from, n, kind)
  {
    var longer := history + [last];
    assert forall k :: from <= k < from + n ==> longer[k] == history[k];
  }

  /** A run that reaches the end is no longer than the trailing one. */
  lemma RunAtEnd(history: seq<bool>, from: nat, n: nat, kind: bool)
    requires Run(history, from, n, kind) && from + n == |history|
    ensures n <= Trailing(history, kind)
  {
    var t := Trailing(history, kind);
    assert t < |history| ==> history[|history| - t - 1] != kind;
  }

  lemma RecoveredStays(history: seq<bool>, last: bool, from: nat, passes: nat)
    requires Recovered(history, from, passes)
    ensures Recovered(history + [last], from, passes)
  {
    var j :| from <= j <= |history| && Run(history, j, passes, true);
    RunExtends(history, last, j, passes, true);
  }

  /** A recovery completed by the last result is a trailing run of passes. */
  lemma RecoveredNow(history: seq<bool>, last: bool, from: nat, passes: nat)
    requires passes > 0 && Recovered(history + [last], from, passes) && !Recovered(history, from, passes)
    ensures last && Trailing(history + [last], true) >= passes
  {
    var longer := history + [last];
    var j :| from <= j <= |longer| && Run(longer, j, passes, true);
    if j + passes <= |history| {
      RunExtends(history, last, j, passes, true);
      assert false;
    }
    assert longer[|history|] == last;
    RunAtEnd(longer, j, passes, true);
  }

  /** While down, the passes at the end are too few for a recovery. */
  lemma DownMeansFewPasses(history: seq<bool>, limits: Limits)
    requires Down(history, limits)
    ensures Trailing(history, true) < limits.passes || limits.passes == 0
  {
    var i :| 0 <= i <= |history| && Run(history, i, limits.fails, false)
          && !Recovered(history, i + limits.fails, limits.passes);
    var t := Trailing(history, true);
    if t >= limits.passes {
      var j := |history| - t;
      assert history[i + limits.fails - 1] == false;
      assert j >= i + limits.fails;
      assert Run(history, j, limits.passes, true);
    }
  }

  lemma DownBeforePass(history: seq<bool>, limits: Limits)
    requires limits.passes > 0 && Down(history + [true], limits)
    ensures Down(history, limits) && Trailing(history, true) + 1 != limits.passes
  {
    var longer := history + [true];
    var i :| 0 <= i <= |longer| && Run(longer, i, limits.fails, false)
          && !Recovered(longer, i + limits.fails, limits.passes);
    assert longer[i + limits.fails - 1] == false && longer[|history|] == true;
    RunExtends(history, true, i, limits.fails, false);
    if Recovered(history, i + limits.fails, limits.passes) {
      RecoveredStays(history, true, i + limits.fails, limits.passes);
    }
    assert longer[..|history|] == history;
    DownMeansFewPasses(longer, limits);
  }

  lemma DownThroughPass(history: seq<bool>, limits: Limits)
    requires limits.passes > 0 && Down(history, limits) && Trailing(history, true) + 1 != limits.passes
    ensures Down(history + [true], limits)
  {
    var longer := history + [true];
    var i :| 0 <= i <= |history| && Run(history, i, limits.fails, false)
          && !Recovered(history, i + limits.fails, limits.passes);
    RunExtends(history, true, i, limits.fails, false);
    assert longer[..|history|] == history;
    DownMeansFewPasses(history, limits);
    if Recovered(longer, i + limits.fails, limits.passes) {
      RecoveredNow(history, true, i + limits.fails, limits.passes);
    }
  }

  lemma DownAfterFail(history: seq<bool>, limits: Limits)
    requires limits.passes > 0
    ensures Down(history + [false], limits)
       <==> Down(history, limits) || (Trailing(history, false) + 1 >= limits.fails && limits.fails > 0)
  {
    if Down(history + [false], limits) {
      FailWasDown(history, limits);
    }
    if Down(history, limits) {
      DownThroughFail(history, limits);
    }
    if Trailing(history, false) + 1 >= limits.fails && limits.fails > 0 {
      var longer := history + [false];
      var i := |longer| - limits.fails;
      assert Run(longer, i, limits.fails, false) by {
        assert longer[..|history|] == history;
      }
      assert !Recovered(longer, |longer|, limits.passes);
    }
  }

  lemma FailWasDown(history: seq<bool>, limits: Limits)
    requires limits.passes > 0 && Down(history + [false], limits)
    ensures Down(history, limits) || (Trailing(history, false) + 1 >= limits.fails && limits.fails > 0)
  {
    var longer := history + [false];
    assert longer[..|history|] == history;
    var i :| 0 <= i <= |longer| && Run(longer, i, limits.fails, false)
          && !Recovered(longer, i + limits.fails, limits.passes);
    if i + limits.fails == |longer| {
      RunAtEnd(longer, i, limits.fails, false);
    } else {
      RunExtends(history, false, i, limits.fails, false);
      if Recovered(history, i + limits.fails, limits.passes) {
        RecoveredStays(history, false, i + limits.fails, limits.passes);
      }
    }
  }

  lemma DownThroughFail(history: seq<bool>, limits: Limits)
    requires limits.passes > 0 && Down(history, limits)
    ensures Down(history + [false], limits)
  {
    var longer := history + [false];
    var i :| 0 <= i <= |history| && Run(history, i, limits.fails, false)
          && !Recovered(history, i + limits.fails, limits.passes);
    RunExtends(history, false, i, limits.fails, false);
    if Recovered(longer, i + limits.fails, limits.passes) {
      RecoveredNow(history, false, i + limits.fails, limits.passes);
    }
  }

  /** The counters equal the history rule: down exactly by the rule, `fails` and `passes` the
      trailing runs (so one of them is always 0), and `fails` below its limit whenever up. */
  lemma {:induction false} CounterMeetsRule(history: seq<bool>, limits: Limits, clock: nat -> nat)
    requires limits.passes > 0 && forall n :: clock(n) > 0
    ensures var c := After(history, limits, clock);
            && (c.downTime != 0 <==> Down(history, limits))
            && c.fails == Trailing(history, false) && c.passes == Trailing(history, true)
            && (c.fails == 0 || c.passes == 0)
            && (limits.fails > 0 && c.downTime == 0 ==> c.fails < limits.fails)
  {
    if history != [] {
      var n := |history| - 1;
      var before, last := history[..n], history[n];
      assert history == before + [last];
      CounterMeetsRule(before, limits, clock);
      if last {
        if Down(history, limits) {
          DownBeforePass(before, limits);
        } else if Down(before, limits) && Trailing(before, true) + 1 != limits.passes {
          DownThroughPass(before, limits);
        }
      } else {
        DownAfterFail(before, limits);
      }
    }
  }

  /** While down, `downTime` is the time of the result that brought it down, and it has been down since. */
  lemma {:induction false} DownSince(history: seq<bool>, limits: Limits, clock: nat -> nat) returns (k: nat)
    requires limits.passes > 0 && forall n :: clock(n) > 0
    requires Down(history, limits)
    ensures k < |history| && After(history, limits, clock).downTime == clock(k)
    ensures !Down(history[..k], limits) && forall j :: k < j <= |history| ==> Down(history[..j], limits)
  {
    hide Down, Trailing;
    CounterMeetsRule(history, limits, clock);
    CounterMeetsRule([], limits, clock);
    var n := |history| - 1;
    var before := history[..n];
    CounterMeetsRule(before, limits, clock);
    assert history[..|history|] == history;
    if Down(before, limits) {
      k := DownSince(before, limits, clock);
      assert forall j :: 0 <= j <= n ==> before[..j] == history[..j];
    } else {
      k := n;
    }
  }
}
