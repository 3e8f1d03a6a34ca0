/** The sorted merge-diff between a hostname's address list and a resolver reply, on comparison keys. */
module MergeDiff {

  /** One step of the sweep: the heads are equal, the old one is marked deleted, or a new one is inserted. */
  datatype Step = Keep(at: nat, entry: nat) | Drop(at: nat) | Add(entry: nat)

  predicate Sorted(keys: seq<real>) {
    forall i, j :: 0 <= i < j < |keys| ==> keys[i] <= keys[j]
  }

  /** The sweep over `olds[i..]` and `news[p..]`. */
  function Diff(olds: seq<real>, news: seq<real>, i: nat, p: nat): (steps: seq<Step>)
    requires i <= |olds| && p <= |news|
    decreases |olds| - i + |news| - p
  {
    if i < |olds| && p < |news| && news[p] == olds[i] then [Keep(i, p)] + Diff(olds, news, i + 1, p + 1)
    else if p < |news| && (i < |olds| ==> news[p] < olds[i]) then [Add(p)] + Diff(olds, news, i, p + 1)
    else if i < |olds| then [Drop(i)] + Diff(olds, news, i + 1, p)
    else []
  }

  /** What is left once the marked addresses are purged. */
  function Survivors(steps: seq<Step>): seq<Step> {
    if steps == [] then []
    else (if steps[0].Drop? then [] else [steps[0]]) + Survivors(steps[1..])
  }

  /** The steps that concern addresses present before. */
  function OldSteps(steps: seq<Step>): seq<Step> {
    if steps == [] then []
    else (if steps[0].Add? then [] else [steps[0]]) + OldSteps(steps[1..])
  }

  predicate Changed(steps: seq<Step>) {
    exists s <- steps :: !s.Keep?
  }

  function Key(s: Step, olds: seq<real>, news: seq<real>): real
    requires if s.Add? then s.entry < |news| else s.at < |olds|
  {
    if s.Add? then news[s.entry] else olds[s.at]
  }

  function Kept(steps: seq<Step>, olds: seq<real>): multiset<real> {
    if steps == [] then multiset{}
    else (if steps[0].Keep? && steps[0].at < |olds| then multiset{olds[steps[0].at]} else multiset{})
         + Kept(steps[1..], olds)
  }

  /** The survivors are the reply: same length, same order, the `k`th survivor standing for the
      `k`th reply address, and a kept one only when the keys agree. */
  lemma {:induction false} SurvivorsAreTheReply(olds: seq<real>, news: seq<real>, i: nat, p: nat)
    requires i <= |olds| && p <= |news|
    ensures var alive := Survivors(Diff(olds, news, i, p));
            && |alive| == |news| - p
            && forall k :: 0 <= k < |alive| ==>
                 && !alive[k].Drop? && alive[k].entry == p + k
                 && (alive[k].Keep? ==> alive[k].at < |olds| && olds[alive[k].at] == news[p + k])
    decreases |olds| - i + |news| - p
  {
    if i < |olds| && p < |news| && news[p] == olds[i] {
      SurvivorsAreTheReply(olds, news, i + 1, p + 1);
      SurvivorsCons(Keep(i, p), Diff(olds, news, i + 1, p + 1));
    } else if p < |news| && (i < |olds| ==> news[p] < olds[i]) {
      SurvivorsAreTheReply(olds, news, i, p + 1);
      SurvivorsCons(Add(p), Diff(olds, news, i, p + 1));
    } else if i < |olds| {
      SurvivorsAreTheReply(olds, news, i + 1, p);
      SurvivorsCons(Drop(i), Diff(olds, news, i + 1, p));
    }
  }

  lemma SurvivorsCons(s: Step, rest: seq<Step>)
    ensures Survivors([s] + rest) == (if s.Drop? then [] else [s]) + Survivors(rest)
  {
    assert ([s] + rest)[1..] == rest;
  }

  /** Every old address is met exactly once, in order. */
  lemma {:induction false} OldOnesInOrder(olds: seq<real>, news: seq<real>, i: nat, p: nat)
    requires i <= |olds| && p <= |news|
    ensures var met := OldSteps(Diff(olds, news, i, p));
            && |met| == |olds| - i
            && forall k :: 0 <= k < |met| ==> !met[k].Add? && met[k].at == i + k
    decreases |olds| - i + |news| - p
  {
    if i < |olds| && p < |news| && news[p] == olds[i] {
      OldOnesInOrder(olds, news, i + 1, p + 1);
    } else if p < |news| && (i < |olds| ==> news[p] < olds[i]) {
      OldOnesInOrder(olds, news, i, p + 1);
    } else if i < |olds| {
      OldOnesInOrder(olds, news, i + 1, p);
    }
  }

  /** The change flag is raised exactly when list and reply differ. */
  lemma {:induction false} ChangedMeansDifferent(olds: seq<real>, news: seq<real>, i: nat, p: nat)
    requires i <= |olds| && p <= |news|
    ensures Changed(Diff(olds, news, i, p)) <==> olds[i..] != news[p..]
    decreases |olds| - i + |news| - p
  {
    var steps := Diff(olds, news, i, p);
    if i < |olds| && p < |news| && news[p] == olds[i] {
      ChangedMeansDifferent(olds, news, i + 1, p + 1);
      assert olds[i..] == [olds[i]] + olds[i + 1..] && news[p..] == [news[p]] + news[p + 1..];
      assert steps[1..] == Diff(olds, news, i + 1, p + 1);
    } else if p < |news| || i < |olds| {
      assert steps[0] in steps;
      if i < |olds| && p < |news| {
        assert olds[i..][0] != news[p..][0];
      } else {
        assert |olds[i..]| != |news[p..]|;
      }
    }
  }

  lemma CommonHead(a: seq<real>, b: seq<real>, x: real)
    ensures multiset([x] + a) * multiset([x] + b) == multiset{x} + multiset(a) * multiset(b)
  {
    assert multiset([x] + a) == multiset{x} + multiset(a) && multiset([x] + b) == multiset{x} + multiset(b);
  }

  lemma LoneHead(a: seq<real>, b: seq<real>, x: real)
    requires x !in a
    ensures multiset(a) * multiset([x] + b) == multiset(a) * multiset(b)
    ensures multiset([x] + b) * multiset(a) == multiset(b) * multiset(a)
  {
    assert multiset([x] + b) == multiset{x} + multiset(b);
  }

  lemma TailSplit(keys: seq<real>, i: nat)
    requires i <= |keys|
    ensures i < |keys| ==> keys[i..] == [keys[i]] + keys[i + 1..]
  {
  }

  lemma BelowAll(keys: seq<real>, i: nat, x: real)
    requires Sorted(keys) && i <= |keys| && (i < |keys| ==> x < keys[i])
    ensures x !in keys[i..]
  {
  }

  lemma KeptCons(s: Step, rest: seq<Step>, olds: seq<real>)
    ensures Kept([s] + rest, olds)
         == (if s.Keep? && s.at < |olds| then multiset{olds[s.at]} else multiset{}) + Kept(rest, olds)
  {
    assert ([s] + rest)[1..] == rest;
  }

  /** As many addresses as possible keep their identity: of every key, the smaller of the two counts. */
  lemma {:induction false} KeepsAllItCan(olds: seq<real>, news: seq<real>, i: nat, p: nat)
    requires i <= |olds| && p <= |news| && Sorted(olds) && Sorted(news)
    ensures Kept(Diff(olds, news, i, p), olds) == multiset(olds[i..]) * multiset(news[p..])
    decreases |olds| - i + |news| - p
  {
    TailSplit(olds, i);
    TailSplit(news, p);
    if i < |olds| && p < |news| && news[p] == olds[i] {
      KeepsAllItCan(olds, news, i + 1, p + 1);
      KeptCons(Keep(i, p), Diff(olds, news, i + 1, p + 1), olds);
      CommonHead(olds[i + 1..], news[p + 1..], olds[i]);
    } else if p < |news| && (i < |olds| ==> news[p] < olds[i]) {
      KeepsAllItCan(olds, news, i, p + 1);
      KeptCons(Add(p), Diff(olds, news, i, p + 1), olds);
      BelowAll(olds, i, news[p]);
      LoneHead(olds[i..], news[p + 1..], news[p]);
    } else if i < |olds| {
      KeepsAllItCan(olds, news, i + 1, p);
      KeptCons(Drop(i), Diff(olds, news, i + 1, p), olds);
      BelowAll(news, p, olds[i]);
      LoneHead(news[p..], olds[i + 1..], olds[i]);
    }
  }

  /** The keys of the steps never fall, starting from `least`. */
  predicate SortedFrom(steps: seq<Step>, olds: seq<real>, news: seq<real>, least: real) {
    steps != [] ==>
    && (if steps[0].Add? then steps[0].entry < |news| else steps[0].at < |olds|)
    && least <= Key(steps[0], olds, news)
    && SortedFrom(steps[1..], olds, news, Key(steps[0], olds, news))
  }

  /** The list stays sorted while marked addresses are still in it. */
  lemma {:induction false} MergedIsSorted(olds: seq<real>, news: seq<real>, i: nat, p: nat, least: real)
    requires i <= |olds| && p <= |news| && Sorted(olds) && Sorted(news)
    requires i < |olds| ==> least <= olds[i]
    requires p < |news| ==> least <= news[p]
    ensures SortedFrom(Diff(olds, news, i, p), olds, news, least)
    decreases |olds| - i + |news| - p
  {
    if i < |olds| && p < |news| && news[p] == olds[i] {
      MergedIsSorted(olds, news, i + 1, p + 1, olds[i]);
    } else if p < |news| && (i < |olds| ==> news[p] < olds[i]) {
      MergedIsSorted(olds, news, i, p + 1, news[p]);
    } else if i < |olds| {
      MergedIsSorted(olds, news, i + 1, p, olds[i]);
    }
  }

  lemma {:induction false} SortedByIndex(steps: seq<Step>, olds: seq<real>, news: seq<real>, least: real, k: nat)
    requires SortedFrom(steps, olds, news, least) && k < |steps|
    ensures if steps[k].Add? then steps[k].entry < |news| else steps[k].at < |olds|
    ensures least <= Key(steps[k], olds, news)
    ensures k + 1 < |steps| ==>
        && (if steps[k + 1].Add? then steps[k + 1].entry < |news| else steps[k + 1].at < |olds|)
        && Key(steps[k], olds, news) <= Key(steps[k + 1], olds, news)
  {
    if k > 0 {
      SortedByIndex(steps[1..], olds, news, Key(steps[0], olds, news), k - 1);
    }
  }
}
