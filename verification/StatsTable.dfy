/** The shared-memory table of address statistics: allocation under a lock, while other processes
    release their references without it. */
module StatsTable {
  import opened Common

  /** `key` is the hash of the address name; 0 marks a slot that was never used. */
  datatype Slot = Slot(key: nat, refs: nat)

  // ---------- on values ----------

  ghost predicate Live(s: seq<Slot>, i: nat, key: nat) {
    i < |s| && s[i].refs > 0 && s[i].key == key
  }

  /** Touched slots form a prefix, untouched ones are free, live slots have distinct keys. */
  ghost predicate WellFormed(s: seq<Slot>) {
    && (forall i, j :: 0 <= i < j < |s| && s[i].key == 0 ==> s[j].key == 0)
    && (forall i :: 0 <= i < |s| && s[i].key == 0 ==> s[i].refs == 0)
    && (forall i, j :: 0 <= i < j < |s| && s[i].refs > 0 && s[j].refs > 0 ==> s[i].key != s[j].key)
  }

  /** Some references were dropped, nothing else changed. */
  ghost predicate OnlyReleased(s: seq<Slot>, t: seq<Slot>) {
    |s| == |t| && forall i :: 0 <= i < |s| ==> t[i].key == s[i].key && t[i].refs <= s[i].refs
  }

  lemma ReleasesKeep(s: seq<Slot>, t: seq<Slot>)
    requires WellFormed(s) && OnlyReleased(s, t)
    ensures WellFormed(t)
  {
  }

  /** A scan may stop at the first untouched slot: no live slot lies behind it. */
  lemma NothingBehindUntouched(s: seq<Slot>, i: nat, key: nat)
    requires WellFormed(s) && i < |s| && s[i].key == 0
    ensures forall j :: i <= j < |s| ==> !Live(s, j, key)
  {
  }

  lemma LiveIsTouched(s: seq<Slot>, i: nat)
    requires WellFormed(s) && i < |s| && s[i].refs > 0
    ensures s[i].key != 0
  {
  }

  /** Slots that are released meanwhile do not become live. */
  lemma OnlyOneLive(s: seq<Slot>, t: seq<Slot>, i: nat, key: nat)
    requires WellFormed(s) && OnlyReleased(s, t) && Live(s, i, key)
    ensures forall j :: 0 <= j < |t| && j != i ==> !Live(t, j, key)
  {
  }

  lemma NoneBecomesLive(s: seq<Slot>, t: seq<Slot>, i: nat, key: nat)
    requires OnlyReleased(s, t) && forall j :: 0 <= j < |s| && j != i ==> !Live(s, j, key)
    ensures forall j :: 0 <= j < |t| && j != i ==> !Live(t, j, key)
  {
    forall j | 0 <= j < |t| && j != i
      ensures !Live(t, j, key)
    {
      assert !Live(s, j, key);
    }
  }

  /** None of the first `n` slots is free. */
  ghost predicate Held(s: seq<Slot>, n: nat) {
    n <= |s| && forall i :: 0 <= i < n ==> s[i].refs > 0
  }

  lemma HeldSoFar(s: seq<Slot>)
    ensures Held(s, 0)
  {
  }

  lemma OneMoreHeld(s: seq<Slot>, t: seq<Slot>, n: nat)
    requires Held(s, n) && OnlyReleased(s, t) && n < |s| && t[n].refs > 0
    ensures Held(s, n + 1)
  {
  }

  /** Reviving or adding a slot for `key` is safe when no other live slot has it. */
  lemma TakeKeeps(s: seq<Slot>, i: nat, key: nat, refs: nat)
    requires WellFormed(s) && i < |s| && key != 0
    requires forall j :: 0 <= j < i ==> s[j].key != 0
    requires forall j :: 0 <= j < |s| && j != i ==> !Live(s, j, key)
    ensures WellFormed(s[i := Slot(key, refs)])
  {
    var t := s[i := Slot(key, refs)];
    forall j, k | 0 <= j < k < |t| && t[j].refs > 0 && t[k].refs > 0
      ensures t[j].key != t[k].key
    {
      assert !Live(s, j, key) || j == i;
      assert !Live(s, k, key) || k == i;
    }
  }

  // ---------- the table ----------

  class Table {
    var slots: array<Slot>
    ghost var holders: seq<nat>     // how many address objects, of all processes, refer to each slot

    /** The references are the holders, and the table is well formed. */
    ghost predicate Valid()
      reads this, slots
    {
      && |holders| == slots.Length
      && (forall i :: 0 <= i < slots.Length ==> slots[i].refs == holders[i])
      && WellFormed(slots[..])
    }

    constructor (size: nat)
      ensures Valid() && fresh(slots) && slots.Length == size && forall i :: 0 <= i < size ==> slots[i] == Slot(0, 0)
    {
      slots := new Slot[size](_ => Slot(0, 0));
      holders := seq(size, _ => 0);
    }

    /** A process frees an address: one atomic decrement, without the lock. */
    method Release(i: nat)
      requires Valid() && i < slots.Length && holders[i] > 0
      modifies slots, this`holders
      ensures Valid() && OnlyReleased(old(slots[..]), slots[..])
      ensures holders == old(holders)[i := old(holders[i]) - 1]
    {
      ghost var before := slots[..];
      slots[i] := slots[i].(refs := slots[i].refs - 1);
      holders := holders[i := holders[i] - 1];
      ReleasesKeep(before, slots[..]);
    }

    /** Whatever other processes release between two steps of an allocation; `gone` counts it by slot. */
    method Others(releases: seq<nat>, ghost dropped: seq<nat>) returns (ghost gone: seq<nat>)
      requires Valid() && |dropped| == slots.Length
      modifies slots, this`holders
      ensures Valid() && OnlyReleased(old(slots[..]), slots[..])
      ensures Balance(old(holders), dropped, gone)
      ensures releases == [] ==> gone == dropped
    {
      gone := dropped;
      var k := 0;
      while k < |releases|
        invariant Valid() && OnlyReleased(old(slots[..]), slots[..])
        invariant Balance(old(holders), dropped, gone)
        invariant releases == [] ==> gone == dropped
      {
        if releases[k] < slots.Length && slots[releases[k]].refs > 0 {
          gone := gone[releases[k] := gone[releases[k]] + 1];
          Release(releases[k]);
        }
        k := k + 1;
      }
    }

    /** Since the holders were `before` and `dropped` was counted, the count went to `gone`. */
    ghost predicate Balance(before: seq<nat>, dropped: seq<nat>, gone: seq<nat>)
      reads this, slots
    {
      && |before| == |dropped| == |gone| == |holders| == slots.Length
      && forall j :: 0 <= j < |gone| ==> holders[j] + gone[j] == before[j] + dropped[j]
    }

    /** Half-way through the scan for `key`: the slots before `i` are touched, none of them is live
        with that key, and `firstIdle` is a free one among them, if any was seen. */
    ghost predicate Scanned(key: nat, i: nat, firstIdle: Option<nat>)
      reads this, slots
    {
      && Valid() && i <= slots.Length
      && (forall j :: 0 <= j < i ==> slots[j].key != 0 && !Live(slots[..], j, key))
      && (firstIdle.Some? ==> (firstIdle.value < slots.Length && slots[firstIdle.value].refs == 0
                           && forall j :: 0 <= j < firstIdle.value ==> slots[j].key != 0))
    }

    /** One turn of the scan: go on, stop at an untouched slot, or hold the slot of `key`. `others`
        is what the other processes do before each of the three accesses to the slot. */
    method Look(key: nat, i: nat, idle: Option<nat>, others: (seq<nat>, seq<nat>, seq<nat>), ghost dropped: seq<nat>)
      returns (turn: Turn, firstIdle: Option<nat>, ghost gone: seq<nat>)
      requires Scanned(key, i, idle) && i < slots.Length && key != 0 && |dropped| == slots.Length
      modifies slots, this`holders
      ensures turn == Next ==> Scanned(key, i + 1, firstIdle)
      ensures turn == Stop ==> Scanned(key, i, firstIdle) && firstIdle.Some?
      ensures turn == Stop ==> forall j :: i <= j < slots.Length ==> !Live(slots[..], j, key)
      ensures turn != Found ==> OnlyReleased(old(slots[..]), slots[..]) && Balance(old(holders), dropped, gone)
      ensures others == ([], [], []) ==> gone == dropped
      ensures turn == Found ==> Valid() && Gained(old(slots[..]), old(holders), dropped, gone, i, key, 1)
      ensures turn == Found ==> Live(old(slots[..]), i, key)
      ensures turn != Found && idle.Some? ==> firstIdle == idle
      ensures turn != Found && idle == None ==> firstIdle == Some(i) || (firstIdle == None && old(slots[i].refs) > 0)
    {
      hide WellFormed, Gained;
      ghost var start, held := slots[..], holders;
      firstIdle := idle;
      gone := Others(others.0, dropped);
      var refs := slots[i].refs;
      ghost var seen := slots[..];
      gone := Others(others.1, gone);
      if refs == 0 {
        if firstIdle == None {
          firstIdle := Some(i);
        }
        if slots[i].key == 0 {
          NothingBehindUntouched(slots[..], i, key);
          return Stop, firstIdle, gone;
        }
        return Next, firstIdle, gone;
      }
      assert seen[i].key != 0 by {
        LiveIsTouched(seen, i);
      }
      if slots[i].key != key {
        return Next, firstIdle, gone;
      }
      OnlyOneLive(seen, slots[..], i, key);
      gone := Hold(i, key, others.2, start, held, dropped, gone);
      return Found, firstIdle, gone;
    }

    /** The increment of a live slot, after whatever the others do before it. */
    method Hold(i: nat, key: nat, others: seq<nat>, ghost before: seq<Slot>, ghost heldBefore: seq<nat>,
                ghost dropped: seq<nat>, ghost sofar: seq<nat>) returns (ghost gone: seq<nat>)
      requires Valid() && i < slots.Length && key != 0 && slots[i].key == key && OnlyReleased(before, slots[..])
      requires forall j :: 0 <= j < i ==> slots[j].key != 0
      requires forall j :: 0 <= j < slots.Length && j != i ==> !Live(slots[..], j, key)
      requires Balance(heldBefore, dropped, sofar)
      modifies slots, this`holders
      ensures Valid() && Gained(before, heldBefore, dropped, gone, i, key, 1)
      ensures others == [] ==> gone == sofar
    {
      hide WellFormed;
      ghost var mid := slots[..];
      gone := Others(others, sofar);
      NoneBecomesLive(mid, slots[..], i, key);
      Take(i, key, slots[i].refs + 1);
    }

    /** Apart from releases, only slot `i` changed: it now belongs to `key` and has `more` new holders. */
    ghost predicate Gained(before: seq<Slot>, heldBefore: seq<nat>, dropped: seq<nat>, gone: seq<nat>, i: nat, key: nat,
                           more: nat)
      reads this, slots
    {
      && |before| == |heldBefore| == |dropped| == |gone| == |holders| == slots.Length && i < slots.Length
      && (forall j :: 0 <= j < |gone| ==> gone[j] <= heldBefore[j] + dropped[j])
      && slots[i].key == key && holders[i] + gone[i] == heldBefore[i] + dropped[i] + more
      && forall j :: 0 <= j < slots.Length && j != i ==>
           slots[j].key == before[j].key && holders[j] + gone[j] == heldBefore[j] + dropped[j]
    }

    /** The scan: hold the live slot of `key`, or find out that there is none. */
    method Scan(key: nat, others: nat -> (seq<nat>, seq<nat>, seq<nat>))
      returns (found: Option<nat>, firstIdle: Option<nat>, ghost gone: seq<nat>)
      requires Valid() && key != 0
      modifies slots, this`holders
      ensures Valid() && |gone| == slots.Length
      ensures (forall k :: others(k) == ([], [], [])) ==> gone == Zeros(slots.Length)
      ensures found.Some? ==>
          && Gained(old(slots[..]), old(holders), Zeros(slots.Length), gone, found.value, key, 1)
          && Live(old(slots[..]), found.value, key)
      ensures found == None ==>
          && OnlyReleased(old(slots[..]), slots[..]) && Balance(old(holders), Zeros(slots.Length), gone)
          && (forall j :: 0 <= j < slots.Length ==> !Live(slots[..], j, key))
          && (firstIdle == None ==> forall j :: 0 <= j < slots.Length ==> slots[j].key != 0)
          && (firstIdle.Some? ==> (firstIdle.value < slots.Length && slots[firstIdle.value].refs == 0
                               && forall j :: 0 <= j < firstIdle.value ==> slots[j].key != 0))
          && Held(old(slots[..]), if firstIdle.Some? then firstIdle.value else slots.Length)
    {
      hide WellFormed, Gained, Held;
      HeldSoFar(slots[..]);
      found, firstIdle := None, None;
      var i := 0;
      gone := Zeros(slots.Length);
      while i < slots.Length
        invariant Scanned(key, i, firstIdle) && OnlyReleased(old(slots[..]), slots[..])
        invariant Held(old(slots[..]), if firstIdle.Some? then firstIdle.value else i)
        invariant Balance(old(holders), Zeros(slots.Length), gone)
        invariant (forall k :: others(k) == ([], [], [])) ==> gone == Zeros(slots.Length)
      {
        ghost var mid, held, dropped := slots[..], holders, gone;
        assert forall j :: 0 <= j < |held| ==> held[j] + dropped[j] == old(holders)[j] + Zeros(|held|)[j];
        var turn;
        turn, firstIdle, gone := Look(key, i, firstIdle, others(i), gone);
        if turn == Stop {
          break;
        } else if turn == Found {
          GainedSince(old(slots[..]), old(holders), mid, held, dropped, gone, i, key);
          return Some(i), firstIdle, gone;
        }
        if firstIdle == None {
          OneMoreHeld(old(slots[..]), mid, i);
        }
        i := i + 1;
      }
    }

    /** Find the live slot of `key`, or take the first one that is free, used before or not. The address
        object is one of `initial`: in the master, every worker inherits it. A found slot is counted up by one
        all the same, so references equal holders afterwards exactly if the slot was free or there is one
        object; a slot is found only if it was live, and always if it was and nobody else released meanwhile.
        `gone` counts the references other processes released. */
    method Alloc(key: nat, initial: nat, others: nat -> (seq<nat>, seq<nat>, seq<nat>))
      returns (r: Option<nat>, shared: bool, ghost gone: seq<nat>)
      requires Valid() && key != 0 && initial > 0
      modifies slots, this`holders
      ensures |gone| == slots.Length == |holders| && WellFormed(slots[..])
      ensures (forall i :: others(i) == ([], [], [])) ==> gone == Zeros(slots.Length)
      ensures Valid() <==> r == None || !shared || initial == 1
      ensures r.Some? && shared ==> Live(old(slots[..]), r.value, key)
      ensures (forall i :: others(i) == ([], [], [])) && r.Some? ==>
          && (shared <==> exists j :: Live(old(slots[..]), j, key))
          && (Valid() <==> initial == 1 || forall j :: 0 <= j < slots.Length ==> !Live(old(slots[..]), j, key))
      ensures r.Some? ==> Gained(old(slots[..]), old(holders), Zeros(slots.Length), gone, r.value, key, initial)
      ensures r.Some? ==> forall j :: 0 <= j < slots.Length ==>
          slots[j].refs == holders[j] - (if j == r.value && shared then initial - 1 else 0)
      ensures r.Some? && !shared ==> gone[r.value] == old(holders[r.value])
      ensures !shared ==> Held(old(slots[..]), if r.Some? then r.value else slots.Length)
      ensures r == None ==>
          OnlyReleased(old(slots[..]), slots[..]) && forall j :: 0 <= j < slots.Length ==> slots[j].key != 0
      ensures forall j ::
          0 <= j < slots.Length && old(slots[j].key) == key && gone[j] < old(holders[j]) ==> r == Some(j)
    {
      hide WellFormed, Gained;
      var found, firstIdle;
      found, firstIdle, gone := Scan(key, others);
      r, shared := if found.Some? then found else firstIdle, found.Some?;
      if shared {
        HolderIsFound(old(slots[..]), old(holders), gone, r.value, key, 1);
        Inherit(r.value, key, initial - 1, old(slots[..]), old(holders), gone);
      } else if r.Some? {
        TakeIdle(r.value, key, initial, old(slots[..]), old(holders), gone);
      } else {
        NobodyHeld(old(slots[..]), old(holders), gone, key);
      }
    }

    /** If no slot of `key` is live now, all holders of such slots have released them. */
    lemma NobodyHeld(before: seq<Slot>, heldBefore: seq<nat>, gone: seq<nat>, key: nat)
      requires Valid() && OnlyReleased(before, slots[..]) && Balance(heldBefore, Zeros(slots.Length), gone)
      requires forall j :: 0 <= j < slots.Length ==> !Live(slots[..], j, key)
      ensures forall j :: 0 <= j < slots.Length && before[j].key == key ==> gone[j] == heldBefore[j]
    {
      forall j | 0 <= j < slots.Length && before[j].key == key
        ensures gone[j] == heldBefore[j]
      {
        assert !Live(slots[..], j, key) && slots[..][j] == slots[j];
        assert holders[j] + gone[j] == heldBefore[j] + Zeros(slots.Length)[j];
      }
    }

    /** `more` workers inherit an address object whose slot was found; the table does not notice. */
    ghost method Inherit(i: nat, key: nat, more: nat, before: seq<Slot>, heldBefore: seq<nat>, gone: seq<nat>)
      requires Valid() && Gained(before, heldBefore, Zeros(slots.Length), gone, i, key, 1)
      modifies this`holders
      ensures |gone| == slots.Length == |holders| && WellFormed(slots[..])
      ensures Gained(before, heldBefore, Zeros(slots.Length), gone, i, key, more + 1)
      ensures i < slots.Length && forall j :: 0 <= j < slots.Length ==>
          slots[j].refs == holders[j] - (if j == i then more else 0)
      ensures Valid() <==> more == 0
    {
      hide WellFormed;
      holders := holders[i := holders[i] + more];
      assert more != 0 ==> slots[i].refs != holders[i];
    }

    /** Initialises a free slot when no live one has the key. */
    method TakeIdle(i: nat, key: nat, initial: nat, ghost before: seq<Slot>, ghost heldBefore: seq<nat>,
                    ghost gone: seq<nat>)
      requires Valid() && i < slots.Length && slots[i].refs == 0 && key != 0 && initial > 0
      requires forall j :: 0 <= j < i ==> slots[j].key != 0
      requires forall j :: 0 <= j < slots.Length ==> !Live(slots[..], j, key)
      requires OnlyReleased(before, slots[..]) && Balance(heldBefore, Zeros(slots.Length), gone)
      modifies slots, this`holders
      ensures Valid() && |gone| == slots.Length
      ensures Gained(before, heldBefore, Zeros(slots.Length), gone, i, key, initial)
      ensures i < |heldBefore| && gone[i] == heldBefore[i]
      ensures forall j :: 0 <= j < slots.Length && before[j].key == key && gone[j] < heldBefore[j] ==> j == i
    {
      Take(i, key, initial);
      HolderIsFound(before, heldBefore, gone, i, key, initial);
    }

    lemma GainedSince(before: seq<Slot>, heldBefore: seq<nat>, mid: seq<Slot>, heldMid: seq<nat>,
                      dropped: seq<nat>, gone: seq<nat>, i: nat, key: nat)
      requires Gained(mid, heldMid, dropped, gone, i, key, 1) && OnlyReleased(before, mid) && |heldBefore| == |heldMid|
      requires forall j :: 0 <= j < |heldMid| ==> heldMid[j] + dropped[j] == heldBefore[j] + Zeros(|heldMid|)[j]
      ensures Gained(before, heldBefore, Zeros(slots.Length), gone, i, key, 1)
      ensures Live(mid, i, key) ==> Live(before, i, key)
    {
    }

    /** A slot of `key` that kept a holder all the time is the one found. */
    lemma HolderIsFound(before: seq<Slot>, heldBefore: seq<nat>, gone: seq<nat>, i: nat, key: nat, more: nat)
      requires Valid() && more > 0
      requires Gained(before, heldBefore, Zeros(slots.Length), gone, i, key, more)
      ensures forall j :: 0 <= j < slots.Length && before[j].key == key && gone[j] < heldBefore[j] ==> j == i
    {
      assert forall j :: 0 <= j < slots.Length ==> slots[..][j] == slots[j];
    }

    /** Write one slot: the increment of a live one, or the initialisation of a free one. */
    method Take(i: nat, key: nat, refs: nat)
      requires Valid() && i < slots.Length && key != 0
      requires forall j :: 0 <= j < i ==> slots[j].key != 0
      requires forall j :: 0 <= j < slots.Length && j != i ==> !Live(slots[..], j, key)
      modifies slots, this`holders
      ensures Valid() && slots[..] == old(slots[..])[i := Slot(key, refs)] && holders == old(holders)[i := refs]
    {
      TakeKeeps(slots[..], i, key, refs);
      slots[i] := Slot(key, refs);
      holders := holders[i := refs];
    }
  }

  /** Two hostnames resolve to one address in a master with two workers: three references, four holders. */
  method MasterSharesASlot(key: nat) returns (t: Table)
    requires key != 0
    ensures fresh(t) && t.slots.Length == 1 && |t.holders| == 1
    ensures t.slots[0].refs == 3 && t.holders[0] == 4 && !t.Valid()
  {
    hide WellFormed;
    t := new Table(1);
    var r, shared, gone := t.Alloc(key, 2, _ => ([], [], []));
    assert r == Some(0) && t.slots[0] == Slot(key, 2) && t.holders[0] == 2;
    var r2, shared2, gone2 := t.Alloc(key, 2, _ => ([], [], []));
  }

  datatype Turn = Next | Stop | Found

  ghost function Zeros(n: nat): seq<nat> {
    seq(n, _ => 0)
  }
}
