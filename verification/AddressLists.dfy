/** Sequence facts about the linked lists of addresses: the upstream-wide list and, threaded
    through the same nodes, one list for each hostname. */
module AddressLists {
  import opened Common
  import opened Connections
  import MergeDiff

  /** The nodes of one hostname, in list order. */
  function Of(list: seq<Address>, h: nat): seq<Address> {
    if list == [] then []
    else if list[0].hostname == h then [list[0]] + Of(list[1..], h)
    else Of(list[1..], h)
  }

  /** Link `x` in front of `before`, or at the end. */
  function InsertBefore(list: seq<Address>, before: Option<Address>, x: Address): seq<Address> {
    if list == [] then [x]
    else if before == Some(list[0]) then [x] + list
    else [list[0]] + InsertBefore(list[1..], before, x)
  }

  function Keys(list: seq<Address>): (keys: seq<real>)
  {
    seq(|list|, k requires 0 <= k < |list| => list[k].sockaddr.key)
  }

  /** The nodes a purge keeps. */
  function Unmarked(list: seq<Address>): seq<Address>
    reads list
  {
    if list == [] then []
    else if list[0].resolveDeleted then Unmarked(list[1..])
    else [list[0]] + Unmarked(list[1..])
  }

  /** The nodes a purge moves to the deferred list. */
  function Marked(list: seq<Address>): seq<Address>
    reads list
  {
    if list == [] then []
    else if list[0].resolveDeleted then [list[0]] + Marked(list[1..])
    else Marked(list[1..])
  }

  lemma {:induction false} OfMembers(list: seq<Address>, h: nat)
    ensures forall a :: a in Of(list, h) <==> a in list && a.hostname == h
  {
    if list != [] {
      OfMembers(list[1..], h);
      assert list == [list[0]] + list[1..];
    }
  }

  lemma {:induction false} OfOnce(list: seq<Address>, h: nat)
    requires Once(list)
    ensures Once(Of(list, h))
  {
    if list != [] {
      OfOnce(list[1..], h);
      OfMembers(list[1..], h);
      assert list[0] !in list[1..];
    }
  }

  lemma ConsTail<T>(x: T, s: seq<T>)
    ensures ([x] + s)[0] == x && ([x] + s)[1..] == s
  {
  }

  lemma {:induction false} OfWithout(list: seq<Address>, x: Address, h: nat)
    ensures Of(Without(list, x), h) == Without(Of(list, h), x)
  {
    if list != [] {
      OfWithout(list[1..], x, h);
      OfMembers(list[1..], h);
      ConsTail(list[0], Without(list[1..], x));
      ConsTail(list[0], Of(list[1..], h));
      if list[0] == x && x.hostname != h {
        WithoutAbsent(Of(list[1..], h), x);
      }
    }
  }

  lemma {:induction false} OfInsert(list: seq<Address>, before: Option<Address>, x: Address, h: nat)
    requires before.Some? ==> before.value in list && before.value.hostname == x.hostname
    ensures Of(InsertBefore(list, before, x), h)
         == if x.hostname == h then InsertBefore(Of(list, h), before, x) else Of(list, h)
  {
    if list == [] {
      assert [x][1..] == [];
    } else if before == Some(list[0]) {
      ConsTail(x, list);
      ConsTail(list[0], Of(list[1..], h));
    } else {
      assert list == [list[0]] + list[1..];
      OfInsert(list[1..], before, x, h);
      ConsTail(list[0], InsertBefore(list[1..], before, x));
      ConsTail(list[0], Of(list[1..], h));
    }
  }

  lemma {:induction false} InsertMembers(list: seq<Address>, before: Option<Address>, x: Address)
    requires Once(list) && x !in list
    ensures Once(InsertBefore(list, before, x))
    ensures forall a :: a in InsertBefore(list, before, x) <==> a in list || a == x
  {
    if list != [] {
      assert list == [list[0]] + list[1..];
      assert list[0] !in list[1..];
      if before != Some(list[0]) {
        InsertMembers(list[1..], before, x);
      }
    }
  }

  /** Insertion in front of a node met for the first time. */
  lemma {:induction false} InsertAt(done: seq<Address>, rest: seq<Address>, before: Option<Address>, x: Address)
    requires before == None ==> rest == []
    requires before.Some? ==> rest != [] && before.value == rest[0] && before.value !in done
    ensures InsertBefore(done + rest, before, x) == done + [x] + rest
  {
    if done == [] {
      assert done + rest == rest && done + [x] + rest == [x] + rest;
    } else {
      assert done[0] in done;
      assert (done + rest)[1..] == done[1..] + rest;
      InsertAt(done[1..], rest, before, x);
    }
  }

  lemma {:induction false} WithoutAt(done: seq<Address>, x: Address, rest: seq<Address>)
    requires x !in done
    ensures Without(done + [x] + rest, x) == done + rest
  {
    if done == [] {
      assert done + [x] + rest == [x] + rest && done + rest == rest;
    } else {
      assert done[0] in done;
      assert (done + [x] + rest)[1..] == done[1..] + [x] + rest;
      WithoutAt(done[1..], x, rest);
      assert done + rest == [done[0]] + (done[1..] + rest);
    }
  }

  lemma {:induction false} UnmarkedMembers(list: seq<Address>)
    ensures forall a :: a in Unmarked(list) <==> a in list && !a.resolveDeleted
    ensures forall a :: a in Marked(list) <==> a in list && a.resolveDeleted
  {
    if list != [] {
      UnmarkedMembers(list[1..]);
      assert list == [list[0]] + list[1..];
    }
  }

  lemma {:induction false} UnmarkedOnce(list: seq<Address>)
    requires Once(list)
    ensures Once(Unmarked(list)) && Once(Marked(list))
  {
    if list != [] {
      UnmarkedOnce(list[1..]);
      UnmarkedMembers(list[1..]);
      assert list[0] !in list[1..];
    }
  }

  /** Purging the whole list purges each hostname's list. */
  lemma {:induction false} OfUnmarked(list: seq<Address>, h: nat)
    ensures Of(Unmarked(list), h) == Unmarked(Of(list, h))
  {
    if list != [] {
      OfUnmarked(list[1..], h);
      ConsTail(list[0], Unmarked(list[1..]));
      ConsTail(list[0], Of(list[1..], h));
    }
  }

  lemma {:induction false} NothingMarked(list: seq<Address>)
    requires forall a <- list :: !a.resolveDeleted
    ensures Unmarked(list) == list && Marked(list) == []
  {
    if list != [] {
      assert list == [list[0]] + list[1..];
      NothingMarked(list[1..]);
    }
  }

  /** Keys never fall along the list. */
  predicate InOrder(list: seq<Address>) {
    |list| >= 2 ==> list[0].sockaddr.key <= list[1].sockaddr.key && InOrder(list[1..])
  }

  lemma {:induction false} InOrderPair(list: seq<Address>, i: nat, j: nat)
    requires InOrder(list) && i < j < |list|
    ensures list[i].sockaddr.key <= list[j].sockaddr.key
  {
    if i > 0 {
      InOrderPair(list[1..], i - 1, j - 1);
    } else if j > 1 {
      InOrderPair(list[1..], 0, j - 1);
    }
  }

  lemma InOrderIsSorted(list: seq<Address>)
    requires InOrder(list)
    ensures MergeDiff.Sorted(Keys(list))
  {
    forall i, j | 0 <= i < j < |list|
      ensures Keys(list)[i] <= Keys(list)[j]
    {
      InOrderPair(list, i, j);
    }
  }

  /** A purge of a sorted list leaves it sorted. */
  lemma {:induction false} UnmarkedInOrder(list: seq<Address>)
    requires InOrder(list)
    ensures InOrder(Unmarked(list))
    ensures Unmarked(list) != [] ==> list[0].sockaddr.key <= Unmarked(list)[0].sockaddr.key
  {
    if |list| >= 1 {
      UnmarkedInOrder(list[1..]);
      ConsTail(list[0], Unmarked(list[1..]));
    }
  }

  lemma {:induction false} InOrderByIndex(list: seq<Address>)
    requires forall k :: 0 <= k < |list| - 1 ==> list[k].sockaddr.key <= list[k + 1].sockaddr.key
    ensures InOrder(list)
  {
    if |list| >= 2 {
      InOrderByIndex(list[1..]);
    }
  }

  lemma SortedInOrder(list: seq<Address>)
    requires MergeDiff.Sorted(Keys(list))
    ensures InOrder(list)
  {
    forall k | 0 <= k < |list| - 1
      ensures list[k].sockaddr.key <= list[k + 1].sockaddr.key
    {
      assert Keys(list)[k] <= Keys(list)[k + 1];
    }
    InOrderByIndex(list);
  }
}
