# A verified model of the Phorklift HTTP server

This project models the parts of Phorklift where several pieces of mutable state have to agree, and
proves what they are for. `dafny verify dfyconfig.toml` checks all of it with Dafny 4.11.

| component | files |
|---|---|
| upstream addresses and connections | `Connections.dfy`, `AddressLists.dfy`, `MergeDiff.dfy`, `Upstream.dfy`, `Health.dfy`, `StatsTable.dfy`, `UpstreamRead.dfy` |
| load balancers | `RandomPick.dfy`, `HashPick.dfy`, `RetryPick.dfy` |
| dynamic sub-configurations | `DynamicEntry.dfy`, `DynamicCalls.dfy`, `Dynamic.dfy`, `DynamicAnswers.dfy` |
| response bytes | `Chunked.dfy`, `SendBuffer.dfy`, `ResponseBody.dfy` |
| file cache | `HeaderDump.dfy`, `FileCache.dfy`, `FileRules.dfy` |
| routing and reload | `HostNames.dfy`, `HostLookup.dfy`, `PathCheck.dfy`, `Reload.dfy` |

Objects the server updates in place are classes whose methods are proved against value-level
specifications and keep an invariant `Valid()`. Any sequence of method calls is then a run, so what
`Valid()` implies holds in every run. The file cache is different: its actors are processes that share
nothing but files, so it is a transition system with one step for each system call, and its theorems
are about all sequences of steps.

## What is assumed, and how things are represented

- Weights and prefix sums are exact reals, so rounding plays no part. Weights are positive in the
  random balancer. The code rejects the weight 0 but not a negative number after `#`.
- Times are numbers handed to the calls that read the clock. Randomness, hashes, `qsort`, the Lua
  functions, the resolver and the sockets are parameters: whatever they do within their own contract,
  the theorems hold.
- `is_pickable` is a fixed predicate during one pick.
- A request has one list node. `elsewhere`, in `Upstream.Upstream` and in `Dynamic.Cache`, is the set of
  requests whose node is on a list the class does not own: that of its father for a subrequest
  (src/phl_request.c:672), or the waiting list of the other class.
- Addresses are compared by a key in a total preorder, which ignores the port, as the resolver compares them.
- A dictionary lookup returns the newest entry of a name. The replacement of a sub-configuration
  relies on that (src/phl_dynamic.c:278-285). Hash tags are not zero, and sub-configurations do not nest.
- Memory from a pool is zeroed, and an allocation is large enough for the one byte by which the dump of
  a header is rounded up. Name and value lengths fit the two shorts of a header.
- A file identity is an open file, never reused; writing a cache file does not fail, and the eight
  bytes of the length are written at once. `SIZE_MAX`, the mark of an unset length, is the missing
  value of an option.
- Two nested loops over listens and their addresses are one loop over a flat list in `Reload.Server`.

## What the proofs brought to light

- The idle pool of an address holds up to `idle_max + 1` connections (src/phl_upstream.c:210); `Connections.Address.Valid` has that bound.
- A failure limit of 0 switches a down counter off; the history rule in `Health.Down` says so.
- An empty piece of a chunked body is the terminal chunk, wherever it comes. A body decodes to its
  pieces, with nothing left behind, exactly if none before the last is empty: `Chunked.BodyDecodes`. That
  always holds for a body of unknown length; a generator of known length may break it, when the length
  was hidden by a filter.
- `phl_dynamic_get` appends a request to a holder's list without the test that src/phl_upstream.c:79
  makes. The list stays right exactly if the request is on no list (`DynamicCalls.ParkOnce`,
  `DynamicCalls.ParkKeeps`), and a call keeps the cache's invariant exactly if the list node is free when
  the call appends it, and the request not parked when the call suspends it (`DynamicCalls.CallKeeps`;
  `Sound` is a test of the state before the call). A connection that runs its parked request again breaks
  the invariant (`Dynamic.ParkedTwice`), and so does a subrequest (`Dynamic.SubrequestParked`).
- With that test, a subrequest that asks an upstream for its first connection is not put on the waiting
  list, and the end of the round does not wake it: `Upstream.SubrequestForgotten`. A request waits exactly
  if its list node was free or it waits already: `Upstream.Upstream.GetConnection`.
- The container that replaces a holder may be gone before the caller sees it. That happens exactly if a
  woken request of its name finds it due for a check and replaces it in turn
  (`DynamicCalls.GivenUnlessReplaced`); `Dynamic.ReplacedUnseen` is such a run. It cannot happen while the
  clock does not move (`DynamicCalls.EverybodyIsGiven`).
- In the master, a statistics slot that is found counts one more reference, although every worker
  inherits the address object. While nobody else releases, references equal holders afterwards exactly if
  there is only one process or no slot of that key was live (`StatsTable.Table.Alloc`); two hostnames with
  one address and two workers leave three references for four holders (`StatsTable.MasterSharesASlot`), so
  the slot can be taken over while it is in use.
- A request that finds the name it wants to store taken gives up by the same clean-up as one whose own
  store has begun, so it unlinks the name of the winner (src/modules/phl_file_cache.c:210,378-381):
  `FileRules.RefusedIsNotStored` and `FileRules.DroppedIsUnlinked`. Whoever has that file open still gets
  the whole response, but the entry is lost.
- A response with more than 100 headers overruns the array in which the file cache collects them
  (src/modules/phl_file_cache.c:350-366), unless an unusable `Cache-Control` ends the loop before:
  `HeaderDump.Collect`. `FileCache` puts such a request in the stage `Overrun` and says nothing of what it
  does from there on, although it may write anywhere.
- When a new configuration fails at one of its addresses, the free handler closes descriptor 0 once for
  every address of that listen that was not reached: `Reload.BrokenFrees`. The live configuration
  survives that exactly if descriptor 0 is not one of its sockets.
- Two listens of a new configuration that take over one live address share its socket, because
  `phl_conf_listen_reuse_fd` finds the same slot for both. That is the only way to share one
  (`Reload.OwnedIffOnce`): while an address is not live, its second listen fails or gets a socket of its
  own. A reload leaves every slot its own socket exactly if no live address is listed twice
  (`Reload.Server.Parse`). Otherwise the socket is closed twice when the configuration goes
  (`Reload.FreedClosesOnce`, `Reload.SharedIsClosedTwice`), and even a reload that lists the address again
  closes it (`Reload.SharedIsLost`).
- The check for overwritten paths is too strict for `~` patterns: `PathCheck.RejectedMayDecide` has a
  pathname that is refused although it alone matches a request. Only a prefix that nothing but patterns
  overwrite can be such a pathname (`PathCheck.RejectedIsRedundant`), and where no pattern comes before it
  none is (`PathCheck.RejectionIsHarmless`).
- `/p` behind `=/p` is accepted, and then does not serve the request `/p`: `PathCheck.PrefixIsSelected`.
- The lookup of an empty host name reads the byte in front of its copy (src/phl_conf_host.c:123) exactly if
  that name is not registered and some host has a trailing wildcard, and overwrites that byte if it is a
  dot (line 124). The answer is right all the same: `HostLookup.Listen.Locate`.
- The hash balancer has no virtual node exactly if every weight is so small that its count is rounded to
  0 (`HashPick.EmptyIfAllTiny`). A pick by a key then dereferences none, so it asks for a non-empty table.

## Model

| member | source | states |
|---|---|---|
| RandomPick.Context.Update | src/loadbalances/phl_upstream_random.c:28-51 | the table lists the addresses in order, every slot and the sentinel holding the exact sum of the weights before it, and all of them are available |
| RandomPick.Context.Exchange | src/loadbalances/phl_upstream_random.c:53-77 | patching the sums between the two places makes the table the exact prefix-sum table of the swapped list |
| RandomPick.SwapShiftsSums | src/loadbalances/phl_upstream_random.c:70-76 | a swap shifts exactly the sums in (i, j], all by the same weight difference |
| RandomPick.Context.Expire | src/loadbalances/phl_upstream_random.c:79-83 | the address trades places with the last available one, and the table stays exact and a permutation of the listed addresses |
| RandomPick.Context.Recover | src/loadbalances/phl_upstream_random.c:85-89 | the address trades places with the first unavailable one, and the table stays exact |
| RandomPick.Context.Search | src/loadbalances/phl_upstream_random.c:95-110 | the binary search ends on the owner of the point, so the assertion behind it never fires |
| RandomPick.OwnerIsUnique | src/loadbalances/phl_upstream_random.c:95-108 | no point of the weight axis has two owners |
| RandomPick.Context.Random | src/loadbalances/phl_upstream_random.c:91-111 | the index drawn is the owner of the scaled random point, as a linear scan would find it |
| RandomPick.ScalingIsInRange | src/loadbalances/phl_upstream_random.c:93 | scaling a number of [0, 1) by the total gives a point inside the table |
| RandomPick.Context.Pick | src/loadbalances/phl_upstream_random.c:113-159 | result and table are those of the value-level choice, whose guarantee is proved separately; the retry loop ends |
| RandomPick.Context.PickAgain | src/loadbalances/phl_upstream_random.c:137-158 | the goto loop is the value-level retry among available addresses, and each turn shrinks that part |
| RandomPick.RetrySettles | src/loadbalances/phl_upstream_random.c:137-158 | retries only move unpickable addresses out of the available part, and the result is pickable exactly if that part is not empty afterwards |
| RandomPick.PickGuarantee | src/loadbalances/phl_upstream_random.c:113-159 | the result is pickable unless every available address was unpickable and none is available now; only one recovered address can enter the available part; at most one draw more than there were available addresses |
| RandomPick.FirstDrawDecides | src/loadbalances/phl_upstream_random.c:118-158 | the address on whose interval the first point falls is the result if it is pickable, or if it has come back from behind the available part, which it then enters by the exact exchange; otherwise it leaves the available part, if it was in it, and the retries begin |
| RandomPick.RetryDecides | src/loadbalances/phl_upstream_random.c:137-158 | the same of every point of a retry, among the available addresses only; when there is none left, the last one tried is the result |
| RandomPick.ChosenOnItsShare | src/loadbalances/phl_upstream_random.c:118-120 | a pickable address is the result of the first draw exactly on an interval of points as wide as its weight |
| RandomPick.ShareIsWeight | src/loadbalances/phl_upstream_random.c:91-110 | under every permutation, an address is drawn on an interval exactly as wide as its weight |
| HashPick.CountIsRounded | src/loadbalances/phl_upstream_hash.c:42-49 | an address has its weighted share of virtual nodes, rounded to the nearest number |
| HashPick.Context.Update | src/loadbalances/phl_upstream_hash.c:50-75 | the table is a sorted permutation of the virtual nodes of all listed addresses |
| HashPick.NodesAreExact | src/loadbalances/phl_upstream_hash.c:62-71 | those are all the nodes of each address by its count, and no others |
| HashPick.NodesHaveTheirHashes | src/loadbalances/phl_upstream_hash.c:62-71 | a node of the table has the hash of its address and its number, and there is one for each number below the count of the address |
| HashPick.Context.Search | src/loadbalances/phl_upstream_hash.c:90-104 | the loop stops where the value-level search stops |
| HashPick.StopIsALanding | src/loadbalances/phl_upstream_hash.c:90-104 | in a sorted table it stops on a node of equal hash, or next to the insertion point of the key |
| HashPick.ServedFromLanding | src/loadbalances/phl_upstream_hash.c:77-119 | in a sorted table a key is served by the first pickable address, round the circle, from a node of its hash or next to its insertion point; by the address of that node if none is pickable |
| HashPick.EqualHashServes | src/loadbalances/phl_upstream_hash.c:90-111 | a key whose hash some nodes have is served by one of their addresses, if they are pickable |
| HashPick.EmptyIfAllTiny | src/loadbalances/phl_upstream_hash.c:42-60 | the table is empty exactly if every weight is non-zero and too small for half a virtual node |
| HashPick.Context.Pick | src/loadbalances/phl_upstream_hash.c:77-119 | without a key nothing is served, whatever the table; else the two scans serve the first pickable address on the circle from the landing node, or the node's own |
| HashPick.UnpickableMeansNone | src/loadbalances/phl_upstream_hash.c:106-118 | the served address is pickable exactly if some address with a node is |
| HashPick.DownMovesOnlyItsOwnKeys | src/loadbalances/phl_upstream_hash.c:106-118 | when an address goes down or comes back, only the keys it serves while up change their address |
| RetryPick.RandomAvoidsMarked | src/phl_upstream.c:156-162 | the random pick's guarantee for the real test of addresses: one marked by a retry is chosen only if no available address was pickable |
| RetryPick.HashAvoidsMarked | src/phl_upstream.c:156-162 | the hash balancer serves a key from a marked address only if no address with a node is pickable |
| Health.CounterMeetsRule | src/phl_upstream.c:183-198 | after any history: down exactly if some F failures in a row were not followed by P passes in a row; the counts are the trailing runs, one of them zero, and failures stay below F while up |
| Health.DownSince | src/phl_upstream.c:190-197 | while down, the recorded time is that of the very result that brought the counter down, and it has been down since |
| Connections.Address.HealthcheckDone | src/phl_upstream_healthcheck.c:14-29 | a finished check moves the active counter by the same rule |
| Connections.Address.IsPickable | src/phl_upstream.c:360-381 | an address down by the active check is never tried; one that is up always; one that is down on failures exactly when the timeout has passed, no request is on it and the filter agrees |
| MergeDiff.SurvivorsAreTheReply | src/phl_upstream_resolve.c:193-238 | what is left after purging the marked addresses is the reply, entry by entry, in its order |
| MergeDiff.OldOnesInOrder | src/phl_upstream_resolve.c:196-232 | every old address is met once, in order: none is skipped or met twice |
| MergeDiff.ChangedMeansDifferent | src/phl_upstream_resolve.c:193-238 | the diff asks for an update exactly if list and reply differ |
| MergeDiff.KeepsAllItCan | src/phl_upstream_resolve.c:203-209 | of every key, as many address objects keep their identity as both sides have |
| MergeDiff.MergedIsSorted | src/phl_upstream_resolve.c:197-238 | the list stays sorted while marked addresses are still in it |
| Upstream.Upstream.AddressAdd | src/phl_upstream_resolve.c:74-131 | the new address takes the same place in the hostname's and the upstream's list; it is that of the entry, on the hostname's port if that has one and else on the entry's |
| Upstream.Upstream.AddressDelete | src/phl_upstream_resolve.c:23-31 | the address moves from both lists to the deferred one, and the lists stay consistent |
| Upstream.Upstream.Sweep | src/phl_upstream_resolve.c:193-238 | on live lists, the three loops do what the value-level diff says, to both lists at once, leave the other hostnames alone, and raise the update flag exactly if list and reply differ |
| Upstream.SweptListIsTheReply | src/phl_upstream_resolve.c:193-238 | the unmarked addresses of a swept list have the reply's keys in the reply's order |
| Upstream.SweptListIsMerged | src/phl_upstream_resolve.c:203-223 | each of them is the old object the diff kept for that entry, or a new one bound to it |
| Upstream.NewOnesFit | src/phl_upstream_resolve.c:80-101 | entry by entry: an address that was not listed before is that of the entry, on the hostname's port if that has one and else on the entry's own; a Unix address is the entry itself |
| Upstream.Upstream.Purge | src/phl_upstream_resolve.c:157-166 | exactly the marked addresses leave the list, for the deferred one, and the count is that of the others |
| Upstream.Upstream.ResolveHostname | src/phl_upstream_resolve.c:133-181 | the first hostname from the cursor on that has to be resolved is queried; behind the last one a changed list is purged, the balancer rebuilt from it and the waiters woken, unless no address is left |
| Upstream.Upstream.OnRead | src/phl_upstream_resolve.c:183-245 | after a reply the hostname's live addresses are the reply, made from old and new objects by the diff, every new one having the entry's address and the right port, and those of the other hostnames are as before; every listed address of a hostname with a port has that port; no address object is lost, and every address a balancer has is still listed; the next hostname in need is queried, or at the end of a round that changed something all waiters are woken in order and the balancer has the new list, unless no address is left, and otherwise all go on waiting |
| Upstream.Upstream.DeferFree | src/phl_upstream_resolve.c:8-21 | exactly the deleted addresses with neither active nor idle connections are freed |
| Upstream.Upstream.Timer | src/phl_upstream_resolve.c:250-272 | during a round nothing changes; otherwise exactly the deleted addresses without connections are freed, live ones stay, and the first hostname in need is queried, or else the waiters are woken or kept as at any round end |
| Upstream.Upstream.GetConnection | src/phl_upstream.c:66-140 | while there is no address a request waits exactly if its list node was free or it waits already; else its connection is the oldest idle one of the picked address, or a new one; that address is listed and not freed, the connection is held by nobody else, and no other address is touched |
| Upstream.SubrequestForgotten | src/phl_upstream.c:78-84 | a run in which a subrequest is told to come again and no round end wakes it |
| Upstream.Upstream.Release | src/phl_upstream.c:172-224 | the held connection is closed or pooled, the pool losing its oldest one if it is full; the result is counted, and every other held connection stays valid |
| Upstream.Upstream.Retry | src/phl_upstream.c:142-170 | the old connection is gone, and not pooled, before the new one is picked; the balancer is asked while it finds the old address not pickable, and afterwards the mark is as before; while there is no address the request waits as a new one would |
| Upstream.Upstream.CloseIdle | src/phl_upstream.c:46-51 | an event on a pooled connection closes that one and no other |
| Upstream.Upstream.Init | src/phl_upstream_resolve.c:324-332 | the addresses known at configuration time are linked in order, each with its entry's address and the right port, counted and handed to the balancer |
| Connections.Address.Get | src/phl_upstream.c:105-139 | the oldest idle connection is reused, else a new one opened; each connection stays in exactly one list, with a request exactly if active |
| Connections.Address.Release | src/phl_upstream.c:183-223 | closed after an error or an unclean end; else pooled, closing the oldest idle one when the pool is full |
| Connections.Address.Close | src/phl_upstream.c:21-33 | the connection leaves its list, and the idle count stays the length of the idle list |
| StatsTable.Table.Alloc | src/phl_upstream_resolve.c:33-72 | under any concurrent releases the table stays well formed, a continuously held slot is the one returned, and one that is found was live; without releases it is found exactly if one was live, else the first free slot is taken, and there is none only if none is free; references equal holders afterwards exactly if the slot was free or there is only one process |
| StatsTable.MasterSharesASlot | src/phl_upstream_resolve.c:52-63 | two workers and two hostnames with one address: three references for four holders |
| StatsTable.Table.Release | src/phl_upstream_resolve.c:16 | a release at any moment keeps the table well formed |
| StatsTable.NothingBehindUntouched | src/phl_upstream_resolve.c:48-50 | stopping at the first untouched slot misses no live slot |
| StatsTable.TakeKeeps | src/phl_upstream_resolve.c:52-63 | taking a slot for a key nobody else has live keeps the table well formed |
| StatsTable.Table.HolderIsFound | src/phl_upstream_resolve.c:42-57 | a slot of the key that had a holder throughout is the one returned |
| UpstreamRead.Stream.Read | src/phl_upstream.c:226-269 | bytes consumed, then pushed back, then unread are always the upstream's stream; of what was pushed back as much as fits is given first, then what has arrived; which read fails and which has nothing |
| UpstreamRead.Stream.ReadNotFinish | src/phl_upstream.c:270-282 | pushing back the tail of a read undoes it |
| UpstreamRead.Stream.HeaderTurn | src/phl_upstream_content.c:67-86 | the parser always sees the stream from the first byte it has not taken, and exactly what a read gives; what it does not take is pushed back, the push-back never finds one pending, and stays within one buffer |
| Dynamic.Cache.Get | src/phl_dynamic.c:172-294 | a call of a new, parked or resumed request leaves exactly the state of the value-level call, and returns its result, with all the calls it wakes; the invariant is kept exactly if the call is sound |
| DynamicCalls.CallKeeps | src/phl_dynamic.c:172-294 | whatever a call does, the invariant holds afterwards exactly if the request's list node was free when it was appended, and the request not parked when it was suspended; both are tests of the state before |
| DynamicCalls.CallIsLocal | src/phl_dynamic.c:172-294 | entries of names nobody asked for and requests nobody called are untouched, however many requests are woken; pending exactly if told to come again; never a bare holder as a container |
| DynamicCalls.AgainMeans | src/phl_dynamic.c:207-225 | told to come again exactly if appended to a holder's list or inside get_conf() |
| DynamicCalls.LookedMeans | src/phl_dynamic.c:200-216 | the lookup of a live entry does to it and answers what the rules for an entry alone say |
| DynamicAnswers.FreshIsServed | src/phl_dynamic.c:200-216 | a live entry that is not due for a check, by its interval or by the filter, is served, and only its idle timer is armed anew |
| DynamicAnswers.ErrorIsAnswered | src/phl_dynamic.c:203-206 | an entry with an error code answers that code and is not changed |
| DynamicAnswers.HolderIsJoined | src/phl_dynamic.c:207-210 | a request that finds a holder without an error code becomes its last waiter |
| DynamicAnswers.RefusedAtOnce | src/phl_dynamic.c:177-193 | a request without a usable name is refused, and so is a new name in a full cache; no entry changes |
| DynamicAnswers.NotDone | src/phl_dynamic.c:222-225 | while get_conf() is suspended, or when it fails, the entry stays as it was found |
| DynamicAnswers.StaleIsServed | src/phl_dynamic.c:231-293 | an answer that says not modified, has the tag there was, cannot be parsed or is any other failure leaves the same container in service and the entry as it was, up to idle timer and check time; a holder refuses the request and keeps its waiters |
| DynamicAnswers.OnlyStringsAreChecked | src/phl_dynamic.c:257-270 | a cache with a check interval refuses anything but a string |
| DynamicAnswers.MissingIsRecorded | src/phl_dynamic.c:242-247 | 404 is answered and remembered for the error time, the waiters staying |
| DynamicAnswers.NewTakesOver | src/phl_dynamic.c:278-287 | a new value makes an entry of its configuration, tag and time, which is found from now on and returned; the old one is gone, and no other entry changes |
| DynamicAnswers.NewIsForTheWaiters | src/phl_dynamic.c:278-287 | a resumed call wakes waiters exactly if there are any and its value is new, and the entry they will find is of that value |
| DynamicAnswers.NewNameGetsHolder | src/phl_dynamic.c:188-197 | a new name leaves a holder, armed for a minute, when get_conf() is suspended or gives nothing |
| DynamicAnswers.NewNameIsMissing | src/phl_dynamic.c:242-247 | a new name that does not exist leaves a holder that answers 404 for the error time |
| DynamicAnswers.NewNameIsServed | src/phl_dynamic.c:278-287 | a new name with a value at once leaves its entry and no holder |
| DynamicCalls.ParkKeeps | src/phl_dynamic.c:207-210 | appending a request to a holder's list, wherever its list node is, keeps the invariant exactly if the node was free |
| DynamicCalls.ParkOnce | src/phl_dynamic.c:208 | the lists stay consistent exactly if the request was on none of them |
| Dynamic.ParkedTwice | src/phl_dynamic.c:207-210 | a run in which a request is on one list twice |
| Dynamic.SubrequestParked | src/phl_dynamic.c:207-210 | a run in which a subrequest is on two lists |
| Dynamic.Cache.GetConf | src/phl_dynamic.c:218-293 | the second half of a call is the value-level one for every outcome; only a new value for a holder with waiters wakes anybody |
| DynamicCalls.WakeHands | src/phl_dynamic.c:278-287 | a replacement with waiters: each is called once, in order, and told by the state of the new entry at its turn; the entry is afterwards what the waiters left of it |
| DynamicCalls.GivenUnlessReplaced | src/phl_dynamic.c:278-287 | the container that is returned is gone exactly if a waiter of its name found it due for a check and replaced it |
| DynamicCalls.EverybodyIsGiven | src/phl_dynamic.c:212-216 | while no clock moves, the caller and everybody who waited for the name get the new entry, and it is there |
| DynamicEntry.GoneIffReplaced | src/phl_dynamic.c:278-287 | a fresh entry is gone after its waiters have called exactly if one of them replaced it at its turn |
| DynamicEntry.CalmIsGiven | src/phl_dynamic.c:212-216 | if no waiter finds the new entry due for a check, every waiter of its name gets it |
| Dynamic.ReplacedUnseen | src/phl_dynamic.c:285-287 | a run whose caller gets a container that is gone |
| Dynamic.Cache.Delete | src/phl_dynamic.c:23-52 | a deletion ends, and leaves exactly the state of the value-level deletion, whoever is woken |
| Dynamic.Cache.WakeAll | src/phl_dynamic.c:34-37 | the re-entrant loop empties the list, each turn being one value-level wake-up, although every woken request edits the cache |
| DynamicCalls.DeletedInOrder | src/phl_dynamic.c:34-37 | each waiter is called exactly once, oldest first, and nobody else is; afterwards it is pending exactly if it was told to come again |
| DynamicCalls.DeletedIsLocal | src/phl_dynamic.c:23-52 | the entry is gone, and no entry of a name that is neither its own nor asked by a waiter, and no other request, is touched |
| DynamicCalls.DeletedRefuses | src/phl_dynamic.c:29-38 | without a successor, waiters that ask for the name again get the holder's error code, or 500, and none parks on the dying holder |
| Dynamic.Cache.Timeout | src/phl_dynamic.c:54-58 | the timer leaves exactly the state of the value-level expiry, and the invariant |
| DynamicCalls.ExpiryIsLocal | src/phl_dynamic.c:54-58 | the entry is gone, its waiters have called once in order, and nothing else is touched |
| DynamicCalls.ExpiryIsExact | src/phl_dynamic.c:54-58 | an entry nobody waits on, and its name, are removed, and that is all |
| DynamicCalls.ExpiryRefuses | src/phl_dynamic.c:29-38 | the waiters of an expired holder that ask for its name get 404 or 500, whichever it had |
| Dynamic.Cache.OnMiss | src/phl_dynamic.c:190-197 | a full cache refuses; else a holder is made for those who follow, and stays, is marked missing or is replaced as get_conf() says |
| DynamicCalls.PendingIsLookedAfter | src/phl_dynamic.c:154-209 | a pending request outside get_conf() is on a holder that lookups find and whose timer is armed |
| DynamicCalls.WithinLimits | src/phl_dynamic.c:188-197 | between events there is one entry for a name, and no more than `sub_max` |
| Chunked.PieceDecodes | src/phl_http1.c:182-199 | a packed piece is one chunk of section 7.1 of RFC 9112 with exactly that content, blanks behind the size tolerated |
| Chunked.LastPieceDecodes | src/phl_http1.c:192-194 | a last piece also carries the terminal chunk, and nothing behind it is read |
| Chunked.EmptyPieceEnds | src/phl_http1.c:195-198 | an empty piece is the terminal chunk |
| Chunked.StreamDecodes | src/phl_http1.c:182-199 | any sequence of non-empty pieces decodes to their concatenation, whatever follows |
| Chunked.LastDecodes | src/phl_http1.c:182-199 | the last piece ends the body, also when it is empty |
| Chunked.BodyDecodes | src/phl_http1.c:182-199 | a body decodes to all its pieces with nothing left behind exactly if none before the last is empty |
| Chunked.SizeLineReads | src/phl_http1.c:189-190 | the eight-digit padded size line reads back as the size |
| Chunked.OnTheWire | src/phl_http1.c:182-199 | two pieces byte by byte: a last one of two bytes, with the terminal chunk, and any one of 26 bytes |
| SendBuffer.Connection.Flush | src/phl_connection.c:57-87 | what the socket took, then what is buffered, is what was appended, in order; the result code says whether all of it went |
| SendBuffer.Connection.Taken | src/phl_connection.c:78-80 | a partial write moves the rest to the front and loses nothing |
| SendBuffer.Connection.MakeSpace | src/phl_connection.c:104-142 | the buffer is flushed exactly if it has less room than asked for; the room granted is then the room there is, at least what was asked for; else a negative code that says why |
| SendBuffer.Connection.DeferRoutine | src/phl_connection.c:89-102 | what the socket takes at the end of the loop turn has left the buffer, in order; the buffer is given back only when the socket has everything, and a failing socket closes the connection |
| ResponseBody.Response.Pack | src/phl_http1.c:182-199 | packing around the payload in place yields the packed piece, touches nothing in front of it and stays inside the granted room |
| ResponseBody.Response.Pass | src/phl_request.c:492-585 | when a pass fails, when it suspends and when it goes on, by the room in the buffer and what the generator says for that room; one that goes on adds exactly the generated piece, empty or not, to the body; the body ends when its known length is reached or, without one, when the generator delivers nothing, and not before |
| ResponseBody.Response.WireCarriesTheContent | src/phl_request.c:492-585 | end to end, for every schedule of passes, suspensions and partial writes: the finished body on the wire and in the buffer decodes to the generated content, with nothing behind it, exactly if no piece before the last was empty, which always holds for a body of unknown length |
| HeaderDump.New | src/phl_header.h:19-37 | the memory of a new header is a dump of its name and value |
| HeaderDump.DumpIsEven | src/phl_header.h:99-106 | a dump is the two lengths, name and value with their terminators, rounded up to an even number of bytes |
| HeaderDump.Collect | src/modules/phl_file_cache.c:345-366 | the counting loop stays inside its array exactly if there are at most 100 headers, and then has all of them and their total length |
| HeaderDump.Store | src/modules/phl_file_cache.c:349-400 | up to 100 headers, the buffer counted first is filled exactly by the dumps of all headers |
| HeaderDump.LoadUndoesDump | src/phl_header.h:99-114 | loading at a dump gives back name and value, whatever the padding byte is |
| HeaderDump.DumpedIsLoaded | src/modules/phl_file_cache.c:319-324 | all headers come back from their dumps, and the loader stays inside the buffer |
| HeaderDump.LoadAll | src/modules/phl_file_cache.c:311-324 | the loading loop returns what the value-level loader finds |
| FileCache.StepKeeps | src/modules/phl_file_cache.c:197-443 | every system call of every request, in any order, keeps the invariant: one writer for an unfinished file, and every file holds the start of the response its creator was given |
| FileCache.ServedIsStored | src/modules/phl_file_cache.c:262-330 | in every interleaving, an accepted entry has the status and headers that were stored, a content length equal to the length of all pieces its creator was given, and a body read as far as that length is their concatenation |
| FileRules.StepIsLocal | src/modules/phl_file_cache.c:197-443 | a step of a request touches no other request's progress and no other name, and its own name only in the two directories of its worker |
| FileRules.OpenedDecides | src/modules/phl_file_cache.c:288-309 | the item of an opened file decides: an unfinished one is left alone, a finished one is accepted exactly if it has not expired, and else dropped |
| FileRules.StaleIsDropped | src/modules/phl_file_cache.c:300-309 | an expired entry leaves the current directory, and the request goes on as a miss |
| FileRules.ServedIsUnexpired | src/modules/phl_file_cache.c:300-330 | in every run, whoever serves from an entry found it unexpired when reading its item |
| FileRules.ReadGoesOn | src/phl_request.c:536-545 | a read takes the next bytes of the stored body, as many as there are and no more than asked for |
| FileCache.FinishedIsFinal | src/modules/phl_file_cache.c:430-440 | once the length is written the file never changes |
| FileCache.AbandonedIsNeverServed | src/modules/phl_file_cache.c:197-218 | a store that was cut off is never accepted by anyone, even if nobody unlinks it |
| FileCache.DroppedNameIsFree | src/modules/phl_file_cache.c:197-218 | a request that ends before its store is complete unlinks its name and touches no file |
| FileRules.EarlyEnd | src/modules/phl_file_cache.c:197-218 | a request that ends early gives up a store it has begun and leaves a complete entry alone |
| FileCache.LookFinds | src/modules/phl_file_cache.c:262-283 | an entry of the current or the last period is opened, and one of the last period is moved to the current one |
| FileRules.LookMisses | src/modules/phl_file_cache.c:262-283 | a name that neither directory has is a miss, and nothing changes |
| FileRules.CurrentIsOpened | src/modules/phl_file_cache.c:262-266 | an entry of the current directory is opened where it is |
| FileRules.LastIsMoved | src/modules/phl_file_cache.c:267-275 | one that only the last directory has is opened and moved to the current one, and no other name is touched |
| FileRules.RenewalKeepsEntries | src/modules/phl_file_cache.c:85-108 | a new period loses no entry: what a new request would have found, it still finds |
| FileCache.OpenedServesAll | src/modules/phl_file_cache.c:288-329 | an unexpired finished entry serves the whole stored response |
| FileCache.StorePublishes | src/modules/phl_file_cache.c:332-443 | a cacheable response with at most 100 headers, stored without interference, becomes a finished entry under its name: status, counts, the length of all its pieces, and an expiry of now plus its lifetime |
| FileRules.StoreIsListed | src/modules/phl_file_cache.c:378-443 | what is stored is linked under its own name in the current directory, and nowhere else |
| FileRules.RefusedIsNotStored | src/modules/phl_file_cache.c:332-381 | a response that is not 200, may not be cached, has no lifetime or comes second under its name makes no file |
| FileRules.DroppedIsUnlinked | src/modules/phl_file_cache.c:205-211 | a request that gives up unlinks the name it wanted, whoever has it, and changes no file |
| HostNames.AnswerIsUnique | src/phl_conf_host.c:99-137 | exact name, else longest leading wildcard, else longest trailing one, else `*`: the rule leaves no choice |
| HostNames.OrderIsIrrelevant | src/phl_conf_host.c:68-86 | the same hosts in any order are accepted alike and make the same table |
| HostNames.NormalIs | src/phl_conf_host.c:25-34 | a name is stored in lower case, character by character, without one trailing dot |
| HostLookup.Listen.AddName | src/phl_conf_host.c:9-66 | accepted exactly if not empty, well formed and new; stored under the name rewritten in place, and the pass flags keep covering all stored wildcards |
| HostLookup.Listen.Register | src/phl_conf_host.c:68-86 | succeeds exactly if the whole list is acceptable, and then the table is the one the list amounts to |
| HostLookup.Listen.Locate | src/phl_conf_host.c:88-138 | the two destructive passes find the host of the declarative rule for every name; exactly when the byte in front of the copy is read, and when it is overwritten |
| HostLookup.Listen.LeadPass | src/phl_conf_host.c:105-119 | overwriting the copy from the left finds the longest leading wildcard, and writes only inside the copy |
| HostLookup.Listen.TailPass | src/phl_conf_host.c:120-135 | cutting the copy from the right finds the longest trailing wildcard, and writes only inside the copy |
| PathCheck.Locate | src/phl_conf_path.c:44-61 | the first path with a matching name is selected |
| PathCheck.WhatMatches | src/phl_conf_path.c:25-43 | `@` names match only the same internal name, `=` names the rest of the name, `/` names every request they begin, `~` names whatever their pattern is found in |
| PathCheck.InternalStaysInternal | src/phl_conf_path.c:25-43 | a path that serves a request from outside has a name that is not internal, and one that serves an internal request has that very name |
| PathCheck.CheckOverwrite | src/phl_conf_path.c:63-85 | a pathname is refused exactly if an earlier path overwrites it |
| PathCheck.CheckHost | src/phl_conf_host.c:157-173 | a host is accepted exactly if no pathname is refused, and the one reported is the first that is |
| PathCheck.ExactIsSelected | src/phl_conf_path.c:63-85 | in an accepted host `=x` serves the request x |
| PathCheck.InternalIsSelected | src/phl_conf_path.c:63-85 | in an accepted host `@n` serves the internal name @n |
| PathCheck.PrefixIsSelected | src/phl_conf_path.c:63-85 | in an accepted host `/p` serves the request /p exactly if no earlier path has `=/p` |
| PathCheck.RejectedIsRedundant | src/phl_conf_path.c:63-85 | removing a refused pathname changes the selection of no request, unless it is a prefix that only `~` patterns overwrite |
| PathCheck.RejectionIsHarmless | src/phl_conf_path.c:63-85 | where no `~` pattern comes before it, a refused pathname could be left out without changing any selection |
| PathCheck.RejectedMayDecide | src/phl_conf_path.c:63-85 | a refused prefix that alone matches a request |
| Reload.Server.Parse | src/phl_conf.c:30-117 | success: the open sockets are exactly those of the new configuration, a live address keeps its socket, nothing is closed twice, and each slot has its own socket exactly if no live address is listed twice; failure before or behind the addresses: nothing changed; failure at an address: descriptor 0 is closed for each one left, and the live configuration is intact exactly if it does not own that descriptor |
| Reload.Server.ReuseFd | src/phl_conf_listen.c:29-45 | the live socket of the address is found and marked with this reload |
| Reload.Server.Post | src/phl_conf_listen.c:109-145 | succeeds exactly if every address is live already or can be listened on |
| Reload.FreedClosesOnce | src/phl_conf_listen.c:194-202 | the free handler closes exactly the sockets of slots not marked by this reload, each once exactly if no two such slots share one |
| Reload.SharedIsClosedTwice | src/phl_conf_listen.c:194-202 | a configuration that goes as a whole closes nothing twice exactly if no two slots share a socket |
| Reload.SharedIsLost | src/phl_conf_listen.c:35-42 | a shared socket is closed even if the next configuration lists its address, because only the first slot is marked |
| Reload.OwnedIffOnce | src/phl_conf_listen.c:119-127 | slots of a new configuration share a socket exactly if they list one live address |
| Reload.Commit | src/phl_conf.c:106-114 | freeing the old configuration leaves exactly the new one's sockets open, and closes nothing twice |
| Reload.Rollback | src/phl_conf.c:91-104 | freeing the new configuration leaves exactly the old one's sockets open |
| Reload.BrokenFrees | src/phl_conf_listen.c:119-140 | what a failure inside the address loop closes besides |

## Left out

- Upstream.Upstream.Retry: a request of the content module goes on holding an error value when a retry finds no connection; only the calls themselves are modelled, not src/phl_upstream_content.c:108-120.
- Upstream.Upstream.GetConnection: a resolved upstream is meant; the loop over dynamic upstreams in front of it is the lookup of `Dynamic.Cache.Get`.
- Dynamic.Cache.Get: nested sub-configurations, which postpone a deletion by a minute, are not modelled; parsing a value is a parameter. A request woken by a dying holder is not inside get_conf() itself; that a woken subrequest finishes and runs its father there (src/phl_request.c:170-175) is not modelled.
- HashPick.Context.Pick: a pick by a key from an empty table is excluded, see above.
- HashPick.DownMovesOnlyItsOwnKeys: nothing is claimed for adding or removing addresses, because the search may end on either neighbour of a key.
- StatsTable.Table.Alloc: allocations that start from a table whose references are not its holders are not modelled; a full table yields a process-local slot, here `None`, whose counting is not modelled.
- ResponseBody.Response.Pass: bodies whose generator fails are excluded, and so are body filters and subrequests.
- SendBuffer.Connection.MakeSpace: HTTP/2 frame headers and allocation failure are not modelled.
- FileCache.StepKeeps: failing writes and the clean-up of old period directories are not modelled; what `Cache-Control` and `Expires` say is a parameter; nothing is said of a process after an overrun.
- Reload.Server.Parse: a reload on top of a configuration whose slots share a socket is not modelled beyond `Reload.SharedIsLost`; neither are worker processes and connections that are still open.
- The write path to an upstream: after a second partial write the count of bytes sent is assigned instead of added (src/phl_upstream.c:310), so no exactly-once claim is made.
- Connect, send and receive timeouts, and the SSL handshake.
- HTTP/1 request parsing, HTTP/2 framing and flow control: the parsers and windows are not part of this repository.
- Redirects and `jump_if`: a redirect clears the path configuration that the next log statement reads.
- The modules acl, limit_req, gzip, stats, log and static files, and the Lua packages.
- Signals, worker management, the tables that describe configuration commands, and logging.
