/** What the steps of the file cache do to an entry, by the fields of its file: when it is served, when it
    is dropped and when it is stored. */
module FileRules {
  import opened Common
  import opened Chunked
  import opened HeaderDump
  import opened FileCache

  /** The request goes on to `stage`, and nothing else happens. */
  ghost predicate GoesTo(s: State, t: State, id: Id, stage: Stage)
    requires id in s.requests
  {
    t == s.(requests := s.requests[id := s.requests[id].(stage := stage)])
  }

  /** `name` has gone from directory `dir`, and nothing else from anywhere. */
  ghost predicate Gone(s: State, t: State, dir: Dir, name: Name) {
    forall d :: Listed(t, d) == if d == dir then Listed(s, d) - {name} else Listed(s, d)
  }

  ghost function Listed(s: State, dir: Dir): map<Name, Inode> {
    if dir in s.dirs then s.dirs[dir] else map[]
  }

  // ---------- what a step leaves alone ----------

  ghost predicate SameName(s: State, t: State, dir: Dir, name: Name) {
    && (name in Listed(t, dir) <==> name in Listed(s, dir))
    && (name in Listed(s, dir) ==> Listed(t, dir)[name] == Listed(s, dir)[name])
  }

  /** A step of a request touches its own progress and its own name only, and that name only in the two
      directories of its worker. */
  lemma StepIsLocal(s: State, a: Action)
    requires !a.Start? && !a.Renew?
    ensures var t := Step(s, a);
        && t.views == s.views
        && forall o :: o in s.requests && o != a.id ==> o in t.requests && t.requests[o] == s.requests[o]
    ensures forall d, n :: !SameName(s, Step(s, a), d, n) ==> Live(s, a.id) && Touches(s, a.id, d, n)
  {
    match a
    case Call(id, now) =>
      if Live(s, id) {
        CallIsLocal(s, id, now);
      }
    case Reply(id, fd, _, _, _, _, _) =>
      if Live(s, id) {
        ReplyIsLocal(s, a);
      }
    case _ =>
  }

  ghost predicate Touches(s: State, id: Id, dir: Dir, name: Name)
    requires Live(s, id)
  {
    var r := s.requests[id];
    name == r.name && (dir == s.views[r.worker].current || s.views[r.worker].last == Some(dir))
  }

  lemma CallIsLocal(s: State, id: Id, now: int)
    requires Live(s, id)
    ensures var t := CallStep(s, id, now);
        && t.views == s.views
        && forall o :: o in s.requests && o != id ==> o in t.requests && t.requests[o] == s.requests[o]
    ensures forall d, n :: !SameName(s, CallStep(s, id, now), d, n) ==> Touches(s, id, d, n)
  {
    CallLeavesRequests(s, id, now);
    CallRelinks(s, id, now);
    hide CallStep;
    var t := CallStep(s, id, now);
    forall d, n | !SameName(s, t, d, n)
      ensures Touches(s, id, d, n)
    {
      var r := s.requests[id];
      var view := s.views[r.worker];
      if t.dirs == Unlink(s, view.current, r.name) {
        UnlinkTouches(s, t, view.current, r.name, d, n);
      } else if t.dirs != s.dirs {
        MoveTouches(s, t, view.last.value, view.current, r.name, d, n);
      }
    }
  }

  /** How a system call may change the directories. */
  lemma CallRelinks(s: State, id: Id, now: int)
    requires Live(s, id)
    ensures var r, t := s.requests[id], CallStep(s, id, now);
        var view := s.views[r.worker];
        || t.dirs == s.dirs || t.dirs == Unlink(s, view.current, r.name)
        || (view.last.Some? && t.dirs == Moved(s, view.last.value, view.current, r.name))
  {
    hide Entries, Unlink, Moved, ItemRead, HeadersRead, At;
    match s.requests[id].stage
    case Move(_) =>
    case Stale =>
    case Dropping =>
    case _ => assert CallStep(s, id, now).dirs == s.dirs;
  }

  lemma UnlinkTouches(s: State, t: State, dir: Dir, name: Name, d: Dir, n: Name)
    requires t.dirs == Unlink(s, dir, name)
    ensures SameName(s, t, d, n) || (n == name && d == dir)
  {
  }

  lemma MoveTouches(s: State, t: State, last: Dir, current: Dir, name: Name, d: Dir, n: Name)
    requires t.dirs == Moved(s, last, current, name)
    ensures SameName(s, t, d, n) || (n == name && (d == last || d == current))
  {
  }

  lemma ReplyIsLocal(s: State, a: Action)
    requires a.Reply? && Live(s, a.id)
    ensures var t := ReplyStep(s, a);
        && t.views == s.views
        && forall o :: o in s.requests && o != a.id ==> o in t.requests && t.requests[o] == s.requests[o]
    ensures forall d, n :: !SameName(s, ReplyStep(s, a), d, n) ==> Touches(s, a.id, d, n)
  {
    hide Dumped, Collected, Link;
    var r, t := s.requests[a.id], ReplyStep(s, a);
    var dir := s.views[r.worker].current;
    assert t.dirs == s.dirs || t.dirs == Link(s, dir, r.name, a.fd);
    forall d, n | !SameName(s, t, d, n)
      ensures Touches(s, a.id, d, n)
    {
      if t.dirs != s.dirs {
        LinkTouches(s, t, dir, r.name, a.fd, d, n);
      }
    }
  }

  lemma LinkTouches(s: State, t: State, dir: Dir, name: Name, fd: Inode, d: Dir, n: Name)
    requires t.dirs == Link(s, dir, name, fd)
    ensures SameName(s, t, d, n) || (n == name && d == dir)
  {
  }

  /** A worker that starts has its directories, and one that is up already is not started again. */
  lemma StartOpens(s: State, worker: Worker, view: View)
    ensures var t := Step(s, Start(worker, view));
        t == s.(views := t.views) && t.views == if worker in s.views then s.views else s.views[worker := view]
  {
  }

  /** A new request looks for its entry first. */
  lemma ArrivesAtBegin(s: State, id: Id, worker: Worker, name: Name)
    requires id !in s.requests && worker in s.views
    ensures Step(s, Arrive(id, worker, name)) == s.(requests := s.requests[id := Request(worker, name, Begin)])
  {
  }

  // ---------- reading an entry ----------

  /** The item decides: a file without a length is left alone, an expired entry is dropped and counts as
      a miss, and any other is served. */
  lemma OpenedDecides(s: State, id: Id, now: int)
    requires Live(s, id) && s.requests[id].stage.Opened? && s.requests[id].stage.fd in s.files
    ensures var fd := s.requests[id].stage.fd;
        var item := s.files[fd].item;
        var t := Step(s, Call(id, now));
        && (item == None || item.value.contentLength == None ==> GoesTo(s, t, id, Over))
        && (item.Some? && item.value.contentLength.Some? && item.value.expireAt >= now ==>
              GoesTo(s, t, id, Accepted(fd, item.value)))
        && (item.Some? && item.value.contentLength.Some? && item.value.expireAt < now ==> GoesTo(s, t, id, Stale))
  {
  }

  /** An expired entry leaves the current directory, and its request goes on to fetch a new response. */
  lemma StaleIsDropped(s: State, id: Id, now: int)
    requires Live(s, id) && s.requests[id].stage == Stale
    ensures var r, t := s.requests[id], Step(s, Call(id, now));
        && Gone(s, t, s.views[r.worker].current, r.name) && t.files == s.files
        && t.requests == s.requests[id := r.(stage := Missing)]
  {
  }

  /** The file a request serves from, or is about to, and the item it read there. */
  ghost function Source(st: Stage): Option<(Inode, Item)> {
    match st
    case Accepted(fd, item) => Some((fd, item))
    case Serving(fd, item, _, _) => Some((fd, item))
    case _ => None
  }

  /** Only the item of a finished, unexpired entry makes a request serve from it. */
  lemma BecomesSource(s: State, a: Action, id: Id)
    requires id in Step(s, a).requests && Source(Step(s, a).requests[id].stage).Some?
    ensures id in s.requests
    ensures var source := Source(Step(s, a).requests[id].stage);
        || Source(s.requests[id].stage) == source
        || (a.Call? && a.id == id && s.requests[id].stage == Opened(source.value.0) && source.value.1.expireAt >= a.now)
  {
    hide CallStep;
    match a
    case Call(other, now) =>
      if Live(s, other) {
        CallLeavesRequests(s, other, now);
        CallBecomesSource(s, other, now);
      }
    case _ =>
  }

  lemma CallBecomesSource(s: State, id: Id, now: int)
    requires Live(s, id) && id in CallStep(s, id, now).requests
    ensures var source := Source(CallStep(s, id, now).requests[id].stage);
        || source == None || Source(s.requests[id].stage) == source
        || (s.requests[id].stage == Opened(source.value.0) && source.value.1.expireAt >= now)
  {
    hide Entries, Unlink, Moved, Loaded;
  }

  /** In every run: whoever is served from an entry found it unexpired when it read the item. */
  lemma {:induction false} ServedIsUnexpired(actions: seq<Action>, id: Id) returns (k: nat)
    requires id in Run(NOTHING, actions).requests && Source(Run(NOTHING, actions).requests[id].stage).Some?
    ensures var source := Source(Run(NOTHING, actions).requests[id].stage).value;
        && k < |actions| && actions[k].Call? && actions[k].id == id && actions[k].now <= source.1.expireAt
        && id in Run(NOTHING, actions[..k]).requests
        && Run(NOTHING, actions[..k]).requests[id].stage == Opened(source.0)
  {
    k := 0;
    if actions != [] {
      var n := |actions| - 1;
      var past := actions[..n];
      BecomesSource(Run(NOTHING, past), actions[n], id);
      if Source(Run(NOTHING, past).requests[id].stage) == Source(Run(NOTHING, actions).requests[id].stage) {
        k := ServedIsUnexpired(past, id);
        assert past[..k] == actions[..k];
      } else {
        k := n;
      }
    }
  }

  /** A read takes the next bytes of the stored body, as many as there are and no more than asked for. */
  lemma ReadGoesOn(s: State, id: Id, n: nat)
    requires Inv(s) && Live(s, id) && s.requests[id].stage.Serving?
    ensures var st := s.requests[id].stage;
        && st.fd in s.saw
        && var body := Concat(s.saw[st.fd].pieces);
           var k := if |body| - |st.body| < n then |body| else |st.body| + n;
           k <= |body| && GoesTo(s, Step(s, Read(id, n)), id, st.(body := body[..k]))
  {
    var st := s.requests[id].stage;
    assert StageOk(st, s.files, s.saw);
    hide Inv, BodyRead;
    BodyGoesOn(s.files[st.fd], st, n, Concat(s.saw[st.fd].pieces));
  }

  lemma BodyGoesOn(f: File, st: Stage, n: nat, body: seq<Byte>)
    requires st.Serving? && st.item.headerTotal <= |f.bytes| && st.item.contentLength == Some(|body|)
    requires f.bytes[st.item.headerTotal..] == body && st.body <= body
    ensures var k := if |body| - |st.body| < n then |body| else |st.body| + n;
        BodyRead(f, st, n) == st.(body := body[..k])
  {
    ReadStaysInBody(f, st, n, body);
    var next := BodyRead(f, st, n);
    assert next.body == body[..|next.body|];
    assert st.body == body[..|st.body|];
  }

  // ---------- looking for an entry ----------

  /** A miss changes nothing but the stage. */
  lemma LookMisses(s: State, id: Id, now: int) returns (n: nat)
    requires Live(s, id) && s.requests[id].stage == Begin
    requires var r := s.requests[id];
        var view := s.views[r.worker];
        r.name !in Listed(s, view.current) && (view.last.Some? ==> r.name !in Listed(s, view.last.value))
    ensures GoesTo(s, Calls(s, id, now, n), id, Missing)
  {
    var s1 := Step(s, Call(id, now));
    assert Calls(s, id, now, 0) == s && Calls(s, id, now, 1) == s1;
    if s.views[s.requests[id].worker].last == None {
      n := 1;
    } else {
      n := 2;
      assert s1 == To(s, id, TryLast);
      assert Calls(s, id, now, 2) == Step(s1, Call(id, now));
    }
  }

  /** An entry of the current directory is opened where it is. */
  lemma CurrentIsOpened(s: State, id: Id, now: int)
    requires Live(s, id) && s.requests[id].stage == Begin
    requires s.requests[id].name in Listed(s, s.views[s.requests[id].worker].current)
    ensures var r := s.requests[id];
        GoesTo(s, Step(s, Call(id, now)), id, Opened(Listed(s, s.views[r.worker].current)[r.name]))
  {
  }

  /** One that only the last directory has is moved to the current one. */
  lemma LastIsMoved(s: State, id: Id, now: int)
    requires Live(s, id) && s.requests[id].stage == Begin
    requires var r := s.requests[id];
        var view := s.views[r.worker];
        && r.name !in Listed(s, view.current)
        && view.last.Some? && view.last.value != view.current && r.name in Listed(s, view.last.value)
    ensures var r := s.requests[id];
        var view := s.views[r.worker];
        var fd := Listed(s, view.last.value)[r.name];
        var t := Calls(s, id, now, 3);
        && t.files == s.files && t.requests == s.requests[id := r.(stage := Opened(fd))]
        && forall d :: Listed(t, d) == if d == view.current then Listed(s, d)[r.name := fd]
                                       else if d == view.last.value then Listed(s, d) - {r.name} else Listed(s, d)
  {
    var r := s.requests[id];
    var fd := Listed(s, s.views[r.worker].last.value)[r.name];
    var s1 := Step(s, Call(id, now));
    assert Calls(s, id, now, 0) == s && Calls(s, id, now, 1) == s1 == To(s, id, TryLast);
    var s2 := Step(s1, Call(id, now));
    assert Calls(s, id, now, 2) == s2 == To(s, id, Move(fd));
    assert Calls(s, id, now, 3) == Step(s2, Call(id, now));
  }

  /** A new period costs nobody an entry: what a new request would have found, it still finds. */
  lemma RenewalKeepsEntries(s: State, worker: Worker, dir: Dir, name: Name)
    requires worker in s.views && name in Listed(s, s.views[worker].current) && name !in Listed(s, dir)
    ensures var t := Step(s, Renew(worker, dir));
        && worker in t.views && t.views[worker].current == dir && t.views[worker].last == Some(s.views[worker].current)
        && t.dirs == s.dirs && t.files == s.files && t.requests == s.requests
        && name in Listed(t, t.views[worker].last.value)
        && Listed(t, t.views[worker].last.value)[name] == Listed(s, s.views[worker].current)[name]
  {
  }

  // ---------- storing a response ----------

  /** What may not be cached is not, nor a second response under a name that is taken. */
  lemma RefusedIsNotStored(s: State, a: Action)
    requires a.Reply? && Live(s, a.id) && s.requests[a.id].stage == Missing && a.fd !in s.files
    requires Dumped(a.headers, a.dump) && |a.headers| <= SLOTS
    requires var r := s.requests[a.id];
        a.status != 200 || a.scan.Unusable? || a.scan.seconds <= 0 || r.name in Listed(s, s.views[r.worker].current)
    ensures GoesTo(s, Step(s, a), a.id, Dropping)
  {
  }

  /** What may be cached is linked under its name, and under no other. */
  lemma StoreIsListed(s: State, a: Action)
    requires a.Reply? && Live(s, a.id) && s.requests[a.id].stage == Missing && a.fd !in s.files
    requires Dumped(a.headers, a.dump) && a.status == 200 && |a.headers| <= SLOTS
    requires a.scan.Lifetime? && a.scan.seconds > 0
    requires s.requests[a.id].name !in Listed(s, s.views[s.requests[a.id].worker].current)
    ensures var r, t := s.requests[a.id], Step(s, a);
        var dir := s.views[r.worker].current;
        && forall d :: Listed(t, d) == if d == dir then Listed(s, d)[r.name := a.fd] else Listed(s, d)
  {
  }

  /** Then the name is unlinked, whoever has it: a request that lost the race to store drops the winner's entry. */
  lemma DroppedIsUnlinked(s: State, id: Id, now: int)
    requires Live(s, id) && s.requests[id].stage == Dropping
    ensures var r, t := s.requests[id], Step(s, Call(id, now));
        && Gone(s, t, s.views[r.worker].current, r.name) && t.files == s.files
        && t.requests == s.requests[id := r.(stage := Over)]
  {
  }

  /** A request that ends early gives up a store it has begun, and leaves alone what is complete. */
  lemma EarlyEnd(s: State, id: Id)
    requires Live(s, id)
    ensures var st := s.requests[id].stage;
        var t := Step(s, Free(id));
        && (st.Missing? || st.Created? || st.Storing? ==> GoesTo(s, t, id, Dropping))
        && (st.Accepted? || st.Serving? || st.Begin? || st.Opened? ==> GoesTo(s, t, id, Over))
        && GoesTo(s, Step(s, Kill(id)), id, Over)
  {
  }
}
