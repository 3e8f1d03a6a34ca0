/** The file cache: requests of several workers share files without locks, one system call at a time.
    A file is stored with an unset content length, which is filled in only behind the last piece. */
module FileCache {
  import opened Common
  import opened Chunked
  import opened HeaderDump

  /** What the headers say about caching: the first that forbids it, or for how long it is allowed. */
  datatype Scan = Unusable(at: nat) | Lifetime(seconds: int)

  type Name = nat
  type Inode = nat
  type Dir = nat
  type Worker = nat
  type Id = nat

  /** The record at the start of a file. No content length marks it as unfinished. */
  datatype Item = Item(contentLength: Option<nat>, expireAt: int, status: int, headerNum: nat, headerTotal: nat)

  /** A file: empty, or an item and the bytes behind it. */
  datatype File = File(item: Option<Item>, bytes: seq<Byte>)

  /** What the creator of a file was given to store, so far. */
  datatype Response = Response(status: int, headers: seq<Header>, pieces: seq<seq<Byte>>)

  /** How far a request has come. `fd` is the file it has open. */
  datatype Stage =
    | Begin                                             // about to look in the current directory
    | TryLast                                           // about to look in the last one
    | Move(fd: Inode)                                   // found there, about to move it over
    | Opened(fd: Inode)                                 // about to read the item
    | Stale                                             // about to unlink an expired entry
    | Accepted(fd: Inode, item: Item)                   // about to read the headers
    | Serving(fd: Inode, item: Item, headers: seq<Header>, body: seq<Byte>)
    | Missing                                           // no entry: waiting for a response to store
    | Created(fd: Inode, item: Item, dump: seq<Byte>)   // about to write item and headers
    | Storing(fd: Inode, length: nat)
    | Sealing(fd: Inode, length: nat)                   // about to write the length
    | Dropping                                          // about to unlink the name it wanted to store
    | Over
    | Overread                                          // the header loader left its buffer
    | Overrun                                           // the counting loop left its array; nothing is known then

  datatype Request = Request(worker: Worker, name: Name, stage: Stage)

  /** A worker's two open directories. */
  datatype View = View(current: Dir, last: Option<Dir>)

  datatype State = State(
    dirs: map<Dir, map<Name, Inode>>,
    files: map<Inode, File>,
    saw: map<Inode, Response>,          // history, read by no step
    views: map<Worker, View>,
    requests: map<Id, Request>)

  datatype Action =
    | Start(worker: Worker, view: View)
    | Renew(worker: Worker, dir: Dir)
    | Arrive(id: Id, worker: Worker, name: Name)
    | Call(id: Id, now: int)            // the next system call of a request that needs no input
    | Read(id: Id, n: nat)              // up to n bytes of the body
    | Reply(id: Id, fd: Inode, status: int, headers: seq<Header>, dump: seq<Byte>, scan: Scan, now: int)
    | Body(id: Id, piece: seq<Byte>, last: bool)
    | Free(id: Id)                      // the request ends, complete or not
    | Kill(id: Id)                      // its worker dies

  // ---------- directories ----------

  function Entries(s: State, dir: Dir): map<Name, Inode> {
    if dir in s.dirs then s.dirs[dir] else map[]
  }

  function Link(s: State, dir: Dir, name: Name, fd: Inode): map<Dir, map<Name, Inode>> {
    s.dirs[dir := Entries(s, dir)[name := fd]]
  }

  function Unlink(s: State, dir: Dir, name: Name): map<Dir, map<Name, Inode>> {
    s.dirs[dir := Entries(s, dir) - {name}]
  }

  /** The move to the current directory replaces an entry there; it fails if someone else moved it. */
  function Moved(s: State, last: Dir, current: Dir, name: Name): map<Dir, map<Name, Inode>> {
    if name !in Entries(s, last) then s.dirs
    else
      var linked := Link(s, current, name, Entries(s, last)[name]);
      if last == current then linked else linked[last := Entries(s, last) - {name}]
  }

  // ---------- steps ----------

  function At(s: State, id: Id, stage: Stage): map<Id, Request>
    requires id in s.requests
  {
    s.requests[id := s.requests[id].(stage := stage)]
  }

  function To(s: State, id: Id, stage: Stage): State
    requires id in s.requests
  {
    s.(requests := At(s, id, stage))
  }

  /** A request whose worker is up. */
  predicate Live(s: State, id: Id) {
    id in s.requests && s.requests[id].worker in s.views
  }

  function CallStep(s: State, id: Id, now: int): State
    requires Live(s, id)
  {
    var r := s.requests[id];
    var view := s.views[r.worker];
    match r.stage
    case Begin =>
      if r.name in Entries(s, view.current) then To(s, id, Opened(Entries(s, view.current)[r.name]))
      else if view.last.Some? then To(s, id, TryLast)
      else To(s, id, Missing)
    case TryLast =>
      if view.last.Some? && r.name in Entries(s, view.last.value)
      then To(s, id, Move(Entries(s, view.last.value)[r.name]))
      else To(s, id, Missing)
    case Move(fd) =>
      var moved := if view.last.Some? then Moved(s, view.last.value, view.current, r.name) else s.dirs;
      s.(dirs := moved, requests := At(s, id, Opened(fd)))
    case Opened(fd) => if fd in s.files then To(s, id, ItemRead(s.files[fd], fd, now)) else s
    case Stale => s.(dirs := Unlink(s, view.current, r.name), requests := At(s, id, Missing))
    case Accepted(fd, item) => if fd in s.files then To(s, id, HeadersRead(s.files[fd], fd, item)) else s
    case Created(fd, item, dump) =>
      s.(files := s.files[fd := File(Some(item), dump)], requests := At(s, id, Storing(fd, 0)))
    case Sealing(fd, length) =>
      if fd !in s.files || s.files[fd].item == None then s
      else
        var f := s.files[fd];
        s.(files := s.files[fd := File(Some(f.item.value.(contentLength := Some(length))), f.bytes)],
           requests := At(s, id, Over))
    case Dropping => s.(dirs := Unlink(s, view.current, r.name), requests := At(s, id, Over))
    case _ => s
  }

  /** A short file or an unset length is a store in progress, or one that never ended. */
  function ItemRead(f: File, fd: Inode, now: int): (st: Stage)
    ensures Writes(st) == None
  {
    if f.item == None || f.item.value.contentLength == None then Over
    else if f.item.value.expireAt < now then Stale
    else Accepted(fd, f.item.value)
  }

  function HeadersRead(f: File, fd: Inode, item: Item): (st: Stage)
    ensures Writes(st) == None
  {
    if |f.bytes| < item.headerTotal then Overread
    else
      var headers := Loaded(f.bytes[..item.headerTotal], item.headerNum);
      if headers == None then Overread else Serving(fd, item, headers.value, [])
  }

  /** The body is read up to the content length, and no further than the file goes. */
  function BodyRead(f: File, st: Stage, n: nat): Stage
    requires st.Serving?
  {
    var from := st.item.headerTotal + |st.body|;
    if st.item.contentLength == None || st.item.contentLength.value <= |st.body| || |f.bytes| <= from then st
    else
      var left := Min(st.item.contentLength.value - |st.body|, |f.bytes| - from);
      st.(body := st.body + f.bytes[from..from + Min(n, left)])
  }

  function Min(a: nat, b: nat): nat {
    if a < b then a else b
  }

  /** How many headers the counting loop stores before it ends. */
  function Collected(headers: seq<Header>, scan: Scan): nat {
    match scan
    case Unusable(at) => Min(at, |headers|)
    case Lifetime(_) => |headers|
  }

  /** The response arrives. What cannot be cached is dropped, and so is a response someone else is
      storing, or has stored, under the same name. */
  function ReplyStep(s: State, a: Action): State
    requires a.Reply? && Live(s, a.id)
  {
    var r := s.requests[a.id];
    var dir := s.views[r.worker].current;
    if !r.stage.Missing? || a.fd in s.files || !Dumped(a.headers, a.dump) then s
    else if a.status != 200 then To(s, a.id, Dropping)
    else if Collected(a.headers, a.scan) > SLOTS then To(s, a.id, Overrun)
    else if a.scan.Unusable? || a.scan.seconds <= 0 then To(s, a.id, Dropping)
    else if r.name in Entries(s, dir) then To(s, a.id, Dropping)
    else
      var item := Item(None, a.now + a.scan.seconds, a.status, |a.headers|, |a.dump|);
      s.(dirs := Link(s, dir, r.name, a.fd),
         files := s.files[a.fd := File(None, [])],
         saw := s.saw[a.fd := Response(a.status, a.headers, [])],
         requests := At(s, a.id, Created(a.fd, item, a.dump)))
  }

  function BodyStep(s: State, id: Id, piece: seq<Byte>, last: bool): State
    requires Live(s, id)
  {
    var st := s.requests[id].stage;
    if !st.Storing? || st.fd !in s.files || st.fd !in s.saw then s
    else
      var f, w := s.files[st.fd], s.saw[st.fd];
      var length := st.length + |piece|;
      s.(files := s.files[st.fd := f.(bytes := f.bytes + piece)],
         saw := s.saw[st.fd := w.(pieces := w.pieces + [piece])],
         requests := At(s, id, if last then Sealing(st.fd, length) else Storing(st.fd, length)))
  }

  /** A request that has not finished storing unlinks its name. */
  function FreeStage(st: Stage): Stage {
    match st
    case Missing => Dropping
    case Created(_, _, _) => Dropping
    case Storing(_, _) => Dropping
    case Sealing(_, _) => st
    case Stale => st
    case Dropping => st
    case Overrun => st
    case _ => Over
  }

  function Step(s: State, a: Action): State {
    match a
    case Start(worker, view) => if worker in s.views then s else s.(views := s.views[worker := view])
    case Renew(worker, dir) =>
      if worker in s.views then s.(views := s.views[worker := View(dir, Some(s.views[worker].current))]) else s
    case Arrive(id, worker, name) =>
      if id in s.requests || worker !in s.views then s
      else s.(requests := s.requests[id := Request(worker, name, Begin)])
    case Call(id, now) => if Live(s, id) then CallStep(s, id, now) else s
    case Read(id, n) =>
      if Live(s, id) && s.requests[id].stage.Serving? && s.requests[id].stage.fd in s.files
      then To(s, id, BodyRead(s.files[s.requests[id].stage.fd], s.requests[id].stage, n))
      else s
    case Reply(id, _, _, _, _, _, _) => if Live(s, id) then ReplyStep(s, a) else s
    case Body(id, piece, last) => if Live(s, id) then BodyStep(s, id, piece, last) else s
    case Free(id) => if Live(s, id) then To(s, id, FreeStage(s.requests[id].stage)) else s
    case Kill(id) => if Live(s, id) then To(s, id, Over) else s
  }

  function Run(s: State, actions: seq<Action>): State {
    if actions == [] then s else Step(Run(s, actions[..|actions| - 1]), actions[|actions| - 1])
  }

  const NOTHING := State(map[], map[], map[], map[], map[])

  // ---------- the invariant ----------

  predicate Finished(f: File) {
    f.item.Some? && f.item.value.contentLength.Some?
  }

  /** Item and bytes belong to the response; a set length is the length of its body. */
  predicate FileOk(f: File, w: Response) {
    if f.item == None then f.bytes == [] && w.pieces == []
    else
      var item := f.item.value;
      && item.status == w.status == 200 && item.headerNum == |w.headers|
      && item.headerTotal <= |f.bytes| && Dumped(w.headers, f.bytes[..item.headerTotal])
      && f.bytes[item.headerTotal..] == Concat(w.pieces)
      && (item.contentLength.Some? ==> item.contentLength.value == |Concat(w.pieces)|)
  }

  /** What a request believes of the file it has open. */
  predicate StageOk(st: Stage, files: map<Inode, File>, saw: map<Inode, Response>)
    requires files.Keys == saw.Keys
  {
    match st
    case Move(fd) => fd in files
    case Opened(fd) => fd in files
    case Accepted(fd, item) => fd in files && files[fd].item == Some(item) && Finished(files[fd])
    case Serving(fd, item, headers, body) =>
      && fd in files && files[fd].item == Some(item) && Finished(files[fd])
      && headers == saw[fd].headers && body <= Concat(saw[fd].pieces)
    case Created(fd, item, dump) =>
      && fd in files && files[fd] == File(None, []) && item.contentLength == None
      && item.status == saw[fd].status == 200 && item.headerNum == |saw[fd].headers|
      && item.headerTotal == |dump| && Dumped(saw[fd].headers, dump)
    case Storing(fd, length) => fd in files && Unsealed(files[fd]) && length == |Concat(saw[fd].pieces)|
    case Sealing(fd, length) => fd in files && Unsealed(files[fd]) && length == |Concat(saw[fd].pieces)|
    case Overread => false
    case _ => true
  }

  predicate Unsealed(f: File) {
    f.item.Some? && f.item.value.contentLength == None
  }

  /** The file a request may still write to. */
  function Writes(st: Stage): Option<Inode> {
    match st
    case Created(fd, _, _) => Some(fd)
    case Storing(fd, _) => Some(fd)
    case Sealing(fd, _) => Some(fd)
    case _ => None
  }

  ghost predicate FilesOk(s: State) {
    s.files.Keys == s.saw.Keys && forall i :: i in s.files ==> FileOk(s.files[i], s.saw[i])
  }

  ghost predicate LinksOk(s: State) {
    forall d, n :: d in s.dirs && n in s.dirs[d] ==> s.dirs[d][n] in s.files
  }

  ghost predicate StagesOk(s: State)
    requires s.files.Keys == s.saw.Keys
  {
    forall id :: id in s.requests ==> StageOk(s.requests[id].stage, s.files, s.saw)
  }

  /** No two requests write to the same file. */
  ghost predicate OneWriter(s: State) {
    forall a, b :: a in s.requests && b in s.requests && a != b && Writes(s.requests[a].stage).Some?
      ==> Writes(s.requests[a].stage) != Writes(s.requests[b].stage)
  }

  ghost predicate Inv(s: State) {
    FilesOk(s) && LinksOk(s) && StagesOk(s) && OneWriter(s)
  }

  // ---------- every step keeps it ----------

  /** A step that leaves all files alone. */
  lemma QuietKeeps(s: State, t: State, id: Id, st: Stage)
    requires Inv(s) && Live(s, id) && t == s.(dirs := t.dirs, requests := At(s, id, st)) && LinksOk(t)
    requires StageOk(st, s.files, s.saw) && (Writes(st) == None || Writes(st) == Writes(s.requests[id].stage))
    ensures Inv(t)
  {
  }

  /** A step of the one writer of an unfinished file. */
  lemma WriteKeeps(s: State, t: State, id: Id, st: Stage, fd: Inode)
    requires Inv(s) && Live(s, id) && fd in s.files && !Finished(s.files[fd]) && fd in t.files && fd in t.saw
    requires t == s.(files := s.files[fd := t.files[fd]], saw := s.saw[fd := t.saw[fd]], requests := At(s, id, st))
    requires Writes(s.requests[id].stage) == Some(fd) && (Writes(st) == None || Writes(st) == Some(fd))
    requires FileOk(t.files[fd], t.saw[fd]) && StageOk(st, t.files, t.saw)
    ensures Inv(t)
  {
    forall o | o in t.requests
      ensures StageOk(t.requests[o].stage, t.files, t.saw)
    {
      if o != id {
        OthersKeep(s.requests[o].stage, s.files, s.saw, t.files, t.saw, fd);
      }
    }
  }

  /** A stage does not notice a write to an unfinished file that is not its own. */
  lemma OthersKeep(st: Stage, files: map<Inode, File>, saw: map<Inode, Response>,
                   files2: map<Inode, File>, saw2: map<Inode, Response>, fd: Inode)
    requires files.Keys == saw.Keys && files2.Keys == saw2.Keys && files.Keys <= files2.Keys
    requires StageOk(st, files, saw) && Writes(st) != Some(fd) && (fd in files ==> !Finished(files[fd]))
    requires forall i :: i in files && i != fd ==> files2[i] == files[i] && saw2[i] == saw[i]
    ensures StageOk(st, files2, saw2)
  {
  }

  /** A new file belongs to its creator alone. */
  lemma NewFileKeeps(s: State, t: State, id: Id, fd: Inode, st: Stage, w: Response)
    requires Inv(s) && Live(s, id) && fd !in s.files && fd !in s.saw && LinksOk(t)
    requires t == s.(dirs := t.dirs, files := s.files[fd := File(None, [])], saw := s.saw[fd := w],
                     requests := At(s, id, st))
    requires FileOk(t.files[fd], w) && StageOk(st, t.files, t.saw) && Writes(st) == Some(fd)
    ensures Inv(t)
  {
    forall o | o in t.requests
      ensures StageOk(t.requests[o].stage, t.files, t.saw)
      ensures o != id ==> Writes(t.requests[o].stage) != Some(fd)
    {
      if o != id {
        assert StageOk(s.requests[o].stage, s.files, s.saw);
        OthersKeep(s.requests[o].stage, s.files, s.saw, t.files, t.saw, fd);
      }
    }
  }

  lemma CreateKeeps(s: State, a: Action)
    requires Inv(s) && a.Reply? && Live(s, a.id)
    ensures Inv(ReplyStep(s, a))
  {
    hide Dumped, StagesOk, OneWriter;
    var t := ReplyStep(s, a);
    if t == s {
    } else if t.files == s.files {
      QuietKeeps(s, t, a.id, t.requests[a.id].stage);
    } else {
      assert a.fd !in s.saw && t.saw[a.fd] == Response(a.status, a.headers, []);
      NewFileKeeps(s, t, a.id, a.fd, t.requests[a.id].stage, t.saw[a.fd]);
    }
  }

  lemma {:induction false} ConcatAppend(pieces: seq<seq<Byte>>, p: seq<Byte>)
    ensures Concat(pieces + [p]) == Concat(pieces) + p
  {
    if pieces == [] {
      assert Concat([p]) == p + Concat([]);
    } else {
      assert (pieces + [p])[1..] == pieces[1..] + [p];
      ConcatAppend(pieces[1..], p);
    }
  }

  lemma BodyKeeps(s: State, id: Id, piece: seq<Byte>, last: bool)
    requires Inv(s) && Live(s, id)
    ensures Inv(BodyStep(s, id, piece, last))
  {
    var st, t := s.requests[id].stage, BodyStep(s, id, piece, last);
    assert StageOk(st, s.files, s.saw);
    if st.Storing? {
      var f, w := s.files[st.fd], s.saw[st.fd];
      ConcatAppend(w.pieces, piece);
      var total := f.item.value.headerTotal;
      assert (f.bytes + piece)[..total] == f.bytes[..total];
      assert (f.bytes + piece)[total..] == f.bytes[total..] + piece;
      WriteKeeps(s, t, id, t.requests[id].stage, st.fd);
    }
  }

  lemma HeadersKeep(s: State, id: Id, now: int)
    requires Inv(s) && Live(s, id) && s.requests[id].stage.Accepted?
    ensures Inv(CallStep(s, id, now))
    ensures var st := s.requests[id].stage;
            CallStep(s, id, now) == To(s, id, Serving(st.fd, st.item, s.saw[st.fd].headers, []))
  {
    var st := s.requests[id].stage;
    assert StageOk(st, s.files, s.saw);
    var f := s.files[st.fd];
    DumpedIsLoaded(s.saw[st.fd].headers, f.bytes[..st.item.headerTotal]);
    QuietKeeps(s, CallStep(s, id, now), id, HeadersRead(f, st.fd, st.item));
  }

  lemma UnlinkKeeps(s: State, t: State, dir: Dir, name: Name)
    requires LinksOk(s) && t.files == s.files && t.dirs == Unlink(s, dir, name)
    ensures LinksOk(t)
  {
  }

  lemma MoveKeeps(s: State, t: State, last: Dir, current: Dir, name: Name)
    requires LinksOk(s) && t.files == s.files && t.dirs == Moved(s, last, current, name)
    ensures LinksOk(t)
  {
  }

  lemma LookStage(s: State, id: Id, now: int)
    requires Inv(s) && Live(s, id)
    requires var st := s.requests[id].stage; st.Begin? || st.TryLast? || st.Opened?
    ensures var t := CallStep(s, id, now);
            id in t.requests && t == To(s, id, t.requests[id].stage)
            && StageOk(t.requests[id].stage, s.files, s.saw) && Writes(t.requests[id].stage) == None
  {
    hide OneWriter, FileOk;
    assert StageOk(s.requests[id].stage, s.files, s.saw);
  }

  lemma LookKeeps(s: State, id: Id, now: int)
    requires Inv(s) && Live(s, id)
    requires var st := s.requests[id].stage; st.Begin? || st.TryLast? || st.Opened?
    ensures Inv(CallStep(s, id, now))
  {
    hide CallStep, StageOk, FileOk;
    LookStage(s, id, now);
    var t := CallStep(s, id, now);
    QuietKeeps(s, t, id, t.requests[id].stage);
  }

  lemma RelinkKeeps(s: State, id: Id, now: int)
    requires Inv(s) && Live(s, id)
    requires var st := s.requests[id].stage; st.Move? || st.Stale? || st.Dropping?
    ensures Inv(CallStep(s, id, now))
  {
    var r, t := s.requests[id], CallStep(s, id, now);
    var view := s.views[r.worker];
    assert StageOk(r.stage, s.files, s.saw);
    if !r.stage.Move? {
      UnlinkKeeps(s, t, view.current, r.name);
    } else if view.last.Some? {
      MoveKeeps(s, t, view.last.value, view.current, r.name);
    }
    QuietKeeps(s, t, id, t.requests[id].stage);
  }

  lemma StageHolds(s: State, id: Id)
    requires Inv(s) && id in s.requests
    ensures s.files.Keys == s.saw.Keys && StageOk(s.requests[id].stage, s.files, s.saw)
    ensures var st := s.requests[id].stage;
        (st.Created? || st.Sealing?) ==> st.fd in s.files && FileOk(s.files[st.fd], s.saw[st.fd])
  {
  }

  lemma HeadersWritten(s: State, id: Id, now: int)
    requires Inv(s) && Live(s, id) && s.requests[id].stage.Created?
    ensures Inv(CallStep(s, id, now))
  {
    hide Inv;
    var st, t := s.requests[id].stage, CallStep(s, id, now);
    StageHolds(s, id);
    assert st.dump[..|st.dump|] == st.dump;
    assert s.saw[st.fd := s.saw[st.fd]] == s.saw;
    WriteKeeps(s, t, id, Storing(st.fd, 0), st.fd);
  }

  lemma LengthWritten(s: State, id: Id, now: int)
    requires Inv(s) && Live(s, id) && s.requests[id].stage.Sealing?
    ensures Inv(CallStep(s, id, now))
  {
    hide Inv;
    var st, t := s.requests[id].stage, CallStep(s, id, now);
    StageHolds(s, id);
    assert s.saw[st.fd := s.saw[st.fd]] == s.saw;
    WriteKeeps(s, t, id, Over, st.fd);
  }

  lemma CallKeeps(s: State, id: Id, now: int)
    requires Inv(s) && Live(s, id)
    ensures Inv(CallStep(s, id, now))
  {
    match s.requests[id].stage
    case Begin => LookKeeps(s, id, now);
    case TryLast => LookKeeps(s, id, now);
    case Opened(_) => LookKeeps(s, id, now);
    case Move(_) => RelinkKeeps(s, id, now);
    case Stale => RelinkKeeps(s, id, now);
    case Dropping => RelinkKeeps(s, id, now);
    case Accepted(_, _) => HeadersKeep(s, id, now);
    case Created(_, _, _) => HeadersWritten(s, id, now);
    case Sealing(_, _) => LengthWritten(s, id, now);
    case _ =>
  }

  lemma ReadStaysInBody(f: File, st: Stage, n: nat, body: seq<Byte>)
    requires st.Serving? && st.item.headerTotal <= |f.bytes|
    requires f.bytes[st.item.headerTotal..] == body && st.body <= body
    ensures BodyRead(f, st, n) == st.(body := BodyRead(f, st, n).body) && BodyRead(f, st, n).body <= body
  {
    var next := BodyRead(f, st, n);
    var k := |next.body|;
    assert st.body == body[..|st.body|];
    assert next.body == body[..k];
  }

  lemma ReadKeeps(s: State, id: Id, n: nat)
    requires Inv(s) && Live(s, id) && s.requests[id].stage.Serving?
    ensures Inv(Step(s, Read(id, n)))
  {
    hide BodyRead, OneWriter;
    var st := s.requests[id].stage;
    assert StageOk(st, s.files, s.saw);
    ReadStaysInBody(s.files[st.fd], st, n, Concat(s.saw[st.fd].pieces));
    QuietKeeps(s, Step(s, Read(id, n)), id, BodyRead(s.files[st.fd], st, n));
  }

  /** Whatever the interleaving, every step of every request keeps the invariant. */
  lemma StepKeeps(s: State, a: Action)
    requires Inv(s)
    ensures Inv(Step(s, a))
  {
    match a
    case Call(id, now) => if Live(s, id) { CallKeeps(s, id, now); }
    case Read(id, n) => if Live(s, id) && s.requests[id].stage.Serving? { ReadKeeps(s, id, n); }
    case Reply(id, _, _, _, _, _, _) => if Live(s, id) { CreateKeeps(s, a); }
    case Body(id, piece, last) => if Live(s, id) { BodyKeeps(s, id, piece, last); }
    case Free(id) =>
      if Live(s, id) {
        assert StageOk(s.requests[id].stage, s.files, s.saw);
        QuietKeeps(s, Step(s, a), id, FreeStage(s.requests[id].stage));
      }
    case Kill(id) => if Live(s, id) { QuietKeeps(s, Step(s, a), id, Over); }
    case _ =>
  }

  lemma {:induction false} RunKeeps(s: State, actions: seq<Action>)
    requires Inv(s)
    ensures Inv(Run(s, actions))
  {
    if actions != [] {
      RunKeeps(s, actions[..|actions| - 1]);
      StepKeeps(Run(s, actions[..|actions| - 1]), actions[|actions| - 1]);
    }
  }

  // ---------- what a reader gets ----------

  /** The response a run has stored into `fd`: created by one reply, extended by body pieces. */
  function Stored(s: State, actions: seq<Action>, fd: Inode): Option<Response> {
    if actions == [] then None
    else
      var past, a := actions[..|actions| - 1], actions[|actions| - 1];
      var before, r := Run(s, past), Stored(s, past, fd);
      if a.Reply? && a.fd == fd && fd !in before.files && fd in Step(before, a).files
      then Some(Response(a.status, a.headers, []))
      else if Adds(before, a, fd) && r.Some? then Some(r.value.(pieces := r.value.pieces + [a.piece]))
      else r
  }

  lemma {:induction false} SawIsStored(actions: seq<Action>, fd: Inode)
    ensures var s := Run(NOTHING, actions);
            Inv(s) && Stored(NOTHING, actions, fd) == if fd in s.saw then Some(s.saw[fd]) else None
  {
    RunKeeps(NOTHING, actions);
    if actions != [] {
      var past, a := actions[..|actions| - 1], actions[|actions| - 1];
      SawIsStored(past, fd);
      StepKeeps(Run(NOTHING, past), a);
      SawStep(Run(NOTHING, past), a, fd);
    }
  }

  /** A piece for the file `fd`. */
  predicate Adds(s: State, a: Action, fd: Inode) {
    a.Body? && Live(s, a.id) && s.requests[a.id].stage.Storing? && s.requests[a.id].stage.fd == fd
  }

  /** How one step changes what `fd` has seen. */
  lemma SawStep(s: State, a: Action, fd: Inode)
    requires Inv(s)
    ensures fd !in s.saw && fd in Step(s, a).saw
        ==> a.Reply? && a.fd == fd && Step(s, a).saw[fd] == Response(a.status, a.headers, [])
    ensures fd in s.saw ==> fd in Step(s, a).saw
    ensures fd in s.saw && Adds(s, a, fd) ==> Step(s, a).saw[fd] == s.saw[fd].(pieces := s.saw[fd].pieces + [a.piece])
    ensures fd in s.saw && !Adds(s, a, fd) ==> Step(s, a).saw[fd] == s.saw[fd]
  {
    hide LinksOk, OneWriter, StageOk, FileOk;
    match a
    case Call(id, now) =>
      if Live(s, id) {
        CallLeaves(s, id, now, fd);
      }
    case Body(id, _, _) =>
      if Live(s, id) {
        BodyHasAFile(s, id);
      }
    case _ =>
  }

  lemma BodyHasAFile(s: State, id: Id)
    requires Inv(s) && Live(s, id)
    ensures var st := s.requests[id].stage; st.Storing? ==> st.fd in s.files && st.fd in s.saw
  {
    assert StageOk(s.requests[id].stage, s.files, s.saw);
  }

  /** What a system call leaves alone. */
  lemma CallLeaves(s: State, id: Id, now: int, fd: Inode)
    requires Live(s, id)
    ensures var t := CallStep(s, id, now);
            && t.saw == s.saw && t.views == s.views && s.files.Keys <= t.files.Keys && id in t.requests
            && t.requests == s.requests[id := t.requests[id]]
            && (Writes(t.requests[id].stage) == Some(fd) ==> Writes(s.requests[id].stage) == Some(fd))
            && (fd in s.files && Writes(s.requests[id].stage) != Some(fd) ==> t.files[fd] == s.files[fd])
  {
    hide CallStep, Writes;
    CallLeavesRequests(s, id, now);
    CallLeavesFiles(s, id, now, fd);
  }

  lemma CallLeavesRequests(s: State, id: Id, now: int)
    requires Live(s, id)
    ensures var t := CallStep(s, id, now);
            && t.saw == s.saw && t.views == s.views
            && id in t.requests && t.requests == s.requests[id := t.requests[id]]
            && (Writes(t.requests[id].stage) == None || Writes(t.requests[id].stage) == Writes(s.requests[id].stage))
  {
    hide Entries, Unlink, Moved, ItemRead, HeadersRead;
    match s.requests[id].stage
    case Move(_) =>
    case Created(_, _, _) =>
    case Sealing(_, _) =>
    case _ =>
  }

  lemma CallLeavesFiles(s: State, id: Id, now: int, fd: Inode)
    requires Live(s, id)
    ensures s.files.Keys <= CallStep(s, id, now).files.Keys
    ensures fd in s.files && Writes(s.requests[id].stage) != Some(fd) ==> CallStep(s, id, now).files[fd] == s.files[fd]
  {
    hide Entries, Unlink, Moved, ItemRead, HeadersRead;
  }

  /** In every run, whatever the interleaving: a request that is being served from a file gets the
      status and headers of the response stored there, a part of its body from the start, and a
      content length that is the length of that body. No header loader leaves its buffer. */
  lemma ServedIsStored(actions: seq<Action>, id: Id)
    requires id in Run(NOTHING, actions).requests
    ensures var st := Run(NOTHING, actions).requests[id].stage;
            !st.Overread?
            && (st.Serving? ==>
              var r := Stored(NOTHING, actions, st.fd);
              && r.Some? && r.value.status == st.item.status == 200 && r.value.headers == st.headers
              && st.item.contentLength == Some(|Concat(r.value.pieces)|) && st.body <= Concat(r.value.pieces)
              && (|st.body| == st.item.contentLength.value ==> st.body == Concat(r.value.pieces)))
  {
    var s := Run(NOTHING, actions);
    var st := s.requests[id].stage;
    RunKeeps(NOTHING, actions);
    assert StageOk(st, s.files, s.saw);
    if st.Serving? {
      SawIsStored(actions, st.fd);
      var body := Concat(s.saw[st.fd].pieces);
      assert |st.body| == |body| ==> body[..|st.body|] == body;
    }
  }

  // ---------- files nobody writes ----------

  ghost predicate NoWriter(s: State, fd: Inode) {
    forall id :: id in s.requests ==> Writes(s.requests[id].stage) != Some(fd)
  }

  lemma UnwrittenStep(s: State, a: Action, fd: Inode)
    requires Inv(s) && fd in s.files && NoWriter(s, fd)
    ensures fd in Step(s, a).files && Step(s, a).files[fd] == s.files[fd] && NoWriter(Step(s, a), fd)
  {
    hide LinksOk, OneWriter, StageOk, FileOk, CallStep;
    match a
    case Call(id, now) =>
      if Live(s, id) {
        CallLeaves(s, id, now, fd);
      }
    case Body(id, _, _) =>
      if Live(s, id) {
        BodyHasAFile(s, id);
      }
    case _ =>
  }

  lemma {:induction false} UnwrittenRun(s: State, actions: seq<Action>, fd: Inode)
    requires Inv(s) && fd in s.files && NoWriter(s, fd)
    ensures var t := Run(s, actions);
            Inv(t) && fd in t.files && t.files[fd] == s.files[fd] && NoWriter(t, fd)
  {
    if actions != [] {
      var past := actions[..|actions| - 1];
      UnwrittenRun(s, past, fd);
      StepKeeps(Run(s, past), actions[|actions| - 1]);
      UnwrittenStep(Run(s, past), actions[|actions| - 1], fd);
    }
  }

  /** A finished file never changes again. */
  lemma FinishedIsFinal(s: State, actions: seq<Action>, fd: Inode)
    requires Inv(s) && fd in s.files && Finished(s.files[fd])
    ensures fd in Run(s, actions).files && Run(s, actions).files[fd] == s.files[fd]
  {
    forall id | id in s.requests
      ensures Writes(s.requests[id].stage) != Some(fd)
    {
      assert StageOk(s.requests[id].stage, s.files, s.saw);
    }
    UnwrittenRun(s, actions, fd);
  }

  /** A store whose request ended early, or whose worker died, is never served to anyone. */
  lemma AbandonedIsNeverServed(s: State, actions: seq<Action>, fd: Inode, id: Id)
    requires Inv(s) && fd in s.files && !Finished(s.files[fd]) && NoWriter(s, fd)
    requires id in Run(s, actions).requests
    ensures var st := Run(s, actions).requests[id].stage; (st.Accepted? || st.Serving?) ==> st.fd != fd
  {
    UnwrittenRun(s, actions, fd);
    var t := Run(s, actions);
    assert StageOk(t.requests[id].stage, t.files, t.saw);
  }

  /** A request that ends before its store is complete frees the name for the next one. */
  lemma DroppedNameIsFree(s: State, id: Id, now: int)
    requires Live(s, id)
    requires var st := s.requests[id].stage; st.Missing? || st.Created? || st.Storing?
    ensures var r, t := s.requests[id], Step(Step(s, Free(id)), Call(id, now));
            r.name !in Entries(t, s.views[r.worker].current) && t.requests[id].stage == Over && t.files == s.files
  {
    var t := Step(s, Free(id));
    assert t == To(s, id, Dropping);
  }

  // ---------- a store that is left alone is served ----------

  function Calls(s: State, id: Id, now: int, n: nat): State {
    if n == 0 then s else Step(Calls(s, id, now, n - 1), Call(id, now))
  }

  /** The entry a request would find first. */
  function Found(s: State, id: Id): Option<Inode>
    requires Live(s, id)
  {
    var r := s.requests[id];
    var view := s.views[r.worker];
    if r.name in Entries(s, view.current) then Some(Entries(s, view.current)[r.name])
    else if view.last.Some? && r.name in Entries(s, view.last.value) then Some(Entries(s, view.last.value)[r.name])
    else None
  }

  predicate Fresh(s: State, fd: Inode, now: int) {
    fd in s.files && Finished(s.files[fd]) && s.files[fd].item.value.expireAt >= now
  }

  /** Looking leads to the entry, and an entry of the last directory ends up in the current one. */
  lemma LookFinds(s: State, id: Id, now: int) returns (n: nat)
    requires Live(s, id) && s.requests[id].stage == Begin && Found(s, id).Some?
    ensures var t := Calls(s, id, now, n);
            && Live(t, id) && t == s.(dirs := t.dirs, requests := At(s, id, Opened(Found(s, id).value)))
            && Entries(t, s.views[s.requests[id].worker].current)[s.requests[id].name := Found(s, id).value]
               == Entries(t, s.views[s.requests[id].worker].current)
  {
    var r := s.requests[id];
    var view := s.views[r.worker];
    var fd := Found(s, id).value;
    var s1 := Step(s, Call(id, now));
    assert Calls(s, id, now, 0) == s && Calls(s, id, now, 1) == s1;
    if r.name in Entries(s, view.current) {
      n := 1;
      assert s1 == To(s, id, Opened(fd));
    } else {
      n := 3;
      assert s1 == To(s, id, TryLast);
      var s2 := Calls(s, id, now, 2);
      assert s2 == Step(s1, Call(id, now)) == To(s, id, Move(fd));
      assert Calls(s, id, now, 3) == Step(s2, Call(id, now));
    }
  }

  /** An unexpired finished file serves the whole response it stores. */
  lemma OpenedServesAll(s: State, id: Id, now: int, n: nat)
    requires Inv(s) && Live(s, id) && s.requests[id].stage.Opened? && Fresh(s, s.requests[id].stage.fd, now)
    requires n >= s.files[s.requests[id].stage.fd].item.value.contentLength.value
    ensures var fd := s.requests[id].stage.fd;
            && fd in s.saw
            && Step(Calls(s, id, now, 2), Read(id, n))
               == To(s, id, Serving(fd, s.files[fd].item.value, s.saw[fd].headers, Concat(s.saw[fd].pieces)))
  {
    OpenedIsAccepted(s, id, now);
    StepKeeps(s, Call(id, now));
    hide Inv, Step;
    var s1 := Step(s, Call(id, now));
    assert Calls(s, id, now, 0) == s && Calls(s, id, now, 1) == s1 && Calls(s, id, now, 2) == Step(s1, Call(id, now));
    AcceptedServesAll(s1, id, now, n);
  }

  lemma OpenedIsAccepted(s: State, id: Id, now: int)
    requires Live(s, id) && s.requests[id].stage.Opened? && Fresh(s, s.requests[id].stage.fd, now)
    ensures var fd := s.requests[id].stage.fd; Step(s, Call(id, now)) == To(s, id, Accepted(fd, s.files[fd].item.value))
  {
  }

  lemma AcceptedServesAll(s: State, id: Id, now: int, n: nat)
    requires Inv(s) && Live(s, id) && s.requests[id].stage.Accepted?
    requires var item := s.requests[id].stage.item; item.contentLength.Some? && n >= item.contentLength.value
    ensures var st := s.requests[id].stage;
            && st.fd in s.saw
            && Step(Step(s, Call(id, now)), Read(id, n))
               == To(s, id, Serving(st.fd, st.item, s.saw[st.fd].headers, Concat(s.saw[st.fd].pieces)))
  {
    hide OneWriter, LinksOk;
    var st := s.requests[id].stage;
    assert StageOk(st, s.files, s.saw);
    HeadersKeep(s, id, now);
    var next := Serving(st.fd, st.item, s.saw[st.fd].headers, []);
    ReadAll(s.files[st.fd], next, n);
    hide Inv, StageOk, FileOk, CallStep;
    var t := Step(s, Call(id, now));
    assert t == To(s, id, next);
    assert Step(t, Read(id, n)) == To(t, id, BodyRead(s.files[st.fd], next, n));
  }

  lemma ReadAll(f: File, st: Stage, n: nat)
    requires st.Serving? && st.body == [] && f.item == Some(st.item) && Finished(f) && st.item.headerTotal <= |f.bytes|
    requires st.item.contentLength.value == |f.bytes[st.item.headerTotal..]| <= n
    ensures BodyRead(f, st, n) == st.(body := f.bytes[st.item.headerTotal..])
  {
  }

  /** The body filter is called for every piece. */
  function Fill(s: State, id: Id, pieces: seq<seq<Byte>>): State
    decreases pieces
  {
    if pieces == [] then s else Fill(Step(s, Body(id, pieces[0], |pieces| == 1)), id, pieces[1..])
  }

  lemma PieceStored(s: State, id: Id, piece: seq<Byte>, last: bool)
    requires Inv(s) && Live(s, id) && s.requests[id].stage.Storing?
    ensures var fd, t := s.requests[id].stage.fd, Step(s, Body(id, piece, last));
            && Inv(t) && Live(t, id)
            && (if last then t.requests[id].stage.Sealing? else t.requests[id].stage.Storing?)
            && Extended(s, t, id, fd, [piece]) && t.requests[id].stage.fd == fd
  {
    assert StageOk(s.requests[id].stage, s.files, s.saw);
    StepKeeps(s, Body(id, piece, last));
  }

  /** A store has gone on by some pieces, and nothing else that matters to it has happened. */
  predicate Extended(s: State, t: State, id: Id, fd: Inode, pieces: seq<seq<Byte>>) {
    && id in s.requests && id in t.requests && t.dirs == s.dirs && t.views == s.views
    && t.requests[id] == s.requests[id].(stage := t.requests[id].stage)
    && fd in s.files && fd in t.files && t.files[fd].item == s.files[fd].item
    && fd in s.saw && fd in t.saw && t.saw[fd] == s.saw[fd].(pieces := s.saw[fd].pieces + pieces)
  }

  lemma {:induction false} FillStores(s: State, id: Id, pieces: seq<seq<Byte>>)
    requires Inv(s) && Live(s, id) && s.requests[id].stage.Storing? && pieces != []
    ensures var fd, t := s.requests[id].stage.fd, Fill(s, id, pieces);
            && Inv(t) && Live(t, id) && t.requests[id].stage.Sealing? && t.requests[id].stage.fd == fd
            && Extended(s, t, id, fd, pieces)
    decreases pieces
  {
    hide Inv, Step;
    var next := Step(s, Body(id, pieces[0], |pieces| == 1));
    PieceStored(s, id, pieces[0], |pieces| == 1);
    if |pieces| == 1 {
      assert pieces == [pieces[0]] && Fill(next, id, pieces[1..]) == next;
    } else {
      FillStores(next, id, pieces[1..]);
      var sofar := s.saw[s.requests[id].stage.fd].pieces;
      assert (sofar + [pieces[0]]) + pieces[1..] == sofar + pieces;
    }
  }

  /** A response that may be cached, stored without interference, becomes a finished entry. */
  lemma StorePublishes(s: State, a: Action, pieces: seq<seq<Byte>>)
    requires Inv(s) && a.Reply? && Live(s, a.id) && s.requests[a.id].stage == Missing && a.fd !in s.files
    requires Dumped(a.headers, a.dump) && a.status == 200 && |a.headers| <= SLOTS
    requires a.scan.Lifetime? && a.scan.seconds > 0 && pieces != []
    requires s.requests[a.id].name !in Entries(s, s.views[s.requests[a.id].worker].current)
    ensures var r := s.requests[a.id];
            var t := Step(Fill(Step(Step(s, a), Call(a.id, a.now)), a.id, pieces), Call(a.id, a.now));
            && Inv(t) && r.name in Entries(t, s.views[r.worker].current)
            && Entries(t, s.views[r.worker].current)[r.name] == a.fd
            && a.fd in t.files && a.fd in t.saw && t.saw[a.fd] == Response(200, a.headers, pieces)
            && t.files[a.fd].item
               == Some(Item(Some(|Concat(pieces)|), a.now + a.scan.seconds, 200, |a.headers|, |a.dump|))
  {
    hide Inv, Step;
    StoreBegins(s, a);
    StoredPublishes(Step(Step(s, a), Call(a.id, a.now)), a.id, pieces, a.now);
    assert [] + pieces == pieces;
  }

  lemma StoreBegins(s: State, a: Action)
    requires Inv(s) && a.Reply? && Live(s, a.id) && s.requests[a.id].stage == Missing && a.fd !in s.files
    requires Dumped(a.headers, a.dump) && a.status == 200 && |a.headers| <= SLOTS
    requires a.scan.Lifetime? && a.scan.seconds > 0
    requires s.requests[a.id].name !in Entries(s, s.views[s.requests[a.id].worker].current)
    ensures var r, t := s.requests[a.id], Step(Step(s, a), Call(a.id, a.now));
            && Inv(t) && Live(t, a.id) && t.requests[a.id].stage == Storing(a.fd, 0)
            && r.name in Entries(t, s.views[r.worker].current) && Entries(t, s.views[r.worker].current)[r.name] == a.fd
            && a.fd in t.files
            && t.files[a.fd].item == Some(Item(None, a.now + a.scan.seconds, 200, |a.headers|, |a.dump|))
            && a.fd in t.saw && t.saw[a.fd] == Response(200, a.headers, [])
  {
    StepKeeps(s, a);
    StepKeeps(Step(s, a), Call(a.id, a.now));
    hide Inv, Dumped;
    var item := Item(None, a.now + a.scan.seconds, 200, |a.headers|, |a.dump|);
    ReplyCreates(s, a, item);
    HeadersStep(Step(s, a), a.id, a.now);
  }

  lemma ReplyCreates(s: State, a: Action, item: Item)
    requires a.Reply? && Live(s, a.id) && s.requests[a.id].stage == Missing && a.fd !in s.files
    requires Dumped(a.headers, a.dump) && a.status == 200 && |a.headers| <= SLOTS
    requires a.scan.Lifetime? && a.scan.seconds > 0
    requires s.requests[a.id].name !in Entries(s, s.views[s.requests[a.id].worker].current)
    requires item == Item(None, a.now + a.scan.seconds, 200, |a.headers|, |a.dump|)
    ensures var r := s.requests[a.id];
            Step(s, a) == s.(dirs := Link(s, s.views[r.worker].current, r.name, a.fd),
                             files := s.files[a.fd := File(None, [])],
                             saw := s.saw[a.fd := Response(200, a.headers, [])],
                             requests := At(s, a.id, Created(a.fd, item, a.dump)))
  {
    hide Dumped;
  }

  lemma HeadersStep(s: State, id: Id, now: int)
    requires Live(s, id) && s.requests[id].stage.Created?
    ensures var st := s.requests[id].stage;
            Step(s, Call(id, now)) == s.(files := s.files[st.fd := File(Some(st.item), st.dump)],
                                         requests := At(s, id, Storing(st.fd, 0)))
  {
  }

  lemma StoredPublishes(s: State, id: Id, pieces: seq<seq<Byte>>, now: int)
    requires Inv(s) && Live(s, id) && s.requests[id].stage.Storing? && pieces != []
    ensures var fd, t := s.requests[id].stage.fd, Step(Fill(s, id, pieces), Call(id, now));
            && Inv(t) && t.dirs == s.dirs && fd in s.files && s.files[fd].item.Some?
            && fd in s.saw && fd in t.saw && t.saw[fd] == s.saw[fd].(pieces := s.saw[fd].pieces + pieces)
            && fd in t.files && t.files[fd].item
               == Some(s.files[fd].item.value.(contentLength := Some(|Concat(t.saw[fd].pieces)|)))
  {
    FillStores(s, id, pieces);
    var t := Fill(s, id, pieces);
    assert StageOk(t.requests[id].stage, t.files, t.saw);
    StepKeeps(t, Call(id, now));
  }
}
