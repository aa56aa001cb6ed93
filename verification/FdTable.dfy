/** The descriptor table under concurrency. Threads share the kernel's descriptor numbers and the
    layer's table; every call is several steps, and steps of different threads interleave freely.
    A thread uses the descriptors that its own calls to open returned. */
module FdTable {
  import opened Codec
  import opened PathConfig
  import Shim = PosixShim

  datatype Request = Get(count: nat) | Put(data: seq<byte>)

  function Length(req: Request): nat {
    match req
    case Get(count) => count
    case Put(data) => |data|
  }

  datatype Info = Info(path: string, offset: nat)

  /** Where a thread stands inside a call. */
  datatype Pc =
    | Idle
    | Opened(fd: int, path: string)        // the kernel has opened it, the layer has not looked yet
    | Recorded(fd: int, path: string)      // registered if intercepted, not returned yet
    | Closing(fd: int, registered: bool)   // close has asked whether it is registered
    | Unlisted(fd: int)                    // no longer in the table, still open in the kernel
    | Moving(fd: int)                      // read, write or lseek found it registered
    | Serving(fd: int, path: string, at: nat, req: Request)   // a request to the server is on its way
    | Served(fd: int, at: nat, count: nat)   // the server has answered
    | Sought(fd: int, to: nat)             // the kernel has moved its own offset

  /** Shared state: the server's files, the kernel's open descriptors, the layer's table, and what
      the server answered to reads so far. Per thread: where it stands and what it believes of its
      descriptors. */
  datatype State = State(
    files: map<string, seq<byte>>,
    answers: seq<(nat, seq<byte>)>,
    open: map<int, string>,
    listed: map<int, Info>,
    pcs: seq<Pc>,
    own: seq<map<int, Info>>
  )

  datatype Step =
    | KernelOpen(path: string, fd: int, trunc: bool)
    | Register
    | Return
    | CheckClose(fd: int)
    | Unregister
    | KernelClose
    | CheckIo(fd: int)
    | GetInfo(req: Request)
    | Serve
    | KernelSeek(to: nat)
    | UpdateOffset

  function Init(files: map<string, seq<byte>>, threads: nat): State {
    State(files, [], map[], map[], seq(threads, _ => Idle), seq(threads, _ => map[]))
  }

  /** May thread t take the step now? The kernel hands out only numbers that are not open. */
  predicate Enabled(s: State, t: nat, step: Step)
    requires t < |s.pcs| == |s.own|
  {
    match step
    case KernelOpen(_, fd, _) => s.pcs[t].Idle? && fd !in s.open
    case Register => s.pcs[t].Opened?
    case Return => s.pcs[t].Recorded?
    case CheckClose(fd) => s.pcs[t].Idle? && fd in s.own[t]
    case Unregister => s.pcs[t].Closing?
    case KernelClose => s.pcs[t].Unlisted?
    case CheckIo(fd) => s.pcs[t].Idle? && fd in s.own[t]
    case GetInfo(_) => s.pcs[t].Moving?
    case KernelSeek(_) => s.pcs[t].Moving?
    case Serve => s.pcs[t].Serving?
    case UpdateOffset => s.pcs[t].Served? || s.pcs[t].Sought?
  }

  function At(s: State, t: nat, pc: Pc): State
    requires t < |s.pcs|
  {
    s.(pcs := s.pcs[t := pc])
  }

  function Believe(s: State, t: nat, mine: map<int, Info>): State
    requires t < |s.own|
  {
    s.(own := s.own[t := mine])
  }

  function SetOffset(m: map<int, Info>, fd: int, off: nat): map<int, Info> {
    if fd in m then m[fd := m[fd].(offset := off)] else m
  }

  /** Opening creates a missing file, and empties it on request. */
  function AfterOpen(files: map<string, seq<byte>>, path: string, trunc: bool): map<string, seq<byte>> {
    files[path := if trunc then [] else Shim.FileOf(files, path)]
  }

  /** One positioned request at the server. */
  function AfterServe(files: map<string, seq<byte>>, path: string, at: nat, req: Request): map<string, seq<byte>> {
    match req
    case Get(_) => files
    case Put(data) => files[path := Shim.WriteAt(Shim.FileOf(files, path), at, data)]
  }

  function Answer(files: map<string, seq<byte>>, t: nat, path: string, at: nat, req: Request): seq<(nat, seq<byte>)> {
    match req
    case Get(count) => [(t, Shim.ReadAt(Shim.FileOf(files, path), at, count))]
    case Put(_) => []
  }

  function Next(table: seq<PathEntry>, s: State, t: nat, step: Step): State
    requires t < |s.pcs| == |s.own| && Enabled(s, t, step)
  {
    var pc := s.pcs[t];
    match step
    case KernelOpen(path, fd, trunc) =>
      At(s.(open := s.open[fd := path], files := AfterOpen(s.files, path, trunc)), t, Opened(fd, path))
    case Register =>
      var listed := if FirstMatch(table, pc.path) then s.listed[pc.fd := Info(pc.path, 0)] else s.listed;
      At(s.(listed := listed), t, Recorded(pc.fd, pc.path))
    case Return => At(Believe(s, t, s.own[t][pc.fd := Info(pc.path, 0)]), t, Idle)
    case CheckClose(fd) => At(Believe(s, t, s.own[t] - {fd}), t, Closing(fd, fd in s.listed))
    case Unregister =>
      At(s.(listed := if pc.registered then s.listed - {pc.fd} else s.listed), t, Unlisted(pc.fd))
    case KernelClose => At(s.(open := s.open - {pc.fd}), t, Idle)
    case CheckIo(fd) => if fd in s.listed then At(s, t, Moving(fd)) else s
    case GetInfo(req) =>
      // a missing entry sends the call to the kernel
      if pc.fd in s.listed then At(s, t, Serving(pc.fd, s.listed[pc.fd].path, s.listed[pc.fd].offset, req))
      else At(s, t, Idle)
    case Serve =>
      At(s.(files := AfterServe(s.files, pc.path, pc.at, pc.req),
            answers := s.answers + Answer(s.files, t, pc.path, pc.at, pc.req)),
         t, Served(pc.fd, pc.at, Length(pc.req)))
    case KernelSeek(to) => At(s, t, Sought(pc.fd, to))
    case UpdateOffset =>
      // after serving, the offset is read again through the entry
      var to := if pc.Sought? then pc.to
                else if pc.fd in s.listed then s.listed[pc.fd].offset + pc.count else 0;
      var mine := if pc.Sought? then SetOffset(s.own[t], pc.fd, pc.to)
                  else if pc.fd in s.own[t] then SetOffset(s.own[t], pc.fd, pc.at + pc.count) else s.own[t];
      At(Believe(s.(listed := SetOffset(s.listed, pc.fd, to)), t, mine), t, Idle)
  }

  // ----- what every step keeps -----

  /** The descriptor a thread is in the middle of opening or closing. */
  predicate InTransit(pc: Pc, fd: int) {
    (pc.Opened? || pc.Recorded? || pc.Closing? || pc.Unlisted?) && pc.fd == fd
  }

  ghost predicate Uses(s: State, t: nat, fd: int)
    requires t < |s.pcs| == |s.own|
  {
    fd in s.own[t] || InTransit(s.pcs[t], fd)
  }

  /** The table says of fd exactly what it should for a descriptor opened at path, at offset off. */
  predicate Listed(table: seq<PathEntry>, s: State, fd: int, path: string, off: nat) {
    && fd in s.open && s.open[fd] == path
    && (fd in s.listed <==> FirstMatch(table, path))
    && (fd in s.listed ==> s.listed[fd] == Info(path, off))
  }

  /** A thread's step position is consistent with the shared state. */
  ghost predicate PcOk(table: seq<PathEntry>, s: State, t: nat)
    requires t < |s.pcs| == |s.own|
  {
    match s.pcs[t]
    case Idle => true
    case Opened(fd, path) => fd in s.open && s.open[fd] == path && fd !in s.listed && fd !in s.own[t]
    case Recorded(fd, path) => Listed(table, s, fd, path, 0) && fd !in s.own[t]
    case Closing(fd, registered) => fd in s.open && (registered <==> fd in s.listed) && fd !in s.own[t]
    case Unlisted(fd) => fd in s.open && fd !in s.listed && fd !in s.own[t]
    case Moving(fd) => fd in s.own[t] && fd in s.listed
    case Serving(fd, path, at, _) => fd in s.own[t] && fd in s.listed && s.own[t][fd] == Info(path, at)
    case Served(fd, at, _) => fd in s.own[t] && fd in s.listed && at == s.own[t][fd].offset
    case Sought(fd, _) => fd in s.own[t] && fd in s.listed
  }

  ghost predicate OwnOk(table: seq<PathEntry>, s: State, t: nat)
    requires t < |s.own|
  {
    forall fd :: fd in s.own[t] ==> Listed(table, s, fd, s.own[t][fd].path, s.own[t][fd].offset)
  }

  ghost predicate ThreadOk(table: seq<PathEntry>, s: State, t: nat)
    requires t < |s.pcs| == |s.own|
  {
    PcOk(table, s, t) && OwnOk(table, s, t)
  }

  /** Every registered descriptor is open in the kernel, under the recorded path. */
  ghost predicate TableOk(s: State) {
    forall fd :: fd in s.listed ==> fd in s.open && s.open[fd] == s.listed[fd].path
  }

  ghost predicate OneUser(s: State)
    requires |s.pcs| == |s.own|
  {
    forall t, u, fd :: 0 <= t < |s.pcs| && 0 <= u < |s.pcs| && Uses(s, t, fd) && Uses(s, u, fd) ==> t == u
  }

  ghost predicate Inv(table: seq<PathEntry>, s: State) {
    |s.pcs| == |s.own| && TableOk(s) && OneUser(s) && forall t :: 0 <= t < |s.pcs| ==> ThreadOk(table, s, t)
  }

  /** The two states differ at most in what they say of fd, and in thread t. */
  ghost predicate OnlyAt(s: State, s': State, t: nat, fd: int) {
    && |s.pcs| == |s.own| == |s'.pcs| == |s'.own| && t < |s.pcs|
    && (forall u :: 0 <= u < |s.pcs| && u != t ==> s'.pcs[u] == s.pcs[u] && s'.own[u] == s.own[u])
    && (forall f :: f != fd ==> (f in s.open <==> f in s'.open) && (f in s.listed <==> f in s'.listed))
    && (forall f :: f != fd && f in s.open ==> s'.open[f] == s.open[f])
    && (forall f :: f != fd && f in s.listed ==> s'.listed[f] == s.listed[f])
  }

  /** A thread that does not use fd is not disturbed by what happens to it. */
  lemma Undisturbed(table: seq<PathEntry>, s: State, s': State, t: nat, fd: int, u: nat)
    requires OnlyAt(s, s', t, fd) && u < |s.pcs| && u != t
    requires ThreadOk(table, s, u) && !Uses(s, u, fd)
    ensures ThreadOk(table, s', u)
  {
    forall f | f in s'.own[u] ensures Listed(table, s', f, s'.own[u][f].path, s'.own[u][f].offset) {
      assert Uses(s, u, f);
      assert Listed(table, s, f, s.own[u][f].path, s.own[u][f].offset);
    }
  }

  /** What a step of thread t on fd has to establish so that the invariant survives. */
  lemma Kept(table: seq<PathEntry>, s: State, s': State, t: nat, fd: int)
    requires Inv(table, s) && OnlyAt(s, s', t, fd) && TableOk(s') && ThreadOk(table, s', t)
    requires forall u :: 0 <= u < |s.pcs| && u != t ==> !Uses(s, u, fd)
    requires forall f :: f != fd && Uses(s', t, f) ==> Uses(s, t, f)
    ensures Inv(table, s')
  {
    forall u | 0 <= u < |s.pcs| ensures ThreadOk(table, s', u) {
      if u != t {
        assert ThreadOk(table, s, u);
        Undisturbed(table, s, s', t, fd, u);
      }
    }
    forall a, b, f | 0 <= a < |s.pcs| && 0 <= b < |s.pcs| && Uses(s', a, f) && Uses(s', b, f) ensures a == b {
      assert a != t ==> Uses(s, a, f);
      assert b != t ==> Uses(s, b, f);
    }
  }

  /** A descriptor that is not open is used by nobody. */
  lemma UsedIsOpen(table: seq<PathEntry>, s: State, t: nat, fd: int)
    requires Inv(table, s) && t < |s.pcs| && Uses(s, t, fd)
    ensures fd in s.open
  {
    assert ThreadOk(table, s, t);
    assert fd in s.own[t] ==> Listed(table, s, fd, s.own[t][fd].path, s.own[t][fd].offset);
  }

  lemma OthersDoNotUse(s: State, t: nat, fd: int)
    requires |s.pcs| == |s.own| && OneUser(s) && t < |s.pcs| && Uses(s, t, fd)
    ensures forall u :: 0 <= u < |s.pcs| && u != t ==> !Uses(s, u, fd)
  {
  }

  lemma StepKeepsOpen(table: seq<PathEntry>, s: State, t: nat, path: string, fd: int, trunc: bool)
    requires Inv(table, s) && t < |s.pcs| && Enabled(s, t, KernelOpen(path, fd, trunc))
    ensures Inv(table, Next(table, s, t, KernelOpen(path, fd, trunc)))
  {
    var s' := Next(table, s, t, KernelOpen(path, fd, trunc));
    assert ThreadOk(table, s, t);
    forall u | 0 <= u < |s.pcs| ensures !Uses(s, u, fd) {
      if Uses(s, u, fd) {
        UsedIsOpen(table, s, u, fd);
        assert false;
      }
    }
    assert !Uses(s, t, fd);
    Kept(table, s, s', t, fd);
  }

  lemma StepKeepsInside(table: seq<PathEntry>, s: State, t: nat, step: Step)
    requires Inv(table, s) && t < |s.pcs| && Enabled(s, t, step)
    requires step.Register? || step.Return? || step.Unregister? || step.KernelClose?
    ensures Inv(table, Next(table, s, t, step))
  {
    var s' := Next(table, s, t, step);
    var fd := s.pcs[t].fd;
    assert ThreadOk(table, s, t);
    assert Uses(s, t, fd);
    OthersDoNotUse(s, t, fd);
    Kept(table, s, s', t, fd);
  }

  lemma StepKeepsCheck(table: seq<PathEntry>, s: State, t: nat, step: Step)
    requires Inv(table, s) && t < |s.pcs| && Enabled(s, t, step)
    requires step.CheckClose? || step.CheckIo?
    ensures Inv(table, Next(table, s, t, step))
  {
    var s' := Next(table, s, t, step);
    assert ThreadOk(table, s, t);
    assert Uses(s, t, step.fd);
    OthersDoNotUse(s, t, step.fd);
    Kept(table, s, s', t, step.fd);
  }

  lemma StepKeepsIo(table: seq<PathEntry>, s: State, t: nat, step: Step)
    requires Inv(table, s) && t < |s.pcs| && Enabled(s, t, step)
    requires step.GetInfo? || step.Serve? || step.KernelSeek?
    ensures Inv(table, Next(table, s, t, step))
  {
    var s' := Next(table, s, t, step);
    var fd := s.pcs[t].fd;
    assert ThreadOk(table, s, t);
    assert Uses(s, t, fd);
    assert Listed(table, s, fd, s.own[t][fd].path, s.own[t][fd].offset);
    OthersDoNotUse(s, t, fd);
    hide OneUser;
    Kept(table, s, s', t, fd);
  }

  lemma StepKeepsUpdate(table: seq<PathEntry>, s: State, t: nat)
    requires Inv(table, s) && t < |s.pcs| && Enabled(s, t, UpdateOffset)
    ensures Inv(table, Next(table, s, t, UpdateOffset))
  {
    var s' := Next(table, s, t, UpdateOffset);
    var fd := s.pcs[t].fd;
    assert ThreadOk(table, s, t);
    assert Uses(s, t, fd);
    assert Listed(table, s, fd, s.own[t][fd].path, s.own[t][fd].offset);
    OthersDoNotUse(s, t, fd);
    hide OneUser;
    Kept(table, s, s', t, fd);
  }

  lemma StepKeeps(table: seq<PathEntry>, s: State, t: nat, step: Step)
    requires Inv(table, s) && t < |s.pcs| && Enabled(s, t, step)
    ensures Inv(table, Next(table, s, t, step))
  {
    match step {
      case KernelOpen(path, fd, trunc) => StepKeepsOpen(table, s, t, path, fd, trunc);
      case Register => StepKeepsInside(table, s, t, step);
      case Return => StepKeepsInside(table, s, t, step);
      case Unregister => StepKeepsInside(table, s, t, step);
      case KernelClose => StepKeepsInside(table, s, t, step);
      case CheckClose(_) => StepKeepsCheck(table, s, t, step);
      case CheckIo(_) => StepKeepsCheck(table, s, t, step);
      case GetInfo(_) => StepKeepsIo(table, s, t, step);
      case Serve => StepKeepsIo(table, s, t, step);
      case KernelSeek(_) => StepKeepsIo(table, s, t, step);
      case UpdateOffset => StepKeepsUpdate(table, s, t);
    }
  }

  // ----- every interleaving -----

  datatype Move = Move(thread: nat, step: Step)

  ghost predicate Runs(table: seq<PathEntry>, s: State, moves: seq<Move>, end: State)
    decreases |moves|
  {
    if moves == [] then end == s
    else
      var m := moves[0];
      m.thread < |s.pcs| == |s.own| && Enabled(s, m.thread, m.step)
      && Runs(table, Next(table, s, m.thread, m.step), moves[1..], end)
  }

  lemma {:induction false} RunKeeps(table: seq<PathEntry>, s: State, moves: seq<Move>, end: State)
    requires Inv(table, s) && Runs(table, s, moves, end)
    ensures Inv(table, end) && |end.pcs| == |s.pcs|
    decreases |moves|
  {
    if moves != [] {
      StepKeeps(table, s, moves[0].thread, moves[0].step);
      RunKeeps(table, Next(table, s, moves[0].thread, moves[0].step), moves[1..], end);
    }
  }

  lemma InitInv(table: seq<PathEntry>, files: map<string, seq<byte>>, threads: nat)
    ensures Inv(table, Init(files, threads))
  {
  }

  /** In every state that any interleaving of any number of threads can reach: a registered
      descriptor is open under the recorded path; a descriptor that open returned is registered
      exactly when its path is intercepted, at the offset its thread believes in; a number fresh
      from the kernel has no entry left over, and once registered starts at offset 0; and the
      second lookup of a read or write never misses. */
  lemma NeverStale(table: seq<PathEntry>, files: map<string, seq<byte>>, threads: nat, moves: seq<Move>, s: State)
    requires Runs(table, Init(files, threads), moves, s)
    ensures |s.pcs| == |s.own| == threads
    ensures forall fd :: fd in s.listed ==> fd in s.open && s.open[fd] == s.listed[fd].path
    ensures forall t, fd :: 0 <= t < threads && fd in s.own[t] ==>
      Listed(table, s, fd, s.own[t][fd].path, s.own[t][fd].offset)
    ensures forall t :: 0 <= t < threads && s.pcs[t].Opened? ==> s.pcs[t].fd !in s.listed
    ensures forall t :: 0 <= t < threads && s.pcs[t].Recorded? ==> Listed(table, s, s.pcs[t].fd, s.pcs[t].path, 0)
    ensures forall t :: 0 <= t < threads && s.pcs[t].Moving? ==> s.pcs[t].fd in s.listed
  {
    InitInv(table, files, threads);
    RunKeeps(table, Init(files, threads), moves, s);
    forall t | 0 <= t < threads
      ensures s.pcs[t].Opened? ==> s.pcs[t].fd !in s.listed
      ensures s.pcs[t].Recorded? ==> Listed(table, s, s.pcs[t].fd, s.pcs[t].path, 0)
      ensures s.pcs[t].Moving? ==> s.pcs[t].fd in s.listed
      ensures forall fd :: fd in s.own[t] ==> Listed(table, s, fd, s.own[t][fd].path, s.own[t][fd].offset)
    {
      assert ThreadOk(table, s, t);
    }
  }

  // ----- no thread's account depends on the others -----

  datatype Local = Local(pc: Pc, mine: map<int, Info>)

  function LocalOf(s: State, t: nat): Local
    requires t < |s.pcs| == |s.own|
  {
    Local(s.pcs[t], s.own[t])
  }

  /** A thread's step computed from its own state alone, with no table to consult. */
  function LocalNext(table: seq<PathEntry>, l: Local, step: Step): Local {
    match (step, l.pc)
    case (KernelOpen(path, fd, _), Idle) => Local(Opened(fd, path), l.mine)
    case (Register, Opened(fd, path)) => Local(Recorded(fd, path), l.mine)
    case (Return, Recorded(fd, path)) => Local(Idle, l.mine[fd := Info(path, 0)])
    case (CheckClose(fd), Idle) =>
      if fd in l.mine then Local(Closing(fd, FirstMatch(table, l.mine[fd].path)), l.mine - {fd}) else l
    case (Unregister, Closing(fd, _)) => Local(Unlisted(fd), l.mine)
    case (KernelClose, Unlisted(_)) => Local(Idle, l.mine)
    case (CheckIo(fd), Idle) =>
      if fd in l.mine && FirstMatch(table, l.mine[fd].path) then Local(Moving(fd), l.mine) else l
    case (GetInfo(req), Moving(fd)) =>
      if fd in l.mine then Local(Serving(fd, l.mine[fd].path, l.mine[fd].offset, req), l.mine) else l
    case (Serve, Serving(fd, _, at, req)) => Local(Served(fd, at, Length(req)), l.mine)
    case (KernelSeek(to), Moving(fd)) => Local(Sought(fd, to), l.mine)
    case (UpdateOffset, Sought(fd, to)) => Local(Idle, SetOffset(l.mine, fd, to))
    case (UpdateOffset, Served(fd, at, count)) => Local(Idle, SetOffset(l.mine, fd, at + count))
    case _ => l
  }

  lemma StepIsLocal(table: seq<PathEntry>, s: State, t: nat, step: Step)
    requires Inv(table, s) && t < |s.pcs| && Enabled(s, t, step)
    ensures var s' := Next(table, s, t, step);
      && |s'.pcs| == |s'.own| == |s.pcs|
      && LocalOf(s', t) == LocalNext(table, LocalOf(s, t), step)
      && forall u :: 0 <= u < |s.pcs| && u != t ==> LocalOf(s', u) == LocalOf(s, u)
  {
    assert ThreadOk(table, s, t);
    match step {
      case CheckClose(fd) => assert Listed(table, s, fd, s.own[t][fd].path, s.own[t][fd].offset);
      case CheckIo(fd) => assert Listed(table, s, fd, s.own[t][fd].path, s.own[t][fd].offset);
      case GetInfo(_) =>
        var fd := s.pcs[t].fd;
        assert Listed(table, s, fd, s.own[t][fd].path, s.own[t][fd].offset);
      case _ =>
    }
  }

  function LocalRun(table: seq<PathEntry>, l: Local, moves: seq<Move>, t: nat): Local
    decreases |moves|
  {
    if moves == [] then l
    else LocalRun(table, if moves[0].thread == t then LocalNext(table, l, moves[0].step) else l, moves[1..], t)
  }

  /** In every interleaving each thread's descriptors, paths and offsets are what its own steps
      alone make them. */
  lemma {:induction false} RunIsLocal(table: seq<PathEntry>, s: State, moves: seq<Move>, end: State, t: nat)
    requires Inv(table, s) && Runs(table, s, moves, end) && t < |s.pcs|
    ensures |end.pcs| == |end.own| == |s.pcs|
    ensures LocalOf(end, t) == LocalRun(table, LocalOf(s, t), moves, t)
    decreases |moves|
  {
    if moves != [] {
      var m := moves[0];
      StepIsLocal(table, s, m.thread, m.step);
      StepKeeps(table, s, m.thread, m.step);
      RunIsLocal(table, Next(table, s, m.thread, m.step), moves[1..], end, t);
    }
  }

  // ----- one whole call after the other -----

  datatype Call =
    | OpenCall(path: string, fd: int, trunc: bool)
    | CloseCall(fd: int)
    | IoCall(fd: int, req: Request)
    | SeekCall(fd: int, to: nat)

  /** Calls that are never interrupted: each thread's descriptors need no common table. */
  datatype Serial = Serial(files: map<string, seq<byte>>, answers: seq<(nat, seq<byte>)>, mine: seq<map<int, Info>>)

  function Account(s: Serial, t: nat, mine: map<int, Info>): Serial
    requires t < |s.mine|
  {
    s.(mine := s.mine[t := mine])
  }

  function SerialNext(s: Serial, t: nat, c: Call): (s': Serial)
    requires t < |s.mine|
    ensures |s'.mine| == |s.mine|
  {
    match c
    case OpenCall(path, fd, trunc) =>
      Account(s.(files := AfterOpen(s.files, path, trunc)), t, s.mine[t][fd := Info(path, 0)])
    case CloseCall(fd) => Account(s, t, s.mine[t] - {fd})
    case IoCall(fd, req) =>
      if fd !in s.mine[t] then s
      else
        var i := s.mine[t][fd];
        Account(s.(files := AfterServe(s.files, i.path, i.offset, req),
                   answers := s.answers + Answer(s.files, t, i.path, i.offset, req)),
                t, SetOffset(s.mine[t], fd, i.offset + Length(req)))
    case SeekCall(fd, to) => Account(s, t, SetOffset(s.mine[t], fd, to))
  }

  function SerialRun(s: Serial, calls: seq<(nat, Call)>): Serial
    decreases |calls|
  {
    if calls == [] || calls[0].0 >= |s.mine| then s else SerialRun(SerialNext(s, calls[0].0, calls[0].1), calls[1..])
  }

  /** The step of a call at which it takes effect: open when the kernel opens, close when it is
      called, a read or write when the server serves it, a seek when the offset is recorded. */
  function TakesEffect(s: State, t: nat, step: Step): seq<(nat, Call)>
    requires t < |s.pcs| == |s.own| && Enabled(s, t, step)
  {
    match step
    case KernelOpen(path, fd, trunc) => [(t, OpenCall(path, fd, trunc))]
    case CheckClose(fd) => [(t, CloseCall(fd))]
    case Serve => [(t, IoCall(s.pcs[t].fd, s.pcs[t].req))]
    case UpdateOffset => if s.pcs[t].Sought? then [(t, SeekCall(s.pcs[t].fd, s.pcs[t].to))] else []
    case _ => []
  }

  /** A thread's descriptors, with its present call counted if it has taken effect. */
  function Counted(l: Local): map<int, Info> {
    match l.pc
    case Opened(fd, path) => l.mine[fd := Info(path, 0)]
    case Recorded(fd, path) => l.mine[fd := Info(path, 0)]
    case Served(fd, at, count) => SetOffset(l.mine, fd, at + count)
    case _ => l.mine
  }

  function AsSerial(s: State): Serial
    requires |s.pcs| == |s.own|
  {
    Serial(s.files, s.answers, seq(|s.pcs|, t requires 0 <= t < |s.pcs| => Counted(LocalOf(s, t))))
  }

  lemma OwnEffect(table: seq<PathEntry>, s: State, t: nat, step: Step)
    requires Inv(table, s) && t < |s.pcs| && Enabled(s, t, step)
    ensures var s', a, calls := Next(table, s, t, step), AsSerial(s), TakesEffect(s, t, step);
      && |s'.pcs| == |s'.own| == |s.pcs|
      && (if calls == [] then a.mine[t] else SerialNext(a, t, calls[0].1).mine[t]) == Counted(LocalOf(s', t))
  {
    StepIsLocal(table, s, t, step);
    assert ThreadOk(table, s, t);
    hide Inv, OwnOk, AfterOpen, AfterServe, Answer, FirstMatch;
  }

  lemma FilesEffect(table: seq<PathEntry>, s: State, t: nat, step: Step)
    requires Inv(table, s) && t < |s.pcs| && Enabled(s, t, step)
    ensures var s', a, calls := Next(table, s, t, step), AsSerial(s), TakesEffect(s, t, step);
      var b := if calls == [] then a else SerialNext(a, t, calls[0].1);
      b.files == s'.files && b.answers == s'.answers
  {
    assert ThreadOk(table, s, t);
    hide Inv, OwnOk, AfterOpen, AfterServe, Answer, FirstMatch, SetOffset;
  }

  lemma OthersAlone(s: Serial, t: nat, c: Call)
    requires t < |s.mine|
    ensures forall u :: 0 <= u < |s.mine| && u != t ==> SerialNext(s, t, c).mine[u] == s.mine[u]
  {
  }

  /** A step is the call that takes effect in it, or nothing. */
  lemma StepIsSerial(table: seq<PathEntry>, s: State, t: nat, step: Step)
    requires Inv(table, s) && t < |s.pcs| && Enabled(s, t, step)
    ensures |Next(table, s, t, step).pcs| == |Next(table, s, t, step).own|
    ensures AsSerial(Next(table, s, t, step)) == SerialRun(AsSerial(s), TakesEffect(s, t, step))
  {
    StepIsLocal(table, s, t, step);
    OwnEffect(table, s, t, step);
    FilesEffect(table, s, t, step);
    var s', a, calls := Next(table, s, t, step), AsSerial(s), TakesEffect(s, t, step);
    if calls != [] {
      OthersAlone(a, t, calls[0].1);
    }
    OneCall(a, calls);
    assert |calls| <= 1 && (calls != [] ==> calls[0].0 == t);
    hide Next, TakesEffect, SerialNext, Counted, LocalNext, Inv, Enabled;
    assert AsSerial(s').mine == SerialRun(a, calls).mine;
  }

  lemma OneCall(s: Serial, calls: seq<(nat, Call)>)
    requires |calls| <= 1 && forall i :: 0 <= i < |calls| ==> calls[i].0 < |s.mine|
    ensures SerialRun(s, calls) == if calls == [] then s else SerialNext(s, calls[0].0, calls[0].1)
  {
  }

  /** The calls of a run in the order in which they take effect. */
  function Calls(table: seq<PathEntry>, s: State, moves: seq<Move>): seq<(nat, Call)>
    decreases |moves|
  {
    if moves == [] || moves[0].thread >= |s.pcs| || |s.pcs| != |s.own| then []
    else if !Enabled(s, moves[0].thread, moves[0].step) then []
    else
      var m := moves[0];
      TakesEffect(s, m.thread, m.step) + Calls(table, Next(table, s, m.thread, m.step), moves[1..])
  }

  lemma {:induction false} SerialConcat(s: Serial, a: seq<(nat, Call)>, b: seq<(nat, Call)>)
    requires forall i :: 0 <= i < |a| ==> a[i].0 < |s.mine|
    ensures SerialRun(s, a + b) == SerialRun(SerialRun(s, a), b)
    decreases |a|
  {
    if a == [] {
      assert a + b == b;
    } else {
      assert (a + b)[1..] == a[1..] + b;
      SerialConcat(SerialNext(s, a[0].0, a[0].1), a[1..], b);
    }
  }

  lemma {:induction false} RunIsSerial(table: seq<PathEntry>, s: State, moves: seq<Move>, end: State)
    requires Inv(table, s) && Runs(table, s, moves, end)
    ensures |end.pcs| == |end.own| && AsSerial(end) == SerialRun(AsSerial(s), Calls(table, s, moves))
    decreases |moves|
  {
    if moves != [] {
      var m := moves[0];
      var s' := Next(table, s, m.thread, m.step);
      StepIsSerial(table, s, m.thread, m.step);
      StepKeeps(table, s, m.thread, m.step);
      RunIsSerial(table, s', moves[1..], end);
      SerialConcat(AsSerial(s), TakesEffect(s, m.thread, m.step), Calls(table, s', moves[1..]));
    }
  }

  /** In every interleaving of any number of threads the file contents and the answers to reads are
      those of whole calls made one after the other, in the order in which they take effect. */
  lemma SerialOrderExists(table: seq<PathEntry>, files: map<string, seq<byte>>, threads: nat, moves: seq<Move>,
                          s: State)
    requires Runs(table, Init(files, threads), moves, s)
    ensures var start := Serial(files, [], seq(threads, _ => map[]));
      var end := SerialRun(start, Calls(table, Init(files, threads), moves));
      && end.files == s.files && end.answers == s.answers
      && |end.mine| == |s.own| == |s.pcs| == threads
      && forall t :: 0 <= t < threads && s.pcs[t].Idle? ==> end.mine[t] == s.own[t]
  {
    InitInv(table, files, threads);
    RunKeeps(table, Init(files, threads), moves, s);
    RunIsSerial(table, Init(files, threads), moves, s);
    assert AsSerial(Init(files, threads)).mine == seq(threads, _ => map[]);
  }

  // ----- what the calls mean one by one -----

  /** Opening is what the operating system does to the files. */
  lemma OpensLikeKernel(k: Shim.Kernel, cwd: string, path: string, flags: Shim.Flags)
    ensures var (k', r) := Shim.KernelOpen(k, cwd, path, flags);
      r.ret >= 0 ==> k'.files == AfterOpen(k.files, Shim.Absolute(cwd, path), flags.trunc && flags.write)
  {
  }

  /** A read after a write at the same place answers what was written, and changes no file. */
  lemma ServesWhatIsStored(files: map<string, seq<byte>>, t: nat, path: string, at: nat, data: seq<byte>, other: string)
    ensures var files' := AfterServe(files, path, at, Put(data));
      && (data != [] ==> Answer(files', t, path, at, Get(|data|)) == [(t, data)])
      && AfterServe(files', path, at, Get(|data|)) == files' && Answer(files, t, path, at, Put(data)) == []
      && (other != path ==> Shim.FileOf(files', other) == Shim.FileOf(files, other))
  {
    Shim.WriteAtBytes(Shim.FileOf(files, path), at, data);
  }

  /** Each thread's offset goes on by what it read or wrote, to where it seeks, and from 0 when it
      opens; other descriptors stay where they are. */
  lemma OffsetsGoOn(s: Serial, t: nat, fd: int, path: string, req: Request, to: nat, trunc: bool)
    requires t < |s.mine|
    ensures var atStart := SerialNext(s, t, OpenCall(path, fd, trunc));
      var moved, sought := SerialNext(atStart, t, IoCall(fd, req)), SerialNext(atStart, t, SeekCall(fd, to));
      && atStart.mine[t] == s.mine[t][fd := Info(path, 0)]
      && moved.mine[t] == s.mine[t][fd := Info(path, match req { case Get(count) => count case Put(data) => |data| })]
      && sought.mine[t] == s.mine[t][fd := Info(path, to)]
      && SerialNext(atStart, t, CloseCall(fd)).mine[t] == s.mine[t] - {fd}
      && forall u :: 0 <= u < |s.mine| && u != t ==> moved.mine[u] == sought.mine[u] == s.mine[u]
  {
  }

  lemma OneRead(s: Serial, t: nat, fd: int, n: nat)
    requires t < |s.mine| && fd in s.mine[t]
    ensures var i, s' := s.mine[t][fd], SerialNext(s, t, IoCall(fd, Get(n)));
      && s'.files == s.files && |s'.mine| == |s.mine| && s'.mine[t] == s.mine[t][fd := Info(i.path, i.offset + n)]
      && s'.answers == s.answers + [(t, Shim.ReadAt(Shim.FileOf(s.files, i.path), i.offset, n))]
  {
  }

  lemma TwoCalls(s: Serial, t: nat, c: Call, d: Call)
    requires t < |s.mine|
    ensures SerialRun(s, [(t, c), (t, d)]) == SerialNext(SerialNext(s, t, c), t, d)
  {
    assert [(t, c), (t, d)][1..] == [(t, d)];
    OneCall(SerialNext(s, t, c), [(t, d)]);
    hide SerialNext;
  }

  /** Two reads of a thread answer consecutive stretches of its file. */
  lemma ReadsInARow(s: Serial, t: nat, fd: int, a: nat, b: nat)
    requires t < |s.mine| && fd in s.mine[t]
    ensures var i := s.mine[t][fd];
      var file := Shim.FileOf(s.files, i.path);
      SerialRun(s, [(t, IoCall(fd, Get(a))), (t, IoCall(fd, Get(b)))]).answers
        == s.answers + [(t, Shim.ReadAt(file, i.offset, a))] + [(t, Shim.ReadAt(file, i.offset + a, b))]
  {
    hide *;
    var c, d := IoCall(fd, Get(a)), IoCall(fd, Get(b));
    TwoCalls(s, t, c, d);
    OneRead(s, t, fd, a);
    OneRead(SerialNext(s, t, c), t, fd, b);
    assert Shim.FileOf(SerialNext(s, t, c).files, s.mine[t][fd].path) == Shim.FileOf(s.files, s.mine[t][fd].path);
  }
}
