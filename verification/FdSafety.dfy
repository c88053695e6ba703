/** What every run of the descriptor operations keeps, over any number of processes. */
module FdSafety {
  import opened FdModel

  datatype Op =
    | Create(pid: Pid)
    | Fork(parent: Pid, child: Pid)
    | Exit(pid: Pid)
    | Reap(pid: Pid)
    | CallPipe(pid: Pid)
    | CallDup(pid: Pid, fd: int)
    | CallDup2(pid: Pid, fd: int, newFd: int)
    | CallDupAbove(pid: Pid, fd: int, minFd: int)
    | CallClose(pid: Pid, fd: int)
    | CallOpen(pid: Pid, kind: Kind, handle: int)
    | CallSocket(pid: Pid, state: SocketState, made: bool)
    | CallSocketWork(id: int, state: SocketState, pending: nat)
    | CallRead(pid: Pid, fd: int, len: nat)
    | CallWrite(pid: Pid, fd: int, buf: seq<Byte>)

  ghost predicate AllClosed(t: Table) { forall i :: 0 <= i < MAX_OPEN ==> !t[i].used }

  /** An operation of a process that does not exist, or of one that exists already when it is
      created, is no step. */
  ghost predicate Enabled(s: State, op: Op) {
    match op
    case Create(pid) => pid !in s.tables
    case Fork(parent, child) => parent in s.tables && child !in s.tables
    case Reap(pid) => pid in s.tables && AllClosed(s.tables[pid])
    case CallOpen(pid, kind, _) => pid in s.tables && !kind.PipeEnd? && !kind.SocketEnd?
    case CallSocketWork(_, _, _) => true
    case _ => op.pid in s.tables
  }

  ghost function Apply(s: State, op: Op): State
    requires AllFlow(s)
  {
    if !Enabled(s, op) then s else
    match op
    case Create(pid) => NewProcess(s, pid)
    case Fork(parent, child) => Inherit(s, parent, child)
    case Exit(pid) => CloseAll(s, pid, MAX_OPEN)
    case Reap(pid) => DropProcess(s, pid)
    case CallPipe(pid) => OpenPipe(s, pid).0
    case CallDup(pid, fd) => Dup(s, pid, fd).0
    case CallDup2(pid, fd, newFd) => Dup2(s, pid, fd, newFd).0
    case CallDupAbove(pid, fd, minFd) => DupAbove(s, pid, fd, minFd).0
    case CallClose(pid, fd) => Close(s, pid, fd).0
    case CallOpen(pid, kind, handle) => OpenPlain(s, pid, kind, handle).0
    case CallSocket(pid, state, made) => NewSocket(s, pid, state, made).0
    case CallSocketWork(id, state, pending) => SocketWork(s, id, state, pending)
    case CallRead(pid, fd, len) => Read(s, pid, fd, len).0
    case CallWrite(pid, fd, buf) => Write(s, pid, fd, buf).0
  }

  /** As vfs_init and socket_init leave it. */
  function Empty(): State {
    State(map[], seq(8, _ => Pipe(false, 0, 0, [], [])), seq(16, _ => NO_SOCKET), ERR_NONE)
  }

  ghost function Run(ops: seq<Op>): (s: State)
    ensures Inv(s)
  {
    if ops == [] then
      EmptyInv();
      Empty()
    else
      Step(Run(ops[..|ops| - 1]), ops[|ops| - 1])
  }

  lemma EmptyInv()
    ensures Inv(Empty())
  {
    forall n ensures CountedAt(Empty(), n) {
      assert Handles(Empty().tables, n) == {};
    }
  }

  // ---------------------------------------------------------------------------
  // Every step keeps the invariant
  // ---------------------------------------------------------------------------

  lemma LinkInv(s: State, pid: Pid, i: nat, fd: Fd)
    requires Inv(s) && pid in s.tables && i < MAX_OPEN && !s.tables[pid][i].used
    requires fd.used && NamedFd(fd) && Live(s, NameOf(fd))
    ensures Inv(Link(s, pid, i, fd))
  {
    LinkCounted(s, pid, i, fd);
    AddRefFlows(SetFd(s, pid, i, fd), fd);
  }

  lemma AddRefFlows(s: State, fd: Fd)
    requires Streams(s)
    ensures Streams(AddRef(s, fd)) && AddRef(s, fd).tables == s.tables
  {
  }

  lemma UnlinkInv(s: State, pid: Pid, i: nat)
    requires Inv(s) && pid in s.tables && i < MAX_OPEN && s.tables[pid][i].used
    ensures Inv(Unlink(s, pid, i))
  {
    UnlinkCounted(s, pid, i);
    var s1 := DropRef(s, s.tables[pid][i]);
  }

  /** Anything an open descriptor names is in use. */
  lemma OpenIsLive(s: State, pid: Pid, i: nat)
    requires Inv(s) && pid in s.tables && i < MAX_OPEN && s.tables[pid][i].used
    ensures Live(s, NameOf(s.tables[pid][i])) && NamedFd(s.tables[pid][i])
    ensures NameOf(s.tables[pid][i]) != Nothing ==> Refs(s, NameOf(s.tables[pid][i])) > 0
  {
    var n := NameOf(s.tables[pid][i]);
    assert CountedAt(s, n);
    assert n != Nothing ==> (pid, i) in Handles(s.tables, n);
  }

  lemma DupInv(s: State, pid: Pid, oldFd: int, newFd: nat, err: int)
    requires Inv(s) && IsOpen(s, pid, oldFd) && newFd < MAX_OPEN && !s.tables[pid][newFd].used
    ensures Inv(Link(s, pid, newFd, s.tables[pid][oldFd]).(err := err))
  {
    OpenIsLive(s, pid, oldFd);
    LinkInv(s, pid, newFd, s.tables[pid][oldFd]);
    ErrInv(Link(s, pid, newFd, s.tables[pid][oldFd]), err);
  }

  lemma ErrInv(s: State, err: int)
    requires Inv(s)
    ensures Inv(s.(err := err))
  {
    forall n ensures CountedAt(s.(err := err), n) {
      assert CountedAt(s, n);
    }
  }

  lemma DupOpInv(s: State, pid: Pid, oldFd: int)
    requires Inv(s) && pid in s.tables
    ensures Inv(Dup(s, pid, oldFd).0)
  {
    ErrInv(s, ERR_EBADF);
    ErrInv(s, ERR_EMFILE);
    if IsOpen(s, pid, oldFd) && AllocFd(s.tables[pid]) >= 0 { DupInv(s, pid, oldFd, AllocFd(s.tables[pid]), ERR_NONE); }
  }

  lemma DupAboveInv(s: State, pid: Pid, oldFd: int, minFd: int)
    requires Inv(s) && pid in s.tables
    ensures Inv(DupAbove(s, pid, oldFd, minFd).0)
  {
    ErrInv(s, ERR_EBADF);
    ErrInv(s, ERR_EMFILE);
    if IsOpen(s, pid, oldFd) && 0 <= minFd < MAX_OPEN && LowestFree(s.tables[pid], minFd) >= 0 {
      DupInv(s, pid, oldFd, LowestFree(s.tables[pid], minFd), ERR_NONE);
    }
  }

  lemma CloseInv(s: State, pid: Pid, fd: int)
    requires Inv(s) && pid in s.tables
    ensures Inv(Close(s, pid, fd).0)
  {
    if IsOpen(s, pid, fd) { UnlinkInv(s, pid, fd); }
  }

  lemma ForkInv(s: State, parent: Pid, child: Pid)
    requires Inv(s) && parent in s.tables && child !in s.tables
    ensures Inv(Inherit(s, parent, child))
  {
    InheritInv(s, parent, child, MAX_OPEN);
    assert Masked(s.tables[parent], MAX_OPEN) == s.tables[parent];
  }

  lemma Dup2Inv(s: State, pid: Pid, oldFd: int, newFd: int)
    requires Inv(s) && pid in s.tables
    ensures Inv(Dup2(s, pid, oldFd, newFd).0)
  {
    ErrInv(s, ERR_EBADF);
    if IsOpen(s, pid, oldFd) && 0 <= newFd < MAX_OPEN && oldFd != newFd {
      if s.tables[pid][newFd].used { UnlinkInv(s, pid, newFd); }
      var s1 := Close(s, pid, newFd).0;
      assert s1.tables[pid][oldFd] == s.tables[pid][oldFd] && !s1.tables[pid][newFd].used;
      DupInv(s1, pid, oldFd, newFd, ERR_NONE);
    }
  }

  lemma OpenPlainInv(s: State, pid: Pid, kind: Kind, handle: int)
    requires Inv(s) && pid in s.tables && !kind.PipeEnd? && !kind.SocketEnd?
    ensures Inv(OpenPlain(s, pid, kind, handle).0)
  {
    ErrInv(s, ERR_EMFILE);
    var i := AllocFd(s.tables[pid]);
    if i >= 0 {
      var fd := s.tables[pid][i].(used := true, kind := kind, fsFd := handle);
      LinkInv(s, pid, i, fd);
      ErrInv(SetFd(s, pid, i, fd), ERR_NONE);
    }
  }

  /** A free slot of the pipe pool may be given any contents that are still free, or be put in
      use once both its ends are counted. */
  lemma OpenPipeInv(s: State, pid: Pid)
    requires Inv(s) && pid in s.tables
    ensures Inv(OpenPipe(s, pid).0)
  {
    var p := FreePipe(s.pipes, 0);
    ErrInv(s, ERR_ENFILE);
    if p >= 0 {
      FreshPipeUnnamed(s, p);
      ClearedPipeInv(s, p);
      ErrInv(s.(pipes := s.pipes[p := Pipe(false, 0, 0, [], [])]), ERR_EMFILE);
      var t := s.tables[pid];
      var rfd := AllocFd(t);
      var wfd := if rfd < 0 then -1 else AllocFd(t[rfd := t[rfd].(used := true)]);
      if wfd >= 0 { TwoEndsInv(s, pid, p, rfd, wfd); }
    }
  }

  lemma FreshPipeUnnamed(s: State, p: nat)
    requires Inv(s) && p < MAX_PIPES && !s.pipes[p].used
    ensures Handles(s.tables, ReadEnd(p)) == {} && Handles(s.tables, WriteEnd(p)) == {}
  {
    assert CountedAt(s, ReadEnd(p)) && CountedAt(s, WriteEnd(p));
  }

  lemma ClearedPipeInv(s: State, p: nat)
    requires Inv(s) && p < MAX_PIPES && !s.pipes[p].used
    ensures Inv(s.(pipes := s.pipes[p := Pipe(false, 0, 0, [], [])]))
  {
    var s' := s.(pipes := s.pipes[p := Pipe(false, 0, 0, [], [])]);
    forall n ensures CountedAt(s', n) { assert CountedAt(s, n); }
  }

  lemma TwoEndsInv(s: State, pid: Pid, p: nat, r: nat, w: nat)
    requires Inv(s) && pid in s.tables && p < MAX_PIPES && !s.pipes[p].used
    requires r < MAX_OPEN && w < MAX_OPEN && r != w && !s.tables[pid][r].used && !s.tables[pid][w].used
    ensures var t := s.tables[pid][r := Fd(true, PipeEnd, p, false)][w := Fd(true, PipeEnd, p, true)];
            Inv(s.(err := ERR_NONE, pipes := s.pipes[p := Pipe(true, 1, 1, [], [])], tables := s.tables[pid := t]))
  {
    var fr, fw := Fd(true, PipeEnd, p, false), Fd(true, PipeEnd, p, true);
    var s0 := s.(err := ERR_NONE, pipes := s.pipes[p := Pipe(true, 0, 0, [], [])]);
    FreshPipeUnnamed(s, p);
    forall n ensures CountedAt(s0, n) { assert CountedAt(s, n); }
    LinkCounted(s0, pid, r, fr);
    var s1 := Link(s0, pid, r, fr);
    LinkCounted(s1, pid, w, fw);
    var s' := s.(err := ERR_NONE, pipes := s.pipes[p := Pipe(true, 1, 1, [], [])],
                 tables := s.tables[pid := s.tables[pid][r := fr][w := fw]]);
    var s2 := Link(s1, pid, w, fw);
    assert s2.pipes == s'.pipes && s2.tables == s'.tables;
    assert s2 == s';
  }

  lemma NewSocketInv(s: State, pid: Pid, state: SocketState, made: bool)
    requires Inv(s) && pid in s.tables
    ensures Inv(NewSocket(s, pid, state, made).0)
  {
    var id := FreeSocket(s.sockets, 0);
    if id >= 0 {
      SocketSlotInv(s, id, NO_SOCKET);
      SocketSlotInv(s, id, Socket(true, 0, state, 0));
      var s0 := s.(sockets := s.sockets[id := Socket(true, 0, state, 0)]);
      var fd := AllocFd(s.tables[pid]);
      if fd < 0 {
        ErrInv(s, ERR_EMFILE);
        SocketSlotInv(s.(err := ERR_EMFILE), id, NO_SOCKET);
        assert s0.sockets[id := CloseSocket(s0.sockets[id])] == s.sockets[id := NO_SOCKET];
      } else {
        var f := Fd(true, SocketEnd, id, false);
        LinkInv(s0, pid, fd, f);
        ErrInv(Link(s0, pid, fd, f), ERR_NONE);
      }
    }
  }

  /** A free slot of the socket pool is named by nothing, so it may be filled with no references. */
  lemma SocketSlotInv(s: State, id: nat, k: Socket)
    requires Inv(s) && id < MAX_SOCKETS && !s.sockets[id].used && k.refs == 0
    ensures Inv(s.(sockets := s.sockets[id := k]))
  {
    var s' := s.(sockets := s.sockets[id := k]);
    forall n ensures CountedAt(s', n) { assert CountedAt(s, n); }
  }

  lemma SocketWorkInv(s: State, id: int, state: SocketState, pending: nat)
    requires Inv(s)
    ensures Inv(SocketWork(s, id, state, pending))
  {
    var s' := SocketWork(s, id, state, pending);
    forall n ensures CountedAt(s', n) { assert CountedAt(s, n); }
  }

  lemma {:induction false} CloseAllInv(s: State, pid: Pid, k: nat)
    requires Inv(s) && pid in s.tables && k <= MAX_OPEN
    ensures Inv(CloseAll(s, pid, k))
    ensures forall i :: 0 <= i < k ==> !CloseAll(s, pid, k).tables[pid][i].used
  {
    if k > 0 {
      CloseAllInv(s, pid, k - 1);
      var s1 := CloseAll(s, pid, k - 1);
      if s1.tables[pid][k - 1].used { UnlinkInv(s1, pid, k - 1); }
    }
  }

  /** The table a fork has counted so far: entries from k on do not exist yet. */
  ghost function Masked(t: Table, k: nat): Table
    requires k <= MAX_OPEN
  {
    t[..k] + NoFds()[k..]
  }

  lemma {:induction false} InheritInv(s: State, parent: Pid, child: Pid, k: nat)
    requires Inv(s) && parent in s.tables && child !in s.tables && k <= MAX_OPEN
    ensures var t := s.tables[parent];
            Inv(AddRefs(s.(tables := s.tables[child := t]), t, k).(tables := s.tables[child := Masked(t, k)]))
    ensures AddRefs(s.(tables := s.tables[child := s.tables[parent]]), s.tables[parent], k).tables ==
            s.tables[child := s.tables[parent]]
  {
    var t := s.tables[parent];
    var full := s.(tables := s.tables[child := t]);
    if k == 0 {
      CreateInv(s, child);
      assert Masked(t, 0) == NoFds();
    } else {
      InheritInv(s, parent, child, k - 1);
      var fd := t[k - 1];
      var s1 := AddRefs(full, t, k - 1);
      var m := s1.(tables := s.tables[child := Masked(t, k - 1)]);
      if fd.used {
        OpenIsLive(m, parent, k - 1);
        LinkInv(m, child, k - 1, fd);
        AddRefFlows(s1, fd);
        assert Masked(t, k - 1)[k - 1 := fd] == Masked(t, k);
        assert SetFd(m, child, k - 1, fd).tables == s.tables[child := Masked(t, k)];
        assert AddRef(s1, fd).(tables := s.tables[child := Masked(t, k)]) == Link(m, child, k - 1, fd);
      } else {
        UnusedInv(m, child, k - 1, fd);
        assert Masked(t, k - 1)[k - 1 := fd] == Masked(t, k);
        assert SetFd(m, child, k - 1, fd).tables == s.tables[child := Masked(t, k)];
      }
    }
  }

  lemma UnusedInv(s: State, pid: Pid, i: nat, fd: Fd)
    requires Inv(s) && pid in s.tables && i < MAX_OPEN && !s.tables[pid][i].used && !fd.used
    ensures Inv(SetFd(s, pid, i, fd))
  {
    forall n ensures CountedAt(SetFd(s, pid, i, fd), n) {
      assert CountedAt(s, n);
      if n != Nothing { HandlesAfterSet(s, pid, i, fd, n); }
    }
  }

  lemma CreateInv(s: State, pid: Pid)
    requires Inv(s) && pid !in s.tables
    ensures Inv(NewProcess(s, pid))
  {
    var s' := NewProcess(s, pid);
    forall n ensures CountedAt(s', n) {
      assert CountedAt(s, n);
      if n != Nothing { assert Handles(s'.tables, n) == Handles(s.tables, n); }
    }
  }

  lemma ReapInv(s: State, pid: Pid)
    requires Inv(s) && pid in s.tables && AllClosed(s.tables[pid])
    ensures Inv(DropProcess(s, pid))
  {
    var s' := DropProcess(s, pid);
    forall n ensures CountedAt(s', n) {
      assert CountedAt(s, n);
      if n != Nothing { assert Handles(s'.tables, n) == Handles(s.tables, n); }
    }
  }

  lemma PipeBytesInv(s: State, p: nat, sent: seq<Byte>, got: seq<Byte>)
    requires Inv(s) && p < MAX_PIPES && got <= sent && |sent| - |got| <= PIPE_BUF
    ensures Inv(s.(pipes := s.pipes[p := s.pipes[p].(sent := sent, got := got)]))
  {
    var s' := s.(pipes := s.pipes[p := s.pipes[p].(sent := sent, got := got)]);
    forall n ensures CountedAt(s', n) { assert CountedAt(s, n); }
  }

  lemma IoInv(s: State, pid: Pid, fd: int, len: nat, buf: seq<Byte>)
    requires Inv(s) && pid in s.tables
    ensures Inv(Read(s, pid, fd, len).0) && Inv(Write(s, pid, fd, buf).0)
  {
    if IsOpen(s, pid, fd) && s.tables[pid][fd].kind.PipeEnd? && 0 <= s.tables[pid][fd].fsFd < MAX_PIPES {
      var idx := s.tables[pid][fd].fsFd;
      var p := s.pipes[idx];
      assert p.sent == p.got + Queue(p);
      PipeBytesInv(s, idx, p.sent, p.got + Queue(p)[..Min(|Queue(p)|, len)]);
      PipeBytesInv(s, idx, p.sent + buf[..Min(|buf|, PIPE_BUF - |Queue(p)|)], p.got);
    }
  }

  ghost function Step(s: State, op: Op): (s': State)
    requires Inv(s)
    ensures Inv(s')
  {
    ApplyInv(s, op);
    Apply(s, op)
  }

  lemma ApplyInv(s: State, op: Op)
    requires Inv(s)
    ensures Inv(Apply(s, op))
  {
    if Enabled(s, op) {
      match op
      case Create(pid) => CreateInv(s, pid);
      case Fork(parent, child) => ForkInv(s, parent, child);
      case Exit(pid) => CloseAllInv(s, pid, MAX_OPEN);
      case Reap(pid) => ReapInv(s, pid);
      case CallPipe(pid) => OpenPipeInv(s, pid);
      case CallDup(pid, fd) => DupOpInv(s, pid, fd);
      case CallDup2(pid, fd, newFd) => Dup2Inv(s, pid, fd, newFd);
      case CallDupAbove(pid, fd, minFd) => DupAboveInv(s, pid, fd, minFd);
      case CallClose(pid, fd) => CloseInv(s, pid, fd);
      case CallOpen(pid, kind, handle) => OpenPlainInv(s, pid, kind, handle);
      case CallSocket(pid, state, made) => NewSocketInv(s, pid, state, made);
      case CallSocketWork(id, state, pending) => SocketWorkInv(s, id, state, pending);
      case CallRead(pid, fd, len) => IoInv(s, pid, fd, len, []);
      case CallWrite(pid, fd, buf) => IoInv(s, pid, fd, 0, buf);
    }
  }

  // ---------------------------------------------------------------------------
  // What follows for users of the descriptors
  // ---------------------------------------------------------------------------

  /** No open descriptor ever names a pipe or socket that is free. */
  lemma OpenNeverDangles(ops: seq<Op>, pid: Pid, i: nat)
    requires pid in Run(ops).tables && i < MAX_OPEN && Run(ops).tables[pid][i].used
    ensures var s := Run(ops); var fd := s.tables[pid][i];
            && (fd.kind.PipeEnd? ==> 0 <= fd.fsFd < MAX_PIPES && s.pipes[fd.fsFd].used)
            && (fd.kind.SocketEnd? ==> 0 <= fd.fsFd < MAX_SOCKETS && s.sockets[fd.fsFd].used)
  {
    OpenIsLive(Run(ops), pid, i);
  }

  /** A pipe slot starts a new lifetime only when no descriptor of any process names it, and the
      new lifetime starts with no bytes. */
  lemma RecycledUnnamedAndEmpty(s: State, op: Op, p: nat)
    requires Inv(s) && p < MAX_PIPES && !s.pipes[p].used && Step(s, op).pipes[p].used
    ensures Handles(s.tables, ReadEnd(p)) == {} && Handles(s.tables, WriteEnd(p)) == {}
    ensures Step(s, op).pipes[p] == Pipe(true, 1, 1, [], [])
  {
    FreshPipeUnnamed(s, p);
    if !op.CallPipe? && !op.CallRead? && !op.CallWrite? { MostStepsQuiet(s, op, p); }
  }

  /** Nothing but opening, reading and writing touches the bytes of a pipe or puts it in use. */
  predicate Quiet(s: State, s': State, p: nat) {
    |s'.pipes| == |s.pipes| && (p < |s.pipes| ==> PipeDropped(s.pipes[p], s'.pipes[p]))
  }

  lemma LinkQuiet(s: State, pid: Pid, i: nat, fd: Fd, p: nat)
    requires pid in s.tables && i < MAX_OPEN
    ensures Quiet(s, Link(s, pid, i, fd), p)
  {
  }

  lemma UnlinkQuiet(s: State, pid: Pid, i: nat, p: nat)
    requires pid in s.tables && i < MAX_OPEN
    ensures Quiet(s, Unlink(s, pid, i), p) && pid in Unlink(s, pid, i).tables
  {
  }

  lemma DupsQuiet(s: State, pid: Pid, fd: int, to: int, p: nat)
    requires pid in s.tables
    ensures Quiet(s, Dup(s, pid, fd).0, p) && Quiet(s, Dup2(s, pid, fd, to).0, p)
    ensures Quiet(s, DupAbove(s, pid, fd, to).0, p)
    ensures Quiet(s, Close(s, pid, fd).0, p)
  {
    hide Link, Unlink;
    if IsOpen(s, pid, fd) {
      UnlinkQuiet(s, pid, fd, p);
      forall i: nat | i < MAX_OPEN ensures Quiet(s, Link(s, pid, i, s.tables[pid][fd]), p) {
        LinkQuiet(s, pid, i, s.tables[pid][fd], p);
      }
      if 0 <= to < MAX_OPEN {
        if s.tables[pid][to].used { UnlinkQuiet(s, pid, to, p); }
        var s1 := Close(s, pid, to).0;
        LinkQuiet(s1, pid, to, s1.tables[pid][fd], p);
      }
    }
  }

  lemma NewSocketQuiet(s: State, pid: Pid, state: SocketState, made: bool, p: nat)
    requires pid in s.tables
    ensures Quiet(s, NewSocket(s, pid, state, made).0, p)
  {
  }

  lemma MostStepsQuiet(s: State, op: Op, p: nat)
    requires AllFlow(s) && !op.CallPipe? && !op.CallRead? && !op.CallWrite?
    ensures Quiet(s, Apply(s, op), p)
  {
    hide Dup, Dup2, DupAbove, Close, NewSocket, CloseAll, Inherit;
    if Enabled(s, op) {
      match op
      case Fork(parent, child) => InheritQuiet(s, parent, child, p);
      case Exit(pid) => CloseAllKeepsUse(s, pid, MAX_OPEN);
      case CallDup(pid, fd) => DupsQuiet(s, pid, fd, 0, p);
      case CallDup2(pid, fd, to) => DupsQuiet(s, pid, fd, to, p);
      case CallDupAbove(pid, fd, to) => DupsQuiet(s, pid, fd, to, p);
      case CallClose(pid, fd) => DupsQuiet(s, pid, fd, 0, p);
      case CallSocket(pid, state, made) => NewSocketQuiet(s, pid, state, made, p);
      case _ =>
    }
  }

  lemma InheritQuiet(s: State, parent: Pid, child: Pid, p: nat)
    requires parent in s.tables
    ensures Quiet(s, Inherit(s, parent, child), p)
  {
    AddRefsKeepsUse(s.(tables := s.tables[child := s.tables[parent]]), s.tables[parent], MAX_OPEN);
  }

  lemma {:induction false} AddRefsKeepsUse(s: State, t: Table, k: nat)
    requires k <= MAX_OPEN
    ensures var s' := AddRefs(s, t, k);
            |s'.pipes| == |s.pipes| && forall p :: 0 <= p < |s.pipes| ==>
              s'.pipes[p].(readers := 0, writers := 0) == s.pipes[p].(readers := 0, writers := 0)
    ensures var s' := AddRefs(s, t, k);
            |s'.sockets| == |s.sockets| && forall k :: 0 <= k < |s.sockets| ==>
              s'.sockets[k].(refs := 0) == s.sockets[k].(refs := 0)
    ensures AddRefs(s, t, k).err == s.err
  {
    if k > 0 { AddRefsKeepsUse(s, t, k - 1); }
  }

  /** References may have gone, and pipes and sockets with them; nothing else is different. */
  predicate OnlyDropped(s: State, s': State) {
    && s'.err == s.err && |s'.pipes| == |s.pipes| && |s'.sockets| == |s.sockets|
    && (forall p :: 0 <= p < |s.pipes| ==> PipeDropped(s.pipes[p], s'.pipes[p]))
    && (forall k :: 0 <= k < |s.sockets| ==> SocketDropped(s.sockets[k], s'.sockets[k]))
  }

  predicate PipeDropped(p: Pipe, q: Pipe) { q.sent == p.sent && q.got == p.got && (q.used ==> p.used) }

  predicate SocketDropped(k: Socket, l: Socket) {
    l == NO_SOCKET || (l.(refs := 0) == k.(refs := 0) && l.refs <= k.refs)
  }

  lemma {:induction false} CloseAllKeepsUse(s: State, pid: Pid, k: nat)
    requires pid in s.tables && k <= MAX_OPEN
    ensures OnlyDropped(s, CloseAll(s, pid, k))
  {
    hide OnlyDropped, Unlink;
    OnlyDroppedTrans(s, s, s);
    if k > 0 {
      CloseAllKeepsUse(s, pid, k - 1);
      var s1 := CloseAll(s, pid, k - 1);
      UnlinkKeepsUse(s1, pid, k - 1);
      OnlyDroppedTrans(s, s1, Unlink(s1, pid, k - 1));
    }
  }

  lemma OnlyDroppedTrans(a: State, b: State, c: State)
    ensures OnlyDropped(a, a)
    ensures OnlyDropped(a, b) && OnlyDropped(b, c) ==> OnlyDropped(a, c)
  {
  }

  lemma UnlinkKeepsUse(s: State, pid: Pid, i: nat)
    requires pid in s.tables && i < MAX_OPEN
    ensures OnlyDropped(s, Unlink(s, pid, i))
  {
  }

  /** A non-empty read on an empty pipe reports end of file exactly when no process has a write
      end open. */
  lemma EndOfFileIff(s: State, pid: Pid, fd: int, len: nat)
    requires Inv(s) && IsOpen(s, pid, fd) && s.tables[pid][fd].kind.PipeEnd? && len > 0
    requires Queue(s.pipes[OpenPipeIndex(s, pid, fd)]) == []
    ensures Read(s, pid, fd, len).1 == Data([]) <==> Handles(s.tables, WriteEnd(OpenPipeIndex(s, pid, fd))) == {}
    ensures Read(s, pid, fd, len).1 == Again <==> Handles(s.tables, WriteEnd(OpenPipeIndex(s, pid, fd))) != {}
  {
    OpenIsLive(s, pid, fd);
    assert CountedAt(s, WriteEnd(OpenPipeIndex(s, pid, fd)));
  }

  /** The pipe behind an open pipe descriptor. */
  ghost function OpenPipeIndex(s: State, pid: Pid, fd: int): (p: nat)
    requires Inv(s) && IsOpen(s, pid, fd) && s.tables[pid][fd].kind.PipeEnd?
    ensures p < MAX_PIPES && p == s.tables[pid][fd].fsFd && s.pipes[p].used && Flows(s.pipes[p])
  {
    OpenIsLive(s, pid, fd);
    s.tables[pid][fd].fsFd
  }

  /** Reads deliver, in order, exactly the bytes accepted next; writes accept what fits. */
  lemma BytesInOrder(s: State, pid: Pid, fd: int, len: nat, buf: seq<Byte>)
    requires Inv(s) && IsOpen(s, pid, fd) && s.tables[pid][fd].kind.PipeEnd?
    ensures var p := OpenPipeIndex(s, pid, fd);
            var (s', r) := Read(s, pid, fd, len);
            && s'.pipes[p].sent == s.pipes[p].sent
            && (r.Data? ==> s'.pipes[p].got == s.pipes[p].got + r.bytes && s'.pipes[p].got <= s.pipes[p].sent)
            && (Queue(s.pipes[p]) != [] && len > 0 ==> r.Data? && |r.bytes| == Min(len, |Queue(s.pipes[p])|))
    ensures var p := OpenPipeIndex(s, pid, fd);
            var (s', r) := Write(s, pid, fd, buf);
            && r.Wrote? && s'.pipes[p].got == s.pipes[p].got
            && r.n <= |buf| && s'.pipes[p].sent == s.pipes[p].sent + buf[..r.n]
            && (r.n < |buf| ==> |Queue(s'.pipes[p])| == PIPE_BUF)
  {
    var p := s.pipes[OpenPipeIndex(s, pid, fd)];
    assert p.sent == p.got + Queue(p);
    IoInv(s, pid, fd, len, buf);
  }

  predicate AtPipe(s: State, pid: Pid, fd: int, p: nat) {
    IsOpen(s, pid, fd) && s.tables[pid][fd].kind.PipeEnd? && s.tables[pid][fd].fsFd == p
  }

  /** The bytes an operation hands to its caller out of pipe p, and those it accepts into it;
      neither call looks at which end the descriptor is. */
  ghost function TakenOut(s: State, op: Op, p: nat): seq<Byte>
    requires AllFlow(s)
  {
    if op.CallRead? && AtPipe(s, op.pid, op.fd, p) && Read(s, op.pid, op.fd, op.len).1.Data? then
      Read(s, op.pid, op.fd, op.len).1.bytes
    else []
  }

  ghost function PutIn(s: State, op: Op, p: nat): seq<Byte>
    requires AllFlow(s)
  {
    if op.CallWrite? && AtPipe(s, op.pid, op.fd, p) && Write(s, op.pid, op.fd, op.buf).1.Wrote?
       && Write(s, op.pid, op.fd, op.buf).1.n <= |op.buf| then op.buf[..Write(s, op.pid, op.fd, op.buf).1.n]
    else []
  }

  /** Everything all processes read from, or wrote to, pipe p since it was last made, in order. */
  ghost function Delivered(ops: seq<Op>, p: nat): seq<Byte>
    requires p < MAX_PIPES
  {
    if ops == [] then []
    else
      var s := Run(ops[..|ops| - 1]);
      if s.pipes[p].used then Delivered(ops[..|ops| - 1], p) + TakenOut(s, ops[|ops| - 1], p) else []
  }

  ghost function Accepted(ops: seq<Op>, p: nat): seq<Byte>
    requires p < MAX_PIPES
  {
    if ops == [] then []
    else
      var s := Run(ops[..|ops| - 1]);
      if s.pipes[p].used then Accepted(ops[..|ops| - 1], p) + PutIn(s, ops[|ops| - 1], p) else []
  }

  /** In every run, what was read from a pipe is a prefix of what was written to it in the same
      lifetime, at most one buffer behind. Nothing of an earlier lifetime is ever read. */
  lemma {:induction false} DeliveredPrefixOfAccepted(ops: seq<Op>, p: nat)
    requires p < MAX_PIPES && Run(ops).pipes[p].used
    ensures Run(ops).pipes[p].got == Delivered(ops, p) && Run(ops).pipes[p].sent == Accepted(ops, p)
    ensures Delivered(ops, p) <= Accepted(ops, p) && |Accepted(ops, p)| - |Delivered(ops, p)| <= PIPE_BUF
  {
    if ops != [] {
      var before, op := ops[..|ops| - 1], ops[|ops| - 1];
      if Run(before).pipes[p].used {
        DeliveredPrefixOfAccepted(before, p);
        StepMovesBytes(Run(before), op, p);
      } else {
        RecycledUnnamedAndEmpty(Run(before), op, p);
      }
    }
    assert Flows(Run(ops).pipes[p]);
  }

  /** A step adds to the streams of a pipe that stays in use exactly what it takes and puts. */
  lemma StepMovesBytes(s: State, op: Op, p: nat)
    requires Inv(s) && p < MAX_PIPES && s.pipes[p].used
    ensures Step(s, op).pipes[p].got == s.pipes[p].got + TakenOut(s, op, p)
    ensures Step(s, op).pipes[p].sent == s.pipes[p].sent + PutIn(s, op, p)
  {
    if !op.CallPipe? && !op.CallRead? && !op.CallWrite? { MostStepsQuiet(s, op, p); }
  }

  /** A fork followed by the exit of the child leaves every pipe in use as it was: the same
      counts, the same bytes. No pipe is lost and none is kept alive. */
  lemma ForkThenExitRestores(s: State, parent: Pid, child: Pid, p: nat)
    requires Inv(s) && parent in s.tables && child !in s.tables && p < MAX_PIPES
    ensures var s' := Step(Step(s, Fork(parent, child)), Exit(child));
            Inv(s') && s'.pipes[p].used == s.pipes[p].used && (s.pipes[p].used ==> s'.pipes[p] == s.pipes[p])
  {
    var s1 := Step(s, Fork(parent, child));
    InheritInv(s, parent, child, MAX_OPEN);
    AddRefsKeepsUse(s.(tables := s.tables[child := s.tables[parent]]), s.tables[parent], MAX_OPEN);
    CloseAllInv(s1, child, MAX_OPEN);
    CloseAllKeepsUse(s1, child, MAX_OPEN);
    CloseAllTables(s1, child, MAX_OPEN);
    var s' := CloseAll(s1, child, MAX_OPEN);
    forall n | n != Nothing ensures Handles(s'.tables, n) == Handles(s.tables, n) {
      assert forall pid :: pid in s.tables ==> s'.tables[pid] == s.tables[pid];
    }
    assert CountedAt(s, ReadEnd(p)) && CountedAt(s', ReadEnd(p));
    assert CountedAt(s, WriteEnd(p)) && CountedAt(s', WriteEnd(p));
  }

  lemma {:induction false} CloseAllTables(s: State, pid: Pid, k: nat)
    requires pid in s.tables && k <= MAX_OPEN
    ensures forall q :: q in s.tables && q != pid ==> CloseAll(s, pid, k).tables[q] == s.tables[q]
  {
    if k > 0 { CloseAllTables(s, pid, k - 1); }
  }
}
