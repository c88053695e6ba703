/** Descriptor tables, pipes and socket reference counts (fs/vfs.c, kernel/socket.c) as a state
    machine: every step of every process acts on one pool of pipes and one of sockets. */
module FdModel {

  const MAX_OPEN: nat := 32
  const MAX_PIPES: nat := 8
  const MAX_SOCKETS: nat := 16
  const PIPE_BUF: nat := 4096

  const ERR_NONE: int := 0
  const ERR_EBADF: int := 9
  const ERR_ENFILE: int := 23
  const ERR_EMFILE: int := 24

  type Byte = x: int | 0 <= x < 256
  type Pid = nat

  datatype Kind = File | Devev | PipeEnd | Tty | SocketEnd

  /** One slot of a descriptor table; `fsFd` is a pipe index or socket id, `isWrite` the pipe end. */
  datatype Fd = Fd(used: bool, kind: Kind, fsFd: int, isWrite: bool)
  const CLOSED: Fd := Fd(false, File, 0, false)

  type Table = t: seq<Fd> | |t| == 32 witness seq(32, _ => CLOSED)

  function NoFds(): (t: Table)
    ensures forall i :: 0 <= i < 32 ==> t[i] == CLOSED
  {
    seq(32, _ => CLOSED)
  }

  /** A pooled pipe. `sent` and `got` are the bytes accepted and delivered in its current lifetime. */
  datatype Pipe = Pipe(used: bool, readers: nat, writers: nat, sent: seq<Byte>, got: seq<Byte>)

  datatype SocketState = Init | Bound | Listening | ConnectPending | Connected
  datatype Socket = Socket(used: bool, refs: nat, state: SocketState, pending: nat)
  const NO_SOCKET: Socket := Socket(false, 0, Init, 0)

  datatype State = State(tables: map<Pid, Table>, pipes: seq<Pipe>, sockets: seq<Socket>, err: int)

  // ---------------------------------------------------------------------------
  // What descriptors name, and how often
  // ---------------------------------------------------------------------------

  datatype Name = Nothing | ReadEnd(pipe: nat) | WriteEnd(pipe: nat) | Sock(id: nat)

  function NameOf(fd: Fd): Name {
    if !fd.used || fd.fsFd < 0 then Nothing
    else match fd.kind
      case PipeEnd => if fd.isWrite then WriteEnd(fd.fsFd) else ReadEnd(fd.fsFd)
      case SocketEnd => Sock(fd.fsFd)
      case _ => Nothing
  }

  /** Every open descriptor, of any process, that names `n`. */
  ghost function Handles(tables: map<Pid, Table>, n: Name): set<(Pid, nat)> {
    set pid, i: nat | pid in tables && i < MAX_OPEN && NameOf(tables[pid][i]) == n :: (pid, i)
  }

  ghost predicate Pools(s: State) { |s.pipes| == MAX_PIPES && |s.sockets| == MAX_SOCKETS }

  ghost predicate Live(s: State, n: Name)
    requires Pools(s)
  {
    match n
    case Nothing => true
    case ReadEnd(p) => p < MAX_PIPES && s.pipes[p].used
    case WriteEnd(p) => p < MAX_PIPES && s.pipes[p].used
    case Sock(id) => id < MAX_SOCKETS && s.sockets[id].used
  }

  ghost function Refs(s: State, n: Name): nat
    requires Pools(s) && Live(s, n)
  {
    match n
    case Nothing => 0
    case ReadEnd(p) => s.pipes[p].readers
    case WriteEnd(p) => s.pipes[p].writers
    case Sock(id) => s.sockets[id].refs
  }

  /** Each count is the number of open descriptors, over all processes, that name the thing;
      a free pipe or socket is named by none. */
  ghost predicate Counted(s: State) {
    Pools(s) && forall n :: CountedAt(s, n)
  }

  ghost predicate CountedAt(s: State, n: Name)
    requires Pools(s)
  {
    n == Nothing || if Live(s, n) then Refs(s, n) == |Handles(s.tables, n)| else Handles(s.tables, n) == {}
  }

  /** What a pipe has delivered is a prefix of what it accepted, at most one buffer behind. */
  predicate Flows(p: Pipe) { p.got <= p.sent && |p.sent| - |p.got| <= PIPE_BUF }

  ghost predicate AllFlow(s: State) { forall p :: 0 <= p < |s.pipes| ==> Flows(s.pipes[p]) }

  /** Bytes flow in order within one lifetime, and a pipe in use has an open end. */
  ghost predicate Streams(s: State) {
    AllFlow(s) && forall p :: 0 <= p < |s.pipes| && s.pipes[p].used ==> s.pipes[p].readers + s.pipes[p].writers > 0
  }

  predicate NamedFd(fd: Fd) { fd.used && (fd.kind.PipeEnd? || fd.kind.SocketEnd?) ==> fd.fsFd >= 0 }

  /** No open descriptor carries a negative pipe index or socket id. */
  ghost predicate Named(s: State) {
    forall pid, i: nat :: pid in s.tables && i < MAX_OPEN ==> NamedFd(s.tables[pid][i])
  }

  ghost predicate Inv(s: State) { Counted(s) && Named(s) && Streams(s) }

  // ---------------------------------------------------------------------------
  // The elementary moves: one more name, one name less
  // ---------------------------------------------------------------------------

  /** socket_add_ref, or the increment of the matching pipe count. */
  function AddRef(s: State, fd: Fd): State {
    match fd.kind
    case PipeEnd =>
      if 0 <= fd.fsFd < |s.pipes| then
        var p := s.pipes[fd.fsFd];
        var q := if fd.isWrite then p.(writers := p.writers + 1) else p.(readers := p.readers + 1);
        s.(pipes := s.pipes[fd.fsFd := q])
      else s
    case SocketEnd =>
      if 0 <= fd.fsFd < |s.sockets| && s.sockets[fd.fsFd].used then
        s.(sockets := s.sockets[fd.fsFd := s.sockets[fd.fsFd].(refs := s.sockets[fd.fsFd].refs + 1)])
      else s
    case _ => s
  }

  /** socket_close: the last reference resets the socket, whatever state it is in. */
  function CloseSocket(k: Socket): Socket {
    if !k.used then k
    else if k.refs > 1 then k.(refs := k.refs - 1)
    else NO_SOCKET
  }

  /** The decrement of the matching pipe count; a pipe with neither end is free. */
  function ClosePipe(p: Pipe, isWrite: bool): Pipe {
    var q := if isWrite then (if p.writers > 0 then p.(writers := p.writers - 1) else p)
             else (if p.readers > 0 then p.(readers := p.readers - 1) else p);
    if q.readers == 0 && q.writers == 0 then q.(used := false) else q
  }

  function DropRef(s: State, fd: Fd): State {
    match fd.kind
    case PipeEnd =>
      if 0 <= fd.fsFd < |s.pipes| then s.(pipes := s.pipes[fd.fsFd := ClosePipe(s.pipes[fd.fsFd], fd.isWrite)]) else s
    case SocketEnd =>
      if 0 <= fd.fsFd < |s.sockets| then s.(sockets := s.sockets[fd.fsFd := CloseSocket(s.sockets[fd.fsFd])]) else s
    case _ => s
  }

  function SetFd(s: State, pid: Pid, i: nat, fd: Fd): State
    requires pid in s.tables && i < MAX_OPEN
  {
    s.(tables := s.tables[pid := s.tables[pid][i := fd]])
  }

  lemma HandlesAfterSet(s: State, pid: Pid, i: nat, fd: Fd, n: Name)
    requires pid in s.tables && i < MAX_OPEN && n != Nothing
    ensures var h := Handles(s.tables, n); var h' := Handles(SetFd(s, pid, i, fd).tables, n);
            && h' == (if NameOf(fd) == n then h + {(pid, i)} else h - {(pid, i)})
            && (NameOf(s.tables[pid][i]) == n <==> (pid, i) in h)
  {
  }

  lemma AddRefEffect(s: State, fd: Fd, n: Name)
    requires Pools(s) && fd.used && Live(s, NameOf(fd)) && NamedFd(fd)
    ensures var s' := AddRef(s, fd);
            && Pools(s') && s'.tables == s.tables && Live(s', n) == Live(s, n)
            && (n != Nothing && Live(s, n) ==> Refs(s', n) == Refs(s, n) + if NameOf(fd) == n then 1 else 0)
  {
  }

  lemma LinkCountedAt(s: State, pid: Pid, i: nat, fd: Fd, n: Name)
    requires Counted(s) && pid in s.tables && i < MAX_OPEN && NameOf(s.tables[pid][i]) == Nothing
    requires fd.used && Live(s, NameOf(fd)) && NamedFd(fd)
    ensures Pools(AddRef(SetFd(s, pid, i, fd), fd)) && CountedAt(AddRef(SetFd(s, pid, i, fd), fd), n)
  {
    hide AddRef;
    AddRefEffect(SetFd(s, pid, i, fd), fd, n);
    assert CountedAt(s, n);
    if n != Nothing { HandlesAfterSet(s, pid, i, fd, n); }
  }

  /** Filling an unused slot with a name, and counting it. */
  lemma LinkCounted(s: State, pid: Pid, i: nat, fd: Fd)
    requires Counted(s) && pid in s.tables && i < MAX_OPEN && NameOf(s.tables[pid][i]) == Nothing
    requires fd.used && Live(s, NameOf(fd)) && NamedFd(fd)
    ensures Counted(AddRef(SetFd(s, pid, i, fd), fd))
  {
    AddRefEffect(SetFd(s, pid, i, fd), fd, Nothing);
    forall n ensures CountedAt(AddRef(SetFd(s, pid, i, fd), fd), n) {
      LinkCountedAt(s, pid, i, fd, n);
    }
  }

  /** Dropping the reference of an open descriptor: what it names loses one; a pipe or socket
      that goes free had no other name left. */
  lemma DropRefEffect(s: State, fd: Fd, n: Name)
    requires Counted(s) && fd.used && n != Nothing && (NameOf(fd) != Nothing ==> Handles(s.tables, NameOf(fd)) != {})
    ensures var s' := DropRef(s, fd);
            && Pools(s') && s'.tables == s.tables
            && (Live(s', n) ==> Live(s, n) && Refs(s', n) == Refs(s, n) - if NameOf(fd) == n then 1 else 0)
            && (Live(s, n) && !Live(s', n) ==> Refs(s, n) == if NameOf(fd) == n then 1 else 0)
  {
    var a := NameOf(fd);
    assert CountedAt(s, a) && CountedAt(s, n);
    match a
    case ReadEnd(p) => assert CountedAt(s, WriteEnd(p));
    case WriteEnd(p) => assert CountedAt(s, ReadEnd(p));
    case _ =>
  }

  /** Closing a slot, and uncounting what it named. */
  lemma UnlinkCounted(s: State, pid: Pid, i: nat)
    requires Counted(s) && pid in s.tables && i < MAX_OPEN && s.tables[pid][i].used
    ensures Counted(SetFd(DropRef(s, s.tables[pid][i]), pid, i, s.tables[pid][i].(used := false)))
  {
    var fd := s.tables[pid][i];
    var s1 := DropRef(s, fd);
    if NameOf(fd) != Nothing { assert (pid, i) in Handles(s.tables, NameOf(fd)); }
    DropRefEffect(s, fd, Sock(0));
    forall n ensures CountedAt(SetFd(s1, pid, i, fd.(used := false)), n) {
      if n != Nothing {
        assert CountedAt(s, n);
        DropRefEffect(s, fd, n);
        HandlesAfterSet(s1, pid, i, fd.(used := false), n);
      }
    }
  }

  // ---------------------------------------------------------------------------
  // The operations
  // ---------------------------------------------------------------------------

  /** Lowest unused slot from `i` on, or -1. */
  function LowestFree(t: Table, i: nat): (fd: int)
    requires i <= MAX_OPEN
    ensures fd == -1 || i <= fd < MAX_OPEN
    ensures fd == -1 ==> forall k :: i <= k < MAX_OPEN ==> t[k].used
    ensures fd != -1 ==> !t[fd].used && forall k :: i <= k < fd ==> t[k].used
    decreases MAX_OPEN - i
  {
    if i == MAX_OPEN then -1 else if !t[i].used then i else LowestFree(t, i + 1)
  }

  /** vfs_alloc_fd: 0, 1 and 2 are never handed out. */
  function AllocFd(t: Table): (fd: int)
    ensures fd == -1 || (3 <= fd < MAX_OPEN && !t[fd].used && forall k :: 3 <= k < fd ==> t[k].used)
    ensures fd == -1 ==> forall k :: 3 <= k < MAX_OPEN ==> t[k].used
  {
    LowestFree(t, 3)
  }

  predicate IsOpen(s: State, pid: Pid, fd: int) {
    pid in s.tables && 0 <= fd < MAX_OPEN && s.tables[pid][fd].used
  }

  function Fail(s: State, err: int): (State, int) { (s.(err := err), -1) }

  function Link(s: State, pid: Pid, i: nat, fd: Fd): State
    requires pid in s.tables && i < MAX_OPEN
  {
    AddRef(SetFd(s, pid, i, fd), fd)
  }

  function Unlink(s: State, pid: Pid, i: nat): State
    requires pid in s.tables && i < MAX_OPEN
  {
    SetFd(DropRef(s, s.tables[pid][i]), pid, i, s.tables[pid][i].(used := false))
  }

  function Close(s: State, pid: Pid, fd: int): (State, int)
    requires pid in s.tables
  {
    if IsOpen(s, pid, fd) then (Unlink(s, pid, fd), 0) else (s, -1)
  }

  function Dup(s: State, pid: Pid, oldFd: int): (State, int)
    requires pid in s.tables
  {
    if !IsOpen(s, pid, oldFd) then Fail(s, ERR_EBADF) else
    var newFd := AllocFd(s.tables[pid]);
    if newFd < 0 then Fail(s, ERR_EMFILE)
    else (Link(s, pid, newFd, s.tables[pid][oldFd]).(err := ERR_NONE), newFd)
  }

  function Dup2(s: State, pid: Pid, oldFd: int, newFd: int): (State, int)
    requires pid in s.tables
  {
    if !IsOpen(s, pid, oldFd) || newFd < 0 || newFd >= MAX_OPEN then Fail(s, ERR_EBADF)
    else if oldFd == newFd then (s, newFd)
    else
      var s1 := Close(s, pid, newFd).0;
      (Link(s1, pid, newFd, s1.tables[pid][oldFd]).(err := ERR_NONE), newFd)
  }

  function DupAbove(s: State, pid: Pid, oldFd: int, minFd: int): (State, int)
    requires pid in s.tables
  {
    if !IsOpen(s, pid, oldFd) then Fail(s, ERR_EBADF)
    else if minFd < 0 || minFd >= MAX_OPEN then Fail(s, ERR_EMFILE)
    else
      var newFd := LowestFree(s.tables[pid], minFd);
      if newFd < 0 then Fail(s, ERR_EMFILE)
      else (Link(s, pid, newFd, s.tables[pid][oldFd]).(err := ERR_NONE), newFd)
  }

  /** Lowest pipe slot not in use, or -1. */
  function FreePipe(ps: seq<Pipe>, i: nat): (p: int)
    requires i <= |ps|
    ensures p == -1 || (i <= p < |ps| && !ps[p].used)
    ensures p == -1 ==> forall k :: i <= k < |ps| ==> ps[k].used
    ensures p != -1 ==> forall k :: i <= k < p ==> ps[k].used
    decreases |ps| - i
  {
    if i == |ps| then -1 else if !ps[i].used then i else FreePipe(ps, i + 1)
  }

  function OpenPipe(s: State, pid: Pid): (State, int, int)
    requires pid in s.tables
  {
    var p := FreePipe(s.pipes, 0);
    if p < 0 then (s.(err := ERR_ENFILE), -1, -1) else
    var t := s.tables[pid];
    var rfd := AllocFd(t);
    var wfd := if rfd < 0 then -1 else AllocFd(t[rfd := t[rfd].(used := true)]);
    if wfd < 0 then (s.(err := ERR_EMFILE, pipes := s.pipes[p := Pipe(false, 0, 0, [], [])]), -1, -1)
    else
      (s.(err := ERR_NONE,
          tables := s.tables[pid := t[rfd := Fd(true, PipeEnd, p, false)][wfd := Fd(true, PipeEnd, p, true)]],
          pipes := s.pipes[p := Pipe(true, 1, 1, [], [])]), rfd, wfd)
  }

  /** vfs_devev_open and the file and tty paths of vfs_open, once the backend handle is in hand. */
  function OpenPlain(s: State, pid: Pid, kind: Kind, handle: int): (State, int)
    requires pid in s.tables && !kind.PipeEnd? && !kind.SocketEnd?
  {
    var fd := AllocFd(s.tables[pid]);
    if fd < 0 then Fail(s, ERR_EMFILE)
    else (SetFd(s, pid, fd, s.tables[pid][fd].(used := true, kind := kind, fsFd := handle)).(err := ERR_NONE), fd)
  }

  function FreeSocket(ks: seq<Socket>, i: nat): (k: int)
    requires i <= |ks|
    ensures k == -1 || (i <= k < |ks| && !ks[k].used)
    ensures k == -1 ==> forall j :: i <= j < |ks| ==> ks[j].used
    decreases |ks| - i
  {
    if i == |ks| then -1 else if !ks[i].used then i else FreeSocket(ks, i + 1)
  }

  /** vfs_socket_open: the descriptor is found first, then the reference is taken. */
  function SocketOpen(s: State, pid: Pid, id: int): (State, int)
    requires pid in s.tables
  {
    var fd := AllocFd(s.tables[pid]);
    if fd < 0 then Fail(s, ERR_EMFILE)
    else if !(0 <= id < |s.sockets| && s.sockets[id].used) then Fail(s, ERR_EBADF)
    else (Link(s, pid, fd, Fd(true, SocketEnd, id, false)).(err := ERR_NONE), fd)
  }

  /** The socket and accept system calls: take a socket slot, attach it to a descriptor, and give
      the slot back if there is none. `made` says whether the protocol backend agreed. */
  function NewSocket(s: State, pid: Pid, state: SocketState, made: bool): (State, int)
    requires pid in s.tables
  {
    var id := FreeSocket(s.sockets, 0);
    if id < 0 then (s, -1)
    else if !made then (s.(sockets := s.sockets[id := NO_SOCKET]), -1)
    else
      var (s1, fd) := SocketOpen(s.(sockets := s.sockets[id := Socket(true, 0, state, 0)]), pid, id);
      if fd < 0 then (s1.(sockets := s1.sockets[id := CloseSocket(s1.sockets[id])]), -1) else (s1, fd)
  }

  /** bind, listen, connect and accept move an open socket between states and queue lengths. */
  function SocketWork(s: State, id: int, state: SocketState, pending: nat): State {
    if 0 <= id < |s.sockets| && s.sockets[id].used then
      s.(sockets := s.sockets[id := s.sockets[id].(state := state, pending := pending)])
    else s
  }

  /** A process starts with every descriptor closed. */
  function NewProcess(s: State, pid: Pid): State { s.(tables := s.tables[pid := NoFds()]) }

  function DropProcess(s: State, pid: Pid): State { s.(tables := s.tables - {pid}) }

  function AddRefs(s: State, t: Table, k: nat): State
    requires k <= MAX_OPEN
  {
    if k == 0 then s
    else
      var s1 := AddRefs(s, t, k - 1);
      if t[k - 1].used then AddRef(s1, t[k - 1]) else s1
  }

  /** vfs_inherit_fd_table: the child gets a copy of the whole table, then every entry is counted. */
  function Inherit(s: State, parent: Pid, child: Pid): State
    requires parent in s.tables
  {
    AddRefs(s.(tables := s.tables[child := s.tables[parent]]), s.tables[parent], MAX_OPEN)
  }

  /** vfs_close_all_fds_for_process, up to slot k. */
  function CloseAll(s: State, pid: Pid, k: nat): (s': State)
    requires pid in s.tables && k <= MAX_OPEN
    ensures s'.tables.Keys == s.tables.Keys
    ensures forall i :: k <= i < MAX_OPEN ==> s'.tables[pid][i] == s.tables[pid][i]
  {
    if k == 0 then s
    else
      var s1 := CloseAll(s, pid, k - 1);
      if s1.tables[pid][k - 1].used then Unlink(s1, pid, k - 1) else s1
  }

  datatype IoResult = Error | Again | Delegated | Data(bytes: seq<Byte>) | Wrote(n: nat)

  function Min(a: nat, b: nat): nat { if a < b then a else b }

  function Queue(p: Pipe): seq<Byte>
    requires |p.got| <= |p.sent|
  {
    p.sent[|p.got|..]
  }

  /** The pipe branch of vfs_read. */
  function Read(s: State, pid: Pid, fd: int, len: nat): (State, IoResult)
    requires pid in s.tables && AllFlow(s)
  {
    if !IsOpen(s, pid, fd) then (s, Error)
    else if !s.tables[pid][fd].kind.PipeEnd? then (s, Delegated)
    else
      var idx := s.tables[pid][fd].fsFd;
      if idx < 0 || idx >= |s.pipes| then (s, Error) else
      var p := s.pipes[idx];
      var n := Min(|Queue(p)|, len);
      if n == 0 then (s, if p.writers == 0 then Data([]) else Again)
      else (s.(pipes := s.pipes[idx := p.(got := p.got + Queue(p)[..n])]), Data(Queue(p)[..n]))
  }

  /** The pipe branch of vfs_write: as much as fits. */
  function Write(s: State, pid: Pid, fd: int, buf: seq<Byte>): (State, IoResult)
    requires pid in s.tables && AllFlow(s)
  {
    if !IsOpen(s, pid, fd) then (s, Error)
    else if !s.tables[pid][fd].kind.PipeEnd? then (s, Delegated)
    else
      var idx := s.tables[pid][fd].fsFd;
      if idx < 0 || idx >= |s.pipes| then (s, Error) else
      var p := s.pipes[idx];
      var n := Min(|buf|, PIPE_BUF - |Queue(p)|);
      (s.(pipes := s.pipes[idx := p.(sent := p.sent + buf[..n])]), Wrote(n))
  }
}
