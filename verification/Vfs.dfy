/** fs/vfs.c as it runs: per-process tables, ring buffers, and the loops that copy and close. */
module Vfs {
  import opened FdModel
  import opened FdSafety

  /** One slot of pipe_pool: a 4096-byte ring and its counts. `sent` and `got` record the lifetime. */
  class PipeSlot {
    const buf: array<Byte>
    var used: bool
    var readPos: nat
    var writePos: nat
    var count: nat
    var readers: nat
    var writers: nat
    ghost var sent: seq<Byte>
    ghost var got: seq<Byte>

    ghost predicate Valid()
      reads this, buf
    {
      && buf.Length == 4096 && readPos < 4096 && count <= 4096
      && writePos == RingIndex(readPos, count)
      && got <= sent && |sent| == |got| + count
      && Rings(buf[..], readPos, sent[|got|..])
    }

    ghost function View(): Pipe
      reads this
    {
      Pipe(used, readers, writers, sent, got)
    }

    constructor ()
      ensures Valid() && fresh(buf) && View() == Pipe(false, 0, 0, [], [])
    {
      buf := new Byte[4096](_ => 0);
      used, readPos, writePos, count, readers, writers := false, 0, 0, 0, 0, 0;
      sent, got := [], [];
    }

    /** The reset half of vfs_pipe_alloc: the bytes left in the buffer are out of reach. */
    method Reset()
      requires Valid()
      modifies this
      ensures Valid() && View() == Pipe(true, 0, 0, [], [])
    {
      readPos, writePos, count, readers, writers, used := 0, 0, 0, 0, 0, true;
      sent, got := [], [];
    }

    /** The ring half of vfs_write: as many bytes as fit. */
    method Push(data: seq<Byte>) returns (n: nat)
      requires Valid()
      modifies this, buf
      ensures Valid() && n == Min(|data|, PIPE_BUF - old(count))
      ensures View() == old(View()).(sent := old(sent) + data[..n])
    {
      var space := 4096 - count;
      n := if |data| < space then |data| else space;
      var i := 0;
      while i < n
        invariant i <= n && n + old(count) <= 4096
        invariant used == old(used) && readers == old(readers) && writers == old(writers)
        invariant readPos == old(readPos) && count == old(count) && got == old(got)
        invariant writePos == RingIndex(readPos, count + i)
        invariant sent == old(sent) + data[..i]
        invariant |sent| == |got| + count + i && Rings(buf[..], readPos, sent[|got|..])
      {
        ghost var was := buf[..];
        RingStore(was, readPos, sent[|got|..], data[i]);
        RingShift(readPos, count + i, 1);
        buf[writePos] := data[i];
        assert buf[..] == was[writePos := data[i]];
        assert (sent + [data[i]])[|got|..] == sent[|got|..] + [data[i]];
        writePos := (writePos + 1) % 4096;
        sent := sent + [data[i]];
        i := i + 1;
      }
      count := count + n;
    }

    /** The ring half of vfs_read. */
    method Pull(len: nat) returns (data: seq<Byte>)
      requires Valid()
      modifies this
      ensures Valid() && data == old(sent)[|old(got)|..|old(got)| + Min(old(count), len)]
      ensures View() == old(View()).(got := old(got) + data)
    {
      hide Rings, RingIndex;
      var n := if count < len then count else len;
      RingShift(readPos, 0, 0);
      var i := 0;
      data := [];
      while i < n
        invariant i <= n <= count && |data| == i
        invariant used == old(used) && readers == old(readers) && writers == old(writers)
        invariant count == old(count) && writePos == old(writePos) && sent == old(sent) && got == old(got)
        invariant readPos == RingIndex(old(readPos), i)
        invariant data == sent[|got|..][..i]
      {
        RingRead(buf[..], old(readPos), sent[|got|..], i);
        RingShift(old(readPos), i, 1);
        data := data + [buf[readPos]];
        readPos := (readPos + 1) % 4096;
        i := i + 1;
      }
      count := count - n;
      got := got + data;
      RingDrop(buf[..], old(readPos), sent[|old(got)|..], n);
      RingShift(old(readPos), n, count);
      PulledPrefix(sent, old(got), n);
      assert Rings(buf[..], readPos, sent[|got|..]);
    }

    /** One more open end. */
    method AddEnd(isWrite: bool)
      requires Valid()
      modifies this`readers, this`writers
      ensures Valid()
      ensures View() ==
              if isWrite then old(View()).(writers := old(writers) + 1)
              else old(View()).(readers := old(readers) + 1)
    {
      if isWrite { writers := writers + 1; } else { readers := readers + 1; }
    }

    /** One open end less; with none left the slot is free. */
    method DropEnd(isWrite: bool)
      requires Valid()
      modifies this`readers, this`writers, this`used
      ensures Valid() && View() == ClosePipe(old(View()), isWrite)
    {
      if isWrite {
        if writers > 0 { writers := writers - 1; }
      } else {
        if readers > 0 { readers := readers - 1; }
      }
      if readers == 0 && writers == 0 { used := false; }
    }
  }

  /** Slot of the k-th byte counted from `start`. */
  ghost function RingIndex(start: nat, k: nat): nat { (start + k) % 4096 }

  /** From `start` on, the buffer holds `q`. */
  ghost predicate Rings(b: seq<Byte>, start: nat, q: seq<Byte>) {
    |b| == 4096 && |q| <= 4096 && forall k :: 0 <= k < |q| ==> b[RingIndex(start, k)] == q[k]
  }

  lemma RingStore(b: seq<Byte>, start: nat, q: seq<Byte>, x: Byte)
    requires Rings(b, start, q) && start < 4096 && |q| < 4096
    ensures Rings(b[RingIndex(start, |q|) := x], start, q + [x])
  {
  }

  lemma RingRead(b: seq<Byte>, start: nat, q: seq<Byte>, k: nat)
    requires Rings(b, start, q) && k < |q|
    ensures |b| == 4096 && RingIndex(start, k) < 4096 && b[RingIndex(start, k)] == q[k]
  {
    assert b[RingIndex(start, k)] == q[k];
  }

  lemma PulledPrefix(sent: seq<Byte>, got: seq<Byte>, n: nat)
    requires got <= sent && |got| + n <= |sent|
    ensures got + sent[|got|..][..n] == sent[..|got| + n] <= sent
    ensures sent[|got|..][n..] == sent[|got| + n..] && sent[|got|..][..n] == sent[|got|..|got| + n]
  {
  }

  lemma RingDrop(b: seq<Byte>, start: nat, q: seq<Byte>, n: nat)
    requires Rings(b, start, q) && start < 4096 && n <= |q|
    ensures Rings(b, RingIndex(start, n), q[n..])
  {
    forall k | 0 <= k < |q| - n ensures b[RingIndex(RingIndex(start, n), k)] == q[n..][k] {
      assert b[RingIndex(start, n + k)] == q[n + k];
    }
  }

  lemma RingShift(start: nat, n: nat, k: nat)
    requires start < 4096
    ensures RingIndex(RingIndex(start, n), k) == RingIndex(start, n + k) && RingIndex(start, n) < 4096
    ensures RingIndex(start, 0) == start && (RingIndex(start, n) + 1) % 4096 == RingIndex(start, n + 1)
  {
  }

  class Vfs {
    const pipes: seq<PipeSlot>
    var sockets: seq<Socket>
    var tables: map<Pid, Table>
    var err: int

    ghost function Bufs(): set<array<Byte>> { set p | p in pipes :: p.buf }

    ghost predicate Shape()
      reads this, pipes, Bufs()
    {
      && |pipes| == MAX_PIPES && |sockets| == MAX_SOCKETS
      && (forall i, j :: 0 <= i < j < MAX_PIPES ==> pipes[i] != pipes[j] && pipes[i].buf != pipes[j].buf)
      && (forall i :: 0 <= i < MAX_PIPES ==> pipes[i].Valid())
    }

    ghost function Pool(): (ps: seq<Pipe>)
      reads pipes
      ensures |ps| == |pipes| && forall i :: 0 <= i < |pipes| ==> ps[i] == pipes[i].View()
    {
      seq(|pipes|, i requires 0 <= i < |pipes| reads pipes => pipes[i].View())
    }

    ghost function S(): State
      reads this, pipes
    {
      State(tables, Pool(), sockets, err)
    }

    /** Counted, named and flowing: see FdModel. */
    ghost predicate Valid()
      reads this, pipes, Bufs()
    {
      Shape() && Inv(S())
    }

    /** vfs_init and socket_init. */
    constructor ()
      ensures Valid() && S() == Empty() && fresh(pipes) && fresh(Bufs())
    {
      var ps: seq<PipeSlot> := [];
      while |ps| < 8
        invariant |ps| <= 8 && fresh(ps) && (forall p :: p in ps ==> fresh(p.buf))
        invariant forall i, j :: 0 <= i < j < |ps| ==> ps[i] != ps[j] && ps[i].buf != ps[j].buf
        invariant forall i :: 0 <= i < |ps| ==> ps[i].Valid() && ps[i].View() == Pipe(false, 0, 0, [], [])
      {
        var p := new PipeSlot();
        ps := ps + [p];
      }
      pipes := ps;
      sockets := seq(16, _ => NO_SOCKET);
      tables := map[];
      err := ERR_NONE;
      new;
      EmptyInv();
      assert Pool() == Empty().pipes;
      assert sockets == Empty().sockets;
    }

    /** vfs_set_last_error. */
    method SetError(e: int)
      requires Shape()
      modifies this`err
      ensures Shape() && S() == old(S()).(err := e)
    {
      err := e;
    }

    /** Storing one descriptor. */
    method StoreFd(pid: Pid, i: nat, fd: Fd)
      requires Shape() && pid in tables && i < 32
      modifies this`tables
      ensures Shape() && S() == SetFd(old(S()), pid, i, fd)
    {
      tables := tables[pid := tables[pid][i := fd]];
    }

    /** vfs_alloc_fd on the table of one process. */
    method AllocFdIn(pid: Pid) returns (fd: int)
      requires Shape() && pid in tables
      modifies this`err
      ensures Shape() && fd == AllocFd(tables[pid])
      ensures S() == old(S()).(err := if fd < 0 then ERR_EMFILE else ERR_NONE)
    {
      var t := tables[pid];
      fd := 3;
      while fd < 32
        invariant 3 <= fd <= 32 && LowestFree(t, 3) == LowestFree(t, fd)
      {
        if !t[fd].used {
          SetError(ERR_NONE);
          return;
        }
        fd := fd + 1;
      }
      SetError(ERR_EMFILE);
      fd := -1;
    }

    /** Counts one more name for what `fd` names. */
    method TakeRef(fd: Fd)
      requires Shape()
      modifies this`sockets, pipes
      ensures Shape() && S() == AddRef(old(S()), fd)
    {
      if fd.kind.PipeEnd? {
        if 0 <= fd.fsFd < MAX_PIPES {
          pipes[fd.fsFd].AddEnd(fd.isWrite);
        }
      } else if fd.kind.SocketEnd? {
        if 0 <= fd.fsFd < MAX_SOCKETS && sockets[fd.fsFd].used {
          sockets := sockets[fd.fsFd := sockets[fd.fsFd].(refs := sockets[fd.fsFd].refs + 1)];
        }
      }
      assert S().pipes == AddRef(old(S()), fd).pipes;
    }

    /** Counts one name less. */
    method GiveRef(fd: Fd)
      requires Shape()
      modifies this`sockets, pipes
      ensures Shape() && S() == DropRef(old(S()), fd)
    {
      if fd.kind.SocketEnd? {
        if 0 <= fd.fsFd < MAX_SOCKETS {
          sockets := sockets[fd.fsFd := CloseSocket(sockets[fd.fsFd])];
        }
      } else if fd.kind.PipeEnd? {
        if 0 <= fd.fsFd < MAX_PIPES {
          pipes[fd.fsFd].DropEnd(fd.isWrite);
        }
      }
      assert S().pipes == DropRef(old(S()), fd).pipes;
    }

    /** vfs_close. */
    method Close(pid: Pid, fd: int) returns (r: int)
      requires Valid() && pid in tables
      modifies this`sockets, this`tables, pipes
      ensures Valid() && (S(), r) == FdModel.Close(old(S()), pid, fd)
      ensures tables.Keys == old(tables.Keys)
    {
      hide Inv;
      CloseInv(S(), pid, fd);
      if fd < 0 || fd >= 32 || !tables[pid][fd].used { return -1; }
      GiveRef(tables[pid][fd]);
      StoreFd(pid, fd, tables[pid][fd].(used := false));
      r := 0;
    }

    /** Copying one slot over another, and counting the copy. */
    method CopyFd(pid: Pid, from: nat, to: nat)
      requires Shape() && pid in tables && from < 32 && to < 32
      modifies this`sockets, this`tables, pipes
      ensures Shape() && S() == Link(old(S()), pid, to, old(tables)[pid][from])
    {
      var fd := tables[pid][from];
      StoreFd(pid, to, fd);
      TakeRef(fd);
    }

    /** vfs_dup. */
    method Dup(pid: Pid, oldFd: int) returns (newFd: int)
      requires Valid() && pid in tables
      modifies this`sockets, this`tables, this`err, pipes
      ensures Valid() && (S(), newFd) == FdModel.Dup(old(S()), pid, oldFd)
    {
      hide Inv, Shape, Link;
      if 0 <= oldFd < 32 { LinkErr(S(), pid, oldFd); }
      DupOpInv(S(), pid, oldFd);
      if oldFd < 0 || oldFd >= 32 || !tables[pid][oldFd].used {
        SetError(ERR_EBADF);
        return -1;
      }
      newFd := AllocFdIn(pid);
      if newFd < 0 { return -1; }
      CopyFd(pid, oldFd, newFd);
      SetError(ERR_NONE);
    }

    /** vfs_dup2: closes what was open at the target first. */
    method Dup2(pid: Pid, oldFd: int, newFd: int) returns (r: int)
      requires Valid() && pid in tables
      modifies this`sockets, this`tables, this`err, pipes
      ensures Valid() && (S(), r) == FdModel.Dup2(old(S()), pid, oldFd, newFd)
    {
      hide Inv, Shape;
      Dup2Inv(S(), pid, oldFd, newFd);
      if oldFd < 0 || oldFd >= 32 || !tables[pid][oldFd].used || newFd < 0 || newFd >= 32 {
        SetError(ERR_EBADF);
        return -1;
      }
      if oldFd == newFd { return newFd; }
      if tables[pid][newFd].used { var _ := Close(pid, newFd); }
      CopyFd(pid, oldFd, newFd);
      SetError(ERR_NONE);
      r := newFd;
    }

    /** vfs_dup_above: the lowest free descriptor from `minFd` on. */
    method DupAbove(pid: Pid, oldFd: int, minFd: int) returns (newFd: int)
      requires Valid() && pid in tables
      modifies this`sockets, this`tables, this`err, pipes
      ensures Valid() && (S(), newFd) == FdModel.DupAbove(old(S()), pid, oldFd, minFd)
    {
      hide Inv, Shape;
      DupAboveInv(S(), pid, oldFd, minFd);
      if oldFd < 0 || oldFd >= 32 || !tables[pid][oldFd].used {
        SetError(ERR_EBADF);
        return -1;
      }
      if minFd < 0 || minFd >= 32 {
        SetError(ERR_EMFILE);
        return -1;
      }
      newFd := minFd;
      while newFd < 32
        invariant minFd <= newFd <= 32 && Shape() && S() == old(S())
        invariant LowestFree(tables[pid], minFd) == LowestFree(tables[pid], newFd)
      {
        if !tables[pid][newFd].used {
          CopyFd(pid, oldFd, newFd);
          SetError(ERR_NONE);
          return;
        }
        newFd := newFd + 1;
      }
      SetError(ERR_EMFILE);
      newFd := -1;
    }

    /** vfs_devev_open, and the end of vfs_open for a file or terminal whose handle is in hand. */
    method OpenPlain(pid: Pid, kind: Kind, handle: int) returns (fd: int)
      requires Valid() && pid in tables && !kind.PipeEnd? && !kind.SocketEnd?
      modifies this`tables, this`err
      ensures Valid() && (S(), fd) == FdModel.OpenPlain(old(S()), pid, kind, handle)
    {
      hide Inv, Shape;
      OpenPlainInv(S(), pid, kind, handle);
      fd := AllocFdIn(pid);
      if fd < 0 { return -1; }
      StoreFd(pid, fd, tables[pid][fd].(used := true, kind := kind, fsFd := handle));
    }

    /** vfs_pipe_alloc. */
    method PipeAlloc() returns (p: int)
      requires Shape()
      modifies pipes
      ensures Shape() && p == FreePipe(old(S()).pipes, 0)
      ensures p < 0 ==> S() == old(S())
      ensures p >= 0 ==> S() == old(S()).(pipes := old(S()).pipes[p := Pipe(true, 0, 0, [], [])])
    {
      p := 0;
      while p < 8
        invariant 0 <= p <= 8 && Shape() && S() == old(S())
        invariant FreePipe(S().pipes, 0) == FreePipe(S().pipes, p)
      {
        if !pipes[p].used {
          pipes[p].Reset();
          assert S().pipes == old(S()).pipes[p := Pipe(true, 0, 0, [], [])];
          return;
        }
        p := p + 1;
      }
      p := -1;
    }

    /** Reference counts of a pool slot, written directly. */
    method SetPipe(p: nat, used: bool, ends: nat)
      requires Shape() && p < 8
      modifies pipes
      ensures Shape()
      ensures var was := old(S());
              S() == was.(pipes := was.pipes[p := was.pipes[p].(used := used, readers := ends, writers := ends)])
    {
      pipes[p].used, pipes[p].readers, pipes[p].writers := used, ends, ends;
      assert S().pipes == old(S()).pipes[p := old(S()).pipes[p].(used := used, readers := ends, writers := ends)];
    }

    /** vfs_pipe: the read descriptor is marked used while the write descriptor is looked for, and
        everything is undone when there is none. */
    method OpenPipe(pid: Pid) returns (rfd: int, wfd: int)
      requires Valid() && pid in tables
      modifies this`tables, this`err, pipes
      ensures Valid() && (S(), rfd, wfd) == FdModel.OpenPipe(old(S()), pid)
    {
      hide Inv, Shape, SetFd, AllocFd, Hung;
      OpenPipeInv(S(), pid);
      SetError(ERR_NONE);
      var p := PipeAlloc();
      if p < 0 {
        SetError(ERR_ENFILE);
        return -1, -1;
      }
      rfd, wfd := TwoFds(pid);
      if wfd < 0 {
        SetPipe(p, false, 0);
        StoredTwice(old(S()).pipes, p, Pipe(true, 0, 0, [], []), Pipe(false, 0, 0, [], []));
        return -1, -1;
      }
      HangPipe(pid, p, rfd, wfd);
      PipeOpened(old(S()), pid, p, rfd, wfd);
    }

    /** The end of vfs_pipe: both descriptors name the pipe, and each end is counted once. */
    method HangPipe(pid: Pid, p: nat, rfd: nat, wfd: nat)
      requires Shape() && pid in tables && p < 8 && rfd < 32 && wfd < 32
      modifies this`tables, this`err, pipes
      ensures Shape() && S() == Hung(old(S()), pid, p, rfd, wfd)
    {
      hide Shape;
      StoreFd(pid, rfd, Fd(true, PipeEnd, p, false));
      StoreFd(pid, wfd, Fd(true, PipeEnd, p, true));
      SetPipe(p, true, 1);
      SetError(ERR_NONE);
    }

    /** The middle of vfs_pipe: two free descriptors, the first left marked used, or neither. */
    method TwoFds(pid: Pid) returns (rfd: int, wfd: int)
      requires Shape() && pid in tables
      modifies this`tables, this`err
      ensures Shape() && pid in tables
      ensures var t := old(tables)[pid];
              && rfd == (if wfd < 0 then -1 else AllocFd(t))
              && wfd == (if AllocFd(t) < 0 then -1 else AllocFd(t[AllocFd(t) := t[AllocFd(t)].(used := true)]))
      ensures S() == if wfd < 0 then old(S()).(err := ERR_EMFILE)
                     else SetFd(old(S()), pid, rfd, old(tables)[pid][rfd].(used := true)).(err := ERR_NONE)
    {
      hide Shape;
      rfd := AllocFdIn(pid);
      if rfd < 0 { return -1, -1; }
      StoreFd(pid, rfd, tables[pid][rfd].(used := true));
      wfd := AllocFdIn(pid);
      if wfd < 0 {
        StoreFd(pid, rfd, tables[pid][rfd].(used := false));
        assert tables[pid] == old(tables)[pid];
        assert tables == old(tables);
        return -1, -1;
      }
    }

    lemma SixteenSockets()
      requires Shape()
      ensures |sockets| == 16
    {
    }

    /** vfs_socket_open. */
    method SocketOpen(pid: Pid, id: int) returns (fd: int)
      requires Shape() && pid in tables
      modifies this`sockets, this`tables, this`err, pipes
      ensures Shape() && (S(), fd) == FdModel.SocketOpen(old(S()), pid, id)
    {
      hide Shape;
      SixteenSockets();
      fd := AllocFdIn(pid);
      if fd < 0 { return -1; }
      if id < 0 || id >= 16 || !sockets[id].used {
        SetError(ERR_EBADF);
        return -1;
      }
      var f := Fd(true, SocketEnd, id, false);
      TakeRef(f);
      StoreFd(pid, fd, f);
    }

    /** The socket system call and the tail of accept. */
    method NewSocket(pid: Pid, state: SocketState, made: bool) returns (fd: int)
      requires Valid() && pid in tables
      modifies this`sockets, this`tables, this`err, pipes
      ensures Valid() && (S(), fd) == FdModel.NewSocket(old(S()), pid, state, made)
    {
      hide Inv;
      NewSocketInv(S(), pid, state, made);
      var id := 0;
      while id < 16 && sockets[id].used
        invariant 0 <= id <= 16 && FreeSocket(sockets, 0) == FreeSocket(sockets, id)
      {
        id := id + 1;
      }
      if id == 16 { return -1; }
      if !made {
        sockets := sockets[id := NO_SOCKET];
        return -1;
      }
      sockets := sockets[id := Socket(true, 0, state, 0)];
      fd := SocketOpen(pid, id);
      if fd < 0 { sockets := sockets[id := CloseSocket(sockets[id])]; }
    }

    /** vfs_inherit_fd_table: copy the whole table, then count every entry of the copy. */
    method Inherit(parent: Pid, child: Pid)
      requires Valid() && parent in tables && child !in tables
      modifies this`sockets, this`tables, pipes
      ensures Valid() && S() == FdModel.Inherit(old(S()), parent, child)
      ensures tables == old(tables)[child := old(tables)[parent]]
    {
      hide Inv;
      InheritInv(S(), parent, child, MAX_OPEN);
      ForkInv(S(), parent, child);
      ghost var s0 := S();
      var t := tables[parent];
      tables := tables[child := t];
      ghost var s1 := S();
      var i := 0;
      while i < 32
        invariant i <= 32 && Shape() && S() == AddRefs(s1, t, i)
      {
        if t[i].used { TakeRef(t[i]); }
        i := i + 1;
      }
    }

    /** vfs_close_all_fds_for_process. */
    method CloseAllFds(pid: Pid)
      requires Valid() && pid in tables
      modifies this`sockets, this`tables, pipes
      ensures Valid() && S() == CloseAll(old(S()), pid, MAX_OPEN)
    {
      hide Inv;
      CloseAllInv(S(), pid, MAX_OPEN);
      var i := 0;
      while i < 32
        invariant i <= 32 && Shape() && pid in tables && S() == CloseAll(old(S()), pid, i)
      {
        var fd := tables[pid][i];
        if fd.used {
          GiveRef(fd);
          StoreFd(pid, i, fd.(used := false));
        }
        i := i + 1;
      }
    }

    /** The pipe branch of vfs_read. */
    method Read(pid: Pid, fd: int, len: nat) returns (r: IoResult)
      requires Valid() && pid in tables
      modifies pipes
      ensures Valid() && (S(), r) == FdModel.Read(old(S()), pid, fd, len)
    {
      hide Inv;
      IoInv(S(), pid, fd, len, []);
      InvFlows(S());
      if fd < 0 || fd >= 32 || !tables[pid][fd].used { return Error; }
      var f := tables[pid][fd];
      if !f.kind.PipeEnd? { return Delegated; }
      if f.fsFd < 0 || f.fsFd >= 8 { return Error; }
      var p := pipes[f.fsFd];
      assert S().pipes[f.fsFd] == p.View();
      if p.count == 0 || len == 0 { return if p.writers == 0 then Data([]) else Again; }
      var data := p.Pull(len);
      assert data == Queue(old(S()).pipes[f.fsFd])[..|data|];
      assert S().pipes == old(S()).pipes[f.fsFd := p.View()];
      r := Data(data);
    }

    /** The pipe branch of vfs_write. */
    method Write(pid: Pid, fd: int, data: seq<Byte>) returns (r: IoResult)
      requires Valid() && pid in tables
      modifies pipes, Bufs()
      ensures Valid() && (S(), r) == FdModel.Write(old(S()), pid, fd, data)
    {
      hide Inv;
      IoInv(S(), pid, fd, 0, data);
      InvFlows(S());
      if fd < 0 || fd >= 32 || !tables[pid][fd].used { return Error; }
      var f := tables[pid][fd];
      if !f.kind.PipeEnd? { return Delegated; }
      if f.fsFd < 0 || f.fsFd >= 8 { return Error; }
      var p := pipes[f.fsFd];
      assert S().pipes[f.fsFd] == p.View();
      var n := p.Push(data);
      assert S().pipes == old(S()).pipes[f.fsFd := p.View()];
      r := Wrote(n);
    }
  }

  lemma LinkErr(s: State, pid: Pid, oldFd: int)
    requires pid in s.tables && 0 <= oldFd < MAX_OPEN
    ensures forall i: nat | i < MAX_OPEN ::
              Link(s.(err := ERR_NONE), pid, i, s.tables[pid][oldFd]).(err := ERR_NONE) ==
              Link(s, pid, i, s.tables[pid][oldFd]).(err := ERR_NONE)
  {
  }

  lemma StoredTwice(ps: seq<Pipe>, p: nat, a: Pipe, b: Pipe)
    requires p < |ps|
    ensures ps[p := a][p := b] == ps[p := b] && ps[p := a][p] == a
  {
  }

  ghost function Hung(s: State, pid: Pid, p: nat, rfd: nat, wfd: nat): State
    requires pid in s.tables && p < |s.pipes| && rfd < MAX_OPEN && wfd < MAX_OPEN
  {
    var s2 := SetFd(SetFd(s, pid, rfd, Fd(true, PipeEnd, p, false)), pid, wfd, Fd(true, PipeEnd, p, true));
    s2.(pipes := s2.pipes[p := s2.pipes[p].(used := true, readers := 1, writers := 1)], err := ERR_NONE)
  }

  /** The stores of vfs_pipe, one after the other, are the pipe that FdModel.OpenPipe makes. */
  lemma PipeOpened(s: State, pid: Pid, p: nat, rfd: nat, wfd: nat)
    requires pid in s.tables && p < |s.pipes| && rfd < MAX_OPEN && wfd < MAX_OPEN && rfd != wfd
    ensures var t := s.tables[pid];
            var fr, fw := Fd(true, PipeEnd, p, false), Fd(true, PipeEnd, p, true);
            var s0 := s.(err := ERR_NONE, pipes := s.pipes[p := Pipe(true, 0, 0, [], [])]);
            var s1 := SetFd(s0, pid, rfd, t[rfd].(used := true)).(err := ERR_NONE);
            Hung(s1, pid, p, rfd, wfd) ==
            s.(err := ERR_NONE, tables := s.tables[pid := t[rfd := fr][wfd := fw]],
               pipes := s.pipes[p := Pipe(true, 1, 1, [], [])])
  {
    var t := s.tables[pid];
    var fr, fw := Fd(true, PipeEnd, p, false), Fd(true, PipeEnd, p, true);
    assert t[rfd := t[rfd].(used := true)][rfd := fr][wfd := fw] == t[rfd := fr][wfd := fw];
    assert s.pipes[p := Pipe(true, 0, 0, [], [])][p := Pipe(true, 1, 1, [], [])] ==
           s.pipes[p := Pipe(true, 1, 1, [], [])];
    assert s.tables[pid := t[rfd := t[rfd].(used := true)]][pid := t[rfd := t[rfd].(used := true)][rfd := fr]]
           [pid := t[rfd := fr][wfd := fw]] == s.tables[pid := t[rfd := fr][wfd := fw]];
  }

  lemma InvFlows(s: State)
    requires Inv(s)
    ensures AllFlow(s)
  {
  }
}
