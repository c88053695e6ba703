/** What each descriptor call promises its caller: which descriptor it hands out, what it names,
    and that no other descriptor of any process is touched. */
module FdCalls {
  import opened FdModel
  import opened FdSafety

  /** Only descriptor `i` of `pid` may differ. */
  ghost predicate OnlyFd(s: State, s': State, pid: Pid, i: int) {
    && s'.tables.Keys == s.tables.Keys
    && forall q, k: nat :: q in s.tables && k < MAX_OPEN && !(q == pid && k == i) ==> s'.tables[q][k] == s.tables[q][k]
  }

  /** No descriptor differs. */
  ghost predicate NoFd(s: State, s': State) { s'.tables == s.tables && s'.sockets == s.sockets }

  /** `fd` is the lowest descriptor from `from` on that was free. */
  ghost predicate LowestFrom(t: Table, from: int, fd: int) {
    0 <= from <= fd < MAX_OPEN && !t[fd].used && forall k :: from <= k < fd ==> t[k].used
  }

  /** No descriptor from `from` on is free. */
  ghost predicate FullFrom(t: Table, from: int) { from >= 0 && forall k :: from <= k < MAX_OPEN ==> t[k].used }

  /** Taking or dropping a reference changes no table. */
  lemma RefsKeepTables(s: State, fd: Fd)
    ensures AddRef(s, fd).tables == s.tables && DropRef(s, fd).tables == s.tables
    ensures AddRef(s, fd).err == s.err && DropRef(s, fd).err == s.err
  {
  }

  /** dup: EBADF for a closed descriptor, EMFILE when none is free; otherwise the lowest free
      descriptor from 3 on now names the same thing. */
  lemma DupDoes(s: State, pid: Pid, oldFd: int)
    requires pid in s.tables
    ensures var (s', r) := Dup(s, pid, oldFd);
            if !IsOpen(s, pid, oldFd) then r == -1 && s'.err == ERR_EBADF && NoFd(s, s')
            else if FullFrom(s.tables[pid], 3) then r == -1 && s'.err == ERR_EMFILE && NoFd(s, s')
            else LowestFrom(s.tables[pid], 3, r) && OnlyFd(s, s', pid, r) && s'.tables[pid][r] == s.tables[pid][oldFd]
                 && s'.err == ERR_NONE
  {
    hide AddRef;
    if IsOpen(s, pid, oldFd) && AllocFd(s.tables[pid]) >= 0 {
      RefsKeepTables(SetFd(s, pid, AllocFd(s.tables[pid]), s.tables[pid][oldFd]), s.tables[pid][oldFd]);
    }
  }

  /** dup2: the target names what the source names, whatever it named before; a descriptor is its
      own copy. */
  lemma Dup2Does(s: State, pid: Pid, oldFd: int, newFd: int)
    requires pid in s.tables
    ensures var (s', r) := Dup2(s, pid, oldFd, newFd);
            if !IsOpen(s, pid, oldFd) || newFd < 0 || newFd >= MAX_OPEN then
              r == -1 && s'.err == ERR_EBADF && NoFd(s, s')
            else r == newFd && OnlyFd(s, s', pid, newFd) && s'.tables[pid][newFd] == s.tables[pid][oldFd]
  {
    hide AddRef, DropRef;
    if IsOpen(s, pid, oldFd) && 0 <= newFd < MAX_OPEN && oldFd != newFd {
      RefsKeepTables(s, s.tables[pid][newFd]);
      var s1 := Close(s, pid, newFd).0;
      RefsKeepTables(SetFd(s1, pid, newFd, s1.tables[pid][oldFd]), s1.tables[pid][oldFd]);
    }
  }

  /** F_DUPFD: like dup, from the given minimum on. */
  lemma DupAboveDoes(s: State, pid: Pid, oldFd: int, minFd: int)
    requires pid in s.tables
    ensures var (s', r) := DupAbove(s, pid, oldFd, minFd);
            if !IsOpen(s, pid, oldFd) then r == -1 && s'.err == ERR_EBADF && NoFd(s, s')
            else if minFd < 0 || minFd >= MAX_OPEN || FullFrom(s.tables[pid], minFd) then
              r == -1 && s'.err == ERR_EMFILE && NoFd(s, s')
            else
              && LowestFrom(s.tables[pid], minFd, r) && OnlyFd(s, s', pid, r)
              && s'.tables[pid][r] == s.tables[pid][oldFd] && s'.err == ERR_NONE
  {
    hide AddRef;
    if IsOpen(s, pid, oldFd) && 0 <= minFd < MAX_OPEN && LowestFree(s.tables[pid], minFd) >= 0 {
      RefsKeepTables(SetFd(s, pid, LowestFree(s.tables[pid], minFd), s.tables[pid][oldFd]), s.tables[pid][oldFd]);
    }
  }

  /** close: -1 for a closed descriptor, which changes nothing; otherwise it is closed. */
  lemma CloseDoes(s: State, pid: Pid, fd: int)
    requires pid in s.tables
    ensures var (s', r) := Close(s, pid, fd);
            if !IsOpen(s, pid, fd) then r == -1 && s' == s
            else r == 0 && OnlyFd(s, s', pid, fd) && !s'.tables[pid][fd].used
  {
    hide DropRef;
    if IsOpen(s, pid, fd) { RefsKeepTables(s, s.tables[pid][fd]); }
  }

  lemma OpenPipeRefused(s: State, pid: Pid)
    requires Inv(s) && pid in s.tables && OpenPipe(s, pid).2 < 0
    ensures || (forall p :: 0 <= p < MAX_PIPES ==> s.pipes[p].used)
            || (forall k, l :: 3 <= k < l < MAX_OPEN ==> s.tables[pid][k].used || s.tables[pid][l].used)
  {
    var t := s.tables[pid];
    var rfd := AllocFd(t);
    if rfd >= 0 {
      assert forall k :: 0 <= k < MAX_OPEN && k != rfd ==> t[rfd := t[rfd].(used := true)][k] == t[k];
    }
  }

  /** A slot that was free is a pipe with one end each, which the two descriptors name. */
  ghost predicate PipeMade(s: State, s': State, p: nat, pid: Pid, rfd: int, wfd: int)
    requires Pools(s) && Pools(s') && p < MAX_PIPES && pid in s'.tables && 0 <= rfd < MAX_OPEN && 0 <= wfd < MAX_OPEN
  {
    && !s.pipes[p].used && s'.pipes[p] == Pipe(true, 1, 1, [], [])
    && NameOf(s'.tables[pid][rfd]) == ReadEnd(p) && NameOf(s'.tables[pid][wfd]) == WriteEnd(p)
  }

  /** pipe: two descriptors, the lowest free first, for the two ends of a pipe nobody else names;
      or no descriptor changes. */
  lemma OpenPipeDoes(s: State, pid: Pid)
    requires Inv(s) && pid in s.tables
    ensures var (s', rfd, wfd) := OpenPipe(s, pid);
            if wfd < 0 then rfd == -1 && wfd == -1 && NoFd(s, s') && (s'.err == ERR_ENFILE || s'.err == ERR_EMFILE)
            else
              && LowestFrom(s.tables[pid], 3, rfd) && rfd < wfd && wfd < MAX_OPEN && !s.tables[pid][wfd].used
              && (forall k :: 3 <= k < wfd && k != rfd ==> s.tables[pid][k].used)
              && s'.tables.Keys == s.tables.Keys
              && (forall q, k: nat :: q in s.tables && k < MAX_OPEN && !(q == pid && (k == rfd || k == wfd)) ==>
                    s'.tables[q][k] == s.tables[q][k])
              && s'.err == ERR_NONE
    ensures var (s', rfd, wfd) := OpenPipe(s, pid);
            wfd >= 0 ==> exists p: nat :: p < MAX_PIPES && PipeMade(s, s', p, pid, rfd, wfd)
    ensures var (s', rfd, wfd) := OpenPipe(s, pid);
            wfd < 0 ==>
              || (forall p :: 0 <= p < MAX_PIPES ==> s.pipes[p].used)
              || (forall k, l :: 3 <= k < l < MAX_OPEN ==> s.tables[pid][k].used || s.tables[pid][l].used)
  {
    if OpenPipe(s, pid).2 < 0 { OpenPipeRefused(s, pid); }
    var p := FreePipe(s.pipes, 0);
    if p >= 0 {
      var t := s.tables[pid];
      var rfd := AllocFd(t);
      if rfd >= 0 {
        var wfd := AllocFd(t[rfd := t[rfd].(used := true)]);
        assert forall k :: 0 <= k < MAX_OPEN && k != rfd ==> t[rfd := t[rfd].(used := true)][k] == t[k];
        if wfd >= 0 { assert PipeMade(s, OpenPipe(s, pid).0, p, pid, rfd, wfd); }
      }
    }
  }

  /** open of a file, a terminal or the event device: EMFILE, or the lowest free descriptor from 3 on
      holds the handle of the backend. */
  lemma OpenPlainDoes(s: State, pid: Pid, kind: Kind, handle: int)
    requires pid in s.tables && !kind.PipeEnd? && !kind.SocketEnd?
    ensures var (s', r) := OpenPlain(s, pid, kind, handle);
            && s'.pipes == s.pipes && s'.sockets == s.sockets
            && if FullFrom(s.tables[pid], 3) then r == -1 && s'.err == ERR_EMFILE && NoFd(s, s')
               else
                 && LowestFrom(s.tables[pid], 3, r) && OnlyFd(s, s', pid, r) && s'.err == ERR_NONE
                 && var fd := s'.tables[pid][r]; fd.used && fd.kind == kind && fd.fsFd == handle
  {
  }

  /** socket: the lowest free descriptor names a socket slot that nobody named, with one reference. It
      fails exactly when the backend does or there is no free slot or descriptor. */
  lemma NewSocketDoes(s: State, pid: Pid, state: SocketState, made: bool)
    requires Inv(s) && pid in s.tables
    ensures var (s', r) := NewSocket(s, pid, state, made);
            if r < 0 then r == -1 && s'.tables == s.tables
            else
              && LowestFrom(s.tables[pid], 3, r) && OnlyFd(s, s', pid, r)
              && s'.tables[pid][r].kind.SocketEnd? && s'.tables[pid][r].used
              && var id := s'.tables[pid][r].fsFd;
              && 0 <= id < MAX_SOCKETS && !s.sockets[id].used && s'.sockets[id] == Socket(true, 1, state, 0)
    ensures NewSocket(s, pid, state, made).1 >= 0 <==>
            made && !FullFrom(s.tables[pid], 3) && exists id :: 0 <= id < MAX_SOCKETS && !s.sockets[id].used
  {
  }

  /** fork: the child has exactly the parent's descriptors, and no other table changes. */
  lemma InheritDoes(s: State, parent: Pid, child: Pid)
    requires Inv(s) && parent in s.tables && child !in s.tables
    ensures Inherit(s, parent, child).tables == s.tables[child := s.tables[parent]]
  {
    InheritInv(s, parent, child, MAX_OPEN);
  }

  /** exit: every descriptor of the process is closed, and no other table changes. */
  lemma CloseAllDoes(s: State, pid: Pid)
    requires Inv(s) && pid in s.tables
    ensures var s' := CloseAll(s, pid, MAX_OPEN);
            AllClosed(s'.tables[pid]) && forall q :: q in s.tables && q != pid ==> s'.tables[q] == s.tables[q]
  {
    CloseAllInv(s, pid, MAX_OPEN);
    CloseAllTables(s, pid, MAX_OPEN);
  }
}
