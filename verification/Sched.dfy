/** The run queue and the trap path of the scheduler (kernel/scheduler.c), with the signal delivery
    (kernel/signal.c) and the exits and wake-ups (kernel/process.c) it sets off. */
module Sched {
  import opened Fairness

  const SIGKILL: nat := 9
  const SIGCHLD: nat := 17
  const SIGCONT: nat := 18
  const SIGSTOP: nat := 19

  datatype PState = Ready | Running | Sleeping | Waiting | Stopped | Zombie | Dead

  /** What a process does with a signal. */
  datatype Action = Default | Ignored | Caught(handler: nat, mask: set<nat>)

  /** The part of a saved trap frame the scheduler looks at or changes. */
  datatype Frame = Frame(user: bool, eip: nat, esp: nat, eax: int)

  predicate StopsByDefault(sig: nat) { 19 <= sig <= 22 }
  predicate KillsByDefault(sig: nat) { sig in {1, 2, 3, 4, 6, 9, 15} }

  /** Out of the game until someone else acts: the dispatch loop never comes back to these. */
  predicate Gone(s: PState) { s.Stopped? || s.Zombie? || s.Dead? }

  /** How a process stands: whether it waits, its registers, its signals. */
  datatype Stand = Stand(waiting: bool, frame: Frame, pending: set<nat>, blocked: set<nat>, active: bool)

  /** What others may do to a process: its registers stay, but for the result of a call if it was waiting
      in one and no longer is; and no signal but the news of a child comes. */
  ghost predicate Left(was: Stand, now: Stand) {
    && now.frame == was.frame.(eax := now.frame.eax)
    && (now.frame.eax == was.frame.eax || (was.waiting && !now.waiting))
    && now.pending <= was.pending + {SIGCHLD} && now.blocked == was.blocked && now.active == was.active
  }

  lemma LeftTwice(a: Stand, b: Stand, c: Stand)
    requires Left(a, b) && Left(b, c) && (b.waiting ==> a.waiting) && (c.waiting ==> b.waiting)
    ensures Left(a, c)
  {
  }

  class Process {
    const pid: nat
    const thread: bool
    const prio: nat
    const parentPid: nat
    const pageDir: nat
    const userMode: bool
    var state: PState
    var sigActive: bool
    var vforkShared: bool
    var vruntime: nat
    var cpuTicks: nat
    var cpuLast: nat
    var sleepUntil: nat
    var pending: set<nat>
    var blocked: set<nat>
    var actions: map<nat, Action>
    var frame: Frame
    var exitCode: int
    var stopSignal: nat
    var vforkChild: nat
    var waitPid: int
    var untraced: bool
    var futexAddr: nat
    var futexDeadline: nat
    var futexPrivate: bool
    var clearTid: nat
    var schedNext: Process?

    predicate Candidate(current: Process?, rotate: bool)
      reads this`state
    {
      userMode && (state.Ready? || (!rotate && this == current && state.Running?))
    }

    ghost function Standing(): Stand
      reads this`state, this`frame, this`pending, this`blocked, this`sigActive
    {
      Stand(state.Waiting?, frame, pending, blocked, sigActive)
    }

    function ActionFor(sig: nat): Action
      reads this`actions
    {
      if sig in actions then actions[sig] else Default
    }
  }

  class Kernel {
    /** proc_list, in order. */
    var procs: seq<Process>
    var runQueue: Process?
    /** The circular list from runQueue on. */
    ghost var ring: seq<Process>
    ghost var world: set<Process>
    var schedCurrent: Process?
    var current: Process?
    var inIdle: bool
    var deferred: Process?

    ghost predicate Valid()
      reads this`procs, this`ring, this`world, this`runQueue, world`schedNext, ring`schedNext
    {
      && (forall p :: p in procs ==> p in world) && (forall p :: p in ring ==> p in world)
      && (forall p, q :: p in world && q in world && p.pid == q.pid ==> p == q)
      && (forall p :: p in world ==> p.pid != 0)
      && Linked(ring, runQueue) && forall i, j :: 0 <= i < j < |procs| ==> procs[i] != procs[j]
    }

    /** The ring is the list reached from runQueue through schedNext, back to its start. */
    static ghost predicate Linked(r: seq<Process>, head: Process?)
      reads r`schedNext
    {
      && (forall i, j :: 0 <= i < j < |r| ==> r[i] != r[j])
      && (if r == [] then head == null else head == r[0])
      && forall i :: 0 <= i < |r| ==> r[i].schedNext == r[if i + 1 == |r| then 0 else i + 1]
    }

    // -------------------------------------------------------------------------
    // The run queue
    // -------------------------------------------------------------------------

    lemma NextInRing(i: nat)
      requires Valid() && i < |ring|
      ensures ring[i].schedNext != null && ring[i].schedNext == ring[if i + 1 == |ring| then 0 else i + 1]
      ensures ring[i] in world
    {
      var n: Process := ring[if i + 1 == |ring| then 0 else i + 1];
      assert ring[i].schedNext == n;
    }

    /** The node before the head: where both insertion and removal of the head need to write. */
    method Tail() returns (tail: Process)
      requires Valid() && ring != []
      ensures tail == ring[|ring| - 1]
    {
      tail := runQueue;
      ghost var i := 0;
      while tail.schedNext != runQueue
        invariant i < |ring| && tail == ring[i]
        decreases |ring| - i
      {
        NextInRing(i);
        tail := tail.schedNext;
        i := i + 1;
      }
      NextInRing(i);
    }

    /** scheduler_add. */
    method Add(p: Process)
      requires Valid() && p in world && p !in ring
      modifies this`runQueue, this`ring, p`state, world`schedNext
      ensures Valid() && ring == old(ring) + [p] && p.state == Ready
    {
      p.state := Ready;
      if runQueue == null {
        runQueue := p;
        p.schedNext := p;
      } else {
        var tail := Tail();
        tail.schedNext := p;
        p.schedNext := runQueue;
      }
      ring := ring + [p];
    }

    /** Position of a pid in the ring, or its length. */
    static ghost function PidAt(r: seq<Process>, pid: nat): (i: nat)
      ensures i <= |r| && (i < |r| ==> r[i].pid == pid) && forall k :: 0 <= k < i ==> r[k].pid != pid
    {
      if r == [] then 0 else if r[0].pid == pid then 0 else 1 + PidAt(r[1..], pid)
    }

    static ghost function RingWithout(r: seq<Process>, pid: nat): seq<Process> {
      var i := PidAt(r, pid);
      if i < |r| then r[..i] + r[i + 1..] else r
    }

    /** What removing the i-th node leaves as the scheduler's current process. */
    static ghost function CurrentAfter(r: seq<Process>, i: nat, cur: Process?): Process?
      requires i <= |r|
    {
      if i == |r| || cur != r[i] then cur else if |r| == 1 then null else r[if i + 1 == |r| then 0 else i + 1]
    }

    static lemma PidAtIs(r: seq<Process>, pid: nat, i: nat)
      requires i <= |r| && (i < |r| ==> r[i].pid == pid) && forall k :: 0 <= k < i ==> r[k].pid != pid
      ensures PidAt(r, pid) == i && RingWithout(r, pid) == if i < |r| then r[..i] + r[i + 1..] else r
    {
    }

    /** scheduler_remove: the current process of the scheduler moves on if it is the one. */
    method Remove(pid: nat)
      requires Valid()
      modifies this`runQueue, this`ring, this`schedCurrent, world`schedNext
      ensures Valid() && ring == RingWithout(old(ring), pid)
      ensures forall p :: p in old(world) && p !in old(ring) ==> p.schedNext == old(p.schedNext)
      ensures schedCurrent == CurrentAfter(old(ring), PidAt(old(ring), pid), old(schedCurrent))
    {
      hide PidAt, RingWithout;
      if runQueue == null {
        PidAtIs(ring, pid, 0);
      } else if runQueue.pid == pid {
        PidAtIs(ring, pid, 0);
        RemoveHead();
      } else {
        RemoveLater(pid);
      }
    }

    method RemoveLater(pid: nat)
      requires Valid() && runQueue != null && runQueue.pid != pid
      modifies this`ring, this`schedCurrent, world`schedNext
      ensures Valid() && ring == RingWithout(old(ring), pid)
      ensures forall p :: p in old(world) && p !in old(ring) ==> p.schedNext == old(p.schedNext)
      ensures schedCurrent == CurrentAfter(old(ring), PidAt(old(ring), pid), old(schedCurrent))
    {
      hide PidAt, RingWithout;
      NextInRing(0);
      var prev: Process := runQueue;
      var cur: Process := runQueue.schedNext;
      ghost var i := 0;
      while cur != runQueue && cur.pid != pid
        invariant i < |ring| && prev == ring[i] && cur == ring[if i + 1 == |ring| then 0 else i + 1]
        invariant forall k :: 0 <= k <= i ==> ring[k].pid != pid
        decreases |ring| - i
        modifies {}
      {
        NextInRing(i + 1);
        prev := cur;
        cur := cur.schedNext;
        i := i + 1;
      }
      PidAtIs(ring, pid, i + 1);
      if cur != runQueue { UnlinkAfter(prev, cur, i); }
    }

    /** Removing any other node than the head. */
    method UnlinkAfter(prev: Process, cur: Process, ghost i: nat)
      requires Valid() && i + 1 < |ring| && prev == ring[i] && cur == ring[i + 1]
      modifies this`ring, this`schedCurrent, prev`schedNext, cur`schedNext
      ensures Valid() && ring == old(ring)[..i + 1] + old(ring)[i + 2..]
      ensures schedCurrent == CurrentAfter(old(ring), i + 1, old(schedCurrent))
    {
      prev.schedNext := cur.schedNext;
      if schedCurrent == cur { schedCurrent := cur.schedNext; }
      cur.schedNext := null;
      ring := ring[..i + 1] + ring[i + 2..];
    }

    method RemoveHead()
      requires Valid() && runQueue != null
      modifies this`runQueue, this`ring, this`schedCurrent, world`schedNext
      ensures Valid() && ring == old(ring)[1..]
      ensures forall p :: p in old(world) && p !in old(ring) ==> p.schedNext == old(p.schedNext)
      ensures schedCurrent == CurrentAfter(old(ring), 0, old(schedCurrent))
    {
      if runQueue.schedNext == runQueue {
        if schedCurrent == runQueue { schedCurrent := null; }
        runQueue.schedNext := null;
        runQueue := null;
      } else {
        var tail := Tail();
        tail.schedNext := runQueue.schedNext;
        if schedCurrent == runQueue { schedCurrent := runQueue.schedNext; }
        runQueue.schedNext := null;
        runQueue := tail.schedNext;
      }
      ring := ring[1..];
    }

    /** The smallest virtual runtime of the live processes of the ring, 0 if there are none. */
    ghost predicate IsLeast(min: nat)
      reads this`ring, ring
    {
      && (forall p :: p in ring && Live(p) ==> min <= p.vruntime)
      && ((exists p :: p in ring && Live(p)) ==> exists p :: p in ring && Live(p) && p.vruntime == min)
      && ((forall p :: p in ring ==> !Live(p)) ==> min == 0)
    }

    /** The stored runtimes of the live processes are their true ones modulo 2^64, and the true ones
        are less than half that range apart. */
    ghost predicate Wrapped(truth: map<Process, nat>)
      reads this`ring, ring
    {
      && (forall p :: p in ring && Live(p) ==> p in truth && p.vruntime == truth[p] % WORD64)
      && forall p, q :: p in ring && q in ring && Live(p) && Live(q) ==> truth[p] - truth[q] < HALF64
    }

    /** Every process that stores the least runtime has the least true one if and only if all have
        wrapped equally often. */
    lemma LeastIsTrueIff(min: nat, truth: map<Process, nat>)
      requires IsLeast(min) && Wrapped(truth)
      ensures (forall p, q :: p in ring && q in ring && Live(p) && Live(q) && p.vruntime == min ==>
                 truth[p] <= truth[q]) <==>
              (forall p, q :: p in ring && q in ring && Live(p) && Live(q) ==>
                 truth[p] / WORD64 == truth[q] / WORD64)
    {
      forall p, q | p in ring && q in ring && Live(p) && Live(q)
        ensures (truth[p] % WORD64 < truth[q] % WORD64 <==> truth[p] < truth[q]) <==>
                truth[p] / WORD64 == truth[q] / WORD64
      {
        WrapOrder(truth[p], truth[q]);
      }
    }

    /** cfs_min_vruntime: over user processes that are ready or running; 0 if there are none. */
    method MinVruntime() returns (min: nat)
      requires Valid()
      ensures IsLeast(min)
    {
      if runQueue == null { return 0; }
      var p: Process := runQueue;
      var first := true;
      min := 0;
      ghost var i, m := 0, 0;
      while true
        invariant i < |ring| && p == ring[i]
        invariant first <==> forall k :: 0 <= k < i ==> !Live(ring[k])
        invariant first ==> min == 0
        invariant !first ==> m < i && Live(ring[m]) && ring[m].vruntime == min
        invariant forall k :: 0 <= k < i && Live(ring[k]) ==> min <= ring[k].vruntime
        decreases |ring| - i
      {
        NextInRing(i);
        if p.userMode && (p.state.Ready? || p.state.Running?) {
          if first || p.vruntime < min {
            min, m := p.vruntime, i;
            first := false;
          }
        }
        p := p.schedNext;
        i := i + 1;
        if p == runQueue { break; }
      }
      assert i == |ring| && (!first ==> ring[m] in ring);
    }

    ghost predicate Live(p: Process)
      reads p
    {
      p.userMode && (p.state.Ready? || p.state.Running?)
    }

    /** The first candidate of the ring with the smallest virtual runtime. */
    ghost predicate IsPick(best: Process?, cur: Process?, rotate: bool)
      reads this, ring
    {
      if best == null then forall p :: p in ring ==> !p.Candidate(cur, rotate)
      else exists i :: PickedAt(i, best, cur, rotate)
    }

    ghost predicate PickedAt(i: int, best: Process, cur: Process?, rotate: bool)
      reads this, ring
    {
      && 0 <= i < |ring| && ring[i] == best && best.Candidate(cur, rotate)
      && forall k :: 0 <= k < |ring| && ring[k].Candidate(cur, rotate) ==>
           best.vruntime <= ring[k].vruntime && (k < i ==> best.vruntime < ring[k].vruntime)
    }

    /** scheduler_pick_next_user. */
    method PickNext(cur: Process?, rotate: bool) returns (best: Process?)
      requires Valid()
      ensures IsPick(best, cur, rotate) && (best != null ==> best in ring && best.Candidate(cur, rotate))
    {
      if runQueue == null { return null; }
      var p: Process := runQueue;
      best := null;
      ghost var i, b := 0, 0;
      while true
        invariant i < |ring| && p == ring[i]
        invariant best == null <==> forall k :: 0 <= k < i ==> !ring[k].Candidate(cur, rotate)
        invariant best != null ==> b < i && ring[b] == best && best.Candidate(cur, rotate)
        invariant best != null ==> forall k :: 0 <= k < i && ring[k].Candidate(cur, rotate) ==>
          best.vruntime <= ring[k].vruntime && (k < b ==> best.vruntime < ring[k].vruntime)
        decreases |ring| - i
      {
        NextInRing(i);
        if p.userMode && (p.state.Ready? || (!rotate && p == cur && p.state.Running?)) {
          if best == null || p.vruntime < best.vruntime { best, b := p, i; }
        }
        p := p.schedNext;
        i := i + 1;
        if p == runQueue { break; }
      }
      assert i == |ring|;
      assert best != null ==> PickedAt(b, best, cur, rotate);
    }

    // -------------------------------------------------------------------------
    // Wake-ups, exits and stops
    // -------------------------------------------------------------------------

    /** process_get_by_pid. */
    method FindPid(pid: nat) returns (p: Process?)
      requires Valid()
      ensures p == PidIn(pid) && (p != null ==> p in world)
    {
      var i := 0;
      while i < |procs|
        invariant i <= |procs| && forall k :: 0 <= k < i ==> procs[k].pid != pid
      {
        if procs[i].pid == pid { return procs[i]; }
        i := i + 1;
      }
      p := null;
    }

    /** The listed process of that pid, if there is one. */
    ghost function PidIn(pid: nat): (p: Process?)
      requires Valid()
      reads this, world
      ensures p != null ==> p in procs && p.pid == pid
      ensures p == null ==> forall q :: q in procs ==> q.pid != pid
    {
      if exists q :: q in procs && q.pid == pid then var q :| q in procs && q.pid == pid; q else null
    }

    ghost function ParentOf(p: Process): Process?
      requires Valid()
      reads this, world
    {
      if p.parentPid == 0 then null else PidIn(p.parentPid)
    }

    /** Nobody but the processes in `but` changed state, except that waiting ones became ready. */
    twostate predicate OnlyWakes(but: set<Process>)
      reads this, world
    {
      world == old(world) && forall q :: q in world && q !in but ==>
        q.state == old(q.state) || (old(q.state).Waiting? && q.state.Ready?)
    }

    twostate predicate LeftAlone(q: Process)
      reads q
    {
      Left(old(q.Standing()), q.Standing())
    }

    twostate predicate AllLeftAlone()
      reads this`world, world
    {
      world == old(world) && forall q :: q in world ==> LeftAlone(q)
    }

    /** Processes that may still be dispatched without anyone else acting. */
    ghost function Going(): set<Process>
      reads this`world, world`state
    {
      set p | p in world && !Gone(p.state)
    }

    /** One process leaving, and others at most waking, makes them fewer by one. */
    twostate lemma FewerGoing(p: Process)
      requires p in old(world) && !Gone(old(p.state)) && Gone(p.state) && OnlyWakes({p})
      ensures Going() == old(Going()) - {p} && |Going()| < |old(Going())|
    {
      assert forall q :: q in old(world) && q != p ==> (Gone(q.state) <==> Gone(old(q.state)));
      assert Going() == old(Going()) - {p};
    }

    predicate FutexMatch(q: Process, caller: Process, addr: nat, priv: bool)
      reads q
    {
      q.state.Waiting? && q.futexAddr == addr && q.futexPrivate == priv && (priv ==> q.pageDir == caller.pageDir)
    }

    /** The tests of one turn of process_wake_futex. */
    method WaitsOn(q: Process, caller: Process, addr: nat, priv: bool) returns (matches: bool)
      ensures matches == FutexMatch(q, caller, addr, priv)
    {
      if !q.state.Waiting? || q.futexAddr != addr || q.futexPrivate != priv { return false; }
      matches := !priv || q.pageDir == caller.pageDir;
    }

    /** The wait is over with this result. */
    method WakeOne(q: Process, result: int)
      modifies q`state, q`futexAddr, q`futexDeadline, q`futexPrivate, q`frame
      ensures q.state == Ready && q.frame == old(q.frame).(eax := result)
      ensures q.futexAddr == 0 && q.futexDeadline == 0 && !q.futexPrivate
    {
      q.state := Ready;
      q.futexAddr, q.futexDeadline, q.futexPrivate := 0, 0, false;
      q.frame := q.frame.(eax := result);
    }

    /** process_wake_futex: in list order, up to `count` of those that wait on the address. */
    method WakeFutex(caller: Process, addr: nat, count: int, priv: bool, result: int) returns (woken: nat)
      requires Valid()
      modifies world`state, world`futexAddr, world`futexDeadline, world`futexPrivate, world`frame
      ensures Valid() && OnlyWakes({})
      ensures forall q :: q in world && q.state != old(q.state) ==>
        old(FutexMatch(q, caller, addr, priv)) && q.frame == old(q.frame).(eax := result)
      ensures addr != 0 && count != 0 && woken != (if count < 0 then 64 else count) ==>
        forall q :: q in procs ==> !FutexMatch(q, caller, addr, priv)
      ensures forall q :: q in world && q.state == old(q.state) ==> q.frame == old(q.frame)
      ensures forall k, l :: 0 <= k < l < |procs| && procs[l].state != old(procs[l].state) ==>
        !FutexMatch(procs[k], caller, addr, priv)
    {
      hide Linked, RingWithout;
      if addr == 0 || count == 0 { return 0; }
      var limit := if count < 0 then 64 else count;
      woken := 0;
      var i := 0;
      while i < |procs|
        invariant i <= |procs| && woken < limit && Valid() && OnlyWakes({})
        invariant forall q :: q in world && q.state != old(q.state) ==>
          old(FutexMatch(q, caller, addr, priv)) && q.frame == old(q.frame).(eax := result)
        invariant forall q :: q in world && q.state == old(q.state) ==>
          q.frame == old(q.frame) && q.futexAddr == old(q.futexAddr) && q.futexPrivate == old(q.futexPrivate)
        invariant forall k :: 0 <= k < i ==> !FutexMatch(procs[k], caller, addr, priv)
        invariant forall k :: i <= k < |procs| ==> procs[k].state == old(procs[k].state)
      {
        var q := procs[i];
        var matches := WaitsOn(q, caller, addr, priv);
        if matches {
          WakeOne(q, result);
          woken := woken + 1;
          if woken >= limit { return; }
        }
        i := i + 1;
      }
    }

    /** process_release_vfork_parent, as an exit calls it. */
    method ReleaseVforkParent(p: Process)
      requires Valid() && p in world
      modifies world`state, world`vforkChild
      ensures Valid() && OnlyWakes({})
      ensures forall q :: q in world && (q.state != old(q.state) || q.vforkChild != old(q.vforkChild)) ==>
        q == ParentOf(p) && p.vforkShared && old(q.vforkChild) == p.pid && q.vforkChild == 0 && !q.state.Waiting?
      ensures p.vforkShared && ParentOf(p) != null && old(ParentOf(p).vforkChild) == p.pid ==>
        ParentOf(p).vforkChild == 0 && !ParentOf(p).state.Waiting?
    {
      hide Linked, RingWithout;
      if !p.vforkShared || p.parentPid == 0 { return; }
      var parent := FindPid(p.parentPid);
      if parent != null && parent.vforkChild == p.pid {
        parent.vforkChild := 0;
        if parent.state.Waiting? { parent.state := Ready; }
      }
    }

    /** process_wait_matches. */
    predicate WaitMatches(parent: Process, child: Process)
      reads parent
    {
      && !child.thread && parent.state.Waiting? && parent.vforkChild == 0
      && (parent.waitPid > 0 ==> parent.waitPid == child.pid) && child.parentPid == parent.pid
    }

    /** The tests of process_wait_matches, one after the other. */
    method IsWaitFor(parent: Process, child: Process) returns (matches: bool)
      ensures matches == WaitMatches(parent, child)
    {
      if child.thread || !parent.state.Waiting? || parent.vforkChild != 0 { return false; }
      if parent.waitPid > 0 && parent.waitPid != child.pid { return false; }
      matches := child.parentPid == parent.pid;
    }

    /** The parent's wait returns the child's pid. */
    method FinishWait(parent: Process, child: Process)
      modifies parent`state, parent`frame, parent`waitPid, parent`untraced
      ensures parent.state == Ready && parent.frame == old(parent.frame).(eax := child.pid)
      ensures parent.waitPid == 0 && !parent.untraced
    {
      parent.frame := parent.frame.(eax := child.pid);
      parent.state := Ready;
      parent.waitPid := 0;
      parent.untraced := false;
    }

    /** A process leaves the run queue and the list, to be freed later. */
    method Retire(p: Process)
      requires Valid() && p in world
      modifies this`runQueue, this`ring, this`schedCurrent, this`procs, this`deferred, world`schedNext, p`state
      ensures Valid() && p.state == Dead && p !in ring && p !in procs
      ensures ring == RingWithout(old(ring), p.pid) && (forall q :: q in procs ==> q in old(procs))
    {
      hide RingWithout, Linked;
      p.state := Dead;
      RingForgets(p);
      Remove(p.pid);
      Unlist(p);
      p.schedNext := deferred;
      deferred := p;
    }

    /** process_remove_from_list. */
    method Unlist(p: Process)
      requires Valid()
      modifies this`procs
      ensures Valid() && p !in procs && forall q :: q in procs ==> q in old(procs)
      ensures forall q :: q in old(procs) && q != p ==> q in procs
    {
      var i := 0;
      while i < |procs| && procs[i] != p
        invariant i <= |procs| && forall k :: 0 <= k < i ==> procs[k] != p
        modifies {}
      {
        i := i + 1;
      }
      if i < |procs| { procs := procs[..i] + procs[i + 1..]; }
    }

    lemma RingForgets(p: Process)
      requires Valid() && p in world
      ensures p !in RingWithout(ring, p.pid) && forall q :: q in RingWithout(ring, p.pid) ==> q in ring
    {
      var i := PidAt(ring, p.pid);
      if p in ring { assert i < |ring| && ring[i] == p; }
    }

    /** A stop of the child is still unreported, and its parent waits for just that. */
    ghost predicate WantsStop(child: Process)
      requires Valid()
      reads this, world, child
    {
      var parent := ParentOf(child);
      child.stopSignal != 0 && parent != null && parent.untraced && WaitMatches(parent, child)
    }

    /** process_notify_stopped_parent: a parent waiting for stops is told once. */
    method NotifyStopped(child: Process)
      requires Valid() && child in world && !child.state.Waiting?
      modifies world`state, world`frame, world`waitPid, world`untraced, child`stopSignal
      ensures Valid() && OnlyWakes({child}) && AllLeftAlone() && child.state == old(child.state)
      ensures if old(WantsStop(child)) then
                child.stopSignal == 0 && ParentOf(child).state.Ready? && ParentOf(child).frame.eax == child.pid
              else child.stopSignal == old(child.stopSignal)
      ensures forall q :: q in world && (q != ParentOf(child) || !old(WantsStop(child))) ==>
        && q.state == old(q.state) && q.frame == old(q.frame)
        && q.waitPid == old(q.waitPid) && q.untraced == old(q.untraced)
    {
      hide Linked, RingWithout;
      if child.stopSignal == 0 || child.parentPid == 0 { return; }
      var parent := FindPid(child.parentPid);
      if parent == null || !parent.untraced { return; }
      var matches := IsWaitFor(parent, child);
      if !matches { return; }
      child.stopSignal := 0;
      FinishWait(parent, child);
    }

    // -------------------------------------------------------------------------
    // Signals
    // -------------------------------------------------------------------------

    /** signal_send_pid with a signal that is only marked as pending. */
    method MarkPending(p: Process, sig: nat)
      modifies p`pending
      ensures p.pending == old(p.pending) + if 1 <= sig <= 31 then {sig} else {}
    {
      if 1 <= sig <= 31 { p.pending := p.pending + {sig}; }
    }

    /** process_mark_exited. */
    method MarkExited(p: Process, code: int)
      requires Valid() && p in world
      modifies this`runQueue, this`ring, this`schedCurrent, this`procs, this`deferred
      modifies world`state, world`exitCode, world`pending, world`clearTid, world`vforkChild, world`schedNext
      modifies world`futexAddr, world`futexDeadline, world`futexPrivate, world`frame, world`waitPid, world`untraced
      ensures Valid() && OnlyWakes({p}) && AllLeftAlone() && (p.state.Zombie? || p.state.Dead?)
      ensures old(p.state).Zombie? || old(p.state).Dead? ==> p.state == old(p.state) && ring == old(ring)
      ensures !old(p.state).Zombie? && !old(p.state).Dead? ==>
        && p.exitCode == code && (p.parentPid != p.pid ==> p.pending == {}) && (p.thread ==> p.state.Dead?)
        && (p.state.Dead? ==> p !in ring && p !in procs)
        && NobodyWaitsFor(p)
        && (!p.thread && old(ParentOf(p)) != null ==> SIGCHLD in old(ParentOf(p)).pending)
      ensures ring == old(ring) || ring == RingWithout(old(ring), p.pid)
    {
      hide Linked, RingWithout;
      if p.state.Zombie? || p.state.Dead? { return; }
      BeginExit(p, code);
      if p.thread {
        Retire(p);
        return;
      }
      TellParent(p);
    }

    /** The process is no more; joiners of the thread and the vfork parent go on. */
    method BeginExit(p: Process, code: int)
      requires Valid() && p in world
      modifies world`state, p`exitCode, p`pending, world`clearTid, world`vforkChild
      modifies world`futexAddr, world`futexDeadline, world`futexPrivate, world`frame
      ensures Valid() && OnlyWakes({p}) && AllLeftAlone() && p.state.Zombie? && p.exitCode == code && p.pending == {}
      ensures ParentOf(p) != null && p.vforkShared ==>
        ParentOf(p).vforkChild != p.pid
      ensures p.vforkShared && ParentOf(p) != null && old(ParentOf(p).vforkChild) == p.pid ==>
        !ParentOf(p).state.Waiting?
    {
      hide Linked, RingWithout;
      p.state := Zombie;
      p.exitCode := code;
      p.pending := {};
      ClearTid(p);
      ReleaseVforkParent(p);
    }

    /** The thread-exit half of an exit: whoever joins the thread is woken. */
    method ClearTid(p: Process)
      requires Valid() && p in world && !p.state.Waiting?
      modifies world`state, p`clearTid, world`futexAddr, world`futexDeadline, world`futexPrivate, world`frame
      ensures Valid() && OnlyWakes({}) && AllLeftAlone() && p.state == old(p.state) && p.clearTid == 0
    {
      if p.clearTid != 0 {
        var _ := WakeFutex(p, p.clearTid, 1, true, 0);
        p.clearTid := 0;
      }
    }

    /** No parent is left blocked in a wait by the exit of p, nor a vfork parent. */
    ghost predicate NobodyWaitsFor(p: Process)
      requires Valid()
      reads this, world, p
    {
      var parent := ParentOf(p);
      parent != null ==>
        && (p.vforkShared ==> parent.vforkChild != p.pid)
        && (!p.thread && parent.vforkChild == 0 ==> !parent.state.Waiting?)
    }

    /** The end of an exit: SIGCHLD, and the parent's wait completed or at least ended. */
    method TellParent(p: Process)
      requires Valid() && p in world && p.state.Zombie? && !p.thread
      requires ParentOf(p) != null && p.vforkShared ==> ParentOf(p).vforkChild != p.pid
      modifies this`runQueue, this`ring, this`schedCurrent, this`procs, this`deferred
      modifies world`state, world`pending, world`schedNext, world`frame, world`waitPid, world`untraced
      ensures Valid() && OnlyWakes({p}) && AllLeftAlone()
      ensures p.state.Zombie? || (p.state.Dead? && p !in ring && p !in procs)
      ensures NobodyWaitsFor(p) && (ring == old(ring) || ring == RingWithout(old(ring), p.pid))
      ensures p.parentPid != p.pid ==> p.pending == old(p.pending)
      ensures old(ParentOf(p)) != null ==> var parent := old(ParentOf(p));
        && SIGCHLD in parent.pending
        && (old(WaitMatches(parent, p)) ==>
              parent.state.Ready? && parent.frame.eax == p.pid && parent.waitPid == 0 && p.state.Dead?)
        && (!old(WaitMatches(parent, p)) ==> p.state.Zombie?)
      ensures old(ParentOf(p)) == null ==> p.state.Zombie?
    {
      hide Linked, RingWithout;
      if p.parentPid == 0 { return; }
      var parent := FindPid(p.parentPid);
      if parent == null { return; }
      TellThis(parent, p);
    }

    /** The same, once the parent is found. */
    method TellThis(parent: Process, p: Process)
      requires Valid() && p in world && p.state.Zombie? && !p.thread && parent == ParentOf(p) && parent in world
      modifies this`runQueue, this`ring, this`schedCurrent, this`procs, this`deferred
      modifies world`schedNext, p`state, parent`state, parent`pending, parent`frame, parent`waitPid, parent`untraced
      ensures Valid() && AllLeftAlone()
      ensures parent != p ==> parent.state == old(parent.state) || (old(parent.state).Waiting? && parent.state.Ready?)
      ensures p.state.Zombie? || (p.state.Dead? && p !in ring && p !in procs)
      ensures parent.vforkChild == 0 ==> !parent.state.Waiting?
      ensures ring == old(ring) || ring == RingWithout(old(ring), p.pid)
      ensures forall q :: q in procs ==> q in old(procs)
      ensures SIGCHLD in parent.pending
      ensures if old(WaitMatches(parent, p)) then
                parent.state.Ready? && parent.frame.eax == p.pid && parent.waitPid == 0 && p.state.Dead?
              else p.state.Zombie?
    {
      hide Linked, RingWithout, AllLeftAlone, LeftAlone, Left;
      MarkPending(parent, SIGCHLD);
      var matches := IsWaitFor(parent, p);
      if matches {
        FinishWait(parent, p);
        Retire(p);
      } else if parent.state.Waiting? && parent.vforkChild == 0 {
        parent.state := Ready;
      }
      OnlyOneTouched(parent);
    }

    twostate lemma OnlyOneTouched(p: Process)
      requires world == old(world)
      requires forall q :: q in world ==> q.blocked == old(q.blocked) && q.sigActive == old(q.sigActive)
      requires forall q :: q in world && q != p ==> q.frame == old(q.frame) && q.pending == old(q.pending)
      requires p.pending <= old(p.pending) + {SIGCHLD}
      requires || p.frame == old(p.frame)
               || (p.frame == old(p.frame).(eax := p.frame.eax) && old(p.state).Waiting? && !p.state.Waiting?)
      ensures AllLeftAlone()
    {
    }

    /** signal_apply_default_action: whether the process is blocked by it. */
    method ApplyDefault(p: Process, sig: nat) returns (blocks: bool)
      requires Valid() && p in world && !Gone(p.state) && !p.state.Waiting?
      modifies this`runQueue, this`ring, this`schedCurrent, this`procs, this`deferred, world`stopSignal
      modifies world`state, world`exitCode, world`pending, world`clearTid, world`vforkChild, world`schedNext
      modifies world`futexAddr, world`futexDeadline, world`futexPrivate, world`frame, world`waitPid, world`untraced
      ensures Valid() && AllLeftAlone() && blocks == (StopsByDefault(sig) || KillsByDefault(sig))
      ensures StopsByDefault(sig) ==> p.state == Stopped && ring == old(ring)
      ensures KillsByDefault(sig) ==> (p.state.Zombie? || p.state.Dead?) && p.exitCode == 128 + sig
      ensures blocks ==> OnlyWakes({p}) && (ring == old(ring) || ring == RingWithout(old(ring), p.pid))
      ensures !blocks ==> ring == old(ring) && forall q :: q in world ==>
        q.state == old(q.state) && q.frame == old(q.frame) && q.pending == old(q.pending)
    {
      hide Linked, RingWithout;
      if sig == SIGCHLD || sig == SIGCONT { return false; }
      if sig == SIGSTOP || sig == 20 || sig == 21 || sig == 22 {
        if !p.state.Stopped? {
          p.stopSignal := sig;
          p.state := Stopped;
          NotifyStopped(p);
        }
        return true;
      }
      if sig == 1 || sig == 2 || sig == 3 || sig == 4 || sig == 6 || sig == SIGKILL || sig == 15 {
        MarkExited(p, 128 + sig);
        return true;
      }
      blocks := false;
    }

    /** signal_next_pending: the lowest pending signal that is not blocked, or 0. */
    static method NextPending(p: Process) returns (sig: nat)
      ensures sig == LowestPending(p.pending - p.blocked, 1)
    {
      sig := 1;
      while sig <= 31
        invariant 1 <= sig <= 32 && LowestPending(p.pending - p.blocked, 1) == LowestPending(p.pending - p.blocked, sig)
      {
        if sig in p.pending - p.blocked { return; }
        sig := sig + 1;
      }
      sig := 0;
    }

    static function LowestPending(s: set<nat>, from: nat): (sig: nat)
      requires 1 <= from <= 32
      ensures sig == 0 ==> forall k :: from <= k <= 31 ==> k !in s
      ensures sig != 0 ==> from <= sig <= 31 && sig in s && forall k :: from <= k < sig ==> k !in s
      decreases 32 - from
    {
      if from == 32 then 0 else if from in s then from else LowestPending(s, from + 1)
    }

    /** The signal that a dispatch of p would deliver, or 0. */
    function Due(p: Process): nat
      reads p
    {
      if !p.frame.user || p.sigActive || p.vforkShared then 0 else LowestPending(p.pending - p.blocked, 1)
    }

    /** Whether delivering what is due blocks the process. */
    predicate Blocks(p: Process, trampoline: bool)
      reads p
    {
      var sig := Due(p);
      && sig != 0 && (StopsByDefault(sig) || KillsByDefault(sig))
      && (sig == SIGKILL || sig == SIGSTOP || p.ActionFor(sig).Default? || (p.ActionFor(sig).Caught? && !trampoline))
    }

    /** No process has gained, lost, blocked or unblocked a signal. */
    twostate predicate SignalsKept()
      reads this`world, world`pending, world`blocked
    {
      world == old(world) && forall q :: q in world ==> q.pending == old(q.pending) && q.blocked == old(q.blocked)
    }

    /** p stands at the start of the handler of one of these signals, as entered from the registers f. */
    predicate InHandler(p: Process, f: Frame, sigs: set<nat>)
      reads p`frame, p`sigActive, p`blocked, p`actions
    {
      p.sigActive && exists sig :: sig in sigs && EnteredFor(p, f, sig)
    }

    predicate EnteredFor(p: Process, f: Frame, sig: nat)
      reads p`frame, p`blocked, p`actions
    {
      var a := p.ActionFor(sig);
      && 1 <= sig <= 31 && sig !in {SIGKILL, SIGSTOP} && sig in p.blocked
      && a.Caught? && p.frame == f.(eip := a.handler, eax := 0, esp := HandlerStack(f.esp))
    }

    /** A process that stood so has entered the handler of a signal it had pending and not blocked, or of
        the news of a child. */
    ghost predicate HandlerEntered(p: Process, was: Stand)
      reads p`frame, p`sigActive, p`blocked, p`actions
    {
      !was.active && InHandler(p, was.frame, was.pending + {SIGCHLD} - was.blocked)
    }

    /** A process that stood so has been left alone, or, if it may go on, has entered a handler. */
    ghost predicate Treated(p: Process, was: Stand, goes: bool)
      reads p`state, p`frame, p`pending, p`blocked, p`sigActive, p`actions
    {
      Left(was, p.Standing()) || (goes && HandlerEntered(p, was))
    }

    /** A try to go on with p leaves every other process alone. */
    twostate predicate Dispatched(p: Process, goes: bool)
      reads this`world, world
    {
      world == old(world) && forall q :: q in world ==> Treated(q, old(q.Standing()), goes && q == p)
    }

    /** signal_dispatch_pending. `trampoline` says whether handlers can be entered at all. */
    method DispatchPending(p: Process, trampoline: bool) returns (blocks: bool)
      requires Valid() && p in world && !Gone(p.state) && !p.state.Waiting?
      modifies this`runQueue, this`ring, this`schedCurrent, this`procs, this`deferred, world`stopSignal
      modifies world`state, world`exitCode, world`pending, world`clearTid, world`vforkChild, world`schedNext
      modifies world`futexAddr, world`futexDeadline, world`futexPrivate, world`frame, world`waitPid, world`untraced
      modifies p`blocked, p`sigActive
      ensures Valid() && blocks == old(Blocks(p, trampoline))
      ensures Dispatched(p, !blocks)
      ensures blocks ==> Gone(p.state) && OnlyWakes({p}) && (ring == old(ring) || ring == RingWithout(old(ring), p.pid))
      ensures !blocks ==> ring == old(ring) && forall q :: q in world ==> q.state == old(q.state)
      ensures !blocks ==> forall q :: q in world && q != p ==> q.frame == old(q.frame)
      ensures old(Due(p)) == 0 ==> p.frame == old(p.frame) && SignalsKept()
      ensures !blocks ==> var sig := old(Due(p));
        var a := old(p.ActionFor(sig));
        if sig != 0 && sig != SIGKILL && sig != SIGSTOP && a.Caught? && trampoline then
          && p.frame == old(p.frame).(eip := a.handler, eax := 0, esp := HandlerStack(old(p.frame.esp)))
          && p.blocked == old(p.blocked) + a.mask + {sig} && p.sigActive && p.pending == old(p.pending) - {sig}
        else
          && p.frame == old(p.frame) && p.blocked == old(p.blocked) && p.sigActive == old(p.sigActive)
          && p.pending == if sig == 0 then old(p.pending) else old(p.pending) - {sig}
    {
      hide Linked, RingWithout, LowestPending, HandlerStack, InHandler;
      if !p.frame.user || p.sigActive || p.vforkShared { return false; }
      var sig := NextPending(p);
      if sig == 0 { return false; }
      blocks := Deliver(p, sig, trampoline);
    }

    /** The second half of signal_dispatch_pending: the signal that is due is taken. */
    method Deliver(p: Process, sig: nat, trampoline: bool) returns (blocks: bool)
      requires Valid() && p in world && !Gone(p.state) && !p.state.Waiting?
      requires sig == Due(p) != 0 && sig in p.pending - p.blocked
      modifies this`runQueue, this`ring, this`schedCurrent, this`procs, this`deferred, world`stopSignal
      modifies world`state, world`exitCode, world`pending, world`clearTid, world`vforkChild, world`schedNext
      modifies world`futexAddr, world`futexDeadline, world`futexPrivate, world`frame, world`waitPid, world`untraced
      modifies p`blocked, p`sigActive
      ensures Valid() && blocks == old(Blocks(p, trampoline)) && Dispatched(p, !blocks)
      ensures blocks ==> Gone(p.state) && OnlyWakes({p}) && (ring == old(ring) || ring == RingWithout(old(ring), p.pid))
      ensures !blocks ==> ring == old(ring) && forall q :: q in world ==> q.state == old(q.state)
      ensures !blocks ==> forall q :: q in world && q != p ==> q.frame == old(q.frame)
      ensures !blocks ==> var a := old(p.ActionFor(sig));
        && p.pending == old(p.pending) - {sig}
        && if sig != SIGKILL && sig != SIGSTOP && a.Caught? && trampoline then
             && p.frame == old(p.frame).(eip := a.handler, eax := 0, esp := HandlerStack(old(p.frame.esp)))
             && p.blocked == old(p.blocked) + a.mask + {sig} && p.sigActive
           else p.frame == old(p.frame) && p.blocked == old(p.blocked) && p.sigActive == old(p.sigActive)
    {
      hide Linked, RingWithout, LowestPending, HandlerStack, InHandler;
      p.pending := p.pending - {sig};
      var a := p.ActionFor(sig);
      if sig == SIGKILL || sig == SIGSTOP || a.Default? {
        blocks := ApplyDefault(p, sig);
        return;
      }
      if a.Ignored? { return false; }
      if !trampoline {
        blocks := ApplyDefault(p, sig);
        return;
      }
      EnterHandler(p, sig, a);
      blocks := false;
      InHandlerToo(p, old(p.frame), old(p.frame), {sig}, old(p.pending) + {SIGCHLD} - old(p.blocked));
    }

    lemma InHandlerToo(p: Process, f: Frame, f': Frame, sigs: set<nat>, sigs': set<nat>)
      requires InHandler(p, f, sigs) && f' == f.(eax := f'.eax) && sigs <= sigs'
      ensures InHandler(p, f', sigs')
    {
      var sig :| sig in sigs && EnteredFor(p, f, sig);
      assert EnteredFor(p, f', sig);
    }

    /** The registers at the start of a handler, and the signals it holds off. */
    method EnterHandler(p: Process, sig: nat, a: Action)
      requires 1 <= sig <= 31 && sig !in {SIGKILL, SIGSTOP} && a == p.ActionFor(sig) && a.Caught?
      modifies p`blocked, p`sigActive, p`frame
      ensures InHandler(p, old(p.frame), {sig}) && p.sigActive && p.blocked == old(p.blocked) + a.mask + {sig}
      ensures p.frame == old(p.frame).(eip := a.handler, eax := 0, esp := HandlerStack(old(p.frame.esp)))
    {
      p.blocked := p.blocked + a.mask + {sig};
      p.sigActive := true;
      p.frame := p.frame.(eip := a.handler, eax := 0, esp := HandlerStack(p.frame.esp));
      assert EnteredFor(p, old(p.frame), sig);
    }

    /** The user stack pointer below the 76-byte signal frame and three words, in 32 bits. */
    static function HandlerStack(esp: nat): (sp: nat)
      ensures sp % 4 == 0 && (92 <= esp < 0x1_0000_0000 ==> sp + 76 + 12 <= esp < sp + 76 + 12 + 4)
    {
      (esp / 4 * 4 - 88) % 0x1_0000_0000
    }

    // -------------------------------------------------------------------------
    // The trap path
    // -------------------------------------------------------------------------

    /** A blocked dispatch takes its process out of the game for good. */
    method TryDispatch(p: Process, trampoline: bool) returns (blocks: bool)
      requires Valid() && p in world && p.state.Ready?
      modifies this`runQueue, this`ring, this`schedCurrent, this`procs, this`deferred, world`stopSignal
      modifies world`state, world`exitCode, world`pending, world`clearTid, world`vforkChild, world`schedNext
      modifies world`futexAddr, world`futexDeadline, world`futexPrivate, world`frame, world`waitPid, world`untraced
      modifies p`blocked, p`sigActive
      ensures Valid() && blocks == old(Blocks(p, trampoline)) && OnlyWakes({p}) && Dispatched(p, !blocks)
      ensures blocks ==> Gone(p.state) && |Going()| < old(|Going()|)
      ensures !blocks ==> ring == old(ring) && forall q :: q in world ==> q.state == old(q.state)
      ensures old(Due(p)) == 0 ==> p.frame == old(p.frame) && SignalsKept()
    {
      hide Linked, Blocks, Due, RingWithout;
      blocks := DispatchPending(p, trampoline);
      if blocks { FewerGoing(p); }
    }

    ghost predicate NoneRunning()
      reads this, world
    {
      forall p :: p in world ==> !p.state.Running?
    }

    /** Only the current process is running. */
    ghost predicate OneRunning()
      reads this, world
    {
      forall p :: p in world && p.state.Running? ==> p == current
    }

    /** p comes before every ready user process of the run queue, or there is none if p is null. */
    ghost predicate Soonest(p: Process?)
      reads this`ring, ring, p
    {
      forall q :: q in ring && q.userMode && q.state.Ready? ==> p != null && p.vruntime <= q.vruntime
    }

    /** How a trap may move the states of processes it does not dispatch. */
    twostate predicate Drift(q: Process)
      reads q
    {
      || q.state == old(q.state)
      || (old(q.state).Waiting? && q.state.Ready?)
      || (Gone(q.state) && (old(q.state).Ready? || old(q.state).Waiting?))
    }

    lemma NothingDue(p: Process, trampoline: bool)
      ensures Due(p) == 0 ==> !Blocks(p, trampoline)
    {
    }

    static const IDLE: Frame := Frame(false, 0, 0, 0)

    /** The next process takes the processor. */
    method SwitchIn(next: Process, now: nat) returns (out: Frame)
      requires Valid() && NoneRunning() && Soonest(next) && next in world && next.userMode
      modifies this`schedCurrent, this`current, this`inIdle, next`state, next`cpuLast
      ensures Valid() && OneRunning() && Soonest(next)
      ensures current == next && next.state.Running? && schedCurrent == next && !inIdle && out == next.frame
      ensures next.cpuLast == now
      ensures !old(next.state).Waiting? ==>
        forall was, goes :: old(Treated(next, was, goes)) ==> Treated(next, was, goes)
    {
      hide Linked, HandlerEntered;
      next.state := Running;
      schedCurrent := next;
      current := next;
      next.cpuLast := now;
      inIdle := false;
      out := next.frame;
    }

    /** Picking again, without the process that was just blocked. */
    method PickReady(blocked: Process) returns (next: Process?)
      requires Valid()
      ensures Soonest(next) && (next != null ==> next in world && next.userMode && next.state.Ready?)
    {
      next := PickNext(blocked, true);
      assert next == null ==> forall q :: q in ring ==> !q.Candidate(blocked, true);
      if next != null {
        ghost var i :| PickedAt(i, next, blocked, true);
        assert forall q :: q in ring && q.Candidate(blocked, true) ==> exists k :: 0 <= k < |ring| && ring[k] == q;
      }
    }

    /** One round of the re-pick loop: the process may go on, or it is blocked and another is picked. */
    method Attempt(p: Process, trampoline: bool) returns (next: Process?, ready: bool)
      requires Valid() && NoneRunning() && Soonest(p) && p in world && p.userMode && p.state.Ready?
      modifies this`runQueue, this`ring, this`schedCurrent, this`procs, this`deferred, world`stopSignal
      modifies world`state, world`exitCode, world`pending, world`clearTid, world`vforkChild, world`schedNext
      modifies world`futexAddr, world`futexDeadline, world`futexPrivate, world`frame, world`waitPid, world`untraced
      modifies p`blocked, p`sigActive
      ensures Valid() && NoneRunning() && Soonest(next) && ready == !old(Blocks(p, trampoline))
      ensures next != null ==> next in world && next.userMode && next.state.Ready?
      ensures forall q :: q in world ==> Drift(q)
      ensures ready ==> next == p && ring == old(ring) && forall q :: q in world ==> q.state == old(q.state)
      ensures !ready ==> |Going()| < old(|Going()|)
      ensures Dispatched(p, ready)
      ensures old(Due(p)) == 0 ==> p.frame == old(p.frame) && SignalsKept()
    {
      hide Linked, Blocks, Due, RingWithout;
      var blocks := TryDispatch(p, trampoline);
      ready := !blocks;
      if blocks { next := PickReady(p); } else { next := p; }
    }

    lemma NobodyTreated()
      ensures forall q :: q in world ==> Treated(q, q.Standing(), false)
    {
    }

    /** A round as the loop sees it: what it has done to the processes since they stood as in `were`. */
    method Round(p: Process, trampoline: bool, ghost were: map<Process, Stand>) returns (next: Process?, ready: bool)
      requires Valid() && NoneRunning() && Soonest(p) && p in world && p.userMode && p.state.Ready?
      requires forall q :: q in world ==>
        q in were && Treated(q, were[q], false) && (q.state.Waiting? ==> were[q].waiting)
      modifies this`runQueue, this`ring, this`schedCurrent, this`procs, this`deferred, world`stopSignal
      modifies world`state, world`exitCode, world`pending, world`clearTid, world`vforkChild, world`schedNext
      modifies world`futexAddr, world`futexDeadline, world`futexPrivate, world`frame, world`waitPid, world`untraced
      modifies p`blocked, p`sigActive
      ensures Valid() && NoneRunning() && Soonest(next) && ready == !old(Blocks(p, trampoline))
      ensures next != null ==> next in world && next.userMode && next.state.Ready?
      ensures forall q :: q in world ==> Drift(q)
      ensures ready ==> next == p && ring == old(ring) && forall q :: q in world ==> q.state == old(q.state)
      ensures !ready ==> |Going()| < old(|Going()|)
      ensures world == old(world) && forall q :: q in world ==> Treated(q, were[q], ready && q == next)
      ensures old(Due(p)) == 0 ==> p.frame == old(p.frame) && SignalsKept()
    {
      hide Linked, Blocks, Due, RingWithout, Soonest, Valid, InHandler, Left;
      ghost var mid := map q | q in world :: q.Standing();
      next, ready := Attempt(p, trampoline);
      forall q | q in world && Left(mid[q], q.Standing()) ensures Left(were[q], q.Standing()) {
        LeftTwice(were[q], mid[q], q.Standing());
      }
      if HandlerEntered(p, mid[p]) { EnteredSince(p, were[p], mid[p]); }
    }

    lemma EnteredSince(p: Process, was: Stand, mid: Stand)
      requires Left(was, mid) && HandlerEntered(p, mid)
      ensures HandlerEntered(p, was)
    {
      var sigs, more := mid.pending + {SIGCHLD} - mid.blocked, was.pending + {SIGCHLD} - was.blocked;
      InHandlerToo(p, mid.frame, was.frame, sigs, more);
    }

    /** The re-pick loop: it ends because every blocked dispatch leaves fewer processes going. */
    method Dispatch(first: Process?, now: nat, trampoline: bool) returns (out: Frame)
      requires Valid() && NoneRunning() && Soonest(first)
      requires first != null ==> first in world && first.userMode && first.state.Ready?
      modifies this`runQueue, this`ring, this`schedCurrent, this`procs, this`deferred, this`current, this`inIdle
      modifies world`stopSignal, world`state, world`exitCode, world`pending, world`clearTid, world`vforkChild,
        world`schedNext
      modifies world`futexAddr, world`futexDeadline, world`futexPrivate, world`frame, world`waitPid, world`untraced
      modifies world`blocked, world`sigActive, world`cpuLast
      ensures Valid() && OneRunning() && Soonest(current)
      ensures forall q :: q in world && q != current ==> Drift(q)
      ensures world == old(world) && forall q :: q in world ==> Treated(q, old(q.Standing()), q == current)
      ensures current == null ==> out == IDLE && inIdle == old(inIdle)
      ensures current != null ==>
        && current in world && current.userMode && current.state.Running? && schedCurrent == current
        && !inIdle && out == current.frame && current.cpuLast == now
      ensures first != null && !old(Blocks(first, trampoline)) ==>
        current == first && ring == old(ring) && forall q :: q in world && q != first ==> q.state == old(q.state)
      ensures first != null && old(Due(first)) == 0 ==> out == old(first.frame) && SignalsKept()
    {
      hide Linked, Blocks, Due, RingWithout, Soonest, Valid, Treated;
      var next := PickUntilReady(first, trampoline);
      if next != null {
        out := SwitchIn(next, now);
        return;
      }
      current := null;
      out := IDLE;
    }

    /** Its loop: the process that may go on, or null. */
    method PickUntilReady(first: Process?, trampoline: bool) returns (next: Process?)
      requires Valid() && NoneRunning() && Soonest(first)
      requires first != null ==> first in world && first.userMode && first.state.Ready?
      modifies this`runQueue, this`ring, this`schedCurrent, this`procs, this`deferred
      modifies world`stopSignal, world`state, world`exitCode, world`pending, world`clearTid, world`vforkChild
      modifies world`schedNext, world`futexAddr, world`futexDeadline, world`futexPrivate, world`frame, world`waitPid
      modifies world`untraced, world`blocked, world`sigActive
      ensures Valid() && NoneRunning() && Soonest(next)
      ensures next != null ==> next in world && next.userMode && next.state.Ready?
      ensures forall q :: q in world ==> Drift(q)
      ensures world == old(world) && forall q :: q in world ==> Treated(q, old(q.Standing()), q == next)
      ensures first != null && !old(Blocks(first, trampoline)) ==>
        next == first && ring == old(ring) && forall q :: q in world ==> q.state == old(q.state)
      ensures first != null && old(Due(first)) == 0 ==>
        next == first && first.frame == old(first.frame) && SignalsKept()
    {
      hide Linked, Blocks, Due, RingWithout, Soonest, Valid, Treated;
      ghost var were := map q | q in world :: q.Standing();
      NobodyTreated();
      if first != null { NothingDue(first, trampoline); }
      ghost var stuck := first == null || Blocks(first, trampoline);
      next := first;
      var ready := false;
      while next != null && !ready
        invariant Valid() && NoneRunning() && Soonest(next)
        invariant next != null ==> next in world && next.userMode && next.state.Ready?
        invariant ready ==> next != null
        invariant forall q :: q in world ==> Drift(q)
        invariant world == old(world) && forall q :: q in world ==> Treated(q, were[q], ready && q == next)
        invariant !stuck ==> next == first && ring == old(ring) && forall q :: q in world ==> q.state == old(q.state)
        invariant !stuck && !ready ==> Blocks(first, trampoline) == old(Blocks(first, trampoline))
        invariant !stuck && old(Due(first)) == 0 ==> first.frame == old(first.frame) && SignalsKept()
        invariant !stuck && old(Due(first)) == 0 && !ready ==> Due(first) == 0
        decreases |Going()|, !ready
      {
        next, ready := Round(next, trampoline, were);
      }
    }

    /** Accounting for the outgoing process, and its registers saved. */
    method SwitchOut(p: Process, regs: Frame, now: nat)
      modifies p`state, p`cpuTicks, p`vruntime, p`frame
      ensures p.frame == regs && p.state == if old(p.state).Running? then Ready else old(p.state)
      ensures if old(p.state).Running? && now >= p.cpuLast then
                && p.cpuTicks == (old(p.cpuTicks) + (now - p.cpuLast)) % 0x1_0000_0000
                && p.vruntime == (old(p.vruntime) + Charge(now - p.cpuLast, p.prio)) % 0x1_0000_0000_0000_0000
              else p.cpuTicks == old(p.cpuTicks) && p.vruntime == old(p.vruntime)
    {
      if p.state.Running? {
        if now >= p.cpuLast {
          var delta := now - p.cpuLast;
          p.cpuTicks := (p.cpuTicks + delta) % 0x1_0000_0000;
          p.vruntime := (p.vruntime + Charge(delta, p.prio)) % 0x1_0000_0000_0000_0000;
        }
        p.state := Ready;
      }
      p.frame := regs;
    }

    /** A trap that may switch: from user mode, or from the idle loop. */
    predicate Switches(regs: Frame)
      reads this, current
    {
      (current != null && current.userMode && regs.user) || (current == null && inIdle)
    }

    /** The ring as the fairness results see it. */
    ghost function Tasks(r: seq<Process>): (ts: seq<Task>)
      reads r
      ensures |ts| == |r| && forall i :: 0 <= i < |r| ==> ts[i] == Task(r[i].prio, r[i].vruntime, r[i].cpuTicks)
    {
      seq(|r|, i requires 0 <= i < |r| reads r => Task(r[i].prio, r[i].vruntime, r[i].cpuTicks))
    }

    ghost function RingSys(): (s: Sys)
      requires current != null && current in ring
      reads this, ring, current
      ensures s.cur < |s.tasks| && s.tasks == Tasks(ring)
    {
      Sys(Tasks(ring), PidAt(ring, current.pid))
    }

    /** A whole ring of runnable user processes with no signal due, the current one running, and no
        counter about to wrap. */
    ghost predicate AllRunnable(now: nat)
      reads this, ring, current
    {
      && Quiet() && now >= current.cpuLast
      && current.vruntime + Charge(now - current.cpuLast, current.prio) < 0x1_0000_0000_0000_0000
      && current.cpuTicks + (now - current.cpuLast) < 0x1_0000_0000
    }

    ghost predicate Quiet()
      reads this, ring, current
    {
      && current != null && current in ring && current.state.Running?
      && forall q :: q in ring ==> q.userMode && q.pending <= q.blocked && (q == current || q.state.Ready?)
    }

    /** How a process stands once the registers of the outgoing one are saved. */
    static ghost function Interrupted(q: Process, outgoing: Process?, regs: Frame, was: Stand): Stand {
      if q == outgoing then was.(frame := regs) else was
    }

    /** scheduler_handle_trap, once it is clear that it may switch. */
    method Switch(regs: Frame, now: nat, rotate: bool, trampoline: bool) returns (out: Frame)
      requires Valid() && OneRunning() && (current != null ==> current in world && current.userMode)
      modifies this`runQueue, this`ring, this`schedCurrent, this`procs, this`deferred, this`current, this`inIdle
      modifies world
      ensures Valid() && OneRunning() && Soonest(current) && world == old(world)
      ensures current == null ==> out == IDLE
      ensures current != null ==>
        && current in world && current.userMode && current.state.Running? && schedCurrent == current
        && !inIdle && out == current.frame && current.cpuLast == now
      ensures forall q :: q in world && q != old(current) ==>
        q.vruntime == old(q.vruntime) && q.cpuTicks == old(q.cpuTicks)
      ensures forall q :: q in world && q != old(current) && q != current ==> Drift(q)
      ensures forall q :: q in world ==> Treated(q, Interrupted(q, old(current), regs, old(q.Standing())), q == current)
      ensures old(AllRunnable(now)) ==>
        ring == old(ring) && Quiet() && RingSys() == Step(old(RingSys()), now - old(current.cpuLast))
    {
      hide Linked, Blocks, Due, RingWithout, Step, Tasks, PidAt, Charge, Treated, Soonest, Valid, AllReady;
      ghost var fair := AllRunnable(now);
      ghost var s := if fair then Step(RingSys(), now - current.cpuLast) else Sys([Task(0, 0, 0)], 0);
      var next := Choose(regs, now, rotate);
      out := Resume(next, now, trampoline, s, fair);
    }

    /** The second half of a switch: the dispatch, which ends a fair step that has begun. */
    method Resume(next: Process?, now: nat, trampoline: bool, ghost s: Sys, ghost fair: bool) returns (out: Frame)
      requires Valid() && NoneRunning() && Soonest(next)
      requires next != null ==> next in world && next.userMode && next.state.Ready?
      requires fair ==> FairNext(next, s) && AllReady()
      modifies this`runQueue, this`ring, this`schedCurrent, this`procs, this`deferred, this`current, this`inIdle
      modifies world`stopSignal, world`state, world`exitCode, world`pending, world`clearTid, world`vforkChild
      modifies world`schedNext, world`futexAddr, world`futexDeadline, world`futexPrivate, world`frame, world`waitPid
      modifies world`untraced, world`blocked, world`sigActive, world`cpuLast
      ensures Valid() && OneRunning() && Soonest(current)
      ensures forall q :: q in world && q != current ==> Drift(q)
      ensures world == old(world) && forall q :: q in world ==> Treated(q, old(q.Standing()), q == current)
      ensures current == null ==> out == IDLE
      ensures current != null ==>
        && current in world && current.userMode && current.state.Running? && schedCurrent == current
        && !inIdle && out == current.frame && current.cpuLast == now
      ensures fair ==> ring == old(ring) && Quiet() && RingSys() == s
    {
      hide Linked, Blocks, Due, RingWithout, Tasks, PidAt, Treated, Soonest, Valid, Drift;
      RingInWorld();
      if next != null && next.pending <= next.blocked { NothingPending(next, trampoline); }
      out := Dispatch(next, now, trampoline);
      if fair {
        TasksKept();
        PidAtIs(ring, current.pid, s.cur);
      }
    }

    ghost predicate AllReady()
      reads this`ring, ring
    {
      forall q :: q in ring ==> q.userMode && q.state.Ready? && q.pending <= q.blocked
    }

    lemma RingInWorld()
      requires Valid()
      ensures forall q :: q in ring ==> q in world
    {
    }

    /** Nothing the fairness results look at has changed. */
    twostate lemma TasksKept()
      requires ring == old(ring)
      requires forall q :: q in ring ==> q.vruntime == old(q.vruntime) && q.cpuTicks == old(q.cpuTicks)
      ensures Tasks(ring) == old(Tasks(ring))
    {
    }

    lemma NothingPending(p: Process, trampoline: bool)
      requires p.pending <= p.blocked
      ensures Due(p) == 0 && !Blocks(p, trampoline)
    {
      assert p.pending - p.blocked == {};
    }

    /** The first half of a switch: the outgoing process is charged, and the next one picked. */
    method Choose(regs: Frame, now: nat, rotate: bool) returns (next: Process?)
      requires Valid() && OneRunning() && (current != null ==> current in world && current.userMode)
      modifies world`state, world`cpuTicks, world`vruntime, world`frame
      ensures forall q :: q in world && q != current ==>
        && q.state == old(q.state) && q.cpuTicks == old(q.cpuTicks)
        && q.vruntime == old(q.vruntime) && q.frame == old(q.frame)
      ensures Valid() && NoneRunning() && Soonest(next)
      ensures next != null ==> next in world && next.userMode && next.state.Ready?
      ensures current != null ==> current.state == if old(current.state).Running? then Ready else old(current.state)
      ensures current != null ==> current.frame == regs
      ensures old(AllRunnable(now)) ==> FairNext(next, Step(old(RingSys()), now - old(current.cpuLast))) && AllReady()
    {
      hide Linked, RingWithout, PidAt, Charge, Step, FairNext, Tasks, RingSys, AllRunnable;
      ghost var s, fair := Outgoing(regs, now);
      var only := rotate || (current != null && !current.state.Running? && !current.state.Ready?);
      next := PickNext(current, only);
      SoonestPick(next, current, only);
      if fair { FairChoice(next, current, only, s); }
      if next == null && current != null && current.state.Ready? { next := current; }
    }

    /** The outgoing process, if there is one; `s` is the fair step in the making. */
    method Outgoing(regs: Frame, now: nat) returns (ghost s: Sys, ghost fair: bool)
      requires Valid() && OneRunning() && (current != null ==> current in world && current.userMode)
      modifies world`state, world`cpuTicks, world`vruntime, world`frame
      ensures forall q :: q in world && q != current ==>
        && q.state == old(q.state) && q.cpuTicks == old(q.cpuTicks)
        && q.vruntime == old(q.vruntime) && q.frame == old(q.frame)
      ensures Valid() && NoneRunning() && fair == old(AllRunnable(now))
      ensures current != null ==> current.state == if old(current.state).Running? then Ready else old(current.state)
      ensures current != null ==> current.frame == regs
      ensures fair ==>
        && s == Step(old(RingSys()), now - old(current.cpuLast))
        && Tasks(ring) == s.tasks && ring != [] && s.cur == FirstMin(s.tasks)
      ensures fair ==> forall q :: q in ring ==> q.userMode && q.state.Ready? && q.pending <= q.blocked
    {
      hide Linked, RingWithout, PidAt, Charge, Step, Tasks;
      fair := AllRunnable(now);
      s := Sys([Task(0, 0, 0)], 0);
      if current == null { return; }
      ghost var s0, delta := s, 0;
      if fair {
        s0, delta := RingSys(), now - current.cpuLast;
        s := Step(s0, delta);
        RingPlace();
      }
      SwitchOut(current, regs, now);
      if fair { Charged(s0, delta); }
    }

    lemma RingPlace()
      requires Valid() && current != null && current in ring
      ensures RingSys().cur < |ring| && ring[RingSys().cur] == current
      ensures forall k :: 0 <= k < |ring| && k != RingSys().cur ==> ring[k] in ring && ring[k] != current
    {
    }

    /** With nobody running, every candidate is a ready user process. */
    lemma SoonestPick(next: Process?, cur: Process?, rotate: bool)
      requires Valid() && IsPick(next, cur, rotate) && NoneRunning()
      ensures Soonest(next) && (next != null ==> next in world && next.userMode && next.state.Ready?)
      ensures next == null ==> forall q :: q in ring ==> !q.userMode || !q.state.Ready?
    {
      assert forall q :: q in ring ==> exists k :: 0 <= k < |ring| && ring[k] == q;
    }

    /** Charging the current process is the first half of a fair step. */
    lemma Charged(s0: Sys, delta: nat)
      requires current != null && s0.cur < |ring| == |s0.tasks| && ring[s0.cur] == current
      requires forall k :: 0 <= k < |ring| && k != s0.cur ==>
        s0.tasks[k] == Task(ring[k].prio, ring[k].vruntime, ring[k].cpuTicks)
      requires var t := s0.tasks[s0.cur];
        current.prio == t.prio && current.vruntime == t.vr + Charge(delta, t.prio) && current.cpuTicks == t.cpu + delta
      ensures Tasks(ring) == Step(s0, delta).tasks
    {
      hide Charge, Tasks;
      var t := s0.tasks[s0.cur];
      assert Step(s0, delta).tasks == s0.tasks[s0.cur := t.(vr := t.vr + Charge(delta, t.prio), cpu := t.cpu + delta)];
    }

    /** `next` is what a fair step would dispatch, and nothing keeps it from going on. */
    ghost predicate FairNext(next: Process?, s: Sys)
      reads this`ring, ring, next
    {
      && next != null && s.cur < |ring| && ring[s.cur] == next && Tasks(ring) == s.tasks && next.pending <= next.blocked
      && forall k :: 0 <= k < s.cur ==> ring[k].pid != next.pid
    }

    /** Among processes that are all ready, the pick is the fair step's choice. */
    lemma FairChoice(next: Process?, cur: Process?, rotate: bool, s: Sys)
      requires Valid() && IsPick(next, cur, rotate) && ring != [] && s.tasks != [] && s.cur == FirstMin(s.tasks)
      requires forall q :: q in ring ==> q.userMode && q.state.Ready? && q.pending <= q.blocked
      requires Tasks(ring) == s.tasks
      ensures FairNext(next, s)
    {
      hide Charge, Tasks;
      assert ring[0] in ring && ring[0].Candidate(cur, rotate);
      var i :| PickedAt(i, next, cur, rotate);
      assert forall k :: 0 <= k < |ring| ==> ring[k] in ring && ring[k].Candidate(cur, rotate);
      FirstMinUnique(s.tasks, i);
      SamePid(i);
    }

    lemma SamePid(i: nat)
      requires Valid() && i < |ring|
      ensures forall k :: 0 <= k < i ==> ring[k].pid != ring[i].pid
    {
      assert forall k :: 0 <= k < |ring| ==> ring[k] in ring;
    }

    /** scheduler_handle_trap. If it switches, the registers of the outgoing process are saved, and
        every process goes on, now or later, from the registers it had, from the result of the call it
        was waiting in, or, if it is dispatched now, in a handler. */
    method HandleTrap(regs: Frame, now: nat, rotate: bool, trampoline: bool) returns (out: Frame)
      requires Valid() && OneRunning() && (current != null ==> current in world)
      modifies this`runQueue, this`ring, this`schedCurrent, this`procs, this`deferred, this`current, this`inIdle
      modifies world
      ensures Valid() && OneRunning() && world == old(world)
      ensures !old(Switches(regs)) ==> out == regs && current == old(current) && ring == old(ring)
      ensures !old(Switches(regs)) ==> forall q :: q in world ==>
        q.state == old(q.state) && q.vruntime == old(q.vruntime) && q.frame == old(q.frame)
      ensures old(Switches(regs)) ==> forall q :: q in world ==>
        Treated(q, Interrupted(q, old(current), regs, old(q.Standing())), q == current)
      ensures old(Switches(regs)) && current != null && current == old(current) && old(current.state).Running? ==>
        out == regs || HandlerEntered(current, old(current.Standing()).(frame := regs))
      ensures old(Switches(regs)) ==> Soonest(current)
      ensures old(Switches(regs)) && current == null ==> out == IDLE
      ensures old(Switches(regs)) && current != null ==>
        && current in world && current.userMode && current.state.Running? && schedCurrent == current
        && !inIdle && out == current.frame && current.cpuLast == now
      ensures forall q :: q in world && q != old(current) ==>
        q.vruntime == old(q.vruntime) && q.cpuTicks == old(q.cpuTicks)
      ensures forall q :: q in world && q != old(current) && q != current ==> Drift(q)
      ensures old(Switches(regs)) && old(AllRunnable(now)) ==>
        ring == old(ring) && Quiet() && RingSys() == Step(old(RingSys()), now - old(current.cpuLast))
    {
      if !(current != null && current.userMode && regs.user) && !(current == null && inIdle) { return regs; }
      out := Switch(regs, now, rotate, trampoline);
    }

    predicate SleepIsOver(q: Process, now: nat)
      reads q
    {
      q.state.Sleeping? && now >= q.sleepUntil
    }

    predicate FutexIsOver(q: Process, now: nat)
      reads q
    {
      q.state.Waiting? && q.futexAddr != 0 && q.futexDeadline != 0 && now >= q.futexDeadline
    }

    lemma RingEnds()
      requires Valid()
      ensures if ring == [] then runQueue == null else runQueue == ring[0]
      ensures forall i, j :: 0 <= i < j < |ring| ==> ring[i] != ring[j]
    {
    }

    /** What one tick does to one process. */
    twostate predicate Ticked(q: Process, now: nat, min: nat)
      reads q
    {
      && q.state == (if old(SleepIsOver(q, now)) || old(FutexIsOver(q, now)) then Ready else old(q.state))
      && q.vruntime == (if old(SleepIsOver(q, now)) && old(q.vruntime) < min then min else old(q.vruntime))
      && (old(FutexIsOver(q, now)) ==>
            q.futexAddr == 0 && q.futexDeadline == 0 && q.frame == old(q.frame).(eax := -110))
      && (!old(FutexIsOver(q, now)) ==>
            q.futexAddr == old(q.futexAddr) && q.futexDeadline == old(q.futexDeadline) && q.frame == old(q.frame))
    }

    /** scheduler_tick: due sleepers wake no earlier in virtual time than the least live process, and
        futex waits whose deadline has passed time out. */
    method Tick(now: nat) returns (ghost min: nat)
      requires Valid()
      modifies ring`state, ring`vruntime, ring`futexAddr, ring`futexDeadline, ring`frame
      ensures Valid() && old(IsLeast(min)) && forall q :: q in ring ==> Ticked(q, now, min)
    {
      hide Linked, IsLeast, RingWithout;
      var least := MinVruntime();
      min := least;
      RingEnds();
      if runQueue == null { return; }
      var p: Process := runQueue;
      ghost var i := 0;
      while true
        invariant i < |ring| && p == ring[i] && Valid()
        invariant forall k :: 0 <= k < i ==> Ticked(ring[k], now, least)
        invariant forall k :: i <= k < |ring| ==> Same(ring[k])
        decreases |ring| - i
      {
        NextInRing(i);
        assert Same(ring[i]);
        TickOne(p, now, least);
        p := p.schedNext;
        i := i + 1;
        if p == runQueue { break; }
      }
      assert i == |ring|;
    }

    method TickOne(p: Process, now: nat, least: nat)
      modifies p`state, p`vruntime, p`futexAddr, p`futexDeadline, p`frame
      ensures Ticked(p, now, least)
    {
      if p.state.Sleeping? && now >= p.sleepUntil {
        p.state := Ready;
        if p.vruntime < least { p.vruntime := least; }
      } else if p.state.Waiting? && p.futexAddr != 0 && p.futexDeadline != 0 && now >= p.futexDeadline {
        p.state := Ready;
        p.futexAddr, p.futexDeadline := 0, 0;
        p.frame := p.frame.(eax := -110);
      }
    }

    twostate predicate Same(q: Process)
      reads q
    {
      q.state == old(q.state) && q.vruntime == old(q.vruntime) && q.futexAddr == old(q.futexAddr)
      && q.futexDeadline == old(q.futexDeadline) && q.frame == old(q.frame) && q.sleepUntil == old(q.sleepUntil)
    }

    // -------------------------------------------------------------------------
    // Sending
    // -------------------------------------------------------------------------

    /** A parent that waits for the stop of p has been told; otherwise the stop is kept for it. */
    twostate predicate StopTold(p: Process, parent: Process?)
      reads p, parent
    {
      if parent != null && parent != p && old(parent.untraced) && old(WaitMatches(parent, p)) then
        parent.state.Ready? && parent.frame.eax == p.pid && p.stopSignal == 0
      else p.stopSignal == SIGSTOP && (parent != null && parent != p ==> parent.state == old(parent.state))
    }

    /** What SIGSTOP does at once. */
    method StopNow(p: Process)
      requires Valid() && p in world && !p.state.Stopped?
      modifies world`state, world`frame, world`waitPid, world`untraced, p`stopSignal
      ensures Valid() && OnlyWakes({p}) && AllLeftAlone() && p.state.Stopped? && StopTold(p, old(ParentOf(p)))
    {
      hide Linked, RingWithout;
      p.stopSignal := SIGSTOP;
      p.state := Stopped;
      NotifyStopped(p);
    }

    /** signal_send_pid. */
    method SendPid(pid: nat, sig: nat) returns (r: int)
      requires Valid()
      modifies this`runQueue, this`ring, this`schedCurrent, this`procs, this`deferred, world`stopSignal
      modifies world`state, world`exitCode, world`pending, world`clearTid, world`vforkChild, world`schedNext
      modifies world`futexAddr, world`futexDeadline, world`futexPrivate, world`frame, world`waitPid, world`untraced
      ensures Valid() && r == if 1 <= sig <= 31 && old(PidIn(pid)) != null then 0 else -1
      ensures r == -1 ==> forall q :: q in world ==> q.state == old(q.state) && q.pending == old(q.pending)
      ensures forall q :: q in world && q != old(PidIn(pid)) ==> LeftAlone(q)
      ensures r == 0 && sig == SIGKILL ==> var p := old(PidIn(pid));
        && (!old(p.state).Zombie? && !old(p.state).Dead? ==>
              && p.exitCode == 128 + SIGKILL && NobodyWaitsFor(p)
              && (!p.thread && old(ParentOf(p)) != null ==> SIGCHLD in old(ParentOf(p)).pending))
      ensures r == 0 && sig == SIGSTOP && !old(PidIn(pid).state).Stopped? ==>
        StopTold(old(PidIn(pid)), old(ParentOf(PidIn(pid))))
      ensures r == 0 ==> var p := old(PidIn(pid));
        && OnlyWakes({p})
        && (p.state == SentTo(old(p.state), sig) || (sig == SIGKILL && p.state.Dead?))
        && (sig != SIGKILL && sig != SIGSTOP ==>
              p.pending == if sig == SIGCONT then old(p.pending) - {sig} else old(p.pending) + {sig})
    {
      hide Linked, RingWithout;
      if sig < 1 || sig > 31 { return -1; }
      var p := FindPid(pid);
      if p == null { return -1; }
      if sig == SIGKILL {
        MarkExited(p, 128 + sig);
      } else if sig == SIGSTOP {
        if !p.state.Stopped? { StopNow(p); }
      } else if sig == SIGCONT {
        p.pending := p.pending - {sig};
        if p.state.Stopped? || p.state.Waiting? { p.state := Ready; }
      } else {
        p.pending := p.pending + {sig};
      }
      r := 0;
    }
  }

  /** The state a signal leaves its target in at once; an exit may then also retire it. */
  function SentTo(s: PState, sig: nat): PState {
    if sig == SIGKILL then (if s.Zombie? || s.Dead? then s else Zombie)
    else if sig == SIGSTOP then Stopped
    else if sig == SIGCONT then (if s.Stopped? || s.Waiting? then Ready else s)
    else s
  }

  function SentAll(s: PState, sigs: seq<nat>): PState {
    if sigs == [] then s else SentTo(SentAll(s, sigs[..|sigs| - 1]), sigs[|sigs| - 1])
  }

  /** An unreaped process that has exited stays exited under the signals sent to it exactly when
      SIGSTOP is not among them: a stop does not look at whether the process has exited. */
  lemma {:induction false} ExitedStaysExitedIff(sigs: seq<nat>)
    ensures ExitedThroughout(sigs) <==> SIGSTOP !in sigs
  {
    if sigs == [] {
      assert sigs[..0] == [];
    } else {
      var before := sigs[..|sigs| - 1];
      ExitedStaysExitedIff(before);
      OneSignalMore(sigs);
      ExitedSoFar(before);
      assert sigs == before + [sigs[|sigs| - 1]];
    }
  }

  ghost predicate ExitedThroughout(sigs: seq<nat>) {
    forall k :: 0 <= k <= |sigs| ==> SentAll(Zombie, sigs[..k]).Zombie?
  }

  lemma OneSignalMore(sigs: seq<nat>)
    requires sigs != []
    ensures ExitedThroughout(sigs) <==> ExitedThroughout(sigs[..|sigs| - 1]) && SentAll(Zombie, sigs).Zombie?
  {
    hide SentAll;
    var before := sigs[..|sigs| - 1];
    assert forall k :: 0 <= k <= |before| ==> sigs[..k] == before[..k];
    assert sigs[..|sigs|] == sigs;
  }

  lemma ExitedSoFar(sigs: seq<nat>)
    ensures ExitedThroughout(sigs) ==> SentAll(Zombie, sigs).Zombie?
  {
    hide SentAll;
    assert sigs[..|sigs|] == sigs;
  }

  /** A stop and a continue make an exited process ready to run again. */
  lemma ExitedRunsAgain()
    ensures SentAll(Zombie, [SIGSTOP, SIGCONT]) == Ready
  {
    assert [SIGSTOP, SIGCONT][..1] == [SIGSTOP];
    assert [SIGSTOP][..0] == [];
  }
}
