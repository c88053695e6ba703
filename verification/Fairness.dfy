/** The arithmetic of the fair scheduler (kernel/scheduler.c): weights, charges, and what picking
    the smallest virtual runtime first means for a set of processes that are always runnable. */
module Fairness {

  const NICE0: nat := 1024

  /** cfs_get_weight: priorities are clamped to 1..10. */
  function Weight(prio: nat): (w: nat)
    ensures 423 <= w <= 3121
    ensures w <= NICE0 <==> prio <= 5
  {
    if prio <= 1 then 423
    else if prio == 2 then 526
    else if prio == 3 then 655
    else if prio == 4 then 820
    else if prio == 5 then 1024
    else if prio == 6 then 1277
    else if prio == 7 then 1586
    else if prio == 8 then 1991
    else if prio == 9 then 2501
    else 3121
  }

  /** Virtual runtime for a slice of `delta` ticks, computed in 32 bits. */
  function Charge(delta: nat, prio: nat): nat { delta * 1024 % 0x1_0000_0000 / Weight(prio) }

  /** Slices short enough for the product to fit. */
  const SLICE_LIMIT: nat := 0x40_0000

  /** Each priority weighs about a quarter more than the one below, the fifth 1024. */
  lemma WeightSteps(prio: nat)
    requires 1 <= prio < 10
    ensures 124 * Weight(prio) <= 100 * Weight(prio + 1) <= 126 * Weight(prio) && Weight(5) == NICE0
    ensures Weight(0) == Weight(1) && Weight(prio + 9) == Weight(10)
  {
  }

  /** A charge is the time at the default weight that the slice is worth, rounded down. */
  lemma ChargeIs(delta: nat, prio: nat)
    requires delta < SLICE_LIMIT
    ensures Charge(delta, prio) * Weight(prio) <= delta * NICE0 < (Charge(delta, prio) + 1) * Weight(prio)
  {
    var a, w := delta * 1024, Weight(prio);
    assert a % 0x1_0000_0000 == a && a == a / w * w + a % w && (a / w + 1) * w == a / w * w + w;
  }

  lemma {:induction false} MulGap(r: nat, q: nat, w: nat)
    ensures r < q ==> r * w + w <= q * w
  {
    if q > 0 {
      assert q * w == (q - 1) * w + w;
      if r < q - 1 { MulGap(r, q - 1, w); }
    }
  }

  lemma DivMono(a: nat, b: nat, w: nat)
    requires a <= b && w > 0
    ensures a / w <= b / w
  {
    var q, r := a / w, b / w;
    assert a == q * w + a % w && b == r * w + b % w;
    MulGap(r, q, w);
  }

  lemma ChargeMono(d: nat, e: nat, prio: nat)
    requires d <= e < SLICE_LIMIT
    ensures Charge(d, prio) <= Charge(e, prio)
  {
    var a, b := d * 1024, e * 1024;
    assert a % 0x1_0000_0000 == a && b % 0x1_0000_0000 == b;
    DivMono(a, b, Weight(prio));
  }

  lemma ChargeAtLeastTicks(d: nat, prio: nat)
    requires d < SLICE_LIMIT && prio <= 5
    ensures d <= Charge(d, prio)
  {
    var w, a := Weight(prio), d * 1024;
    var q := a / w;
    assert a == q * w + a % w;
    MulGap(q, d, w);
    assert d * w <= d * 1024;
  }

  /** Every tick costs at least one unit exactly at priorities up to 5. */
  lemma ChargesEveryTickIff(prio: nat)
    ensures (forall d: nat :: d < SLICE_LIMIT ==> d <= Charge(d, prio)) <==> prio <= 5
  {
    if prio <= 5 {
      forall d: nat | d < SLICE_LIMIT ensures d <= Charge(d, prio) { ChargeAtLeastTicks(d, prio); }
    } else {
      assert Charge(1, prio) == 0;
    }
  }

  lemma DefaultChargesTicks(d: nat)
    requires d < SLICE_LIMIT
    ensures Charge(d, 5) == d
  {
  }

  // ---------------------------------------------------------------------------
  // Runs of always-runnable processes
  // ---------------------------------------------------------------------------

  datatype Task = Task(prio: nat, vr: nat, cpu: nat)
  datatype Sys = Sys(tasks: seq<Task>, cur: nat)

  ghost predicate IsFirstMin(ts: seq<Task>, i: nat) {
    i < |ts| && (forall k :: 0 <= k < |ts| ==> ts[i].vr <= ts[k].vr) && forall k :: 0 <= k < i ==> ts[i].vr < ts[k].vr
  }

  function FirstMin(ts: seq<Task>): (i: nat)
    requires ts != []
    ensures IsFirstMin(ts, i)
  {
    if |ts| == 1 then 0
    else
      var best := FirstMin(ts[..|ts| - 1]);
      assert ts[..|ts| - 1][best] == ts[best];
      if ts[|ts| - 1].vr < ts[best].vr then |ts| - 1 else best
  }

  lemma FirstMinUnique(ts: seq<Task>, i: nat)
    requires ts != [] && IsFirstMin(ts, i)
    ensures i == FirstMin(ts)
  {
  }

  /** A trap after `delta` ticks: the outgoing process is charged, the next one is picked. */
  function Step(s: Sys, delta: nat): (s': Sys)
    requires s.cur < |s.tasks|
    ensures |s'.tasks| == |s.tasks| && s'.cur < |s'.tasks| && s'.cur == FirstMin(s'.tasks)
  {
    var t := s.tasks[s.cur];
    var ts := s.tasks[s.cur := t.(vr := t.vr + Charge(delta, t.prio), cpu := t.cpu + delta)];
    Sys(ts, FirstMin(ts))
  }

  function Run(s: Sys, deltas: seq<nat>): (s': Sys)
    requires s.cur < |s.tasks|
    ensures |s'.tasks| == |s.tasks| && s'.cur < |s'.tasks|
  {
    if deltas == [] then s else Step(Run(s, deltas[..|deltas| - 1]), deltas[|deltas| - 1])
  }

  ghost predicate Dispatched(s: Sys) {
    s.cur < |s.tasks| && forall k :: 0 <= k < |s.tasks| ==> s.tasks[s.cur].vr <= s.tasks[k].vr
  }

  ghost predicate Spread(ts: seq<Task>, c: nat) {
    forall i, j :: 0 <= i < |ts| && 0 <= j < |ts| ==> ts[i].vr <= ts[j].vr + c
  }

  ghost predicate SamePrios(ts: seq<Task>, us: seq<Task>) {
    |ts| == |us| && forall i :: 0 <= i < |ts| ==> ts[i].prio == us[i].prio
  }

  /** The largest charge any of the processes can get for one slice of at most `slice` ticks. */
  function LargestCharge(ts: seq<Task>, slice: nat): (c: nat)
    ensures forall i :: 0 <= i < |ts| ==> Charge(slice, ts[i].prio) <= c
  {
    if ts == [] then 0
    else
      var c, d := LargestCharge(ts[..|ts| - 1], slice), Charge(slice, ts[|ts| - 1].prio);
      assert forall i :: 0 <= i < |ts| - 1 ==> ts[..|ts| - 1][i] == ts[i];
      if c < d then d else c
  }

  ghost predicate Slices(deltas: seq<nat>, slice: nat) {
    slice < SLICE_LIMIT && forall i :: 0 <= i < |deltas| ==> deltas[i] <= slice
  }

  /** Virtual runtimes never drift further apart than the largest single charge. */
  lemma {:induction false} SpreadKept(s: Sys, deltas: seq<nat>, slice: nat)
    requires Dispatched(s) && Slices(deltas, slice) && Spread(s.tasks, LargestCharge(s.tasks, slice))
    ensures var s' := Run(s, deltas);
            Dispatched(s') && SamePrios(s'.tasks, s.tasks) && Spread(s'.tasks, LargestCharge(s.tasks, slice))
  {
    if deltas != [] {
      SpreadKept(s, deltas[..|deltas| - 1], slice);
      StepSpread(Run(s, deltas[..|deltas| - 1]), deltas[|deltas| - 1], slice, s.tasks);
    }
  }

  lemma StepSpread(s: Sys, delta: nat, slice: nat, ts: seq<Task>)
    requires Dispatched(s) && delta <= slice < SLICE_LIMIT && SamePrios(s.tasks, ts)
    requires Spread(s.tasks, LargestCharge(ts, slice))
    ensures var s' := Step(s, delta);
            Dispatched(s') && SamePrios(s'.tasks, ts) && Spread(s'.tasks, LargestCharge(ts, slice))
  {
    ChargeMono(delta, slice, s.tasks[s.cur].prio);
    assert s.tasks[s.cur].prio == ts[s.cur].prio;
  }

  // ---------------------------------------------------------------------------
  // Bounded waiting
  // ---------------------------------------------------------------------------

  function Sum(deltas: seq<nat>): nat {
    if deltas == [] then 0 else Sum(deltas[..|deltas| - 1]) + deltas[|deltas| - 1]
  }

  /** How much the first n processes can still be charged before process j comes first. */
  ghost function Slack(ts: seq<Task>, n: nat, j: nat, c: nat): int
    requires n <= |ts| && j < |ts|
  {
    if n == 0 then 0 else Slack(ts, n - 1, j, c) + if n - 1 == j then 0 else ts[j].vr + c - ts[n - 1].vr
  }

  lemma {:induction false} SlackBounds(ts: seq<Task>, n: nat, j: nat, c: nat)
    requires n <= |ts| && j < |ts| && Spread(ts, c)
    ensures 0 <= Slack(ts, n, j, c) <= 2 * c * (if j < n then n - 1 else n)
  {
    if n > 0 {
      SlackBounds(ts, n - 1, j, c);
      var k := if j < n - 1 then n - 2 else n - 1;
      assert 2 * c * (k + 1) == 2 * c * k + 2 * c;
    }
  }

  /** Charging another process takes its charge out of the slack. */
  lemma {:induction false} SlackFalls(ts: seq<Task>, us: seq<Task>, n: nat, j: nat, i: nat, c: nat)
    requires |us| == |ts| && n <= |ts| && j < |ts| && i < |ts| && i != j
    requires ts[i].vr <= us[i].vr && forall k :: 0 <= k < |ts| && k != i ==> us[k].vr == ts[k].vr
    ensures Slack(us, n, j, c) == Slack(ts, n, j, c) - if i < n then us[i].vr - ts[i].vr else 0
  {
    if n > 0 { SlackFalls(ts, us, n - 1, j, i, c); }
  }

  /** At priorities 1 to 5, a process that has not been dispatched in a run of slices has waited
      at most twice the largest charge for every other process. */
  lemma {:induction false} BoundedWait(s: Sys, deltas: seq<nat>, slice: nat, j: nat)
    requires Dispatched(s) && Slices(deltas, slice) && Spread(s.tasks, LargestCharge(s.tasks, slice)) && j < |s.tasks|
    requires forall i :: 0 <= i < |s.tasks| ==> s.tasks[i].prio <= 5
    requires forall k :: 0 <= k < |deltas| ==> Run(s, deltas[..k]).cur != j
    ensures Sum(deltas) <= 2 * LargestCharge(s.tasks, slice) * (|s.tasks| - 1)
  {
    var c, n := LargestCharge(s.tasks, slice), |s.tasks|;
    WaitUsesSlack(s, deltas, slice, j);
    SpreadKept(s, deltas, slice);
    SlackBounds(Run(s, deltas).tasks, n, j, c);
    SlackBounds(s.tasks, n, j, c);
  }

  lemma {:induction false} WaitUsesSlack(s: Sys, deltas: seq<nat>, slice: nat, j: nat)
    requires Dispatched(s) && Slices(deltas, slice) && Spread(s.tasks, LargestCharge(s.tasks, slice)) && j < |s.tasks|
    requires forall i :: 0 <= i < |s.tasks| ==> s.tasks[i].prio <= 5
    requires forall k :: 0 <= k < |deltas| ==> Run(s, deltas[..k]).cur != j
    ensures var c := LargestCharge(s.tasks, slice);
            Sum(deltas) <= Slack(s.tasks, |s.tasks|, j, c) - Slack(Run(s, deltas).tasks, |s.tasks|, j, c)
  {
    hide Charge, LargestCharge;
    if deltas != [] {
      var before, d := deltas[..|deltas| - 1], deltas[|deltas| - 1];
      var r := Run(s, before);
      assert forall k :: 0 <= k < |before| ==> before[..k] == deltas[..k];
      WaitUsesSlack(s, before, slice, j);
      SpreadKept(s, before, slice);
      ChargeAtLeastTicks(d, r.tasks[r.cur].prio);
      SlackFalls(r.tasks, Step(r, d).tasks, |s.tasks|, j, r.cur, LargestCharge(s.tasks, slice));
    }
  }

  // ---------------------------------------------------------------------------
  // Equal shares at the default priority
  // ---------------------------------------------------------------------------

  lemma {:induction false} DefaultCounts(s: Sys, deltas: seq<nat>, slice: nat, i: nat)
    requires s.cur < |s.tasks| && Slices(deltas, slice) && i < |s.tasks|
    requires forall k :: 0 <= k < |s.tasks| ==> s.tasks[k].prio == 5
    ensures var s' := Run(s, deltas);
            && SamePrios(s'.tasks, s.tasks) && s'.tasks[i].cpu >= s.tasks[i].cpu
            && s'.tasks[i].vr - s.tasks[i].vr == s'.tasks[i].cpu - s.tasks[i].cpu
  {
    if deltas != [] {
      var before, d := deltas[..|deltas| - 1], deltas[|deltas| - 1];
      DefaultCounts(s, before, slice, i);
      DefaultCounts(s, before, slice, Run(s, before).cur);
      DefaultChargesTicks(d);
    }
  }

  /** At equal default priority, the ticks two processes consume differ by at most one slice and
      how far apart they started. */
  lemma EqualShares(s: Sys, deltas: seq<nat>, slice: nat, i: nat, j: nat, spread: nat)
    requires Dispatched(s) && Slices(deltas, slice) && i < |s.tasks| && j < |s.tasks|
    requires forall k :: 0 <= k < |s.tasks| ==> s.tasks[k].prio == 5
    requires Spread(s.tasks, spread) && spread <= slice
    ensures var s' := Run(s, deltas);
            (s'.tasks[i].cpu - s.tasks[i].cpu) - (s'.tasks[j].cpu - s.tasks[j].cpu) <= slice + spread
  {
    DefaultChargesTicks(slice);
    DefaultLargest(s.tasks, slice);
    SpreadKept(s, deltas, slice);
    DefaultCounts(s, deltas, slice, i);
    DefaultCounts(s, deltas, slice, j);
  }

  lemma {:induction false} DefaultLargest(ts: seq<Task>, slice: nat)
    requires slice < SLICE_LIMIT && forall k :: 0 <= k < |ts| ==> ts[k].prio == 5
    ensures LargestCharge(ts, slice) == if ts == [] then 0 else slice
  {
    DefaultChargesTicks(slice);
    if ts != [] { DefaultLargest(ts[..|ts| - 1], slice); }
  }

  // ---------------------------------------------------------------------------
  // Above priority 5
  // ---------------------------------------------------------------------------

  /** One process of priority p just dispatched, one of the default priority waiting. */
  ghost function Pair(p: nat): Sys { Sys([Task(p, 0, 0), Task(5, 0, 0)], 0) }

  ghost function Ones(n: nat): seq<nat> { seq(n, _ => 1) }

  lemma {:induction false} HighPriorityNeverCharged(p: nat, n: nat)
    requires p > 5
    ensures Run(Pair(p), Ones(n)) == Sys([Task(p, 0, n), Task(5, 0, 0)], 0)
  {
    if n > 0 {
      HighPriorityNeverCharged(p, n - 1);
      assert Ones(n)[..n - 1] == Ones(n - 1);
      assert Charge(1, p) == 0;
      var s := Run(Pair(p), Ones(n - 1));
      assert Step(s, 1).tasks == [Task(p, 0, n), Task(5, 0, 0)];
    }
  }

  /** In slices of one tick, a waiting default-priority process is ever dispatched against one of
      priority p exactly when p is at most 5: above that the other is never charged at all. */
  lemma StarvesIff(p: nat)
    ensures (exists n :: Run(Pair(p), Ones(n)).cur == 1) <==> p <= 5
  {
    if p <= 5 {
      ChargeAtLeastTicks(1, p);
      assert Ones(1)[..0] == [];
      assert Run(Pair(p), Ones(1)).cur == 1;
    } else {
      forall n ensures Run(Pair(p), Ones(n)).cur == 0 { HighPriorityNeverCharged(p, n); }
    }
  }

  // ---------------------------------------------------------------------------
  // Runtimes that wrap
  // ---------------------------------------------------------------------------

  const WORD64: nat := 0x1_0000_0000_0000_0000
  const HALF64: nat := 0x8000_0000_0000_0000

  /** Runtimes less than half the range apart: comparing their 64-bit values decides their order if
      and only if neither has wrapped more often than the other. One step over the end it does not. */
  lemma WrapOrder(u: nat, w: nat)
    requires u - w < HALF64 && w - u < HALF64
    ensures (u % WORD64 < w % WORD64 <==> u < w) <==> u / WORD64 == w / WORD64
    ensures var last := WORD64 - 1; last < last + 1 && !(last % WORD64 < (last + 1) % WORD64)
  {
    assert u == WORD64 * (u / WORD64) + u % WORD64 && w == WORD64 * (w / WORD64) + w % WORD64;
    assert (WORD64 - 1) % WORD64 == WORD64 - 1 && WORD64 % WORD64 == 0;
  }
}
