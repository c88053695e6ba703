/** What allocations leave behind on a volume (fs/blueyfs.c): bitmaps after commits and aborts, whole
    runs of transactions, and when the counts of free blocks agree with the bitmaps. */
module BlockTally {
  import opened Bytes
  import opened DirBlock
  import opened Journal
  import opened BlockAlloc

  // ---------------------------------------------------------------------------
  // Counts and bitmaps
  // ---------------------------------------------------------------------------

  /** How many bits from i on are clear. */
  function ClearBits(b: Block, i: nat): (n: nat)
    requires i <= GROUP_BLOCKS
    ensures n <= GROUP_BLOCKS - i
    decreases GROUP_BLOCKS - i
  {
    if i == GROUP_BLOCKS then 0 else ClearBits(b, i + 1) + if InUse(b, i) then 0 else 1
  }

  lemma {:induction false} TakenClears(b: Block, i: nat, k: nat)
    requires i < GROUP_BLOCKS && !InUse(b, i) && k <= GROUP_BLOCKS
    ensures ClearBits(Taken(b, i), k) == ClearBits(b, k) - if k <= i then 1 else 0
    decreases GROUP_BLOCKS - k
  {
    hide InUse;
    if k < GROUP_BLOCKS { TakenClears(b, i, k + 1); }
  }

  lemma {:induction false} NoneClear(b: Block, k: nat)
    requires k <= GROUP_BLOCKS
    ensures ClearBits(b, k) == 0 <==> forall i :: k <= i < GROUP_BLOCKS ==> InUse(b, i)
    decreases GROUP_BLOCKS - k
  {
    hide InUse;
    if k < GROUP_BLOCKS { NoneClear(b, k + 1); }
  }

  /** Every group has a bitmap of its own, which is not the table; block 0 is in use. */
  ghost predicate LaidOut(d: Disk, groups: seq<Group>) {
    && groups != [] && (forall k :: 0 <= k < |groups| ==> Placed(d, groups[k]))
    && (forall j, k :: 0 <= j < k < |groups| ==> BitmapBlock(groups[j]) != BitmapBlock(groups[k]))
    && InUse(d[BitmapBlock(groups[0])], 0)
  }

  ghost predicate Placed(d: Disk, g: Group) { BitmapBlock(g) < |d| && BitmapBlock(g) != 1 }

  /** And every group counts exactly the clear bits of its bitmap. */
  ghost predicate Tallied(d: Disk, groups: seq<Group>) {
    LaidOut(d, groups) && forall k :: 0 <= k < |groups| ==> TalliedAt(d, groups[k])
  }

  ghost predicate TalliedAt(d: Disk, g: Group) { Placed(d, g) && FreeCount(g) == ClearBits(d[BitmapBlock(g)], 0) }

  ghost predicate BlockInUse(d: Disk, groups: seq<Group>, n: nat)
    requires n / GROUP_BLOCKS < |groups| && BitmapBlock(groups[n / GROUP_BLOCKS]) < |d|
  {
    InUse(d[BitmapBlock(groups[n / GROUP_BLOCKS])], n % GROUP_BLOCKS)
  }

  ghost predicate GroupFull(d: Disk, g: Group)
    requires BitmapBlock(g) < |d|
  {
    forall i :: 0 <= i < GROUP_BLOCKS ==> InUse(d[BitmapBlock(g)], i)
  }

  /** What is on offer: the clear bits of the groups that count any. */
  lemma LaidOutOffers(d: Disk, groups: seq<Group>)
    requires LaidOut(d, groups)
    ensures !Allocatable(d, groups, 0)
    ensures forall n: nat :: Offered(d, groups, n) <==>
      && n / GROUP_BLOCKS < |groups| && Placed(d, groups[n / GROUP_BLOCKS])
      && FreeCount(groups[n / GROUP_BLOCKS]) != 0 && !BlockInUse(d, groups, n)
  {
    hide InUse, FreeCount, BitmapBlock;
    assert !Allocatable(d, groups, 0);
    assert forall k :: 0 <= k < |groups| ==> Placed(d, groups[k]);
  }

  /** The bitmaps once an allocation made on disk d has been written to a disk e. */
  lemma GrantWrites(d: Disk, e: Disk, groups: seq<Group>, free: nat)
    requires |groups| <= MAX_GROUPS && free < TXN_LIMIT && LaidOut(d, groups) && Granted(d, groups, free, 0).blk != 0
    requires |e| == |d|
    ensures var a := Granted(d, groups, free, 0); var f := Perform(e, a.txn);
            && Allocatable(d, groups, a.blk) && Debited(groups, a.groups, {a.blk / GROUP_BLOCKS})
            && forall k :: 0 <= k < |groups| ==>
                 Placed(d, groups[k]) && f[BitmapBlock(groups[k])] ==
                 if k == a.blk / GROUP_BLOCKS then Taken(d[BitmapBlock(groups[k])], a.blk % GROUP_BLOCKS)
                 else e[BitmapBlock(groups[k])]
  {
    hide InUse, FreeCount, BitmapBlock, InodeTable, Taken, Perform, Granted;
    var a := Granted(d, groups, free, 0);
    var j := a.blk / GROUP_BLOCKS;
    LaidOutOffers(d, groups);
    GrantIsLowest(d, groups, free);
    GrantTxn(d, groups, free, 0);
    forall k | 0 <= k < |groups|
      ensures Placed(d, groups[k]) && Perform(e, a.txn)[BitmapBlock(groups[k])] ==
              if k == j then Taken(d[BitmapBlock(groups[k])], a.blk % GROUP_BLOCKS) else e[BitmapBlock(groups[k])]
    {
      assert Placed(d, groups[k]);
      if k == j { PerformLast(e, a.txn, 0); } else { PerformElsewhere(e, a.txn, BitmapBlock(groups[k])); }
    }
  }

  /** The bitmaps after the commit of an allocation: one bit more in one of them. */
  lemma GrantBitmaps(d: Disk, groups: seq<Group>, free: nat)
    requires |groups| <= MAX_GROUPS && free < TXN_LIMIT && LaidOut(d, groups) && Granted(d, groups, free, 0).blk != 0
    ensures var a := Granted(d, groups, free, 0);
            && Allocatable(d, groups, a.blk) && Debited(groups, a.groups, {a.blk / GROUP_BLOCKS})
            && OneMore(d, Perform(d, a.txn), groups, a.blk)
  {
    hide InUse, FreeCount, BitmapBlock, InodeTable, Taken, Perform, Granted;
    GrantWrites(d, d, groups, free);
  }

  /** The bitmap of group k once block n is taken. */
  ghost function BitmapAfter(d: Disk, groups: seq<Group>, n: nat, k: nat): Block
    requires LaidOut(d, groups) && k < |groups| && Allocatable(d, groups, n)
  {
    assert Placed(d, groups[k]);
    if k == n / GROUP_BLOCKS then Taken(d[BitmapBlock(groups[k])], n % GROUP_BLOCKS) else d[BitmapBlock(groups[k])]
  }

  /** The bitmaps of e are those of d with block n taken. */
  ghost predicate OneMore(d: Disk, e: Disk, groups: seq<Group>, n: nat)
    requires LaidOut(d, groups) && Allocatable(d, groups, n) && |e| == |d|
  {
    forall k :: 0 <= k < |groups| ==> Placed(d, groups[k]) && e[BitmapBlock(groups[k])] == BitmapAfter(d, groups, n, k)
  }

  lemma OneMoreInUse(d: Disk, e: Disk, groups: seq<Group>, after: seq<Group>, n: nat)
    requires LaidOut(d, groups) && Allocatable(d, groups, n) && |e| == |d| && OneMore(d, e, groups, n)
    requires |after| == |groups| && forall k :: 0 <= k < |groups| ==> BitmapBlock(after[k]) == BitmapBlock(groups[k])
    ensures LaidOut(e, after)
    ensures forall m: nat :: m / GROUP_BLOCKS < |groups| ==>
      Placed(d, groups[m / GROUP_BLOCKS]) && (BlockInUse(e, after, m) <==> BlockInUse(d, groups, m) || m == n)
  {
    hide InUse, BitmapBlock;
    forall k | 0 <= k < |groups| ensures Placed(e, after[k]) { assert Placed(d, groups[k]); }
  }

  lemma SameBitmaps(groups: seq<Group>, after: seq<Group>, s: set<nat>)
    requires Debited(groups, after, s)
    ensures forall k :: 0 <= k < |groups| ==> BitmapBlock(after[k]) == BitmapBlock(groups[k])
  {
    forall k | 0 <= k < |groups| ensures BitmapBlock(after[k]) == BitmapBlock(groups[k]) {
      assert DebitedAt(groups[k], after[k], k in s);
    }
  }

  /** Whatever the groups count: once committed, an allocation has taken exactly the block it returned,
      which was not in use before. */
  lemma CommittedGrant(d: Disk, groups: seq<Group>, free: nat)
    requires |groups| <= MAX_GROUPS && free < TXN_LIMIT && LaidOut(d, groups)
    ensures var a := Granted(d, groups, free, 0); var e := Perform(d, a.txn);
            && LaidOut(e, a.groups)
            && forall n: nat :: n / GROUP_BLOCKS < |groups| ==>
                 && Placed(d, groups[n / GROUP_BLOCKS]) && Placed(e, a.groups[n / GROUP_BLOCKS])
                 && (BlockInUse(e, a.groups, n) <==> BlockInUse(d, groups, n) || (a.blk != 0 && n == a.blk))
                 && (n == a.blk != 0 ==> !BlockInUse(d, groups, n))
  {
    hide InUse, FreeCount, BitmapBlock, InodeTable, Taken, Perform, Granted;
    var a := Granted(d, groups, free, 0);
    LaidOutOffers(d, groups);
    GrantIsLowest(d, groups, free);
    SameBitmaps(groups, a.groups, Charged(d, groups, a.blk));
    if a.blk == 0 {
      GrantTxn(d, groups, free, 0);
      NoWrites(d);
    } else {
      GrantBitmaps(d, groups, free);
      OneMoreInUse(d, Perform(d, a.txn), groups, a.groups, a.blk);
      assert LaidOut(Perform(d, a.txn), a.groups);
    }
  }

  lemma NoWrites(d: Disk)
    ensures Perform(d, []) == d
  {
  }

  /** It fails exactly when every group counts no free block or has none. */
  lemma RefusesIff(d: Disk, groups: seq<Group>, free: nat)
    requires |groups| <= MAX_GROUPS && free < TXN_LIMIT && LaidOut(d, groups)
    ensures Granted(d, groups, free, 0).blk == 0 <==>
            forall k :: 0 <= k < |groups| ==>
              FreeCount(groups[k]) == 0 || (Placed(d, groups[k]) && GroupFull(d, groups[k]))
  {
    hide InUse, FreeCount, BitmapBlock, Granted;
    LaidOutOffers(d, groups);
    GrantIsLowest(d, groups, free);
    assert forall k :: 0 <= k < |groups| ==> Placed(d, groups[k]);
    if k :| 0 <= k < |groups| && FreeCount(groups[k]) != 0 && !GroupFull(d, groups[k]) {
      var i :| 0 <= i < GROUP_BLOCKS && !InUse(d[BitmapBlock(groups[k])], i);
      OfGroup(k, i);
      assert Offered(d, groups, GROUP_BLOCKS * k + i);
    }
    forall n: nat | Offered(d, groups, n)
      ensures FreeCount(groups[n / GROUP_BLOCKS]) != 0 && !GroupFull(d, groups[n / GROUP_BLOCKS])
    {
    }
  }

  // ---------------------------------------------------------------------------
  // What keeps the counts right, and what does not
  // ---------------------------------------------------------------------------

  /** With one block taken, the counts that agree with the bitmaps are those of one block fewer. */
  lemma TallyAfter(d: Disk, e: Disk, groups: seq<Group>, after: seq<Group>, n: nat)
    requires Tallied(d, groups) && Allocatable(d, groups, n) && |e| == |d| && OneMore(d, e, groups, n)
    requires |after| == |groups| && forall k :: 0 <= k < |groups| ==> BitmapBlock(after[k]) == BitmapBlock(groups[k])
    ensures Tallied(e, after) <==> forall k :: 0 <= k < |groups| ==>
      FreeCount(after[k]) == FreeCount(groups[k]) - if k == n / GROUP_BLOCKS then 1 else 0
  {
    hide InUse, FreeCount, BitmapBlock, ClearBits;
    OneMoreInUse(d, e, groups, after, n);
    forall k | 0 <= k < |groups|
      ensures TalliedAt(e, after[k]) <==>
              FreeCount(after[k]) == FreeCount(groups[k]) - if k == n / GROUP_BLOCKS then 1 else 0
    {
      assert TalliedAt(d, groups[k]) && Placed(d, groups[k]);
      if k == n / GROUP_BLOCKS { TakenClears(d[BitmapBlock(groups[k])], n % GROUP_BLOCKS, 0); }
    }
  }

  /** Counts that agree with the bitmaps still do after a commit, and then failure means that every
      block is in use. */
  lemma CommittedTally(d: Disk, groups: seq<Group>, free: nat)
    requires |groups| <= MAX_GROUPS && free < TXN_LIMIT && Tallied(d, groups)
    ensures var a := Granted(d, groups, free, 0);
            && Tallied(Perform(d, a.txn), a.groups)
            && (a.blk == 0 <==> VolumeFull(d, groups))
  {
    hide InUse, FreeCount, BitmapBlock, InodeTable, ClearBits, Taken, Perform, Granted;
    var a := Granted(d, groups, free, 0);
    LaidOutOffers(d, groups);
    TalliedOffers(d, groups);
    GrantIsLowest(d, groups, free);
    if a.blk == 0 {
      GrantTxn(d, groups, free, 0);
      NoWrites(d);
    } else {
      GrantBitmaps(d, groups, free);
      DebitedOne(groups, a.groups, a.blk / GROUP_BLOCKS);
      TallyAfter(d, Perform(d, a.txn), groups, a.groups, a.blk);
    }
  }

  ghost predicate VolumeFull(d: Disk, groups: seq<Group>)
    requires LaidOut(d, groups)
  {
    forall n: nat :: n / GROUP_BLOCKS < |groups| ==> Placed(d, groups[n / GROUP_BLOCKS]) && BlockInUse(d, groups, n)
  }

  lemma TalliedOffers(d: Disk, groups: seq<Group>)
    requires Tallied(d, groups)
    ensures forall n: nat :: Offered(d, groups, n) <==>
      n / GROUP_BLOCKS < |groups| && Placed(d, groups[n / GROUP_BLOCKS]) && !BlockInUse(d, groups, n)
  {
    hide InUse, FreeCount, BitmapBlock, ClearBits;
    LaidOutOffers(d, groups);
    forall n: nat | n / GROUP_BLOCKS < |groups| && Placed(d, groups[n / GROUP_BLOCKS]) && !BlockInUse(d, groups, n)
      ensures Offered(d, groups, n)
    {
      var k := n / GROUP_BLOCKS;
      assert TalliedAt(d, groups[k]);
      NoneClear(d[BitmapBlock(groups[k])], 0);
    }
  }

  lemma DebitedOne(groups: seq<Group>, after: seq<Group>, j: nat)
    requires Debited(groups, after, {j})
    ensures forall k :: 0 <= k < |groups| ==>
      && BitmapBlock(after[k]) == BitmapBlock(groups[k])
      && FreeCount(after[k]) == FreeCount(groups[k]) - if k == j then 1 else 0
  {
    hide FreeCount, BitmapBlock, InodeTable;
    forall k | 0 <= k < |groups|
      ensures BitmapBlock(after[k]) == BitmapBlock(groups[k])
      ensures FreeCount(after[k]) == FreeCount(groups[k]) - if k == j then 1 else 0
    {
      assert DebitedAt(groups[k], after[k], k in {j});
    }
  }

  /** An abort drops the bitmap and keeps the lowered count; a mount reads the counts from the table
      before it replays the bitmap. Either breaks the agreement, unless nothing was allocated. */
  lemma AbortedTally(d: Disk, groups: seq<Group>, free: nat)
    requires |groups| <= MAX_GROUPS && free < TXN_LIMIT && Tallied(d, groups)
    ensures var a := Granted(d, groups, free, 0);
            && (Tallied(d, a.groups) <==> a.blk == 0)
            && (Tallied(Perform(d, a.txn), groups) <==> a.blk == 0)
  {
    hide InUse, FreeCount, BitmapBlock, InodeTable, ClearBits, Taken, Perform, Granted;
    var a := Granted(d, groups, free, 0);
    var j := a.blk / GROUP_BLOCKS;
    LaidOutOffers(d, groups);
    GrantIsLowest(d, groups, free);
    if a.blk == 0 {
      GrantTxn(d, groups, free, 0);
      NoWrites(d);
    } else {
      GrantBitmaps(d, groups, free);
      DebitedOne(groups, a.groups, j);
      assert TalliedAt(d, groups[j]) && !TalliedAt(d, a.groups[j]);
      TallyAfter(d, Perform(d, a.txn), groups, groups, a.blk);
    }
  }

  /** After an abort the next allocation fails exactly if the aborted one took the last free block of
      the volume, which is still free. */
  lemma AbortedLast(d: Disk, groups: seq<Group>, free: nat)
    requires |groups| <= MAX_GROUPS && free < TXN_LIMIT && Tallied(d, groups) && Granted(d, groups, free, 0).blk != 0
    ensures var a := Granted(d, groups, free, 0);
            && a.blk / GROUP_BLOCKS < |groups| && Placed(d, groups[a.blk / GROUP_BLOCKS])
            && !BlockInUse(d, groups, a.blk)
            && (Granted(d, a.groups, a.free, 0).blk == 0 <==> OthersInUse(d, groups, a.blk))
  {
    hide InUse, FreeCount, BitmapBlock, InodeTable, ClearBits, Taken, Perform, Granted;
    var a := Granted(d, groups, free, 0);
    GrantIsLowest(d, groups, free);
    CommittedGrant(d, groups, free);
    GrantBitmaps(d, groups, free);
    DebitedOne(groups, a.groups, a.blk / GROUP_BLOCKS);
    LaidOutOffers(d, groups);
    LaidOutOffers(d, a.groups);
    GrantIsLowest(d, a.groups, a.free);
    TalliedOffers(d, groups);
    LastOfGroup(d, groups, a.blk);
    var j := a.blk / GROUP_BLOCKS;
    if Granted(d, a.groups, a.free, 0).blk == 0 {
      assert !Offered(d, a.groups, a.blk);
      forall m: nat | m / GROUP_BLOCKS < |groups| && m != a.blk
        ensures Placed(d, groups[m / GROUP_BLOCKS]) && BlockInUse(d, groups, m)
      {
        assert Placed(d, groups[m / GROUP_BLOCKS]) && !Offered(d, a.groups, m);
        if m / GROUP_BLOCKS == j { assert m % GROUP_BLOCKS != a.blk % GROUP_BLOCKS; }
      }
    } else if OthersInUse(d, groups, a.blk) {
      var n := Granted(d, a.groups, a.free, 0).blk;
      assert Offered(d, a.groups, n) && Placed(d, groups[n / GROUP_BLOCKS]);
      forall i | 0 <= i < GROUP_BLOCKS && i != a.blk % GROUP_BLOCKS ensures InUse(d[BitmapBlock(groups[j])], i) {
        OfGroup(j, i);
        assert BlockInUse(d, groups, GROUP_BLOCKS * j + i);
      }
      assert false;
    }
  }

  /** Every block but n is in use. */
  ghost predicate OthersInUse(d: Disk, groups: seq<Group>, n: nat)
    requires LaidOut(d, groups)
  {
    forall m: nat :: m / GROUP_BLOCKS < |groups| && m != n ==>
      Placed(d, groups[m / GROUP_BLOCKS]) && BlockInUse(d, groups, m)
  }

  /** A group that counts a single block has no other clear bit. */
  lemma LastOfGroup(d: Disk, groups: seq<Group>, n: nat)
    requires Tallied(d, groups) && Allocatable(d, groups, n)
    ensures FreeCount(groups[n / GROUP_BLOCKS]) == 1 <==>
            forall i :: 0 <= i < GROUP_BLOCKS && i != n % GROUP_BLOCKS ==>
              InUse(d[BitmapBlock(groups[n / GROUP_BLOCKS])], i)
  {
    hide InUse, FreeCount, BitmapBlock, ClearBits;
    var g := groups[n / GROUP_BLOCKS];
    assert TalliedAt(d, g);
    TakenClears(d[BitmapBlock(g)], n % GROUP_BLOCKS, 0);
    NoneClear(Taken(d[BitmapBlock(g)], n % GROUP_BLOCKS), 0);
  }

  /** Two allocations committed together keep the counts right exactly if they returned different
      blocks: the same block twice is counted twice and marked once. */
  lemma DoubledTally(d: Disk, groups: seq<Group>, free: nat)
    requires |groups| <= MAX_GROUPS && free < TXN_LIMIT && Tallied(d, groups) && Granted(d, groups, free, 0).blk != 0
    ensures var a := Granted(d, groups, free, 0); var b := Granted(d, a.groups, a.free, 0);
            Tallied(Perform(d, a.txn + b.txn), b.groups) <==> b.blk != a.blk
  {
    hide InUse, FreeCount, BitmapBlock, InodeTable, ClearBits, Taken, Perform, Granted, Tallied, LaidOut, OneMore;
    var a := Granted(d, groups, free, 0);
    var b := Granted(d, a.groups, a.free, 0);
    var e := Perform(d, a.txn);
    CommittedTally(d, groups, free);
    IsLaidOut(d, groups);
    GrantBitmaps(d, groups, free);
    DebitedOne(groups, a.groups, a.blk / GROUP_BLOCKS);
    PerformSplit(d, a.txn, b.txn);
    SameLayout(d, groups, a.groups);
    if b.blk == 0 {
      LaidOutOffers(d, a.groups);
      GrantTxn(d, a.groups, a.free, 0);
      NoWrites(e);
    } else {
      SecondTally(d, groups, free);
    }
  }

  lemma IsLaidOut(d: Disk, groups: seq<Group>)
    requires Tallied(d, groups)
    ensures LaidOut(d, groups)
  {
  }

  lemma SameLayout(d: Disk, groups: seq<Group>, after: seq<Group>)
    requires LaidOut(d, groups) && |after| == |groups|
    requires forall k :: 0 <= k < |groups| ==> BitmapBlock(after[k]) == BitmapBlock(groups[k])
    ensures LaidOut(d, after)
  {
    hide BitmapBlock, InUse;
    forall k | 0 <= k < |groups| ensures Placed(d, after[k]) { assert Placed(d, groups[k]); }
  }

  lemma SecondTally(d: Disk, groups: seq<Group>, free: nat)
    requires |groups| <= MAX_GROUPS && free < TXN_LIMIT && Tallied(d, groups) && Granted(d, groups, free, 0).blk != 0
    requires var a := Granted(d, groups, free, 0); Granted(d, a.groups, a.free, 0).blk != 0
    ensures var a := Granted(d, groups, free, 0); var b := Granted(d, a.groups, a.free, 0);
            Tallied(Perform(Perform(d, a.txn), b.txn), b.groups) <==> b.blk != a.blk
  {
    hide InUse, FreeCount, BitmapBlock, InodeTable, ClearBits, Taken, Perform, Granted;
    var a := Granted(d, groups, free, 0);
    var b := Granted(d, a.groups, a.free, 0);
    var e, i, j := Perform(d, a.txn), a.blk / GROUP_BLOCKS, b.blk / GROUP_BLOCKS;
    var f := Perform(e, b.txn);
    CommittedTally(d, groups, free);
    GrantBitmaps(d, groups, free);
    DebitedOne(groups, a.groups, i);
    SameLayout(d, groups, a.groups);
    GrantWrites(d, e, a.groups, a.free);
    DebitedOne(a.groups, b.groups, j);
    SameBlockAgain(d, groups, free);
    if b.blk == a.blk {
      assert OneMore(d, f, groups, a.blk);
      TallyAfter(d, f, groups, b.groups, a.blk);
    } else {
      assert i != j;
      assert Placed(d, groups[j]) && e[BitmapBlock(groups[j])] == BitmapAfter(d, groups, a.blk, j);
      assert OneMore(e, f, a.groups, b.blk);
      TallyAfter(e, f, a.groups, b.groups, b.blk);
    }
  }

  // ---------------------------------------------------------------------------
  // Runs of transactions
  // ---------------------------------------------------------------------------

  /** A transaction with one allocation: committed together with other updates, or aborted. */
  datatype Turn = Committed(others: Txn) | Aborted

  datatype Volume = Volume(disk: Disk, groups: seq<Group>, free: nat)

  predicate InRange(v: Volume) { |v.groups| <= MAX_GROUPS && v.free < TXN_LIMIT }

  ghost function After(v: Volume, t: Turn): (w: Volume)
    requires InRange(v)
    ensures InRange(w)
  {
    var a := Granted(v.disk, v.groups, v.free, 0);
    Volume(if t.Committed? then Perform(v.disk, a.txn + t.others) else v.disk, a.groups, a.free)
  }

  ghost function Run(v: Volume, ts: seq<Turn>): Volume
    requires InRange(v)
    decreases |ts|
  {
    if ts == [] then v else Run(After(v, ts[0]), ts[1..])
  }

  /** The blocks the committed transactions were given, in order. */
  ghost function Given(v: Volume, ts: seq<Turn>): seq<nat>
    requires InRange(v)
    decreases |ts|
  {
    if ts == [] then []
    else
      var a := Granted(v.disk, v.groups, v.free, 0);
      (if ts[0].Committed? && a.blk != 0 then [a.blk] else []) + Given(After(v, ts[0]), ts[1..])
  }

  /** The other updates leave the bitmaps alone. */
  ghost predicate Spares(groups: seq<Group>, ts: seq<Turn>) {
    forall i, j, k :: 0 <= i < |ts| && ts[i].Committed? && 0 <= j < |ts[i].others| && 0 <= k < |groups| ==>
      ts[i].others[j].block != BitmapBlock(groups[k])
  }

  ghost predicate Used(v: Volume, n: nat) {
    && LaidOut(v.disk, v.groups) && n / GROUP_BLOCKS < |v.groups| && Placed(v.disk, v.groups[n / GROUP_BLOCKS])
    && BlockInUse(v.disk, v.groups, n)
  }

  /** Bitmaps that read the same mark the same blocks. */
  lemma SameUse(d: Disk, e: Disk, groups: seq<Group>, after: seq<Group>)
    requires LaidOut(d, groups) && |after| == |groups| && |e| == |d|
    requires forall k :: 0 <= k < |groups| ==>
      BitmapBlock(after[k]) == BitmapBlock(groups[k]) < |d| && e[BitmapBlock(groups[k])] == d[BitmapBlock(groups[k])]
    ensures LaidOut(e, after)
    ensures forall f, g, n: nat :: Used(Volume(e, after, f), n) <==> Used(Volume(d, groups, g), n)
  {
    hide BitmapBlock, InUse;
    forall k | 0 <= k < |groups| ensures Placed(e, after[k]) && Placed(d, groups[k]) {
      assert Placed(d, groups[k]);
    }
  }

  /** A turn marks the block it committed, which was not marked, and no other. */
  ghost predicate TurnMarks(v: Volume, w: Volume, t: Turn, blk: nat) {
    && (forall n: nat :: Used(w, n) <==> Used(v, n) || (t.Committed? && n == blk != 0))
    && !(blk != 0 && Used(v, blk))
  }

  lemma TurnKeeps(v: Volume, t: Turn)
    requires InRange(v) && LaidOut(v.disk, v.groups) && Spares(v.groups, [t])
    ensures var w, a := After(v, t), Granted(v.disk, v.groups, v.free, 0);
            && LaidOut(w.disk, w.groups) && |w.groups| == |v.groups|
            && (forall k :: 0 <= k < |w.groups| ==> BitmapBlock(w.groups[k]) == BitmapBlock(v.groups[k]))
            && TurnMarks(v, w, t, a.blk)
  {
    hide InUse, FreeCount, BitmapBlock, InodeTable, Perform, Granted, LaidOut;
    var d, groups := v.disk, v.groups;
    var a := Granted(d, groups, v.free, 0);
    var e := Perform(d, a.txn);
    GrantIsLowest(d, groups, v.free);
    SameBitmaps(groups, a.groups, Charged(d, groups, a.blk));
    CommittedGrant(d, groups, v.free);
    BitmapsPlaced(d, groups);
    GrantMarks(v);
    if t.Committed? {
      BitmapsPlaced(e, a.groups);
      forall k | 0 <= k < |groups| ensures Perform(e, t.others)[BitmapBlock(groups[k])] == e[BitmapBlock(groups[k])] {
        assert [t][0] == t;
        PerformElsewhere(e, t.others, BitmapBlock(groups[k]));
      }
      PerformSplit(d, a.txn, t.others);
      SameUse(e, Perform(e, t.others), a.groups, a.groups);
    } else {
      SameUse(d, d, groups, a.groups);
    }
  }

  lemma BitmapsPlaced(d: Disk, groups: seq<Group>)
    requires LaidOut(d, groups)
    ensures forall k :: 0 <= k < |groups| ==> BitmapBlock(groups[k]) < |d|
  {
    forall k | 0 <= k < |groups| ensures BitmapBlock(groups[k]) < |d| { assert Placed(d, groups[k]); }
  }

  lemma GrantMarks(v: Volume)
    requires InRange(v) && LaidOut(v.disk, v.groups)
    ensures var a := Granted(v.disk, v.groups, v.free, 0);
            TurnMarks(v, Volume(Perform(v.disk, a.txn), a.groups, a.free), Committed([]), a.blk)
  {
    hide InUse, FreeCount, BitmapBlock, InodeTable, Perform, Granted, LaidOut;
    var d, groups := v.disk, v.groups;
    var a := Granted(d, groups, v.free, 0);
    CommittedGrant(d, groups, v.free);
    GrantIsLowest(d, groups, v.free);
    LaidOutOffers(d, groups);
    SameBitmaps(groups, a.groups, Charged(d, groups, a.blk));
  }

  ghost predicate NoRepeats(g: seq<nat>) { forall i, j :: 0 <= i < j < |g| ==> g[i] != g[j] }

  /** Over any run of transactions with one allocation each, whatever is counted: no block is given
      twice or was in use before, every given block is in use at the end, and nothing else is new. */
  lemma {:induction false} NeverTwice(v: Volume, ts: seq<Turn>)
    requires InRange(v) && LaidOut(v.disk, v.groups) && Spares(v.groups, ts)
    ensures var g := Given(v, ts);
            && NoRepeats(g)
            && (forall n :: n in g ==> !Used(v, n))
            && (forall n: nat :: Used(Run(v, ts), n) <==> Used(v, n) || n in g)
    decreases |ts|
  {
    hide After, Used, LaidOut, BitmapBlock, Granted;
    if ts != [] {
      SparesSplit(v.groups, ts);
      TurnKeeps(v, ts[0]);
      var w := After(v, ts[0]);
      assert Spares(w.groups, ts[1..]);
      NeverTwice(w, ts[1..]);
      var g, h, blk := Given(v, ts), Given(w, ts[1..]), Granted(v.disk, v.groups, v.free, 0).blk;
      if ts[0].Committed? && blk != 0 {
        assert g == [blk] + h && Used(w, blk);
        assert forall j :: 0 < j < |g| ==> g[j] == h[j - 1] && g[j] in h;
        assert NoRepeats(g);
      } else {
        assert g == h;
      }
    }
  }

  lemma SparesSplit(groups: seq<Group>, ts: seq<Turn>)
    requires ts != [] && Spares(groups, ts)
    ensures Spares(groups, [ts[0]]) && Spares(groups, ts[1..])
  {
    hide BitmapBlock;
    assert [ts[0]][0] == ts[0];
  }
}
