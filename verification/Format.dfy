/** What tools/mkfs_blueyfs.c leaves for the allocator: bitmaps and counts of a fresh volume. */
module Format {
  import opened Bytes
  import opened DirBlock
  import opened Journal
  import opened BlockAlloc
  import opened BlockTally

  /** Bitmaps, inode table of 512 blocks, and one block more. */
  const OVERHEAD: nat := 515
  const TABLE_BLOCKS: nat := 512

  /** A bitmap with its first n bits set. */
  function Below(n: nat): (b: Block)
    requires n <= GROUP_BLOCKS
    ensures forall i: nat :: i < GROUP_BLOCKS ==> (InUse(b, i) <==> i < n)
  {
    if n == 0 then NoBits(); ZeroBlock() else Taken(Below(n - 1), n - 1)
  }

  lemma NoBits()
    ensures forall i: nat :: i < GROUP_BLOCKS ==> !InUse(ZeroBlock(), i)
  {
    forall i: nat | i < GROUP_BLOCKS ensures !InUse(ZeroBlock(), i) { ZeroBit(i % 8); }
  }

  lemma {:induction false} ZeroBit(k: nat)
    ensures Bit(0, k) == 0
  {
    if k > 0 { ZeroBit(k - 1); }
  }

  /** The loop that marks the blocks in use. */
  method MarkUsed(n: nat) returns (b: Block)
    ensures b == Below(if n < GROUP_BLOCKS then n else GROUP_BLOCKS)
  {
    hide InUse, Taken;
    b := ZeroBlock();
    var i := 0;
    while i < n
      invariant i <= n && b == Below(if i < GROUP_BLOCKS then i else GROUP_BLOCKS)
    {
      if i < GROUP_BLOCKS { b := Taken(b, i); }
      i := i + 1;
    }
  }

  lemma {:induction false} ClearAbove(n: nat)
    requires n <= GROUP_BLOCKS
    ensures ClearBits(Below(n), 0) == GROUP_BLOCKS - n
  {
    hide InUse, Taken, ClearBits;
    if n == 0 {
      NoBits();
      AllClear(ZeroBlock(), 0);
    } else {
      ClearAbove(n - 1);
      TakenClears(Below(n - 1), n - 1, 0);
    }
  }

  lemma {:induction false} AllClear(b: Block, k: nat)
    requires k <= GROUP_BLOCKS && forall i: nat :: i < GROUP_BLOCKS ==> !InUse(b, i)
    ensures ClearBits(b, k) == GROUP_BLOCKS - k
    decreases GROUP_BLOCKS - k
  {
    hide InUse;
    if k < GROUP_BLOCKS { AllClear(b, k + 1); }
  }

  // ---------------------------------------------------------------------------
  // A formatted volume
  // ---------------------------------------------------------------------------

  /** The count of free blocks in the descriptor of group k, of a volume of n blocks; 16 bits. */
  function CountFor(n: nat, k: nat): nat {
    var last := k + 1 == (n + 8191) / GROUP_BLOCKS;
    var avail := (if last then n - k * GROUP_BLOCKS - OVERHEAD else GROUP_BLOCKS - OVERHEAD) % 0x1_0000;
    if k == 0 then (avail + 0xFFFF) % 0x1_0000 else avail
  }

  /** How many bits the bitmap of group k has set: group 0 also holds block 0, the table, the journal
      and the root directory. */
  function MarkedIn(journal: nat, k: nat): nat { if k == 0 then OVERHEAD + 2 + journal else OVERHEAD }

  ghost predicate GroupFormatted(d: Disk, g: Group, journal: nat, k: nat)
    requires MarkedIn(journal, k) <= GROUP_BLOCKS
  {
    && BitmapBlock(g) == GROUP_BLOCKS * k + 2 && InodeTable(g) == GROUP_BLOCKS * k + 4
    && FreeCount(g) == CountFor(|d|, k)
    && (BitmapBlock(g) < |d| ==> d[BitmapBlock(g)] == Below(MarkedIn(journal, k)))
  }

  /** A fresh volume whose journal lies in group 0, with the descriptors the driver reads, at most 16. */
  ghost predicate Formatted(d: Disk, groups: seq<Group>, journal: nat) {
    && journal <= GROUP_BLOCKS - OVERHEAD - 2 && 3 <= |d|
    && |groups| == (if |d| <= MAX_GROUPS * GROUP_BLOCKS then (|d| + 8191) / GROUP_BLOCKS else MAX_GROUPS)
    && forall k :: 0 <= k < |groups| ==> GroupFormatted(d, groups[k], journal, k)
  }

  /** The bitmaps are where the allocator wants them, unless the last group is too short for its own. */
  lemma FormattedLaidOut(d: Disk, groups: seq<Group>, journal: nat)
    requires Formatted(d, groups, journal)
    ensures LaidOut(d, groups) <==> GROUP_BLOCKS * (|groups| - 1) + 2 < |d|
  {
    hide InUse, BitmapBlock, InodeTable, FreeCount, CountFor;
    assert GroupFormatted(d, groups[0], journal, 0) && GroupFormatted(d, groups[|groups| - 1], journal, |groups| - 1);
    if GROUP_BLOCKS * (|groups| - 1) + 2 < |d| {
      forall k | 0 <= k < |groups| ensures Placed(d, groups[k]) && BitmapBlock(groups[k]) == GROUP_BLOCKS * k + 2 {
        assert GroupFormatted(d, groups[k], journal, k);
      }
    } else {
      assert !Placed(d, groups[|groups| - 1]);
    }
  }

  /** The counts of a fresh volume agree with its bitmaps only for one size: a single group of which
      the journal leaves as much as the formula counts. */
  lemma FormattedTalliedIff(d: Disk, groups: seq<Group>, journal: nat)
    requires Formatted(d, groups, journal)
    ensures Tallied(d, groups) <==> |d| + journal == GROUP_BLOCKS - 1
  {
    hide InUse, BitmapBlock, InodeTable, FreeCount, Below, ClearBits, CountFor;
    assert GroupFormatted(d, groups[0], journal, 0);
    FormattedLaidOut(d, groups, journal);
    ClearAbove(OVERHEAD + 2 + journal);
    FirstCount(|d|, journal);
    assert TalliedAt(d, groups[0]) <==> |d| + journal == GROUP_BLOCKS - 1;
  }

  lemma FirstCount(n: nat, journal: nat)
    requires journal <= GROUP_BLOCKS - OVERHEAD - 2 && 3 <= n
    ensures CountFor(n, 0) == GROUP_BLOCKS - (OVERHEAD + 2 + journal) <==> n + journal == GROUP_BLOCKS - 1
  {
  }

  // ---------------------------------------------------------------------------
  // Blocks with a use of their own
  // ---------------------------------------------------------------------------

  /** Block 0, the table, bitmaps, inode tables, the journal and the root directory. */
  predicate Metadata(journal: nat, n: nat) {
    if n / GROUP_BLOCKS == 0 then n < OVERHEAD + 2 + journal else 2 <= n % GROUP_BLOCKS < 4 + TABLE_BLOCKS
  }

  /** The bitmap of every group but the first leaves the last block of the inode table clear: all
      metadata is marked in use if and only if no such block lies on the volume. */
  lemma MetadataMarkedIff(d: Disk, groups: seq<Group>, journal: nat)
    requires Formatted(d, groups, journal)
    ensures (forall n: nat :: n < |d| && n / GROUP_BLOCKS < |groups| && Metadata(journal, n) ==>
               Marked(d, groups, n)) <==>
            |d| <= GROUP_BLOCKS + OVERHEAD
  {
    hide BitmapBlock, InodeTable, FreeCount, CountFor, Below, InUse;
    forall n: nat | n < |d| && n / GROUP_BLOCKS < |groups| && Metadata(journal, n)
      ensures Marked(d, groups, n) <==> n / GROUP_BLOCKS == 0 || n % GROUP_BLOCKS < OVERHEAD
    {
      assert GroupFormatted(d, groups[n / GROUP_BLOCKS], journal, n / GROUP_BLOCKS);
    }
    if |d| > GROUP_BLOCKS + OVERHEAD {
      assert Metadata(journal, GROUP_BLOCKS + OVERHEAD) && !Marked(d, groups, GROUP_BLOCKS + OVERHEAD);
    }
  }

  ghost predicate Marked(d: Disk, groups: seq<Group>, n: nat)
    requires n / GROUP_BLOCKS < |groups|
  {
    BitmapBlock(groups[n / GROUP_BLOCKS]) < |d| && BlockInUse(d, groups, n)
  }

  /** Once the first group is used up, the next allocation hands out that block of the inode table. */
  lemma InodeTableGranted(d: Disk, groups: seq<Group>, free: nat, journal: nat)
    requires free < TXN_LIMIT && 2 <= |groups| <= MAX_GROUPS && LaidOut(d, groups) && |d| > GROUP_BLOCKS + OVERHEAD
    requires FreeCount(groups[0]) == 0 || GroupFull(d, groups[0])
    requires GroupFormatted(d, groups[1], journal, 1)
    ensures var blk := Granted(d, groups, free, 0).blk;
            && InodeTable(groups[1]) <= blk < InodeTable(groups[1]) + TABLE_BLOCKS
            && blk == InodeTable(groups[1]) + TABLE_BLOCKS - 1
  {
    hide InUse, BitmapBlock, InodeTable, FreeCount, Granted, Below, CountFor;
    var n := GROUP_BLOCKS + OVERHEAD;
    SecondCount(|d|);
    LaidOutOffers(d, groups);
    GrantIsLowest(d, groups, free);
    assert Placed(d, groups[1]) && Placed(d, groups[0]);
    assert Offered(d, groups, n);
    forall m: nat | m < n ensures !Offered(d, groups, m) {
    }
  }

  lemma SecondCount(n: nat)
    requires n > GROUP_BLOCKS + OVERHEAD
    ensures CountFor(n, 1) != 0
  {
  }

  /** On every fresh volume with a few blocks to spare the first allocation returns the block behind
      the root directory, and a second in the same transaction returns it again. */
  lemma FreshSameBlock(d: Disk, groups: seq<Group>, free: nat, journal: nat)
    requires Formatted(d, groups, journal) && free < TXN_LIMIT && journal < GROUP_BLOCKS - OVERHEAD - 2
    requires LaidOut(d, groups) && CountFor(|d|, 0) >= 2
    ensures var a := Granted(d, groups, free, 0);
            a.blk == OVERHEAD + 2 + journal && Granted(d, a.groups, a.free, 0).blk == a.blk
  {
    hide InUse, BitmapBlock, InodeTable, FreeCount, Granted, CountFor, Below;
    var n := OVERHEAD + 2 + journal;
    assert GroupFormatted(d, groups[0], journal, 0);
    LaidOutOffers(d, groups);
    GrantIsLowest(d, groups, free);
    assert Placed(d, groups[0]) && Offered(d, groups, n);
    forall m: nat | m < n ensures !Offered(d, groups, m) {
    }
    var a := Granted(d, groups, free, 0);
    assert DebitedAt(groups[0], a.groups[0], 0 in Charged(d, groups, a.blk));
    SameBlockAgain(d, groups, free);
  }

  /** One group of 8192 blocks with the default journal of 2048. */
  function SmallDisk(): (d: Disk)
    ensures |d| == 8192 && d[2] == Below(2565)
  {
    var d: Disk := seq(8192, _ => ZeroBlock());
    d[2 := Below(2565)]
  }

  function SmallGroup(): Group {
    var z: Group := seq(32, _ => 0);
    WithCount(Put32(Put32(z, 0, 2), 8, 4), CountFor(8192, 0))
  }

  lemma SmallVolume()
    ensures Formatted(SmallDisk(), [SmallGroup()], 2048) && LaidOut(SmallDisk(), [SmallGroup()])
    ensures var a := Granted(SmallDisk(), [SmallGroup()], 0, 0);
            a.blk == 2565 && Granted(SmallDisk(), a.groups, a.free, 0).blk == 2565
  {
    hide Below, Granted, U32, U16, Put32, SmallDisk;
    var z: Group := seq(32, _ => 0);
    Put32Elsewhere(Put32(z, 0, 2), 8, 4, 0);
    assert GroupFormatted(SmallDisk(), SmallGroup(), 2048, 0);
    FormattedLaidOut(SmallDisk(), [SmallGroup()], 2048);
    FreshSameBlock(SmallDisk(), [SmallGroup()], 0, 2048);
  }
}
