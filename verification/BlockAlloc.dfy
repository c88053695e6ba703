/** Block allocation (fs/blueyfs.c, alloc_block): one bitmap a group, group descriptors in memory with
    a copy in block 1, and what an allocation puts into the running transaction. */
module BlockAlloc {
  import opened Bytes
  import opened DirBlock
  import opened Journal

  const GROUP_BLOCKS: nat := 8192
  const MAX_GROUPS: nat := 16

  /** A packed group descriptor. */
  type Group = b: Bytes | |b| == 32 witness seq(32, _ => 0)

  function BitmapBlock(d: Group): (n: nat)
    ensures n < TXN_LIMIT
  {
    U32(d, 0)
  }

  function InodeTable(d: Group): nat { U32(d, 8) }

  function FreeCount(d: Group): (n: nat)
    ensures n < 0x1_0000
  {
    U16(d, 12)
  }

  function WithCount(d: Group, n: nat): (r: Group)
    requires n < 0x1_0000
    ensures FreeCount(r) == n && BitmapBlock(r) == BitmapBlock(d) && InodeTable(r) == InodeTable(d)
    ensures forall i :: 0 <= i < 32 && i != 12 && i != 13 ==> r[i] == d[i]
  {
    var v := Le16(n);
    var r := Patch(d, 12, v);
    assert r[12 + 0] == v[0] && r[12 + 1] == v[1];
    r
  }

  // ---------------------------------------------------------------------------
  // Bitmaps
  // ---------------------------------------------------------------------------

  function Bit(x: nat, k: nat): (r: nat)
    ensures r < 2
  {
    if k == 0 then x % 2 else Bit(x / 2, k - 1)
  }

  predicate InUse(b: Block, i: nat)
    requires i < GROUP_BLOCKS
  {
    Bit(b[i / 8], i % 8) == 1
  }

  function WithBit(x: nat, k: nat): (r: nat)
    requires Bit(x, k) == 0
    ensures x < r
  {
    if k == 0 then x + 1 else 2 * WithBit(x / 2, k - 1) + x % 2
  }

  /** Setting a clear bit sets that bit, no other, and stays within as many bits. */
  lemma {:induction false} WithBitBits(x: nat, k: nat, j: nat, n: nat)
    requires Bit(x, k) == 0 && k < n && x < Pow2(n)
    ensures Bit(WithBit(x, k), j) == (if j == k then 1 else Bit(x, j)) && WithBit(x, k) < Pow2(n)
  {
    var y := WithBit(x, k);
    if k > 0 {
      assert y % 2 == x % 2 && y / 2 == WithBit(x / 2, k - 1);
      WithBitBits(x / 2, k - 1, if j == 0 then 0 else j - 1, n - 1);
    } else {
      assert y / 2 == x / 2;
    }
  }

  function Pow2(n: nat): nat { if n == 0 then 1 else 2 * Pow2(n - 1) }

  function Taken(b: Block, i: nat): (r: Block)
    requires i < GROUP_BLOCKS && !InUse(b, i)
    ensures forall j: nat :: j < GROUP_BLOCKS ==> (InUse(r, j) <==> j == i || InUse(b, j))
  {
    TakenBits(b, i);
    b[i / 8 := WithBit(b[i / 8], i % 8)]
  }

  lemma TakenBits(b: Block, i: nat)
    requires i < GROUP_BLOCKS && !InUse(b, i)
    ensures var x := WithBit(b[i / 8], i % 8);
            x < 256 && forall j: nat :: j < 8 ==> Bit(x, j) == if j == i % 8 then 1 else Bit(b[i / 8], j)
  {
    assert Pow2(8) == 256;
    forall j: nat | j < 8
      ensures var x := WithBit(b[i / 8], i % 8);
              x < 256 && Bit(x, j) == if j == i % 8 then 1 else Bit(b[i / 8], j)
    {
      WithBitBits(b[i / 8], i % 8, j, 8);
    }
  }

  /** The first clear bit from i on, 8192 if there is none. */
  function FirstFree(b: Block, i: nat): (r: nat)
    requires i <= GROUP_BLOCKS
    ensures i <= r <= GROUP_BLOCKS && (r < GROUP_BLOCKS ==> !InUse(b, r))
    ensures forall j :: i <= j < r ==> InUse(b, j)
    decreases GROUP_BLOCKS - i
  {
    if i == GROUP_BLOCKS || !InUse(b, i) then i else FirstFree(b, i + 1)
  }

  lemma {:induction false} FirstFreeFrom(b: Block, i: nat, j: nat)
    requires i <= j <= GROUP_BLOCKS && forall k :: i <= k < j ==> InUse(b, k)
    ensures FirstFree(b, i) == FirstFree(b, j)
    decreases j - i
  {
    if i < j { FirstFreeFrom(b, i + 1, j); }
  }

  /** A byte of ones is a byte without a clear bit. */
  lemma FullByte(x: Byte)
    ensures x == 255 <==> forall k: nat :: k < 8 ==> Bit(x, k) == 1
  {
    assert Pow2(8) == 256;
    if x == 255 {
      forall k: nat | k < 8 ensures Bit(x, k) == 1 { BitOfOnes(x, 8, k); }
    } else {
      var k := ClearBit(x, 8);
    }
  }

  lemma {:induction false} BitOfOnes(x: nat, n: nat, k: nat)
    requires x == Pow2(n) - 1 && k < n
    ensures Bit(x, k) == 1
  {
    if k > 0 { BitOfOnes(x / 2, n - 1, k - 1); }
  }

  lemma {:induction false} ClearBit(x: nat, n: nat) returns (k: nat)
    requires x < Pow2(n) - 1
    ensures k < n && Bit(x, k) == 0
  {
    if x % 2 == 0 { return 0; }
    k := ClearBit(x / 2, n - 1);
    k := k + 1;
  }

  /** The two loops of the search: whole bytes of ones are skipped. */
  method FindFree(b: Block) returns (i: nat)
    ensures i == FirstFree(b, 0)
  {
    hide InUse, FirstFree;
    var w := 0;
    while w < GROUP_BLOCKS / 8
      invariant w <= GROUP_BLOCKS / 8 && FirstFree(b, 0) == FirstFree(b, 8 * w)
    {
      FullByte(b[w]);
      if b[w] != 0xFF {
        var k := 0;
        while k < 8
          invariant k <= 8 && FirstFree(b, 0) == FirstFree(b, 8 * w + k)
          invariant forall j: nat :: j < k ==> Bit(b[w], j) == 1
        {
          NextBit(b, w, k);
          if Bit(b[w], k) == 0 { return 8 * w + k; }
          k := k + 1;
        }
        assert false;
      } else {
        SkipByte(b, w);
      }
      w := w + 1;
    }
    return GROUP_BLOCKS;
  }

  lemma NextBit(b: Block, w: nat, k: nat)
    requires w < GROUP_BLOCKS / 8 && k < 8
    ensures FirstFree(b, 8 * w + k) == if Bit(b[w], k) == 0 then 8 * w + k else FirstFree(b, 8 * w + k + 1)
  {
    assert (8 * w + k) / 8 == w && (8 * w + k) % 8 == k;
  }

  lemma SkipByte(b: Block, w: nat)
    requires w < GROUP_BLOCKS / 8 && b[w] == 255
    ensures FirstFree(b, 8 * w) == FirstFree(b, 8 * w + 8)
  {
    FullByte(b[w]);
    forall j | 8 * w <= j < 8 * w + 8 ensures InUse(b, j) {
      assert j / 8 == w && Bit(b[w], j % 8) == 1;
    }
    FirstFreeFrom(b, 8 * w, 8 * w + 8);
  }

  // ---------------------------------------------------------------------------
  // One allocation
  // ---------------------------------------------------------------------------

  /** Block 0 stands for none. `txn` is what the allocation journals. */
  datatype Grant = Grant(blk: nat, txn: Txn, groups: seq<Group>, free: nat)

  /** Block n may be handed out: its group counts free blocks, its bitmap is readable and its bit clear. */
  predicate Allocatable(d: Disk, groups: seq<Group>, n: nat) {
    var k := n / GROUP_BLOCKS;
    && k < |groups| && FreeCount(groups[k]) != 0 && BitmapBlock(groups[k]) < |d|
    && !InUse(d[BitmapBlock(groups[k])], n % GROUP_BLOCKS)
  }

  /** write_bgd: the table in block 1, as on disk, with this entry as in memory. */
  function TableWrite(d: Disk, k: nat, g: Group): Txn
    requires k < MAX_GROUPS
  {
    if 1 < |d| then [Update(1, Patch(d[1], 32 * k, g))] else []
  }

  /** The entry of the group reads back, and those of the others are as before. */
  lemma TableReadsBack(d: Disk, k: nat, g: Group, j: nat)
    requires k < MAX_GROUPS && j < 128 && 1 < |d|
    ensures var txn := TableWrite(d, k, g);
            && |txn| == 1 && txn[0].block == 1
            && txn[0].data[32 * j..32 * j + 32] == if j == k then g else d[1][32 * j..32 * j + 32]
  {
    var b := TableWrite(d, k, g)[0].data;
    forall i | 0 <= i < 32 ensures b[32 * j..32 * j + 32][i] == if j == k then g[i] else d[1][32 * j..32 * j + 32][i] {
      if j == k { assert b[32 * k + i] == g[i]; }
    }
  }

  function InGroup(d: Disk, groups: seq<Group>, free: nat, k: nat): (a: Grant)
    requires k < |groups| <= MAX_GROUPS && free < TXN_LIMIT
    ensures |a.groups| == |groups| && a.free < TXN_LIMIT && (k > 0 && a.blk == 0 ==> a == Grant(0, [], groups, free))
    ensures |a.txn| <= 2 && (a.blk != 0 ==> a.txn != [] && a.blk / GROUP_BLOCKS == k)
  {
    var bm := BitmapBlock(groups[k]);
    if FreeCount(groups[k]) == 0 || bm >= |d| then Grant(0, [], groups, free)
    else
      var i := FirstFree(d[bm], 0);
      if i == GROUP_BLOCKS then Grant(0, [], groups, free)
      else
        var g := WithCount(groups[k], FreeCount(groups[k]) - 1);
        var txn := [Update(bm, Taken(d[bm], i))] + TableWrite(d, k, g);
        Grant(GROUP_BLOCKS * k + i, txn, groups[k := g], (free + TXN_LIMIT - 1) % TXN_LIMIT)
  }

  /** alloc_block, from group k on. */
  function Granted(d: Disk, groups: seq<Group>, free: nat, k: nat): (a: Grant)
    requires k <= |groups| <= MAX_GROUPS && free < TXN_LIMIT
    ensures |a.groups| == |groups| && a.free < TXN_LIMIT && |a.txn| <= (if k == 0 then 4 else 2)
    ensures a.blk != 0 ==> a.txn != [] && a.blk / GROUP_BLOCKS < |groups|
    ensures k > 0 && a.blk == 0 ==> a == Grant(0, [], groups, free)
    decreases |groups| - k
  {
    if k == |groups| then Grant(0, [], groups, free)
    else
      var a := InGroup(d, groups, free, k);
      if a.blk != 0 then a
      else
        var b := Granted(d, a.groups, a.free, k + 1);
        Grant(b.blk, a.txn + b.txn, b.groups, b.free)
  }

  lemma GrantedStep(d: Disk, groups: seq<Group>, free: nat, k: nat)
    requires k <= |groups| <= MAX_GROUPS && free < TXN_LIMIT
    ensures k == |groups| ==> Granted(d, groups, free, k) == Grant(0, [], groups, free)
    ensures k < |groups| ==>
      var a := InGroup(d, groups, free, k); var b := Granted(d, a.groups, a.free, k + 1);
      Granted(d, groups, free, k) == if a.blk != 0 then a else Grant(b.blk, a.txn + b.txn, b.groups, b.free)
  {
    hide InGroup;
  }

  // ---------------------------------------------------------------------------
  // What an allocation returns
  // ---------------------------------------------------------------------------

  /** The blocks a search may return. It gives up on group 0 when that group would yield block 0. */
  predicate Offered(d: Disk, groups: seq<Group>, n: nat) {
    n != 0 && Allocatable(d, groups, n) && (n < GROUP_BLOCKS ==> !Allocatable(d, groups, 0))
  }

  /** One block fewer is counted in the groups of s, and the descriptors are otherwise as before. */
  ghost predicate Debited(groups: seq<Group>, after: seq<Group>, s: set<nat>) {
    |after| == |groups| && forall j :: 0 <= j < |groups| ==> DebitedAt(groups[j], after[j], j in s)
  }

  ghost predicate DebitedAt(d: Group, e: Group, less: bool) {
    && BitmapBlock(e) == BitmapBlock(d) && InodeTable(e) == InodeTable(d)
    && FreeCount(e) == FreeCount(d) - (if less then 1 else 0)
  }

  /** The groups an allocation has counted down. */
  ghost function Charged(d: Disk, groups: seq<Group>, blk: nat): set<nat> {
    (if blk != 0 then {blk / GROUP_BLOCKS} else {}) + if Allocatable(d, groups, 0) then {0} else {}
  }

  lemma OfGroup(k: nat, i: nat)
    requires i < GROUP_BLOCKS
    ensures (GROUP_BLOCKS * k + i) / GROUP_BLOCKS == k && (GROUP_BLOCKS * k + i) % GROUP_BLOCKS == i
  {
  }

  lemma InGroupFirst(d: Disk, groups: seq<Group>, free: nat, k: nat)
    requires k < |groups| <= MAX_GROUPS && free < TXN_LIMIT
    ensures var a := InGroup(d, groups, free, k);
            && (a.blk != 0 ==> a.blk / GROUP_BLOCKS == k && Offered(d, groups, a.blk))
            && (forall n: nat :: n / GROUP_BLOCKS == k && (a.blk == 0 || n < a.blk) ==> !Offered(d, groups, n))
            && (forall j :: 0 <= j < |groups| && j != k ==> a.groups[j] == groups[j])
            && Debited(groups, a.groups, if a.blk != 0 || (k == 0 && Allocatable(d, groups, 0)) then {k} else {})
  {
    hide InUse, FirstFree, BitmapBlock, InodeTable, FreeCount, Taken, TableWrite;
    var a := InGroup(d, groups, free, k);
    forall n: nat | n / GROUP_BLOCKS == k && (a.blk == 0 || n < a.blk) ensures !Offered(d, groups, n) {
      OfGroup(k, n % GROUP_BLOCKS);
    }
    if FreeCount(groups[k]) != 0 && BitmapBlock(groups[k]) < |d| {
      var i := FirstFree(d[BitmapBlock(groups[k])], 0);
      if i < GROUP_BLOCKS { OfGroup(k, i); }
    }
  }

  lemma {:induction false} GrantedFirst(d: Disk, groups: seq<Group>, free: nat, k: nat)
    requires 1 <= k <= |groups| <= MAX_GROUPS && free < TXN_LIMIT
    ensures var a := Granted(d, groups, free, k);
            && (a.blk != 0 ==> Offered(d, groups, a.blk) && a.blk / GROUP_BLOCKS >= k)
            && (forall n: nat :: n / GROUP_BLOCKS >= k && (a.blk == 0 || n < a.blk) ==> !Offered(d, groups, n))
            && Debited(groups, a.groups, if a.blk != 0 then {a.blk / GROUP_BLOCKS} else {})
    decreases |groups| - k
  {
    hide InUse, InGroup, FreeCount, BitmapBlock, InodeTable;
    if k < |groups| {
      InGroupFirst(d, groups, free, k);
      GrantedFirst(d, groups, free, k + 1);
    }
  }

  /** alloc_block returns the lowest block on offer, and 0 exactly when none is. */
  lemma GrantIsLowest(d: Disk, groups: seq<Group>, free: nat)
    requires |groups| <= MAX_GROUPS && free < TXN_LIMIT
    ensures var a := Granted(d, groups, free, 0);
            && (a.blk == 0 <==> forall n: nat :: !Offered(d, groups, n))
            && (a.blk != 0 ==> Offered(d, groups, a.blk) && forall n: nat :: n < a.blk ==> !Offered(d, groups, n))
            && Debited(groups, a.groups, Charged(d, groups, a.blk))
  {
    hide InUse, InGroup, FreeCount, BitmapBlock, InodeTable;
    if groups != [] {
      InGroupFirst(d, groups, free, 0);
      var a := InGroup(d, groups, free, 0);
      if a.blk == 0 {
        GrantedFirst(d, a.groups, a.free, 1);
        OtherGroups(d, groups, a.groups);
      }
    }
  }

  /** The superblock counts one block fewer for a block returned, and for block 0 when it is wasted. */
  lemma {:induction false} SuperblockCounts(d: Disk, groups: seq<Group>, free: nat, k: nat)
    requires k <= |groups| <= MAX_GROUPS && free < TXN_LIMIT
    ensures var a := Granted(d, groups, free, k);
            var taken := (if a.blk != 0 then 1 else 0) + if k == 0 && Allocatable(d, groups, 0) then 1 else 0;
            (a.free + taken) % TXN_LIMIT == free
    decreases |groups| - k
  {
    hide InGroup, Allocatable;
    GrantedStep(d, groups, free, k);
    NoFirstGroup(d, groups);
    if k < |groups| {
      var a := InGroup(d, groups, free, k);
      InGroupCounts(d, groups, free, k);
      if a.blk == 0 { SuperblockCounts(d, a.groups, a.free, k + 1); }
    }
  }

  lemma NoFirstGroup(d: Disk, groups: seq<Group>)
    ensures groups == [] ==> !Allocatable(d, groups, 0)
  {
  }

  lemma InGroupCounts(d: Disk, groups: seq<Group>, free: nat, k: nat)
    requires k < |groups| <= MAX_GROUPS && free < TXN_LIMIT
    ensures var a := InGroup(d, groups, free, k);
            var wasted := k == 0 && Allocatable(d, groups, 0);
            && !(a.blk != 0 && wasted) && (a.free + if a.blk != 0 || wasted then 1 else 0) % TXN_LIMIT == free
  {
    hide InUse, FirstFree, BitmapBlock, InodeTable, FreeCount, Taken, TableWrite;
  }

  lemma OtherGroups(d: Disk, groups: seq<Group>, after: seq<Group>)
    requires groups != [] && |after| == |groups| && forall j :: 1 <= j < |groups| ==> after[j] == groups[j]
    ensures forall n: nat :: n / GROUP_BLOCKS >= 1 ==> (Offered(d, after, n) <==> Offered(d, groups, n))
  {
  }

  /** The group of block n still counts a free block. */
  predicate CountsMore(groups: seq<Group>, n: nat) {
    n / GROUP_BLOCKS < |groups| && FreeCount(groups[n / GROUP_BLOCKS]) != 0
  }

  /** Before the transaction is committed the bitmap on disk is as it was: the next call returns the
      same block again, unless the first one took the last block its group counts. */
  lemma SameBlockAgain(d: Disk, groups: seq<Group>, free: nat)
    requires |groups| <= MAX_GROUPS && free < TXN_LIMIT && Granted(d, groups, free, 0).blk != 0
    ensures var a := Granted(d, groups, free, 0);
            Granted(d, a.groups, a.free, 0).blk == a.blk <==> CountsMore(a.groups, a.blk)
  {
    hide Granted, InUse, FreeCount, BitmapBlock, InodeTable;
    var a := Granted(d, groups, free, 0);
    GrantIsLowest(d, groups, free);
    GrantIsLowest(d, a.groups, a.free);
    forall n: nat | Offered(d, a.groups, n) ensures Offered(d, groups, n) {
      var k := n / GROUP_BLOCKS;
      assert DebitedAt(groups[k], a.groups[k], k in Charged(d, groups, a.blk));
      if n < GROUP_BLOCKS { assert DebitedAt(groups[0], a.groups[0], 0 in Charged(d, groups, a.blk)); }
    }
    var k := a.blk / GROUP_BLOCKS;
    if FreeCount(a.groups[k]) != 0 {
      assert Offered(d, a.groups, a.blk);
    }
    assert DebitedAt(groups[k], a.groups[k], k in Charged(d, groups, a.blk));
    assert DebitedAt(groups[0], a.groups[0], 0 in Charged(d, groups, a.blk));
  }

  /** While block 0 is in use, an allocation journals its bit in the bitmap and its group's entry. */
  lemma {:induction false} GrantTxn(d: Disk, groups: seq<Group>, free: nat, k: nat)
    requires k <= |groups| <= MAX_GROUPS && free < TXN_LIMIT && !Allocatable(d, groups, 0)
    ensures var a := Granted(d, groups, free, k); var j := a.blk / GROUP_BLOCKS;
            && (a.blk == 0 ==> a == Grant(0, [], groups, free))
            && (a.blk != 0 ==> Allocatable(d, groups, a.blk))
            && (a.blk != 0 ==> a.txn == BitmapWrite(d, groups[j], a.blk) + TableWrite(d, j, a.groups[j]))
    decreases |groups| - k
  {
    hide InUse, FreeCount, BitmapBlock, InodeTable, Taken, TableWrite, FirstFree;
    if k < |groups| {
      GrantTxn(d, groups, free, k + 1);
      InGroupTxn(d, groups, free, k);
    }
  }

  function BitmapWrite(d: Disk, g: Group, n: nat): Txn
    requires BitmapBlock(g) < |d| && !InUse(d[BitmapBlock(g)], n % GROUP_BLOCKS)
  {
    [Update(BitmapBlock(g), Taken(d[BitmapBlock(g)], n % GROUP_BLOCKS))]
  }

  lemma InGroupTxn(d: Disk, groups: seq<Group>, free: nat, k: nat)
    requires k < |groups| <= MAX_GROUPS && free < TXN_LIMIT && !Allocatable(d, groups, 0)
    ensures var a := InGroup(d, groups, free, k);
            && (a.blk == 0 ==> a == Grant(0, [], groups, free))
            && (a.blk != 0 ==> Allocatable(d, groups, a.blk))
            && (a.blk != 0 ==> a.txn == BitmapWrite(d, groups[k], a.blk) + TableWrite(d, k, a.groups[k]))
  {
    hide InUse, FreeCount, BitmapBlock, InodeTable, Taken, TableWrite;
    if FreeCount(groups[k]) != 0 && BitmapBlock(groups[k]) < |d| {
      var i := FirstFree(d[BitmapBlock(groups[k])], 0);
      if i < GROUP_BLOCKS { OfGroup(k, i); }
    }
  }
}
