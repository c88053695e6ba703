/** mkdir as one transaction (fs/blueyfs.c, biscuitfs_mkdir_cb): the new directory's block and inode, and
    the entry in its parent. */
module MakeDir {
  import opened Bytes
  import opened DirBlock
  import opened Journal
  import opened Directory
  import opened DirEdit
  import opened DirTxn
  import opened BlockAlloc

  const FT_DIR: Byte := 2
  const DOT: Name := [46]
  const DOTDOT: Name := [46, 46]
  /** What write_inode copies; an inode slot has 256 bytes. */
  const INODE_RECORD: nat := 220

  function Zeros(n: nat): Bytes { seq(n, _ => 0) }

  // ---------------------------------------------------------------------------
  // The first block and the inode of a directory
  // ---------------------------------------------------------------------------

  ghost function DotRecords(ino: nat, parent: nat): seq<Bytes>
    requires ino < TXN_LIMIT && parent < TXN_LIMIT
  {
    [Entry(Zeros(12), DOT, ino, FT_DIR), Entry(Zeros(4084), DOTDOT, parent, FT_DIR)]
  }

  function DotBlock(ino: nat, parent: nat): Block
    requires ino < TXN_LIMIT && parent < TXN_LIMIT
  {
    Entry(Zeros(12), DOT, ino, FT_DIR) + Entry(Zeros(4084), DOTDOT, parent, FT_DIR)
  }

  ghost function Dots(ino: nat, parent: nat): map<Name, nat> { map[DOTDOT := parent, DOT := ino] }

  lemma DotBlockMaps(ino: nat, parent: nat)
    requires 0 < ino < TXN_LIMIT && 0 < parent < TXN_LIMIT
    ensures var b := DotBlock(ino, parent);
            && Tiled(b) && AllWellFormed(Chunks(b)) && MapOf(Chunks(b)) == Dots(ino, parent) && Unique(Chunks(b))
  {
    hide Entry, MapOf, Unique, Chunks, WellFormed;
    var c: Bytes, e: Bytes := Entry(Zeros(12), DOT, ino, FT_DIR), Entry(Zeros(4084), DOTDOT, parent, FT_DIR);
    EntryMaps(Zeros(12), DOT, ino, FT_DIR);
    EntryMaps(Zeros(4084), DOTDOT, parent, FT_DIR);
    assert [c] + [e] == [c, e] && [c, e][1..] == [e] && [e][1..] == [];
    assert Concat([c, e]) == c + Concat([e]) && Concat([e]) == e + Concat([]);
    assert DotBlock(ino, parent) == Concat([c, e]) && |DOT| != |DOTDOT|;
    MapOfSplit([c], [e]);
    ChunksOfConcat([c, e]);
  }

  datatype Owner = Owner(uid: nat, gid: nat, setgid: bool)

  /** Mode, owner, size, group, links, sectors, and one block pointer; the rest is zero. */
  function NewInode(o: Owner, p: nat): (r: Bytes)
    requires p < TXN_LIMIT
    ensures |r| == INODE_RECORD
  {
    Le16(if o.setgid then 0x45ED else 0x41ED) + Le16(o.uid % 0x1_0000) + Le32(4096) + Zeros(16) +
    Le16(o.gid % 0x1_0000) + Le16(2) + Le32(8) + Zeros(8) + Le32(p) + Zeros(176)
  }

  lemma NewInodeFields(o: Owner, p: nat, i: Bytes)
    requires p < TXN_LIMIT && |i| == 256 && i[..INODE_RECORD] == NewInode(o, p)
    ensures IsDir(i) && Size(i) == 4096 && Direct(i, 0) == p && Direct(i, 12) == 0 && Direct(i, 13) == 0
    ensures U16(i, 0) == (if o.setgid then 0x4000 + 0x400 + 0x1ED else 0x4000 + 0x1ED)
    ensures U16(i, 2) == o.uid % 0x1_0000 && U16(i, 24) == o.gid % 0x1_0000 && U16(i, 26) == 2 && U32(i, 28) == 8
  {
    hide U16, U32, Le16, Le32;
    var r := NewInode(o, p);
    assert r[0..2] == Le16(if o.setgid then 0x45ED else 0x41ED) && r[4..8] == Le32(4096) && r[40..44] == Le32(p);
    FieldSame(i, r, 0);
    FieldSame(i, r, 4);
    FieldSame(i, r, 40);
    assert r[2..4] == Le16(o.uid % 0x1_0000) && r[24..26] == Le16(o.gid % 0x1_0000) && r[26..28] == Le16(2);
    assert r[28..32] == Le32(8);
    FieldSame(i, r, 2);
    FieldSame(i, r, 24);
    FieldSame(i, r, 26);
    FieldSame(i, r, 28);
    ZeroField(i, r, 88);
    ZeroField(i, r, 92);
  }

  lemma FieldSame(i: Bytes, r: Bytes, o: nat)
    requires |r| <= |i| && i[..|r|] == r && o + 4 <= |r|
    ensures U32(i, o) == U32(r[o..o + 4], 0) && U16(i, o) == U16(r[o..o + 2], 0)
  {
    assert i[o] == r[o] && i[o + 1] == r[o + 1] && i[o + 2] == r[o + 2] && i[o + 3] == r[o + 3];
  }

  lemma ZeroField(i: Bytes, r: Bytes, o: nat)
    requires |r| <= |i| && i[..|r|] == r && o + 4 <= |r| && r[o..o + 4] == Zeros(4)
    ensures U32(i, o) == 0
  {
    FieldSame(i, r, o);
  }

  /** The inode's block with its record stored. */
  function WithRecord(b: Block, ino: nat, r: Bytes): Block
    requires ino != 0 && |r| == INODE_RECORD
  {
    Patch(b, InodeOffset(ino), r)
  }

  /** A directory of one data block, as its inode and that block say. */
  lemma OneBlockDir(e: Disk, g: Geometry, ino: nat, p: nat, o: Owner)
    requires Mountable(e, g) && Readable(e, g, ino) && 0 < p < |e| && 0 < InodeBlock(g, ino) != p
    requires InodeBytes(e, g, ino)[..INODE_RECORD] == NewInode(o, p)
    requires !InLog(g.log, MAX_TXN, p) && !InLog(g.log, MAX_TXN, InodeBlock(g, ino))
    requires Tiled(e[p]) && AllWellFormed(Chunks(e[p])) && Unique(Chunks(e[p]))
    ensures DirOk(e, g, ino) && DirMap(e, g, ino) == MapOf(Chunks(e[p]))
  {
    hide Chunks, U32, U16, NewInode, InodeBytes, MapOf, Unique;
    var i := InodeBytes(e, g, ino);
    NewInodeFields(o, p, i);
    assert PointerBlocks(e, i) == {0};
    assert Blocks(e, i) == [p];
    OneBlock(e, p);
    assert Records(e, Blocks(e, i)) == Chunks(e[p]);
  }

  // ---------------------------------------------------------------------------
  // The transaction
  // ---------------------------------------------------------------------------

  /** What is made: inode number, parent, name, first block and owner. */
  datatype NewDir = NewDir(ino: nat, parent: nat, name: Name, p: nat, owner: Owner)

  /** The new directory's own two updates. */
  function Making(d: Disk, g: Geometry, m: NewDir): Txn
    requires Readable(d, g, m.ino) && m.p < TXN_LIMIT && m.ino < TXN_LIMIT && m.parent < TXN_LIMIT
  {
    var ib := InodeBlock(g, m.ino);
    [Update(m.p, DotBlock(m.ino, m.parent)), Update(ib, WithRecord(d[ib], m.ino, NewInode(m.owner, m.p)))]
  }

  /** The parent is a directory without the name; the new block is not in use by it, and the new inode
      is another than its own. */
  ghost predicate Makeable(d: Disk, g: Geometry, m: NewDir) {
    && Mountable(d, g) && DirOk(d, g, m.parent) && Readable(d, g, m.ino) && GoodEntry(m.name, m.ino)
    && m.name !in DirMap(d, g, m.parent) && 0 < m.parent < TXN_LIMIT && Spare(d, g, m.parent, m.p)
    && var ib := InodeBlock(g, m.ino);
    && 0 < ib < TXN_LIMIT && ib != m.p && !InLog(g.log, MAX_TXN, ib) && TablesApart(g) && m.ino != m.parent
    && (ib != InodeBlock(g, m.parent) ==> ib !in Touched(d, g, m.parent))
  }

  lemma MakeableReady(d: Disk, g: Geometry, m: NewDir)
    requires Makeable(d, g, m)
    ensures Readable(d, g, m.ino) && m.p < TXN_LIMIT && m.ino < TXN_LIMIT && m.parent < TXN_LIMIT
    ensures DirOk(d, g, m.parent) && Readable(d, g, m.parent) && m.p < |d| && m.p !in Touched(d, g, m.parent)
    ensures InodeBlock(g, m.ino) == InodeBlock(g, m.parent) ==> InodeOffset(m.ino) != InodeOffset(m.parent)
  {
    InodesApart(g, m.ino, m.parent);
  }

  /** The record leaves the other inodes of its block alone. */
  lemma OtherInodes(b: Block, ino: nat, r: Bytes, other: nat)
    requires ino != 0 && other != 0 && |r| == INODE_RECORD && InodeOffset(other) != InodeOffset(ino)
    ensures var o := InodeOffset(other); WithRecord(b, ino, r)[o..o + 256] == b[o..o + 256]
  {
    var o, p := InodeOffset(other), InodeOffset(ino);
    assert o + 256 <= p || p + 256 <= o;
    var c := WithRecord(b, ino, r);
    forall k | o <= k < o + 256 ensures c[k] == b[k] {
    }
  }

  /** The parent gains the name, whichever way the entry is added. */
  lemma ParentGains(d: Disk, g: Geometry, m: NewDir, pre: Txn, add: Txn)
    requires Makeable(d, g, m) && Apart(d, g, m.parent, pre)
    requires Adds(d, g, m.parent, add, m.name, m.ino)
    ensures var e := Perform(d, pre + Making(d, g, m) + add);
            DirOk(e, g, m.parent) && DirMap(e, g, m.parent) == DirMap(d, g, m.parent)[m.name := m.ino]
  {
    hide DirOk, DirMap, Touched, Perform, InodeBytes, WithRecord, DotBlock, NewInode, Fits, Unchanged, Spare, GoodEntry;
    MakeableReady(d, g, m);
    TouchedInode(d, g, m.parent);
    TouchedInode(Perform(d, add), g, m.parent);
    var before := pre + Making(d, g, m);
    MakingAside(d, g, m);
    forall k | 0 <= k < |before| && before[k].block in Touched(Perform(d, add), g, m.parent)
      ensures WritesInode(before[k], g, m.parent, InodeBytes(d, g, m.parent)) || Names(add, before[k].block)
    {
      if k < |pre| { assert before[k] == pre[k]; } else { assert before[k] == Making(d, g, m)[k - |pre|]; }
    }
    OtherUpdates(d, g, m.parent, before, add, []);
    assert before + add + [] == pre + Making(d, g, m) + add;
  }

  /** The new directory's updates are none of the parent's business. */
  lemma MakingAside(d: Disk, g: Geometry, m: NewDir)
    requires Makeable(d, g, m)
    ensures Readable(d, g, m.parent)
    ensures forall k :: 0 <= k < 2 && Making(d, g, m)[k].block in Touched(d, g, m.parent) ==>
      WritesInode(Making(d, g, m)[k], g, m.parent, InodeBytes(d, g, m.parent))
  {
    hide DirOk, DirMap, Touched, WithRecord, DotBlock, NewInode;
    var ib := InodeBlock(g, m.ino);
    MakeableReady(d, g, m);
    if ib == InodeBlock(g, m.parent) { OtherInodes(d[ib], m.ino, NewInode(m.owner, m.p), m.parent); }
  }

  /** The new directory is read from its inode and its block, if these are not written again. */
  lemma ChildReads(d: Disk, e: Disk, g: Geometry, m: NewDir)
    requires Makeable(d, g, m) && |e| == |d|
    requires e[InodeBlock(g, m.ino)] == Making(d, g, m)[1].data
    requires Tiled(e[m.p]) && AllWellFormed(Chunks(e[m.p])) && Unique(Chunks(e[m.p]))
    ensures DirOk(e, g, m.ino) && DirMap(e, g, m.ino) == MapOf(Chunks(e[m.p]))
  {
    hide DirOk, DirMap, Touched, DotBlock, NewInode, Chunks, MapOf, Unique;
    var i, r, o := InodeBytes(e, g, m.ino), NewInode(m.owner, m.p), InodeOffset(m.ino);
    forall k | 0 <= k < INODE_RECORD ensures i[k] == r[k] {
      assert i[k] == e[InodeBlock(g, m.ino)][o + k];
    }
    assert i[..INODE_RECORD] == r;
    OneBlockDir(e, g, m.ino, m.p, m.owner);
  }

  /** With room in the parent the new directory holds its two entries. */
  lemma ChildWithRoom(d: Disk, g: Geometry, m: NewDir, pre: Txn, add: Txn)
    requires Makeable(d, g, m) && DirOk(d, g, m.parent) && InPlace(d, g, m.parent, add)
    ensures var e := Perform(d, pre + Making(d, g, m) + add);
            DirOk(e, g, m.ino) && DirMap(e, g, m.ino) == Dots(m.ino, m.parent)
  {
    hide DirMap, Perform, InodeBytes, WithRecord, DotBlock, NewInode, Chunks, MapOf, Unique, Dots;
    var us, ib := pre + Making(d, g, m) + add, InodeBlock(g, m.ino);
    assert us[|pre|] == Making(d, g, m)[0] && us[|pre| + 1] == Making(d, g, m)[1] && us[|pre| + 2] == add[0];
    assert add[0].block in Touched(d, g, m.parent) && add[0].block != InodeBlock(g, m.parent);
    PerformLast(d, us, |pre|);
    PerformLast(d, us, |pre| + 1);
    DotBlockMaps(m.ino, m.parent);
    ChildReads(d, Perform(d, us), g, m);
  }

  /** What growing the parent journals is neither the new inode's block nor the new directory's. */
  ghost predicate GrowthApart(d: Disk, g: Geometry, m: NewDir, b: Grant)
    requires Readable(d, g, m.ino)
  {
    b.blk != InodeBlock(g, m.ino) && !Names(b.txn, InodeBlock(g, m.ino)) && !Names(b.txn, m.p)
  }

  /** With the parent growing, and its inode in another block: the new directory holds its two entries
      if the parent got another block, and else nothing but its own name, under its own number. */
  lemma ChildInFull(d: Disk, g: Geometry, m: NewDir, pre: Txn, b: Grant, own: Txn)
    requires Makeable(d, g, m) && GrowthApart(d, g, m, b) && InodeBlock(g, m.ino) != InodeBlock(g, m.parent)
    requires Grows(d, g, m.parent, own, b.blk, m.name, m.ino, FT_DIR)
    ensures var e := Perform(d, pre + Making(d, g, m) + (b.txn + own));
            && DirOk(e, g, m.ino)
            && DirMap(e, g, m.ino) == if b.blk == m.p then map[m.name := m.ino] else Dots(m.ino, m.parent)
  {
    hide DirOk, DirMap, Touched, Perform, InodeBytes, WithRecord, DotBlock, NewInode, Chunks, MapOf, Unique, Dots;
    hide FreshBlock, GrownInode, Tiled, AllWellFormed;
    MakeableReady(d, g, m);
    var us, n := pre + Making(d, g, m) + (b.txn + own), |pre| + 2 + |b.txn|;
    assert us[|pre|] == Making(d, g, m)[0] && us[|pre| + 1] == Making(d, g, m)[1];
    assert us[n] == own[0] && us[n + 1] == own[1] && |us| == n + 2;
    forall k | |pre| + 2 <= k < n ensures us[k].block != m.p && us[k].block != InodeBlock(g, m.ino) {
      assert us[k] == b.txn[k - |pre| - 2];
    }
    TouchedInode(d, g, m.parent);
    PerformLast(d, us, |pre| + 1);
    if b.blk == m.p {
      PerformLast(d, us, n);
      FreshBlockMaps(m.name, m.ino, FT_DIR);
    } else {
      PerformLast(d, us, |pre|);
      DotBlockMaps(m.ino, m.parent);
    }
    ChildReads(d, Perform(d, us), g, m);
  }

  /** With the parent growing, and its inode in the same block: the block is written again as it was on
      disk but for the parent, so the new inode is lost. */
  lemma InodeLost(d: Disk, g: Geometry, m: NewDir, pre: Txn, b: Grant, own: Txn)
    requires Makeable(d, g, m) && InodeBlock(g, m.ino) == InodeBlock(g, m.parent)
    requires Grows(d, g, m.parent, own, b.blk, m.name, m.ino, FT_DIR)
    ensures InodeBytes(Perform(d, pre + Making(d, g, m) + (b.txn + own)), g, m.ino) == InodeBytes(d, g, m.ino)
  {
    hide DirOk, DirMap, Touched, Perform, WithRecord, DotBlock, NewInode, FreshBlock, GrownInode;
    MakeableReady(d, g, m);
    var us, ib, o := pre + Making(d, g, m) + (b.txn + own), InodeBlock(g, m.ino), InodeOffset(m.parent);
    var n := Size(InodeBytes(d, g, m.parent)) / 4096;
    assert us[|us| - 1] == own[1];
    PerformLast(d, us, |us| - 1);
    GrownInodeKeeps(d[ib], o, n, b.blk, InodeOffset(m.ino));
  }

  // ---------------------------------------------------------------------------
  // Committed
  // ---------------------------------------------------------------------------

  /** A directory entry is added in place, or behind the allocation of a block. */
  ghost predicate Entered(d: Disk, g: Geometry, m: NewDir, b: Grant, add: Txn)
    requires DirOk(d, g, m.parent)
  {
    && Adds(d, g, m.parent, add, m.name, m.ino)
    && if NoRoom(d, g, m.parent, |m.name|) then
         && |add| >= |b.txn| && add[..|b.txn|] == b.txn
         && Grows(d, g, m.parent, add[|b.txn|..], b.blk, m.name, m.ino, FT_DIR)
       else InPlace(d, g, m.parent, add)
  }

  /** The parent's growth writes the new inode's block back as it was on disk. */
  ghost predicate Overwritten(d: Disk, g: Geometry, m: NewDir)
    requires Readable(d, g, m.ino)
  {
    NoRoom(d, g, m.parent, |m.name|) && InodeBlock(g, m.ino) == InodeBlock(g, m.parent)
  }

  /** What the new directory holds: its two entries, or, if the parent grew by the same block, the
      entry meant for the parent. */
  ghost function Holding(d: Disk, g: Geometry, m: NewDir, b: Grant): map<Name, nat> {
    if NoRoom(d, g, m.parent, |m.name|) && b.blk == m.p then map[m.name := m.ino] else Dots(m.ino, m.parent)
  }

  ghost function Whole(d: Disk, g: Geometry, m: NewDir, pre: Txn, add: Txn): Txn
    requires Makeable(d, g, m)
  {
    MakeableReady(d, g, m);
    pre + Making(d, g, m) + add
  }

  ghost predicate Made(d: Disk, e: Disk, g: Geometry, m: NewDir, b: Grant)
    requires Makeable(d, g, m) && |e| == |d|
  {
    && DirOk(e, g, m.parent) && DirMap(e, g, m.parent) == DirMap(d, g, m.parent)[m.name := m.ino]
    && (Overwritten(d, g, m) ==> InodeBytes(e, g, m.ino) == InodeBytes(d, g, m.ino))
    && (!Overwritten(d, g, m) ==> DirOk(e, g, m.ino) && DirMap(e, g, m.ino) == Holding(d, g, m, b))
  }

  lemma MadeInOrder(d: Disk, g: Geometry, m: NewDir, pre: Txn, b: Grant, add: Txn)
    requires Makeable(d, g, m) && Apart(d, g, m.parent, pre) && Entered(d, g, m, b, add)
    requires NoRoom(d, g, m.parent, |m.name|) ==> GrowthApart(d, g, m, b)
    ensures Made(d, Perform(d, Whole(d, g, m, pre, add)), g, m, b)
  {
    hide Makeable, Adds, Grows, InPlace, DirOk, DirMap, InodeBytes, Perform, Apart, Touched, NoRoom, Dots, GrowthApart;
    MakeableReady(d, g, m);
    EnteredAdds(d, g, m, b, add);
    ParentGains(d, g, m, pre, add);
    if !NoRoom(d, g, m.parent, |m.name|) {
      ChildWithRoom(d, g, m, pre, add);
    } else {
      assert add == b.txn + add[|b.txn|..];
      if InodeBlock(g, m.ino) == InodeBlock(g, m.parent) {
        InodeLost(d, g, m, pre, b, add[|b.txn|..]);
      } else {
        ChildInFull(d, g, m, pre, b, add[|b.txn|..]);
      }
    }
  }

  lemma EnteredAdds(d: Disk, g: Geometry, m: NewDir, b: Grant, add: Txn)
    requires DirOk(d, g, m.parent) && Entered(d, g, m, b, add)
    ensures Adds(d, g, m.parent, add, m.name, m.ino)
  {
  }

  /** What is made in order is made through the log. */
  lemma MadeByCommit(d: Disk, g: Geometry, m: NewDir, pre: Txn, b: Grant, add: Txn, seqNo: nat)
    requires Makeable(d, g, m) && Apart(d, g, m.parent, pre) && Entered(d, g, m, b, add)
    requires NoRoom(d, g, m.parent, |m.name|) ==> GrowthApart(d, g, m, b)
    requires Fits(d, g.log, Whole(d, g, m, pre, add)) && seqNo < TXN_LIMIT
    ensures var e := Perform(d, CommitWrites(g.log, Whole(d, g, m, pre, add), seqNo));
            Settled(e, g.log) && Made(d, e, g, m, b)
  {
    hide Entered, DirOk, DirMap, Touched, NoRoom, Holding, Whole, GrowthApart, Apart, Perform, CommitWrites, Replay;
    MadeInOrder(d, g, m, pre, b, add);
    var all, ib := Whole(d, g, m, pre, add), InodeBlock(g, m.ino);
    DirAfterCommit(d, g, m.parent, all, seqNo);
    if Overwritten(d, g, m) {
      CommitSettles(d, g.log, all, seqNo);
      assert CommitWrites(g.log, all, seqNo)[..2 * |all| + 2] == CommitWrites(g.log, all, seqNo);
      assert !InLog(g.log, |all|, ib);
    } else {
      DirAfterCommit(d, g, m.ino, all, seqNo);
    }
  }
}
