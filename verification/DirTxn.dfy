/** What editing one block after another does to a whole directory, as a transaction. */
module DirTxn {
  import opened Bytes
  import opened DirBlock
  import opened Journal
  import opened Directory
  import opened DirEdit

  ghost predicate Full(b: Block, n: nat) {
    AllWellFormed(Chunks(b)) && FirstRoom(Chunks(b), n) == |Chunks(b)|
  }

  ghost predicate FullUpTo(d: Disk, g: Geometry, ino: nat, k: nat, n: nat) {
    && DirOk(d, g, ino) && k <= |Blocks(d, InodeBytes(d, g, ino))|
    && forall j :: 0 <= j < k ==> Full(d[Blocks(d, InodeBytes(d, g, ino))[j]], n)
  }

  /** No record of the directory can be split for a name of n bytes. */
  ghost predicate NoRoom(d: Disk, g: Geometry, ino: nat, n: nat) {
    DirOk(d, g, ino) && FullUpTo(d, g, ino, |Blocks(d, InodeBytes(d, g, ino))|, n)
  }

  lemma BlockReady(d: Disk, g: Geometry, ino: nat, k: nat)
    requires DirOk(d, g, ino) && k * 4096 < Size(InodeBytes(d, g, ino))
    ensures var i := InodeBytes(d, g, ino); var p := Pointer(d, i, k);
            && 0 < p < |d| && Tiled(d[p]) && k < |Blocks(d, i)| && p == Blocks(d, i)[k]
  {
  }

  lemma OneUpdate(d: Disk, g: Geometry, ino: nat, k: nat, b: Block)
    requires DirOk(d, g, ino) && k < |Blocks(d, InodeBytes(d, g, ino))| && Mountable(d, g)
    ensures var p := Blocks(d, InodeBytes(d, g, ino))[k]; var txn := [Update(p, b)];
            p < |d| && Fits(d, g.log, txn) && Perform(d, txn) == d[p := b]
  {
    var p := Blocks(d, InodeBytes(d, g, ino))[k];
    assert p in Touched(d, g, ino);
    PerformOne(d, Update(p, b));
    TxnFits(d, g, [Update(p, b)]);
  }

  lemma NothingPerformed(d: Disk, txn: Txn)
    requires txn != []
    ensures Perform(d, txn[..0]) == d
  {
  }

  /** A scanned block is full, or its edit is a transaction that adds the name. */
  lemma BlockScanned(d: Disk, g: Geometry, ino: nat, k: nat, b: Bytes, name: Name, child: nat, ftype: Byte, done: bool)
    requires FullUpTo(d, g, ino, k, |name|) && k < |Blocks(d, InodeBytes(d, g, ino))| && GoodEntry(name, child)
    requires Mountable(d, g) && name !in DirMap(d, g, ino)
    requires InsertedIn(d[Blocks(d, InodeBytes(d, g, ino))[k]], b, name, child, ftype, done)
    ensures |b| == 4096 && (!done ==> FullUpTo(d, g, ino, k + 1, |name|))
    ensures InPlace(d, g, ino, [Update(Blocks(d, InodeBytes(d, g, ino))[k], b)])
    ensures done ==>
      Adds(d, g, ino, [Update(Blocks(d, InodeBytes(d, g, ino))[k], b)], name, child) && !NoRoom(d, g, ino, |name|)
  {
    hide InodeBytes, Chunks, Inserted, Perform;
    var p := Blocks(d, InodeBytes(d, g, ino))[k];
    if done {
      AddedInPlace(d, g, ino, k, FirstRoom(Chunks(d[p]), |name|), name, child, ftype);
      OneUpdate(d, g, ino, k, b);
      NothingPerformed(d, [Update(p, b)]);
      assert !Full(d[p], |name|);
    }
  }

  /** The directory reads the same on both disks. */
  ghost predicate Unchanged(d: Disk, e: Disk, g: Geometry, ino: nat)
    requires DirOk(d, g, ino)
  {
    DirOk(e, g, ino) && DirMap(e, g, ino) == DirMap(d, g, ino) && Touched(e, g, ino) == Touched(d, g, ino)
  }

  /** The transaction may be logged, maps the name to the inode and is otherwise neutral, and the last
      of its updates is the one that does it. */
  ghost predicate Adds(d: Disk, g: Geometry, ino: nat, txn: Txn, name: Name, child: nat)
    requires DirOk(d, g, ino)
  {
    && Fits(d, g.log, txn) && DirOk(Perform(d, txn), g, ino)
    && DirMap(Perform(d, txn), g, ino) == DirMap(d, g, ino)[name := child]
    && Touched(d, g, ino) <= Touched(Perform(d, txn), g, ino)
    && (forall b :: b in Touched(Perform(d, txn), g, ino) ==> b in Touched(d, g, ino) || Names(txn, b))
    && forall m :: 0 <= m < |txn| ==> Unchanged(d, Perform(d, txn[..m]), g, ino)
  }

  lemma AllFull(d: Disk, g: Geometry, ino: nat, k: nat, n: nat)
    requires FullUpTo(d, g, ino, k, n) && k * 4096 >= Size(InodeBytes(d, g, ino))
    ensures NoRoom(d, g, ino, n)
  {
    assert k == |Blocks(d, InodeBytes(d, g, ino))|;
  }

  /** The growing directory's own two updates. */
  function Growth(d: Disk, g: Geometry, ino: nat, p: nat, name: Name, child: nat, ftype: Byte): Txn
    requires Readable(d, g, ino) && Size(InodeBytes(d, g, ino)) / 4096 < DIRECT
    requires p < TXN_LIMIT && |name| < 256 && child < TXN_LIMIT
    requires U32(d[InodeBlock(g, ino)], InodeOffset(ino) + 4) + 4096 < TXN_LIMIT
  {
    var ib, o := InodeBlock(g, ino), InodeOffset(ino);
    [Update(p, FreshBlock(name, child, ftype)), Update(ib, GrownInode(d[ib], o, Size(InodeBytes(d, g, ino)) / 4096, p))]
  }

  /** The updates are those of a directory growing by block p. */
  ghost predicate Grows(d: Disk, g: Geometry, ino: nat, us: Txn, p: nat, name: Name, child: nat, ftype: Byte) {
    && Readable(d, g, ino) && Size(InodeBytes(d, g, ino)) / 4096 < DIRECT
    && p < TXN_LIMIT && |name| < 256 && child < TXN_LIMIT
    && U32(d[InodeBlock(g, ino)], InodeOffset(ino) + 4) + 4096 < TXN_LIMIT
    && us == Growth(d, g, ino, p, name, child, ftype)
  }

  /** One update, of one of the directory's data blocks. */
  ghost predicate InPlace(d: Disk, g: Geometry, ino: nat, txn: Txn)
    requires Readable(d, g, ino)
  {
    |txn| == 1 && txn[0].block in Blocks(d, InodeBytes(d, g, ino))
  }

  /** Updates of blocks that are neither the directory's nor the log's. */
  ghost predicate Apart(d: Disk, g: Geometry, ino: nat, us: Txn)
    requires Readable(d, g, ino)
  {
    forall i :: 0 <= i < |us| ==>
      us[i].block < |d| && us[i].block !in Touched(d, g, ino) && !InLog(g.log, MAX_TXN, us[i].block)
  }

  /** A growing directory may grow: its size, and the block numbers, are in range. */
  lemma GrowthReady(d: Disk, g: Geometry, ino: nat, p: nat)
    requires DirOk(d, g, ino) && Spare(d, g, ino, p) && Mountable(d, g) && Size(InodeBytes(d, g, ino)) / 4096 < DIRECT
    ensures Readable(d, g, ino)
    ensures var ib, o := InodeBlock(g, ino), InodeOffset(ino);
            && ib < |d| && o + 256 <= 4096 && p < TXN_LIMIT && ib < TXN_LIMIT && U32(d[ib], o + 4) + 4096 < TXN_LIMIT
            && !InLog(g.log, MAX_TXN, ib) && ib in Touched(d, g, ino) && p < |d| && !InLog(g.log, MAX_TXN, p)
  {
    SizeFits(d, g, ino);
    assert InodeBlock(g, ino) in Touched(d, g, ino);
  }

  /** What the allocator journals, then the growing directory's own two updates, add the name. */
  lemma GrowthAdds(d: Disk, g: Geometry, ino: nat, pre: Txn, p: nat, name: Name, child: nat, ftype: Byte)
    requires DirOk(d, g, ino) && Spare(d, g, ino, p) && GoodEntry(name, child) && Mountable(d, g)
    requires Size(InodeBytes(d, g, ino)) / 4096 < DIRECT && name !in DirMap(d, g, ino)
    requires |pre| <= 4 && Apart(d, g, ino, pre)
    ensures U32(d[InodeBlock(g, ino)], InodeOffset(ino) + 4) + 4096 < TXN_LIMIT
    ensures Adds(d, g, ino, pre + Growth(d, g, ino, p, name, child, ftype), name, child)
  {
    hide DirOk, DirMap, InodeBytes, FreshBlock, GrownInode, Touched, Perform, Fits;
    GrowthReady(d, g, ino, p);
    var us := Growth(d, g, ino, p, name, child, ftype);
    var txn := pre + us;
    var e := Perform(d, pre);
    TxnFits(d, g, txn);
    forall m | 0 <= m < |txn| ensures Unchanged(d, Perform(d, txn[..m]), g, ino) {
      assert forall i :: 0 <= i < m ==> txn[..m][i].block !in Touched(d, g, ino);
      OthersKept(d, g, ino, txn[..m]);
    }
    assert txn[..|pre|] == pre;
    PerformElsewhere(d, pre, InodeBlock(g, ino));
    OthersKept(d, g, ino, pre);
    SameInode(d, e, g, ino);
    PerformGrowth(e, g, ino, p, name, child, ftype);
    PerformSplit(d, pre, us);
    AddedByGrowing(e, g, ino, p, name, child, ftype);
    assert txn[|pre|].block == p;
  }

  lemma SameInode(d: Disk, e: Disk, g: Geometry, ino: nat)
    requires Readable(d, g, ino) && |e| == |d| && e[InodeBlock(g, ino)] == d[InodeBlock(g, ino)]
    ensures InodeBytes(e, g, ino) == InodeBytes(d, g, ino)
  {
  }

  lemma PerformGrowth(d: Disk, g: Geometry, ino: nat, p: nat, name: Name, child: nat, ftype: Byte)
    requires DirOk(d, g, ino) && Spare(d, g, ino, p) && GoodEntry(name, child)
    requires Size(InodeBytes(d, g, ino)) / 4096 < DIRECT
    ensures U32(d[InodeBlock(g, ino)], InodeOffset(ino) + 4) + 4096 < TXN_LIMIT
    ensures Perform(d, Growth(d, g, ino, p, name, child, ftype)) == Grown(d, g, ino, p, name, child, ftype)
  {
    hide DirOk, DirMap, InodeBytes, FreshBlock, GrownInode, Perform, PointerBlocks;
    TouchedInode(d, g, ino);
    SizeFits(d, g, ino);
    var us := Growth(d, g, ino, p, name, child, ftype);
    PerformFirst(d, us);
    assert us[1..] == [us[1]];
    PerformOne(Store(d, us[0]), us[1]);
  }

  lemma FreshStores(name: Name, child: nat, ftype: Byte)
    requires GoodEntry(name, child)
    ensures |name| < 256 && child < 0x1_0000_0000
    ensures InsertStores(ZeroBlock(), 0, 4096, 0, false, name, child, ftype) == FreshBlock(name, child, ftype)
  {
    hide Entry, EntryStores;
    EntryStored(ZeroBlock(), 0, 4096, name, child, ftype);
    assert ZeroBlock()[0..0 + 4096] == ZeroBlock();
  }

  ghost predicate Unmatched(b: Block, name: Name, child: nat) {
    forall i :: 0 <= i < |Chunks(b)| ==> |Chunks(b)[i]| >= 8 && !Matches(Chunks(b)[i], name, child)
  }

  ghost predicate NoneUpTo(d: Disk, g: Geometry, ino: nat, k: nat, name: Name, child: nat) {
    && DirOk(d, g, ino) && k <= |Blocks(d, InodeBytes(d, g, ino))|
    && forall j :: 0 <= j < k ==> Unmatched(d[Blocks(d, InodeBytes(d, g, ino))[j]], name, child)
  }

  /** The transaction may be logged, and unmaps the name, and is otherwise neutral. */
  ghost predicate Drops(d: Disk, g: Geometry, ino: nat, txn: Txn, name: Name, child: nat)
    requires DirOk(d, g, ino)
  {
    && Fits(d, g.log, txn) && name in DirMap(d, g, ino) && DirMap(d, g, ino)[name] == child
    && DirOk(Perform(d, txn), g, ino) && DirMap(Perform(d, txn), g, ino) == DirMap(d, g, ino) - {name}
  }

  lemma BlockSearched(d: Disk, g: Geometry, ino: nat, k: nat, b: Bytes, name: Name, child: nat, done: bool)
    requires NoneUpTo(d, g, ino, k, name, child) && k < |Blocks(d, InodeBytes(d, g, ino))| && Mountable(d, g)
    requires child != 0
    requires RemovedIn(d[Blocks(d, InodeBytes(d, g, ino))[k]], b, name, child, done)
    ensures |b| == 4096 && (!done ==> NoneUpTo(d, g, ino, k + 1, name, child))
    ensures InPlace(d, g, ino, [Update(Blocks(d, InodeBytes(d, g, ino))[k], b)])
    ensures done ==> Drops(d, g, ino, [Update(Blocks(d, InodeBytes(d, g, ino))[k], b)], name, child)
    ensures Blocks(d, InodeBytes(d, g, ino))[k] < TXN_LIMIT
  {
    hide InodeBytes, Chunks, Removed, Perform;
    var p := Blocks(d, InodeBytes(d, g, ino))[k];
    if done {
      RemovedInPlace(d, g, ino, k, FirstMatch(Chunks(d[p]), name, child), name, child);
      OneUpdate(d, g, ino, k, b);
    } else {
      assert Unmatched(d[p], name, child);
    }
  }

  lemma NoneAnywhere(d: Disk, g: Geometry, ino: nat, k: nat, name: Name, child: nat)
    requires NoneUpTo(d, g, ino, k, name, child) && k * 4096 >= Size(InodeBytes(d, g, ino)) && child != 0
    ensures !(name in DirMap(d, g, ino) && DirMap(d, g, ino)[name] == child)
  {
    hide InodeBytes, Chunks;
    var bs := Blocks(d, InodeBytes(d, g, ino));
    assert k == |bs|;
    UnmatchedRecords(d, bs, name, child);
    MappedByRecord(Records(d, bs), name, child);
  }

  lemma {:induction false} UnmatchedRecords(d: Disk, bs: seq<nat>, name: Name, child: nat)
    requires TiledBlocks(d, bs) && forall j :: 0 <= j < |bs| ==> Unmatched(d[bs[j]], name, child)
    ensures forall i :: 0 <= i < |Records(d, bs)| ==>
      |Records(d, bs)[i]| >= 8 && !Matches(Records(d, bs)[i], name, child)
  {
    if bs != [] {
      UnmatchedRecords(d, bs[1..], name, child);
      assert Unmatched(d[bs[0]], name, child);
    }
  }

  // ---------------------------------------------------------------------------
  // Among other updates, and across a crash
  // ---------------------------------------------------------------------------

  /** The other updates of the transaction of one edit: not the directory's blocks, unless the edit
      writes them later, and in the block of its inode only other inodes. */
  ghost predicate Bystanders(d: Disk, g: Geometry, ino: nat, before: Txn, txn: Txn, after: Txn)
    requires Readable(d, g, ino)
  {
    var e := Perform(d, txn);
    && Neutral(before, txn, Touched(e, g, ino), g, ino, InodeBytes(d, g, ino))
    && Neutral(after, [], Touched(e, g, ino), g, ino, InodeBytes(e, g, ino))
  }

  /** Updates to none of the directory's blocks, before or after the edit, but to other inodes. */
  ghost predicate Aside(d: Disk, g: Geometry, ino: nat, before: Txn, txn: Txn)
    requires Readable(d, g, ino)
  {
    && Neutral(before, [], Touched(d, g, ino), g, ino, InodeBytes(d, g, ino))
    && Neutral(before, [], Touched(Perform(d, txn), g, ino), g, ino, InodeBytes(d, g, ino))
  }

  /** The buffer drops what does not fit, and the call still reports success: whatever is committed
      with it, the name is added if and only if there was room for every update of the addition. */
  lemma AddedIffBuffered(d: Disk, g: Geometry, ino: nat, txn: Txn, name: Name, child: nat, before: Txn)
    requires DirOk(d, g, ino) && Adds(d, g, ino, txn, name, child) && name !in DirMap(d, g, ino)
    requires |before| <= MAX_TXN && Aside(d, g, ino, before, txn)
    ensures var e := Perform(d, Kept(before + txn));
            && DirOk(e, g, ino)
            && (|before| + |txn| <= MAX_TXN ==> DirMap(e, g, ino) == DirMap(d, g, ino)[name := child])
            && (|before| + |txn| > MAX_TXN ==> DirMap(e, g, ino) == DirMap(d, g, ino))
            && (name in DirMap(e, g, ino) <==> |before| + |txn| <= MAX_TXN)
  {
    hide DirOk, DirMap, Touched, Fits, Perform, InodeBytes, WritesInode;
    TouchedInode(d, g, ino);
    TouchedInode(Perform(d, txn), g, ino);
    if |before| + |txn| <= MAX_TXN {
      OtherUpdates(d, g, ino, before, txn, []);
      assert before + txn + [] == before + txn;
    } else {
      var part := txn[..MAX_TXN - |before|];
      assert Unchanged(d, Perform(d, part), g, ino);
      OtherUpdates(d, g, ino, before, part, []);
      assert before + part + [] == Kept(before + txn);
    }
  }

  /** A removal is one update, which is committed if and only if the buffer had room for it. */
  lemma RemovedIffBuffered(d: Disk, g: Geometry, ino: nat, txn: Txn, name: Name, child: nat, before: Txn)
    requires DirOk(d, g, ino) && Drops(d, g, ino, txn, name, child) && |txn| == 1
    requires |before| <= MAX_TXN && Aside(d, g, ino, before, txn)
    ensures var e := Perform(d, Kept(before + txn));
            && DirOk(e, g, ino)
            && DirMap(e, g, ino) == (if |before| < MAX_TXN then DirMap(d, g, ino) - {name} else DirMap(d, g, ino))
            && (name !in DirMap(e, g, ino) <==> |before| < MAX_TXN)
  {
    hide DirOk, DirMap, Touched, Fits, Perform, InodeBytes, WritesInode;
    TouchedInode(d, g, ino);
    TouchedInode(Perform(d, txn), g, ino);
    if |before| < MAX_TXN {
      OtherUpdates(d, g, ino, before, txn, []);
      assert before + txn + [] == before + txn;
    } else {
      NothingPerformed(d, txn);
      assert txn[..0] == [];
      OtherUpdates(d, g, ino, before, [], []);
      assert before + [] + [] == Kept(before + txn);
    }
  }

  /** An addition whose log was complete survives a crash, whatever else is in its transaction; one
      that had not begun never happened. */
  lemma AddSurvivesCrash(d: Disk, g: Geometry, ino: nat, txn: Txn, name: Name, child: nat, before: Txn, after: Txn,
                         seqNo: nat, k: nat)
    requires DirOk(d, g, ino) && Settled(d, g.log) && Adds(d, g, ino, txn, name, child)
    requires Bystanders(d, g, ino, before, txn, after) && Fits(d, g.log, before + txn + after)
    requires var n := |before + txn + after|; seqNo < TXN_LIMIT && k <= 2 * n + 2 && (k == 0 || k > n)
    ensures var r := Replay(CrashAt(d, g.log, before + txn + after, seqNo, k), g.log);
            && DirOk(r, g, ino)
            && DirMap(r, g, ino) == if k == 0 then DirMap(d, g, ino) else DirMap(d, g, ino)[name := child]
  {
    OtherUpdates(d, g, ino, before, txn, after);
    DirAfterCrash(d, g, ino, before + txn + after, seqNo, k);
  }

  /** The same for a removal. */
  lemma RemoveSurvivesCrash(d: Disk, g: Geometry, ino: nat, txn: Txn, name: Name, child: nat, before: Txn, after: Txn,
                            seqNo: nat, k: nat)
    requires DirOk(d, g, ino) && Settled(d, g.log) && Drops(d, g, ino, txn, name, child)
    requires Bystanders(d, g, ino, before, txn, after) && Fits(d, g.log, before + txn + after)
    requires var n := |before + txn + after|; seqNo < TXN_LIMIT && k <= 2 * n + 2 && (k == 0 || k > n)
    ensures var r := Replay(CrashAt(d, g.log, before + txn + after, seqNo, k), g.log);
            DirOk(r, g, ino) && DirMap(r, g, ino) == if k == 0 then DirMap(d, g, ino) else DirMap(d, g, ino) - {name}
  {
    OtherUpdates(d, g, ino, before, txn, after);
    DirAfterCrash(d, g, ino, before + txn + after, seqNo, k);
  }
}
