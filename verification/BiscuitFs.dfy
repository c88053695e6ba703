/** fs/blueyfs.c as it runs: the journal buffer, and directories edited through it. */
module BiscuitFs {
  import opened Bytes
  import opened DirBlock
  import opened Journal
  import opened Directory
  import opened DirEdit
  import opened DirTxn
  import opened BlockAlloc
  import opened MakeDir

  class Volume {
    const g: Geometry
    var mounted: bool
    var disk: Disk
    var pending: Txn
    var seqNo: nat
    /** The group descriptors and the superblock's count of free blocks, in memory. */
    var groups: seq<Group>
    var free: nat
    /** Every block write so far, in order. */
    ghost var trace: seq<Update>

    ghost predicate Valid()
      reads this
    {
      && |pending| <= MAX_TXN && seqNo < TXN_LIMIT
      && (forall i :: 0 <= i < |pending| ==> pending[i].block < TXN_LIMIT)
      && free < TXN_LIMIT && |groups| == |g.tables| <= MAX_GROUPS
      && forall k :: 0 <= k < |groups| ==> InodeTable(groups[k]) == g.tables[k]
    }

    /** write_block. */
    method WriteBlock(b: nat, data: Block)
      modifies this`disk, this`trace
      ensures disk == Store(old(disk), Update(b, data)) && trace == old(trace) + [Update(b, data)]
    {
      if b < |disk| { disk := disk[b := data]; }
      trace := trace + [Update(b, data)];
    }

    method Begin()
      modifies this`pending
      ensures pending == []
    {
      pending := [];
    }

    /** biscuitfs_journal_write_block: a seventeenth block is silently dropped. */
    method JournalWrite(b: nat, data: Block)
      requires Valid() && b < TXN_LIMIT
      modifies this`pending
      ensures Valid()
      ensures pending == Buffered(mounted, old(pending), [Update(b, data)])
    {
      if !mounted || |pending| >= 16 { return; }
      pending := pending + [Update(b, data)];
    }

    /** biscuitfs_journal_commit. */
    method Commit()
      requires Valid()
      modifies this`disk, this`trace, this`pending, this`seqNo
      ensures Valid()
      ensures !mounted || old(pending) == [] ==>
        disk == old(disk) && trace == old(trace) && pending == old(pending) && seqNo == old(seqNo)
      ensures mounted && old(pending) != [] ==>
        && trace == old(trace) + CommitWrites(g.log, old(pending), old(seqNo))
        && disk == Perform(old(disk), CommitWrites(g.log, old(pending), old(seqNo)))
        && pending == [] && seqNo == (old(seqNo) + 1) % 0x1_0000_0000
    {
      hide Perform, CommitWrites, Descriptor, Header3, Progress;
      if !mounted || |pending| == 0 { return; }
      ghost var us := CommitWrites(g.log, pending, seqNo);
      ghost var d0, t0 := disk, trace;
      Starts(us);
      var desc := Describe();
      CommitAt(g.log, pending, seqNo, 0);
      WriteNext(g.log, desc, d0, t0, us, 0);
      var i := 0;
      while i < |pending|
        invariant pending == old(pending) && seqNo == old(seqNo)
        invariant i <= |pending| && Progress(d0, t0, us, 1 + i)
      {
        CommitAt(g.log, pending, seqNo, 1 + i);
        WriteNext(g.log + 1 + i, pending[i].data, d0, t0, us, 1 + i);
        i := i + 1;
      }
      CommitAt(g.log, pending, seqNo, 1 + |pending|);
      WriteNext(g.log + 1 + |pending|, Header3(COMMIT, seqNo), d0, t0, us, 1 + |pending|);
      i := 0;
      while i < |pending|
        invariant pending == old(pending) && seqNo == old(seqNo)
        invariant i <= |pending| && Progress(d0, t0, us, |pending| + 2 + i)
      {
        CommitAt(g.log, pending, seqNo, |pending| + 2 + i);
        WriteNext(pending[i].block, pending[i].data, d0, t0, us, |pending| + 2 + i);
        i := i + 1;
      }
      Finished(d0, t0, us);
      seqNo := (seqNo + 1) % 0x1_0000_0000;
      pending := [];
    }

    /** The first k of the planned writes have been made. */
    ghost predicate Progress(d0: Disk, t0: seq<Update>, us: seq<Update>, k: nat)
      reads this`disk, this`trace
    {
      k <= |us| && disk == Perform(d0, us[..k]) && trace == t0 + us[..k]
    }

    method WriteNext(b: nat, data: Block, ghost d0: Disk, ghost t0: seq<Update>, ghost us: seq<Update>, ghost k: nat)
      requires Progress(d0, t0, us, k) && k < |us| && us[k] == Update(b, data)
      modifies this`disk, this`trace
      ensures Progress(d0, t0, us, k + 1)
    {
      PerformNext(d0, us, k);
      WriteBlock(b, data);
    }

    lemma Starts(us: seq<Update>)
      ensures Progress(disk, trace, us, 0)
    {
    }

    lemma Finished(d0: Disk, t0: seq<Update>, us: seq<Update>)
      requires Progress(d0, t0, us, |us|)
      ensures disk == Perform(d0, us) && trace == t0 + us
    {
      assert us[..|us|] == us;
    }

    /** The descriptor block, tag by tag. */
    method Describe() returns (b: Block)
      requires Valid() && pending != []
      ensures b == Descriptor(pending, seqNo, |pending|)
    {
      hide Header3, Put32, U32, Descriptor;
      b := Header3(DESCRIPTOR, seqNo);
      DescriptorStarts(pending, seqNo);
      var i := 0;
      while i < |pending|
        invariant i <= |pending| && b == Descriptor(pending, seqNo, i)
      {
        DescriptorNext(pending, seqNo, i + 1);
        b := Put32(b, 12 + 8 * i, pending[i].block);
        b := Put32(b, 16 + 8 * i, if i == |pending| - 1 then FLAG_LAST else 0);
        i := i + 1;
      }
    }

    /** biscuitfs_journal_replay. The log is one that a commit wrote, or no log at all. */
    method Replay()
      requires 0 < g.log < |disk| && IsDescriptor(disk[g.log]) ==> Terminated(disk[g.log])
      modifies this`disk, this`trace
      ensures disk == Journal.Replay(old(disk), g.log)
    {
      hide IsDescriptor, TagBlock, TagLast, ReplayFrom, Terminated;
      if g.log == 0 || g.log >= |disk| { return; }
      var desc := disk[g.log];
      if !IsDescriptor(desc) { return; }
      var i := 0;
      TagsAhead(desc, 0);
      while true
        invariant |disk| == |old(disk)| && LastAhead(desc, i)
        invariant ReplayFrom(disk, g.log, desc, i) == ReplayFrom(old(disk), g.log, desc, 0)
        decreases TAGS - i
      {
        TagsAhead(desc, i);
        ReplayNext(disk, g.log, desc, i);
        if g.log + 1 + i < |disk| { WriteBlock(TagBlock(desc, i), disk[g.log + 1 + i]); }
        if TagLast(desc, i) { break; }
        i := i + 1;
      }
    }

    // -------------------------------------------------------------------------
    // Directories
    // -------------------------------------------------------------------------

    /** dir_lookup: one walk over all records of all blocks. */
    method Lookup(ino: nat, name: Name) returns (r: nat)
      requires Readable(disk, g, ino) && IsDir(InodeBytes(disk, g, ino)) ==> DirOk(disk, g, ino)
      ensures !Readable(disk, g, ino) || !IsDir(InodeBytes(disk, g, ino)) ==> r == 0
      ensures Readable(disk, g, ino) && IsDir(InodeBytes(disk, g, ino)) ==>
        r == if name in DirMap(disk, g, ino) then DirMap(disk, g, ino)[name] else 0
    {
      hide *;
      if !Readable(disk, g, ino) || !IsDir(InodeBytes(disk, g, ino)) { return 0; }
      var inode := InodeBytes(disk, g, ino);
      var size := Size(inode);
      ghost var bs := Blocks(disk, inode);
      ghost var j := 0;
      LookupStarts(ino, name);
      var off := 0;
      var blk := ZeroBlock();
      while off < size
        invariant Scanned(disk, bs, j, off, name) && off <= size
        invariant off % 4096 != 0 ==> off / 4096 < |bs| && bs[off / 4096] < |disk| && blk == disk[bs[off / 4096]]
        decreases size - off
      {
        ScanStep(disk, bs, j, off, name);
        var o := off % 4096;
        if o == 0 {
          var phys := Pointer(disk, inode, off / 4096);
          if phys == 0 || phys >= |disk| { break; }
          blk := disk[phys];
        }
        if NamedAt(blk, o, name) { return U32(blk, o); }
        var rec := U16(blk, o + 4);
        if rec == 0 { break; }
        off := off + rec;
        j := j + 1;
      }
      ScanEnd(disk, bs, j, off, name);
      r := 0;
    }

    // -------------------------------------------------------------------------
    // Allocation
    // -------------------------------------------------------------------------

    /** What the next call of alloc_block returns and journals. */
    ghost function NextGrant(): Grant
      requires Valid()
      reads this
    {
      Granted(disk, groups, free, 0)
    }

    /** write_bgd. */
    method WriteDescriptor(k: nat)
      requires Valid() && k < |groups|
      modifies this`pending
      ensures Valid() && pending == Buffered(mounted, old(pending), TableWrite(disk, k, groups[k]))
    {
      if 1 >= |disk| { return; }
      JournalWrite(1, Patch(disk[1], 32 * k, groups[k]));
    }

    /** alloc_block_in_group. */
    method AllocInGroup(k: nat) returns (blk: nat)
      requires Valid() && k < |groups|
      modifies this`pending, this`groups, this`free
      ensures Valid()
      ensures var a := InGroup(disk, old(groups), old(free), k);
              blk == a.blk && groups == a.groups && free == a.free && pending == Buffered(mounted, old(pending), a.txn)
    {
      hide InUse, FirstFree, Taken, TableWrite, Patch, Buffered, FreeCount, BitmapBlock, InodeTable;
      var d := groups[k];
      ghost var p0 := pending;
      BufferedStep(mounted, p0, [], []);
      if FreeCount(d) == 0 || BitmapBlock(d) >= |disk| { return 0; }
      var bitmap := disk[BitmapBlock(d)];
      var i := FindFree(bitmap);
      if i == GROUP_BLOCKS { return 0; }
      JournalWrite(BitmapBlock(d), Taken(bitmap, i));
      groups := groups[k := WithCount(d, FreeCount(d) - 1)];
      free := (free + TXN_LIMIT - 1) % TXN_LIMIT;
      WriteDescriptor(k);
      BufferedStep(mounted, p0, [Update(BitmapBlock(d), Taken(bitmap, i))], TableWrite(disk, k, groups[k]));
      blk := GROUP_BLOCKS * k + i;
    }

    /** After the groups before k, and the updates `pre`, what is left of allocation a. */
    ghost predicate Awaits(a: Grant, pre: Txn, k: nat)
      requires Valid() && k <= |groups|
      reads this
    {
      var b := Granted(disk, groups, free, k);
      a == Grant(b.blk, pre + b.txn, b.groups, b.free)
    }

    /** alloc_block. */
    method AllocBlock() returns (blk: nat)
      requires Valid()
      modifies this`pending, this`groups, this`free
      ensures Valid()
      ensures var a := Granted(disk, old(groups), old(free), 0);
              blk == a.blk && groups == a.groups && free == a.free && pending == Buffered(mounted, old(pending), a.txn)
    {
      hide Granted, InGroup, Buffered;
      ghost var a, p0, pre := Granted(disk, groups, free, 0), pending, [];
      BufferedStep(mounted, p0, [], []);
      var k := 0;
      while k < |groups|
        invariant k <= |groups| && Valid() && |groups| == |old(groups)| && Awaits(a, pre, k)
        invariant pending == Buffered(mounted, p0, pre)
      {
        GrantedStep(disk, groups, free, k);
        ghost var b := InGroup(disk, groups, free, k);
        blk := AllocInGroup(k);
        BufferedStep(mounted, p0, pre, b.txn);
        pre := pre + b.txn;
        if blk != 0 { return; }
        k := k + 1;
      }
      GrantedStep(disk, groups, free, k);
      assert pre + [] == pre;
      blk := 0;
    }

    // -------------------------------------------------------------------------
    // Edits of directories
    // -------------------------------------------------------------------------

    /** The directory may be edited now. */
    ghost predicate Editable(ino: nat)
      reads this
    {
      Valid() && mounted && Mountable(disk, g) && (Readable(disk, g, ino) ==> DirOk(disk, g, ino))
    }

    /** What an edit leaves behind, given the disk, the writes, the transaction and the sequence
        number before: `txn` was handed to the running transaction, or, if the edit commits, was
        written to disk through the log. */
    ghost predicate Edited(d0: Disk, t0: seq<Update>, p0: Txn, s0: nat, txn: Txn, commits: bool)
      reads this
    {
      && Fits(d0, g.log, txn) && mounted && s0 < TXN_LIMIT
      && if commits then
           && disk == Perform(d0, CommitWrites(g.log, txn, s0)) && pending == []
           && trace == t0 + CommitWrites(g.log, txn, s0)
         else
           disk == d0 && trace == t0 && seqNo == s0 && pending == Kept(p0 + txn)
    }

    lemma Pended(d0: Disk, t0: seq<Update>, p0: Txn, s0: nat, txn: Txn)
      requires Fits(d0, g.log, txn) && mounted && s0 < TXN_LIMIT
      requires disk == d0 && trace == t0 && seqNo == s0 && pending == Kept(p0 + txn)
      ensures Edited(d0, t0, p0, s0, txn, false)
    {
    }

    /** Blocks into the transaction. Begins and commits one if none was running. */
    method Submit(txn: Txn)
      requires Valid() && mounted && Fits(disk, g.log, txn)
      modifies this
      ensures Valid() && groups == old(groups) && free == old(free)
      ensures Edited(old(disk), old(trace), old(pending), old(seqNo), txn, old(pending) == [])
    {
      hide Fits, Perform, CommitWrites, Journal.Replay, Kept;
      FitsLimit(disk, g.log, txn);
      var own := |pending| == 0;
      if own { Begin(); }
      var i := 0;
      KeptAll(old(pending));
      assert old(pending) + txn[..0] == old(pending);
      while i < |txn|
        invariant i <= |txn| && Valid() && pending == Kept(old(pending) + txn[..i])
        invariant mounted && disk == old(disk) && trace == old(trace) && seqNo == old(seqNo)
        invariant groups == old(groups) && free == old(free)
      {
        assert old(pending) + txn[..i + 1] == old(pending) + txn[..i] + [txn[i]];
        KeptStep(old(pending) + txn[..i], [txn[i]]);
        JournalWrite(txn[i].block, txn[i].data);
        i := i + 1;
      }
      assert txn[..|txn|] == txn;
      if own {
        KeptAll(txn);
        assert old(pending) + txn == txn;
        Commit();
      } else {
        Pended(old(disk), old(trace), old(pending), old(seqNo), txn);
      }
    }

    /** dir_add_entry. Where some record has room this is one update, committed on its own if nothing
        was pending. Otherwise the allocator has made something pending before the journal is asked
        whether a transaction runs, so a growing directory never commits by itself. */
    method Add(ino: nat, name: Name, child: nat, ftype: Byte) returns (ok: bool, ghost txn: Txn)
      requires Editable(ino) && GoodEntry(name, child)
      requires Readable(disk, g, ino) ==> name !in DirMap(disk, g, ino)
      requires NoRoom(disk, g, ino, |name|) ==> MayGrow(disk, g, ino, NextGrant())
      modifies this
      ensures Valid()
      ensures var full, a := NoRoom(old(disk), g, ino, |name|), old(NextGrant());
              && (!ok <==> !Readable(old(disk), g, ino) || (full && a.blk == 0))
              && groups == (if full then a.groups else old(groups)) && free == if full then a.free else old(free)
      ensures ok ==> Adds(old(disk), g, ino, txn, name, child)
      ensures ok && !NoRoom(old(disk), g, ino, |name|) ==>
        && InPlace(old(disk), g, ino, txn)
        && Edited(old(disk), old(trace), old(pending), old(seqNo), txn, old(pending) == [])
      ensures ok && NoRoom(old(disk), g, ino, |name|) ==>
        && Edited(old(disk), old(trace), old(pending), old(seqNo), txn, false)
        && var a := old(NextGrant());
        |txn| >= |a.txn| && txn[..|a.txn|] == a.txn
        && Grows(old(disk), g, ino, txn[|a.txn|..], a.blk, name, child, ftype)
      ensures !ok ==>
        && disk == old(disk) && seqNo == old(seqNo) && trace == old(trace)
        && pending == if NoRoom(old(disk), g, ino, |name|) then Kept(old(pending) + old(NextGrant()).txn)
          else old(pending)
    {
      hide *;
      txn := [];
      EditReady(ino);
      ghost var plan, p0 := NextGrant(), pending;
      if NoRoom(disk, g, ino, |name|) { GrowthMay(ino, name, child, ftype); }
      if !Readable(disk, g, ino) { return false, []; }
      ReadableBlock(disk, g, ino);
      var inode := InodeBytes(disk, g, ino);
      var b := 0;
      while b * 4096 < Size(inode)
        invariant b * 4096 <= Size(inode) && FullUpTo(disk, g, ino, b, |name|)
        invariant disk == old(disk) && pending == old(pending) && seqNo == old(seqNo) && trace == old(trace) && mounted
        invariant Valid() && groups == old(groups) && free == old(free)
      {
        BlockReady(disk, g, ino, b);
        var phys := Pointer(disk, inode, b);
        if phys != 0 && phys < |disk| {
          var blk := disk[phys];
          var buf := new Byte[4096](i requires 0 <= i < 4096 => blk[i]);
          assert buf[..] == blk;
          var done := InsertIn(buf, name, child, ftype);
          BlockScanned(disk, g, ino, b, buf[..], name, child, ftype, done);
          if done {
            txn := [Update(phys, buf[..])];
            AddsFits(disk, g, ino, txn, name, child);
            Submit([Update(phys, buf[..])]);
            return true, txn;
          }
        }
        b := b + 1;
      }
      AllFull(disk, g, ino, b, |name|);
      ghost var pre := plan.txn;
      var newBlk := AllocBlock();
      BufferTakes(p0, pre);
      if newBlk == 0 { return false, []; }
      PlanReady(disk, g, ino, name, child, ftype, plan);
      var newBlock := BuildFresh(name, child, ftype);
      var ib := InodeBlock(g, ino);
      var grown := GrownInode(disk[ib], InodeOffset(ino), Size(inode) / 4096, newBlk);
      ghost var us := Growth(disk, g, ino, newBlk, name, child, ftype);
      IsGrowth(ino, newBlk, name, child, ftype);
      ghost var p1, d1, t1, s1 := pending, disk, trace, seqNo;
      Submit([Update(newBlk, newBlock), Update(ib, grown)]);
      Joined(d1, t1, s1, p0, pre, p1, us);
      txn := pre + us;
      assert txn[..|pre|] == pre && txn[|pre|..] == us;
      ok := true;
    }

    lemma BufferTakes(p0: Txn, pre: Txn)
      requires mounted && |p0| <= MAX_TXN && pending == Buffered(mounted, p0, pre)
      ensures pending == Kept(p0 + pre) && (pre != [] ==> pending != [])
    {
    }

    lemma IsGrowth(ino: nat, p: nat, name: Name, child: nat, ftype: Byte)
      requires Readable(disk, g, ino) && Size(InodeBytes(disk, g, ino)) / 4096 < DIRECT
      requires p < TXN_LIMIT && |name| < 256 && child < TXN_LIMIT
      requires U32(disk[InodeBlock(g, ino)], InodeOffset(ino) + 4) + 4096 < TXN_LIMIT
      ensures Grows(disk, g, ino, Growth(disk, g, ino, p, name, child, ftype), p, name, child, ftype)
      ensures var ib, o := InodeBlock(g, ino), InodeOffset(ino);
              Growth(disk, g, ino, p, name, child, ftype) ==
              [Update(p, FreshBlock(name, child, ftype)),
               Update(ib, GrownInode(disk[ib], o, Size(InodeBytes(disk, g, ino)) / 4096, p))]
    {
      hide FreshBlock, GrownInode, InodeBytes;
    }

    /** Two parts of one transaction, handed over one after the other. */
    lemma Joined(d: Disk, t: seq<Update>, s: nat, p0: Txn, pre: Txn, p1: Txn, us: Txn)
      requires Edited(d, t, p1, s, us, false) && p1 == Kept(p0 + pre) && Fits(d, g.log, pre + us)
      ensures Edited(d, t, p0, s, pre + us, false)
    {
      hide Fits;
      KeptStep(p0 + pre, us);
      assert p0 + pre + us == p0 + (pre + us);
    }

    lemma GrowthMay(ino: nat, name: Name, child: nat, ftype: Byte)
      requires Editable(ino) && NoRoom(disk, g, ino, |name|) && MayGrow(disk, g, ino, NextGrant())
      requires GoodEntry(name, child)
      requires name !in DirMap(disk, g, ino)
      ensures var a := NextGrant(); a.blk != 0 ==> GrowthPlan(disk, g, ino, name, child, ftype, a)
    {
      hide Granted, DirOk, DirMap, Touched, InodeBytes, FreshBlock, GrownInode, Adds;
      var a := Granted(disk, groups, free, 0);
      if a.blk != 0 {
        EditReady(ino);
        GrowthReady(disk, g, ino, a.blk);
        GrowthAdds(disk, g, ino, a.txn, a.blk, name, child, ftype);
        var us := Growth(disk, g, ino, a.blk, name, child, ftype);
        AddsFits(disk, g, ino, a.txn + us, name, child);
        TxnFits(disk, g, us);
      }
    }

    lemma EditReady(ino: nat)
      requires Editable(ino)
      ensures Valid() && mounted && |pending| <= MAX_TXN && Mountable(disk, g) && seqNo < TXN_LIMIT
      ensures |groups| <= MAX_GROUPS && free < TXN_LIMIT && NextGrant() == Granted(disk, groups, free, 0)
      ensures Readable(disk, g, ino) ==> DirOk(disk, g, ino)
      ensures Readable(disk, g, ino) ==> forall n :: FullUpTo(disk, g, ino, 0, n)
      ensures !Readable(disk, g, ino) ==> forall n :: !NoRoom(disk, g, ino, n)
      ensures Readable(disk, g, ino) ==> forall m, c :: NoneUpTo(disk, g, ino, 0, m, c)
    {
    }

    /** The new directory block: cleared, then one entry stored at its start. */
    method BuildFresh(name: Name, child: nat, ftype: Byte) returns (b: Block)
      requires GoodEntry(name, child)
      ensures b == FreshBlock(name, child, ftype)
    {
      hide *;
      var buf := new Byte[4096](_ => 0);
      ZeroBytes(buf[..]);
      FreshStores(name, child, ftype);
      WriteEntry(buf, 0, 4096, 0, false, name, child, ftype);
      b := buf[..];
    }

    /** dir_remove_entry: always part of the caller's transaction. */
    method Remove(ino: nat, name: Name, child: nat) returns (ok: bool, ghost txn: Txn)
      requires Editable(ino) && child != 0
      modifies this`pending
      ensures Valid()
      ensures ok <==> Readable(disk, g, ino) && name in DirMap(disk, g, ino) && DirMap(disk, g, ino)[name] == child
      ensures ok ==> Edited(disk, trace, old(pending), seqNo, txn, false)
      ensures ok ==> InPlace(disk, g, ino, txn) && Drops(disk, g, ino, txn, name, child)
      ensures !ok ==> pending == old(pending)
    {
      hide *;
      txn := [];
      EditReady(ino);
      if !Readable(disk, g, ino) { return false, []; }
      ReadableBlock(disk, g, ino);
      var inode := InodeBytes(disk, g, ino);
      var b := 0;
      while b * 4096 < Size(inode)
        invariant b * 4096 <= Size(inode) && NoneUpTo(disk, g, ino, b, name, child)
        invariant pending == old(pending) && Valid()
      {
        BlockReady(disk, g, ino, b);
        var phys := Pointer(disk, inode, b);
        if phys != 0 && phys < |disk| {
          var blk := disk[phys];
          var buf := new Byte[4096](i requires 0 <= i < 4096 => blk[i]);
          assert buf[..] == blk;
          var done := RemoveIn(buf, name, child);
          BlockSearched(disk, g, ino, b, buf[..], name, child, done);
          if done {
            txn := [Update(phys, buf[..])];
            DropsFits(disk, g, ino, txn, name, child);
            JournalWrite(phys, buf[..]);
            BufferTakes(old(pending), txn);
            Pended(disk, trace, old(pending), seqNo, txn);
            return true, txn;
          }
        }
        b := b + 1;
      }
      NoneAnywhere(disk, g, ino, b, name, child);
      ok := false;
    }

    // -------------------------------------------------------------------------
    // A new directory
    // -------------------------------------------------------------------------

    /** biscuitfs_journal_abort: what the allocator has counted stays counted. */
    method Abort()
      requires Valid()
      modifies this`pending
      ensures Valid() && pending == []
    {
      pending := [];
    }

    /** The new directory's first block: its two entries. */
    method BuildDots(ino: nat, parent: nat) returns (b: Block)
      requires 0 < ino < TXN_LIMIT && 0 < parent < TXN_LIMIT
      ensures b == DotBlock(ino, parent)
    {
      b := Entry(Zeros(12), DOT, ino, FT_DIR) + Entry(Zeros(4084), DOTDOT, parent, FT_DIR);
    }

    /** biscuitfs_mkdir_cb, from the allocation of the block on; the inode number has been allocated,
        which left at most two updates pending. It fails exactly for want of a block; then nothing is
        written, but the descriptors count the blocks as gone. Otherwise everything is committed in one
        transaction. If the parent grows in it, and its group counts another free block, the parent's
        new block is the new directory's as well. */
    method MakeDir(ino: nat, parent: nat, name: Name, owner: Owner)
      returns (r: int, ghost m: NewDir, ghost b: Grant, ghost add: Txn)
      requires Valid() && mounted
      requires var a := NextGrant();
               MayMake(disk, g, NewDir(ino, parent, name, a.blk, owner), pending, a, Granted(disk, a.groups, a.free, 0))
      modifies this
      ensures Valid() && pending == []
      ensures var a := old(NextGrant());
              m == NewDir(ino, parent, name, a.blk, owner) && b == Granted(old(disk), a.groups, a.free, 0)
      ensures r == if m.p == 0 || (NoRoom(old(disk), g, parent, |name|) && b.blk == 0) then -1 else 0
      ensures r == -1 ==> disk == old(disk) && trace == old(trace) && seqNo == old(seqNo)
      ensures var a := old(NextGrant());
              groups == if m.p != 0 && NoRoom(old(disk), g, parent, |name|) then b.groups else a.groups
      ensures r == 0 ==> Makeable(old(disk), g, m) && Entered(old(disk), g, m, b, add)
      ensures r == 0 ==>
        var all := Whole(old(disk), g, m, old(pending) + old(NextGrant()).txn, add);
        && Fits(old(disk), g.log, all) && old(seqNo) < TXN_LIMIT
        && disk == Perform(old(disk), CommitWrites(g.log, all, old(seqNo)))
        && trace == old(trace) + CommitWrites(g.log, all, old(seqNo))
      ensures r == 0 ==> Settled(disk, g.log) && Made(old(disk), disk, g, m, b)
      ensures r == 0 ==>
        var a := old(NextGrant());
        b.blk == m.p <==> CountsMore(a.groups, m.p)
    {
      hide *;
      ghost var d0, p0, s0, t0, a := disk, pending, seqNo, trace, NextGrant();
      AllocReady();
      b := Granted(disk, a.groups, a.free, 0);
      m := NewDir(ino, parent, name, a.blk, owner);
      add := [];
      var blk := AllocBlock();
      BufferTakes(p0, a.txn);
      if blk == 0 {
        Abort();
        r := -1;
        return;
      }
      MakeReady(d0, g, m, p0, a, b);
      var ib := InodeBlock(g, ino);
      var dots := BuildDots(ino, parent);
      JournalWrite(blk, dots);
      JournalWrite(ib, WithRecord(disk[ib], ino, NewInode(owner, blk)));
      Collected(p0, a.txn, Making(d0, g, m), pending);
      MayAdd(m, p0, a, b);
      ghost var p1 := pending;
      var ok;
      ok, add := Add(parent, name, ino, FT_DIR);
      if !ok {
        Abort();
        r := -1;
        return;
      }
      r := 0;
      Handed(d0, t0, p1, s0, add);
      IsEntered(d0, g, m, b, add);
      WholeFits(d0, g, m, p0, a, b, add);
      Commit();
      MadeByCommit(d0, g, m, p0 + a.txn, b, add, s0);
      SameBlockAgain(d0, old(groups), old(free));
    }

    lemma AllocReady()
      requires Valid()
      ensures |groups| <= MAX_GROUPS && free < TXN_LIMIT && seqNo < TXN_LIMIT && |pending| <= MAX_TXN
      ensures NextGrant() == Granted(disk, groups, free, 0)
    {
    }

    lemma MayAdd(m: NewDir, p0: Txn, a: Grant, b: Grant)
      requires Valid() && mounted && MayMake(disk, g, m, p0, a, b) && a.blk != 0
      requires groups == a.groups && free == a.free && |groups| <= MAX_GROUPS && free < TXN_LIMIT
      requires b == Granted(disk, groups, free, 0)
      ensures Editable(m.parent) && GoodEntry(m.name, m.ino) && Readable(disk, g, m.parent) && DirOk(disk, g, m.parent)
      ensures m.name !in DirMap(disk, g, m.parent) && NextGrant() == b
      ensures NoRoom(disk, g, m.parent, |m.name|) ==> MayGrow(disk, g, m.parent, NextGrant())
    {
    }

    lemma Handed(d: Disk, t: seq<Update>, p: Txn, s: nat, txn: Txn)
      requires Edited(d, t, p, s, txn, false)
      ensures mounted && disk == d && trace == t && seqNo == s && pending == Kept(p + txn)
    {
    }

    lemma LookupStarts(ino: nat, name: Name)
      requires DirOk(disk, g, ino)
      ensures var i := InodeBytes(disk, g, ino); var bs := Blocks(disk, i);
              && Scanned(disk, bs, 0, 0, name) && Size(i) == 4096 * |bs|
              && (forall k :: 0 <= k < |bs| ==> bs[k] == Pointer(disk, i, k) && 0 < bs[k] < |disk|)
              && DirMap(disk, g, ino) == MapOf(Records(disk, bs))
    {
      ScanStart(disk, g, ino, name);
    }
  }

  /** Every caller begins a transaction and hands over at most eight blocks before its entry: then the
      buffer takes the whole addition, with or without growth, and the name is added. */
  lemma CallersAdd(d: Disk, g: Geometry, groups: seq<Group>, free: nat, ino: nat, txn: Txn,
                   name: Name, child: nat, before: Txn)
    requires |groups| <= MAX_GROUPS && free < TXN_LIMIT && |before| <= 8
    requires DirOk(d, g, ino) && Adds(d, g, ino, txn, name, child) && name !in DirMap(d, g, ino)
    requires Aside(d, g, ino, before, txn)
    requires |txn| == if NoRoom(d, g, ino, |name|) then |Granted(d, groups, free, 0).txn| + 2 else 1
    ensures Kept(before + txn) == before + txn
    ensures var e := Perform(d, before + txn); DirOk(e, g, ino) && DirMap(e, g, ino) == DirMap(d, g, ino)[name := child]
  {
    hide DirOk, DirMap, Adds, Granted, Aside, NoRoom, Perform;
    AddedIffBuffered(d, g, ino, txn, name, child, before);
  }

  /** Growing is within the direct pointers, and what the allocator hands out and journals is not in
      the way of this directory. */
  ghost predicate MayGrow(d: Disk, g: Geometry, ino: nat, a: Grant) {
    && Readable(d, g, ino) && Size(InodeBytes(d, g, ino)) / 4096 < DIRECT
    && Apart(d, g, ino, a.txn) && (a.blk != 0 ==> Spare(d, g, ino, a.blk))
  }

  /** The parent is a directory, and neither the updates pending nor what the allocator hands out, once
      or twice, is in the way of it or of the new inode. */
  ghost predicate MayMake(d: Disk, g: Geometry, m: NewDir, p0: Txn, a: Grant, b: Grant) {
    && |p0| <= 2 && Mountable(d, g) && DirOk(d, g, m.parent) && Apart(d, g, m.parent, p0)
    && (a.blk != 0 ==> Makeable(d, g, m) && Apart(d, g, m.parent, a.txn))
    && (a.blk != 0 && NoRoom(d, g, m.parent, |m.name|) ==> MayGrow(d, g, m.parent, b) && GrowthApart(d, g, m, b))
  }

  lemma MakeReady(d: Disk, g: Geometry, m: NewDir, p0: Txn, a: Grant, b: Grant)
    requires MayMake(d, g, m, p0, a, b) && a.blk != 0
    ensures Makeable(d, g, m) && Located(g, m.ino) && Readable(d, g, m.ino)
    ensures DirOk(d, g, m.parent) && Readable(d, g, m.parent)
    ensures 0 < m.ino < TXN_LIMIT && 0 < m.parent < TXN_LIMIT && m.p < TXN_LIMIT && InodeBlock(g, m.ino) < TXN_LIMIT
    ensures InodeBlock(g, m.ino) < |d| && Apart(d, g, m.parent, p0 + a.txn) && |p0| <= 2
    ensures Making(d, g, m) ==
            [Update(m.p, DotBlock(m.ino, m.parent)),
             Update(InodeBlock(g, m.ino), WithRecord(d[InodeBlock(g, m.ino)], m.ino, NewInode(m.owner, m.p)))]
    ensures NoRoom(d, g, m.parent, |m.name|) ==> GrowthApart(d, g, m, b)
  {
    hide DotBlock, NewInode, WithRecord, DirOk, DirMap, Touched;
    MakeableReady(d, g, m);
  }

  /** So far every update fits the buffer. */
  lemma Collected(p0: Txn, t: Txn, us: Txn, pending: Txn)
    requires |p0| <= 2 && |t| <= 4 && |us| == 2
    requires pending == Buffered(true, Buffered(true, Kept(p0 + t), [us[0]]), [us[1]])
    ensures pending == p0 + t + us && pending != [] && |pending| <= 8
  {
    assert p0 + t + [us[0]] + [us[1]] == p0 + t + us;
  }

  lemma IsEntered(d: Disk, g: Geometry, m: NewDir, b: Grant, add: Txn)
    requires DirOk(d, g, m.parent) && Adds(d, g, m.parent, add, m.name, m.ino)
    requires !NoRoom(d, g, m.parent, |m.name|) ==> InPlace(d, g, m.parent, add)
    requires NoRoom(d, g, m.parent, |m.name|) ==>
      && |add| >= |b.txn| && add[..|b.txn|] == b.txn
      && Grows(d, g, m.parent, add[|b.txn|..], b.blk, m.name, m.ino, FT_DIR)
    ensures Entered(d, g, m, b, add)
  {
  }

  /** The whole transaction fits the buffer and the log. */
  lemma WholeFits(d: Disk, g: Geometry, m: NewDir, p0: Txn, a: Grant, b: Grant, add: Txn)
    requires MayMake(d, g, m, p0, a, b) && a.blk != 0 && |a.txn| <= 4 && |b.txn| <= 4
    requires NoRoom(d, g, m.parent, |m.name|) ==> b.blk != 0
    requires Makeable(d, g, m) && DirOk(d, g, m.parent) && Entered(d, g, m, b, add)
    ensures var all := Whole(d, g, m, p0 + a.txn, add);
            && Readable(d, g, m.ino) && m.p < TXN_LIMIT && m.ino < TXN_LIMIT && m.parent < TXN_LIMIT
            && all == p0 + a.txn + Making(d, g, m) + add && Kept(all) == all && all != []
            && Fits(d, g.log, all)
  {
    hide DotBlock, NewInode, WithRecord, DirOk, DirMap, Touched, Adds, Entered, Spare, GoodEntry, InLog;
    MakeReady(d, g, m, p0, a, b);
    MakingInside(d, g, m);
    AddInside(d, g, m, b, add);
    var all := Whole(d, g, m, p0 + a.txn, add);
    assert Inside(d, g, p0) && Inside(d, g, a.txn);
    InsideBoth(d, g, p0, a.txn);
    InsideBoth(d, g, p0 + a.txn, Making(d, g, m));
    InsideBoth(d, g, p0 + a.txn + Making(d, g, m), add);
    TxnFits(d, g, all);
  }

  /** Blocks of the device outside the log. */
  ghost predicate Inside(d: Disk, g: Geometry, us: Txn) {
    forall i :: 0 <= i < |us| ==> us[i].block < |d| && !InLog(g.log, MAX_TXN, us[i].block)
  }

  lemma InsideBoth(d: Disk, g: Geometry, us: Txn, vs: Txn)
    requires Inside(d, g, us) && Inside(d, g, vs)
    ensures Inside(d, g, us + vs)
  {
  }

  lemma MakingInside(d: Disk, g: Geometry, m: NewDir)
    requires Makeable(d, g, m)
    ensures Readable(d, g, m.ino) && m.p < TXN_LIMIT && m.ino < TXN_LIMIT && m.parent < TXN_LIMIT
    ensures Inside(d, g, Making(d, g, m))
  {
    hide DotBlock, NewInode, WithRecord, DirOk, DirMap, Touched;
  }

  lemma AddInside(d: Disk, g: Geometry, m: NewDir, b: Grant, add: Txn)
    requires DirOk(d, g, m.parent) && Entered(d, g, m, b, add) && |b.txn| <= 4
    requires NoRoom(d, g, m.parent, |m.name|) ==> b.blk != 0 && MayGrow(d, g, m.parent, b)
    ensures Inside(d, g, add) && 1 <= |add| <= 6
  {
    hide DirMap, Adds, GrownInode, FreshBlock, Records, Unique, Pointer;
    TouchedInode(d, g, m.parent);
    if NoRoom(d, g, m.parent, |m.name|) {
      var own := add[|b.txn|..];
      assert add == b.txn + own;
      assert Inside(d, g, b.txn) && Inside(d, g, own);
      InsideBoth(d, g, b.txn, own);
    } else {
      assert add[0].block in Touched(d, g, m.parent);
    }
  }

  /** What the growing branch may rely on. */
  ghost predicate GrowthPlan(d: Disk, g: Geometry, ino: nat, name: Name, child: nat, ftype: Byte, a: Grant)
  {
    && Readable(d, g, ino) && Size(InodeBytes(d, g, ino)) / 4096 < DIRECT && DirOk(d, g, ino)
    && a.blk < TXN_LIMIT && |name| < 256 && child < TXN_LIMIT && a.txn != []
    && U32(d[InodeBlock(g, ino)], InodeOffset(ino) + 4) + 4096 < TXN_LIMIT
    && var us := Growth(d, g, ino, a.blk, name, child, ftype);
    Adds(d, g, ino, a.txn + us, name, child) && Fits(d, g.log, a.txn + us) && Fits(d, g.log, us)
  }

  lemma PlanReady(d: Disk, g: Geometry, ino: nat, name: Name, child: nat, ftype: Byte, a: Grant)
    requires GrowthPlan(d, g, ino, name, child, ftype, a)
    ensures Readable(d, g, ino) && Size(InodeBytes(d, g, ino)) / 4096 < DIRECT && DirOk(d, g, ino)
    ensures a.blk < TXN_LIMIT && |name| < 256 && child < TXN_LIMIT && a.txn != []
    ensures U32(d[InodeBlock(g, ino)], InodeOffset(ino) + 4) + 4096 < TXN_LIMIT
    ensures var us := Growth(d, g, ino, a.blk, name, child, ftype);
            Adds(d, g, ino, a.txn + us, name, child) && Fits(d, g.log, a.txn + us) && Fits(d, g.log, us)
  {
  }

  /** Tag i or a later one is the last. */
  ghost predicate LastAhead(desc: Block, i: nat) { exists k :: i <= k < TAGS && TagLast(desc, k) }

  lemma TagsAhead(desc: Block, i: nat)
    ensures i == 0 && Terminated(desc) ==> LastAhead(desc, i)
    ensures LastAhead(desc, i) ==> i < TAGS && (TagLast(desc, i) || LastAhead(desc, i + 1))
  {
  }

  lemma ReplayNext(d: Disk, start: nat, desc: Block, i: nat)
    requires LastAhead(desc, i)
    ensures i < TAGS
    ensures var d1 := if start + 1 + i < |d| then Store(d, Update(TagBlock(desc, i), d[start + 1 + i])) else d;
            if TagLast(desc, i) then ReplayFrom(d, start, desc, i) == d1
            else i + 1 < TAGS && ReplayFrom(d, start, desc, i) == ReplayFrom(d1, start, desc, i + 1)
  {
    TagsAhead(desc, i);
    TagsAhead(desc, i + 1);
  }

  lemma KeptAll(t: Txn)
    requires |t| <= MAX_TXN
    ensures Kept(t) == t
  {
  }

  lemma ZeroBytes(b: Bytes)
    requires |b| == 4096 && forall i :: 0 <= i < 4096 ==> b[i] == 0
    ensures b == ZeroBlock()
  {
  }

  lemma AddsFits(d: Disk, g: Geometry, ino: nat, txn: Txn, name: Name, child: nat)
    requires DirOk(d, g, ino) && Adds(d, g, ino, txn, name, child)
    ensures Fits(d, g.log, txn)
  {
  }

  lemma DropsFits(d: Disk, g: Geometry, ino: nat, txn: Txn, name: Name, child: nat)
    requires DirOk(d, g, ino) && Drops(d, g, ino, txn, name, child)
    ensures Fits(d, g.log, txn) && name in DirMap(d, g, ino) && DirMap(d, g, ino)[name] == child
  {
  }

  lemma ReadableBlock(d: Disk, g: Geometry, ino: nat)
    requires Readable(d, g, ino)
    ensures Located(g, ino) && ino != 0 && InodeBlock(g, ino) < |d|
  {
  }

  lemma FitsLimit(d: Disk, start: nat, txn: Txn)
    requires Fits(d, start, txn)
    ensures ValidTxn(txn) && |txn| > 0 && forall i :: 0 <= i < |txn| ==> txn[i].block < TXN_LIMIT
  {
  }

  lemma CommitAt(start: nat, txn: Txn, seqNo: nat, k: nat)
    requires ValidTxn(txn) && seqNo < TXN_LIMIT && k < 2 * |txn| + 2
    ensures CommitWrites(start, txn, seqNo)[k] ==
            if k == 0 then Update(start, Descriptor(txn, seqNo, |txn|))
            else if k <= |txn| then Update(start + k, txn[k - 1].data)
            else if k == |txn| + 1 then Update(start + 1 + |txn|, Header3(COMMIT, seqNo))
            else txn[k - |txn| - 2]
  {
    hide *;
    CommitOrder(start, txn, seqNo);
  }

  lemma DescriptorNext(txn: Txn, seqNo: nat, i: nat)
    requires ValidTxn(txn) && seqNo < TXN_LIMIT && 1 <= i <= |txn|
    ensures Descriptor(txn, seqNo, i) ==
            Put32(Put32(Descriptor(txn, seqNo, i - 1), 12 + 8 * (i - 1), txn[i - 1].block),
                  16 + 8 * (i - 1), if i == |txn| then FLAG_LAST else 0)
  {
  }
}
