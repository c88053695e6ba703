/** The redo journal of BiscuitFS (fs/blueyfs.c, biscuitfs_journal_commit and
    biscuitfs_journal_replay): the order of its disk writes, and what a crash between any two of
    them leaves for the replay to do. */
module Journal {
  import opened Bytes
  import opened DirBlock

  const MAX_TXN: nat := 16
  const MAGIC: nat := 0xB15CDA7A
  const DESCRIPTOR: nat := 1
  const COMMIT: nat := 2
  const FLAG_LAST: nat := 8
  const TAGS: nat := 510
  const TXN_LIMIT: nat := 0x1_0000_0000

  type Disk = seq<Block>

  /** One block write. */
  datatype Update = Update(block: nat, data: Block)
  type Txn = seq<Update>

  /** Writes outside the device fail and change nothing. */
  function Store(d: Disk, u: Update): (r: Disk)
    ensures |r| == |d|
  {
    if u.block < |d| then d[u.block := u.data] else d
  }

  function Perform(d: Disk, us: seq<Update>): (r: Disk)
    ensures |r| == |d|
  {
    if us == [] then d else Store(Perform(d, us[..|us| - 1]), us[|us| - 1])
  }

  function ZeroBlock(): Block { seq(4096, _ => 0) }

  /** What the sixteen slots of the buffer keep of the blocks handed to it. */
  function Kept(t: Txn): (r: Txn)
    ensures |r| <= MAX_TXN && (|t| <= MAX_TXN ==> r == t)
  {
    if |t| <= MAX_TXN then t else t[..MAX_TXN]
  }

  /** The buffer once these have been handed to it; without a mounted volume it takes nothing. */
  function Buffered(mounted: bool, pending: Txn, t: Txn): Txn { if mounted then Kept(pending + t) else pending }

  /** The buffer drops what comes when it is full, and nothing else. */
  lemma KeptStep(a: Txn, b: Txn)
    ensures Kept(Kept(a) + b) == Kept(a + b)
  {
  }

  lemma BufferedStep(mounted: bool, p: Txn, a: Txn, b: Txn)
    ensures Buffered(mounted, Buffered(mounted, p, a), b) == Buffered(mounted, p, a + b)
    ensures |p| <= MAX_TXN ==> Buffered(mounted, p, []) == p
  {
    KeptStep(p + a, b);
    assert p + a + b == p + (a + b) && p + [] == p;
  }

  // ---------------------------------------------------------------------------
  // What a commit writes
  // ---------------------------------------------------------------------------

  ghost predicate ValidTxn(txn: Txn) {
    1 <= |txn| <= MAX_TXN && forall i :: 0 <= i < |txn| ==> txn[i].block < TXN_LIMIT
  }

  function Header3(kind: nat, seqNo: nat): Block
    requires kind < TXN_LIMIT && seqNo < TXN_LIMIT
  {
    Put32(Put32(Put32(ZeroBlock(), 0, MAGIC), 4, kind), 8, seqNo)
  }

  /** The descriptor with its first i tags filled in: 8 bytes each after a 12-byte header. */
  function Descriptor(txn: Txn, seqNo: nat, i: nat): Block
    requires i <= |txn| <= MAX_TXN && seqNo < TXN_LIMIT && forall k :: 0 <= k < |txn| ==> txn[k].block < TXN_LIMIT
  {
    if i == 0 then Header3(DESCRIPTOR, seqNo)
    else
      var b := Put32(Descriptor(txn, seqNo, i - 1), 12 + 8 * (i - 1), txn[i - 1].block);
      Put32(b, 16 + 8 * (i - 1), if i == |txn| then FLAG_LAST else 0)
  }

  function Logged(start: nat, txn: Txn): seq<Update> {
    seq(|txn|, i requires 0 <= i < |txn| => Update(start + 1 + i, txn[i].data))
  }

  function LogWrites(start: nat, txn: Txn, seqNo: nat): (us: seq<Update>)
    requires ValidTxn(txn) && seqNo < TXN_LIMIT
    ensures |us| == |txn| + 2
  {
    [Update(start, Descriptor(txn, seqNo, |txn|))] + Logged(start, txn) +
    [Update(start + 1 + |txn|, Header3(COMMIT, seqNo))]
  }

  /** Every block write of a commit, in order: descriptor, data, commit block, then the real blocks. */
  function CommitWrites(start: nat, txn: Txn, seqNo: nat): (us: seq<Update>)
    requires ValidTxn(txn) && seqNo < TXN_LIMIT
    ensures |us| == 2 * |txn| + 2
  {
    LogWrites(start, txn, seqNo) + txn
  }

  // ---------------------------------------------------------------------------
  // Replay
  // ---------------------------------------------------------------------------

  predicate IsDescriptor(b: Block) { U32(b, 0) == MAGIC && U32(b, 4) == DESCRIPTOR }

  function TagBlock(b: Block, i: nat): nat
    requires i < TAGS
  {
    U32(b, 12 + 8 * i)
  }

  predicate TagLast(b: Block, i: nat)
    requires i < TAGS
  {
    U32(b, 16 + 8 * i) / 8 % 2 == 1
  }

  /** Some tag of the descriptor block is marked as the last. */
  ghost predicate Terminated(b: Block) { exists i :: 0 <= i < TAGS && TagLast(b, i) }

  /** The tags from i on: copy a log block to where its tag points, until the tag marked last. */
  function ReplayFrom(d: Disk, start: nat, desc: Block, i: nat): (r: Disk)
    requires i < TAGS
    ensures |r| == |d|
    decreases TAGS - i
  {
    var d1 := if start + 1 + i < |d| then Store(d, Update(TagBlock(desc, i), d[start + 1 + i])) else d;
    if TagLast(desc, i) || i + 1 == TAGS then d1 else ReplayFrom(d1, start, desc, i + 1)
  }

  function Replay(d: Disk, start: nat): (r: Disk)
    ensures |r| == |d|
  {
    if start == 0 || start >= |d| || !IsDescriptor(d[start]) then d else ReplayFrom(d, start, d[start], 0)
  }

  // ---------------------------------------------------------------------------
  // The descriptor reads back as written
  // ---------------------------------------------------------------------------

  lemma {:induction false} DescriptorReadsBack(txn: Txn, seqNo: nat, n: nat)
    requires ValidTxn(txn) && seqNo < TXN_LIMIT && n <= |txn|
    ensures IsDescriptor(Descriptor(txn, seqNo, n)) && U32(Descriptor(txn, seqNo, n), 8) == seqNo
    ensures forall i :: 0 <= i < n ==> TagBlock(Descriptor(txn, seqNo, n), i) == txn[i].block
    ensures forall i :: 0 <= i < n ==> TagLast(Descriptor(txn, seqNo, n), i) == (i == |txn| - 1)
  {
    hide Descriptor, U32;
    if n == 0 {
      HeaderReadsBack(DESCRIPTOR, seqNo);
      DescriptorStarts(txn, seqNo);
    } else {
      DescriptorReadsBack(txn, seqNo, n - 1);
      DescriptorStep(txn, seqNo, n);
      var b, b' := Descriptor(txn, seqNo, n - 1), Descriptor(txn, seqNo, n);
      forall i | 0 <= i < n ensures TagBlock(b', i) == txn[i].block && TagLast(b', i) == (i == |txn| - 1) {
        if i < n - 1 { assert TagBlock(b, i) == txn[i].block && TagLast(b, i) == (i == |txn| - 1); }
      }
    }
  }

  /** Both header blocks carry the magic number, their kind and the sequence number. */
  lemma HeaderReadsBack(kind: nat, seqNo: nat)
    requires kind < TXN_LIMIT && seqNo < TXN_LIMIT
    ensures var h := Header3(kind, seqNo); U32(h, 0) == MAGIC && U32(h, 4) == kind && U32(h, 8) == seqNo
  {
    hide Put32, U32;
    var z := Put32(ZeroBlock(), 0, MAGIC);
    Put32Elsewhere(z, 4, kind, 0);
    Put32Elsewhere(Put32(z, 4, kind), 8, seqNo, 0);
    Put32Elsewhere(Put32(z, 4, kind), 8, seqNo, 4);
  }

  lemma DescriptorStarts(txn: Txn, seqNo: nat)
    requires ValidTxn(txn) && seqNo < TXN_LIMIT
    ensures Descriptor(txn, seqNo, 0) == Header3(DESCRIPTOR, seqNo)
  {
  }

  lemma DescriptorStep(txn: Txn, seqNo: nat, n: nat)
    requires ValidTxn(txn) && seqNo < TXN_LIMIT && 1 <= n <= |txn|
    ensures var b, b' := Descriptor(txn, seqNo, n - 1), Descriptor(txn, seqNo, n);
            && (forall p: nat :: p + 4 <= 12 + 8 * (n - 1) ==> U32(b', p) == U32(b, p))
            && U32(b', 12 + 8 * (n - 1)) == txn[n - 1].block
            && U32(b', 16 + 8 * (n - 1)) == if n == |txn| then FLAG_LAST else 0
  {
    hide Put32, U32;
    var b, o, flag := Descriptor(txn, seqNo, n - 1), 12 + 8 * (n - 1), if n == |txn| then FLAG_LAST else 0;
    var c := Put32(b, o, txn[n - 1].block);
    forall p: nat | p + 4 <= o ensures U32(Descriptor(txn, seqNo, n), p) == U32(b, p) {
      Put32Elsewhere(b, o, txn[n - 1].block, p);
      Put32Elsewhere(c, o + 4, flag, p);
    }
    Put32Elsewhere(c, o + 4, flag, o);
  }

  // ---------------------------------------------------------------------------
  // Redo
  // ---------------------------------------------------------------------------

  /** Blocks the log of a transaction of n blocks occupies. */
  predicate InLog(start: nat, n: nat, b: nat) { start <= b < start + n + 2 }

  ghost predicate OutsideLog(start: nat, txn: Txn) {
    forall i :: 0 <= i < |txn| ==> !InLog(start, |txn|, txn[i].block)
  }

  ghost predicate Fits(d: Disk, start: nat, txn: Txn) {
    ValidTxn(txn) && 0 < start && start + |txn| + 2 <= |d| && OutsideLog(start, txn)
  }

  lemma {:induction false} PerformSplit(d: Disk, a: seq<Update>, b: seq<Update>)
    ensures Perform(d, a + b) == Perform(Perform(d, a), b)
  {
    if b == [] {
      assert a + b == a;
    } else {
      PerformSplit(d, a, b[..|b| - 1]);
      assert (a + b)[..|a + b| - 1] == a + b[..|b| - 1];
    }
  }

  /** Blocks that no update names keep their contents. */
  lemma {:induction false} PerformElsewhere(d: Disk, us: seq<Update>, b: nat)
    requires b < |d| && forall i :: 0 <= i < |us| ==> us[i].block != b
    ensures Perform(d, us)[b] == d[b]
  {
    if us != [] { PerformElsewhere(d, us[..|us| - 1], b); }
  }

  /** A named block holds what the last update naming it wrote. */
  lemma {:induction false} PerformLast(d: Disk, us: seq<Update>, i: nat)
    requires i < |us| && us[i].block < |d| && forall j :: i < j < |us| ==> us[j].block != us[i].block
    ensures Perform(d, us)[us[i].block] == us[i].data
  {
    if i < |us| - 1 {
      assert us[..|us| - 1][i] == us[i];
      PerformLast(d, us[..|us| - 1], i);
    }
  }

  /** Contents after the updates depend only on the updates and, where they write nothing, on the
      contents before. */
  lemma {:induction false} PerformAgrees(d: Disk, e: Disk, us: seq<Update>, b: nat)
    requires |d| == |e| && b < |d| && (d[b] == e[b] || exists i :: 0 <= i < |us| && us[i].block == b)
    ensures Perform(d, us)[b] == Perform(e, us)[b]
  {
    if us != [] && us[|us| - 1].block != b {
      var before := us[..|us| - 1];
      assert d[b] == e[b] || exists i :: 0 <= i < |before| && before[i].block == b;
      PerformAgrees(d, e, us[..|us| - 1], b);
    }
  }

  lemma PerformNext(d: Disk, us: seq<Update>, k: nat)
    requires k < |us|
    ensures Perform(d, us[..k + 1]) == Store(Perform(d, us[..k]), us[k])
  {
    assert us[..k + 1][..k] == us[..k];
  }

  /** What replay finds in the log: each tag's target with the log block after it. */
  ghost function Found(d: Disk, start: nat, txn: Txn): seq<Update>
    requires start + |txn| + 1 <= |d|
  {
    seq(|txn|, i requires 0 <= i < |txn| => Update(txn[i].block, d[start + 1 + i]))
  }

  /** Under a readable descriptor, replay writes what it finds in the log, in order. */
  lemma {:induction false} ReplayFromPerforms(d: Disk, start: nat, txn: Txn, seqNo: nat, i: nat)
    requires Fits(d, start, txn) && seqNo < TXN_LIMIT && i < |txn|
    ensures ReplayFrom(d, start, Descriptor(txn, seqNo, |txn|), i) == Perform(d, Found(d, start, txn)[i..])
    decreases |txn| - i
  {
    hide Descriptor, TagBlock, TagLast, Perform, Found, Store;
    var us := Found(d, start, txn);
    DescriptorReadsBack(txn, seqNo, |txn|);
    FoundAfter(d, start, txn, i);
    PerformFirst(d, us[i..]);
    assert us[i..][1..] == us[i + 1..];
    if i + 1 < |txn| {
      ReplayFromPerforms(Store(d, us[i]), start, txn, seqNo, i + 1);
    } else {
      PerformFirst(Store(d, us[i]), []);
      assert us[i + 1..] == [];
    }
  }

  /** Replaying a tag does not disturb the log. */
  lemma FoundAfter(d: Disk, start: nat, txn: Txn, i: nat)
    requires Fits(d, start, txn) && i < |txn|
    ensures var us := Found(d, start, txn);
            && |us| == |txn| && us[i] == Update(txn[i].block, d[start + 1 + i])
            && Found(Store(d, us[i]), start, txn) == us
  {
    var us := Found(d, start, txn);
    var d1 := Store(d, us[i]);
    forall k | 0 <= k < |txn| ensures Found(d1, start, txn)[k] == us[k] {
      assert !InLog(start, |txn|, txn[i].block);
    }
  }

  lemma PerformFirst(d: Disk, us: seq<Update>)
    ensures Perform(d, us) == if us == [] then d else Perform(Store(d, us[0]), us[1..])
  {
    if us != [] {
      PerformSplit(d, [us[0]], us[1..]);
      assert us == [us[0]] + us[1..];
      PerformOne(d, us[0]);
    }
  }

  lemma PerformOne(d: Disk, u: Update)
    ensures Perform(d, [u]) == Store(d, u)
  {
    assert [u][..0] == [];
    assert Perform(d, []) == d;
  }

  lemma ReplayPerforms(d: Disk, start: nat, txn: Txn, seqNo: nat)
    requires Fits(d, start, txn) && seqNo < TXN_LIMIT && d[start] == Descriptor(txn, seqNo, |txn|)
    ensures Replay(d, start) == Perform(d, Found(d, start, txn))
  {
    hide Descriptor, Header3, U32;
    DescriptorReadsBack(txn, seqNo, |txn|);
    ReplayFromPerforms(d, start, txn, seqNo, 0);
    assert Found(d, start, txn)[0..] == Found(d, start, txn);
  }

  /** The disk after the first k block writes of a commit. */
  ghost function CrashAt(d: Disk, start: nat, txn: Txn, seqNo: nat, k: nat): Disk
    requires ValidTxn(txn) && seqNo < TXN_LIMIT && k <= 2 * |txn| + 2
  {
    Perform(d, CommitWrites(start, txn, seqNo)[..k])
  }

  lemma CommitOrder(start: nat, txn: Txn, seqNo: nat)
    requires ValidTxn(txn) && seqNo < TXN_LIMIT
    ensures var us := CommitWrites(start, txn, seqNo);
            && us[0] == Update(start, Descriptor(txn, seqNo, |txn|))
            && us[|txn| + 1] == Update(start + 1 + |txn|, Header3(COMMIT, seqNo))
            && (forall j :: 1 <= j < 1 + |txn| ==> us[j] == Update(start + j, txn[j - 1].data))
            && (forall j :: |txn| + 2 <= j < |us| ==> us[j] == txn[j - |txn| - 2])
  {
    hide Descriptor, Header3;
  }

  /** Once the descriptor is on disk: the descriptor, the log blocks written so far, and whatever
      was in the other log slots before. */
  lemma CrashLog(d: Disk, start: nat, txn: Txn, seqNo: nat, k: nat)
    requires Fits(d, start, txn) && seqNo < TXN_LIMIT && 1 <= k <= 2 * |txn| + 2
    ensures var e := CrashAt(d, start, txn, seqNo, k);
            && e[start] == Descriptor(txn, seqNo, |txn|)
            && forall i :: 0 <= i < |txn| ==> e[start + 1 + i] == if i + 1 < k then txn[i].data else d[start + 1 + i]
  {
    hide Descriptor, CommitWrites, Perform;
    CommitOrder(start, txn, seqNo);
    var us := CommitWrites(start, txn, seqNo)[..k];
    assert us[0].block == start;
    PerformLast(d, us, 0);
    forall i | 0 <= i < |txn|
      ensures CrashAt(d, start, txn, seqNo, k)[start + 1 + i] == if i + 1 < k then txn[i].data else d[start + 1 + i]
    {
      if i + 1 < k { PerformLast(d, us, i + 1); } else { PerformElsewhere(d, us, start + 1 + i); }
    }
  }

  /** Outside the log, a crash before the in-place writes has changed nothing. */
  lemma CrashOutside(d: Disk, start: nat, txn: Txn, seqNo: nat, k: nat, b: nat)
    requires Fits(d, start, txn) && seqNo < TXN_LIMIT && k <= 2 * |txn| + 2 && b < |d| && !InLog(start, |txn|, b)
    requires k <= |txn| + 2 || forall i :: 0 <= i < |txn| ==> txn[i].block != b
    ensures CrashAt(d, start, txn, seqNo, k)[b] == d[b]
  {
    hide Descriptor, CommitWrites, Perform;
    CommitOrder(start, txn, seqNo);
    PerformElsewhere(d, CommitWrites(start, txn, seqNo)[..k], b);
  }

  /** Two disks alike outside the log of a transaction of n blocks. */
  ghost predicate SameOutside(d: Disk, e: Disk, start: nat, n: nat) {
    |d| == |e| && forall b :: 0 <= b < |d| && !InLog(start, n, b) ==> d[b] == e[b]
  }

  /** A crash at any point after the descriptor and all the log data are on disk: replay gives the
      old disk with the transaction applied in order, repeated targets included. */
  lemma CrashThenReplay(d: Disk, start: nat, txn: Txn, seqNo: nat, k: nat)
    requires Fits(d, start, txn) && seqNo < TXN_LIMIT && |txn| < k <= 2 * |txn| + 2
    ensures SameOutside(Replay(CrashAt(d, start, txn, seqNo, k), start), Perform(d, txn), start, |txn|)
  {
    hide Descriptor, Header3, U32, Perform, Replay, CommitWrites;
    var e := CrashAt(d, start, txn, seqNo, k);
    CrashLog(d, start, txn, seqNo, k);
    assert Found(e, start, txn) == txn;
    ReplayPerforms(e, start, txn, seqNo);
    forall b | 0 <= b < |d| && !InLog(start, |txn|, b) ensures Perform(e, txn)[b] == Perform(d, txn)[b] {
      if forall i :: 0 <= i < |txn| ==> txn[i].block != b { CrashOutside(d, start, txn, seqNo, k, b); }
      PerformAgrees(e, d, txn, b);
    }
  }

  /** Replay writes the same blocks again to the same effect: a crash during recovery is harmless. */
  lemma ReplayTwice(d: Disk, start: nat, txn: Txn, seqNo: nat)
    requires Fits(d, start, txn) && seqNo < TXN_LIMIT && d[start] == Descriptor(txn, seqNo, |txn|)
    ensures Replay(Replay(d, start), start) == Replay(d, start)
  {
    hide Descriptor, Header3, U32, Perform, Replay;
    var us := Found(d, start, txn);
    ReplayPerforms(d, start, txn, seqNo);
    var e := Perform(d, us);
    forall b | start <= b < start + |txn| + 1 ensures e[b] == d[b] { PerformElsewhere(d, us, b); }
    assert Found(e, start, txn) == us;
    ReplayPerforms(e, start, txn, seqNo);
    forall b | 0 <= b < |d| ensures Perform(e, us)[b] == e[b] {
      if forall i :: 0 <= i < |us| ==> us[i].block != b {
        PerformElsewhere(e, us, b);
      } else {
        PerformAgrees(e, d, us, b);
      }
    }
  }

  /** Replay has nothing left to do. */
  ghost predicate Settled(d: Disk, start: nat) { Replay(d, start) == d }

  /** A finished commit leaves a log whose replay does nothing. */
  lemma CommitSettles(d: Disk, start: nat, txn: Txn, seqNo: nat)
    requires Fits(d, start, txn) && seqNo < TXN_LIMIT
    ensures Settled(CrashAt(d, start, txn, seqNo, 2 * |txn| + 2), start)
    ensures SameOutside(CrashAt(d, start, txn, seqNo, 2 * |txn| + 2), Perform(d, txn), start, |txn|)
  {
    hide Descriptor, Header3, U32, Perform;
    var k := 2 * |txn| + 2;
    var us, e := CommitWrites(start, txn, seqNo), CrashAt(d, start, txn, seqNo, k);
    assert us[..k] == us;
    var l := Perform(d, LogWrites(start, txn, seqNo));
    PerformSplit(d, LogWrites(start, txn, seqNo), txn);
    CrashThenReplay(d, start, txn, seqNo, k);
    CrashLog(d, start, txn, seqNo, k);
    assert Found(e, start, txn) == txn;
    ReplayPerforms(e, start, txn, seqNo);
    forall b | 0 <= b < |d| ensures Perform(e, txn)[b] == e[b] {
      if forall i :: 0 <= i < |txn| ==> txn[i].block != b {
        PerformElsewhere(e, txn, b);
      } else {
        PerformAgrees(e, l, txn, b);
      }
    }
  }

  // ---------------------------------------------------------------------------
  // Exactly which crashes are harmless
  // ---------------------------------------------------------------------------

  /** After the crash and the replay the disk is the old one or the new one, outside the log. */
  ghost predicate AllOrNothing(d: Disk, start: nat, txn: Txn, seqNo: nat, k: nat)
    requires Fits(d, start, txn) && seqNo < TXN_LIMIT && k <= 2 * |txn| + 2
  {
    var r := Replay(CrashAt(d, start, txn, seqNo, k), start);
    SameOutside(r, d, start, |txn|) || SameOutside(r, Perform(d, txn), start, |txn|)
  }

  /** Replay never looks at the commit block, so a crash between the descriptor and the last data
      block can replay stale log contents. Crashing after k writes is safe on every settled disk
      if and only if nothing or all of the log data had been written. */
  lemma AllOrNothingExactly(size: nat, start: nat, txn: Txn, seqNo: nat, k: nat)
    requires ValidTxn(txn) && 0 < start && start + |txn| + 2 <= size && OutsideLog(start, txn)
    requires txn[|txn| - 1].block < size && seqNo < TXN_LIMIT && k <= 2 * |txn| + 2
    ensures (forall d: Disk | |d| == size && Settled(d, start) :: AllOrNothing(d, start, txn, seqNo, k)) <==>
            k == 0 || k > |txn|
  {
    hide Replay, Perform, CommitWrites;
    if k == 0 || k > |txn| {
      forall d: Disk | |d| == size && Settled(d, start) ensures AllOrNothing(d, start, txn, seqNo, k) {
        if k == 0 { NothingWritten(d, start, txn, seqNo); } else { CrashThenReplay(d, start, txn, seqNo, k); }
      }
    } else {
      var d := StaleDisk(size, start, txn);
      StaleSettled(d, start);
      StaleIsReplayed(d, start, txn, seqNo, k);
      UnlikeBoth(txn[|txn| - 1].data);
      assert !InLog(start, |txn|, txn[|txn| - 1].block);
      assert !AllOrNothing(d, start, txn, seqNo, k);
    }
  }

  lemma NothingWritten(d: Disk, start: nat, txn: Txn, seqNo: nat)
    requires ValidTxn(txn) && seqNo < TXN_LIMIT
    ensures CrashAt(d, start, txn, seqNo, 0) == d
  {
  }

  /** A log that does not start with a descriptor is not replayed. */
  lemma StaleSettled(d: Disk, start: nat)
    requires 0 < start < |d| && d[start] == ZeroBlock()
    ensures Settled(d, start)
  {
    assert U32(d[start], 0) == 0;
  }

  /** A block whose first byte is neither 0 nor that of b. */
  ghost function Unlike(b: Block): Block { ZeroBlock()[0 := if b[0] == 1 then 2 else 1] }

  lemma UnlikeBoth(b: Block)
    ensures Unlike(b) != b && Unlike(b) != ZeroBlock()
  {
    assert Unlike(b)[0] != b[0] && Unlike(b)[0] != ZeroBlock()[0];
  }

  /** A blank disk, but for a stale block in the log slot of the last tag. */
  ghost function StaleDisk(size: nat, start: nat, txn: Txn): (d: Disk)
    requires ValidTxn(txn) && 0 < start && start + |txn| + 2 <= size
    ensures |d| == size && d[start + |txn|] == Unlike(txn[|txn| - 1].data)
    ensures forall b :: 0 <= b < size && b != start + |txn| ==> d[b] == ZeroBlock()
  {
    var d: Disk := seq(size, _ => ZeroBlock());
    d[start + |txn| := Unlike(txn[|txn| - 1].data)]
  }

  lemma StaleIsReplayed(d: Disk, start: nat, txn: Txn, seqNo: nat, k: nat)
    requires Fits(d, start, txn) && seqNo < TXN_LIMIT && 1 <= k <= |txn| && txn[|txn| - 1].block < |d|
    ensures Replay(CrashAt(d, start, txn, seqNo, k), start)[txn[|txn| - 1].block] == d[start + |txn|]
    ensures Perform(d, txn)[txn[|txn| - 1].block] == txn[|txn| - 1].data
  {
    hide Descriptor, Header3, U32, Perform, Replay, CommitWrites;
    var e := CrashAt(d, start, txn, seqNo, k);
    CrashLog(d, start, txn, seqNo, k);
    ReplayPerforms(e, start, txn, seqNo);
    PerformLast(e, Found(e, start, txn), |txn| - 1);
    PerformLast(d, txn, |txn| - 1);
  }
}
