/** Directories on disk: the inode, the block pointers, and the records of all the blocks read as
    one map (fs/blueyfs.c, read_inode, inode_get_block, dir_lookup). */
module Directory {
  import opened Bytes
  import opened DirBlock
  import opened Journal

  const DIRECT: nat := 12
  const PTRS: nat := 1024

  /** Where the volume keeps things: the inode table of each group, and the log. */
  datatype Geometry = Geometry(tables: seq<nat>, log: nat)

  predicate Located(g: Geometry, ino: nat) { ino != 0 && (ino - 1) / 8192 < |g.tables| }

  function InodeBlock(g: Geometry, ino: nat): nat
    requires Located(g, ino)
  {
    g.tables[(ino - 1) / 8192] + (ino - 1) % 8192 / 16
  }

  function InodeOffset(ino: nat): (o: nat)
    requires ino != 0
    ensures o + 256 <= 4096 && o % 256 == 0
  {
    (ino - 1) % 8192 % 16 * 256
  }

  /** Inode tables hold 256 bytes for each inode of the group, one after the other from the start. */
  lemma InodePlace(g: Geometry, ino: nat)
    requires Located(g, ino)
    ensures var table, k := g.tables[(ino - 1) / 8192], (ino - 1) % 8192;
            && table <= InodeBlock(g, ino) < table + 512
            && 4096 * (InodeBlock(g, ino) - table) + InodeOffset(ino) == 256 * k
  {
  }

  /** The inode tables of the groups do not overlap. */
  ghost predicate TablesApart(g: Geometry) {
    forall j, k :: 0 <= j < k < |g.tables| ==> g.tables[j] + 512 <= g.tables[k] || g.tables[k] + 512 <= g.tables[j]
  }

  /** Different inodes occupy different bytes. */
  lemma InodesApart(g: Geometry, a: nat, b: nat)
    requires TablesApart(g) && Located(g, a) && Located(g, b) && a != b
    ensures InodeBlock(g, a) == InodeBlock(g, b) ==>
      InodeOffset(a) + 256 <= InodeOffset(b) || InodeOffset(b) + 256 <= InodeOffset(a)
  {
    hide InodeBlock, InodeOffset;
    InodePlace(g, a);
    InodePlace(g, b);
  }

  predicate Readable(d: Disk, g: Geometry, ino: nat) { Located(g, ino) && InodeBlock(g, ino) < |d| }

  /** The 256 bytes of an inode. */
  function InodeBytes(d: Disk, g: Geometry, ino: nat): (i: Bytes)
    requires Readable(d, g, ino)
    ensures |i| == 256
  {
    d[InodeBlock(g, ino)][InodeOffset(ino)..InodeOffset(ino) + 256]
  }

  predicate IsDir(i: Bytes)
    requires |i| == 256
  {
    U16(i, 0) / 4096 == 4
  }

  function Size(i: Bytes): nat
    requires |i| == 256
  {
    U32(i, 4)
  }

  function Direct(i: Bytes, n: nat): nat
    requires |i| == 256 && n < 15
  {
    U32(i, 40 + 4 * n)
  }

  function Word(b: Block, n: nat): nat
    requires n < PTRS
  {
    U32(b, 4 * n)
  }

  /** inode_get_block: direct, singly and doubly indirect pointers; 0 when there is none. */
  function Pointer(d: Disk, i: Bytes, n: nat): nat
    requires |i| == 256
  {
    if n < DIRECT then Direct(i, n)
    else if n < DIRECT + PTRS then
      if 0 < Direct(i, 12) < |d| then Word(d[Direct(i, 12)], n - DIRECT) else 0
    else if n < DIRECT + PTRS + PTRS * PTRS && 0 < Direct(i, 13) < |d| then
      var l2 := Word(d[Direct(i, 13)], (n - 1036) / 1024);
      if 0 < l2 < |d| then Word(d[l2], (n - 1036) % 1024) else 0
    else 0
  }

  /** The first twelve blocks are named in the inode; the next 1024 in the block that its thirteenth word
      names; and block b of the a-th run of 1024 after these in the block named by word a of the block
      that its fourteenth word names. */
  lemma PointerTree(d: Disk, i: Bytes, n: nat, a: nat, b: nat)
    requires |i| == 256 && n < 12 && a < 1024 && b < 1024
    ensures Pointer(d, i, n) == U32(i, 40 + 4 * n)
    ensures var p := U32(i, 88); Pointer(d, i, 12 + b) == if 0 < p < |d| then U32(d[p], 4 * b) else 0
    ensures var p := U32(i, 92); var q := if 0 < p < |d| then U32(d[p], 4 * a) else 0;
            Pointer(d, i, 12 + 1024 + 1024 * a + b) == if 0 < q < |d| then U32(d[q], 4 * b) else 0
    ensures Pointer(d, i, 12 + 1024 + 1024 * 1024 + n) == 0
  {
    hide U32;
  }

  /** Blocks that hold pointers of the inode. */
  ghost function PointerBlocks(d: Disk, i: Bytes): set<nat>
    requires |i| == 256
  {
    {Direct(i, 12), Direct(i, 13)} +
    if 0 < Direct(i, 13) < |d| then set k: nat | k < PTRS :: Word(d[Direct(i, 13)], k) else {}
  }

  ghost function Blocks(d: Disk, i: Bytes): (bs: seq<nat>)
    requires |i| == 256
    ensures |bs| == Size(i) / 4096 && forall k :: 0 <= k < |bs| ==> bs[k] == Pointer(d, i, k)
  {
    seq(Size(i) / 4096, k requires 0 <= k => Pointer(d, i, k))
  }

  // ---------------------------------------------------------------------------
  // A directory in order, and the map it stands for
  // ---------------------------------------------------------------------------

  ghost predicate TiledBlocks(d: Disk, bs: seq<nat>) {
    forall k :: 0 <= k < |bs| ==> bs[k] < |d| && Tiled(d[bs[k]])
  }

  ghost predicate Distinct(bs: seq<nat>) { forall i, j :: 0 <= i < j < |bs| ==> bs[i] != bs[j] }

  /** The records of all blocks, in order. */
  ghost function Records(d: Disk, bs: seq<nat>): seq<Bytes>
    requires TiledBlocks(d, bs)
  {
    if bs == [] then [] else Chunks(d[bs[0]]) + Records(d, bs[1..])
  }

  lemma {:induction false} RecordsWellFormed(d: Disk, bs: seq<nat>)
    requires TiledBlocks(d, bs)
    ensures AllWellFormed(Records(d, bs))
  {
    if bs != [] { RecordsWellFormed(d, bs[1..]); }
  }

  /** The inode is readable and a directory; its blocks lie apart from each other, from the blocks
      that point at them and from the log; records tile every block; no name occurs twice. */
  ghost predicate DirOk(d: Disk, g: Geometry, ino: nat) {
    && Readable(d, g, ino) && IsDir(InodeBytes(d, g, ino)) && Size(InodeBytes(d, g, ino)) % 4096 == 0
    && var i := InodeBytes(d, g, ino);
       var bs := Blocks(d, i);
    && Distinct(bs) && TiledBlocks(d, bs)
    && (forall k :: 0 <= k < |bs| ==> bs[k] != 0 && bs[k] != InodeBlock(g, ino) && bs[k] !in PointerBlocks(d, i))
    && InodeBlock(g, ino) !in PointerBlocks(d, i)
    && (forall b :: b in Touched(d, g, ino) ==> !InLog(g.log, MAX_TXN, b))
    && AllWellFormed(Records(d, bs)) && Unique(Records(d, bs))
  }

  /** Every block the meaning of the directory depends on. */
  ghost function Touched(d: Disk, g: Geometry, ino: nat): set<nat>
    requires Readable(d, g, ino)
  {
    var i := InodeBytes(d, g, ino);
    {InodeBlock(g, ino)} + PointerBlocks(d, i) + Elems(Blocks(d, i))
  }

  ghost function Elems(bs: seq<nat>): set<nat> { set k | 0 <= k < |bs| :: bs[k] }

  lemma ElemsAppend(bs: seq<nat>, p: nat)
    ensures Elems(bs + [p]) == Elems(bs) + {p}
  {
    forall b | b in Elems(bs) + {p} ensures b in Elems(bs + [p]) {
      if b == p {
        assert (bs + [p])[|bs|] == p;
      } else {
        var k :| 0 <= k < |bs| && bs[k] == b;
        assert (bs + [p])[k] == b;
      }
    }
  }

  /** What the directory maps names to. */
  ghost function DirMap(d: Disk, g: Geometry, ino: nat): map<Name, nat>
    requires DirOk(d, g, ino)
  {
    MapOf(Records(d, Blocks(d, InodeBytes(d, g, ino))))
  }

  /** Disks that agree on the inode and on those other blocks hold the same directory. */
  lemma SameDir(d: Disk, e: Disk, g: Geometry, ino: nat)
    requires DirOk(d, g, ino) && |e| == |d| && InodeBytes(e, g, ino) == InodeBytes(d, g, ino)
    requires forall b :: b in Touched(d, g, ino) && b != InodeBlock(g, ino) && b < |d| ==> e[b] == d[b]
    ensures DirOk(e, g, ino) && DirMap(e, g, ino) == DirMap(d, g, ino) && Touched(e, g, ino) == Touched(d, g, ino)
    ensures Blocks(e, InodeBytes(e, g, ino)) == Blocks(d, InodeBytes(d, g, ino))
  {
    var i := InodeBytes(d, g, ino);
    assert InodeBlock(g, ino) in Touched(d, g, ino);
    assert InodeBytes(e, g, ino) == i;
    SamePointers(d, e, i);
    var bs := Blocks(d, i);
    assert Blocks(e, i) == bs;
    assert forall k :: 0 <= k < |bs| ==> bs[k] in Touched(d, g, ino);
    SameRecords(d, e, bs);
  }

  lemma SamePointers(d: Disk, e: Disk, i: Bytes)
    requires |i| == 256 && |e| == |d| && forall b :: b in PointerBlocks(d, i) && b < |d| ==> e[b] == d[b]
    ensures PointerBlocks(e, i) == PointerBlocks(d, i) && forall n: nat :: Pointer(e, i, n) == Pointer(d, i, n)
  {
    assert Direct(i, 12) in PointerBlocks(d, i) && Direct(i, 13) in PointerBlocks(d, i);
    forall n: nat ensures Pointer(e, i, n) == Pointer(d, i, n) {
      if DIRECT + PTRS <= n < DIRECT + PTRS + PTRS * PTRS && 0 < Direct(i, 13) < |d| {
        assert Word(d[Direct(i, 13)], (n - 1036) / 1024) in PointerBlocks(d, i);
      }
    }
  }

  lemma {:induction false} SameRecords(d: Disk, e: Disk, bs: seq<nat>)
    requires TiledBlocks(d, bs) && |e| == |d| && forall k :: 0 <= k < |bs| ==> e[bs[k]] == d[bs[k]]
    ensures TiledBlocks(e, bs) && Records(e, bs) == Records(d, bs)
  {
    if bs != [] { SameRecords(d, e, bs[1..]); }
  }

  lemma {:induction false} RecordsSplit(d: Disk, a: seq<nat>, b: seq<nat>)
    requires TiledBlocks(d, a) && TiledBlocks(d, b)
    ensures TiledBlocks(d, a + b) && Records(d, a + b) == Records(d, a) + Records(d, b)
  {
    hide Chunks, Tiled;
    if a == [] {
      assert a + b == b;
    } else {
      RecordsSplit(d, a[1..], b);
      assert (a + b)[1..] == a[1..] + b;
    }
  }

  /** Where the j-th record of the directory lies: inside one block. */
  lemma {:induction false} RecordPlace(d: Disk, bs: seq<nat>, j: nat)
    requires TiledBlocks(d, bs) && j < |Records(d, bs)|
    ensures var o := |Concat(Records(d, bs)[..j])|; var c := Records(d, bs)[j];
            && WellFormed(c) && |Concat(Records(d, bs)[..j + 1])| == o + |c|
            && o / 4096 < |bs| && o % 4096 + |c| <= 4096
            && d[bs[o / 4096]][o % 4096..o % 4096 + |c|] == c
  {
    hide Chunks, U16, U32, RecLen, Used;
    var all, cs := Records(d, bs), Chunks(d[bs[0]]);
    RecordsWellFormed(d, bs);
    ConcatAt(all, j);
    if j < |cs| {
      ConcatAt(cs, j);
      assert all[..j] == cs[..j];
      InBlock(d[bs[0]], cs, j);
    } else {
      RecordPlace(d, bs[1..], j - |cs|);
      var rest := Records(d, bs[1..]);
      assert all[..j] == cs + rest[..j - |cs|];
      ConcatSplit(cs, rest[..j - |cs|]);
      var o, o1 := |Concat(all[..j])|, |Concat(rest[..j - |cs|])|;
      assert o == 4096 + o1 && o / 4096 == 1 + o1 / 4096 && o % 4096 == o1 % 4096;
      assert bs[o / 4096] == bs[1..][o1 / 4096];
    }
  }

  lemma InBlock(b: Block, cs: seq<Bytes>, j: nat)
    requires Concat(cs) == b && j < |cs| && |cs[j]| >= 8
    ensures var o := |Concat(cs[..j])|;
            o + |cs[j]| <= 4096 && o / 4096 == 0 && o % 4096 == o && b[o..o + |cs[j]|] == cs[j]
  {
    ConcatAt(cs, j);
  }

  /** All records together fill all blocks. */
  lemma {:induction false} RecordsFill(d: Disk, bs: seq<nat>)
    requires TiledBlocks(d, bs)
    ensures |Concat(Records(d, bs))| == 4096 * |bs|
  {
    if bs != [] {
      RecordsFill(d, bs[1..]);
      ConcatSplit(Chunks(d[bs[0]]), Records(d, bs[1..]));
    }
  }

  // ---------------------------------------------------------------------------
  // Editing one block
  // ---------------------------------------------------------------------------

  /** The records before and after an edit of block k, as one list with the edit in the middle. */
  lemma EditedRecords(d: Disk, bs: seq<nat>, k: nat, b: Block, l: seq<Bytes>, m: seq<Bytes>, m': seq<Bytes>,
                      r: seq<Bytes>)
      returns (before: seq<Bytes>, after: seq<Bytes>)
    requires TiledBlocks(d, bs) && Distinct(bs) && k < |bs| && Chunks(d[bs[k]]) == l + m + r
    requires AllWellFormed(l + m' + r) && b == Concat(l + m' + r)
    ensures TiledBlocks(d[bs[k] := b], bs)
    ensures Records(d, bs) == before + m + after && Records(d[bs[k] := b], bs) == before + m' + after
    ensures AllWellFormed(before) && AllWellFormed(after)
  {
    hide Chunks, Records, Tiled, WellFormed;
    var d1, pre, post := d[bs[k] := b], bs[..k], bs[k + 1..];
    ChunksOfConcat(l + m' + r);
    RecordsAround(d, bs, k);
    SameRecords(d, d1, pre);
    SameRecords(d, d1, post);
    assert TiledBlocks(d1, bs);
    RecordsAround(d1, bs, k);
    before, after := Records(d, pre) + l, r + Records(d, post);
    RecordsWellFormed(d, pre);
    RecordsWellFormed(d, post);
    Parts(l, m', r);
    assert Records(d, bs) == before + m + after;
    assert Records(d1, bs) == before + m' + after;
  }

  lemma Parts(l: seq<Bytes>, m: seq<Bytes>, r: seq<Bytes>)
    requires AllWellFormed(l + m + r)
    ensures AllWellFormed(l) && AllWellFormed(m) && AllWellFormed(r)
  {
    assert forall j :: 0 <= j < |l| ==> l[j] == (l + m + r)[j];
    assert forall j :: 0 <= j < |m| ==> m[j] == (l + m + r)[|l| + j];
    assert forall j :: 0 <= j < |r| ==> r[j] == (l + m + r)[|l| + |m| + j];
  }

  lemma RecordsAround(d: Disk, bs: seq<nat>, k: nat)
    requires TiledBlocks(d, bs) && k < |bs|
    ensures TiledBlocks(d, bs[..k]) && TiledBlocks(d, bs[k + 1..])
    ensures Records(d, bs) == Records(d, bs[..k]) + Chunks(d[bs[k]]) + Records(d, bs[k + 1..])
  {
    hide Chunks, Records, Tiled;
    var pre, post := bs[..k], bs[k + 1..];
    assert forall j :: 0 <= j < |post| ==> post[j] == bs[k + 1 + j];
    OneBlock(d, bs[k]);
    RecordsSplit(d, pre, [bs[k]]);
    RecordsSplit(d, pre + [bs[k]], post);
    assert bs == pre + [bs[k]] + post;
  }

  lemma OneBlock(d: Disk, b: nat)
    requires b < |d| && Tiled(d[b])
    ensures Records(d, [b]) == Chunks(d[b])
  {
    assert [b][1..] == [];
  }

  /** An edit of a data block that leaves good records behind leaves a good directory. */
  lemma EditedDir(d: Disk, g: Geometry, ino: nat, k: nat, b: Block)
    requires DirOk(d, g, ino) && k < |Blocks(d, InodeBytes(d, g, ino))|
    requires var bs := Blocks(d, InodeBytes(d, g, ino)); var e := d[bs[k] := b];
             TiledBlocks(e, bs) && AllWellFormed(Records(e, bs)) && Unique(Records(e, bs))
    ensures var bs := Blocks(d, InodeBytes(d, g, ino)); var e := d[bs[k] := b];
            DirOk(e, g, ino) && DirMap(e, g, ino) == MapOf(Records(e, bs)) && Touched(e, g, ino) == Touched(d, g, ino)
            && Blocks(e, InodeBytes(e, g, ino)) == bs
  {
    hide Records, Chunks, Tiled, MapOf, Unique, Pointer, WellFormed;
    var i := InodeBytes(d, g, ino);
    var bs := Blocks(d, i);
    var e := d[bs[k] := b];
    assert InodeBytes(e, g, ino) == i;
    SamePointers(d, e, i);
    assert Blocks(e, i) == bs;
    assert Touched(e, g, ino) == Touched(d, g, ino);
  }

  ghost predicate GoodEntry(name: Name, child: nat) { 1 <= |name| < 256 && 0 < child < 0x1_0000_0000 }

  /** The records of a block once record i has been split. */
  ghost function Inserted(cs: seq<Bytes>, i: nat, name: Name, child: nat, ftype: Byte): seq<Bytes>
    requires AllWellFormed(cs) && i < |cs| && |cs[i]| <= BLOCK && GoodEntry(name, child) && HasRoom(cs[i], |name|)
  {
    cs[..i] + Split(cs[i], name, child, ftype) + cs[i + 1..]
  }

  /** Adding an absent name to a record with room adds exactly that name to the map. */
  lemma AddedInPlace(d: Disk, g: Geometry, ino: nat, k: nat, i: nat, name: Name, child: nat, ftype: Byte)
    requires DirOk(d, g, ino) && k < |Blocks(d, InodeBytes(d, g, ino))| && GoodEntry(name, child)
    requires var cs := Chunks(d[Blocks(d, InodeBytes(d, g, ino))[k]]);
             i < |cs| && |cs[i]| <= BLOCK && HasRoom(cs[i], |name|)
    requires name !in DirMap(d, g, ino)
    ensures var p := Blocks(d, InodeBytes(d, g, ino))[k];
            var b := Concat(Inserted(Chunks(d[p]), i, name, child, ftype));
            && |b| == 4096 && var e := d[p := b];
            && DirOk(e, g, ino) && Touched(e, g, ino) == Touched(d, g, ino)
            && DirMap(e, g, ino) == DirMap(d, g, ino)[name := child]
  {
    hide Records, Chunks, MapOf, Unique, Split, WellFormed, HasRoom, InodeBytes;
    var bs := Blocks(d, InodeBytes(d, g, ino));
    var cs := Chunks(d[bs[k]]);
    var l, c, r := cs[..i], cs[i], cs[i + 1..];
    var m := Split(c, name, child, ftype);
    assert cs == l + [c] + r;
    Parts(l, [c], r);
    var b := Reblocked(d[bs[k]], l, [c], m, r, name, child, ftype);
    ghost var before, after := EditedRecords(d, bs, k, b, l, [c], m, r);
    MapOfAround(before, [c], after);
    SplitMaps(c, name, child, ftype);
    MapGains(before, [c], m, after, name, child);
    EditedDir(d, g, ino, k, b);
  }

  lemma Reblocked(before: Block, l: seq<Bytes>, m: seq<Bytes>, m': seq<Bytes>, r: seq<Bytes>, name: Name, child: nat,
                  ftype: Byte)
      returns (b: Block)
    requires before == Concat(l + m + r) && |m| == 1 && WellFormed(m[0]) && |m[0]| <= BLOCK && GoodEntry(name, child)
    requires HasRoom(m[0], |name|) && m' == Split(m[0], name, child, ftype)
    requires AllWellFormed(l + m + r)
    ensures b == Concat(l + m' + r) && AllWellFormed(l + m' + r)
  {
    Parts(l, m, r);
    SplitFits(m[0], name, child, ftype);
    SameLength(l, m, m', r);
    b := Concat(l + m' + r);
  }

  lemma SameLength(l: seq<Bytes>, m: seq<Bytes>, m': seq<Bytes>, r: seq<Bytes>)
    requires |Concat(m)| == |Concat(m')|
    ensures |Concat(l + m + r)| == |Concat(l + m' + r)|
  {
    ConcatSplit(l, m);
    ConcatSplit(l + m, r);
    ConcatSplit(l, m');
    ConcatSplit(l + m', r);
  }

  /** The records of a block once record i has been removed. */
  ghost function Removed(cs: seq<Bytes>, i: nat): seq<Bytes>
    requires AllWellFormed(cs) && i < |cs| && |Concat(cs)| <= BLOCK
  {
    var p := if i == 0 then [] else [cs[i - 1]];
    PairFits(cs, i);
    cs[..i - |p|] + Merged(p, cs[i]) + cs[i + 1..]
  }

  lemma PairFits(cs: seq<Bytes>, i: nat)
    requires i < |cs| && |Concat(cs)| <= BLOCK
    ensures var p := if i == 0 then [] else [cs[i - 1]];
            cs == cs[..i - |p|] + (p + [cs[i]]) + cs[i + 1..] && |Concat(p)| + |cs[i]| <= BLOCK
            && |Concat(p + [cs[i]])| == |Concat(p)| + |cs[i]|
  {
    ConcatAt(cs, i);
    var p := if i == 0 then [] else [cs[i - 1]];
    if i > 0 {
      ConcatAt(cs[..i], i - 1);
      assert cs[..i][..i] == cs[..i] && cs[..i][..i - 1] == cs[..i - 1];
      assert Concat([cs[i - 1]]) == cs[i - 1] + Concat([]);
    }
    ConcatSplit(p, [cs[i]]);
    assert Concat([cs[i]]) == cs[i] + Concat([]);
    assert cs == cs[..i - |p|] + (p + [cs[i]]) + cs[i + 1..];
  }

  /** Removing a record removes exactly its name from the map. */
  lemma RemovedInPlace(d: Disk, g: Geometry, ino: nat, k: nat, i: nat, name: Name, child: nat)
    requires DirOk(d, g, ino) && k < |Blocks(d, InodeBytes(d, g, ino))| && child != 0
    requires var cs := Chunks(d[Blocks(d, InodeBytes(d, g, ino))[k]]);
             i < |cs| && Matches(cs[i], name, child)
    ensures name in DirMap(d, g, ino) && DirMap(d, g, ino)[name] == child
    ensures var p := Blocks(d, InodeBytes(d, g, ino))[k]; var b := Concat(Removed(Chunks(d[p]), i));
            && |b| == 4096 && var e := d[p := b];
            && DirOk(e, g, ino) && Touched(e, g, ino) == Touched(d, g, ino)
            && DirMap(e, g, ino) == DirMap(d, g, ino) - {name}
  {
    hide Records, Chunks, MapOf, Unique, Merged, InodeBytes, Pointer, U32, U16;
    var bs := Blocks(d, InodeBytes(d, g, ino));
    var cs := Chunks(d[bs[k]]);
    var p := if i == 0 then [] else [cs[i - 1]];
    var l, m, r := cs[..i - |p|], p + [cs[i]], cs[i + 1..];
    PairFits(cs, i);
    Parts(l, m, r);
    var m' := Merged(p, cs[i]);
    RecordsAround(d, bs, k);
    MappedInBlock(d, bs, k, i, name, child);
    MergedFits(p, cs[i]);
    SameLength(l, m, m', r);
    var b := Concat(l + m' + r);
    var before, after := EditedRecords(d, bs, k, b, l, m, m', r);
    MapOfAround(before, m, after);
    MergedMaps(p, cs[i]);
    MapLoses(before, m, m', after, name);
    EditedDir(d, g, ino, k, b);
  }

  lemma MappedInBlock(d: Disk, bs: seq<nat>, k: nat, i: nat, name: Name, child: nat)
    requires TiledBlocks(d, bs) && k < |bs| && AllWellFormed(Records(d, bs)) && Unique(Records(d, bs)) && child != 0
    requires i < |Chunks(d[bs[k]])| && Matches(Chunks(d[bs[k]])[i], name, child)
    ensures name in MapOf(Records(d, bs)) && MapOf(Records(d, bs))[name] == child
  {
    RecordsAround(d, bs, k);
    var all := Records(d, bs);
    assert all[|Records(d, bs[..k])| + i] == Chunks(d[bs[k]])[i];
    MappedByRecord(all, name, child);
  }

  // ---------------------------------------------------------------------------
  // Growing by one block
  // ---------------------------------------------------------------------------

  /** The inode's block with one more direct pointer, 4096 bytes and eight sectors. */
  function GrownInode(b: Block, o: nat, n: nat, p: nat): (r: Block)
    requires o + 256 <= 4096 && n < DIRECT && p < TXN_LIMIT && U32(b, o + 4) + 4096 < TXN_LIMIT
  {
    var b1 := Put32(b, o + 40 + 4 * n, p);
    var b2 := Put32(b1, o + 4, U32(b, o + 4) + 4096);
    Put32(b2, o + 28, (U32(b, o + 28) + 8) % 0x1_0000_0000)
  }

  lemma GrownFields(b: Block, o: nat, n: nat, p: nat)
    requires o + 256 <= 4096 && n < DIRECT && p < TXN_LIMIT && U32(b, o + 4) + 4096 < TXN_LIMIT
    ensures var r := GrownInode(b, o, n, p);
            && U32(r, o + 4) == U32(b, o + 4) + 4096 && U32(r, o + 40 + 4 * n) == p
            && U32(r, o + 28) == (U32(b, o + 28) + 8) % 0x1_0000_0000
            && U16(r, o) == U16(b, o) && forall k: nat :: k < 15 && k != n ==>
              U32(r, o + 40 + 4 * k) == U32(b, o + 40 + 4 * k)
  {
    hide U32, Put32;
    var b1 := Put32(b, o + 40 + 4 * n, p);
    var b2 := Put32(b1, o + 4, U32(b, o + 4) + 4096);
    var s := (U32(b, o + 28) + 8) % 0x1_0000_0000;
    forall k: nat | k < 15
      ensures U32(GrownInode(b, o, n, p), o + 40 + 4 * k) == if k == n then p else U32(b, o + 40 + 4 * k)
    {
      if k != n { Put32Elsewhere(b, o + 40 + 4 * n, p, o + 40 + 4 * k); }
      Put32Elsewhere(b1, o + 4, U32(b, o + 4) + 4096, o + 40 + 4 * k);
      Put32Elsewhere(b2, o + 28, s, o + 40 + 4 * k);
    }
    Put32Elsewhere(b2, o + 28, s, o + 4);
    Put16Kept(b, o + 40 + 4 * n, p, o);
    Put16Kept(b1, o + 4, U32(b, o + 4) + 4096, o);
    Put16Kept(b2, o + 28, s, o);
  }

  /** The bytes of the three fields, and no others, are written. */
  lemma GrownElsewhere(b: Block, o: nat, n: nat, p: nat)
    requires o + 256 <= 4096 && n < DIRECT && p < TXN_LIMIT && U32(b, o + 4) + 4096 < TXN_LIMIT
    ensures forall k ::
      0 <= k < 4096 && !(o + 4 <= k < o + 8) && !(o + 28 <= k < o + 32) && !(o + 40 + 4 * n <= k < o + 44 + 4 * n) ==>
      GrownInode(b, o, n, p)[k] == b[k]
  {
    hide U32;
  }

  lemma Put16Kept(b: Bytes, o: nat, v: nat, p: nat)
    requires o + 4 <= |b| && v < TXN_LIMIT && p + 2 <= o
    ensures U16(Put32(b, o, v), p) == U16(b, p)
  {
  }

  /** A field of the inode, read in its block. */
  lemma FieldAt(b: Block, o: nat, p: nat)
    requires o + 256 <= 4096 && p + 4 <= 256
    ensures U32(b[o..o + 256], p) == U32(b, o + p) && U16(b[o..o + 256], p) == U16(b, o + p)
  {
  }

  lemma GrownBytes(b: Block, o: nat, n: nat, p: nat)
    requires o + 256 <= 4096 && n < DIRECT && p < TXN_LIMIT && U32(b, o + 4) + 4096 < TXN_LIMIT
    ensures var i, j := b[o..o + 256], GrownInode(b, o, n, p)[o..o + 256];
            && Size(j) == Size(i) + 4096 && IsDir(j) == IsDir(i) && Direct(j, n) == p
            && U32(j, 28) == (U32(i, 28) + 8) % 0x1_0000_0000
            && (forall k: nat :: k < 15 && k != n ==> Direct(j, k) == Direct(i, k))
            && forall k :: 0 <= k < 256 && k / 4 != 1 && k / 4 != 7 && k / 4 != 10 + n ==> j[k] == i[k]
    ensures forall k :: 0 <= k < 4096 && !(o <= k < o + 256) ==> GrownInode(b, o, n, p)[k] == b[k]
  {
    hide U32, U16, GrownInode;
    GrownFields(b, o, n, p);
    GrownElsewhere(b, o, n, p);
    var r := GrownInode(b, o, n, p);
    FieldAt(b, o, 28);
    FieldAt(r, o, 28);
    var i, j := b[o..o + 256], r[o..o + 256];
    FieldAt(b, o, 4);
    FieldAt(r, o, 4);
    FieldAt(b, o, 0);
    FieldAt(r, o, 0);
    forall k: nat | k < 15 ensures Direct(j, k) == if k == n then p else Direct(i, k) {
      FieldAt(b, o, 40 + 4 * k);
      FieldAt(r, o, 40 + 4 * k);
      assert o + (40 + 4 * k) == o + 40 + 4 * k;
    }
  }

  /** A new directory block: one entry over all of it. */
  function FreshBlock(name: Name, child: nat, ftype: Byte): Block
    requires |name| < 256 && child < TXN_LIMIT
  {
    Entry(ZeroBlock(), name, child, ftype)
  }

  lemma FreshBlockMaps(name: Name, child: nat, ftype: Byte)
    requires GoodEntry(name, child)
    ensures var b := FreshBlock(name, child, ftype);
            Tiled(b) && Chunks(b) == [b] && AllWellFormed([b]) && MapOf([b]) == map[name := child] && Unique([b])
  {
    var b := FreshBlock(name, child, ftype);
    EntryMaps(ZeroBlock(), name, child, ftype);
    assert Concat([b]) == b + Concat([]) == b;
    ChunksOfConcat([b]);
  }

  /** A block the allocator may hand to the directory. */
  ghost predicate Spare(d: Disk, g: Geometry, ino: nat, p: nat)
    requires Readable(d, g, ino)
  {
    0 < p < |d| && p < TXN_LIMIT && p !in Touched(d, g, ino) && !InLog(g.log, MAX_TXN, p)
  }

  ghost function Grown(d: Disk, g: Geometry, ino: nat, p: nat, name: Name, child: nat, ftype: Byte): Disk
    requires Readable(d, g, ino) && p < TXN_LIMIT && GoodEntry(name, child) && p < |d|
    requires Size(InodeBytes(d, g, ino)) / 4096 < DIRECT
  {
    var ib := InodeBlock(g, ino);
    FieldAt(d[ib], InodeOffset(ino), 4);
    var n := Size(InodeBytes(d, g, ino)) / 4096;
    d[p := FreshBlock(name, child, ftype)][ib := GrownInode(d[ib], InodeOffset(ino), n, p)]
  }

  lemma GrownBlocks(d: Disk, g: Geometry, ino: nat, p: nat, name: Name, child: nat, ftype: Byte)
    requires DirOk(d, g, ino) && Spare(d, g, ino, p) && GoodEntry(name, child)
    requires Size(InodeBytes(d, g, ino)) / 4096 < DIRECT
    ensures var e := Grown(d, g, ino, p, name, child, ftype);
            && Readable(e, g, ino) && IsDir(InodeBytes(e, g, ino)) && Size(InodeBytes(e, g, ino)) % 4096 == 0
            && Blocks(e, InodeBytes(e, g, ino)) == Blocks(d, InodeBytes(d, g, ino)) + [p]
            && PointerBlocks(e, InodeBytes(e, g, ino)) == PointerBlocks(d, InodeBytes(d, g, ino))
            && e[p] == FreshBlock(name, child, ftype)
            && forall b :: 0 <= b < |d| && b != p && b != InodeBlock(g, ino) ==> e[b] == d[b]
  {
    hide U32, U16, GrownInode, FreshBlock, Records, Tiled, Unique, WellFormed, Word;
    var ib, o, n := InodeBlock(g, ino), InodeOffset(ino), Size(InodeBytes(d, g, ino)) / 4096;
    var e := Grown(d, g, ino, p, name, child, ftype);
    assert ib in Touched(d, g, ino);
    FieldAt(d[ib], o, 4);
    GrownBytes(d[ib], o, n, p);
    assert |e| == |d| && e[ib] == GrownInode(d[ib], o, n, p);
    var i, j := InodeBytes(d, g, ino), InodeBytes(e, g, ino);
    assert j == e[ib][o..o + 256] && i == d[ib][o..o + 256];
    var q := Direct(i, 13);
    assert q in PointerBlocks(d, i) && q in Touched(d, g, ino);
    assert 0 < q < |d| ==> e[q] == d[q];
    assert Size(j) / 4096 == n + 1;
    forall k | 0 <= k < n + 1 ensures Blocks(e, j)[k] == (Blocks(d, i) + [p])[k] {
    }
  }

  /** A directory with no room grows by a block that holds the new entry. */
  lemma AddedByGrowing(d: Disk, g: Geometry, ino: nat, p: nat, name: Name, child: nat, ftype: Byte)
    requires DirOk(d, g, ino) && Spare(d, g, ino, p) && GoodEntry(name, child)
    requires Size(InodeBytes(d, g, ino)) / 4096 < DIRECT && name !in DirMap(d, g, ino)
    ensures var e := Grown(d, g, ino, p, name, child, ftype);
            && DirOk(e, g, ino) && DirMap(e, g, ino) == DirMap(d, g, ino)[name := child]
            && Touched(e, g, ino) == Touched(d, g, ino) + {p}
  {
    hide InodeBytes, GrownInode, FreshBlock, Records, Chunks, MapOf, Unique, Tiled, WellFormed, Pointer, PointerBlocks;
    var e, i := Grown(d, g, ino, p, name, child, ftype), InodeBytes(d, g, ino);
    var bs := Blocks(d, i);
    GrownBlocks(d, g, ino, p, name, child, ftype);
    FreshBlockMaps(name, child, ftype);
    assert forall k :: 0 <= k < |bs| ==> bs[k] in Touched(d, g, ino);
    SameRecords(d, e, bs);
    OneBlock(e, p);
    RecordsSplit(e, bs, [p]);
    var b := FreshBlock(name, child, ftype);
    MapOfSplit(Records(d, bs), [b]);
    ElemsAppend(bs, p);
  }

  // ---------------------------------------------------------------------------
  // Directories and the journal
  // ---------------------------------------------------------------------------

  /** Room for the largest log, and block numbers of 32 bits. */
  ghost predicate Mountable(d: Disk, g: Geometry) { 0 < g.log && g.log + MAX_TXN + 2 <= |d| <= TXN_LIMIT }

  /** A transaction whose updates may be logged on this disk. */
  lemma TxnFits(d: Disk, g: Geometry, txn: Txn)
    requires Mountable(d, g) && 1 <= |txn| <= MAX_TXN
    requires forall i :: 0 <= i < |txn| ==> txn[i].block < |d| && !InLog(g.log, MAX_TXN, txn[i].block)
    ensures Fits(d, g.log, txn)
  {
  }

  ghost predicate Names(us: Txn, b: nat) { exists k :: 0 <= k < |us| && us[k].block == b }

  /** Updates that write to the blocks of s, if at all, only blocks that later updates write anyway, or
      the inode's block, with these 256 bytes where the inode lies. */
  ghost predicate Neutral(us: Txn, later: Txn, s: set<nat>, g: Geometry, ino: nat, i: Bytes)
    requires Located(g, ino)
  {
    forall k :: 0 <= k < |us| && us[k].block in s ==> WritesInode(us[k], g, ino, i) || Names(later, us[k].block)
  }

  ghost predicate WritesInode(u: Update, g: Geometry, ino: nat, i: Bytes)
    requires Located(g, ino)
  {
    u.block == InodeBlock(g, ino) && u.data[InodeOffset(ino)..InodeOffset(ino) + 256] == i
  }

  lemma {:induction false} NeutralInode(d: Disk, g: Geometry, ino: nat, us: Txn, later: Txn, s: set<nat>)
    requires Readable(d, g, ino) && InodeBlock(g, ino) in s && !Names(later, InodeBlock(g, ino))
    requires Neutral(us, later, s, g, ino, InodeBytes(d, g, ino))
    ensures InodeBytes(Perform(d, us), g, ino) == InodeBytes(d, g, ino)
  {
    if us != [] {
      var u := us[|us| - 1];
      assert u.block == InodeBlock(g, ino) ==> WritesInode(u, g, ino, InodeBytes(d, g, ino));
      NeutralInode(d, g, ino, us[..|us| - 1], later, s);
    }
  }

  lemma {:induction false} InodeAgrees(d: Disk, e: Disk, g: Geometry, ino: nat, us: Txn)
    requires Readable(d, g, ino) && |e| == |d| && InodeBytes(e, g, ino) == InodeBytes(d, g, ino)
    ensures InodeBytes(Perform(e, us), g, ino) == InodeBytes(Perform(d, us), g, ino)
  {
    if us != [] { InodeAgrees(d, e, g, ino, us[..|us| - 1]); }
  }

  /** Before the updates of an edit others may write the inode's block, if they keep the inode or the
      edit writes the block itself. */
  lemma InodeThrough(d: Disk, g: Geometry, ino: nat, before: Txn, txn: Txn, s: set<nat>)
    requires Readable(d, g, ino) && InodeBlock(g, ino) in s
    requires Neutral(before, txn, s, g, ino, InodeBytes(d, g, ino))
    ensures InodeBytes(Perform(Perform(d, before), txn), g, ino) == InodeBytes(Perform(d, txn), g, ino)
  {
    hide WritesInode, Perform;
    if Names(txn, InodeBlock(g, ino)) {
      PerformAgrees(Perform(d, before), d, txn, InodeBlock(g, ino));
    } else {
      NeutralInode(d, g, ino, before, txn, s);
      InodeAgrees(d, Perform(d, before), g, ino, txn);
    }
  }

  /** Other updates around those of one edit change nothing about it: to blocks the directory does not
      depend on, to blocks the edit writes later, and to the block of its inode for other inodes there. */
  lemma OtherUpdates(d: Disk, g: Geometry, ino: nat, before: Txn, txn: Txn, after: Txn)
    requires Readable(d, g, ino) && DirOk(Perform(d, txn), g, ino)
    requires Neutral(before, txn, Touched(Perform(d, txn), g, ino), g, ino, InodeBytes(d, g, ino))
    requires Neutral(after, [], Touched(Perform(d, txn), g, ino), g, ino, InodeBytes(Perform(d, txn), g, ino))
    ensures var e, t := Perform(d, before + txn + after), Perform(d, txn);
            DirOk(e, g, ino) && DirMap(e, g, ino) == DirMap(t, g, ino) && Touched(e, g, ino) == Touched(t, g, ino)
  {
    hide DirOk, DirMap, InodeBytes, WritesInode, Perform;
    var t, s := Perform(d, txn), Touched(Perform(d, txn), g, ino);
    var a := Perform(d, before);
    var e := Perform(a, txn);
    PerformSplit(d, before, txn);
    PerformSplit(d, before + txn, after);
    TouchedInode(t, g, ino);
    InodeThrough(d, g, ino, before, txn, s);
    NeutralInode(e, g, ino, after, [], s);
    forall b | b in s && b != InodeBlock(g, ino) && b < |d| ensures Perform(e, after)[b] == t[b] {
      if !Names(txn, b) { NeutralElsewhere(d, g, ino, before, txn, s, InodeBytes(d, g, ino), b); }
      PerformAgrees(a, d, txn, b);
      NeutralElsewhere(e, g, ino, after, [], s, InodeBytes(t, g, ino), b);
    }
    SameDir(t, Perform(e, after), g, ino);
  }

  lemma NeutralElsewhere(d: Disk, g: Geometry, ino: nat, us: Txn, later: Txn, s: set<nat>, i: Bytes, b: nat)
    requires Located(g, ino) && Neutral(us, later, s, g, ino, i) && b in s && b != InodeBlock(g, ino) && b < |d|
    requires !Names(later, b)
    ensures Perform(d, us)[b] == d[b]
  {
    PerformElsewhere(d, us, b);
  }

  lemma SameOutsideDir(d: Disk, e: Disk, g: Geometry, ino: nat, n: nat)
    requires DirOk(d, g, ino) && SameOutside(e, d, g.log, n) && n <= MAX_TXN
    ensures DirOk(e, g, ino) && DirMap(e, g, ino) == DirMap(d, g, ino)
  {
    assert InodeBlock(g, ino) in Touched(d, g, ino);
    SameDir(d, e, g, ino);
  }

  /** A commit makes the directory what the transaction says, and leaves replay nothing to do. */
  lemma DirAfterCommit(d: Disk, g: Geometry, ino: nat, txn: Txn, seqNo: nat)
    requires Fits(d, g.log, txn) && seqNo < TXN_LIMIT && DirOk(Perform(d, txn), g, ino)
    ensures var e := Perform(d, CommitWrites(g.log, txn, seqNo));
            Settled(e, g.log) && DirOk(e, g, ino) && DirMap(e, g, ino) == DirMap(Perform(d, txn), g, ino)
  {
    CommitSettles(d, g.log, txn, seqNo);
    assert CommitWrites(g.log, txn, seqNo)[..2 * |txn| + 2] == CommitWrites(g.log, txn, seqNo);
    SameOutsideDir(Perform(d, txn), Perform(d, CommitWrites(g.log, txn, seqNo)), g, ino, |txn|);
  }

  /** A crash before the commit wrote anything, or after it logged everything, leaves the directory
      as it was or as the transaction says; never anything between. */
  lemma DirAfterCrash(d: Disk, g: Geometry, ino: nat, txn: Txn, seqNo: nat, k: nat)
    requires Fits(d, g.log, txn) && seqNo < TXN_LIMIT && k <= 2 * |txn| + 2 && (k == 0 || k > |txn|)
    requires Settled(d, g.log) && DirOk(d, g, ino) && DirOk(Perform(d, txn), g, ino)
    ensures var r := Replay(CrashAt(d, g.log, txn, seqNo, k), g.log);
            DirOk(r, g, ino) && DirMap(r, g, ino) == DirMap(if k == 0 then d else Perform(d, txn), g, ino)
  {
    if k == 0 {
      NothingWritten(d, g.log, txn, seqNo);
    } else {
      CrashThenReplay(d, g.log, txn, seqNo, k);
      SameOutsideDir(Perform(d, txn), Replay(CrashAt(d, g.log, txn, seqNo, k), g.log), g, ino, |txn|);
    }
  }

  // ---------------------------------------------------------------------------
  // Lookup, record by record
  // ---------------------------------------------------------------------------

  /** The scan stands behind the first j records, and none of them carries the name. */
  ghost predicate Scanned(d: Disk, bs: seq<nat>, j: nat, off: nat, name: Name) {
    && TiledBlocks(d, bs) && j <= |Records(d, bs)| && off == |Concat(Records(d, bs)[..j])|
    && AllWellFormed(Records(d, bs)) && name !in MapOf(Records(d, bs)[..j])
  }

  predicate NamedAt(b: Block, o: nat, name: Name)
    requires o + 8 <= 4096 && (U32(b, o) != 0 && b[o + 6] == |name| ==> o + 8 + |name| <= 4096)
  {
    U32(b, o) != 0 && b[o + 6] == |name| && b[o + 8..o + 8 + |name|] == name
  }

  lemma ScanStep(d: Disk, bs: seq<nat>, j: nat, off: nat, name: Name)
    requires Scanned(d, bs, j, off, name) && off < 4096 * |bs|
    ensures off / 4096 < |bs| && bs[off / 4096] < |d| && off % 4096 + 8 <= 4096
    ensures var b, o := d[bs[off / 4096]], off % 4096;
            && 8 <= U16(b, o + 4) <= 4096 - o
            && (U32(b, o) != 0 && b[o + 6] == |name| ==> o + 8 + |name| <= 4096)
            && if NamedAt(b, o, name) then
                 name in MapOf(Records(d, bs)) && MapOf(Records(d, bs))[name] == U32(b, o)
               else Scanned(d, bs, j + 1, off + U16(b, o + 4), name)
  {
    hide Records, Chunks, U16, U32, MapOf, Concat, Tiled, AllWellFormed, WellFormed;
    var all := Records(d, bs);
    RecordsFill(d, bs);
    EndOfRecords(all, j);
    RecordPlace(d, bs, j);
    var c := all[j];
    var b, o := d[bs[off / 4096]], off % 4096;
    PieceFields(b, o, c);
    MapOfNext(all, j, name);
    if U32(b, o) != 0 && b[o + 6] == |name| { assert b[o + 8..o + 8 + |name|] == NameIn(c); }
  }

  /** The first record that carries the name decides what the name maps to. */
  lemma MapOfNext(all: seq<Bytes>, j: nat, name: Name)
    requires AllWellFormed(all) && j < |all| && name !in MapOf(all[..j])
    ensures AllWellFormed(all[..j + 1]) && WellFormed(all[j])
    ensures var c := all[j];
            if Used(c) && NameIn(c) == name then name in MapOf(all) && MapOf(all)[name] == Inode(c)
            else name !in MapOf(all[..j + 1])
  {
    hide MapOf, Unique, U16, U32, WellFormed, AllWellFormed;
    var pre, c, post := all[..j], all[j], all[j + 1..];
    assert all == pre + [c] + post;
    assert all[..j + 1] == pre + [c];
    Parts(pre, [c], post);
    HeadWellFormed(c);
    MapOfOne(pre, c, post);
  }

  lemma HeadWellFormed(c: Bytes)
    ensures AllWellFormed([c]) <==> WellFormed(c)
  {
    assert AllWellFormed([c]) ==> WellFormed([c][0]);
  }

  lemma MapOfOne(pre: seq<Bytes>, c: Bytes, post: seq<Bytes>)
    requires AllWellFormed(pre) && WellFormed(c) && AllWellFormed(post)
    ensures AllWellFormed(pre + [c]) && AllWellFormed(pre + [c] + post)
    ensures forall name :: name !in MapOf(pre) ==>
      if Used(c) && NameIn(c) == name then name in MapOf(pre + [c] + post) && MapOf(pre + [c] + post)[name] == Inode(c)
      else name !in MapOf(pre + [c])
  {
    hide MapOf, Unique, U16, U32, WellFormed;
    SingleMap(c);
    MapOfAround(pre, [c], post);
    MapOfSplit(pre, [c]);
  }

  lemma PieceFields(b: Block, o: nat, c: Bytes)
    requires o + |c| <= 4096 && b[o..o + |c|] == c && WellFormed(c)
    ensures |c| >= 8 && U32(b, o) == Inode(c) && U16(b, o + 4) == RecLen(c) == |c| && b[o + 6] == c[6]
    ensures Used(c) ==> 8 + c[6] <= |c| && |NameIn(c)| == c[6] && b[o + 8..o + 8 + c[6]] == NameIn(c)
  {
    assert forall k :: 0 <= k < |c| ==> b[o + k] == c[k];
    assert b[o + 0] == c[0] && b[o + 1] == c[1] && b[o + 2] == c[2] && b[o + 3] == c[3];
    assert b[o + 4] == c[4] && b[o + 5] == c[5] && b[o + 6] == c[6];
  }

  lemma ScanStart(d: Disk, g: Geometry, ino: nat, name: Name)
    requires DirOk(d, g, ino)
    ensures Scanned(d, Blocks(d, InodeBytes(d, g, ino)), 0, 0, name)
  {
  }

  lemma ScanEnd(d: Disk, bs: seq<nat>, j: nat, off: nat, name: Name)
    requires Scanned(d, bs, j, off, name) && off >= 4096 * |bs|
    ensures name !in MapOf(Records(d, bs))
  {
    RecordsFill(d, bs);
    EndOfRecords(Records(d, bs), j);
    assert Records(d, bs)[..|Records(d, bs)|] == Records(d, bs);
  }

  /** Only behind the last record is the offset the length of all records. */
  lemma EndOfRecords(cs: seq<Bytes>, j: nat)
    requires AllWellFormed(cs) && j <= |cs|
    ensures |Concat(cs[..j])| == |Concat(cs)| <==> j == |cs|
    ensures |Concat(cs[..j])| <= |Concat(cs)|
  {
    assert cs[..|cs|] == cs;
    if j < |cs| {
      ConcatAt(cs, j);
      assert WellFormed(cs[j]);
    }
  }

  // ---------------------------------------------------------------------------
  // Other directories
  // ---------------------------------------------------------------------------

  /** Edits of blocks another directory does not depend on leave it as it was. */
  lemma OthersKept(d: Disk, g: Geometry, other: nat, txn: Txn)
    requires DirOk(d, g, other) && forall i :: 0 <= i < |txn| ==> txn[i].block !in Touched(d, g, other)
    ensures DirOk(Perform(d, txn), g, other) && DirMap(Perform(d, txn), g, other) == DirMap(d, g, other)
    ensures Touched(Perform(d, txn), g, other) == Touched(d, g, other)
  {
    forall b | b in Touched(d, g, other) && b < |d| ensures Perform(d, txn)[b] == d[b] { PerformElsewhere(d, txn, b); }
    assert InodeBlock(g, other) in Touched(d, g, other);
    SameDir(d, Perform(d, txn), g, other);
  }

  /** A directory that grows leaves every other as it was, also one whose inode is in the same block. */
  lemma GrowingKeepsOthers(d: Disk, g: Geometry, ino: nat, p: nat, name: Name, child: nat, ftype: Byte, other: nat)
    requires DirOk(d, g, ino) && Spare(d, g, ino, p) && GoodEntry(name, child)
    requires Size(InodeBytes(d, g, ino)) / 4096 < DIRECT
    requires DirOk(d, g, other) && p !in Touched(d, g, other)
    requires TablesApart(g) && other != ino
    requires InodeBlock(g, other) != InodeBlock(g, ino) ==> InodeBlock(g, ino) !in Touched(d, g, other)
    ensures var e := Grown(d, g, ino, p, name, child, ftype);
            DirOk(e, g, other) && DirMap(e, g, other) == DirMap(d, g, other)
  {
    hide DirOk, DirMap, PointerBlocks, GrownInode, FreshBlock, TablesApart;
    TouchedInode(d, g, ino);
    TouchedInode(d, g, other);
    InodesApart(g, ino, other);
    var e := Grown(d, g, ino, p, name, child, ftype);
    var ib, o, n := InodeBlock(g, ino), InodeOffset(ino), Size(InodeBytes(d, g, ino)) / 4096;
    SizeFits(d, g, ino);
    if InodeBlock(g, other) == ib { GrownInodeKeeps(d[ib], o, n, p, InodeOffset(other)); }
    SameDir(d, e, g, other);
  }

  lemma TouchedInode(d: Disk, g: Geometry, ino: nat)
    requires DirOk(d, g, ino)
    ensures Readable(d, g, ino) && InodeBlock(g, ino) in Touched(d, g, ino)
  {
  }

  lemma SizeFits(d: Disk, g: Geometry, ino: nat)
    requires Readable(d, g, ino)
    ensures Size(InodeBytes(d, g, ino)) == U32(d[InodeBlock(g, ino)], InodeOffset(ino) + 4)
  {
    FieldAt(d[InodeBlock(g, ino)], InodeOffset(ino), 4);
  }

  /** The fields written lie in the inode's own 256 bytes. */
  lemma GrownInodeKeeps(b: Block, o: nat, n: nat, p: nat, o2: nat)
    requires o + 256 <= 4096 && n < DIRECT && p < TXN_LIMIT && U32(b, o + 4) + 4096 < TXN_LIMIT
    requires o2 + 256 <= 4096 && o % 256 == 0 && o2 % 256 == 0 && o2 != o
    ensures GrownInode(b, o, n, p)[o2..o2 + 256] == b[o2..o2 + 256]
  {
    hide U32;
    assert o2 + 256 <= o || o + 256 <= o2;
    var r := GrownInode(b, o, n, p);
    forall k | o2 <= k < o2 + 256 ensures r[k] == b[k] {
    }
  }
}
