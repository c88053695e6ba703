/** Reading a FAT16 file at an offset (fs/fat.c, fat_vfs_read_at). */
module Fat {
  import opened Bytes

  type Sector = s: Bytes | |s| == 512 witness seq(512, _ => 0)

  datatype File = File(used: bool, first: nat, size: nat)

  // ---------------------------------------------------------------------------
  // The file as the chain lays it out
  // ---------------------------------------------------------------------------

  /** A mounted volume: the cached FAT, and the geometry of the data area in sectors. */
  datatype Volume = Volume(fat: seq<nat>, perCluster: nat, dataStart: nat, disk: seq<Sector>)

  /** fat_next_cluster; entries the cache does not hold end the chain. */
  function Next(v: Volume, c: nat): nat { if c >= 0xFFF0 || c >= |v.fat| then 0xFFFF else v.fat[c] }

  /** The i-th cluster of a chain. */
  function Cluster(v: Volume, first: nat, i: nat): nat {
    if i == 0 then first else Next(v, Cluster(v, first, i - 1))
  }

  function Lba(v: Volume, c: nat): int { v.dataStart + (c - 2) * v.perCluster }

  /** Cluster 2 is the first of the data area, and every cluster starts where the one before ends. */
  lemma ClustersAdjoin(v: Volume, c: nat)
    ensures Lba(v, 2) == v.dataStart && Lba(v, c + 1) == Lba(v, c) + v.perCluster
  {
    assert (c + 1 - 2) * v.perCluster == (c - 2) * v.perCluster + v.perCluster;
  }

  /** The bytes of n sectors from lba on. */
  function Sectors(v: Volume, lba: nat, n: nat): (b: Bytes)
    requires lba + n <= |v.disk|
    ensures |b| == 512 * n
  {
    if n == 0 then [] else Sectors(v, lba, n - 1) + v.disk[lba + n - 1]
  }

  /** A cluster that lies in the cached FAT and on the disk. */
  predicate OnDisk(v: Volume, c: nat) {
    2 <= c < 0xFFF0 && c < |v.fat| && 0 <= Lba(v, c) && Lba(v, c) + v.perCluster <= |v.disk|
  }

  ghost predicate ChainOk(v: Volume, first: nat, n: nat) {
    v.perCluster > 0 && forall i: nat :: i < n ==> OnDisk(v, Cluster(v, first, i))
  }

  /** The first n clusters of a chain, end to end. */
  function Chain(v: Volume, first: nat, n: nat): Bytes
    requires ChainOk(v, first, n)
  {
    if n == 0 then []
    else
      assert OnDisk(v, Cluster(v, first, n - 1));
      Chain(v, first, n - 1) + Sectors(v, Lba(v, Cluster(v, first, n - 1)), v.perCluster)
  }

  /** File position at which cluster q of a file starts. */
  function Start(v: Volume, q: nat): nat { q * (v.perCluster * 512) }

  lemma Starts(v: Volume, q: nat, n: nat)
    ensures Start(v, 0) == 0 && Start(v, q + 1) == Start(v, q) + v.perCluster * 512
    ensures q <= n ==> Start(v, q) <= Start(v, n)
  {
    if q <= n { assert Start(v, n) == Start(v, q) + (n - q) * (v.perCluster * 512); }
  }

  /** The first n clusters of the chain are there, and they are enough for the file size or all. */
  ghost predicate FileOk(v: Volume, f: File, n: nat) {
    ChainOk(v, f.first, n) && (f.size <= Start(v, n) || Cluster(v, f.first, n) >= 0xFFF8)
  }

  /** Where the file ends: at its size, or with its chain. */
  function End(v: Volume, f: File, n: nat): nat { if f.size <= Start(v, n) then f.size else Start(v, n) }

  lemma {:induction false} SectorByte(v: Volume, lba: nat, n: nat, s: nat, k: nat)
    requires lba + n <= |v.disk| && s < n && k < 512
    ensures Sectors(v, lba, n)[512 * s + k] == v.disk[lba + s][k]
  {
    if s < n - 1 { SectorByte(v, lba, n - 1, s, k); }
  }

  lemma {:induction false} ChainLength(v: Volume, first: nat, n: nat)
    requires ChainOk(v, first, n)
    ensures |Chain(v, first, n)| == Start(v, n)
  {
    hide Start, Cluster, Sectors, OnDisk;
    Starts(v, 0, 0);
    if n > 0 {
      assert OnDisk(v, Cluster(v, first, n - 1));
      ChainLength(v, first, n - 1);
      Starts(v, n - 1, n - 1);
    }
  }

  /** Byte r of cluster q of the chain. */
  lemma {:induction false} ChainByte(v: Volume, first: nat, n: nat, q: nat, r: nat)
    requires ChainOk(v, first, n) && q < n && r < v.perCluster * 512
    ensures OnDisk(v, Cluster(v, first, q)) && Start(v, q) + r < |Chain(v, first, n)|
    ensures Chain(v, first, n)[Start(v, q) + r] == Sectors(v, Lba(v, Cluster(v, first, q)), v.perCluster)[r]
  {
    hide Start, Cluster, Sectors;
    assert OnDisk(v, Cluster(v, first, q));
    ChainLength(v, first, n - 1);
    ChainLength(v, first, n);
    Starts(v, n - 1, n - 1);
    if q < n - 1 { ChainByte(v, first, n - 1, q, r); }
  }

  /** The part of one sector that starts at byte k of sector s of cluster q. */
  lemma ChainSlice(v: Volume, first: nat, n: nat, q: nat, s: nat, k: nat, m: nat)
    requires ChainOk(v, first, n) && q < n && s < v.perCluster && k + m <= 512
    ensures OnDisk(v, Cluster(v, first, q)) && Start(v, q) + 512 * s + k + m <= |Chain(v, first, n)|
    ensures var pos := Start(v, q) + 512 * s + k;
            Chain(v, first, n)[pos..pos + m] == v.disk[Lba(v, Cluster(v, first, q)) + s][k..k + m]
  {
    hide Start, Cluster, Sectors, Chain, Lba, ChainOk;
    ChainByte(v, first, n, q, 0);
    ChainLength(v, first, n);
    Starts(v, q, q);
    Starts(v, q + 1, n);
    var c, pos := Cluster(v, first, q), Start(v, q) + 512 * s + k;
    var whole, part := Chain(v, first, n), v.disk[Lba(v, c) + s][k..k + m];
    forall i | 0 <= i < m ensures whole[pos + i] == part[i] {
      ChainByte(v, first, n, q, 512 * s + k + i);
      SectorByte(v, Lba(v, c), v.perCluster, s, k + i);
      assert Start(v, q) + (512 * s + k + i) == pos + i;
    }
    assert whole[pos..pos + m] == part;
  }

  // ---------------------------------------------------------------------------
  // The driver
  // ---------------------------------------------------------------------------

  class Driver {
    var v: Volume
    var files: seq<File>

    /** fat_vfs_read_at, for an open file of n clusters: exactly the bytes of the chain from `offset`
        on, up to `len` of them, no further than the file size and the end of the chain. */
    method ReadAt(fd: int, buf: array<Byte>, len0: nat, offset: nat, ghost n: nat) returns (r: int)
      requires len0 <= buf.Length
      requires 0 <= fd < |files| && files[fd].used ==> FileOk(v, files[fd], n)
      modifies buf
      ensures fd < 0 || fd >= |files| || !files[fd].used ==> r == -1
      ensures 0 <= fd < |files| && files[fd].used && offset >= End(v, files[fd], n) ==> r == 0
      ensures 0 <= fd < |files| && files[fd].used && offset < End(v, files[fd], n) ==>
        && r == (if len0 <= End(v, files[fd], n) - offset then len0 else End(v, files[fd], n) - offset)
        && 0 <= r && offset + r <= |Chain(v, files[fd].first, n)|
        && buf[..r] == Chain(v, files[fd].first, n)[offset..offset + r]
    {
      hide Start, Chain, Cluster, Div, Mod;
      if fd < 0 || fd >= |files| || !files[fd].used { return -1; }
      var f := files[fd];
      if offset >= f.size { return 0; }
      ChainLength(v, f.first, n);
      var len := if len0 > f.size - offset then f.size - offset else len0;
      ghost var whole := Chain(v, f.first, n);
      var total, pos := 0, offset;
      while total < len
        invariant total <= len && pos == offset + total && (total > 0 ==> pos <= |whole|)
        invariant pos <= |whole| ==> buf[..total] == whole[offset..pos]
      {
        Position(v, pos, n);
        var index := Div(pos, v.perCluster * 512);
        var within := Mod(pos, v.perCluster * 512);
        var c := Walk(f.first, index, n);
        if c >= 0xFFF8 { break; }
        var lba := Lba(v, c) + within / 512;
        var avail := 512 - within % 512;
        if avail > len - total { avail := len - total; }
        ChainSlice(v, f.first, n, index, within / 512, within % 512, avail);
        if lba < 0 || lba >= |v.disk| { break; }
        var sector := v.disk[lba];
        Append(buf, total, sector[within % 512..within % 512 + avail]);
        SliceJoin(whole, offset, pos, pos + avail);
        total := total + avail;
        pos := pos + avail;
      }
      r := total;
    }

    /** Bytes behind the first n of a buffer. */
    method Append(buf: array<Byte>, n: nat, d: Bytes)
      requires n + |d| <= buf.Length
      modifies buf
      ensures buf[..n + |d|] == old(buf[..n]) + d
    {
      ghost var was := buf[..];
      StoreBytes(buf, n, d);
      assert buf[..][..n + |d|] == was[..n] + d;
    }

    /** The chain walked from its start, until its end. */
    method Walk(first: nat, index: nat, ghost n: nat) returns (c: nat)
      requires forall i: nat :: i <= index && i < n ==> OnDisk(v, Cluster(v, first, i))
      requires index >= n ==> Cluster(v, first, n) >= 0xFFF8
      ensures if index < n then c == Cluster(v, first, index) else c >= 0xFFF8
    {
      c := first;
      var i := 0;
      while i < index && c < 0xFFF8
        invariant i <= index && i <= n && c == Cluster(v, first, i)
      {
        c := if c >= 0xFFF0 || c >= |v.fat| then 0xFFFF else v.fat[c];
        i := i + 1;
      }
      if i < n { assert OnDisk(v, Cluster(v, first, i)); }
    }
  }

  lemma SliceJoin(s: Bytes, a: nat, b: nat, c: nat)
    requires a <= b <= c <= |s|
    ensures s[a..b] + s[b..c] == s[a..c]
  {
  }

  /** A file position as cluster, sector and byte. */
  lemma Position(v: Volume, pos: nat, n: nat)
    requires v.perCluster > 0
    ensures var q, w := Div(pos, v.perCluster * 512), Mod(pos, v.perCluster * 512);
            && (q < n <==> pos < Start(v, n)) && w / 512 < v.perCluster
            && pos == Start(v, q) + 512 * (w / 512) + w % 512
  {
    hide Div, Mod;
    var q := Div(pos, v.perCluster * 512);
    assert Start(v, q) == q * (v.perCluster * 512);
    hide Start;
    Starts(v, n, q);
    Starts(v, q + 1, n);
    Starts(v, q, q);
    SectorIn(Mod(pos, v.perCluster * 512), v.perCluster);
  }

  lemma SectorIn(w: nat, p: nat)
    requires w < p * 512
    ensures w / 512 < p && w == 512 * (w / 512) + w % 512
  {
  }

  function Div(a: nat, b: nat): nat
    requires b > 0
  {
    a / b
  }

  function Mod(a: nat, b: nat): (r: nat)
    requires b > 0
    ensures r < b && a == Div(a, b) * b + r
  {
    a % b
  }
}
