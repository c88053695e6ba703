/** The kernel heap (kernel/kheap.c): a first-fit allocator over a singly linked list of
    headers that tile one region of memory. Addresses and sizes are 32-bit words. */
module KHeap {

  const HDR: nat := 16
  const MIN_SPLIT: nat := HDR + 16
  const PAGE_SIZE: nat := 4096
  const WORD: nat := 0x1_0000_0000
  const MAGIC: nat := 0xB10EB10E

  // ---------------------------------------------------------------------------
  // The block list as a value
  // ---------------------------------------------------------------------------

  datatype Block = Block(addr: nat, size: nat, free: bool) {
    function Payload(): nat { addr + HDR }
    function End(): nat { addr + HDR + size }
  }

  /** The blocks cover [lo, hi) back to back. */
  ghost predicate Tiles(bs: seq<Block>, lo: nat, hi: nat) {
    && bs != []
    && bs[0].addr == lo
    && bs[|bs| - 1].End() == hi
    && forall i :: 0 <= i < |bs| - 1 ==> bs[i + 1].addr == bs[i].End()
  }

  ghost predicate Coalesced(bs: seq<Block>) {
    forall i :: 0 <= i < |bs| - 1 ==> !(bs[i].free && bs[i + 1].free)
  }

  ghost predicate Canonical(bs: seq<Block>, lo: nat, hi: nat) {
    Tiles(bs, lo, hi) && Coalesced(bs)
  }

  ghost function Live(bs: seq<Block>): set<Block> {
    set b | b in bs && !b.free
  }

  /** The live blocks whose payload address is not one of `ps`. */
  ghost function Without(live: set<Block>, ps: set<nat>): set<Block> {
    set b | b in live && b.Payload() !in ps
  }

  lemma {:induction false} TilesOrdered(bs: seq<Block>, lo: nat, hi: nat, i: nat, j: nat)
    requires Tiles(bs, lo, hi) && i <= j < |bs|
    ensures bs[i].addr <= bs[j].addr
    ensures i < j ==> bs[i].End() <= bs[j].addr
    ensures lo <= bs[i].addr && bs[j].End() <= hi
    decreases j - i
  {
    StartsAbove(bs, lo, hi, i);
    EndsBelow(bs, lo, hi, j);
    if i < j { TilesOrdered(bs, lo, hi, i + 1, j); }
  }

  lemma {:induction false} StartsAbove(bs: seq<Block>, lo: nat, hi: nat, i: nat)
    requires Tiles(bs, lo, hi) && i < |bs|
    ensures lo <= bs[i].addr
  {
    if i > 0 { StartsAbove(bs, lo, hi, i - 1); }
  }

  lemma {:induction false} EndsBelow(bs: seq<Block>, lo: nat, hi: nat, j: nat)
    requires Tiles(bs, lo, hi) && j < |bs|
    ensures bs[j].End() <= hi
    decreases |bs| - j
  {
    if j < |bs| - 1 { EndsBelow(bs, lo, hi, j + 1); }
  }

  /** Live payloads never overlap, and lie inside the heap. */
  lemma LivePayloadsDisjoint(bs: seq<Block>, lo: nat, hi: nat, a: Block, b: Block)
    requires Tiles(bs, lo, hi) && a in Live(bs) && b in Live(bs)
    ensures lo + HDR <= a.Payload() && a.End() <= hi
    ensures a != b ==> a.End() <= b.addr || b.End() <= a.addr
    ensures a.Payload() == b.Payload() ==> a == b
  {
    var i :| 0 <= i < |bs| && bs[i] == a;
    var j :| 0 <= j < |bs| && bs[j] == b;
    if i <= j { TilesOrdered(bs, lo, hi, i, j); } else { TilesOrdered(bs, lo, hi, j, i); }
  }

  /** Two canonical lists over one region with the same live blocks are the same list:
      the free blocks are exactly the gaps. */
  lemma CanonicalDeterminedByLive(a: seq<Block>, b: seq<Block>, lo: nat, hi: nat)
    requires Canonical(a, lo, hi) && Canonical(b, lo, hi)
    requires Live(a) == Live(b)
    ensures a == b
  {
    if |a| <= |b| { PrefixAgrees(a, b, lo, hi, |a|); } else { PrefixAgrees(b, a, lo, hi, |b|); }
    var n := if |a| <= |b| then |a| else |b|;
    assert a[n - 1] == b[n - 1];
    if |a| < |b| { TilesOrdered(b, lo, hi, n - 1, n); }
    if |b| < |a| { TilesOrdered(a, lo, hi, n - 1, n); }
  }

  lemma {:induction false} PrefixAgrees(a: seq<Block>, b: seq<Block>, lo: nat, hi: nat, k: nat)
    requires Canonical(a, lo, hi) && Canonical(b, lo, hi)
    requires Live(a) == Live(b) && k <= |a| && k <= |b|
    ensures a[..k] == b[..k]
  {
    if k > 0 {
      PrefixAgrees(a, b, lo, hi, k - 1);
      var i := k - 1;
      assert k > 1 ==> a[k - 2] == a[..k - 1][k - 2] == b[k - 2];
      assert a[i].addr == b[i].addr;
      NotShorter(a, b, lo, hi, i);
      NotShorter(b, a, lo, hi, i);
      assert a[i] == b[i];
    }
  }

  /** At equal addresses, block i of `a` is live exactly as block i of `b` is, and not shorter. */
  lemma NotShorter(a: seq<Block>, b: seq<Block>, lo: nat, hi: nat, i: nat)
    requires Canonical(a, lo, hi) && Canonical(b, lo, hi) && Live(a) == Live(b)
    requires i < |a| && i < |b| && a[i].addr == b[i].addr
    ensures !a[i].free ==> a[i] == b[i]
    ensures !b[i].free ==> a[i] == b[i]
    ensures a[i].size >= b[i].size
  {
    if !a[i].free { SameAddress(a, b, lo, hi, i, a[i]); }
    if !b[i].free { SameAddress(b, a, lo, hi, i, b[i]); }
    if a[i].free && b[i].free && a[i].size < b[i].size {
      TilesOrdered(b, lo, hi, i, i);
      assert i + 1 < |a|;
      var c := a[i + 1];
      assert c in Live(a) && c in Live(b);
      var j :| 0 <= j < |b| && b[j] == c;
      if j <= i { TilesOrdered(b, lo, hi, j, i); } else { TilesOrdered(b, lo, hi, i, j); }
      assert false;
    }
  }

  lemma SameAddress(a: seq<Block>, b: seq<Block>, lo: nat, hi: nat, i: nat, c: Block)
    requires Tiles(b, lo, hi) && Live(a) == Live(b)
    requires i < |a| && i < |b| && a[i] == c && !c.free && c.addr == b[i].addr
    ensures b[i] == c
  {
    assert c in Live(a);
    assert c in Live(b);
    var j :| 0 <= j < |b| && b[j] == c;
    if j < i { TilesOrdered(b, lo, hi, j, i); }
    if i < j { TilesOrdered(b, lo, hi, i, j); }
  }

  // ---------------------------------------------------------------------------
  // Allocation
  // ---------------------------------------------------------------------------

  function RoundUp(a: nat): nat { (a + 4095) / 4096 * 4096 }

  /** Where the payload goes in a free block at `addr`. An aligned payload must leave either no
      gap before its header or one big enough to be a block of its own. */
  function AllocStart(addr: nat, align: bool): nat {
    if !align then addr + HDR else
    var start := RoundUp(addr + HDR);
    if 0 < start - (addr + HDR) < MIN_SPLIT then start + PAGE_SIZE else start
  }

  predicate Fits(b: Block, sz: nat, align: bool) {
    b.free && AllocStart(b.addr, align) + sz <= b.End()
  }

  /** An admissible payload position: page-aligned if asked, no unusable gap before the header. */
  predicate Admissible(b: Block, start: nat, sz: nat, align: bool) {
    && b.free && b.Payload() <= start && start + sz <= b.End()
    && (if align then start % 4096 == 0 && (start == b.Payload() || start >= b.Payload() + MIN_SPLIT)
        else start == b.Payload())
  }

  /** A block is passed over only if it has no admissible position at all, and the one chosen
      is the lowest. */
  lemma FitsIffAdmissible(b: Block, sz: nat, align: bool)
    ensures Fits(b, sz, align) <==> exists start :: Admissible(b, start, sz, align)
    ensures Fits(b, sz, align) ==> Admissible(b, AllocStart(b.addr, align), sz, align)
    ensures forall start :: Admissible(b, start, sz, align) ==> AllocStart(b.addr, align) <= start
  {
    forall start | Admissible(b, start, sz, align) ensures AllocStart(b.addr, align) <= start {
      if align { RoundUpLeast(b.Payload(), start); }
    }
    if Fits(b, sz, align) {
      assert Admissible(b, AllocStart(b.addr, align), sz, align);
    }
  }

  lemma RoundUpLeast(a: nat, m: nat)
    requires m % 4096 == 0 && a <= m
    ensures RoundUp(a) <= m
    ensures a + MIN_SPLIT <= m && 0 < RoundUp(a) - a < MIN_SPLIT ==> RoundUp(a) + PAGE_SIZE <= m
  {
  }

  function Split(b: Block, sz: nat, align: bool): seq<Block>
    requires Fits(b, sz, align)
  {
    var start := AllocStart(b.addr, align);
    var gap := start - b.Payload();
    var rest := b.End() - (start + sz);
    (if gap > 0 then [Block(b.addr, gap - HDR, true)] else []) +
    (if rest >= MIN_SPLIT then [Block(start - HDR, sz, false), Block(start + sz, rest - HDR, true)]
     else [Block(start - HDR, sz + rest, false)])
  }

  /** Index of the first block that fits, or |bs|. */
  function FirstFit(bs: seq<Block>, sz: nat, align: bool): (k: nat)
    ensures k <= |bs|
    ensures k < |bs| ==> Fits(bs[k], sz, align)
    ensures forall i :: 0 <= i < k ==> !Fits(bs[i], sz, align)
  {
    if bs == [] || Fits(bs[0], sz, align) then 0 else 1 + FirstFit(bs[1..], sz, align)
  }

  function Replace(bs: seq<Block>, k: nat, mid: seq<Block>): seq<Block>
    requires k < |bs|
  {
    bs[..k] + mid + bs[k + 1..]
  }

  ghost predicate IsAlloc(bs: seq<Block>, bs': seq<Block>, sz: nat, align: bool, p: nat) {
    var k := FirstFit(bs, sz, align);
    && k < |bs|
    && p == AllocStart(bs[k].addr, align)
    && bs' == Replace(bs, k, Split(bs[k], sz, align))
  }

  /** Allocation keeps the canonical form, adds one live block that holds the request, and
      changes no other live block. */
  lemma AllocCanonical(bs: seq<Block>, bs': seq<Block>, lo: nat, hi: nat, sz: nat, align: bool, p: nat)
    requires Canonical(bs, lo, hi) && IsAlloc(bs, bs', sz, align, p)
    ensures Canonical(bs', lo, hi)
    ensures exists b: Block :: b.Payload() == p && sz <= b.size < sz + MIN_SPLIT && !b.free
              && Live(bs') == Live(bs) + {b}
    ensures lo + HDR <= p && (align ==> p % 4096 == 0)
    ensures forall b :: b in Live(bs) ==> b.End() <= p - HDR || p + sz <= b.addr
  {
    var k := FirstFit(bs, sz, align);
    var mid := Split(bs[k], sz, align);
    FitsIffAdmissible(bs[k], sz, align);
    TilesOrdered(bs, lo, hi, k, k);
    var b := SplitTiles(bs[k], sz, align);
    ReplaceCanonical(bs, k, mid, lo, hi);
    LiveReplace(bs, k, mid);
    assert Live([bs[k]]) == {};
    assert b.Payload() == p && Live(bs') == Live(bs) + {b};
    forall b | b in Live(bs) ensures b.End() <= p - HDR || p + sz <= b.addr {
      var i :| 0 <= i < |bs| && bs[i] == b;
      if i < k { TilesOrdered(bs, lo, hi, i, k); } else { TilesOrdered(bs, lo, hi, k, i); }
    }
  }

  lemma SplitTiles(b: Block, sz: nat, align: bool) returns (live: Block)
    requires Fits(b, sz, align)
    ensures var mid := Split(b, sz, align); Canonical(mid, b.addr, b.End()) && Live(mid) == {live}
    ensures live.Payload() == AllocStart(b.addr, align) && sz <= live.size < sz + MIN_SPLIT && !live.free
  {
    FitsIffAdmissible(b, sz, align);
    var mid := Split(b, sz, align);
    var start := AllocStart(b.addr, align);
    var rest := b.End() - (start + sz);
    live := Block(start - HDR, if rest >= MIN_SPLIT then sz else sz + rest, false);
    assert live in mid;
    assert Live(mid) == {live};
  }

  /** A free block may be replaced by any canonical list over its own extent. */
  lemma ReplaceCanonical(bs: seq<Block>, k: nat, mid: seq<Block>, lo: nat, hi: nat)
    requires Canonical(bs, lo, hi) && k < |bs| && bs[k].free
    requires Canonical(mid, bs[k].addr, bs[k].End())
    ensures Canonical(Replace(bs, k, mid), lo, hi)
  {
    var bs' := Replace(bs, k, mid);
    forall i | 0 <= i < |bs'| - 1
      ensures bs'[i + 1].addr == bs'[i].End() && !(bs'[i].free && bs'[i + 1].free)
    {
      if i + 1 < k {
      } else if i + 1 == k {
      } else if i + 1 < k + |mid| {
        assert bs'[i] == mid[i - k] && bs'[i + 1] == mid[i - k + 1];
      } else if i + 1 == k + |mid| {
        assert bs'[i] == mid[|mid| - 1] && bs'[i + 1] == bs[k + 1];
      } else {
        assert bs'[i] == bs[i - |mid| + 1] && bs'[i + 1] == bs[i - |mid| + 2];
      }
    }
  }

  lemma LiveReplace(bs: seq<Block>, k: nat, mid: seq<Block>)
    requires k < |bs|
    ensures Live(Replace(bs, k, mid)) == Live(bs[..k]) + Live(mid) + Live(bs[k + 1..])
    ensures Live(bs) == Live(bs[..k]) + Live([bs[k]]) + Live(bs[k + 1..])
  {
    assert bs == bs[..k] + [bs[k]] + bs[k + 1..];
  }

  // ---------------------------------------------------------------------------
  // Freeing
  // ---------------------------------------------------------------------------

  function Merge(a: Block, b: Block): Block { Block(a.addr, a.size + HDR + b.size, a.free) }

  function MergedAt(bs: seq<Block>, k: nat): seq<Block>
    requires k + 1 < |bs|
  {
    bs[..k] + [Merge(bs[k], bs[k + 1])] + bs[k + 2..]
  }

  /** The coalescing pass of kheap_free, resumed at index k. */
  function Coalesce(bs: seq<Block>, k: nat): seq<Block>
    decreases |bs| - k
  {
    if k + 1 >= |bs| then bs
    else if bs[k].free && bs[k + 1].free then
      Coalesce(MergedAt(bs, k), k)
    else Coalesce(bs, k + 1)
  }

  lemma {:induction false} CoalesceCanonical(bs: seq<Block>, k: nat, lo: nat, hi: nat)
    requires Tiles(bs, lo, hi)
    requires forall i :: 0 <= i < k && i + 1 < |bs| ==> !(bs[i].free && bs[i + 1].free)
    ensures Canonical(Coalesce(bs, k), lo, hi)
    ensures Live(Coalesce(bs, k)) == Live(bs)
    decreases |bs| - k
  {
    if k + 1 < |bs| {
      if bs[k].free && bs[k + 1].free {
        MergeTiles(bs, k, lo, hi);
        CoalesceCanonical(MergedAt(bs, k), k, lo, hi);
      } else {
        CoalesceCanonical(bs, k + 1, lo, hi);
      }
    }
  }

  lemma MergeTiles(bs: seq<Block>, k: nat, lo: nat, hi: nat)
    requires Tiles(bs, lo, hi) && k + 1 < |bs| && bs[k].free && bs[k + 1].free
    ensures Tiles(MergedAt(bs, k), lo, hi)
    ensures Live(MergedAt(bs, k)) == Live(bs)
  {
    var next := MergedAt(bs, k);
    assert forall i :: k < i < |next| ==> next[i] == bs[i + 1];
    assert bs == bs[..k] + [bs[k], bs[k + 1]] + bs[k + 2..];
  }

  ghost predicate IsFree(bs: seq<Block>, bs': seq<Block>, p: nat) {
    exists k :: 0 <= k < |bs| && bs[k].Payload() == p && bs' == Coalesce(bs[k := bs[k].(free := true)], 0)
  }

  /** Freeing keeps the canonical form and removes exactly the block at `p`. */
  lemma FreeCanonical(bs: seq<Block>, bs': seq<Block>, lo: nat, hi: nat, p: nat)
    requires Canonical(bs, lo, hi) && IsFree(bs, bs', p)
    ensures Canonical(bs', lo, hi)
    ensures Live(bs') == Without(Live(bs), {p})
  {
    var k :| 0 <= k < |bs| && bs[k].Payload() == p && bs' == Coalesce(bs[k := bs[k].(free := true)], 0);
    var marked := bs[k := bs[k].(free := true)];
    CoalesceCanonical(marked, 0, lo, hi);
    forall b ensures b in Live(marked) <==> b in Without(Live(bs), {p}) {
      if b in Live(marked) {
        var i :| 0 <= i < |marked| && marked[i] == b;
        assert i != k && bs[i] == b;
        if i < k { TilesOrdered(bs, lo, hi, i, k); } else { TilesOrdered(bs, lo, hi, k, i); }
      }
      if b in Without(Live(bs), {p}) {
        var i :| 0 <= i < |bs| && bs[i] == b;
        assert i != k && marked[i] == b;
      }
    }
  }

  /** Freeing the block just allocated restores the exact block list, aligned or not. */
  lemma AllocThenFreeRestores(bs: seq<Block>, bs': seq<Block>, bs'': seq<Block>, lo: nat, hi: nat,
                              sz: nat, align: bool, p: nat)
    requires Canonical(bs, lo, hi)
    requires IsAlloc(bs, bs', sz, align, p) && IsFree(bs', bs'', p)
    ensures bs'' == bs
  {
    AllocCanonical(bs, bs', lo, hi, sz, align, p);
    FreeCanonical(bs', bs'', lo, hi, p);
    forall b | b in Live(bs) ensures b.Payload() != p { }
    assert Live(bs'') == Live(bs);
    CanonicalDeterminedByLive(bs, bs'', lo, hi);
  }

  // ---------------------------------------------------------------------------
  // The allocator itself
  // ---------------------------------------------------------------------------

  /** A header as it lies in memory; `next` is an address, 0 for NULL. */
  datatype Header = Header(magic: nat, size: nat, free: bool, next: nat)

  function Wrap(x: int): (w: nat)
    ensures 0 <= x < WORD ==> w == x
  {
    x % 0x1_0000_0000
  }

  class Heap {
    var mem: map<nat, Header>
    var heapStart: nat
    var heapEnd: nat
    ghost var blocks: seq<Block>

    /** Every block of the abstract list has its header in memory, linked to the next block's. */
    ghost predicate Valid()
      reads this
    {
      heapStart != 0 ==>
        && Canonical(blocks, heapStart, heapEnd)
        && heapEnd + 2 * PAGE_SIZE <= WORD
        && forall i :: 0 <= i < |blocks| ==> HeaderOf(mem, blocks, i)
    }

    static ghost predicate HeaderOf(mem: map<nat, Header>, bs: seq<Block>, i: nat)
      requires i < |bs|
    {
      && bs[i].addr in mem
      && mem[bs[i].addr] == Header(MAGIC, bs[i].size, bs[i].free, if i + 1 < |bs| then bs[i + 1].addr else 0)
    }

    ghost function LiveBlocks(): set<Block>
      reads this
    {
      if heapStart == 0 then {} else Live(blocks)
    }

    ghost predicate CanServe(sz: nat, align: bool)
      reads this
    {
      heapStart != 0 && sz != 0 && exists b :: b in blocks && Fits(b, sz, align)
    }

    ghost function Payloads(): set<nat>
      reads this
    {
      set b | b in LiveBlocks() :: b.Payload()
    }

    constructor ()
      ensures Valid() && heapStart == 0
    {
      mem, heapStart, heapEnd := map[], 0, 0;
      blocks := [];
    }

    /** kheap_init: one free block over the whole region. */
    method Init(start: nat, size: nat)
      requires 0 < start && HDR <= size && start + size + 2 * PAGE_SIZE <= WORD
      modifies this
      ensures Valid() && heapStart == start && heapEnd == start + size
      ensures blocks == [Block(start, size - HDR, true)] && LiveBlocks() == {}
    {
      heapStart := start;
      mem := mem[start := Header(MAGIC, size - HDR, true, 0)];
      heapEnd := start + size;
      blocks := [Block(start, size - HDR, true)];
    }

    static lemma AllocEffect(bs: seq<Block>, bs': seq<Block>, lo: nat, hi: nat, sz: nat, align: bool, p: nat)
      requires Canonical(bs, lo, hi) && IsAlloc(bs, bs', sz, align, p)
      ensures lo < p && p + sz <= hi && (align ==> p % 4096 == 0)
      ensures forall b :: b in Live(bs) ==> b.Payload() != p
      ensures Without(Live(bs'), {p}) == Live(bs)
      ensures (set b | b in Live(bs') :: b.Payload()) == (set b | b in Live(bs) :: b.Payload()) + {p}
    {
      AllocCanonical(bs, bs', lo, hi, sz, align, p);
      var b: Block :| b.Payload() == p && sz <= b.size < sz + MIN_SPLIT && !b.free && Live(bs') == Live(bs) + {b};
      forall c | c in Live(bs) ensures c.Payload() != p { }
      assert b in Live(bs');
      LivePayloadsDisjoint(bs', lo, hi, b, b);
    }

    /** Where a request would go in the free block at `cur`; `prefix` and `suffix` are what it
        would leave over on either side. All arithmetic is on 32-bit words. */
    method Place(cur: nat, size: nat, sz: nat, align: bool)
      returns (fits: bool, allocStart: nat, prefix: nat, suffix: nat)
      requires cur + HDR + size + sz + 2 * PAGE_SIZE <= WORD
      ensures fits <==> Fits(Block(cur, size, true), sz, align)
      ensures fits ==> allocStart == AllocStart(cur, align) && prefix == allocStart - (cur + HDR)
      ensures fits ==> suffix == Block(cur, size, true).End() - (allocStart + sz)
    {
      var payloadStart := Wrap(cur + HDR);
      allocStart, prefix, suffix := payloadStart, 0, 0;
      var total := Wrap(HDR + size);
      if align {
        allocStart := Wrap(payloadStart + 4095) / 4096 * 4096;
        prefix := Wrap(allocStart - HDR - cur);
        if prefix != 0 && prefix < MIN_SPLIT {
          allocStart := Wrap(allocStart + PAGE_SIZE) / 4096 * 4096;
          prefix := Wrap(allocStart - HDR - cur);
        }
      }
      var used := Wrap(Wrap(allocStart + sz) - cur);
      fits := used <= total;
      if fits { suffix := total - used; }
    }

    /** Rewrites the headers of free block k into those of its pieces. */
    method Carve(ghost k: nat, sz: nat, align: bool, allocStart: nat, prefix: nat, suffix: nat)
      requires Valid() && heapStart != 0 && k < |blocks| && k == FirstFit(blocks, sz, align)
      requires allocStart == AllocStart(blocks[k].addr, align) && prefix == allocStart - blocks[k].Payload()
      requires suffix == blocks[k].End() - (allocStart + sz)
      modifies this
      ensures Valid() && heapStart == old(heapStart) && heapEnd == old(heapEnd)
      ensures IsAlloc(old(blocks), blocks, sz, align, allocStart)
    {
      assert HeaderOf(mem, blocks, k);
      var hdr := allocStart - HDR;
      var next := mem[hdr - prefix].next;
      if prefix >= MIN_SPLIT {
        mem := mem[hdr - prefix := Header(MAGIC, prefix - HDR, true, hdr)];
      }
      if suffix >= MIN_SPLIT {
        mem := mem[allocStart + sz := Header(MAGIC, suffix - HDR, true, next)];
        mem := mem[hdr := Header(MAGIC, sz, false, allocStart + sz)];
      } else {
        mem := mem[hdr := Header(MAGIC, sz + suffix, false, next)];
      }
      CarveRelinks(old(mem), mem, blocks, k, sz, align, heapStart, heapEnd);
      blocks := Replace(blocks, k, Split(blocks[k], sz, align));
    }

    static lemma CarveRelinks(mem: map<nat, Header>, mem': map<nat, Header>, bs: seq<Block>, k: nat,
                              sz: nat, align: bool, lo: nat, hi: nat)
      requires Canonical(bs, lo, hi) && k < |bs| && k == FirstFit(bs, sz, align)
      requires forall i :: 0 <= i < |bs| ==> HeaderOf(mem, bs, i)
      requires HeaderOf(mem, bs, k)
      requires var start := AllocStart(bs[k].addr, align);
               mem' == Carved(mem, start - HDR, sz, start - bs[k].Payload(), bs[k].End() - (start + sz),
                              mem[bs[k].addr].next)
      ensures var bs' := Replace(bs, k, Split(bs[k], sz, align));
              Canonical(bs', lo, hi) && forall i :: 0 <= i < |bs'| ==> HeaderOf(mem', bs', i)
    {
      CarvedPieces(mem, mem', bs, k, sz, align);
      var live := SplitTiles(bs[k], sz, align);
      RelinkedAfterSplit(mem, mem', bs, k, Split(bs[k], sz, align), lo, hi);
      ReplaceCanonical(bs, k, Split(bs[k], sz, align), lo, hi);
    }

    /** The header writes of one allocation, in order. */
    static ghost function Carved(mem: map<nat, Header>, hdr: nat, sz: nat, prefix: nat, suffix: nat, next: nat)
      : map<nat, Header>
      requires prefix <= hdr
    {
      var m := if prefix >= MIN_SPLIT then mem[hdr - prefix := Header(MAGIC, prefix - HDR, true, hdr)] else mem;
      if suffix >= MIN_SPLIT then
        m[hdr + HDR + sz := Header(MAGIC, suffix - HDR, true, next)][hdr := Header(MAGIC, sz, false, hdr + HDR + sz)]
      else m[hdr := Header(MAGIC, sz + suffix, false, next)]
    }

    static lemma CarvedPieces(mem: map<nat, Header>, mem': map<nat, Header>, bs: seq<Block>, k: nat,
                              sz: nat, align: bool)
      requires k < |bs| && Fits(bs[k], sz, align) && HeaderOf(mem, bs, k)
      requires var start := AllocStart(bs[k].addr, align);
               mem' == Carved(mem, start - HDR, sz, start - bs[k].Payload(), bs[k].End() - (start + sz),
                              mem[bs[k].addr].next)
      ensures var mid := Split(bs[k], sz, align); forall i :: 0 <= i < |mid| ==> PieceHeader(mem', bs, k, mid, i)
      ensures mem.Keys <= mem'.Keys
      ensures forall a :: a in mem && !(bs[k].addr <= a < bs[k].End()) ==> mem'[a] == mem[a]
    {
      FitsIffAdmissible(bs[k], sz, align);
    }

    /** kheap_alloc. The request must be small enough that no address computed from it wraps. */
    method Alloc(sz: nat, align: bool) returns (p: nat)
      requires Valid() && heapEnd + sz + 2 * PAGE_SIZE <= WORD
      modifies this
      ensures Valid() && heapStart == old(heapStart) && heapEnd == old(heapEnd)
      ensures p != 0 <==> old(CanServe(sz, align))
      ensures p == 0 ==> mem == old(mem) && blocks == old(blocks)
      ensures p != 0 ==> IsAlloc(old(blocks), blocks, sz, align, p)
      ensures p != 0 ==> heapStart < p && p + sz <= heapEnd && (align ==> p % 4096 == 0)
      ensures p != 0 ==> p !in old(Payloads()) && Payloads() == old(Payloads()) + {p}
      ensures p != 0 ==> Without(LiveBlocks(), {p}) == old(LiveBlocks())
    {
      if heapStart == 0 || sz == 0 { return 0; }
      var cur := heapStart;
      ghost var k := 0;
      while cur != 0
        invariant mem == old(mem) && blocks == old(blocks) && heapStart == old(heapStart) && heapEnd == old(heapEnd)
        invariant 0 <= k <= |blocks|
        invariant cur == if k < |blocks| then blocks[k].addr else 0
        invariant forall i :: 0 <= i < k ==> !Fits(blocks[i], sz, align)
        decreases |blocks| - k
      {
        assert HeaderOf(mem, blocks, k);
        TilesOrdered(blocks, heapStart, heapEnd, k, k);
        var h := mem[cur];
        if !h.free {
          cur, k := h.next, k + 1;
          continue;
        }

        var fits, allocStart, prefix, suffix := Place(cur, h.size, sz, align);
        if !fits {
          cur, k := h.next, k + 1;
          continue;
        }
        FirstFitIs(blocks, sz, align, k);
        Carve(k, sz, align, allocStart, prefix, suffix);
        assert old(blocks)[k] in old(blocks);
        AllocEffect(old(blocks), blocks, heapStart, heapEnd, sz, align, allocStart);
        return allocStart;
      }
      if k < |blocks| { TilesOrdered(blocks, heapStart, heapEnd, k, k); }
      return 0;
    }

    static lemma {:induction false} FirstFitIs(bs: seq<Block>, sz: nat, align: bool, k: nat)
      requires k < |bs| && Fits(bs[k], sz, align)
      requires forall i :: 0 <= i < k ==> !Fits(bs[i], sz, align)
      ensures FirstFit(bs, sz, align) == k
    {
      var f := FirstFit(bs, sz, align);
    }

    /** Writing headers for pieces `mid` of block k relinks the whole list. */
    static lemma RelinkedAfterSplit(mem: map<nat, Header>, mem': map<nat, Header>, bs: seq<Block>, k: nat,
                                    mid: seq<Block>, lo: nat, hi: nat)
      requires Tiles(bs, lo, hi) && k < |bs| && Tiles(mid, bs[k].addr, bs[k].End())
      requires forall i :: 0 <= i < |bs| ==> HeaderOf(mem, bs, i)
      requires mem.Keys <= mem'.Keys
      requires forall a :: a in mem && !(bs[k].addr <= a < bs[k].End()) ==> mem'[a] == mem[a]
      requires forall i :: 0 <= i < |mid| ==> PieceHeader(mem', bs, k, mid, i)
      ensures forall i :: 0 <= i < |bs| - 1 + |mid| ==> HeaderOf(mem', Replace(bs, k, mid), i)
    {
      var bs' := Replace(bs, k, mid);
      forall i | 0 <= i < |bs'| ensures HeaderOf(mem', bs', i) {
        if i < k {
          TilesOrdered(bs, lo, hi, i, k);
          assert HeaderOf(mem, bs, i);
          assert i + 1 == k ==> bs'[k] == mid[0];
        } else if i < k + |mid| {
          assert bs'[i] == mid[i - k];
          assert PieceHeader(mem', bs, k, mid, i - k);
          assert i + 1 < k + |mid| ==> bs'[i + 1] == mid[i - k + 1];
          assert i + 1 == k + |mid| && k + 1 < |bs| ==> bs'[i + 1] == bs[k + 1];
        } else {
          var j := i - |mid| + 1;
          TilesOrdered(bs, lo, hi, k, j);
          assert HeaderOf(mem, bs, j);
          assert bs'[i] == bs[j];
          assert j + 1 < |bs| ==> bs'[i + 1] == bs[j + 1];
        }
      }
    }

    static ghost predicate PieceHeader(mem: map<nat, Header>, bs: seq<Block>, k: nat, mid: seq<Block>, i: nat)
      requires k < |bs| && i < |mid|
    {
      && mid[i].addr in mem
      && mem[mid[i].addr] == Header(MAGIC, mid[i].size, mid[i].free,
           if i + 1 < |mid| then mid[i + 1].addr else if k + 1 < |bs| then bs[k + 1].addr else 0)
    }

    /** kheap_free. A pointer whose header does not carry the magic number is ignored. */
    method Free(p: nat)
      requires Valid() && p < WORD
      requires p == 0 || p in Payloads() || Wrap(p - HDR) !in mem || mem[Wrap(p - HDR)].magic != MAGIC
      modifies this
      ensures Valid() && heapStart == old(heapStart) && heapEnd == old(heapEnd)
      ensures p !in old(Payloads()) ==> mem == old(mem) && blocks == old(blocks)
      ensures p in old(Payloads()) ==> IsFree(old(blocks), blocks, p)
      ensures LiveBlocks() == Without(old(LiveBlocks()), {p})
      ensures Payloads() == old(Payloads()) - {p}
    {
      if p in Payloads() { LivePayloadsNonzero(p); }
      if p == 0 { return; }
      var blk := Wrap(p - HDR);
      if blk !in mem || mem[blk].magic != MAGIC {
        if p in Payloads() { var b := LiveAt(p); }
        return;
      }
      var b0 := LiveAt(p);
      ghost var k0 :| 0 <= k0 < |blocks| && blocks[k0] == b0;
      assert HeaderOf(mem, blocks, k0);
      mem := mem[blk := mem[blk].(free := true)];
      blocks := blocks[k0 := blocks[k0].(free := true)];
      forall i | 0 <= i < |blocks| ensures HeaderOf(mem, blocks, i) {
        assert HeaderOf(old(mem), old(blocks), i);
        if i < k0 { TilesOrdered(blocks, heapStart, heapEnd, i, k0); }
        if k0 < i { TilesOrdered(blocks, heapStart, heapEnd, k0, i); }
      }
      CoalesceAll();
      FreeCanonical(old(blocks), blocks, heapStart, heapEnd, p);
    }

    /** The pass over the whole list that joins neighbouring free blocks in place. */
    method CoalesceAll()
      requires heapStart != 0 && Tiles(blocks, heapStart, heapEnd) && heapEnd + 2 * PAGE_SIZE <= WORD
      requires forall i :: 0 <= i < |blocks| ==> HeaderOf(mem, blocks, i)
      modifies this
      ensures Valid() && heapStart == old(heapStart) && heapEnd == old(heapEnd)
      ensures blocks == Coalesce(old(blocks), 0)
    {
      CoalesceCanonical(blocks, 0, heapStart, heapEnd);
      var cur := heapStart;
      ghost var k := 0;
      assert HeaderOf(mem, blocks, 0);
      while cur != 0 && mem[cur].next != 0
        invariant heapStart == old(heapStart) && heapEnd == old(heapEnd) && Tiles(blocks, heapStart, heapEnd)
        invariant forall i :: 0 <= i < |blocks| ==> HeaderOf(mem, blocks, i)
        invariant 0 <= k < |blocks| && cur == blocks[k].addr && HeaderOf(mem, blocks, k)
        invariant Coalesce(blocks, k) == Coalesce(old(blocks), 0)
        decreases |blocks| - k
      {
        var next := mem[cur].next;
        assert k + 1 < |blocks| && HeaderOf(mem, blocks, k + 1);
        if mem[cur].free && mem[next].free {
          ghost var before, was := blocks, mem;
          EndsBelow(blocks, heapStart, heapEnd, k + 1);
          mem := mem[cur := mem[cur].(size := Wrap(mem[cur].size + HDR + mem[next].size))];
          mem := mem[cur := mem[cur].(next := mem[next].next)];
          blocks := MergedAt(before, k);
          RelinkedAfterMerge(was, mem, before, blocks, k, heapStart, heapEnd);
        } else {
          cur, k := next, k + 1;
        }
      }
      if k + 1 < |blocks| { TilesOrdered(blocks, heapStart, heapEnd, k, k + 1); }
    }

    static lemma RelinkedAfterMerge(mem: map<nat, Header>, mem': map<nat, Header>,
                                    bs: seq<Block>, bs': seq<Block>, k: nat, lo: nat, hi: nat)
      requires Tiles(bs, lo, hi) && k + 1 < |bs| && bs[k].free && bs[k + 1].free
      requires forall i :: 0 <= i < |bs| ==> HeaderOf(mem, bs, i)
      requires bs' == MergedAt(bs, k)
      requires bs[k].addr in mem && bs[k + 1].addr in mem
      requires mem' == mem[bs[k].addr := Header(MAGIC, bs'[k].size, true, mem[bs[k + 1].addr].next)]
      ensures Tiles(bs', lo, hi)
      ensures forall i :: 0 <= i < |bs'| ==> HeaderOf(mem', bs', i)
    {
      MergeTiles(bs, k, lo, hi);
      assert HeaderOf(mem, bs, k + 1);
      forall i | 0 <= i < |bs'| ensures HeaderOf(mem', bs', i) {
        if i < k {
          assert HeaderOf(mem, bs, i);
          TilesOrdered(bs, lo, hi, i, k);
        } else if i > k {
          assert HeaderOf(mem, bs, i + 1) && bs'[i] == bs[i + 1];
          TilesOrdered(bs, lo, hi, k, i + 1);
        }
      }
    }

    lemma LivePayloadsNonzero(p: nat)
      requires Valid() && p in Payloads()
      ensures HDR < p && p < WORD && heapStart != 0
    {
      var b := LiveAt(p);
    }

    lemma LiveAt(p: nat) returns (b: Block)
      requires Valid() && p in Payloads()
      ensures heapStart != 0 && b in blocks && !b.free && b.Payload() == p
      ensures HDR < p < WORD && p - HDR in mem && mem[p - HDR].magic == MAGIC
    {
      b :| b in LiveBlocks() && b.Payload() == p;
      var i :| 0 <= i < |blocks| && blocks[i] == b;
      assert HeaderOf(mem, blocks, i);
      TilesOrdered(blocks, heapStart, heapEnd, i, i);
    }
  }
}
