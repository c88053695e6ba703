/** What cloning an address space takes (kernel/paging.c, paging_clone_address_space): a page of heap
    for the directory and for each private table, and a frame for each page copied. */
module CloneCost {
  import opened KHeap
  import opened PageTables

  // ---------------------------------------------------------------------------
  // Pages of heap, one after the other
  // ---------------------------------------------------------------------------

  /** Some free block has room. */
  ghost predicate Serves(bs: seq<Block>, sz: nat, align: bool) { exists b :: b in bs && KHeap.Fits(b, sz, align) }

  /** The block list after one page was requested. */
  function AfterPage(bs: seq<Block>): seq<Block> {
    var k := FirstFit(bs, PAGE_SIZE, true);
    if k < |bs| then Replace(bs, k, Split(bs[k], PAGE_SIZE, true)) else bs
  }

  function AfterPages(bs: seq<Block>, n: nat): seq<Block> {
    if n == 0 then bs else AfterPage(AfterPages(bs, n - 1))
  }

  /** n pages requested one after the other are all served. */
  ghost predicate ServesPages(bs: seq<Block>, n: nat) {
    forall k: nat :: k < n ==> Serves(AfterPages(bs, k), PAGE_SIZE, true)
  }

  /** One request more. */
  lemma NextPage(bs: seq<Block>, n: nat)
    requires ServesPages(bs, n)
    ensures ServesPages(bs, n + 1) <==> Serves(AfterPages(bs, n), PAGE_SIZE, true)
    ensures AfterPages(bs, n + 1) == AfterPage(AfterPages(bs, n))
  {
    hide Serves, AfterPage;
  }

  // ---------------------------------------------------------------------------
  // Tables and frames of a clone
  // ---------------------------------------------------------------------------

  ghost predicate Private(L: Layout, src: nat, i: nat) { src != L.kdir && Owns(L, src, i) }

  /** Private tables in the slots before i. */
  ghost function Tables(L: Layout, src: nat, i: nat): nat {
    if i == 0 then 0 else Tables(L, src, i - 1) + if Private(L, src, i - 1) then 1 else 0
  }

  /** Pages to copy in slot i before page j. */
  ghost function SlotFrames(L: Layout, src: nat, i: nat, j: nat): nat {
    if j == 0 then 0 else SlotFrames(L, src, i, j - 1) + if Copied(L, src, i, j - 1) then 1 else 0
  }

  lemma NoFrames(L: Layout, src: nat, i: nat)
    ensures SlotFrames(L, src, i, 0) == 0
  {
  }

  lemma NextFrame(L: Layout, src: nat, i: nat, j: nat)
    ensures SlotFrames(L, src, i, j + 1) == SlotFrames(L, src, i, j) + if Copied(L, src, i, j) then 1 else 0
  {
    hide Copied;
  }

  lemma PrivateIs(L: Layout, src: nat, i: nat)
    ensures Private(L, src, i) <==> src != L.kdir && Owns(L, src, i)
  {
  }

  /** Pages to copy in the slots before i. */
  ghost function Frames(L: Layout, src: nat, i: nat): nat {
    if i == 0 then 0 else Frames(L, src, i - 1) + SlotFrames(L, src, i - 1, ENTRIES)
  }

  lemma {:induction false} TablesGrow(L: Layout, src: nat, i: nat, k: nat)
    requires i <= k
    ensures Tables(L, src, i) <= Tables(L, src, k) && Frames(L, src, i) <= Frames(L, src, k)
  {
    if i < k { TablesGrow(L, src, i, k - 1); }
  }

  lemma {:induction false} SlotFramesGrow(L: Layout, src: nat, i: nat, j: nat, k: nat)
    requires j <= k
    ensures SlotFrames(L, src, i, j) <= SlotFrames(L, src, i, k)
  {
    if j < k { SlotFramesGrow(L, src, i, j, k - 1); }
  }

  /** A shared slot has nothing to copy. */
  lemma {:induction false} SharedSlot(L: Layout, src: nat, i: nat, j: nat)
    requires !Private(L, src, i)
    ensures SlotFrames(L, src, i, j) == 0
  {
    if j > 0 { SharedSlot(L, src, i, j - 1); }
  }

  /** Heap and frames suffice for a clone of the whole space. */
  ghost predicate Affordable(L: Layout, blocks: seq<Block>, src: nat) {
    ServesPages(blocks, 1 + Tables(L, src, ENTRIES)) && |L.used| + Frames(L, src, ENTRIES) <= FRAMES
  }

  /** Slots before i are paid for: from these blocks and with this many frames in use at the start. */
  ghost predicate Paid(L0: Layout, blocks0: seq<Block>, src: nat, i: nat, used: nat, blocks: seq<Block>) {
    && ServesPages(blocks0, 1 + Tables(L0, src, i)) && blocks == AfterPages(blocks0, 1 + Tables(L0, src, i))
    && used == |L0.used| + Frames(L0, src, i)
  }

  lemma PaidSlot(L0: Layout, blocks0: seq<Block>, src: nat, i: nat, used: nat, blocks: seq<Block>)
    requires Paid(L0, blocks0, src, i, used, blocks) && i < ENTRIES
    ensures !Private(L0, src, i) ==> Paid(L0, blocks0, src, i + 1, used, blocks)
    ensures Private(L0, src, i) && !Serves(blocks, PAGE_SIZE, true) ==> !Affordable(L0, blocks0, src)
    ensures used + SlotFrames(L0, src, i, ENTRIES) > FRAMES ==> !Affordable(L0, blocks0, src)
    ensures Private(L0, src, i) && Serves(blocks, PAGE_SIZE, true) ==>
      Paid(L0, blocks0, src, i + 1, used + SlotFrames(L0, src, i, ENTRIES), AfterPage(blocks))
  {
    hide Private, AfterPage, Serves;
    if !Private(L0, src, i) { SharedSlot(L0, src, i, ENTRIES); }
    TablesGrow(L0, src, i + 1, ENTRIES);
    NextPage(blocks0, 1 + Tables(L0, src, i));
  }

  lemma PaidStarts(L0: Layout, blocks0: seq<Block>, src: nat)
    ensures Serves(blocks0, PAGE_SIZE, true) ==> Paid(L0, blocks0, src, 0, |L0.used|, AfterPage(blocks0))
    ensures !Serves(blocks0, PAGE_SIZE, true) ==> !Affordable(L0, blocks0, src)
  {
    hide AfterPage, Serves;
    NextPage(blocks0, 0);
    assert AfterPages(blocks0, 0) == blocks0;
  }

  lemma PaidAll(L0: Layout, blocks0: seq<Block>, src: nat, used: nat, blocks: seq<Block>)
    requires Paid(L0, blocks0, src, ENTRIES, used, blocks) && used <= FRAMES
    ensures Affordable(L0, blocks0, src) && blocks == AfterPages(blocks0, 1 + Tables(L0, src, ENTRIES))
  {
  }

  /** Only so many frames can be in use; when all are, none is free. */
  lemma {:induction false} FullCount(used: set<nat>, n: nat)
    requires forall f :: f in used ==> f < n
    ensures |used| <= n && (|used| == n <==> forall f: nat :: f < n ==> f in used)
  {
    if n > 0 {
      FullCount(used - {n - 1}, n - 1);
      if n - 1 in used { assert used == used - {n - 1} + {n - 1}; } else { assert used == used - {n - 1}; }
    } else {
      assert used == {};
    }
  }
}
