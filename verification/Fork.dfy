/** process_fork_current (kernel/process.c): memory, process structure, kernel stack and descriptors
    of a child, or none of them. */
module Fork {
  import opened KHeap
  import opened PageTables
  import opened CloneCost
  import opened Paging
  import FdModel
  import Vfs

  const STACKS: nat := 64

  /** What memory was before the call: layout, frame contents and heap. */
  datatype Before = Before(L: Layout, ram: seq<PageData>, blocks: seq<Block>, live: set<Block>, payloads: set<nat>)

  class Forker {
    const mmu: Mmu
    const vfs: Vfs.Vfs
    /** sizeof(process_t). */
    const procSize: nat
    var nextPid: nat
    /** proc_kernel_stack_used. */
    var stackUsed: seq<bool>
    var pageDir: map<nat, nat>
    var structure: map<nat, nat>

    /** process_init: no process yet, every kernel stack free. */
    constructor (mmu: Mmu, vfs: Vfs.Vfs, procSize: nat)
      requires mmu.Valid() && vfs.Valid() && vfs.tables == map[]
      requires mmu.heap.heapEnd + procSize + 2 * PAGE_SIZE <= WORD
      ensures Valid() && this.mmu == mmu && this.vfs == vfs && this.procSize == procSize
      ensures pageDir == map[] && structure == map[] && nextPid == 1 && forall k :: 0 <= k < STACKS ==> !stackUsed[k]
    {
      this.mmu, this.vfs, this.procSize := mmu, vfs, procSize;
      nextPid, stackUsed, pageDir, structure := 1, seq(64, _ => false), map[], map[];
    }

    ghost predicate Memory()
      reads mmu, mmu.heap, mmu.pmm.bitmap
    {
      mmu.Valid() && mmu.heap.heapEnd + procSize + 2 * PAGE_SIZE <= WORD
    }

    /** Every process has a descriptor table, a user space, and a pid given out already. */
    ghost predicate Processes()
      reads this, mmu`spaces, vfs`tables
    {
      && |stackUsed| == STACKS && 0 < nextPid
      && (forall pid :: pid in pageDir ==> pid in vfs.tables && pageDir[pid] in mmu.spaces)
      && (forall pid :: pid in vfs.tables ==> pid < nextPid)
    }

    ghost predicate Valid()
      reads this, mmu, mmu.heap, mmu.pmm.bitmap, vfs, vfs.pipes, vfs.Bufs()
    {
      Memory() && vfs.Valid() && Processes()
    }

    /** No user page of the process lies in a slot where the kernel maps frames of its own. */
    ghost predicate Forkable(parent: nat)
      reads this, mmu, mmu.pmm.bitmap
    {
      && parent in pageDir && pageDir[parent] in mmu.spaces
      && forall i: nat :: Owns(mmu.L(), pageDir[parent], i) ==> SlotLow(mmu.L(), i)
    }

    ghost function Now(): (b: Before)
      reads mmu, mmu.heap, mmu.pmm.bitmap
    {
      Before(mmu.L(), mmu.ram, mmu.heap.blocks, mmu.heap.LiveBlocks(), mmu.heap.Payloads())
    }

    // -------------------------------------------------------------------------
    // Half-made children
    // -------------------------------------------------------------------------

    /** Memory is as before but for the clone `dir` of `src`. */
    ghost predicate Cloned(b: Before, src: nat, dir: nat)
      reads mmu, mmu.heap, mmu.pmm.bitmap
    {
      && Memory() && Inv(b.L) && |b.ram| == |mmu.ram| == FRAMES && IsClone(b.L, mmu.L(), b.ram, mmu.ram, src, dir)
      && Without(mmu.heap.LiveBlocks(), Addrs(PagesOf(mmu.L(), dir))) == b.live
      && Canonical(b.blocks, mmu.heap.heapStart, mmu.heap.heapEnd) && Live(b.blocks) == b.live
      && b.payloads <= mmu.heap.Payloads()
    }

    /** And but for a heap block at `p`. */
    ghost predicate WithStructure(b: Before, src: nat, dir: nat, p: nat)
      reads mmu, mmu.heap, mmu.pmm.bitmap
    {
      && Memory() && Inv(b.L) && |b.ram| == |mmu.ram| == FRAMES && IsClone(b.L, mmu.L(), b.ram, mmu.ram, src, dir)
      && Without(Without(mmu.heap.LiveBlocks(), {p}), Addrs(PagesOf(mmu.L(), dir))) == b.live
      && Canonical(b.blocks, mmu.heap.heapStart, mmu.heap.heapEnd) && Live(b.blocks) == b.live
      && p in mmu.heap.Payloads() && b.payloads <= mmu.heap.Payloads() - {p}
      && mmu.PagesInHeap(mmu.heap.Payloads() - {p}) && p < WORD && p != 0
    }

    /** The block list once the space is cloned. */
    static ghost function AfterClone(L: Layout, blocks: seq<Block>, src: nat): seq<Block> {
      AfterPages(blocks, 1 + Tables(L, src, ENTRIES))
    }

    /** Heap and frames suffice for a clone of the space, the heap then has room for a process
        structure, and a kernel stack is free. */
    ghost predicate Possible(L: Layout, blocks: seq<Block>, src: nat)
      reads this`stackUsed
    {
      && Affordable(L, blocks, src) && procSize != 0 && Serves(AfterClone(L, blocks, src), procSize, false)
      && exists k :: 0 <= k < |stackUsed| && !stackUsed[k]
    }

    /** The clone, or nothing. */
    method CloneMemory(src: nat) returns (dir: nat)
      requires Memory() && src in mmu.spaces && forall i: nat :: Owns(mmu.L(), src, i) ==> SlotLow(mmu.L(), i)
      modifies mmu, mmu.heap, mmu.pmm.bitmap
      ensures dir == 0 ==> Memory() && mmu.L() == old(mmu.L()) && mmu.heap.blocks == old(mmu.heap.blocks)
      ensures dir == 0 ==> |mmu.ram| == FRAMES && RamKept(old(mmu.L()), old(mmu.ram), mmu.ram)
      ensures dir != 0 ==> Cloned(old(Now()), src, dir)
      ensures dir != 0 <==> Affordable(old(mmu.L()), old(mmu.heap.blocks), src)
      ensures dir != 0 ==>
        mmu.heap.blocks == AfterClone(old(mmu.L()), old(mmu.heap.blocks), src) && mmu.heap.heapStart != 0
    {
      hide Inv, IsClone, Canonical, RamKept, CellCloned, Affordable, AfterPages, Tables;
      InHeap(src);
      ghost var was := Now();
      dir := mmu.CloneSpace(src);
      if dir != 0 { LivePayloadsKept(was, PagesOf(mmu.L(), dir)); }
    }

    /** The heap of the kernel is in use as soon as there is a user space. */
    lemma InHeap(dir: nat)
      requires mmu.Valid() && dir in mmu.spaces
      ensures mmu.heap.heapStart != 0
    {
      UserDir(mmu.L(), dir);
      mmu.heap.LivePayloadsNonzero(4096 * dir);
    }

    lemma LivePayloadsKept(b: Before, pages: set<nat>)
      requires Without(mmu.heap.LiveBlocks(), Addrs(pages)) == b.live
      requires b.payloads == set x | x in b.live :: x.Payload()
      ensures b.payloads <= mmu.heap.Payloads()
    {
    }

    /** kheap_alloc of the process structure. */
    method AllocStructure(ghost b: Before, ghost src: nat, dir: nat) returns (p: nat)
      requires Cloned(b, src, dir)
      modifies mmu.heap
      ensures p != 0 <==> old(mmu.heap.heapStart) != 0 && procSize != 0 && Serves(old(mmu.heap.blocks), procSize, false)
      ensures p == 0 ==> Cloned(b, src, dir)
      ensures p != 0 ==> WithStructure(b, src, dir, p) && p !in b.payloads
    {
      hide Inv, IsClone, Canonical, CellCloned;
      p := mmu.heap.Alloc(procSize, false);
    }

    /** kheap_free of the process structure. */
    method FreeStructure(ghost b: Before, ghost src: nat, dir: nat, p: nat)
      requires WithStructure(b, src, dir, p)
      modifies mmu.heap
      ensures Cloned(b, src, dir)
    {
      hide Inv, IsClone, Canonical, CellCloned;
      mmu.heap.Free(p);
    }

    /** Destroying the clone leaves nothing of it: memory is exactly as it was. */
    method Undo(ghost b: Before, ghost src: nat, dir: nat)
      requires Cloned(b, src, dir)
      modifies mmu, mmu.heap, mmu.pmm.bitmap
      ensures Memory() && mmu.L() == b.L && mmu.heap.blocks == b.blocks
      ensures |b.ram| == |mmu.ram| == FRAMES && RamKept(b.L, b.ram, mmu.ram)
    {
      hide Inv, Canonical, CellCloned, RamKept;
      CloneReleases(b.L, mmu.L(), b.ram, mmu.ram, src, dir);
      InHeap(dir);
      mmu.DestroySpace(dir);
      CanonicalDeterminedByLive(b.blocks, mmu.heap.blocks, mmu.heap.heapStart, mmu.heap.heapEnd);
    }

    static lemma CloneReleases(L0: Layout, L: Layout, ram0: seq<PageData>, ram: seq<PageData>, src: nat, c: nat)
      requires Inv(L0) && Inv(L) && |ram0| == |ram| == FRAMES && IsClone(L0, L, ram0, ram, src, c)
      ensures Released(L, c) == L0 && c in L.spaces && RamKept(L0, ram0, ram)
    {
      ReleasedRestores(L0, L, c);
    }

    /** The lowest free kernel stack, or the number of stacks. */
    method FreeStack() returns (k: nat)
      ensures k <= |stackUsed| && (k < |stackUsed| ==> !stackUsed[k]) && forall i :: 0 <= i < k ==> stackUsed[i]
    {
      k := 0;
      while k < |stackUsed| && stackUsed[k]
        invariant k <= |stackUsed| && forall i :: 0 <= i < k ==> stackUsed[i]
      {
        k := k + 1;
      }
    }

    /** Memory for a child: address space, structure and kernel stack, or nothing at all, if one of the
        three is missing. A pid is used up once there is a structure. */
    method MakeChild(src: nat) returns (dir: nat, p: nat, k: nat, pid: nat)
      requires Memory() && src in mmu.spaces && forall i: nat :: Owns(mmu.L(), src, i) ==> SlotLow(mmu.L(), i)
      modifies this`nextPid, mmu, mmu.heap, mmu.pmm.bitmap
      ensures Memory() && pid == old(nextPid) && pid <= nextPid <= pid + 1 && (dir != 0 ==> nextPid == pid + 1)
      ensures dir != 0 <==> old(Possible(mmu.L(), mmu.heap.blocks, src))
      ensures dir == 0 ==> mmu.L() == old(mmu.L()) && mmu.heap.blocks == old(mmu.heap.blocks)
      ensures |old(mmu.ram)| == |mmu.ram| == FRAMES && RamKept(old(mmu.L()), old(mmu.ram), mmu.ram)
      ensures dir != 0 ==> WithStructure(old(Now()), src, dir, p) && p !in old(mmu.heap.Payloads())
      ensures dir != 0 ==> k < |stackUsed| && !stackUsed[k] && forall i :: 0 <= i < k ==> stackUsed[i]
    {
      hide *;
      ghost var b := Now();
      BeforeIs(b);
      dir := CloneMemory(src);
      p, k, pid := 0, 0, nextPid;
      PossibleIs(b, src);
      if dir == 0 { return; }
      p := AllocStructure(b, src, dir);
      if p == 0 {
        Undo(b, src, dir);
        return 0, 0, 0, pid;
      }
      nextPid := nextPid + 1;
      k := FreeStack();
      if k == |stackUsed| {
        FreeStructure(b, src, dir, p);
        Undo(b, src, dir);
        return 0, 0, 0, pid;
      }
      StructureMemory(b, src, dir, p);
    }

    lemma PossibleIs(b: Before, src: nat)
      ensures Possible(b.L, b.blocks, src) <==>
              && Affordable(b.L, b.blocks, src) && procSize != 0
              && Serves(AfterClone(b.L, b.blocks, src), procSize, false)
              && exists k :: 0 <= k < |stackUsed| && !stackUsed[k]
    {
    }

    lemma BeforeIs(b: Before)
      requires Memory() && b == Now()
      ensures |mmu.ram| == FRAMES && b.L == mmu.L() && b.ram == mmu.ram && b.blocks == mmu.heap.blocks
      ensures b.payloads == mmu.heap.Payloads()
    {
    }

    lemma StructureMemory(b: Before, src: nat, dir: nat, p: nat)
      requires WithStructure(b, src, dir, p)
      ensures Memory() && |b.ram| == |mmu.ram| == FRAMES && RamKept(b.L, b.ram, mmu.ram)
      ensures IsClone(b.L, mmu.L(), b.ram, mmu.ram, src, dir) && dir in mmu.spaces && b.L.spaces <= mmu.spaces
      ensures p in mmu.heap.Payloads()
    {
    }

    static ghost predicate OneStackTaken(was: seq<bool>, now: seq<bool>, k: int) {
      0 <= k < |was| && !was[k] && now == was[k := true]
    }

    /** process_fork_current. On success the child has a clone of the parent's memory, a structure
        and a stack of its own, and the parent's descriptors, each counted. It fails exactly when heap,
        frames or stacks do not suffice, and then every table, frame mark, heap block, stack and
        descriptor is as it was. */
    method Fork(parent: nat) returns (child: nat)
      requires Valid() && Forkable(parent)
      modifies this, mmu, mmu.heap, mmu.pmm.bitmap, vfs, vfs.pipes
      ensures Valid()
      ensures child != 0 <==> old(Possible(mmu.L(), mmu.heap.blocks, pageDir[parent]))
      ensures child == 0 ==>
        mmu.L() == old(mmu.L()) && mmu.heap.blocks == old(mmu.heap.blocks) && vfs.S() == old(vfs.S())
      ensures child == 0 ==> stackUsed == old(stackUsed) && pageDir == old(pageDir) && structure == old(structure)
      ensures |old(mmu.ram)| == |mmu.ram| == FRAMES && RamKept(old(mmu.L()), old(mmu.ram), mmu.ram)
      ensures child != 0 ==>
        && child !in old(vfs.tables) && vfs.S() == FdModel.Inherit(old(vfs.S()), parent, child)
        && child in pageDir && pageDir == old(pageDir)[child := pageDir[child]]
        && IsClone(old(mmu.L()), mmu.L(), old(mmu.ram), mmu.ram, old(pageDir)[parent], pageDir[child])
      ensures child != 0 ==>
        && child in structure && structure == old(structure)[child := structure[child]]
        && structure[child] in mmu.heap.Payloads() && structure[child] !in old(mmu.heap.Payloads())
      ensures child != 0 ==> exists k :: OneStackTaken(old(stackUsed), stackUsed, k)
    {
      hide Memory, Inv, IsClone, Canonical, CellCloned, RamKept, WithStructure, OneStackTaken, FdModel.Inherit;
      hide Possible;
      ghost var b := Now();
      BeforeIs(b);
      var dir, p, k, pid := MakeChild(pageDir[parent]);
      if dir == 0 {
        return 0;
      }
      StructureMemory(b, pageDir[parent], dir, p);
      child := pid;
      Enroll(parent, child, dir, p, k);
    }

    /** The child becomes a process: stack, directory, structure, descriptors. */
    method Enroll(parent: nat, child: nat, dir: nat, p: nat, k: nat)
      requires vfs.Valid() && Processes() && parent in pageDir && dir in mmu.spaces && k < |stackUsed| && !stackUsed[k]
      requires 0 < child < nextPid && child !in vfs.tables
      modifies this`stackUsed, this`pageDir, this`structure, vfs, vfs.pipes
      ensures vfs.Valid() && Processes() && vfs.S() == FdModel.Inherit(old(vfs.S()), parent, child)
      ensures child !in old(pageDir) && pageDir == old(pageDir)[child := dir] && structure == old(structure)[child := p]
      ensures OneStackTaken(old(stackUsed), stackUsed, k)
    {
      stackUsed := stackUsed[k := true];
      pageDir := pageDir[child := dir];
      structure := structure[child := p];
      vfs.Inherit(parent, child);
    }
  }
}
