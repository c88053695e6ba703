/** kernel/paging.c as it runs: the frame bitmap, and the directories and tables it rewrites in
    place, with every page of tables taken from the kernel heap. */
module Paging {
  import opened KHeap
  import opened PageTables
  import opened CloneCost

  /** The physical frame bitmap. */
  class Pmm {
    const bitmap: array<bool>

    constructor ()
      ensures Valid() && fresh(bitmap) && Used() == {}
    {
      bitmap := new bool[FRAMES](_ => false);
    }

    ghost predicate Valid() { bitmap.Length == FRAMES }

    ghost function Used(): set<nat>
      reads bitmap
    {
      set f: nat | f < bitmap.Length && bitmap[f]
    }

    /** pmm_alloc_frame: the lowest free frame above frame 0, or 0. */
    method AllocFrame() returns (f: nat)
      requires Valid()
      modifies bitmap
      ensures f == 0 ==> Used() == old(Used()) && forall g: nat :: 0 < g < FRAMES ==> g in old(Used())
      ensures f != 0 ==> f < FRAMES && f !in old(Used()) && Used() == old(Used()) + {f}
      ensures f != 0 ==> forall g: nat :: 0 < g < f ==> g in old(Used())
    {
      for i := 1 to FRAMES
        invariant forall g :: 0 < g < i ==> bitmap[g]
        invariant Used() == old(Used())
      {
        if !bitmap[i] {
          bitmap[i] := true;
          return i;
        }
      }
      return 0;
    }

    /** pmm_free_frame */
    method FreeFrame(f: nat)
      requires Valid() && f < FRAMES
      modifies bitmap
      ensures Used() == old(Used()) - {f}
    {
      bitmap[f] := false;
    }
  }

  ghost function Addrs(ps: set<nat>): set<nat> { set x | x in ps :: 4096 * x }

  lemma WithoutTwice(live: set<Block>, a: set<nat>, b: set<nat>)
    ensures Without(Without(live, a), b) == Without(live, a + b)
  {
  }

  lemma WithoutOneMore(live: set<Block>, gone: set<nat>, t: nat)
    ensures Without(Without(live, Addrs(gone)), {4096 * t}) == Without(live, Addrs(gone + {t}))
    ensures Without(Without(live, {4096 * t}), Addrs(gone)) == Without(live, Addrs(gone + {t}))
  {
    assert Addrs(gone + {t}) == Addrs(gone) + {4096 * t};
    WithoutTwice(live, Addrs(gone), {4096 * t});
    WithoutTwice(live, {4096 * t}, Addrs(gone));
    assert Addrs(gone) + {4096 * t} == {4096 * t} + Addrs(gone);
  }

  class Mmu {
    const kdir: nat
    const first: nat
    const heap: Heap
    const pmm: Pmm
    var pages: map<nat, Page>
    var ram: seq<PageData>
    ghost var spaces: set<nat>
    ghost var tableOwner: map<nat, Slot>
    ghost var frameOwner: map<nat, Cell>

    /** paging_init: the kernel directory maps the first 4 MB onto themselves. */
    constructor (kdir: nat, first: nat, heap: Heap, pmm: Pmm)
      requires heap.Valid() && pmm.Valid() && heap.heapEnd + 3 * PAGE_SIZE <= WORD
      requires kdir != first && 0 < kdir && 0 < first
      requires 4096 * kdir <= heap.heapStart || heap.heapEnd <= 4096 * kdir
      requires 4096 * first <= heap.heapStart || heap.heapEnd <= 4096 * first
      modifies pmm.bitmap
      ensures Valid() && spaces == {}
      ensures this.kdir == kdir && this.first == first && this.heap == heap && this.pmm == pmm
      ensures forall i: nat, j: nat :: i < ENTRIES && j < ENTRIES ==>
                Lookup(pages, kdir, i, j) == if i == 0 then Entry(j, Flags(true, true, false, 0)) else ABSENT
      ensures forall f: nat :: f in pmm.Used() <==> f in old(pmm.Used()) || f < LOW
    {
      this.kdir, this.first, this.heap, this.pmm := kdir, first, heap, pmm;
      var identity: Page := seq(1024, j requires 0 <= j => Entry(j, Flags(true, true, false, 0)));
      var dir: Page := seq(1024, _ => ABSENT);
      pages := map[kdir := dir[0 := Entry(first, Flags(true, true, false, 0))], first := identity];
      ram := seq(FRAMES, _ => []);
      spaces, tableOwner, frameOwner := {}, map[first := Slot(kdir, 0)], map[];
      new;
      for i := 0 to LOW
        modifies pmm.bitmap
        invariant forall f: nat :: f in pmm.Used() <==> f in old(pmm.Used()) || f < i
      {
        pmm.bitmap[i] := true;
      }
      InitialInv(L());
    }

    ghost function L(): Layout
      reads this, pmm.bitmap
    {
      Layout(kdir, first, pages, pmm.Used(), spaces, tableOwner, frameOwner)
    }

    ghost predicate Valid()
      reads this, heap, pmm.bitmap
    {
      Inv(L()) && Placed()
    }

    /** What holds beside the layout: the pages lie in the heap, which the static ones do not. */
    ghost predicate Placed()
      reads this, heap
    {
      && heap.Valid() && pmm.Valid() && |ram| == FRAMES
      && heap.heapEnd + 3 * PAGE_SIZE <= WORD
      && PagesInHeap(heap.Payloads())
      && Outside(kdir) && Outside(first)
    }

    /** Frames in use. */
    ghost function Load(): nat
      reads pmm.bitmap
    {
      |pmm.Used()|
    }

    ghost predicate Outside(x: nat)
      reads heap
    {
      4096 * x <= heap.heapStart || heap.heapEnd <= 4096 * x
    }

    /** Every page but the two static ones is a live heap allocation. */
    ghost predicate PagesInHeap(payloads: set<nat>)
      reads this
    {
      forall x :: x in pages && x != kdir && x != first ==> 4096 * x in payloads
    }

    /** kheap_alloc(PAGE_SIZE, 1), as a page number; 0 when the heap is full. */
    method AllocPage() returns (t: nat)
      requires Valid()
      modifies heap
      ensures Valid() && (t != 0 <==> old(heap.CanServe(PAGE_SIZE, true)))
      ensures t != 0 <==> old(heap.heapStart) != 0 && Serves(old(heap.blocks), PAGE_SIZE, true)
      ensures t != 0 ==> heap.blocks == AfterPage(old(heap.blocks))
      ensures t == 0 ==> heap.blocks == old(heap.blocks) && heap.LiveBlocks() == old(heap.LiveBlocks())
      ensures t != 0 ==> t !in L().pages && 4096 * t in heap.Payloads()
      ensures t != 0 ==> 4096 * t !in old(heap.Payloads()) && heap.Payloads() == old(heap.Payloads()) + {4096 * t}
      ensures t != 0 ==> Without(heap.LiveBlocks(), {4096 * t}) == old(heap.LiveBlocks())
      ensures heap.heapStart == old(heap.heapStart) && heap.heapEnd == old(heap.heapEnd)
    {
      var p := heap.Alloc(PAGE_SIZE, true);
      t := p / 4096;
      assert p == 4096 * t;
    }

    /** Hangs page `t` in slot i of `d`. */
    method SetSlot(d: nat, i: nat, t: nat, contents: Page, flags: Flags)
      requires d in pages && i < ENTRIES && t != d
      modifies this`pages, this`tableOwner
      ensures L() == Install(old(L()), d, i, t, contents, flags)
    {
      pages := pages[t := contents];
      pages := pages[d := pages[d][i := Entry(t, flags)]];
      tableOwner := tableOwner[t := Slot(d, i)];
    }

    /** Writes one entry of a table `d` owns; an entry that would not change is left alone. */
    method WriteEntry(d: nat, i: nat, j: nat, e: Entry)
      requires Owns(L(), d, i) && j < ENTRIES && pages[d][i].page in pages
      modifies this`pages, this`frameOwner
      ensures L() == SetEntry(old(L()), d, i, j, e)
    {
      var t := pages[d][i].page;
      frameOwner := SetEntry(L(), d, i, j, e).frameOwner;
      if pages[t][j] != e {
        pages := pages[t := pages[t][j := e]];
      } else {
        assert pages[t][j := e] == pages[t];
        assert pages[t := pages[t]] == pages;
      }
    }

    /** Puts a fresh page holding `contents` into slot i of `d`. */
    method InstallPage(d: nat, i: nat, contents: Page, user: bool) returns (t: nat)
      requires Valid() && Dir(L(), d) && i < ENTRIES && !Owns(L(), d, i)
      requires forall j :: 0 <= j < ENTRIES && contents[j].flags.present ==> contents[j].page < LOW
      modifies this`pages, this`tableOwner, heap
      ensures Valid()
      ensures t != 0 <==> old(heap.CanServe(PAGE_SIZE, true))
      ensures t == 0 ==> L() == old(L()) && heap.blocks == old(heap.blocks)
      ensures t != 0 ==> MayInstall(old(L()), d, i, t, contents, Flags(true, true, user, 0))
      ensures t != 0 ==> L() == Install(old(L()), d, i, t, contents, Flags(true, true, user, 0))
    {
      t := AllocPage();
      if t == 0 { return; }
      InstallInv(L(), d, i, t, contents, Flags(true, true, user, 0));
      SetSlot(d, i, t, contents, Flags(true, true, user, 0));
    }

    /** paging_ensure_page_table: the table for slot i, giving `d` one of its own if the slot is
        absent (a zeroed page) or shared with the kernel (a copy). No translation changes. */
    method EnsurePageTable(d: nat, i: nat, user: bool) returns (t: nat)
      requires Valid() && Dir(L(), d) && i < ENTRIES
      requires !Owns(L(), d, i) ==> SlotLow(L(), i) || !pages[d][i].flags.present
      modifies this`pages, this`tableOwner, heap
      ensures Valid()
      ensures t == 0 <==> !old(Owns(L(), d, i)) && !old(heap.CanServe(PAGE_SIZE, true))
      ensures t == 0 ==> L() == old(L()) && heap.blocks == old(heap.blocks)
      ensures t != 0 ==> Owns(L(), d, i) && pages[d][i].page == t && Widened(old(L()), L())
    {
      var pde := pages[d][i];
      if !pde.flags.present {
        var zero: Page := seq(1024, _ => ABSENT);
        t := InstallPage(d, i, zero, user);
        if t != 0 { InstallWidens(old(L()), d, i, t, zero, Flags(true, true, user, 0)); }
      } else if pde.page == pages[kdir][i].page && d != kdir {
        TableInPages(L(), d, i);
        assert forall j: nat :: j < ENTRIES ==> Lookup(pages, kdir, i, j) == pages[pde.page][j];
        var copy := pages[pde.page];
        t := InstallPage(d, i, copy, user);
        if t != 0 { InstallWidens(old(L()), d, i, t, copy, Flags(true, true, user, 0)); }
      } else {
        TableInPages(L(), d, i);
        t := pde.page;
      }
    }

    /** The entry written for a page mapped to frame `f`. */
    static function MappedTo(f: nat, flags: Flags): (e: Entry)
      ensures e.page == f && e.flags.present
      ensures e.flags.writable == flags.writable && e.flags.user == flags.user && e.flags.rest == flags.rest
    {
      Entry(f, flags.(present := true))
    }

    /** paging_map_in_directory. If the heap can give no page for a needed table nothing happens;
        otherwise the page is mapped in `d` - if `d` is the kernel directory, also in every
        space that shares the slot - and no other page of any directory changes. */
    method MapIn(d: nat, virt: nat, f: nat, flags: Flags)
      requires Valid() && Dir(L(), d) && virt < WORD
      requires !Owns(L(), d, PdIndex(virt)) ==> SlotLow(L(), PdIndex(virt)) || !pages[d][PdIndex(virt)].flags.present
      requires MayEnter(L(), d, PdIndex(virt), PtIndex(virt), MappedTo(f, flags))
      modifies this`pages, this`tableOwner, this`frameOwner, heap
      ensures Valid()
      ensures if !old(Owns(L(), d, PdIndex(virt))) && !old(heap.CanServe(PAGE_SIZE, true))
              then L() == old(L()) && heap.blocks == old(heap.blocks)
              else
                && MapsPage(old(L()), L(), d, PdIndex(virt), PtIndex(virt), MappedTo(f, flags))
                && Remapped(old(L()), L(), d, virt, MappedTo(f, flags)) && pmm.Used() == old(pmm.Used())
    {
      var i, j := PdIndex(virt), PtIndex(virt);
      var t := EnsurePageTable(d, i, flags.user);
      if t == 0 { return; }
      MapsPageAfterWidening(old(L()), L(), d, i, j, MappedTo(f, flags));
      ChangeEntry(d, i, j, MappedTo(f, flags));
      MapsPageAddresses(old(L()), L(), d, virt, MappedTo(f, flags));
    }

    /** Rewrites one entry of a slot the directory owns. */
    method ChangeEntry(d: nat, i: nat, j: nat, e: Entry)
      requires Valid() && Dir(L(), d) && Owns(L(), d, i) && j < ENTRIES && MayEnter(L(), d, i, j, e)
      modifies this`pages, this`frameOwner
      ensures Valid() && L() == SetEntry(old(L()), d, i, j, e)
    {
      TableInPages(L(), d, i);
      SetEntryInv(L(), d, i, j, e);
      WriteEntry(d, i, j, e);
    }

    /** Clears one entry of a slot the space owns and frees the frame it held. */
    method ClearAndFree(d: nat, i: nat, j: nat, f: nat)
      requires Valid() && d in spaces && Holds(L(), d, i, j, f)
      modifies this`pages, this`frameOwner, pmm.bitmap
      ensures Valid() && L() == SetEntry(old(L()), d, i, j, ABSENT).(used := old(pmm.Used()) - {f})
    {
      TableInPages(L(), d, i);
      FreedFrameInv(L(), d, i, j, f);
      pmm.FreeFrame(f);
      WriteEntry(d, i, j, ABSENT);
    }

    /** paging_unmap_in_directory, on a slot the space owns (or a page that is not present). */
    method UnmapIn(d: nat, virt: nat) returns (r: int)
      requires Valid() && d in spaces && virt < WORD
      requires Owns(L(), d, PdIndex(virt)) || !Translate(pages, d, virt).flags.present
      modifies this`pages, this`frameOwner, pmm.bitmap
      ensures Valid()
      ensures var was := old(Translate(pages, d, virt));
              if !was.flags.present then r == -1 && L() == old(L())
              else
                && r == 0 && MapsPage(old(L()), L(), d, PdIndex(virt), PtIndex(virt), ABSENT)
                && Remapped(old(L()), L(), d, virt, ABSENT)
                && pmm.Used() == if was.page >= LOW then old(pmm.Used()) - {was.page} else old(pmm.Used())
    {
      hide TablesOwned, SlotsShared, FramesOwned, Remapped, Widened, PdIndex, PtIndex;
      var i, j := PdIndex(virt), PtIndex(virt);
      var e := EntryAt(d, i, j);
      if !e.flags.present { return -1; }
      SetEntryMaps(L(), d, i, j, ABSENT);
      if e.page < LOW {
        ChangeEntry(d, i, j, ABSENT);
      } else {
        assert Holds(L(), d, i, j, e.page);
        ClearAndFree(d, i, j, e.page);
      }
      MapsPageAddresses(old(L()), L(), d, virt, ABSENT);
      r := 0;
    }

    /** The walk both changes below start with: the entry at (i, j), ABSENT without a table. */
    method EntryAt(d: nat, i: nat, j: nat) returns (e: Entry)
      requires Inv(L()) && Dir(L(), d) && i < ENTRIES && j < ENTRIES
      ensures e == Lookup(pages, d, i, j)
    {
      if !pages[d][i].flags.present { return ABSENT; }
      TableInPages(L(), d, i);
      e := pages[pages[d][i].page][j];
    }

    /** paging_create_address_space */
    method CreateSpace() returns (c: nat)
      requires Valid()
      modifies this`pages, this`spaces, heap
      ensures Valid()
      ensures c != 0 <==> old(heap.CanServe(PAGE_SIZE, true))
      ensures c != 0 <==> old(heap.heapStart) != 0 && Serves(old(heap.blocks), PAGE_SIZE, true)
      ensures c != 0 ==> heap.blocks == AfterPage(old(heap.blocks))
      ensures c == 0 ==> L() == old(L()) && heap.blocks == old(heap.blocks)
      ensures c != 0 ==> c !in old(pages) && L() == AddSpace(old(L()), c)
      ensures c != 0 ==> Without(heap.LiveBlocks(), {4096 * c}) == old(heap.LiveBlocks())
      ensures heap.heapStart == old(heap.heapStart) && heap.heapEnd == old(heap.heapEnd)
    {
      c := AllocPage();
      if c == 0 { return; }
      AddSpaceInv(L(), c);
      pages := pages[c := pages[kdir]];
      spaces := spaces + {c};
    }

    /** paging_copy_frame: through two scratch slots of the kernel's identity table, which are
        put back afterwards. */
    method CopyFrame(src: nat, dst: nat)
      requires Inv(L()) && |ram| == FRAMES && src < FRAMES && dst < FRAMES
      modifies this`pages, this`ram
      ensures pages == old(pages)
      ensures ram == old(ram)[dst := old(ram)[src]]
    {
      TableInPages(L(), kdir, 0);
      var oldSrc, oldDst := pages[first][1022], pages[first][1023];
      pages := pages[first := pages[first][1022 := Entry(src, Flags(true, true, false, 0))]];
      pages := pages[first := pages[first][1023 := Entry(dst, Flags(true, true, false, 0))]];
      var from := Lookup(pages, kdir, 0, 1022).page;
      var to := Lookup(pages, kdir, 0, 1023).page;
      ram := ram[to := ram[from]];
      pages := pages[first := pages[first][1022 := oldSrc]];
      pages := pages[first := pages[first][1023 := oldDst]];
      assert pages[first] == old(pages)[first];
    }

    /** paging_set_page_flags_in_directory, on a slot the space owns (or a page not present). */
    method SetPageFlags(d: nat, virt: nat, flags: Flags) returns (r: int)
      requires Valid() && d in spaces && virt < WORD
      requires Owns(L(), d, PdIndex(virt)) || !Translate(pages, d, virt).flags.present
      modifies this`pages, this`frameOwner
      ensures Valid() && pmm.Used() == old(pmm.Used())
      ensures var was := old(Translate(pages, d, virt));
              if !was.flags.present then r == -1 && L() == old(L())
              else
                && r == 0 && MapsPage(old(L()), L(), d, PdIndex(virt), PtIndex(virt), MappedTo(was.page, flags))
                && Remapped(old(L()), L(), d, virt, MappedTo(was.page, flags))
    {
      var i, j := PdIndex(virt), PtIndex(virt);
      var e := EntryAt(d, i, j);
      if !e.flags.present { return -1; }
      SetEntryMaps(L(), d, i, j, MappedTo(e.page, flags));
      SameFrameMayEnter(L(), d, i, j, MappedTo(e.page, flags));
      ChangeEntry(d, i, j, MappedTo(e.page, flags));
      MapsPageAddresses(old(L()), L(), d, virt, MappedTo(e.page, flags));
      r := 0;
    }

    /** Frees every frame at or above 4 MB in the table of slot i. */
    method FreeTableFrames(d: nat, i: nat)
      requires Inv(L()) && pmm.Valid() && d in spaces && Owns(L(), d, i)
      modifies pmm.bitmap
      ensures pmm.Used() == old(pmm.Used()) - FramesAt(old(L()), d, i)
    {
      hide TablesOwned, SlotsShared;
      ghost var was := L();
      TableInPages(was, d, i);
      var table := pages[pages[d][i].page];
      for j := 0 to ENTRIES
        invariant pmm.Used() == old(pmm.Used()) - FramesBelow(was, d, i, j)
      {
        FramesBelowStep(was, d, i, j);
        if table[j].flags.present && table[j].page >= LOW {
          pmm.FreeFrame(table[j].page);
        }
      }
    }

    /** Gives table `t` back to the heap and clears the directory entry that held it. */
    method DropTable(d: nat, i: nat, t: nat)
      requires heap.Valid() && PagesInHeap(heap.Payloads()) && d in pages && i < ENTRIES
      requires t in pages && t != d && t != kdir && t != first
      modifies this`pages, this`tableOwner, this`frameOwner, heap
      ensures heap.Valid() && PagesInHeap(heap.Payloads())
      ensures heap.heapStart == old(heap.heapStart) && heap.heapEnd == old(heap.heapEnd)
      ensures heap.LiveBlocks() == Without(old(heap.LiveBlocks()), {4096 * t})
      ensures pages == (old(pages) - {t})[d := old(pages)[d][i := ABSENT]]
      ensures tableOwner == old(tableOwner) - {t}
      ensures frameOwner == old(frameOwner) - FramesAt(old(L()), d, i)
    {
      frameOwner := frameOwner - FramesAt(L(), d, i);
      tableOwner := tableOwner - {t};
      heap.LivePayloadsNonzero(4096 * t);
      heap.Free(4096 * t);
      pages := (pages - {t})[d := pages[d][i := ABSENT]];
    }

    /** Takes slot i of a space away: its frames, its table, its directory entry. */
    method ReleaseTable(d: nat, i: nat)
      requires Valid() && d in spaces && Owns(L(), d, i)
      modifies this`pages, this`tableOwner, this`frameOwner, heap, pmm.bitmap
      ensures Valid() && L() == ReleaseSlot(old(L()), d, i)
      ensures heap.LiveBlocks() == Without(old(heap.LiveBlocks()), {4096 * old(pages[d][i].page)})
      ensures heap.heapStart == old(heap.heapStart) && heap.heapEnd == old(heap.heapEnd)
    {
      ghost var after := ReleaseSlot(L(), d, i);
      UserPage(L(), d, i);
      ReleaseSlotInv(L(), d, i);
      var t := pages[d][i].page;
      FreeTableFrames(d, i);
      DropTable(d, i, t);
      assert L() == after;
    }

    /** One turn of the loop below. */
    method DestroySlot(d: nat, i: nat, ghost was: Layout, ghost live: set<Block>, ghost gone: set<nat>)
      returns (ghost gone': set<nat>)
      requires Valid() && Dying(was, L(), d, gone) && i < ENTRIES
      requires heap.LiveBlocks() == Without(live, Addrs(gone))
      modifies this`pages, this`tableOwner, this`frameOwner, heap, pmm.bitmap
      ensures Valid() && Dying(was, L(), d, gone')
      ensures heap.LiveBlocks() == Without(live, Addrs(gone'))
      ensures forall i': nat :: Owns(L(), d, i') ==> i' != i && old(Owns(L(), d, i'))
      ensures heap.heapStart == old(heap.heapStart) && heap.heapEnd == old(heap.heapEnd)
    {
      gone' := gone;
      var pde := pages[d][i];
      if pde.flags.present && pages[kdir][i].page != pde.page {
        SlotGone(was, L(), d, i, live, gone);
        ReleaseTable(d, i);
        gone' := gone + {pde.page};
      }
    }

    /** paging_destroy_address_space: exactly the space's own tables, frames and directory go. */
    method DestroySpace(d: nat)
      requires Valid() && (d == 0 || d == kdir || d in spaces)
      modifies this`pages, this`spaces, this`tableOwner, this`frameOwner, heap, pmm.bitmap
      ensures Valid()
      ensures d !in old(spaces) ==> L() == old(L()) && heap.blocks == old(heap.blocks)
      ensures d in old(spaces) ==> L() == Released(old(L()), d)
      ensures d in old(spaces) ==> heap.LiveBlocks() == Without(old(heap.LiveBlocks()), Addrs(PagesOf(old(L()), d)))
      ensures heap.heapStart == old(heap.heapStart) && heap.heapEnd == old(heap.heapEnd)
    {
      if d == 0 || d == kdir { return; }
      ghost var was := L();
      ghost var live := heap.LiveBlocks();
      ghost var gone: set<nat> := {};
      for i := 0 to ENTRIES
        invariant Valid() && Dying(was, L(), d, gone)
        invariant forall i': nat :: i' < i ==> !Owns(L(), d, i')
        invariant heap.LiveBlocks() == Without(live, Addrs(gone))
        invariant heap.heapStart == old(heap.heapStart) && heap.heapEnd == old(heap.heapEnd)
      {
        gone := DestroySlot(d, i, was, live, gone);
      }
      DropSpace(d);
      SpaceGone(was, d, live, gone);
    }

    /** Part-way through the destruction of `d`, having released the pages `gone`. */
    static ghost predicate Dying(was: Layout, L: Layout, d: nat, gone: set<nat>) {
      d in L.spaces && Released(L, d) == Released(was, d) && PagesOf(was, d) == PagesOf(L, d) + gone
    }

    static lemma SlotGone(was: Layout, L: Layout, d: nat, i: nat, live: set<Block>, gone: set<nat>)
      requires Inv(L) && Dying(was, L, d, gone) && Owns(L, d, i)
      ensures var t := L.pages[d][i].page;
              var L' := ReleaseSlot(L, d, i);
              && Dying(was, L', d, gone + {t})
              && Without(Without(live, Addrs(gone)), {4096 * t}) == Without(live, Addrs(gone + {t}))
              && forall i': nat :: Owns(L', d, i') ==> i' != i && Owns(L, d, i')
    {
      var t := L.pages[d][i].page;
      TableInPages(L, d, i);
      ReleaseSlotReleased(L, d, i, t);
      ReleaseSlotOwners(L, d, i, t);
      ReleaseSlotInv(L, d, i);
      WithoutOneMore(live, gone, t);
    }

    static lemma SpaceGone(L: Layout, d: nat, live: set<Block>, gone: set<nat>)
      requires PagesOf(L, d) == {d} + gone
      ensures Without(Without(live, Addrs(gone)), {4096 * d}) == Without(live, Addrs(PagesOf(L, d)))
    {
      WithoutOneMore(live, gone, d);
      assert gone + {d} == {d} + gone;
    }

    /** Gives the page of a directory back to the heap. */
    method DropDirectory(d: nat)
      requires heap.Valid() && PagesInHeap(heap.Payloads()) && d in pages && d != kdir && d != first
      modifies this`pages, this`spaces, heap
      ensures heap.Valid() && PagesInHeap(heap.Payloads())
      ensures heap.heapStart == old(heap.heapStart) && heap.heapEnd == old(heap.heapEnd)
      ensures heap.LiveBlocks() == Without(old(heap.LiveBlocks()), {4096 * d})
      ensures pages == old(pages) - {d} && spaces == old(spaces) - {d}
    {
      heap.LivePayloadsNonzero(4096 * d);
      heap.Free(4096 * d);
      pages := pages - {d};
      spaces := spaces - {d};
    }

    /** The directory itself, once it owns no table. */
    method DropSpace(d: nat)
      requires Valid() && d in spaces && forall i: nat :: !Owns(L(), d, i)
      modifies this`pages, this`spaces, heap
      ensures Valid() && L() == Released(old(L()), d) && old(PagesOf(L(), d)) == {d}
      ensures heap.LiveBlocks() == Without(old(heap.LiveBlocks()), {4096 * d})
      ensures heap.heapStart == old(heap.heapStart) && heap.heapEnd == old(heap.heapEnd)
    {
      ghost var after := Released(L(), d);
      ReleasedBare(L(), d);
      ReleasedBareInv(L(), d);
      UserDir(L(), d);
      DropDirectory(d);
      assert L() == after;
    }

    /** One page of the clone: a user page gets a fresh frame with the same contents. */
    method CloneCell(src: nat, c: nat, i: nat, j: nat, ghost L0: Layout, ghost ram0: seq<PageData>) returns (ok: bool)
      requires Valid() && |ram0| == FRAMES && SlotInv(L0, L(), ram0, ram, src, c, i, j) && j < ENTRIES
      requires Inv(L0) && src in L0.spaces && Owns(L0, src, i) && SlotLow(L0, i)
      modifies this`pages, this`ram, this`frameOwner, pmm.bitmap
      ensures Valid() && |ram| == FRAMES && SlotInv(L0, L(), ram0, ram, src, c, i, if ok then j + 1 else j)
      ensures PagesOf(L(), c) == old(PagesOf(L(), c))
      ensures ok ==> Load() == old(Load()) + if Copied(L0, src, i, j) then 1 else 0
      ensures !ok ==> Copied(L0, src, i, j) && old(Load()) == FRAMES
    {
      OwnedSlotKept(L0, L(), src, c, i);
      var pte := pages[pages[src][i].page][j];
      if !pte.flags.present || !pte.flags.user {
        SlotKeepsCell(L0, L(), ram0, ram, src, c, i, j);
        ok := true;
      } else {
        ok := CopyCell(src, c, i, j, pte, L0, ram0);
      }
    }

    /** Gives the child a fresh frame holding what the source page holds. */
    method CopyCell(src: nat, c: nat, i: nat, j: nat, pte: Entry, ghost L0: Layout, ghost ram0: seq<PageData>)
      returns (ok: bool)
      requires Valid() && |ram0| == FRAMES && SlotInv(L0, L(), ram0, ram, src, c, i, j) && j < ENTRIES && c in spaces
      requires Inv(L0) && src in L0.spaces && Copied(L0, src, i, j) && pte == Lookup(L0.pages, src, i, j)
      requires SlotLow(L0, i)
      requires L0.used <= pmm.Used()
      modifies this`pages, this`ram, this`frameOwner, pmm.bitmap
      ensures Valid() && |ram| == FRAMES && SlotInv(L0, L(), ram0, ram, src, c, i, if ok then j + 1 else j)
      ensures PagesOf(L(), c) == old(PagesOf(L(), c))
      ensures if ok then Load() == old(Load()) + 1 else old(Load()) == FRAMES
    {
      CellReady(L0, L(), ram0, ram, src, c, i, j);
      hide *;
      var f := TakeFrame();
      if f == 0 { return false; }
      SlotCopiesCell(L0, old(L()), ram0, ram, src, c, i, j, f);
      FillCell(c, i, j, f, pte, old(L()));
      ok := true;
    }

    /** pmm_alloc_frame; what it returns is never below 4 MB. */
    method TakeFrame() returns (f: nat)
      requires Valid()
      modifies pmm.bitmap
      ensures Placed()
      ensures if f == 0 then L() == old(L()) && Valid()
              else LOW <= f < FRAMES && f !in old(L()).used && L() == old(L()).(used := old(L()).used + {f})
      ensures if f == 0 then old(Load()) == FRAMES else Load() == old(Load()) + 1
    {
      FullCount(pmm.Used(), FRAMES);
      f := pmm.AllocFrame();
    }

    /** Enters the frame just taken at (i, j) and copies the source page into it. */
    method FillCell(c: nat, i: nat, j: nat, f: nat, pte: Entry, ghost was: Layout)
      requires Placed() && L() == was.(used := was.used + {f})
      requires Owns(was, c, i) && j < ENTRIES && was.pages[c][i].page in was.pages && c != was.kdir
      requires Inv(EnterFresh(was, c, i, j, Entry(f, pte.flags))) && f < FRAMES && pte.page < FRAMES
      modifies this`pages, this`ram, this`frameOwner
      ensures Valid() && L() == EnterFresh(was, c, i, j, Entry(f, pte.flags))
      ensures |ram| == FRAMES && ram == old(ram)[f := old(ram)[pte.page]]
    {
      WriteEntry(c, i, j, Entry(f, pte.flags));
      CopyFrame(pte.page, f);
    }

    /** One slot of the clone. */
    method CloneSlot(src: nat, c: nat, i: nat, ghost L0: Layout, ghost ram0: seq<PageData>, ghost live0: set<Block>,
                     ghost blocks0: seq<Block>)
      returns (ok: bool)
      requires Valid() && |ram0| == |ram| == FRAMES && CloneInv(L0, L(), ram0, ram, src, c, i) && i < ENTRIES
      requires Extends(L0, L(), c) && c in L().spaces && RamKept(L0, ram0, ram)
      requires Inv(L0) && L0.kdir == kdir && Dir(L0, src) && (src != kdir && Owns(L0, src, i) ==> SlotLow(L0, i))
      requires Without(heap.LiveBlocks(), Addrs(PagesOf(L(), c))) == live0
      requires heap.heapStart != 0 && Paid(L0, blocks0, src, i, Load(), heap.blocks)
      modifies this`pages, this`ram, this`tableOwner, this`frameOwner, heap, pmm.bitmap
      ensures Valid() && Extends(L0, L(), c) && c in L().spaces && |ram| == FRAMES
      ensures RamKept(L0, ram0, ram)
      ensures ok ==> CloneInv(L0, L(), ram0, ram, src, c, i + 1)
      ensures if ok then Paid(L0, blocks0, src, i + 1, Load(), heap.blocks) else !Affordable(L0, blocks0, src)
      ensures Without(heap.LiveBlocks(), Addrs(PagesOf(L(), c))) == live0
      ensures heap.heapStart == old(heap.heapStart) && heap.heapEnd == old(heap.heapEnd)
    {
      hide *;
      PaidSlot(L0, blocks0, src, i, Load(), heap.blocks);
      PrivateIs(L0, src, i);
      ok := true;
      var copied, flags := IsCopied(src, c, i, L0);
      if !copied {
        CloneSkipsSlot(L0, L(), ram0, ram, src, c, i);
        return;
      }
      ok := StartSlot(src, c, i, flags, L0, ram0, live0);
      if ok { ok := CloneCells(src, c, i, L0, ram0, live0); }
    }

    /** Whether the source has a table of its own in slot i; the flags of its directory entry. */
    method IsCopied(src: nat, ghost c: nat, i: nat, ghost L0: Layout) returns (copied: bool, flags: Flags)
      requires Inv(L0) && Extends(L0, L(), c) && Dir(L0, src) && i < ENTRIES
      ensures copied <==> src != L0.kdir && Owns(L0, src, i)
      ensures copied ==> src in L0.spaces && flags.present
    {
      var pde, kernelPde := pages[src][i], pages[kdir][i];
      copied, flags := pde.flags.present && kernelPde.page != pde.page, pde.flags;
    }

    /** The loop over the pages of one slot; stops at the first that fails. */
    method CloneCells(src: nat, c: nat, i: nat, ghost L0: Layout, ghost ram0: seq<PageData>, ghost live0: set<Block>)
      returns (ok: bool)
      requires Valid() && |ram0| == |ram| == FRAMES && SlotInv(L0, L(), ram0, ram, src, c, i, 0)
      requires Inv(L0) && src in L0.spaces && Owns(L0, src, i) && SlotLow(L0, i)
      requires Without(heap.LiveBlocks(), Addrs(PagesOf(L(), c))) == live0
      modifies this`pages, this`ram, this`frameOwner, pmm.bitmap
      ensures Valid() && Extends(L0, L(), c) && c in L().spaces && |ram| == FRAMES && RamKept(L0, ram0, ram)
      ensures ok ==> CloneInv(L0, L(), ram0, ram, src, c, i + 1)
      ensures ok ==> Load() == old(Load()) + SlotFrames(L0, src, i, ENTRIES)
      ensures !ok ==> old(Load()) + SlotFrames(L0, src, i, ENTRIES) > FRAMES
      ensures Without(heap.LiveBlocks(), Addrs(PagesOf(L(), c))) == live0
    {
      hide *;
      ok := true;
      NoFrames(L0, src, i);
      var j := 0;
      while ok && j < ENTRIES
        invariant j <= ENTRIES && (!ok ==> j < ENTRIES) && |ram| == FRAMES
        invariant Valid() && SlotInv(L0, L(), ram0, ram, src, c, i, j)
        invariant Without(heap.LiveBlocks(), Addrs(PagesOf(L(), c))) == live0
        invariant ok ==> Load() == old(Load()) + SlotFrames(L0, src, i, j)
        invariant !ok ==> old(Load()) + SlotFrames(L0, src, i, j + 1) > FRAMES
        decreases ok, ENTRIES - j
      {
        NextFrame(L0, src, i, j);
        ok := CloneCell(src, c, i, j, L0, ram0);
        if ok { j := j + 1; }
      }
      SlotRamKept(L0, L(), ram0, ram, src, c, i, j);
      if ok { SlotEnds(L0, L(), ram0, ram, src, c, i); } else { SlotFramesGrow(L0, src, i, j + 1, ENTRIES); }
    }

    /** The child's own table for slot i, starting as a copy of the kernel's. */
    method StartSlot(ghost src: nat, c: nat, i: nat, flags: Flags, ghost L0: Layout, ghost ram0: seq<PageData>,
                     ghost live0: set<Block>)
      returns (ok: bool)
      requires Valid() && |ram0| == |ram| == FRAMES && CloneInv(L0, L(), ram0, ram, src, c, i) && i < ENTRIES
      requires Inv(L0) && SlotLow(L0, i) && flags.present && Extends(L0, L(), c) && c in L().spaces
      requires Without(heap.LiveBlocks(), Addrs(PagesOf(L(), c))) == live0
      requires heap.heapStart != 0
      modifies this`pages, this`tableOwner, heap
      ensures Valid() && Without(heap.LiveBlocks(), Addrs(PagesOf(L(), c))) == live0
      ensures ok <==> Serves(old(heap.blocks), PAGE_SIZE, true)
      ensures ok ==> heap.blocks == AfterPage(old(heap.blocks))
      ensures if ok then SlotInv(L0, L(), ram0, ram, src, c, i, 0) else L() == old(L())
      ensures heap.heapStart == old(heap.heapStart) && heap.heapEnd == old(heap.heapEnd)
    {
      hide *;
      var t := AllocPage();
      if t == 0 { return false; }
      var contents := KernelTable(c, i, L0);
      SlotInstalls(L0, old(L()), ram0, ram, src, c, i, t, contents, flags);
      WithoutOneMore(heap.LiveBlocks(), old(PagesOf(L(), c)), t);
      HangTable(c, i, t, contents, flags);
      ok := true;
    }

    /** SetSlot for a page just taken from the heap. */
    method HangTable(c: nat, i: nat, t: nat, contents: Page, flags: Flags)
      requires Valid() && c in L().spaces && i < ENTRIES && t !in L().pages && 4096 * t in heap.Payloads()
      requires Inv(Install(L(), c, i, t, contents, flags))
      modifies this`pages, this`tableOwner
      ensures Valid() && L() == Install(old(L()), c, i, t, contents, flags)
    {
      SetSlot(c, i, t, contents, flags);
    }

    /** What a child's table starts from: the kernel's table for the slot, or zeros. */
    method KernelTable(c: nat, i: nat, ghost L0: Layout) returns (contents: Page)
      requires Inv(L0) && Extends(L0, L(), c) && i < ENTRIES
      ensures forall j: nat :: j < ENTRIES ==> contents[j] == Lookup(L0.pages, L0.kdir, i, j)
    {
      KernelTableKept(L0, L(), c, i);
      var kernelPde := pages[kdir][i];
      contents := if kernelPde.flags.present then pages[kernelPde.page] else seq(1024, _ => ABSENT);
    }

    /** paging_clone_address_space. It succeeds exactly when the heap can serve, one after the other, a
        page for the directory and one for each private table, and as many frames are free as there
        are pages to copy. Then `c` is a clone of `src`; otherwise every table, frame mark and heap
        block is as it was before the call. */
    method CloneSpace(src: nat) returns (c: nat)
      requires Valid() && Dir(L(), src)
      requires forall i: nat :: src != kdir && Owns(L(), src, i) ==> SlotLow(L(), i)
      modifies this`pages, this`ram, this`spaces, this`tableOwner, this`frameOwner, heap, pmm.bitmap
      ensures Valid()
      ensures c != 0 <==> old(heap.heapStart) != 0 && Affordable(old(L()), old(heap.blocks), src)
      ensures c != 0 ==> heap.blocks == AfterPages(old(heap.blocks), 1 + Tables(old(L()), src, ENTRIES))
      ensures c == 0 ==> L() == old(L()) && heap.blocks == old(heap.blocks)
      ensures c == 0 ==> RamKept(old(L()), old(ram), ram)
      ensures c != 0 ==> IsClone(old(L()), L(), old(ram), ram, src, c)
      ensures c != 0 ==> Without(heap.LiveBlocks(), Addrs(PagesOf(L(), c))) == old(heap.LiveBlocks())
      ensures heap.heapStart == old(heap.heapStart) && heap.heapEnd == old(heap.heapEnd)
    {
      hide CellCloned, CellsCloned, CloneInv, SlotLow, Shaped, TablesOwned, FramesOwned, IsClone, Extends, RamKept;
      hide Affordable, Paid, Serves, AfterPage, AfterPages, Tables, Without, PagesOf, SlotsShared;
      c := StartClone(src);
      if c == 0 { return; }
      var ok := CloneSlots(src, c, old(L()), ram, old(heap.LiveBlocks()), old(heap.blocks));
      if !ok {
        Abandon(c, old(L()), old(heap.blocks));
        c := 0;
      }
    }

    /** The empty child, or nothing because the heap has no page for its directory. */
    method StartClone(ghost src: nat) returns (c: nat)
      requires Valid()
      modifies this`pages, this`spaces, heap
      ensures Valid() && heap.heapStart == old(heap.heapStart) && heap.heapEnd == old(heap.heapEnd)
      ensures c == 0 ==> old(heap.heapStart) == 0 || !Affordable(old(L()), old(heap.blocks), src)
      ensures c == 0 ==> L() == old(L()) && heap.blocks == old(heap.blocks)
      ensures RamKept(old(L()), ram, ram)
      ensures c != 0 ==> heap.heapStart != 0 && Paid(old(L()), old(heap.blocks), src, 0, Load(), heap.blocks)
      ensures c != 0 ==> c in L().spaces && Extends(old(L()), L(), c) && CloneInv(old(L()), L(), ram, ram, src, c, 0)
      ensures c != 0 ==> Without(heap.LiveBlocks(), Addrs(PagesOf(L(), c))) == old(heap.LiveBlocks())
    {
      hide CellCloned, CellsCloned, CloneInv, Shaped, TablesOwned, FramesOwned, SlotsShared;
      hide Affordable, Paid, Serves, AfterPage;
      PaidStarts(L(), heap.blocks, src);
      c := CreateSpace();
      if c == 0 { return; }
      CloneStarts(old(L()), ram, src, c);
      CloneRamKept(old(L()), L(), ram, ram, src, c, 0);
      NewSpacePages(old(L()), c);
    }

    /** Destroys what there is of a clone: layout and block list are again what they were. */
    method Abandon(c: nat, ghost L0: Layout, ghost blocks0: seq<Block>)
      requires Valid() && c in spaces && Shaped(L0) && Extends(L0, L(), c) && heap.heapStart != 0
      requires Canonical(blocks0, heap.heapStart, heap.heapEnd)
      requires Without(heap.LiveBlocks(), Addrs(PagesOf(L(), c))) == Live(blocks0)
      modifies this`pages, this`spaces, this`tableOwner, this`frameOwner, heap, pmm.bitmap
      ensures Valid() && L() == L0 && heap.blocks == blocks0
      ensures heap.heapStart == old(heap.heapStart) && heap.heapEnd == old(heap.heapEnd)
    {
      hide Extends, TablesOwned, FramesOwned, Released;
      ReleasedRestores(L0, L(), c);
      DestroySpace(c);
      CanonicalDeterminedByLive(blocks0, heap.blocks, heap.heapStart, heap.heapEnd);
    }

    /** The loop over all slots; stops at the first that fails. */
    method CloneSlots(src: nat, c: nat, ghost L0: Layout, ghost ram0: seq<PageData>, ghost live0: set<Block>,
                      ghost blocks0: seq<Block>)
      returns (ok: bool)
      requires Valid() && |ram0| == |ram| == FRAMES && CloneInv(L0, L(), ram0, ram, src, c, 0)
      requires Extends(L0, L(), c) && c in L().spaces && RamKept(L0, ram0, ram)
      requires Inv(L0) && L0.kdir == kdir && Dir(L0, src)
      requires forall i: nat :: src != kdir && Owns(L0, src, i) ==> SlotLow(L0, i)
      requires Without(heap.LiveBlocks(), Addrs(PagesOf(L(), c))) == live0
      requires heap.heapStart != 0 && Paid(L0, blocks0, src, 0, Load(), heap.blocks)
      modifies this`pages, this`ram, this`tableOwner, this`frameOwner, heap, pmm.bitmap
      ensures Valid() && Extends(L0, L(), c) && |ram| == FRAMES
      ensures RamKept(L0, ram0, ram)
      ensures ok ==> IsClone(L0, L(), ram0, ram, src, c)
      ensures ok <==> Affordable(L0, blocks0, src)
      ensures ok ==> heap.blocks == AfterPages(blocks0, 1 + Tables(L0, src, ENTRIES))
      ensures Without(heap.LiveBlocks(), Addrs(PagesOf(L(), c))) == live0
      ensures heap.heapStart == old(heap.heapStart) && heap.heapEnd == old(heap.heapEnd)
    {
      hide *;
      ok := true;
      var i := 0;
      while ok && i < ENTRIES
        invariant i <= ENTRIES && Valid() && Extends(L0, L(), c) && c in L().spaces && |ram| == FRAMES
        invariant RamKept(L0, ram0, ram)
        invariant ok ==> CloneInv(L0, L(), ram0, ram, src, c, i)
        invariant Without(heap.LiveBlocks(), Addrs(PagesOf(L(), c))) == live0
        invariant heap.heapStart == old(heap.heapStart) && heap.heapEnd == old(heap.heapEnd)
        invariant if ok then Paid(L0, blocks0, src, i, Load(), heap.blocks) else !Affordable(L0, blocks0, src)
        decreases ok, ENTRIES - i
      {
        ok := CloneSlot(src, c, i, L0, ram0, live0, blocks0);
        i := i + 1;
      }
      if ok {
        CloneDone(L0, L(), ram0, ram, src, c);
        LoadBound();
        PaidAll(L0, blocks0, src, Load(), heap.blocks);
      }
    }

    lemma LoadBound()
      requires Valid()
      ensures Load() <= FRAMES
    {
      FullCount(pmm.Used(), FRAMES);
    }
  }

  /** Cloning and then destroying the clone leaves no trace: the layout - every table, every frame
      mark, every owner - and the heap's block list are exactly what they were. */
  lemma CloneThenDestroyRestores(L0: Layout, L1: Layout, ram0: seq<PageData>, ram1: seq<PageData>,
                                 src: nat, c: nat, blocks0: seq<Block>, blocks1: seq<Block>, blocks2: seq<Block>,
                                 lo: nat, hi: nat)
    requires Inv(L0) && Inv(L1) && |ram0| == |ram1| == FRAMES && IsClone(L0, L1, ram0, ram1, src, c)
    requires Canonical(blocks0, lo, hi) && Canonical(blocks2, lo, hi)
    requires Without(Live(blocks1), Addrs(PagesOf(L1, c))) == Live(blocks0)
    requires Live(blocks2) == Without(Live(blocks1), Addrs(PagesOf(L1, c)))
    ensures Released(L1, c) == L0 && blocks2 == blocks0
  {
    ReleasedRestores(L0, L1, c);
    CanonicalDeterminedByLive(blocks0, blocks2, lo, hi);
  }
}
