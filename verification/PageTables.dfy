/** The page tables of kernel/paging.c as a value: every directory and table is a page of 1024
    entries named by its page number, and sharing a table is holding the same page number.
    Ghost owner maps say which slot owns each table and which cell owns each frame. */
module PageTables {

  const ENTRIES: nat := 1024
  const FRAMES: nat := 32768
  const LOW: nat := 1024        // frames below 4 MB: the kernel's identity map, never released

  datatype Flags = Flags(present: bool, writable: bool, user: bool, rest: nat)
  datatype Entry = Entry(page: nat, flags: Flags)
  const ABSENT: Entry := Entry(0, Flags(false, false, false, 0))

  type Page = s: seq<Entry> | |s| == 1024 witness seq(1024, _ => ABSENT)

  datatype Slot = Slot(dir: nat, pd: nat)
  datatype Cell = Cell(dir: nat, pd: nat, pt: nat)

  datatype Layout = Layout(
    kdir: nat,                     // kernel_page_dir
    first: nat,                    // first_page_table
    pages: map<nat, Page>,
    used: set<nat>,                // frames marked in pmm_bitmap
    spaces: set<nat>,              // user directories
    tableOwner: map<nat, Slot>,
    frameOwner: map<nat, Cell>)

  function PdIndex(virt: nat): (i: nat)
    ensures virt < 0x1_0000_0000 ==> i < ENTRIES
  {
    virt / 0x400000
  }

  function PtIndex(virt: nat): (j: nat)
    ensures j < ENTRIES
  {
    virt / 4096 % 1024
  }

  /** The two indices together are the number of the page. */
  lemma IndicesNumberPages(virt: nat)
    requires virt < 0x1_0000_0000
    ensures PdIndex(virt) * 1024 + PtIndex(virt) == virt / 4096
  {
  }

  /** Two addresses share a cell exactly if they lie in one page. */
  lemma SameCellIff(v: nat, w: nat)
    requires v < 0x1_0000_0000 && w < 0x1_0000_0000
    ensures PdIndex(v) == PdIndex(w) && PtIndex(v) == PtIndex(w) <==> v / 4096 == w / 4096
  {
    IndicesNumberPages(v);
    IndicesNumberPages(w);
  }

  /** The entry that directory `d` gives for an address. */
  function Translate(pages: map<nat, Page>, d: nat, virt: nat): Entry
    requires virt < 0x1_0000_0000
  {
    Lookup(pages, d, PdIndex(virt), PtIndex(virt))
  }

  /** The entry that directory `d` gives for a page, ABSENT if there is no table. */
  function Lookup(pages: map<nat, Page>, d: nat, i: nat, j: nat): Entry {
    if d in pages && i < ENTRIES && j < ENTRIES && pages[d][i].flags.present && pages[d][i].page in pages
    then pages[pages[d][i].page][j] else ABSENT
  }

  ghost predicate Dir(L: Layout, d: nat) { d == L.kdir || d in L.spaces }

  /** Slot i of `d` refers to a table of its own: it is the kernel's own slot, or its table
      differs from the kernel's. */
  ghost predicate Owns(L: Layout, d: nat, i: nat) {
    && d in L.pages && L.kdir in L.pages && i < ENTRIES
    && L.pages[d][i].flags.present
    && (d == L.kdir || L.pages[d][i].page != L.pages[L.kdir][i].page)
  }

  ghost predicate Shaped(L: Layout) {
    && L.pages.Keys == {L.kdir} + L.spaces + L.tableOwner.Keys
    && L.kdir !in L.spaces && L.kdir !in L.tableOwner
    && L.spaces !! L.tableOwner.Keys
    && 0 !in L.pages
    && Owns(L, L.kdir, 0) && L.pages[L.kdir][0].page == L.first
  }

  ghost predicate OwnsTable(L: Layout, d: nat, i: nat, t: nat) {
    Dir(L, d) && Owns(L, d, i) && L.pages[d][i].page == t
  }

  ghost predicate TablesOwned(L: Layout) {
    && (forall d: nat, i: nat :: Dir(L, d) && Owns(L, d, i) ==>
          L.pages[d][i].page in L.tableOwner && L.tableOwner[L.pages[d][i].page] == Slot(d, i))
    && (forall t :: t in L.tableOwner ==> OwnsTable(L, L.tableOwner[t].dir, L.tableOwner[t].pd, t))
  }

  /** A user slot that is present without being owned is the kernel's slot, which is present too. */
  ghost predicate SlotsShared(L: Layout)
    requires Shaped(L)
  {
    && (forall i :: 0 <= i < ENTRIES && !L.pages[L.kdir][i].flags.present ==> L.pages[L.kdir][i].page == 0)
    && (forall d: nat, i: nat :: d in L.spaces && 0 <= i < ENTRIES && L.pages[d][i].flags.present && !Owns(L, d, i) ==>
          L.pages[L.kdir][i].flags.present)
  }

  /** Directory `d` maps frame `f` at (i, j) through a table of its own. */
  ghost predicate Holds(L: Layout, d: nat, i: nat, j: nat, f: nat) {
    && Owns(L, d, i) && j < ENTRIES && f >= LOW
    && Lookup(L.pages, d, i, j).flags.present && Lookup(L.pages, d, i, j).page == f
  }

  ghost predicate FramesOwned(L: Layout) {
    && (forall d: nat, i: nat, j: nat, f: nat :: d in L.spaces && Holds(L, d, i, j, f) ==>
          f in L.frameOwner && L.frameOwner[f] == Cell(d, i, j))
    && (forall f :: f in L.frameOwner ==>
          && f < FRAMES && f in L.used && L.frameOwner[f].dir in L.spaces
          && Holds(L, L.frameOwner[f].dir, L.frameOwner[f].pd, L.frameOwner[f].pt, f))
    && (forall i: nat, j: nat, f: nat :: Holds(L, L.kdir, i, j, f) ==>
          f !in L.frameOwner && (f < FRAMES ==> f in L.used))
    && (forall f :: 0 <= f < LOW ==> f in L.used)
  }

  ghost predicate Inv(L: Layout) {
    Shaped(L) && TablesOwned(L) && SlotsShared(L) && FramesOwned(L)
  }

  /** Every frame of the user spaces is held in exactly one place. */
  lemma FramesExclusive(L: Layout, a: Cell, b: Cell, f: nat)
    requires Inv(L) && a.dir in L.spaces && Dir(L, b.dir)
    requires Holds(L, a.dir, a.pd, a.pt, f) && Holds(L, b.dir, b.pd, b.pt, f)
    ensures a == b
  {
  }

  /** Every owned table hangs in exactly one slot. */
  lemma TablesExclusive(L: Layout, a: Slot, b: Slot, t: nat)
    requires Inv(L) && OwnsTable(L, a.dir, a.pd, t) && OwnsTable(L, b.dir, b.pd, t)
    ensures a == b
  {
  }

  ghost function FramesOf(L: Layout, d: nat): set<nat> { set f | f in L.frameOwner && L.frameOwner[f].dir == d }
  ghost function TablesOf(L: Layout, d: nat): set<nat> { set t | t in L.tableOwner && L.tableOwner[t].dir == d }
  ghost function PagesOf(L: Layout, d: nat): set<nat> { {d} + TablesOf(L, d) }

  /** The frames of a user space are exactly those it maps at or above 4 MB in its own tables. */
  lemma FramesOfExact(L: Layout, d: nat, f: nat)
    requires Inv(L) && d in L.spaces
    ensures f in FramesOf(L, d) <==> exists i: nat, j: nat :: Holds(L, d, i, j, f)
  {
  }

  /** The layout paging_init leaves: the kernel directory with its identity table. */
  lemma InitialInv(L: Layout)
    requires L.kdir != L.first && 0 < L.kdir && 0 < L.first
    requires L.pages.Keys == {L.kdir, L.first}
    requires L.pages[L.kdir] == seq(1024, _ => ABSENT)[0 := Entry(L.first, Flags(true, true, false, 0))]
    requires forall j :: 0 <= j < ENTRIES ==> L.pages[L.first][j].page < LOW
    requires L.spaces == {} && L.tableOwner == map[L.first := Slot(L.kdir, 0)] && L.frameOwner == map[]
    requires forall f: nat :: f < LOW ==> f in L.used
    ensures Inv(L)
  {
  }

  // ---------------------------------------------------------------------------
  // Writing one entry of an owned table
  // ---------------------------------------------------------------------------

  ghost function SetEntry(L: Layout, d: nat, i: nat, j: nat, e: Entry): Layout
    requires Owns(L, d, i) && j < ENTRIES && L.pages[d][i].page in L.pages
  {
    var t := L.pages[d][i].page;
    var dropped := map f | f in L.frameOwner && L.frameOwner[f] != Cell(d, i, j) :: L.frameOwner[f];
    L.(pages := L.pages[t := L.pages[t][j := e]],
       frameOwner := if d != L.kdir && e.flags.present && e.page >= LOW then dropped[e.page := Cell(d, i, j)]
         else dropped)
  }

  /** A frame may be entered at (d, i, j) if no other cell has it: it is below 4 MB, already
      owned by this very cell, or allocated and mapped nowhere. */
  ghost predicate MayEnter(L: Layout, d: nat, i: nat, j: nat, e: Entry) {
    e.flags.present && e.page >= LOW ==>
      if d == L.kdir then e.page !in L.frameOwner && (e.page < FRAMES ==> e.page in L.used)
      else
        && e.page < FRAMES && e.page in L.used
        && (e.page in L.frameOwner ==> L.frameOwner[e.page] == Cell(d, i, j))
        && forall i': nat, j': nat :: !Holds(L, L.kdir, i', j', e.page)
  }

  /** The write is seen at (i, j) by `d`, and if `d` is the kernel by every space sharing the
      slot; nowhere else. */
  lemma SetEntryLookup(L: Layout, d: nat, i: nat, j: nat, e: Entry, d': nat, i': nat, j': nat)
    requires Inv(L) && Dir(L, d) && Owns(L, d, i) && j < ENTRIES && Dir(L, d') && i' < ENTRIES && j' < ENTRIES
    ensures Lookup(SetEntry(L, d, i, j, e).pages, d', i', j') ==
            if j' == j && i' == i && (d' == d || (d == L.kdir && L.pages[d'][i].flags.present && !Owns(L, d', i)))
            then e else Lookup(L.pages, d', i', j')
  {
    var t := L.pages[d][i].page;
    assert L.tableOwner[t] == Slot(d, i);
  }

  lemma SetEntryInv(L: Layout, d: nat, i: nat, j: nat, e: Entry)
    requires Inv(L) && Dir(L, d) && Owns(L, d, i) && j < ENTRIES
    requires MayEnter(L, d, i, j, e)
    ensures Inv(SetEntry(L, d, i, j, e))
  {
    SetEntryTables(L, d, i, j, e);
    SetEntryFrames(L, d, i, j, e);
  }

  lemma SetEntryTables(L: Layout, d: nat, i: nat, j: nat, e: Entry)
    requires Inv(L) && Dir(L, d) && Owns(L, d, i) && j < ENTRIES
    ensures var L' := SetEntry(L, d, i, j, e); Shaped(L') && TablesOwned(L') && SlotsShared(L')
    ensures forall d': nat, i': nat :: Dir(L, d') ==> Owns(SetEntry(L, d, i, j, e), d', i') == Owns(L, d', i')
  {
    var L' := SetEntry(L, d, i, j, e);
    assert L.tableOwner[L.pages[d][i].page] == Slot(d, i);
    assert forall d': nat :: Dir(L, d') ==> L'.pages[d'] == L.pages[d'];
  }

  lemma SetEntryFrames(L: Layout, d: nat, i: nat, j: nat, e: Entry)
    requires Inv(L) && Dir(L, d) && Owns(L, d, i) && j < ENTRIES
    requires MayEnter(L, d, i, j, e)
    ensures FramesOwned(SetEntry(L, d, i, j, e))
  {
    SetEntryHolds(L, d, i, j, e);
    assert forall f :: f in L.frameOwner && L.frameOwner[f] == Cell(d, i, j) ==> Holds(L, d, i, j, f);
  }

  lemma SetEntryHolds(L: Layout, d: nat, i: nat, j: nat, e: Entry)
    requires Inv(L) && Dir(L, d) && Owns(L, d, i) && j < ENTRIES
    ensures forall d': nat, i': nat, j': nat, f: nat :: Dir(L, d') ==>
              (Holds(SetEntry(L, d, i, j, e), d', i', j', f) <==>
               if Cell(d', i', j') == Cell(d, i, j) then f >= LOW && e.flags.present && e.page == f
               else Holds(L, d', i', j', f))
  {
    SetEntryTables(L, d, i, j, e);
    forall d': nat, i': nat, j': nat, f: nat | Dir(L, d')
      ensures Holds(SetEntry(L, d, i, j, e), d', i', j', f) <==>
        if Cell(d', i', j') == Cell(d, i, j) then f >= LOW && e.flags.present && e.page == f
        else Holds(L, d', i', j', f)
    {
      if i' < ENTRIES && j' < ENTRIES { SetEntryLookup(L, d, i, j, e, d', i', j'); }
    }
  }

  // ---------------------------------------------------------------------------
  // Giving a slot a table of its own
  // ---------------------------------------------------------------------------

  ghost function Install(L: Layout, d: nat, i: nat, t: nat, contents: Page, flags: Flags): Layout
    requires d in L.pages && i < ENTRIES
  {
    L.(pages := L.pages[t := contents][d := L.pages[d][i := Entry(t, flags)]],
       tableOwner := L.tableOwner[t := Slot(d, i)])
  }

  /** A fresh table may be installed where `d` owns none, if what it maps is below 4 MB. */
  ghost predicate MayInstall(L: Layout, d: nat, i: nat, t: nat, contents: Page, flags: Flags) {
    && Dir(L, d) && i < ENTRIES && !Owns(L, d, i)
    && t !in L.pages && t != 0 && flags.present
    && forall j :: 0 <= j < ENTRIES && contents[j].flags.present ==> contents[j].page < LOW
  }

  lemma InstallOwns(L: Layout, d: nat, i: nat, t: nat, contents: Page, flags: Flags)
    requires Inv(L) && MayInstall(L, d, i, t, contents, flags)
    ensures var L' := Install(L, d, i, t, contents, flags);
            forall d': nat, i': nat :: Dir(L, d') && i' < ENTRIES ==>
              Owns(L', d', i') == (Owns(L, d', i') || Slot(d', i') == Slot(d, i))
              && (Slot(d', i') != Slot(d, i) ==> L'.pages[d'][i'] == L.pages[d'][i'])
  {
    var L' := Install(L, d, i, t, contents, flags);
    assert forall d': nat :: Dir(L, d') && d' != d ==> L'.pages[d'] == L.pages[d'];
  }

  /** A table a user space owns is neither of the static pages, nor any directory. */
  lemma UserPage(L: Layout, d: nat, i: nat)
    requires Inv(L) && d in L.spaces && Owns(L, d, i)
    ensures var t := L.pages[d][i].page;
            t in L.pages && t != L.kdir && t != L.first && t !in L.spaces && L.tableOwner[t] == Slot(d, i)
  {
    TableInPages(L, d, i);
    TableInPages(L, L.kdir, 0);
  }

  lemma UserDir(L: Layout, d: nat)
    requires Inv(L) && d in L.spaces
    ensures d in L.pages && d != L.kdir && d != L.first
  {
    TableInPages(L, L.kdir, 0);
  }

  lemma InstallTables(L: Layout, d: nat, i: nat, t: nat, contents: Page, flags: Flags)
    requires Inv(L) && MayInstall(L, d, i, t, contents, flags)
    ensures var L' := Install(L, d, i, t, contents, flags); Shaped(L') && TablesOwned(L') && SlotsShared(L')
  {
    InstallOwns(L, d, i, t, contents, flags);
  }

  lemma InstallLookup(L: Layout, d: nat, i: nat, t: nat, contents: Page, flags: Flags, d': nat, i': nat, j': nat)
    requires Inv(L) && MayInstall(L, d, i, t, contents, flags) && Dir(L, d') && i' < ENTRIES && j' < ENTRIES
    ensures Lookup(Install(L, d, i, t, contents, flags).pages, d', i', j') ==
            if Slot(d', i') == Slot(d, i) then contents[j'] else Lookup(L.pages, d', i', j')
  {
    var p := L.pages[d'][i'].page;
    if Slot(d', i') != Slot(d, i) && L.pages[d'][i'].flags.present { TableInPages(L, d', i'); }
  }

  lemma TableInPages(L: Layout, d: nat, i: nat)
    requires Inv(L) && Dir(L, d) && i < ENTRIES && L.pages[d][i].flags.present
    ensures L.pages[d][i].page in L.tableOwner
    ensures L.tableOwner[L.pages[d][i].page] == if Owns(L, d, i) then Slot(d, i) else Slot(L.kdir, i)
  {
    if !Owns(L, d, i) { assert Owns(L, L.kdir, i); }
  }

  lemma InstallInv(L: Layout, d: nat, i: nat, t: nat, contents: Page, flags: Flags)
    requires Inv(L) && MayInstall(L, d, i, t, contents, flags)
    ensures Inv(Install(L, d, i, t, contents, flags))
  {
    var L' := Install(L, d, i, t, contents, flags);
    InstallTables(L, d, i, t, contents, flags);
    InstallOwns(L, d, i, t, contents, flags);
    forall d': nat, i': nat, j': nat, f: nat | Dir(L, d')
      ensures Holds(L', d', i', j', f) == Holds(L, d', i', j', f)
    {
      if i' < ENTRIES && j' < ENTRIES { InstallLookup(L, d, i, t, contents, flags, d', i', j'); }
    }
    FramesKept(L, L');
  }

  /** Frame ownership survives any step that moves no held frame. */
  lemma FramesKept(L: Layout, L': Layout)
    requires FramesOwned(L)
    requires L'.kdir == L.kdir && L'.used == L.used && L'.frameOwner == L.frameOwner && L.spaces <= L'.spaces
    requires forall d: nat, i: nat, j: nat, f: nat :: Dir(L, d) ==> Holds(L', d, i, j, f) == Holds(L, d, i, j, f)
    requires forall d: nat, i: nat, j: nat, f: nat :: d in L'.spaces && d !in L.spaces ==> !Holds(L', d, i, j, f)
    ensures FramesOwned(L')
  {
  }

  // ---------------------------------------------------------------------------
  // Creating and releasing address spaces
  // ---------------------------------------------------------------------------

  ghost function AddSpace(L: Layout, c: nat): Layout
    requires L.kdir in L.pages
  {
    L.(pages := L.pages[c := L.pages[L.kdir]], spaces := L.spaces + {c})
  }

  /** A new space starts out as the kernel directory, sharing every table. */
  lemma AddSpaceInv(L: Layout, c: nat)
    requires Inv(L) && c !in L.pages && c != 0
    ensures Inv(AddSpace(L, c))
    ensures forall i: nat :: !Owns(AddSpace(L, c), c, i)
    ensures forall d: nat, i: nat, j: nat :: Dir(L, d) ==>
      Lookup(AddSpace(L, c).pages, d, i, j) == Lookup(L.pages, d, i, j)
    ensures forall i: nat, j: nat :: Lookup(AddSpace(L, c).pages, c, i, j) == Lookup(L.pages, L.kdir, i, j)
  {
    var L' := AddSpace(L, c);
    forall d: nat, i: nat ensures Dir(L, d) ==> Owns(L', d, i) == Owns(L, d, i) { }
    forall d: nat, i: nat, j: nat | Dir(L', d)
      ensures Lookup(L'.pages, d, i, j) == Lookup(L.pages, if d == c then L.kdir else d, i, j)
    {
      var e := if d == c then L.kdir else d;
      if i < ENTRIES && L.pages[e][i].flags.present { TableInPages(L, e, i); }
    }
    assert TablesOwned(L') && SlotsShared(L');
    FramesKept(L, L');
  }

  lemma AddSpaceExtends(L: Layout, c: nat)
    requires Inv(L) && c !in L.pages
    ensures Extends(L, AddSpace(L, c), c)
  {
    assert FramesOf(AddSpace(L, c), c) == {};
  }

  /** `L'` is `L` with the space `c` added: nothing that was there has changed, and everything
      new - pages, tables, frames - belongs to `c`. */
  ghost predicate Extends(L: Layout, L': Layout, c: nat) {
    && L'.kdir == L.kdir && L'.first == L.first
    && c !in L.pages && L'.spaces == L.spaces + {c}
    && (forall x :: x in L.pages ==> x in L'.pages && L'.pages[x] == L.pages[x])
    && (forall x :: x in L'.pages ==> x in L.pages || x in PagesOf(L', c))
    && (forall t :: t in L.tableOwner ==>
          t in L'.tableOwner && L'.tableOwner[t] == L.tableOwner[t] && L.tableOwner[t].dir != c)
    && (forall t :: t in L'.tableOwner ==> t in L.tableOwner || L'.tableOwner[t].dir == c)
    && (forall f :: f in L.frameOwner ==>
          f in L'.frameOwner && L'.frameOwner[f] == L.frameOwner[f] && L.frameOwner[f].dir != c)
    && (forall f :: f in L'.frameOwner ==> f in L.frameOwner || L'.frameOwner[f].dir == c)
    && L'.used == L.used + FramesOf(L', c) && L.used !! FramesOf(L', c)
  }

  /** What destroying `c` leaves: its directory, its tables and its frames are gone. */
  ghost function Released(L: Layout, c: nat): Layout {
    L.(pages := L.pages - PagesOf(L, c),
       used := L.used - FramesOf(L, c),
       spaces := L.spaces - {c},
       tableOwner := L.tableOwner - TablesOf(L, c),
       frameOwner := L.frameOwner - FramesOf(L, c))
  }

  /** Releasing what was added restores every table, every frame mark and every owner. */
  lemma ReleasedRestores(L: Layout, L': Layout, c: nat)
    requires Shaped(L) && Shaped(L') && Extends(L, L', c)
    ensures Released(L', c) == L
  {
    ExtendsKeys(L, L', c);
    var R := Released(L', c);
    assert R.pages.Keys == L.pages.Keys;
    assert R.pages == L.pages;
    assert R.used == L.used;
    assert R.spaces == L.spaces;
    assert R.tableOwner.Keys == L.tableOwner.Keys;
    assert R.tableOwner == L.tableOwner;
    assert R.frameOwner.Keys == L.frameOwner.Keys;
    assert R.frameOwner == L.frameOwner;
  }

  lemma ExtendsKeys(L: Layout, L': Layout, c: nat)
    requires Shaped(L) && Shaped(L') && Extends(L, L', c)
    ensures L'.tableOwner.Keys - TablesOf(L', c) == L.tableOwner.Keys
    ensures L'.frameOwner.Keys - FramesOf(L', c) == L.frameOwner.Keys
    ensures L'.pages.Keys - PagesOf(L', c) == L.pages.Keys
  {
  }

  ghost function FramesAt(L: Layout, c: nat, i: nat): set<nat> {
    set f | f in L.frameOwner && L.frameOwner[f].dir == c && L.frameOwner[f].pd == i
  }

  /** The frames of slot i at positions before j. */
  ghost function FramesBelow(L: Layout, c: nat, i: nat, j: nat): set<nat> {
    set f | f in L.frameOwner && L.frameOwner[f].dir == c && L.frameOwner[f].pd == i && L.frameOwner[f].pt < j
  }

  lemma FramesBelowStep(L: Layout, c: nat, i: nat, j: nat)
    requires Inv(L) && c in L.spaces && Owns(L, c, i) && j < ENTRIES
    ensures var e := Lookup(L.pages, c, i, j);
            FramesBelow(L, c, i, j + 1) ==
            if e.flags.present && e.page >= LOW then FramesBelow(L, c, i, j) + {e.page} else FramesBelow(L, c, i, j)
    ensures Lookup(L.pages, c, i, j).flags.present ==> Lookup(L.pages, c, i, j).page < FRAMES
    ensures L.pages[c][i].page in L.pages && L.pages[L.pages[c][i].page][j] == Lookup(L.pages, c, i, j)
    ensures FramesBelow(L, c, i, 0) == {} && FramesBelow(L, c, i, ENTRIES) == FramesAt(L, c, i)
  {
    var e := Lookup(L.pages, c, i, j);
    if e.flags.present && e.page >= LOW { assert Holds(L, c, i, j, e.page); }
    forall f | f in L.frameOwner && L.frameOwner[f] == Cell(c, i, j) ensures Holds(L, c, i, j, f) { }
    assert FramesBelow(L, c, i, ENTRIES) == FramesAt(L, c, i);
  }

  /** Taking one owned table, with its frames, away from a space. */
  ghost function ReleaseSlot(L: Layout, c: nat, i: nat): Layout
    requires Owns(L, c, i)
  {
    var t := L.pages[c][i].page;
    L.(pages := (L.pages - {t})[c := L.pages[c][i := ABSENT]],
       used := L.used - FramesAt(L, c, i),
       tableOwner := L.tableOwner - {t},
       frameOwner := L.frameOwner - FramesAt(L, c, i))
  }

  /** What a space keeps when slot i is taken away. */
  lemma ReleaseSlotLookup(L: Layout, c: nat, i: nat)
    requires Inv(L) && c in L.spaces && Owns(L, c, i)
    ensures var L' := ReleaseSlot(L, c, i);
            forall d: nat, i': nat :: Dir(L, d) && Slot(d, i') != Slot(c, i) ==> Owns(L', d, i') == Owns(L, d, i')
    ensures var L' := ReleaseSlot(L, c, i);
            forall d: nat, i': nat, j: nat :: Dir(L, d) && i' < ENTRIES && Slot(d, i') != Slot(c, i) ==>
              Lookup(L'.pages, d, i', j) == Lookup(L.pages, d, i', j)
  {
    var L' := ReleaseSlot(L, c, i);
    assert L.tableOwner[L.pages[c][i].page] == Slot(c, i);
    forall d: nat, i': nat, j: nat | Dir(L, d) && i' < ENTRIES && Slot(d, i') != Slot(c, i)
      ensures Lookup(L'.pages, d, i', j) == Lookup(L.pages, d, i', j)
    {
      if L.pages[d][i'].flags.present { TableInPages(L, d, i'); }
    }
  }

  lemma ReleaseSlotInv(L: Layout, c: nat, i: nat)
    requires Inv(L) && c in L.spaces && Owns(L, c, i)
    ensures Inv(ReleaseSlot(L, c, i)) && !Owns(ReleaseSlot(L, c, i), c, i)
    ensures forall i': nat :: i' != i ==> Owns(ReleaseSlot(L, c, i), c, i') == Owns(L, c, i')
  {
    var L' := ReleaseSlot(L, c, i);
    assert L.tableOwner[L.pages[c][i].page] == Slot(c, i);
    ReleaseSlotLookup(L, c, i);
    ReleaseSlotTables(L, c, i);
    ReleaseSlotFrames(L, c, i);
  }

  lemma ReleaseSlotTables(L: Layout, c: nat, i: nat)
    requires Inv(L) && c in L.spaces && Owns(L, c, i)
    ensures var L' := ReleaseSlot(L, c, i); Shaped(L') && TablesOwned(L') && SlotsShared(L')
  {
    var L' := ReleaseSlot(L, c, i);
    assert L.tableOwner[L.pages[c][i].page] == Slot(c, i);
    assert L'.pages[L.kdir] == L.pages[L.kdir];
    ReleaseSlotOwned(L, c, i);
    assert SlotsShared(L') by {
      forall d: nat, i': nat | d in L.spaces && i' < ENTRIES && L'.pages[d][i'].flags.present && !Owns(L', d, i')
        ensures L'.pages[L.kdir][i'].flags.present
      {
        assert L'.pages[d][i'] == L.pages[d][i'];
      }
    }
  }

  lemma ReleaseSlotOwned(L: Layout, c: nat, i: nat)
    requires Inv(L) && c in L.spaces && Owns(L, c, i)
    ensures TablesOwned(ReleaseSlot(L, c, i))
  {
    var L' := ReleaseSlot(L, c, i);
    var t := L.pages[c][i].page;
    assert L.tableOwner[t] == Slot(c, i);
    ReleaseSlotLookup(L, c, i);
    forall d: nat, i': nat | Dir(L', d) && Owns(L', d, i')
      ensures L'.pages[d][i'].page in L'.tableOwner && L'.tableOwner[L'.pages[d][i'].page] == Slot(d, i')
    {
      assert L'.pages[d][i'] == L.pages[d][i'] && Slot(d, i') != Slot(c, i);
      assert L.pages[d][i'].page != t;
    }
    forall u | u in L'.tableOwner ensures OwnsTable(L', L'.tableOwner[u].dir, L'.tableOwner[u].pd, u) {
      assert OwnsTable(L, L.tableOwner[u].dir, L.tableOwner[u].pd, u);
    }
  }

  lemma ReleaseSlotFrames(L: Layout, c: nat, i: nat)
    requires Inv(L) && c in L.spaces && Owns(L, c, i)
    ensures FramesOwned(ReleaseSlot(L, c, i))
  {
    var L' := ReleaseSlot(L, c, i);
    ReleaseSlotLookup(L, c, i);
    assert forall d: nat, i': nat, j: nat, f: nat :: Dir(L, d) ==>
      Holds(L', d, i', j, f) == (Holds(L, d, i', j, f) && Slot(d, i') != Slot(c, i));
  }

  lemma ReleaseSlotReleased(L: Layout, c: nat, i: nat, t: nat)
    requires c in L.pages && Owns(L, c, i) && L.pages[c][i].page == t
    requires t in L.tableOwner && L.tableOwner[t] == Slot(c, i) && c !in L.tableOwner
    ensures Released(ReleaseSlot(L, c, i), c) == Released(L, c)
  {
    ReleaseSlotOwners(L, c, i, t);
    var L' := ReleaseSlot(L, c, i);
    var R, R' := Released(L, c), Released(L', c);
    assert R'.pages.Keys == R.pages.Keys;
    assert R'.pages == R.pages;
    assert R'.used == R.used by { assert FramesAt(L, c, i) <= FramesOf(L, c); }
    assert R'.tableOwner == R.tableOwner;
    assert R'.frameOwner == R.frameOwner;
  }

  lemma ReleaseSlotOwners(L: Layout, c: nat, i: nat, t: nat)
    requires c in L.pages && Owns(L, c, i) && L.pages[c][i].page == t
    requires t in L.tableOwner && L.tableOwner[t] == Slot(c, i) && c !in L.tableOwner
    ensures TablesOf(ReleaseSlot(L, c, i), c) == TablesOf(L, c) - {t}
    ensures PagesOf(ReleaseSlot(L, c, i), c) == PagesOf(L, c) - {t}
    ensures FramesOf(ReleaseSlot(L, c, i), c) == FramesOf(L, c) - FramesAt(L, c, i)
  {
  }

  /** Once a space owns no table it owns nothing but its directory. */
  lemma ReleasedBare(L: Layout, c: nat)
    requires Inv(L) && c in L.spaces && forall i: nat :: !Owns(L, c, i)
    ensures TablesOf(L, c) == {} && FramesOf(L, c) == {}
    ensures Released(L, c) == L.(pages := L.pages - {c}, spaces := L.spaces - {c})
  {
    assert TablesOf(L, c) == {};
    assert FramesOf(L, c) == {};
  }

  /** Dropping the directory of a space that owns nothing. */
  lemma ReleasedBareInv(L: Layout, c: nat)
    requires Inv(L) && c in L.spaces && forall i: nat :: !Owns(L, c, i)
    ensures Inv(Released(L, c))
  {
    ReleasedBare(L, c);
    BareTables(L, c);
    BareFrames(L, c);
  }

  lemma BareTables(L: Layout, c: nat)
    requires Inv(L) && c in L.spaces && TablesOf(L, c) == {}
    ensures var R := L.(pages := L.pages - {c}, spaces := L.spaces - {c});
            Shaped(R) && TablesOwned(R) && SlotsShared(R)
  {
    var R := L.(pages := L.pages - {c}, spaces := L.spaces - {c});
    forall t | t in L.tableOwner ensures L.tableOwner[t].dir != c { assert t !in TablesOf(L, c); }
    assert forall d: nat, i: nat :: Dir(R, d) ==> Owns(R, d, i) == Owns(L, d, i);
  }

  lemma BareFrames(L: Layout, c: nat)
    requires Inv(L) && c in L.spaces && FramesOf(L, c) == {}
    ensures FramesOwned(L.(pages := L.pages - {c}, spaces := L.spaces - {c}))
  {
    var R := L.(pages := L.pages - {c}, spaces := L.spaces - {c});
    forall f | f in L.frameOwner ensures L.frameOwner[f].dir != c { assert f !in FramesOf(L, c); }
    forall d: nat, i: nat, j: nat | Dir(R, d) ensures Lookup(R.pages, d, i, j) == Lookup(L.pages, d, i, j) {
      if i < ENTRIES && L.pages[d][i].flags.present { TableInPages(L, d, i); }
    }
    assert forall d: nat, i: nat, j: nat, f: nat :: Dir(R, d) ==> Holds(R, d, i, j, f) == Holds(L, d, i, j, f);
  }

  // ---------------------------------------------------------------------------
  // Steps that only add to one space
  // ---------------------------------------------------------------------------

  lemma UsedGrows(L: Layout, f: nat)
    requires Inv(L) && f < FRAMES
    ensures Inv(L.(used := L.used + {f}))
  {
    var L' := L.(used := L.used + {f});
    assert forall d: nat, i: nat :: Owns(L', d, i) == Owns(L, d, i);
    assert forall d: nat, i: nat, j: nat, g: nat :: Holds(L', d, i, j, g) == Holds(L, d, i, j, g);
  }

  lemma UsedShrinks(L: Layout, f: nat)
    requires Inv(L) && f >= LOW && f !in L.frameOwner && forall i: nat, j: nat :: !Holds(L, L.kdir, i, j, f)
    ensures Inv(L.(used := L.used - {f}))
  {
    var L' := L.(used := L.used - {f});
    assert forall d: nat, i: nat :: Owns(L', d, i) == Owns(L, d, i);
    assert forall d: nat, i: nat, j: nat, g: nat :: Holds(L', d, i, j, g) == Holds(L, d, i, j, g);
  }

  /** Clearing an entry and then freeing its frame. */
  lemma FreedFrameInv(L: Layout, d: nat, i: nat, j: nat, f: nat)
    requires Inv(L) && d in L.spaces && Holds(L, d, i, j, f)
    ensures Inv(SetEntry(L, d, i, j, ABSENT).(used := L.used - {f}))
  {
    var L' := SetEntry(L, d, i, j, ABSENT);
    SetEntryInv(L, d, i, j, ABSENT);
    SetEntryMaps(L, d, i, j, ABSENT);
    SetEntryTables(L, d, i, j, ABSENT);
    assert forall i': nat, j': nat :: Holds(L', L.kdir, i', j', f) ==> Holds(L, L.kdir, i', j', f);
    UsedShrinks(L', f);
  }

  lemma ExtendsInstall(L0: Layout, L: Layout, c: nat, i: nat, t: nat, contents: Page, flags: Flags)
    requires Extends(L0, L, c) && c in L.pages && i < ENTRIES && t !in L.pages
    requires L0.tableOwner.Keys <= L0.pages.Keys
    ensures Extends(L0, Install(L, c, i, t, contents, flags), c)
  {
    assert FramesOf(Install(L, c, i, t, contents, flags), c) == FramesOf(L, c);
  }

  /** Entering a frame that was free, at a cell of `c` that held none. */
  ghost function EnterFresh(L: Layout, c: nat, i: nat, j: nat, e: Entry): Layout
    requires Owns(L, c, i) && j < ENTRIES && L.pages[c][i].page in L.pages
  {
    SetEntry(L.(used := L.used + {e.page}), c, i, j, e)
  }

  lemma EnterFreshInv(L: Layout, c: nat, i: nat, j: nat, e: Entry)
    requires Inv(L) && c in L.spaces && Owns(L, c, i) && j < ENTRIES
    requires e.flags.present && LOW <= e.page < FRAMES && e.page !in L.used
    ensures Inv(EnterFresh(L, c, i, j, e))
  {
    var M := L.(used := L.used + {e.page});
    UsedGrows(L, e.page);
    assert forall i: nat, j: nat :: Holds(M, L.kdir, i, j, e.page) == Holds(L, L.kdir, i, j, e.page);
    assert MayEnter(M, c, i, j, e);
    SetEntryInv(M, c, i, j, e);
  }

  lemma EnterFreshExtends(L0: Layout, L: Layout, c: nat, i: nat, j: nat, e: Entry)
    requires Inv(L0) && Inv(L) && Extends(L0, L, c) && Owns(L, c, i) && j < ENTRIES
    requires e.flags.present && LOW <= e.page < FRAMES && e.page !in L.used
    requires Lookup(L.pages, c, i, j).flags.present ==> Lookup(L.pages, c, i, j).page < LOW
    ensures Extends(L0, EnterFresh(L, c, i, j, e), c)
  {
    TableInPages(L, c, i);
    assert L.pages[c][i].page !in L0.pages by { assert L.pages[c][i].page !in L0.tableOwner; }
    assert forall f :: f in L.frameOwner ==> L.frameOwner[f] != Cell(c, i, j);
    EnterFreshOwners(L0, L, c, i, j, e);
  }

  lemma EnterFreshOwners(L0: Layout, L: Layout, c: nat, i: nat, j: nat, e: Entry)
    requires Extends(L0, L, c) && Owns(L, c, i) && j < ENTRIES && c != L.kdir
    requires L.pages[c][i].page in L.pages && L.pages[c][i].page !in L0.pages
    requires e.flags.present && LOW <= e.page && e.page !in L.used && e.page !in L.frameOwner
    requires forall f :: f in L.frameOwner ==> L.frameOwner[f] != Cell(c, i, j)
    ensures Extends(L0, EnterFresh(L, c, i, j, e), c)
  {
    assert FramesOf(EnterFresh(L, c, i, j, e), c) == FramesOf(L, c) + {e.page};
  }

  // ---------------------------------------------------------------------------
  // What mapping a page changes
  // ---------------------------------------------------------------------------

  /** More tables may be owned in `L'`, but every directory translates as in `L`. */
  ghost predicate Widened(L: Layout, L': Layout) {
    && L'.kdir == L.kdir && L'.first == L.first && L'.spaces == L.spaces
    && L'.used == L.used && L'.frameOwner == L.frameOwner
    && (forall d: nat, i: nat, j: nat :: Dir(L, d) ==> Lookup(L'.pages, d, i, j) == Lookup(L.pages, d, i, j))
    && (forall i: nat :: Owns(L', L.kdir, i) ==>
          Owns(L, L.kdir, i) || forall j: nat :: !Lookup(L.pages, L.kdir, i, j).flags.present)
  }

  lemma InstallWidens(L: Layout, d: nat, i: nat, t: nat, contents: Page, flags: Flags)
    requires Inv(L) && MayInstall(L, d, i, t, contents, flags)
    requires forall j: nat :: j < ENTRIES ==> contents[j] == Lookup(L.pages, d, i, j)
    ensures Widened(L, Install(L, d, i, t, contents, flags))
  {
    var L' := Install(L, d, i, t, contents, flags);
    forall d': nat, i': nat, j': nat | Dir(L, d') ensures Lookup(L'.pages, d', i', j') == Lookup(L.pages, d', i', j') {
      if i' < ENTRIES && j' < ENTRIES { InstallLookup(L, d, i, t, contents, flags, d', i', j'); }
    }
    InstallOwns(L, d, i, t, contents, flags);
    forall i': nat | Owns(L', L.kdir, i') && !Owns(L, L.kdir, i')
      ensures forall j: nat :: !Lookup(L.pages, L.kdir, i', j).flags.present
    {
      assert !L.pages[L.kdir][i'].flags.present;
    }
  }

  lemma WidenedKeepsMayEnter(L: Layout, L': Layout, d: nat, i: nat, j: nat, e: Entry)
    requires Widened(L, L') && MayEnter(L, d, i, j, e)
    ensures MayEnter(L', d, i, j, e)
  {
    forall i': nat, j': nat | Holds(L', L.kdir, i', j', e.page) ensures Holds(L, L.kdir, i', j', e.page) {
      assert Lookup(L.pages, L.kdir, i', j').flags.present;
    }
  }

  /** Exactly the page (i, j) of `d` has become `e`; if `d` is the kernel directory, also in the
      spaces that share the slot. Every other page of every directory is as before. */
  ghost predicate MapsPage(L: Layout, L': Layout, d: nat, i: nat, j: nat, e: Entry) {
    && L'.kdir == L.kdir && L'.spaces == L.spaces && Owns(L', d, i)
    && forall d': nat, i': nat, j': nat :: Dir(L, d') && i' < ENTRIES && j' < ENTRIES ==>
         Lookup(L'.pages, d', i', j') ==
         if i' == i && j' == j && (d' == d || (d == L.kdir && SharesKernelSlot(L', d', i)))
         then e else Lookup(L.pages, d', i', j')
  }

  /** The page of an address has the entry e in `d`, and if `d` is the kernel directory in some that
      share its table; every address in another page is as before in every directory. */
  ghost predicate Remapped(L: Layout, L': Layout, d: nat, virt: nat, e: Entry)
    requires virt < 0x1_0000_0000
  {
    && (forall v: nat :: v < 0x1_0000_0000 && v / 4096 == virt / 4096 ==> Translate(L'.pages, d, v) == e)
    && (forall d': nat, v: nat :: Dir(L, d') && v < 0x1_0000_0000 && v / 4096 != virt / 4096 ==>
          Translate(L'.pages, d', v) == Translate(L.pages, d', v))
    && (forall d': nat, v: nat :: Dir(L, d') && v < 0x1_0000_0000 && d' != d ==>
          || Translate(L'.pages, d', v) == Translate(L.pages, d', v)
          || (d == L.kdir && SharesKernelSlot(L', d', PdIndex(v)) && Translate(L'.pages, d', v) == e))
  }

  /** What changes one cell changes one page of addresses. */
  lemma MapsPageAddresses(L: Layout, L': Layout, d: nat, virt: nat, e: Entry)
    requires virt < 0x1_0000_0000 && Dir(L, d) && MapsPage(L, L', d, PdIndex(virt), PtIndex(virt), e)
    ensures Remapped(L, L', d, virt, e)
  {
    hide PdIndex, PtIndex, Lookup, Dir, Owns, SharesKernelSlot;
    forall v: nat | v < 0x1_0000_0000
      ensures PdIndex(v) == PdIndex(virt) && PtIndex(v) == PtIndex(virt) <==> v / 4096 == virt / 4096
    {
      SameCellIff(v, virt);
    }
  }

  ghost predicate SharesKernelSlot(L: Layout, d: nat, i: nat) {
    d in L.pages && i < ENTRIES && L.pages[d][i].flags.present && !Owns(L, d, i)
  }

  lemma MapsPageAfterWidening(L0: Layout, L: Layout, d: nat, i: nat, j: nat, e: Entry)
    requires Widened(L0, L) && Inv(L) && Dir(L, d) && Owns(L, d, i) && j < ENTRIES
    requires MayEnter(L0, d, i, j, e)
    ensures MayEnter(L, d, i, j, e) && MapsPage(L0, SetEntry(L, d, i, j, e), d, i, j, e)
  {
    WidenedKeepsMayEnter(L0, L, d, i, j, e);
    SetEntryMaps(L, d, i, j, e);
  }

  /** A cell may always be rewritten with the frame it has. */
  lemma SameFrameMayEnter(L: Layout, d: nat, i: nat, j: nat, e: Entry)
    requires Inv(L) && d in L.spaces && Owns(L, d, i) && j < ENTRIES
    requires Lookup(L.pages, d, i, j).flags.present && Lookup(L.pages, d, i, j).page == e.page
    ensures MayEnter(L, d, i, j, e)
  {
    if e.page >= LOW { assert Holds(L, d, i, j, e.page); }
  }

  lemma SetEntryMaps(L: Layout, d: nat, i: nat, j: nat, e: Entry)
    requires Inv(L) && Dir(L, d) && Owns(L, d, i) && j < ENTRIES
    ensures MapsPage(L, SetEntry(L, d, i, j, e), d, i, j, e)
  {
    var L' := SetEntry(L, d, i, j, e);
    SetEntryTables(L, d, i, j, e);
    forall d': nat, i': nat, j': nat | Dir(L, d') && i' < ENTRIES && j' < ENTRIES
      ensures Lookup(L'.pages, d', i', j') ==
         if i' == i && j' == j && (d' == d || (d == L.kdir && SharesKernelSlot(L', d', i)))
         then e else Lookup(L.pages, d', i', j')
    {
      SetEntryLookup(L, d, i, j, e, d', i', j');
      assert L.tableOwner[L.pages[d][i].page] == Slot(d, i);
      assert L'.pages[d'] == L.pages[d'];
    }
  }

  // ---------------------------------------------------------------------------
  // What a clone is
  // ---------------------------------------------------------------------------

  type PageData = seq<nat>

  /** A page of `src` that a clone copies: user-accessible, in a slot not shared with the kernel. */
  ghost predicate Copied(L: Layout, src: nat, i: nat, j: nat) {
    && src != L.kdir && Owns(L, src, i)
    && Lookup(L.pages, src, i, j).flags.present && Lookup(L.pages, src, i, j).flags.user
  }

  ghost predicate CellCloned(L0: Layout, L: Layout, ram0: seq<PageData>, ram: seq<PageData>,
                             src: nat, c: nat, i: nat, j: nat)
    requires |ram0| == |ram| == FRAMES
  {
    var was, now := Lookup(L0.pages, src, i, j), Lookup(L.pages, c, i, j);
    if Copied(L0, src, i, j) then
      && now.flags == was.flags && LOW <= now.page < FRAMES && now.page !in L0.used
      && was.page < FRAMES && ram[now.page] == ram0[was.page]
    else now == Lookup(L0.pages, L0.kdir, i, j)
  }

  /** No frame that was in use in `L0` has had its contents changed. */
  ghost predicate RamKept(L0: Layout, ram0: seq<PageData>, ram: seq<PageData>)
    requires |ram0| == |ram| == FRAMES
  {
    forall f :: f in L0.used && f < FRAMES ==> ram[f] == ram0[f]
  }

  /** `c` is a new space in which every copied page of `src` has the same flags and contents in a
      frame that was free, and every other page is as in the kernel directory. Nothing that
      existed before - directory, table, frame mark or frame contents - has changed. */
  ghost predicate IsClone(L0: Layout, L: Layout, ram0: seq<PageData>, ram: seq<PageData>, src: nat, c: nat)
    requires |ram0| == |ram| == FRAMES
  {
    && Extends(L0, L, c)
    && (forall i: nat, j: nat :: i < ENTRIES && j < ENTRIES ==> CellCloned(L0, L, ram0, ram, src, c, i, j))
    && RamKept(L0, ram0, ram)
  }

  /** After a clone, no frame of the child is reachable from any other directory. */
  lemma CloneIsolated(L0: Layout, L: Layout, ram0: seq<PageData>, ram: seq<PageData>, src: nat, c: nat,
                      i: nat, j: nat, d: nat, i': nat, j': nat)
    requires Inv(L0) && Inv(L) && |ram0| == |ram| == FRAMES && IsClone(L0, L, ram0, ram, src, c)
    requires Dir(L0, src) && i < ENTRIES && j < ENTRIES && Copied(L0, src, i, j)
    requires Dir(L, d) && Lookup(L.pages, d, i', j').flags.present
    requires Lookup(L.pages, d, i', j').page == Lookup(L.pages, c, i, j).page
    ensures Cell(d, i', j') == Cell(c, i, j)
  {
    var f := Lookup(L.pages, c, i, j).page;
    assert CellCloned(L0, L, ram0, ram, src, c, i, j);
    CopiedIsHeld(L0, L, ram0, ram, src, c, i, j);
    var o := if Owns(L, d, i') then d else L.kdir;
    if i' < ENTRIES && j' < ENTRIES {
      if o != d { TableInPages(L, d, i'); assert Owns(L, L.kdir, i'); }
      assert Holds(L, o, i', j', f);
    }
  }

  /** A clone in progress or done changes no translation of any directory that was there. */
  lemma ExtendsKeepsLookups(L0: Layout, L: Layout, c: nat, d: nat, i: nat, j: nat)
    requires Inv(L0) && Extends(L0, L, c) && Dir(L0, d)
    ensures Lookup(L.pages, d, i, j) == Lookup(L0.pages, d, i, j)
  {
    if i < ENTRIES && L0.pages[d][i].flags.present { TableInPages(L0, d, i); }
  }

  lemma CopiedIsHeld(L0: Layout, L: Layout, ram0: seq<PageData>, ram: seq<PageData>, src: nat, c: nat, i: nat, j: nat)
    requires Inv(L0) && Inv(L) && |ram0| == |ram| == FRAMES && IsClone(L0, L, ram0, ram, src, c)
    requires Dir(L0, src) && i < ENTRIES && j < ENTRIES && Copied(L0, src, i, j)
    ensures Holds(L, c, i, j, Lookup(L.pages, c, i, j).page)
  {
    assert CellCloned(L0, L, ram0, ram, src, c, i, j);
    var f := Lookup(L.pages, c, i, j).page;
    if !Owns(L, c, i) {
      assert Owns(L, L.kdir, i);
      assert Lookup(L.pages, L.kdir, i, j).page == f;
      assert L.pages[L.kdir] == L0.pages[L0.kdir];
      assert L.pages[L.kdir][i].page in L0.tableOwner;
      assert Holds(L0, L0.kdir, i, j, f);
    }
  }

  // ---------------------------------------------------------------------------
  // The steps of a clone
  // ---------------------------------------------------------------------------

  /** The kernel's own table for slot i, if any, maps only frames below 4 MB: true of the
      identity map and of slots the kernel does not use, false of the signal trampoline's. */
  ghost predicate SlotLow(L: Layout, i: nat) {
    forall j: nat :: Lookup(L.pages, L.kdir, i, j).flags.present ==> Lookup(L.pages, L.kdir, i, j).page < LOW
  }

  /** The pages of `c` before (i, j) are cloned, the rest is still the kernel's, and no frame that
      was in use has been touched. */
  ghost predicate CellsCloned(L0: Layout, L: Layout, ram0: seq<PageData>, ram: seq<PageData>,
                              src: nat, c: nat, i: nat, j: nat)
    requires |ram0| == |ram| == FRAMES
  {
    && (forall i': nat, j': nat :: i' < ENTRIES && j' < ENTRIES ==>
          if i' < i || (i' == i && j' < j) then CellCloned(L0, L, ram0, ram, src, c, i', j')
          else Lookup(L.pages, c, i', j') == Lookup(L0.pages, L0.kdir, i', j'))
    && RamKept(L0, ram0, ram)
  }

  /** Before slot i: the child owns no table from i on. */
  ghost predicate CloneInv(L0: Layout, L: Layout, ram0: seq<PageData>, ram: seq<PageData>, src: nat, c: nat, i: nat)
    requires |ram0| == |ram| == FRAMES
  {
    && Inv(L) && Extends(L0, L, c) && CellsCloned(L0, L, ram0, ram, src, c, i, 0)
    && forall i': nat :: i' >= i ==> !Owns(L, c, i')
  }

  /** Within slot i, whose table the child owns: the pages before j are done. */
  ghost predicate SlotInv(L0: Layout, L: Layout, ram0: seq<PageData>, ram: seq<PageData>,
                          src: nat, c: nat, i: nat, j: nat)
    requires |ram0| == |ram| == FRAMES
  {
    && Inv(L) && Extends(L0, L, c) && CellsCloned(L0, L, ram0, ram, src, c, i, j)
    && Owns(L, c, i) && forall i': nat :: i' > i ==> !Owns(L, c, i')
  }

  lemma CloneStarts(L0: Layout, ram0: seq<PageData>, src: nat, c: nat)
    requires Inv(L0) && c !in L0.pages && c != 0 && |ram0| == FRAMES
    ensures CloneInv(L0, AddSpace(L0, c), ram0, ram0, src, c, 0)
  {
    AddSpaceInv(L0, c);
    AddSpaceExtends(L0, c);
  }

  /** A slot that `src` does not own has nothing to copy. */
  lemma CloneSkipsSlot(L0: Layout, L: Layout, ram0: seq<PageData>, ram: seq<PageData>, src: nat, c: nat, i: nat)
    requires |ram0| == |ram| == FRAMES && CloneInv(L0, L, ram0, ram, src, c, i)
    requires src == L0.kdir || !Owns(L0, src, i)
    ensures CloneInv(L0, L, ram0, ram, src, c, i + 1)
  {
  }

  /** The child's table starts as a copy of the kernel's; with it in place slot i begins. */
  lemma SlotStarts(L0: Layout, L: Layout, ram0: seq<PageData>, ram: seq<PageData>, src: nat, c: nat,
                   i: nat, t: nat, contents: Page, flags: Flags)
    requires |ram0| == |ram| == FRAMES && CloneInv(L0, L, ram0, ram, src, c, i)
    requires MayInstall(L, c, i, t, contents, flags) && c in L.spaces && L0.tableOwner.Keys <= L0.pages.Keys
    requires forall j: nat :: j < ENTRIES ==> contents[j] == Lookup(L0.pages, L0.kdir, i, j)
    ensures SlotInv(L0, Install(L, c, i, t, contents, flags), ram0, ram, src, c, i, 0)
  {
    var L' := Install(L, c, i, t, contents, flags);
    InstallInv(L, c, i, t, contents, flags);
    ExtendsInstall(L0, L, c, i, t, contents, flags);
    ChildAfterInstall(L, c, i, t, contents, flags);
    CellsKept(L0, L, L', ram0, ram, src, c, i);
  }

  lemma ChildAfterInstall(L: Layout, c: nat, i: nat, t: nat, contents: Page, flags: Flags)
    requires Inv(L) && MayInstall(L, c, i, t, contents, flags) && c in L.spaces
    requires forall j: nat :: j < ENTRIES ==> contents[j] == Lookup(L.pages, c, i, j)
    ensures var L' := Install(L, c, i, t, contents, flags);
            (forall i': nat :: Owns(L', c, i') == (i' == i || Owns(L, c, i')))
            && (forall i': nat, j': nat :: i' < ENTRIES && j' < ENTRIES ==>
                  Lookup(L'.pages, c, i', j') == Lookup(L.pages, c, i', j'))
  {
    InstallOwns(L, c, i, t, contents, flags);
    forall i': nat, j': nat | i' < ENTRIES && j' < ENTRIES
      ensures Lookup(Install(L, c, i, t, contents, flags).pages, c, i', j') == Lookup(L.pages, c, i', j')
    {
      InstallLookup(L, c, i, t, contents, flags, c, i', j');
    }
  }

  lemma CellsKept(L0: Layout, L: Layout, L': Layout, ram0: seq<PageData>, ram: seq<PageData>, src: nat, c: nat, i: nat)
    requires |ram0| == |ram| == FRAMES && CellsCloned(L0, L, ram0, ram, src, c, i, 0)
    requires forall i': nat, j': nat :: i' < ENTRIES && j' < ENTRIES ==>
      Lookup(L'.pages, c, i', j') == Lookup(L.pages, c, i', j')
    ensures CellsCloned(L0, L', ram0, ram, src, c, i, 0)
  {
    forall i': nat, j': nat | i' < i && i' < ENTRIES && j' < ENTRIES
      ensures CellCloned(L0, L', ram0, ram, src, c, i', j')
    {
      assert CellCloned(L0, L, ram0, ram, src, c, i', j');
    }
  }

  lemma SlotEnds(L0: Layout, L: Layout, ram0: seq<PageData>, ram: seq<PageData>, src: nat, c: nat, i: nat)
    requires |ram0| == |ram| == FRAMES && SlotInv(L0, L, ram0, ram, src, c, i, ENTRIES)
    ensures CloneInv(L0, L, ram0, ram, src, c, i + 1)
  {
  }

  lemma SlotKeepsCell(L0: Layout, L: Layout, ram0: seq<PageData>, ram: seq<PageData>, src: nat, c: nat, i: nat, j: nat)
    requires |ram0| == |ram| == FRAMES && SlotInv(L0, L, ram0, ram, src, c, i, j) && !Copied(L0, src, i, j)
    ensures SlotInv(L0, L, ram0, ram, src, c, i, j + 1)
  {
  }

  /** Where the copied page comes from: a frame that was in use and still has its contents. */
  lemma CopySource(L: Layout, src: nat, i: nat, j: nat)
    requires Inv(L) && Dir(L, src) && Copied(L, src, i, j)
    ensures var f := Lookup(L.pages, src, i, j).page; f < FRAMES && f in L.used
  {
    var f := Lookup(L.pages, src, i, j).page;
    if f >= LOW && j < ENTRIES { assert Holds(L, src, i, j, f); }
  }

  lemma CellReady(L0: Layout, L: Layout, ram0: seq<PageData>, ram: seq<PageData>, src: nat, c: nat, i: nat, j: nat)
    requires |ram0| == |ram| == FRAMES && SlotInv(L0, L, ram0, ram, src, c, i, j) && Inv(L0) && src in L0.spaces
    requires Copied(L0, src, i, j)
    ensures Owns(L, c, i) && L.pages[c][i].page in L.pages && c in L.spaces && c != L.kdir && Dir(L0, src)
    ensures Lookup(L0.pages, src, i, j).page < FRAMES
    ensures forall e: Entry :: j < ENTRIES ==> PagesOf(EnterFresh(L, c, i, j, e), c) == PagesOf(L, c)
  {
    TableInPages(L, c, i);
    CopySource(L0, src, i, j);
  }

  /** Copying one page into a frame that was free. */
  lemma SlotCopiesCell(L0: Layout, L: Layout, ram0: seq<PageData>, ram: seq<PageData>, src: nat, c: nat,
                       i: nat, j: nat, f: nat)
    requires |ram0| == |ram| == FRAMES && SlotInv(L0, L, ram0, ram, src, c, i, j) && j < ENTRIES
    requires Inv(L0) && Dir(L0, src) && Copied(L0, src, i, j) && SlotLow(L0, i)
    requires LOW <= f < FRAMES && f !in L.used && c in L.spaces
    ensures var was := Lookup(L0.pages, src, i, j);
            was.page < FRAMES &&
            SlotInv(L0, EnterFresh(L, c, i, j, Entry(f, was.flags)), ram0, ram[f := ram[was.page]], src, c, i, j + 1)
  {
    var was := Lookup(L0.pages, src, i, j);
    var e := Entry(f, was.flags);
    CopySource(L0, src, i, j);
    assert Lookup(L.pages, c, i, j) == Lookup(L0.pages, L0.kdir, i, j);
    EnterFreshInv(L, c, i, j, e);
    EnterFreshExtends(L0, L, c, i, j, e);
    EnterFreshLookup(L, c, i, j, e);
    ClonedFramesUsed(L0, L, ram0, ram, src, c, i, j);
    CellsGrow(L0, L, EnterFresh(L, c, i, j, e), ram0, ram, src, c, i, j, f);
  }

  lemma CellsGrow(L0: Layout, L: Layout, L': Layout, ram0: seq<PageData>, ram: seq<PageData>, src: nat, c: nat,
                  i: nat, j: nat, f: nat)
    requires |ram0| == |ram| == FRAMES && CellsCloned(L0, L, ram0, ram, src, c, i, j) && i < ENTRIES && j < ENTRIES
    requires Copied(L0, src, i, j) && Lookup(L0.pages, src, i, j).page < FRAMES
    requires Lookup(L0.pages, src, i, j).page in L0.used
    requires LOW <= f < FRAMES && f !in L.used && L0.used <= L.used
    requires forall i': nat, j': nat :: i' < ENTRIES && j' < ENTRIES ==>
               Lookup(L'.pages, c, i', j') ==
               if i' == i && j' == j then Entry(f, Lookup(L0.pages, src, i, j).flags) else Lookup(L.pages, c, i', j')
    requires forall i': nat, j': nat ::
               i' < ENTRIES && j' < ENTRIES && (i' < i || (i' == i && j' < j)) && Copied(L0, src, i', j') ==>
               Lookup(L.pages, c, i', j').page in L.used
    ensures CellsCloned(L0, L', ram0, ram[f := ram[Lookup(L0.pages, src, i, j).page]], src, c, i, j + 1)
  {
    var ram' := ram[f := ram[Lookup(L0.pages, src, i, j).page]];
    forall i': nat, j': nat | i' < ENTRIES && j' < ENTRIES && (i' < i || (i' == i && j' < j))
      ensures CellCloned(L0, L', ram0, ram', src, c, i', j')
    {
      assert CellCloned(L0, L, ram0, ram, src, c, i', j');
    }
    assert CellCloned(L0, L', ram0, ram', src, c, i, j);
  }

  lemma EnterFreshLookup(L: Layout, c: nat, i: nat, j: nat, e: Entry)
    requires Inv(L) && c in L.spaces && Owns(L, c, i) && j < ENTRIES && e.page < FRAMES
    ensures var L' := EnterFresh(L, c, i, j, e);
            (forall i': nat, j': nat :: i' < ENTRIES && j' < ENTRIES ==>
               Lookup(L'.pages, c, i', j') == if i' == i && j' == j then e else Lookup(L.pages, c, i', j'))
            && (forall i': nat :: Owns(L', c, i') == Owns(L, c, i'))
  {
    var M := L.(used := L.used + {e.page});
    UsedGrows(L, e.page);
    SetEntryTables(M, c, i, j, e);
    forall i': nat, j': nat | i' < ENTRIES && j' < ENTRIES
      ensures Lookup(EnterFresh(L, c, i, j, e).pages, c, i', j') ==
              if i' == i && j' == j then e else Lookup(L.pages, c, i', j')
    {
      SetEntryLookup(M, c, i, j, e, c, i', j');
    }
    assert forall i': nat :: Owns(M, c, i') == Owns(L, c, i');
  }

  lemma ClonedFramesUsed(L0: Layout, L: Layout, ram0: seq<PageData>, ram: seq<PageData>, src: nat, c: nat, i: nat,
                         j: nat)
    requires Inv(L0) && Inv(L) && Extends(L0, L, c) && |ram0| == |ram| == FRAMES
    requires CellsCloned(L0, L, ram0, ram, src, c, i, j)
    ensures forall i': nat, j': nat ::
              i' < ENTRIES && j' < ENTRIES && (i' < i || (i' == i && j' < j)) && Copied(L0, src, i', j') ==>
              Lookup(L.pages, c, i', j').page in L.used
  {
    forall i': nat, j': nat | i' < ENTRIES && j' < ENTRIES && (i' < i || (i' == i && j' < j)) && Copied(L0, src, i', j')
      ensures Lookup(L.pages, c, i', j').page in L.used
    {
      assert CellCloned(L0, L, ram0, ram, src, c, i', j');
      var f := Lookup(L.pages, c, i', j').page;
      if Owns(L, c, i') { assert Holds(L, c, i', j', f); }
      else { assert Owns(L, L.kdir, i'); assert Holds(L, L.kdir, i', j', f); }
    }
  }

  lemma CloneRamKept(L0: Layout, L: Layout, ram0: seq<PageData>, ram: seq<PageData>, src: nat, c: nat, i: nat)
    requires |ram0| == |ram| == FRAMES && CloneInv(L0, L, ram0, ram, src, c, i)
    ensures Extends(L0, L, c) && c in L.spaces && RamKept(L0, ram0, ram)
  {
  }

  lemma SlotRamKept(L0: Layout, L: Layout, ram0: seq<PageData>, ram: seq<PageData>, src: nat, c: nat, i: nat, j: nat)
    requires |ram0| == |ram| == FRAMES && SlotInv(L0, L, ram0, ram, src, c, i, j)
    ensures Extends(L0, L, c) && c in L.spaces && RamKept(L0, ram0, ram)
  {
  }

  lemma CloneDone(L0: Layout, L: Layout, ram0: seq<PageData>, ram: seq<PageData>, src: nat, c: nat)
    requires |ram0| == |ram| == FRAMES && CloneInv(L0, L, ram0, ram, src, c, ENTRIES)
    ensures IsClone(L0, L, ram0, ram, src, c)
  {
  }

  /** Nothing of the source or the kernel moves while the child is built. */
  lemma OwnedSlotKept(L0: Layout, L: Layout, src: nat, c: nat, i: nat)
    requires Inv(L0) && Extends(L0, L, c) && src in L0.spaces && Owns(L0, src, i)
    ensures src in L.pages && L.pages[src] == L0.pages[src] && L.pages[src][i].page in L.pages
    ensures forall j: nat :: j < ENTRIES ==> L.pages[L.pages[src][i].page][j] == Lookup(L0.pages, src, i, j)
    ensures L.pages[src][i].flags.present
    ensures c in L.spaces && L0.used <= L.used
  {
    TableInPages(L0, src, i);
  }

  lemma KernelTableKept(L0: Layout, L: Layout, c: nat, i: nat)
    requires Inv(L0) && Extends(L0, L, c) && i < ENTRIES
    ensures L.kdir in L.pages && L.pages[L.kdir] == L0.pages[L0.kdir] && c in L.spaces
    ensures L.pages[L.kdir][i].flags.present ==> L.pages[L.kdir][i].page in L.pages
    ensures forall j: nat :: j < ENTRIES ==>
              Lookup(L0.pages, L0.kdir, i, j) ==
              if L.pages[L.kdir][i].flags.present then L.pages[L.pages[L.kdir][i].page][j] else ABSENT
    ensures L0.tableOwner.Keys <= L0.pages.Keys
  {
    if L0.pages[L0.kdir][i].flags.present { TableInPages(L0, L0.kdir, i); }
  }

  lemma InstallPagesOf(L: Layout, c: nat, i: nat, t: nat, contents: Page, flags: Flags)
    requires c in L.pages && i < ENTRIES && t !in L.tableOwner
    ensures PagesOf(Install(L, c, i, t, contents, flags), c) == PagesOf(L, c) + {t}
  {
  }

  lemma SlotInstalls(L0: Layout, L: Layout, ram0: seq<PageData>, ram: seq<PageData>, src: nat, c: nat,
                     i: nat, t: nat, contents: Page, flags: Flags)
    requires |ram0| == |ram| == FRAMES && CloneInv(L0, L, ram0, ram, src, c, i) && i < ENTRIES
    requires Inv(L0) && SlotLow(L0, i) && t !in L.pages && t != 0 && flags.present
    requires forall j: nat :: j < ENTRIES ==> contents[j] == Lookup(L0.pages, L0.kdir, i, j)
    ensures SlotInv(L0, Install(L, c, i, t, contents, flags), ram0, ram, src, c, i, 0)
    ensures PagesOf(Install(L, c, i, t, contents, flags), c) == PagesOf(L, c) + {t}
  {
    SlotStarts(L0, L, ram0, ram, src, c, i, t, contents, flags);
    InstallPagesOf(L, c, i, t, contents, flags);
  }

  lemma NewSpacePages(L: Layout, c: nat)
    requires Inv(L) && c !in L.pages
    ensures PagesOf(AddSpace(L, c), c) == {c}
  {
  }
}
