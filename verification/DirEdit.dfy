/** Editing one directory block in place (the inner loops of dir_add_entry and dir_remove_entry). */
module DirEdit {
  import opened Bytes
  import opened DirBlock
  import opened Directory

  /** The record that starts after the first i, read at its offset in the block. */
  lemma RecordAt(b: Block, cs: seq<Bytes>, i: nat)
    requires Concat(cs) == b && AllWellFormed(cs) && i <= |cs|
    ensures var o := |Concat(cs[..i])|; o <= 4096 && (o == 4096 <==> i == |cs|)
    ensures var o := |Concat(cs[..i])|;
            i < |cs| ==>
              var c := cs[i];
              && WellFormed(c) && RecLen(c) == |c| >= 8 && o + |c| == |Concat(cs[..i + 1])| <= 4096
              && b[o..o + |c|] == c
              && b == Concat(cs[..i]) + c + Concat(cs[i + 1..])
              && U32(b, o) == Inode(c) && U16(b, o + 4) == RecLen(c) && b[o + 6] == c[6]
  {
    hide WellFormed;
    if i < |cs| {
      ConcatAt(cs, i);
      assert WellFormed(cs[i]);
      FieldsIn(b, Concat(cs[..i]), cs[i], Concat(cs[i + 1..]));
    } else {
      assert cs[..i] == cs;
    }
  }

  lemma FieldsIn(b: Bytes, l: Bytes, c: Bytes, r: Bytes)
    requires b == l + c + r && WellFormed(c)
    ensures b[|l|..|l| + |c|] == c && U32(b, |l|) == Inode(c) && U16(b, |l| + 4) == RecLen(c) && b[|l| + 6] == c[6]
    ensures |c| >= 8
    ensures RecLen(c) == |c|
  {
    assert forall k :: 0 <= k < |c| ==> b[|l| + k] == c[k];
    assert b[|l| + 0] == c[0] && b[|l| + 1] == c[1] && b[|l| + 2] == c[2] && b[|l| + 3] == c[3];
    assert b[|l| + 4] == c[4] && b[|l| + 5] == c[5] && b[|l| + 6] == c[6];
  }

  /** The block after the stores that write an entry into its place. */
  ghost function EntryStores(b: Bytes, o: nat, n: nat, name: Name, ino: nat, ftype: Byte): (r: Bytes)
    requires o + n <= |b| && 8 + |name| <= n < 0x1_0000 && |name| < 256 && ino < 0x1_0000_0000
    ensures |r| == |b|
  {
    Patch(Patch(Patch(Patch(b, o, Le32(ino)), o + 4, Le16(n)), o + 6, [|name|, ftype]), o + 8, name)
  }

  /** Together they write one record. */
  lemma EntryStored(b: Bytes, o: nat, n: nat, name: Name, ino: nat, ftype: Byte)
    requires o + n <= |b| && 8 + |name| <= n < 0x1_0000 && |name| < 256 && ino < 0x1_0000_0000
    ensures EntryStores(b, o, n, name, ino, ftype) ==
            b[..o] + Entry(b[o..o + n], name, ino, ftype) + b[o + n..]
  {
    hide *;
    var h: Bytes := [|name|, ftype];
    var d2 := Le32(ino) + Le16(n);
    var d3 := d2 + h;
    var d4 := d3 + name;
    PatchJoin(b, o, Le32(ino), Le16(n));
    PatchJoin(b, o, d2, h);
    PatchJoin(b, o, d3, name);
    StoresAre(b, o, n, name, ino, ftype);
    EntryIs(b[o..o + n], name, ino, ftype);
    PatchInside(b, o, n, 0, d4);
    assert o + 0 == o;
  }

  lemma StoresAre(b: Bytes, o: nat, n: nat, name: Name, ino: nat, ftype: Byte)
    requires o + n <= |b| && 8 + |name| <= n < 0x1_0000 && |name| < 256 && ino < 0x1_0000_0000
    ensures EntryStores(b, o, n, name, ino, ftype) ==
            Patch(Patch(Patch(Patch(b, o, Le32(ino)), o + 4, Le16(n)), o + 6, [|name|, ftype]), o + 8, name)
  {
  }

  lemma EntryIs(under: Bytes, name: Name, ino: nat, ftype: Byte)
    requires 8 + |name| <= |under| < 0x1_0000 && |name| < 256 && ino < 0x1_0000_0000
    ensures Entry(under, name, ino, ftype) == Patch(under, 0, Le32(ino) + Le16(|under|) + [|name|, ftype] + name)
  {
    hide Le32, Le16, U16, U32;
    assert Header(ino, |under|, |name|, ftype) == Le32(ino) + Le16(|under|) + [|name|, ftype];
  }

  /** The block after all stores of an insertion. */
  ghost function InsertStores(b: Bytes, off: nat, rec: nat, actual: nat, used: bool, name: Name, ino: nat,
                              ftype: Byte): (r: Bytes)
    requires off + rec <= |b| && rec < 0x1_0000 && actual + 8 + |name| <= rec && |name| < 256 && ino < 0x1_0000_0000
    requires used ==> 8 <= actual
  {
    var b1 := if used then Patch(b, off + 4, Le16(actual)) else b;
    EntryStores(b1, off + actual, rec - actual, name, ino, ftype)
  }

  /** What the stores of an insertion leave in the block. */
  lemma SplitStored(b: Block, l: Bytes, c: Bytes, r: Bytes, name: Name, ino: nat, ftype: Byte)
    requires b == l + c + r && WellFormed(c) && GoodEntry(name, ino) && HasRoom(c, |name|)
    ensures Used(c) ==> Actual(c) >= 8
    ensures InsertStores(b, |l|, RecLen(c), Actual(c), Used(c), name, ino, ftype) ==
            l + Concat(Split(c, name, ino, ftype)) + r
  {
    hide U16, U32, Patch, Le16, Le32, Entry, Relabelled, EntryStores;
    var a, o := Actual(c), |l|;
    var m := Split(c, name, ino, ftype);
    if Used(c) {
      ConcatTwo(m);
      LabelStored(b, l, c[..a], c[a..] + r);
      var b1 := l + m[0] + (c[a..] + r);
      assert b == l + c[..a] + (c[a..] + r);
      assert b1[..o + a] == l + m[0] && b1[o + a..o + |c|] == c[a..] && b1[o + |c|..] == r;
      EntryStored(b1, o + a, |c| - a, name, ino, ftype);
      assert l + (m[0] + m[1]) + r == (l + m[0]) + m[1] + r;
    } else {
      ConcatTwo(m);
      assert b[..o] == l && b[o..o + |c|] == c && b[o + |c|..] == r;
      EntryStored(b, o, |c|, name, ino, ftype);
    }
  }

  lemma ConcatTwo(m: seq<Bytes>)
    ensures |m| == 1 ==> Concat(m) == m[0]
    ensures |m| == 2 ==> Concat(m) == m[0] + m[1]
  {
    if |m| == 1 { assert m[1..] == []; }
    if |m| == 2 { assert m[1..] == [m[1]] && Concat([m[1]]) == m[1] + Concat([]); }
  }

  /** A store to a length field. */
  lemma LabelStored(b: Bytes, l: Bytes, c: Bytes, r: Bytes)
    requires b == l + c + r && 8 <= |c| < 0x1_0000
    ensures Patch(b, |l| + 4, Le16(|c|)) == l + Relabelled(c) + r
  {
    hide Le16, Patch;
    assert b[..|l|] == l && b[|l|..|l| + |c|] == c && b[|l| + |c|..] == r;
    PatchInside(b, |l|, |c|, 4, Le16(|c|));
  }

  /** `b1` is `b` with the entry in the first record that has room, if there is one. */
  ghost predicate InsertedIn(b: Block, b1: Bytes, name: Name, ino: nat, ftype: Byte, ok: bool)
    requires Tiled(b) && GoodEntry(name, ino)
  {
    var cs := Chunks(b);
    var i := FirstRoom(cs, |name|);
    ok == (i < |cs|) && (if ok then |cs[i]| <= BLOCK && b1 == Concat(Inserted(cs, i, name, ino, ftype)) else b1 == b)
  }

  /** The scan stands at the i-th record, and none before it had room. */
  ghost predicate ScanRoom(b: Block, i: nat, off: nat, n: nat) {
    var cs := Chunks(b);
    && Tiled(b) && i <= |cs| && off == |Concat(cs[..i])|
    && forall k :: 0 <= k < i ==> |cs[k]| >= 8 && !HasRoom(cs[k], n)
  }

  predicate UsedAt(b: Block, off: nat)
    requires off + 8 <= 4096
  {
    U32(b, off) != 0
  }

  function ActualAt(b: Block, off: nat): nat
    requires off + 8 <= 4096
  {
    if UsedAt(b, off) then (8 + b[off + 6] as int + 3) / 4 * 4 else 0
  }

  lemma StartRoom(b: Block, n: nat)
    requires Tiled(b)
    ensures ScanRoom(b, 0, 0, n)
  {
  }

  /** One step of the scan: the record has room and is split, or the scan goes on behind it. */
  lemma StepRoom(b: Block, i: nat, off: nat, name: Name, ino: nat, ftype: Byte)
    requires ScanRoom(b, i, off, |name|) && off < 4096 && GoodEntry(name, ino)
    ensures off + 8 <= 4096 && 8 <= U16(b, off + 4) <= 4096 - off && i < |Chunks(b)|
    ensures var rec, actual, used := U16(b, off + 4), ActualAt(b, off), UsedAt(b, off);
            if rec - actual >= (8 + |name| + 3) / 4 * 4 then
              && actual + 8 + |name| <= rec && (used ==> 8 <= actual) && |name| < 256 && ino < 0x1_0000_0000
              && InsertedIn(b, InsertStores(b, off, rec, actual, used, name, ino, ftype), name, ino, ftype, true)
            else ScanRoom(b, i + 1, off + rec, |name|)
  {
    hide Tiled, Chunks, WellFormed, Split, U16, U32, HasRoom, Inserted, InsertStores;
    var cs := Chunks(b);
    TiledChunks(b);
    RecordAt(b, cs, i);
    RoomIn(cs[i], |name|);
    if HasRoom(cs[i], |name|) {
      SplitStored(b, Concat(cs[..i]), cs[i], Concat(cs[i + 1..]), name, ino, ftype);
      InsertedBytes(cs, i, name, ino, ftype);
    }
  }

  lemma EndRoom(b: Block, i: nat, name: Name, ino: nat, ftype: Byte)
    requires ScanRoom(b, i, 4096, |name|) && GoodEntry(name, ino)
    ensures InsertedIn(b, b, name, ino, ftype, false)
  {
    TiledChunks(b);
    RecordAt(b, Chunks(b), i);
  }

  /** The scan of one block for a hole, and the insertion into the first. */
  method InsertIn(buf: array<Byte>, name: Name, ino: nat, ftype: Byte) returns (ok: bool)
    requires buf.Length == 4096 && Tiled(buf[..]) && GoodEntry(name, ino)
    modifies buf
    ensures InsertedIn(old(buf[..]), buf[..], name, ino, ftype, ok)
  {
    hide *;
    var needed := (8 + |name| + 3) / 4 * 4;
    var off := 0;
    ghost var b, i := buf[..], 0;
    StartRoom(b, |name|);
    while off < 4096
      invariant buf[..] == b && off <= 4096 && ScanRoom(b, i, off, |name|)
    {
      StepRoom(b, i, off, name, ino, ftype);
      var rec := U16(buf[..], off + 4);
      if rec == 0 { break; }
      var used := UsedAt(buf[..], off);
      var actual := ActualAt(buf[..], off);
      if rec - actual >= needed {
        WriteEntry(buf, off, rec, actual, used, name, ino, ftype);
        return true;
      }
      off := off + rec;
      i := i + 1;
    }
    EndRoom(b, i, name, ino, ftype);
    ok := false;
  }

  /** The stores of an insertion, in the order they are made. */
  method WriteEntry(buf: array<Byte>, off: nat, rec: nat, actual: nat, used: bool, name: Name, ino: nat, ftype: Byte)
    requires off + rec <= buf.Length && rec < 0x1_0000 && actual + 8 + |name| <= rec && |name| < 256
    requires ino < 0x1_0000_0000
    requires used ==> 8 <= actual
    modifies buf
    ensures buf[..] == InsertStores(old(buf[..]), off, rec, actual, used, name, ino, ftype)
  {
    hide Patch, Le16, Le32;
    if used { StoreBytes(buf, off + 4, Le16(actual)); }
    var at := off + actual;
    StoreBytes(buf, at, Le32(ino));
    StoreBytes(buf, at + 4, Le16(rec - actual));
    StoreBytes(buf, at + 6, [|name|, ftype]);
    StoreBytes(buf, at + 8, name);
  }

  lemma RoomIn(c: Bytes, n: nat)
    requires WellFormed(c)
    ensures |c| >= 8 && RecLen(c) == |c| && Actual(c) == (if Inode(c) != 0 then (8 + c[6] as int + 3) / 4 * 4 else 0)
    ensures HasRoom(c, n) <==> RecLen(c) - Actual(c) >= (8 + n + 3) / 4 * 4
    ensures (8 + n + 3) / 4 * 4 >= 8 + n && (Used(c) ==> Actual(c) >= 8)
  {
  }

  lemma InsertedBytes(cs: seq<Bytes>, i: nat, name: Name, ino: nat, ftype: Byte)
    requires AllWellFormed(cs) && i < |cs| && |cs[i]| <= BLOCK && GoodEntry(name, ino) && HasRoom(cs[i], |name|)
    ensures Concat(Inserted(cs, i, name, ino, ftype)) ==
            Concat(cs[..i]) + Concat(Split(cs[i], name, ino, ftype)) + Concat(cs[i + 1..])
  {
    ConcatThree(cs[..i], Split(cs[i], name, ino, ftype), cs[i + 1..]);
  }

  /** `b1` is `b` without the first record of that name and inode, if there is one. */
  ghost predicate RemovedIn(b: Block, b1: Bytes, name: Name, ino: nat, ok: bool)
    requires Tiled(b)
  {
    var cs := Chunks(b);
    var i := FirstMatch(cs, name, ino);
    ok == (i < |cs|) && b1 == if ok then Concat(Removed(cs, i)) else b
  }

  /** The scan stands at the i-th record, the one before is at `prev`, and none before matched. */
  ghost predicate ScanMatch(b: Block, i: nat, off: nat, prev: int, name: Name, ino: nat) {
    var cs := Chunks(b);
    && Tiled(b) && i <= |cs| && off == |Concat(cs[..i])| && prev == (if i == 0 then -1 else |Concat(cs[..i - 1])|)
    && forall k :: 0 <= k < i ==> |cs[k]| >= 8 && !Matches(cs[k], name, ino)
  }

  predicate MatchAt(b: Block, off: nat, name: Name, ino: nat)
    requires off + 8 <= 4096 && (U32(b, off) == ino && b[off + 6] == |name| ==> off + 8 + |name| <= 4096)
  {
    U32(b, off) == ino && b[off + 6] == |name| && b[off + 8..off + 8 + |name|] == name
  }

  lemma StartMatch(b: Block, name: Name, ino: nat)
    requires Tiled(b)
    ensures ScanMatch(b, 0, 0, -1, name, ino)
  {
  }

  /** One step of the scan: the record is the one and goes, or the scan goes on behind it. */
  lemma StepMatch(b: Block, i: nat, off: nat, prev: int, name: Name, ino: nat)
    requires ScanMatch(b, i, off, prev, name, ino) && off < 4096 && ino != 0
    ensures off + 8 <= 4096 && 8 <= U16(b, off + 4) <= 4096 - off && i < |Chunks(b)|
    ensures U32(b, off) == ino && b[off + 6] == |name| ==> off + 8 + |name| <= 4096
    ensures prev < 0 || (prev + 8 <= 4096 && U16(b, prev + 4) + U16(b, off + 4) < 0x1_0000)
    ensures if MatchAt(b, off, name, ino) then
              if prev >= 0 then
                RemovedIn(b, Patch(b, prev + 4, Le16(U16(b, prev + 4) + U16(b, off + 4))), name, ino, true)
              else RemovedIn(b, Patch(Patch(b, off, [0, 0, 0, 0]), off + 6, [0, 0]), name, ino, true)
            else ScanMatch(b, i + 1, off + U16(b, off + 4), off, name, ino)
  {
    hide Tiled, Chunks, WellFormed, U16, U32, Matches, Removed, Patch, Concat;
    var cs := Chunks(b);
    TiledChunks(b);
    RecordAt(b, cs, i);
    MatchIn(b, cs, i, name, ino);
    MergeStored(b, cs, i);
    if i > 0 { RecordAt(b, cs, i - 1); }
  }

  lemma EndMatch(b: Block, i: nat, prev: int, name: Name, ino: nat)
    requires ScanMatch(b, i, 4096, prev, name, ino)
    ensures RemovedIn(b, b, name, ino, false)
  {
    TiledChunks(b);
    RecordAt(b, Chunks(b), i);
  }

  /** The scan of one block for a record, and its removal. `prev` is the offset of the record
      before, or -1. */
  method RemoveIn(buf: array<Byte>, name: Name, ino: nat) returns (ok: bool)
    requires buf.Length == 4096 && Tiled(buf[..]) && ino != 0
    modifies buf
    ensures RemovedIn(old(buf[..]), buf[..], name, ino, ok)
  {
    hide *;
    var off := 0;
    var prev: int := -1;
    ghost var b, i := buf[..], 0;
    StartMatch(b, name, ino);
    while off < 4096
      invariant buf[..] == b && off <= 4096 && ScanMatch(b, i, off, prev, name, ino)
    {
      StepMatch(b, i, off, prev, name, ino);
      var rec := U16(buf[..], off + 4);
      if rec == 0 { break; }
      if MatchAt(buf[..], off, name, ino) {
        if prev >= 0 {
          StoreBytes(buf, prev + 4, Le16(U16(buf[..], prev + 4) + rec));
        } else {
          StoreBytes(buf, off, [0, 0, 0, 0]);
          StoreBytes(buf, off + 6, [0, 0]);
        }
        return true;
      }
      prev := off;
      off := off + rec;
      i := i + 1;
    }
    EndMatch(b, i, prev, name, ino);
    ok := false;
  }

  lemma MatchIn(b: Block, cs: seq<Bytes>, i: nat, name: Name, ino: nat)
    requires Concat(cs) == b && AllWellFormed(cs) && i < |cs| && ino != 0
    ensures var o := |Concat(cs[..i])|;
            && o + 8 <= 4096 && |cs[i]| >= 8 && RecLen(cs[i]) == |cs[i]|
            && (U32(b, o) == ino && b[o + 6] == |name| ==> o + 8 + |name| <= 4096)
            && (Matches(cs[i], name, ino) <==>
                U32(b, o) == ino && b[o + 6] == |name| && b[o + 8..o + 8 + |name|] == name)
  {
    hide U16, U32;
    RecordAt(b, cs, i);
    var o, c := |Concat(cs[..i])|, cs[i];
    if U32(b, o) == ino && b[o + 6] == |name| {
      assert b[o + 8..o + 8 + |name|] == c[8..8 + |name|];
    }
  }

  /** The stores of a removal leave the records with that one gone. */
  lemma MergeStored(b: Block, cs: seq<Bytes>, i: nat)
    requires Concat(cs) == b && AllWellFormed(cs) && i < |cs|
    ensures var o := |Concat(cs[..i])|;
            if i == 0 then
              && o + 8 <= 4096 && Concat(Removed(cs, i)) == Patch(Patch(b, o, [0, 0, 0, 0]), o + 6, [0, 0])
            else
              && var p := |Concat(cs[..i - 1])|;
              && p + 8 <= 4096 && |cs[i - 1]| + |cs[i]| < 0x1_0000
              && Concat(Removed(cs, i)) == Patch(b, p + 4, Le16(|cs[i - 1]| + |cs[i]|))
  {
    hide U16, U32, Patch, Le16, Relabelled, Blanked, Removed, WellFormed;
    PairFits(cs, i);
    if i == 0 {
      FirstBytes(cs);
      BlankStored(b, [], cs[0], Concat(cs[1..]));
    } else {
      MergedBytes(cs, i);
      LabelStored(b, Concat(cs[..i - 1]), cs[i - 1] + cs[i], Concat(cs[i + 1..]));
    }
  }

  /** The bytes before and after the removal of the first record. */
  lemma FirstBytes(cs: seq<Bytes>)
    requires AllWellFormed(cs) && cs != [] && |Concat(cs)| <= BLOCK
    ensures Concat(cs) == [] + cs[0] + Concat(cs[1..]) && |cs[0]| >= 8
    ensures Concat(Removed(cs, 0)) == [] + Blanked(cs[0]) + Concat(cs[1..])
  {
    hide U16, U32, Patch, Le16, Blanked;
    PairFits(cs, 0);
    var m := Merged([], cs[0]);
    assert cs[..0] == [];
    ConcatThree([], m, cs[1..]);
    ConcatTwo(m);
  }

  /** The bytes before and after the removal of a later record. */
  lemma MergedBytes(cs: seq<Bytes>, i: nat)
    requires AllWellFormed(cs) && 0 < i < |cs| && |Concat(cs)| <= BLOCK
    ensures 8 <= |cs[i - 1] + cs[i]| <= BLOCK
    ensures Concat(cs) == Concat(cs[..i - 1]) + (cs[i - 1] + cs[i]) + Concat(cs[i + 1..])
    ensures Concat(Removed(cs, i)) == Concat(cs[..i - 1]) + Relabelled(cs[i - 1] + cs[i]) + Concat(cs[i + 1..])
  {
    hide U16, U32, Patch, Le16, Relabelled;
    PairFits(cs, i);
    var p := [cs[i - 1]];
    var l, m, r := cs[..i - 1], Merged(p, cs[i]), cs[i + 1..];
    ConcatThree(l, p + [cs[i]], r);
    ConcatThree(l, m, r);
    PairBytes(p, cs[i]);
    ConcatTwo(m);
    ConcatTwo(p);
  }

  lemma ConcatThree(l: seq<Bytes>, m: seq<Bytes>, r: seq<Bytes>)
    ensures Concat(l + m + r) == Concat(l) + Concat(m) + Concat(r)
  {
    ConcatSplit(l, m);
    ConcatSplit(l + m, r);
  }

  lemma PairBytes(p: seq<Bytes>, c: Bytes)
    requires |p| <= 1
    ensures Concat(p + [c]) == if p == [] then c else p[0] + c
  {
    ConcatSplit(p, [c]);
    assert Concat([c]) == c + Concat([]);
    if p != [] { assert Concat(p) == p[0] + Concat(p[1..]) && Concat(p[1..]) == []; }
  }

  lemma BlankStored(b: Bytes, l: Bytes, c: Bytes, r: Bytes)
    requires b == l + c + r && 8 <= |c|
    ensures Patch(Patch(b, |l|, [0, 0, 0, 0]), |l| + 6, [0, 0]) == l + Blanked(c) + r
  {
    hide Patch, Blanked;
    assert b[..|l|] == l && b[|l|..|l| + |c|] == c && b[|l| + |c|..] == r;
    PatchInside(b, |l|, |c|, 0, [0, 0, 0, 0]);
    var z := Patch(c, 0, [0, 0, 0, 0]);
    var b1 := l + z + r;
    assert b1[..|l|] == l && b1[|l|..|l| + |c|] == z && b1[|l| + |c|..] == r;
    PatchInside(b1, |l|, |c|, 6, [0, 0]);
  }

  lemma TiledChunks(b: Bytes)
    requires Tiled(b)
    ensures AllWellFormed(Chunks(b)) && Concat(Chunks(b)) == b
  {
  }
}
