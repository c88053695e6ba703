/** Directory blocks of BiscuitFS: variable-length records that tile 4096 bytes, read as a map
    from names to inode numbers (fs/blueyfs.c, dir_lookup, dir_add_entry, dir_remove_entry). */
module DirBlock {
  import opened Bytes

  const BLOCK: nat := 4096
  const DIRENT_MIN: nat := 8

  type Block = b: Bytes | |b| == 4096 witness seq(4096, _ => 0)
  type Name = Bytes

  // ---------------------------------------------------------------------------
  // Records: inode (32 bits), rec_len (16), name_len (8), file_type (8), name
  // ---------------------------------------------------------------------------

  function Inode(c: Bytes): nat
    requires |c| >= 8
  {
    U32(c, 0)
  }

  function RecLen(c: Bytes): nat
    requires |c| >= 8
  {
    U16(c, 4)
  }

  predicate Used(c: Bytes)
    requires |c| >= 8
  {
    Inode(c) != 0
  }

  /** A record fills exactly its rec_len bytes, on 4-byte boundaries, and has room for its name. */
  predicate WellFormed(c: Bytes) {
    && |c| >= 8 && |c| % 4 == 0 && RecLen(c) == |c|
    && (Used(c) ==> 1 <= c[6] && 8 + c[6] <= |c|)
  }

  function NameIn(c: Bytes): Name
    requires WellFormed(c) && Used(c)
  {
    c[8..8 + c[6]]
  }

  /** Bytes a name needs: header and name, rounded up to 4. */
  function Needed(n: nat): (r: nat)
    ensures r % 4 == 0 && 8 + n <= r < 12 + n
  {
    (DIRENT_MIN + n + 3) / 4 * 4
  }

  /** Bytes a record really uses; an unused one uses none. */
  function Actual(c: Bytes): nat
    requires |c| >= 8
  {
    if Used(c) then Needed(c[6]) else 0
  }

  ghost predicate AllWellFormed(cs: seq<Bytes>) { forall i :: 0 <= i < |cs| ==> WellFormed(cs[i]) }

  /** The records of a string of bytes, up to the first that is broken. */
  ghost function Chunks(s: Bytes): seq<Bytes>
    decreases |s|
  {
    if |s| < 8 || RecLen(s) < 8 || RecLen(s) > |s| then []
    else [s[..RecLen(s)]] + Chunks(s[RecLen(s)..])
  }

  /** Records tile the bytes. */
  ghost predicate Tiled(s: Bytes) { AllWellFormed(Chunks(s)) && Concat(Chunks(s)) == s }

  /** Records laid end to end are read back as they were. */
  lemma {:induction false} ChunksOfConcat(cs: seq<Bytes>)
    requires AllWellFormed(cs)
    ensures Chunks(Concat(cs)) == cs && Tiled(Concat(cs))
  {
    if cs != [] {
      var c, s := cs[0], Concat(cs);
      assert s[..|c|] == c && s[|c|..] == Concat(cs[1..]);
      assert WellFormed(c) && s[4] == c[4] && s[5] == c[5];
      ChunksOfConcat(cs[1..]);
      assert cs == [c] + cs[1..];
    }
  }

  // ---------------------------------------------------------------------------
  // What a list of records maps names to
  // ---------------------------------------------------------------------------

  /** Names to inodes, the first record winning, as the lookup does. */
  ghost function MapOf(cs: seq<Bytes>): map<Name, nat>
    requires AllWellFormed(cs)
  {
    if cs == [] then map[]
    else
      var rest := MapOf(cs[1..]);
      if Used(cs[0]) then rest[NameIn(cs[0]) := Inode(cs[0])] else rest
  }

  /** No two used records carry the same name. */
  ghost predicate Unique(cs: seq<Bytes>)
    requires AllWellFormed(cs)
  {
    cs == [] || (Unique(cs[1..]) && (Used(cs[0]) ==> NameIn(cs[0]) !in MapOf(cs[1..])))
  }

  lemma {:induction false} MapOfSplit(a: seq<Bytes>, b: seq<Bytes>)
    requires AllWellFormed(a) && AllWellFormed(b)
    ensures MapOf(a + b) == MapOf(b) + MapOf(a)
    ensures Unique(a + b) <==> Unique(a) && Unique(b) && MapOf(a).Keys !! MapOf(b).Keys
  {
    if a == [] {
      assert a + b == b;
    } else {
      MapOfSplit(a[1..], b);
      assert (a + b)[1..] == a[1..] + b;
    }
  }

  /** One record among others. */
  lemma MapOfAround(l: seq<Bytes>, m: seq<Bytes>, r: seq<Bytes>)
    requires AllWellFormed(l) && AllWellFormed(m) && AllWellFormed(r)
    ensures AllWellFormed(l + m + r) && MapOf(l + m + r) == MapOf(r) + MapOf(m) + MapOf(l)
    ensures Unique(l + m + r) <==>
      Unique(l) && Unique(m) && Unique(r) && MapOf(l).Keys !! MapOf(m).Keys && MapOf(l).Keys !! MapOf(r).Keys
      && MapOf(m).Keys !! MapOf(r).Keys
  {
    MapOfSplit(l, m);
    MapOfSplit(l + m, r);
  }

  /** Replacing records by others that map one name more. */
  lemma MapGains(l: seq<Bytes>, m: seq<Bytes>, m': seq<Bytes>, r: seq<Bytes>, name: Name, ino: nat)
    requires AllWellFormed(l) && AllWellFormed(m) && AllWellFormed(m') && AllWellFormed(r)
    requires Unique(l + m + r) && name !in MapOf(l + m + r)
    requires Unique(m) ==> Unique(m') && MapOf(m') == MapOf(m)[name := ino]
    ensures AllWellFormed(l + m' + r) && Unique(l + m' + r) && MapOf(l + m' + r) == MapOf(l + m + r)[name := ino]
  {
    hide MapOf, Unique;
    MapOfAround(l, m, r);
    MapOfAround(l, m', r);
    assert MapOf(l + m + r).Keys == MapOf(r).Keys + MapOf(m).Keys + MapOf(l).Keys;
  }

  /** Replacing records by others that map one name less. */
  lemma MapLoses(l: seq<Bytes>, m: seq<Bytes>, m': seq<Bytes>, r: seq<Bytes>, name: Name)
    requires AllWellFormed(l) && AllWellFormed(m) && AllWellFormed(m') && AllWellFormed(r)
    requires Unique(l + m + r) && name in MapOf(m)
    requires Unique(m) ==> Unique(m') && MapOf(m') == MapOf(m) - {name}
    ensures AllWellFormed(l + m' + r) && Unique(l + m' + r) && MapOf(l + m' + r) == MapOf(l + m + r) - {name}
  {
    hide MapOf, Unique;
    MapOfAround(l, m, r);
    MapOfAround(l, m', r);
  }

  // ---------------------------------------------------------------------------
  // Stores into a record
  // ---------------------------------------------------------------------------

  /** A record with another length field; `bytes` are the bytes it now spans. */
  function Relabelled(bytes: Bytes): (c: Bytes)
    requires 8 <= |bytes| < 0x1_0000
    ensures |c| == |bytes| && RecLen(c) == |c| && Inode(c) == Inode(bytes) && c[6..] == bytes[6..]
  {
    var d := Le16(|bytes|);
    var c := Patch(bytes, 4, d);
    assert c[4 + 0] == d[0] && c[4 + 1] == d[1];
    c
  }

  function Header(ino: nat, len: nat, nameLen: Byte, ftype: Byte): Bytes
    requires ino < 0x1_0000_0000 && len < 0x1_0000
  {
    Le32(ino) + Le16(len) + [nameLen, ftype]
  }

  /** A fresh record over the bytes `under`. */
  function Entry(under: Bytes, name: Name, ino: nat, ftype: Byte): (c: Bytes)
    requires 8 + |name| <= |under| < 0x1_0000 && |name| < 256 && ino < 0x1_0000_0000
    ensures |c| == |under| && RecLen(c) == |c| && Inode(c) == ino && c[6] == |name| && c[7] == ftype
    ensures c[8..8 + |name|] == name
  {
    var c := Patch(under, 0, Header(ino, |under|, |name|, ftype) + name);
    assert forall i :: 0 <= i < 8 + |name| ==> c[0 + i] == (Header(ino, |under|, |name|, ftype) + name)[i];
    c
  }

  lemma EntryMaps(under: Bytes, name: Name, ino: nat, ftype: Byte)
    requires Needed(|name|) <= |under| <= BLOCK && |under| % 4 == 0 && 1 <= |name| < 256 && 0 < ino < 0x1_0000_0000
    ensures WellFormed(Entry(under, name, ino, ftype))
    ensures MapOf([Entry(under, name, ino, ftype)]) == map[name := ino] && Unique([Entry(under, name, ino, ftype)])
  {
    var c := Entry(under, name, ino, ftype);
    assert MapOf([c][1..]) == map[];
  }

  lemma SingleMap(c: Bytes)
    requires WellFormed(c)
    ensures MapOf([c]) == (if Used(c) then map[NameIn(c) := Inode(c)] else map[]) && Unique([c])
  {
    assert MapOf([c][1..]) == map[];
  }

  /** A longer or shorter span of bytes that keeps a record's name maps what the record did. */
  lemma RelabelledMaps(c: Bytes, bytes: Bytes)
    requires WellFormed(c) && |bytes| % 4 == 0 && 8 <= |bytes| <= BLOCK
    requires var k := if Used(c) then 8 + c[6] as int else 8; k <= |bytes| && bytes[..k] == c[..k]
    ensures WellFormed(Relabelled(bytes)) && MapOf([Relabelled(bytes)]) == MapOf([c]) && Unique([Relabelled(bytes)])
  {
    var k, m := if Used(c) then 8 + c[6] as int else 8, Relabelled(bytes);
    assert forall i :: 0 <= i < k ==> bytes[i] == bytes[..k][i] && c[i] == c[..k][i];
    assert forall i :: 6 <= i < k ==> m[i] == m[6..][i - 6] && bytes[i] == bytes[6..][i - 6];
    assert Inode(bytes) == Inode(c);
    if Used(c) { assert NameIn(m) == NameIn(c); }
    SingleMap(c);
    SingleMap(m);
  }

  // ---------------------------------------------------------------------------
  // Adding: the first record with room, in order
  // ---------------------------------------------------------------------------

  predicate HasRoom(c: Bytes, n: nat)
    requires |c| >= 8
  {
    RecLen(c) - Actual(c) >= Needed(n)
  }

  /** What a record with room becomes: itself cut short and the new entry, or the entry alone. */
  function Split(c: Bytes, name: Name, ino: nat, ftype: Byte): seq<Bytes>
    requires WellFormed(c) && |c| <= BLOCK && 1 <= |name| < 256 && 0 < ino < 0x1_0000_0000 && HasRoom(c, |name|)
  {
    if Used(c) then
      [Relabelled(c[..Actual(c)]), Entry(c[Actual(c)..], name, ino, ftype)]
    else
      [Entry(c, name, ino, ftype)]
  }

  lemma SplitFits(c: Bytes, name: Name, ino: nat, ftype: Byte)
    requires WellFormed(c) && |c| <= BLOCK && 1 <= |name| < 256 && 0 < ino < 0x1_0000_0000 && HasRoom(c, |name|)
    ensures |Concat(Split(c, name, ino, ftype))| == |c| && AllWellFormed(Split(c, name, ino, ftype))
  {
    hide Needed, MapOf, Entry, Relabelled, U16, U32;
    var m := Split(c, name, ino, ftype);
    if Used(c) {
      RelabelledMaps(c, c[..Actual(c)]);
      EntryMaps(c[Actual(c)..], name, ino, ftype);
    } else {
      EntryMaps(c, name, ino, ftype);
    }
    assert Concat(m) == m[0] + Concat(m[1..]);
    if |m| == 2 {
      assert m[1..] == [m[1]] && Concat([m[1]]) == m[1] + Concat([]);
    } else {
      assert m[1..] == [];
    }
  }

  lemma SplitMaps(c: Bytes, name: Name, ino: nat, ftype: Byte)
    requires WellFormed(c) && |c| <= BLOCK && 1 <= |name| < 256 && 0 < ino < 0x1_0000_0000 && HasRoom(c, |name|)
    requires name !in MapOf([c])
    ensures var m := Split(c, name, ino, ftype);
            AllWellFormed(m) && Unique(m) && MapOf(m) == MapOf([c])[name := ino]
  {
    hide Needed, MapOf, Entry, Relabelled, U16, U32;
    SingleMap(c);
    if Used(c) {
      var head, e := Relabelled(c[..Actual(c)]), Entry(c[Actual(c)..], name, ino, ftype);
      RelabelledMaps(c, c[..Actual(c)]);
      EntryMaps(c[Actual(c)..], name, ino, ftype);
      MapOfSplit([head], [e]);
      assert [head] + [e] == [head, e];
    } else {
      EntryMaps(c, name, ino, ftype);
    }
  }

  /** Index of the first record with room, or the number of records. */
  function FirstRoom(cs: seq<Bytes>, n: nat): (i: nat)
    requires forall k :: 0 <= k < |cs| ==> |cs[k]| >= 8
    ensures i <= |cs| && (i < |cs| ==> HasRoom(cs[i], n)) && forall k :: 0 <= k < i ==> !HasRoom(cs[k], n)
  {
    if cs == [] then 0 else if HasRoom(cs[0], n) then 0 else 1 + FirstRoom(cs[1..], n)
  }

  // ---------------------------------------------------------------------------
  // Removing: merge into the record before, or blank the first
  // ---------------------------------------------------------------------------

  predicate Matches(c: Bytes, name: Name, ino: nat)
    requires |c| >= 8
  {
    Inode(c) == ino && c[6] == |name| && 8 + |name| <= |c| && c[8..8 + |name|] == name
  }

  /** inode, name_len and file_type cleared. */
  function Blanked(c: Bytes): (b: Bytes)
    requires |c| >= 8
    ensures |b| == |c| && b == Patch(Patch(c, 0, [0, 0, 0, 0]), 6, [0, 0])
    ensures Inode(b) == 0 && RecLen(b) == RecLen(c)
  {
    var z := Patch(c, 0, [0, 0, 0, 0]);
    assert z[0 + 0] == 0 && z[0 + 1] == 0 && z[0 + 2] == 0 && z[0 + 3] == 0;
    Patch(z, 6, [0, 0])
  }

  /** The records in place of p (if there is one) and the removed c. */
  function Merged(p: seq<Bytes>, c: Bytes): seq<Bytes>
    requires |p| <= 1 && WellFormed(c) && AllWellFormed(p) && |Concat(p)| + |c| <= BLOCK
  {
    if p == [] then [Blanked(c)] else assert Concat(p) == p[0] + Concat(p[1..]); [Relabelled(p[0] + c)]
  }

  lemma MergedFits(p: seq<Bytes>, c: Bytes)
    requires |p| <= 1 && WellFormed(c) && AllWellFormed(p) && |Concat(p)| + |c| <= BLOCK && Used(c)
    ensures AllWellFormed(Merged(p, c)) && |Concat(Merged(p, c))| == |Concat(p)| + |c|
  {
    if p != [] {
      var q := p[0];
      assert p == [q] && Concat(p) == q + Concat(p[1..]) && Concat(p[1..]) == [];
      RelabelledMaps(q, q + c);
    }
    var m := Merged(p, c);
    assert Concat(m) == m[0] + Concat(m[1..]) && Concat(m[1..]) == [];
  }

  lemma MergedMaps(p: seq<Bytes>, c: Bytes)
    requires |p| <= 1 && WellFormed(c) && AllWellFormed(p) && |Concat(p)| + |c| <= BLOCK && Used(c)
    requires Unique(p + [c])
    ensures var m := Merged(p, c);
            AllWellFormed(m) && Unique(m) && NameIn(c) in MapOf(p + [c]) && MapOf(m) == MapOf(p + [c]) - {NameIn(c)}
  {
    SingleMap(c);
    MapOfSplit(p, [c]);
    if p == [] {
      SingleMap(Blanked(c));
      assert MapOf([]) == map[];
    } else {
      var q := p[0];
      assert p == [q] && Concat(p) == q + Concat(p[1..]) && Concat(p[1..]) == [];
      SingleMap(q);
      RelabelledMaps(q, q + c);
    }
  }

  /** Index of the first record that names `name` with inode `ino`, or the number of records. */
  function FirstMatch(cs: seq<Bytes>, name: Name, ino: nat): (i: nat)
    requires forall k :: 0 <= k < |cs| ==> |cs[k]| >= 8
    ensures i <= |cs| && (i < |cs| ==> Matches(cs[i], name, ino))
    ensures forall k :: 0 <= k < i ==> !Matches(cs[k], name, ino)
  {
    if cs == [] then 0 else if Matches(cs[0], name, ino) then 0 else 1 + FirstMatch(cs[1..], name, ino)
  }

  /** A mapped name comes from a record, and under unique names every used record is mapped. */
  lemma {:induction false} MappedByRecord(cs: seq<Bytes>, name: Name, ino: nat)
    requires AllWellFormed(cs) && Unique(cs) && ino != 0
    ensures name in MapOf(cs) && MapOf(cs)[name] == ino <==> exists i :: 0 <= i < |cs| && Matches(cs[i], name, ino)
  {
    if cs != [] {
      MappedByRecord(cs[1..], name, ino);
      if i :| 0 <= i < |cs| && Matches(cs[i], name, ino) {
        assert WellFormed(cs[i]) && NameIn(cs[i]) == name;
        if i > 0 { assert cs[1..][i - 1] == cs[i]; }
      }
      if name in MapOf(cs) && MapOf(cs)[name] == ino {
        if Used(cs[0]) && NameIn(cs[0]) == name {
          assert Matches(cs[0], name, ino);
        } else {
          var i :| 0 <= i < |cs[1..]| && Matches(cs[1..][i], name, ino);
          assert cs[i + 1] == cs[1..][i];
        }
      }
    }
  }
}
