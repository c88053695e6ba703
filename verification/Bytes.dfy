/** Little-endian fields inside byte strings, as the packed on-disk structures have them. */
module Bytes {

  type Byte = x: int | 0 <= x < 256
  type Bytes = seq<Byte>

  function U16(b: Bytes, o: nat): (v: nat)
    requires o + 2 <= |b|
    ensures v < 0x1_0000
  {
    b[o] as int + b[o + 1] as int * 256
  }

  function U32(b: Bytes, o: nat): (v: nat)
    requires o + 4 <= |b|
    ensures v < 0x1_0000_0000
  {
    b[o] as int + b[o + 1] as int * 256 + b[o + 2] as int * 65536 + b[o + 3] as int * 16777216
  }

  function Le16(v: nat): (b: Bytes)
    requires v < 0x1_0000
    ensures |b| == 2 && U16(b, 0) == v
  {
    [v % 256, v / 256]
  }

  function Le32(v: nat): (b: Bytes)
    requires v < 0x1_0000_0000
    ensures |b| == 4 && U32(b, 0) == v
  {
    var a := v / 256;
    var b := a / 256;
    [v % 256, a % 256, b % 256, b / 256]
  }

  /** b with the bytes of d stored from o on. */
  function Patch(b: Bytes, o: nat, d: Bytes): (r: Bytes)
    requires o + |d| <= |b|
    ensures |r| == |b|
    ensures forall i :: 0 <= i < |d| ==> r[o + i] == d[i]
    ensures forall i :: 0 <= i < o ==> r[i] == b[i]
    ensures forall i :: o + |d| <= i < |b| ==> r[i] == b[i]
  {
    b[..o] + d + b[o + |d|..]
  }

  /** memcpy into a buffer. */
  method StoreBytes(buf: array<Byte>, o: nat, d: Bytes)
    requires o + |d| <= buf.Length
    modifies buf
    ensures buf[..] == Patch(old(buf[..]), o, d)
  {
    var i := 0;
    while i < |d|
      invariant i <= |d|
      invariant forall k :: 0 <= k < i ==> buf[o + k] == d[k]
      invariant forall k :: 0 <= k < buf.Length && !(o <= k < o + i) ==> buf[k] == old(buf[k])
    {
      buf[o + i] := d[i];
      i := i + 1;
    }
    ghost var r := Patch(old(buf[..]), o, d);
    forall k | 0 <= k < buf.Length ensures buf[k] == r[k] {
      if o <= k < o + |d| { assert buf[o + (k - o)] == d[k - o] && r[o + (k - o)] == d[k - o]; }
    }
    assert buf[..] == r;
  }

  /** A store inside one piece of a byte string. */
  lemma PatchInside(b: Bytes, o: nat, n: nat, p: nat, d: Bytes)
    requires o + n <= |b| && p + |d| <= n
    ensures Patch(b, o + p, d) == b[..o] + Patch(b[o..o + n], p, d) + b[o + n..]
  {
    var r, m := Patch(b, o + p, d), Patch(b[o..o + n], p, d);
    var s := b[..o] + m + b[o + n..];
    forall i | 0 <= i < |b| ensures r[i] == s[i] {
      if o <= i < o + n {
        assert s[i] == m[i - o];
        if p <= i - o < p + |d| {
          assert m[p + (i - o - p)] == d[i - o - p] && r[o + p + (i - o - p)] == d[i - o - p];
        }
      }
    }
    assert r == s;
  }

  /** Two stores side by side are one. */
  lemma PatchJoin(b: Bytes, o: nat, d: Bytes, e: Bytes)
    requires o + |d| + |e| <= |b|
    ensures Patch(Patch(b, o, d), o + |d|, e) == Patch(b, o, d + e)
  {
    var r, s := Patch(b, o, d), Patch(b, o, d + e);
    var t := Patch(r, o + |d|, e);
    forall i | 0 <= i < |b| ensures t[i] == s[i] {
      if o <= i < o + |d| {
        assert r[o + (i - o)] == d[i - o] && s[o + (i - o)] == (d + e)[i - o];
      } else if o + |d| <= i < o + |d| + |e| {
        assert t[o + |d| + (i - o - |d|)] == e[i - o - |d|] && s[o + (i - o)] == (d + e)[i - o];
      }
    }
    assert t == s;
  }

  function Put32(b: Bytes, o: nat, v: nat): (r: Bytes)
    requires o + 4 <= |b| && v < 0x1_0000_0000
    ensures |r| == |b| && U32(r, o) == v
  {
    var d := Le32(v);
    var r := Patch(b, o, d);
    assert r[o + 0] == d[0] && r[o + 1] == d[1] && r[o + 2] == d[2] && r[o + 3] == d[3];
    r
  }

  /** A 32-bit field that a store of other bytes does not overlap. */
  lemma Patch32Elsewhere(b: Bytes, o: nat, d: Bytes, p: nat)
    requires o + |d| <= |b| && p + 4 <= |b| && (p + 4 <= o || o + |d| <= p)
    ensures U32(Patch(b, o, d), p) == U32(b, p)
  {
  }

  lemma Put32Elsewhere(b: Bytes, o: nat, v: nat, p: nat)
    requires o + 4 <= |b| && v < 0x1_0000_0000 && p + 4 <= |b| && (p + 4 <= o || o + 4 <= p)
    ensures U32(Put32(b, o, v), p) == U32(b, p)
  {
    Patch32Elsewhere(b, o, Le32(v), p);
  }

  function Concat(cs: seq<Bytes>): Bytes {
    if cs == [] then [] else cs[0] + Concat(cs[1..])
  }

  lemma {:induction false} ConcatSplit(a: seq<Bytes>, b: seq<Bytes>)
    ensures Concat(a + b) == Concat(a) + Concat(b)
  {
    if a == [] {
      assert a + b == b;
    } else {
      ConcatSplit(a[1..], b);
      assert (a + b)[1..] == a[1..] + b;
    }
  }

  /** Where the i-th piece lies. */
  lemma ConcatAt(cs: seq<Bytes>, i: nat)
    requires i < |cs|
    ensures Concat(cs) == Concat(cs[..i]) + cs[i] + Concat(cs[i + 1..])
    ensures Concat(cs[..i + 1]) == Concat(cs[..i]) + cs[i]
  {
    assert cs == cs[..i] + cs[i..];
    ConcatSplit(cs[..i], cs[i..]);
    assert cs[..i + 1] == cs[..i] + [cs[i]];
    ConcatSplit(cs[..i], [cs[i]]);
    assert Concat([cs[i]]) == cs[i] + Concat([]);
  }
}
