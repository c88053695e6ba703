/** The initial stack of a new process (kernel/elf.c, elf_build_initial_stack), and what a program
    reads from it by the System V ABI for i386, chapter 3, "Process Initialization". */
module InitialStack {
  import opened Bytes

  const AT_NULL: nat := 0
  const AT_PHDR: nat := 3
  const AT_PHENT: nat := 4
  const AT_PHNUM: nat := 5
  const AT_PAGESZ: nat := 6
  const AT_BASE: nat := 7
  const AT_ENTRY: nat := 9
  const AT_RANDOM: nat := 25
  const AT_EXECFN: nat := 31
  const WORD: nat := 0x1_0000_0000

  datatype Option<T> = None | Some(value: T)
  datatype Aux = Aux(key: nat, value: nat)
  datatype AuxInfo = AuxInfo(phdr: nat, phent: nat, phnum: nat, entry: nat, base: nat)

  /** A C string without its terminator. */
  ghost predicate Text(s: Bytes) { forall i :: 0 <= i < |s| ==> s[i] != 0 }

  // ---------------------------------------------------------------------------
  // What a program reads; m is the stack, addressed from its lowest byte
  // ---------------------------------------------------------------------------

  /** The string at i: the bytes before the first zero. */
  function CString(m: Bytes, i: nat): (s: Bytes)
    requires i <= |m|
    decreases |m| - i
  {
    if i == |m| || m[i] == 0 then [] else [m[i]] + CString(m, i + 1)
  }

  /** The words at i before the first zero word. */
  function Vector(m: Bytes, i: nat): (v: seq<nat>)
    decreases |m| - i
  {
    if i + 4 > |m| || U32(m, i) == 0 then [] else [U32(m, i)] + Vector(m, i + 4)
  }

  /** The auxiliary entries at i before the one of type AT_NULL. */
  function AuxVector(m: Bytes, i: nat): (v: seq<Aux>)
    decreases |m| - i
  {
    if i + 8 > |m| || U32(m, i) == AT_NULL then [] else [Aux(U32(m, i), U32(m, i + 4))] + AuxVector(m, i + 8)
  }

  // ---------------------------------------------------------------------------
  // The auxiliary list of the code
  // ---------------------------------------------------------------------------

  function AuxIf(key: nat, value: nat): seq<Aux> { if value != 0 then [Aux(key, value)] else [] }

  function AuxList(info: Option<AuxInfo>, random: nat, execfn: nat): (l: seq<Aux>)
    ensures |l| <= 8 && forall i :: 0 <= i < |l| ==> l[i].key != AT_NULL && l[i].key < WORD
  {
    [Aux(AT_PAGESZ, 4096), Aux(AT_RANDOM, random)]
    + (match info
       case None => []
       case Some(x) => AuxIf(AT_PHDR, x.phdr) + AuxIf(AT_PHENT, x.phent) + AuxIf(AT_PHNUM, x.phnum)
                       + AuxIf(AT_ENTRY, x.entry) + AuxIf(AT_BASE, x.base))
    + AuxIf(AT_EXECFN, execfn)
  }

  /** What a reader of the list finds under a key, 0 if it is not there. */
  function Found(l: seq<Aux>, key: nat): nat {
    if l == [] then 0 else if l[0].key == key then l[0].value else Found(l[1..], key)
  }

  lemma FoundFirst(key: nat, value: nat, l: seq<Aux>)
    ensures Found([Aux(key, value)] + l, key) == value
    ensures forall k :: k != key ==> Found([Aux(key, value)] + l, k) == Found(l, k)
    ensures Found(l, key) == 0 ==> Found(AuxIf(key, value) + l, key) == value
    ensures forall k :: k != key ==> Found(AuxIf(key, value) + l, k) == Found(l, k)
  {
    assert ([Aux(key, value)] + l)[1..] == l && [] + l == l;
  }

  lemma NothingFound()
    ensures forall k :: Found([], k) == 0
  {
  }

  /** The program headers, the entry point and the base of the interpreter are under their keys as the
      loader gave them, and always the page size, the random bytes and the name of the program. */
  lemma AuxFinds(info: Option<AuxInfo>, random: nat, execfn: nat)
    ensures var l := AuxList(info, random, execfn);
            var x := if info.Some? then info.value else AuxInfo(0, 0, 0, 0, 0);
            && Found(l, AT_PAGESZ) == 4096 && Found(l, AT_RANDOM) == random && Found(l, AT_EXECFN) == execfn
            && Found(l, AT_PHDR) == x.phdr && Found(l, AT_PHENT) == x.phent && Found(l, AT_PHNUM) == x.phnum
            && Found(l, AT_ENTRY) == x.entry && Found(l, AT_BASE) == x.base
  {
    var x := if info.Some? then info.value else AuxInfo(0, 0, 0, 0, 0);
    hide AuxList, AuxIf, Found;
    ListIs(info, random, execfn);
    NothingFound();
    FoundFirst(AT_EXECFN, execfn, []);
    var l1 := AuxIf(AT_EXECFN, execfn) + [];
    FoundFirst(AT_BASE, x.base, l1);
    var l2 := AuxIf(AT_BASE, x.base) + l1;
    FoundFirst(AT_ENTRY, x.entry, l2);
    var l3 := AuxIf(AT_ENTRY, x.entry) + l2;
    FoundFirst(AT_PHNUM, x.phnum, l3);
    var l4 := AuxIf(AT_PHNUM, x.phnum) + l3;
    FoundFirst(AT_PHENT, x.phent, l4);
    var l5 := AuxIf(AT_PHENT, x.phent) + l4;
    FoundFirst(AT_PHDR, x.phdr, l5);
    var l6 := AuxIf(AT_PHDR, x.phdr) + l5;
    FoundFirst(AT_RANDOM, random, l6);
    FoundFirst(AT_PAGESZ, 4096, [Aux(AT_RANDOM, random)] + l6);
  }

  /** The list, bracketed from its end. */
  lemma ListIs(info: Option<AuxInfo>, random: nat, execfn: nat)
    ensures var x := if info.Some? then info.value else AuxInfo(0, 0, 0, 0, 0);
            AuxList(info, random, execfn) ==
            [Aux(AT_PAGESZ, 4096)] + ([Aux(AT_RANDOM, random)] + (AuxIf(AT_PHDR, x.phdr) +
            (AuxIf(AT_PHENT, x.phent) + (AuxIf(AT_PHNUM, x.phnum) + (AuxIf(AT_ENTRY, x.entry) +
            (AuxIf(AT_BASE, x.base) + (AuxIf(AT_EXECFN, execfn) + [])))))))
  {
    var x := if info.Some? then info.value else AuxInfo(0, 0, 0, 0, 0);
    NoneIf();
    hide AuxIf;
    var a, b, c := AuxIf(AT_PHDR, x.phdr), AuxIf(AT_PHENT, x.phent), AuxIf(AT_PHNUM, x.phnum);
    var d, e, f := AuxIf(AT_ENTRY, x.entry), AuxIf(AT_BASE, x.base), AuxIf(AT_EXECFN, execfn);
    Bracketed(a, b, c, d, e, f);
    InFront(Aux(AT_PAGESZ, 4096), Aux(AT_RANDOM, random), a + b + c + d + e, f);
    match info
    case None => assert a + b + c + d + e == [];
    case Some(_) =>
  }

  lemma InFront(x: Aux, y: Aux, m: seq<Aux>, r: seq<Aux>)
    ensures [x, y] + m + r == [x] + ([y] + (m + r))
  {
  }

  lemma Bracketed(a: seq<Aux>, b: seq<Aux>, c: seq<Aux>, d: seq<Aux>, e: seq<Aux>, f: seq<Aux>)
    ensures a + b + c + d + e + f == a + (b + (c + (d + (e + (f + [])))))
  {
    var ef := e + (f + []);
    assert a + b + c + d + e + f == a + b + c + d + ef;
    var def := d + ef;
    assert a + b + c + d + ef == a + b + c + def;
    assert a + b + c + def == a + (b + (c + def));
  }

  lemma NoneIf()
    ensures forall key :: AuxIf(key, 0) == []
  {
  }

  ghost predicate Words(l: seq<Aux>) {
    forall i :: 0 <= i < |l| ==> l[i].key != AT_NULL && l[i].key < WORD && l[i].value < WORD
  }

  ghost predicate WordInfo(info: Option<AuxInfo>) {
    info.Some? ==> info.value.phdr < WORD && info.value.phent < WORD && info.value.phnum < WORD
                   && info.value.entry < WORD && info.value.base < WORD
  }

  // ---------------------------------------------------------------------------
  // What is above a store stays
  // ---------------------------------------------------------------------------

  /** Two stacks alike from i up. */
  ghost predicate SameAbove(m: Bytes, n: Bytes, i: nat) {
    |m| == |n| && i <= |m| && forall k :: i <= k < |m| ==> m[k] == n[k]
  }

  lemma {:induction false} CStringKept(m: Bytes, n: Bytes, i: nat)
    requires SameAbove(m, n, i)
    ensures CString(m, i) == CString(n, i)
    decreases |m| - i
  {
    if i < |m| && m[i] != 0 { CStringKept(m, n, i + 1); }
  }

  lemma {:induction false} VectorKept(m: Bytes, n: Bytes, i: nat)
    requires SameAbove(m, n, i)
    ensures Vector(m, i) == Vector(n, i)
    decreases |m| - i
  {
    if i + 4 <= |m| && U32(m, i) != 0 { VectorKept(m, n, i + 4); }
  }

  lemma {:induction false} AuxKept(m: Bytes, n: Bytes, i: nat)
    requires SameAbove(m, n, i)
    ensures AuxVector(m, i) == AuxVector(n, i)
    decreases |m| - i
  {
    if i + 8 <= |m| && U32(m, i) != AT_NULL { AuxKept(m, n, i + 8); }
  }

  lemma {:induction false} StringReads(m: Bytes, i: nat, s: Bytes)
    requires Text(s) && i + |s| + 1 <= |m| && m[i..i + |s|] == s && m[i + |s|] == 0
    ensures CString(m, i) == s
    decreases |s|
  {
    if s != [] {
      assert m[i] == s[0] && m[i + 1..i + 1 + |s[1..]|] == s[1..];
      StringReads(m, i + 1, s[1..]);
    }
  }

  /** The strings that the addresses in `ptrs` point at. */
  ghost predicate PointsAt(m: Bytes, base: nat, low: nat, ptrs: seq<nat>, strings: seq<Bytes>) {
    && |ptrs| == |strings| && low <= |m|
    && forall k :: 0 <= k < |ptrs| ==>
      0 < base + low <= ptrs[k] <= base + |m| && ptrs[k] < WORD && CString(m, ptrs[k] - base) == strings[k]
  }

  lemma PointsKept(m: Bytes, n: Bytes, base: nat, low: nat, to: nat, ptrs: seq<nat>, strings: seq<Bytes>)
    requires PointsAt(m, base, low, ptrs, strings) && SameAbove(m, n, low) && to <= low && base > 0
    ensures PointsAt(n, base, to, ptrs, strings)
  {
    forall k | 0 <= k < |ptrs| ensures CString(n, ptrs[k] - base) == strings[k] { 
      assert SameAbove(m, n, ptrs[k] - base);
      CStringKept(m, n, ptrs[k] - base);
    }
  }

  lemma PointsCons(m: Bytes, base: nat, low: nat, p: nat, s: Bytes, ptrs: seq<nat>, strings: seq<Bytes>)
    requires PointsAt(m, base, low, ptrs, strings) && 0 < base + low <= p <= base + |m| && p < WORD
    requires CString(m, p - base) == s
    ensures PointsAt(m, base, low, [p] + ptrs, [s] + strings)
  {
    hide CString;
  }

  // ---------------------------------------------------------------------------
  // Pushing
  // ---------------------------------------------------------------------------

  /** elf_copy_string: the string and its terminator below sp; `sp` is relative to `base`. */
  method CopyString(mem: array<Byte>, base: nat, sp: nat, s: Bytes) returns (ok: bool, addr: nat, newSp: nat)
    requires sp <= mem.Length && Text(s) && base + mem.Length < WORD && |s| < base
    modifies mem
    ensures ok == (|s| + 1 <= sp)
    ensures ok ==> newSp == sp - (|s| + 1) && addr == base + newSp && CString(mem[..], newSp) == s
    ensures ok ==> SameAbove(old(mem[..]), mem[..], sp)
  {
    var len := |s| + 1;
    if base + sp - len < base { return false, 0, sp; }
    newSp := sp - len;
    StoreBytes(mem, newSp, s + [0]);
    StringReads(mem[..], newSp, s);
    addr := base + newSp;
    ok := true;
  }

  /** A word below sp. */
  method PushWord(mem: array<Byte>, sp: nat, v: nat) returns (newSp: nat)
    requires 4 <= sp <= mem.Length && v < WORD
    modifies mem
    ensures newSp == sp - 4 && U32(mem[..], newSp) == v && SameAbove(old(mem[..]), mem[..], sp)
  {
    newSp := sp - 4;
    StoreBytes(mem, newSp, Le32(v));
    assert mem[..] == Put32(old(mem[..]), newSp, v);
  }

  /** Strings below sp, the last one first. */
  method CopyStrings(mem: array<Byte>, base: nat, sp0: nat, strings: seq<Bytes>)
    returns (ok: bool, ptrs: seq<nat>, sp: nat)
    requires sp0 <= mem.Length && base > 0 && base + mem.Length < WORD
    requires forall k :: 0 <= k < |strings| ==> Text(strings[k]) && |strings[k]| < base
    modifies mem
    ensures ok == (Room(strings) <= sp0)
    ensures ok ==>
      sp == sp0 - Room(strings) && PointsAt(mem[..], base, sp, ptrs, strings) && SameAbove(old(mem[..]), mem[..], sp0)
  {
    hide CString;
    ptrs := [];
    sp := sp0;
    var index := |strings|;
    assert strings[|strings|..] == [];
    while index > 0
      invariant 0 <= index <= |strings| && sp <= sp0 && sp + Room(strings[index..]) == sp0
      invariant PointsAt(mem[..], base, sp, ptrs, strings[index..]) && SameAbove(old(mem[..]), mem[..], sp0)
    {
      ghost var before := mem[..];
      var addr;
      assert strings[index - 1..] == [strings[index - 1]] + strings[index..];
      RoomGrows(strings, index - 1);
      ok, addr, sp := CopyString(mem, base, sp, strings[index - 1]);
      if !ok { return false, [], sp; }
      PointsKept(before, mem[..], base, sp + |strings[index - 1]| + 1, sp, ptrs, strings[index..]);
      PointsCons(mem[..], base, sp, addr, strings[index - 1], ptrs, strings[index..]);
      ptrs := [addr] + ptrs;
      index := index - 1;
    }
    assert strings[0..] == strings;
    ok := true;
  }

  /** Bytes the strings take with their terminators. */
  function Room(strings: seq<Bytes>): nat { if strings == [] then 0 else |strings[0]| + 1 + Room(strings[1..]) }

  lemma {:induction false} RoomGrows(strings: seq<Bytes>, i: nat)
    requires i < |strings|
    ensures Room(strings) >= Room(strings[i..]) == |strings[i]| + 1 + Room(strings[i + 1..])
  {
    assert strings[i..][1..] == strings[i + 1..];
    RoomSuffix(strings, i);
  }

  lemma {:induction false} RoomSuffix(strings: seq<Bytes>, i: nat)
    requires i <= |strings|
    ensures Room(strings) >= Room(strings[i..])
  {
    if i > 0 {
      assert strings[1..][i - 1..] == strings[i..];
      RoomSuffix(strings[1..], i - 1);
    } else {
      assert strings[0..] == strings;
    }
  }

  /** A zero word, then the words of a vector below it, the last one first. */
  method PushVector(mem: array<Byte>, sp0: nat, words: seq<nat>) returns (sp: nat)
    requires 4 * (|words| + 1) <= sp0 <= mem.Length && forall k :: 0 <= k < |words| ==> 0 < words[k] < WORD
    modifies mem
    ensures sp == sp0 - 4 * (|words| + 1) && Vector(mem[..], sp) == words && SameAbove(old(mem[..]), mem[..], sp0)
  {
    sp := PushWord(mem, sp0, 0);
    var index := |words|;
    assert words[|words|..] == [];
    while index > 0
      invariant 0 <= index <= |words| && sp == sp0 - 4 - 4 * (|words| - index)
      invariant Vector(mem[..], sp) == words[index..] && SameAbove(old(mem[..]), mem[..], sp0)
    {
      ghost var before := mem[..];
      sp := PushWord(mem, sp, words[index - 1]);
      VectorKept(before, mem[..], sp + 4);
      index := index - 1;
      assert words[index..] == [words[index]] + words[index + 1..];
    }
    assert words[0..] == words;
  }

  /** The terminator, then the entries below it, the last one first. */
  method PushAux(mem: array<Byte>, sp0: nat, l: seq<Aux>) returns (sp: nat)
    requires 8 * (|l| + 1) <= sp0 <= mem.Length && Words(l)
    modifies mem
    ensures sp == sp0 - 8 * (|l| + 1) && AuxVector(mem[..], sp) == l && SameAbove(old(mem[..]), mem[..], sp0)
  {
    sp := PushWord(mem, sp0, 0);
    sp := PushWord(mem, sp, AT_NULL);
    var index := |l|;
    assert l[|l|..] == [];
    while index > 0
      invariant 0 <= index <= |l| && sp == sp0 - 8 - 8 * (|l| - index)
      invariant AuxVector(mem[..], sp) == l[index..] && SameAbove(old(mem[..]), mem[..], sp0)
    {
      ghost var before := mem[..];
      sp := PushWord(mem, sp, l[index - 1].value);
      ghost var middle := mem[..];
      sp := PushWord(mem, sp, l[index - 1].key);
      AuxKept(before, mem[..], sp + 8);
      WordKept(middle, mem[..], sp + 4);
      index := index - 1;
      assert l[index..] == [l[index]] + l[index + 1..];
    }
    assert l[0..] == l;
  }

  lemma WordKept(m: Bytes, n: Bytes, i: nat)
    requires SameAbove(m, n, i) && i + 4 <= |m|
    ensures U32(m, i) == U32(n, i)
  {
  }

  // ---------------------------------------------------------------------------
  // The whole stack
  // ---------------------------------------------------------------------------

  /** Bytes of the vectors and the count below the random bytes. */
  function VectorRoom(argv: seq<Bytes>, envp: seq<Bytes>, auxes: nat): nat {
    4 + 4 * (|argv| + 1) + 4 * (|envp| + 1) + 8 * (auxes + 1)
  }

  /** What the ABI reader finds from sp: the count, the argument strings, a zero word, the
      environment strings, a zero word, and the auxiliary list. */
  ghost predicate Reads(m: Bytes, base: nat, sp: nat, argv: seq<Bytes>, envp: seq<Bytes>, aux: seq<Aux>) {
    && base > 0 && sp + 4 <= |m| && U32(m, sp) == |argv|
    && var args := sp + 4;
    && PointsAt(m, base, sp, Vector(m, args), argv)
    && var envs := args + 4 * (|argv| + 1);
    && PointsAt(m, base, sp, Vector(m, envs), envp)
    && AuxVector(m, envs + 4 * (|envp| + 1)) == aux
  }

  /** elf_build_initial_stack, with the stack pages mapped and zeroed. */
  method Build(mem: array<Byte>, base: nat, argv: seq<Bytes>, envp: seq<Bytes>, info: Option<AuxInfo>, random: Bytes)
      returns (ok: bool, sp: nat, ghost randomAt: nat, ghost execfn: nat)
    requires 0 < base && base + mem.Length < WORD && base % 4 == 0 && |random| == 16 && WordInfo(info)
    requires forall k :: 0 <= k < |argv| ==> Text(argv[k]) && |argv[k]| < base
    requires forall k :: 0 <= k < |envp| ==> Text(envp[k]) && |envp[k]| < base
    requires Room(envp) + Room(argv) + 16 <= mem.Length ==>
      Room(envp) + Room(argv) + 16 + 3 + VectorRoom(argv, envp, 8) <= mem.Length
    modifies mem
    ensures ok == (Room(envp) + Room(argv) + 16 <= mem.Length)
    ensures ok ==> Reads(mem[..], base, sp, argv, envp, AuxList(info, randomAt, execfn)) && sp % 4 == 0
    ensures ok ==>
      && base + sp <= randomAt && randomAt + 16 <= base + mem.Length
      && mem[randomAt - base..randomAt - base + 16] == random
    ensures ok ==>
      if argv == [] then execfn == 0 else |Vector(mem[..], sp + 4)| > 0 && execfn == Vector(mem[..], sp + 4)[0]
  {
    hide *;
    var envPtrs, argPtrs, randomAddr;
    ok, envPtrs, argPtrs, randomAddr, sp := PlaceStrings(mem, base, argv, envp, random);
    randomAt, execfn := randomAddr, 0;
    if !ok { return; }
    ghost var m := mem[..];
    ghost var low := randomAddr - base;
    var execAddr := if |argv| > 0 then argPtrs[0] else 0;
    execfn := execAddr;
    var aux := AuxList(info, randomAddr, execAddr);
    PlacesFit(base, m, low, argPtrs, argv, envPtrs, envp, info, randomAddr, execAddr, aux);
    sp := PlaceVectors(mem, sp / 4 * 4, argPtrs, envPtrs, aux);
    AboveUp(m, mem[..], low / 4 * 4, low);
    AllReads(m, mem[..], base, low, sp, argPtrs, argv, envPtrs, envp, aux);
    RandomKept(m, mem[..], low, random);
  }

  lemma PlacesFit(base: nat, m: Bytes, low: nat, argPtrs: seq<nat>, argv: seq<Bytes>, envPtrs: seq<nat>,
                  envp: seq<Bytes>, info: Option<AuxInfo>, random: nat, execfn: nat, aux: seq<Aux>)
    requires PointsAt(m, base, low, argPtrs, argv) && PointsAt(m, base, low, envPtrs, envp) && WordInfo(info)
    requires aux == AuxList(info, random, execfn) && random < WORD && execfn == (if |argv| > 0 then argPtrs[0] else 0)
    ensures Words(aux) && |aux| <= 8 && |argPtrs| == |argv| && |envPtrs| == |envp|
    ensures VectorRoom(argv, envp, |aux|) <= VectorRoom(argv, envp, 8)
    ensures VectorRoom(argv, envp, |aux|) == 4 + 4 * (|argPtrs| + 1) + 4 * (|envPtrs| + 1) + 8 * (|aux| + 1)
    ensures VectorRoom(argv, envp, |aux|) % 4 == 0
    ensures NonZero(argPtrs) && NonZero(envPtrs)
  {
  }

  ghost predicate NonZero(words: seq<nat>) { forall k :: 0 <= k < |words| ==> 0 < words[k] < WORD }

  lemma AllReads(m: Bytes, n: Bytes, base: nat, low: nat, sp: nat, argPtrs: seq<nat>, argv: seq<Bytes>,
                 envPtrs: seq<nat>, envp: seq<Bytes>, aux: seq<Aux>)
    requires base > 0 && PointsAt(m, base, low, argPtrs, argv) && PointsAt(m, base, low, envPtrs, envp)
    requires SameAbove(m, n, low) && sp <= low && VectorsRead(n, sp, argPtrs, envPtrs, aux)
    ensures Reads(n, base, sp, argv, envp, aux)
    ensures |argv| > 0 ==> |Vector(n, sp + 4)| > 0 && Vector(n, sp + 4)[0] == argPtrs[0]
  {
    hide CString, Vector, AuxVector, U32, SameAbove;
    PointsKept(m, n, base, low, sp, argPtrs, argv);
    PointsKept(m, n, base, low, sp, envPtrs, envp);
  }

  lemma RandomKept(m: Bytes, n: Bytes, low: nat, random: Bytes)
    requires SameAbove(m, n, low) && low + |random| <= |m| && m[low..low + |random|] == random
    ensures low + |random| <= |n| && n[low..low + |random|] == random
  {
    assert forall k :: low <= k < low + |random| ==> n[k] == m[low..low + |random|][k - low];
  }

  /** The upper half: environment strings, argument strings, random bytes. */
  method PlaceStrings(mem: array<Byte>, base: nat, argv: seq<Bytes>, envp: seq<Bytes>, random: Bytes)
      returns (ok: bool, envPtrs: seq<nat>, argPtrs: seq<nat>, randomAddr: nat, sp: nat)
    requires 0 < base && base + mem.Length < WORD && |random| == 16
    requires forall k :: 0 <= k < |argv| ==> Text(argv[k]) && |argv[k]| < base
    requires forall k :: 0 <= k < |envp| ==> Text(envp[k]) && |envp[k]| < base
    modifies mem
    ensures ok == (Room(envp) + Room(argv) + 16 <= mem.Length)
    ensures ok ==>
      sp == mem.Length - Room(envp) - Room(argv) - 16 && randomAddr == base + sp && mem[sp..sp + 16] == random
    ensures ok ==> PointsAt(mem[..], base, sp, argPtrs, argv) && PointsAt(mem[..], base, sp, envPtrs, envp)
    ensures ok ==> |argPtrs| == |argv| && |envPtrs| == |envp|
  {
    hide CString, Text, SameAbove;
    argPtrs, randomAddr := [], 0;
    ok, envPtrs, sp := CopyStrings(mem, base, mem.Length, envp);
    if !ok { return; }
    ghost var m1, sp1 := mem[..], sp;
    ok, argPtrs, sp := CopyStrings(mem, base, sp, argv);
    if !ok { return; }
    PointsKept(m1, mem[..], base, sp1, sp, envPtrs, envp);
    if base + sp - 16 < base { return false, envPtrs, argPtrs, 0, sp; }
    ghost var m2, sp2 := mem[..], sp;
    sp := sp - 16;
    StoreBytes(mem, sp, random);
    StoredBelow(m2, sp, random);
    PointsKept(m2, mem[..], base, sp2, sp, argPtrs, argv);
    PointsKept(m2, mem[..], base, sp2, sp, envPtrs, envp);
    randomAddr := base + sp;
  }

  lemma StoredBelow(m: Bytes, i: nat, d: Bytes)
    requires i + |d| <= |m|
    ensures SameAbove(m, Patch(m, i, d), i + |d|) && Patch(m, i, d)[i..i + |d|] == d
  {
    var r := Patch(m, i, d);
    forall k | 0 <= k < |d| ensures r[i..i + |d|][k] == d[k] { assert r[i + k] == d[k]; }
  }

  /** From sp: the count, the vectors of pointers, and the auxiliary list. */
  ghost predicate VectorsRead(m: Bytes, sp: nat, argPtrs: seq<nat>, envPtrs: seq<nat>, aux: seq<Aux>) {
    && sp + 4 <= |m| && U32(m, sp) == |argPtrs| && Vector(m, sp + 4) == argPtrs
    && Vector(m, sp + 4 + 4 * (|argPtrs| + 1)) == envPtrs
    && AuxVector(m, sp + 4 + 4 * (|argPtrs| + 1) + 4 * (|envPtrs| + 1)) == aux
  }

  /** The lower half. */
  method PlaceVectors(mem: array<Byte>, sp0: nat, argPtrs: seq<nat>, envPtrs: seq<nat>, aux: seq<Aux>) returns (sp: nat)
    requires sp0 <= mem.Length < WORD && Words(aux) && NonZero(argPtrs) && NonZero(envPtrs)
    requires 4 + 4 * (|argPtrs| + 1) + 4 * (|envPtrs| + 1) + 8 * (|aux| + 1) <= sp0
    modifies mem
    ensures sp == sp0 - (4 + 4 * (|argPtrs| + 1) + 4 * (|envPtrs| + 1) + 8 * (|aux| + 1))
    ensures VectorsRead(mem[..], sp, argPtrs, envPtrs, aux) && SameAbove(old(mem[..]), mem[..], sp0)
  {
    hide Vector, AuxVector, U32, SameAbove, Words;
    ghost var m3 := mem[..];
    sp := PushAux(mem, sp0, aux);
    ghost var m4, sp4 := mem[..], sp;
    sp := PushVector(mem, sp, envPtrs);
    ghost var m5, sp5 := mem[..], sp;
    sp := PushVector(mem, sp, argPtrs);
    ghost var m6, sp6 := mem[..], sp;
    sp := PushWord(mem, sp, |argPtrs|);
    ghost var m7 := mem[..];
    AboveTrans(m5, m6, m7, sp5, sp6);
    AboveTrans(m4, m5, m7, sp4, sp5);
    AboveTrans(m3, m4, m7, sp0, sp4);
    VectorKept(m6, m7, sp6);
    VectorKept(m5, m7, sp5);
    AuxKept(m4, m7, sp4);
  }

  lemma AboveUp(a: Bytes, b: Bytes, i: nat, j: nat)
    requires SameAbove(a, b, i) && i <= j <= |a|
    ensures SameAbove(a, b, j)
  {
  }

  lemma AboveTrans(a: Bytes, b: Bytes, c: Bytes, i: nat, j: nat)
    requires SameAbove(a, b, i) && SameAbove(b, c, j) && j <= i
    ensures SameAbove(a, c, i)
  {
  }
}
