/** The path normaliser of kernel/syscall.c (resolve_normalize_path): a component stack kept in the
    output buffer itself. */
module PathNorm {

  const EFAULT: int := 14
  const ERANGE: int := 34
  const TEMP: nat := 512

  type Path = seq<char>

  // ---------------------------------------------------------------------------
  // What a path means
  // ---------------------------------------------------------------------------

  /** Length of the leading run of other characters than a slash. */
  function Span(s: Path): (n: nat)
    ensures n <= |s| && (forall i :: 0 <= i < n ==> s[i] != '/') && (n < |s| ==> s[n] == '/')
  {
    if s == [] || s[0] == '/' then 0 else 1 + Span(s[1..])
  }

  /** The non-empty components. */
  function Comps(s: Path): seq<Path>
    decreases |s|
  {
    if s == [] then [] else if s[0] == '/' then Comps(s[1..]) else [s[..Span(s)]] + Comps(s[Span(s)..])
  }

  /** A component on a stack: `.` is nothing, `..` pops, and the root absorbs pops. */
  function Push(stack: seq<Path>, c: Path): seq<Path> {
    if c == "." then stack
    else if c == ".." then (if stack == [] then [] else stack[..|stack| - 1])
    else stack + [c]
  }

  function Eval(stack: seq<Path>, cs: seq<Path>): seq<Path>
    decreases |cs|
  {
    if cs == [] then stack else Eval(Push(stack, cs[0]), cs[1..])
  }

  /** The absolute path that the code normalises. */
  function Absolute(path: Path, cwd: Path): Path {
    if path != [] && path[0] == '/' then path
    else
      var d := if cwd == [] then "/" else cwd;
      d + (if |d| > 1 && d[|d| - 1] != '/' then "/" else "") + path
  }

  ghost predicate PlainComp(c: Path) { c != [] && c != "." && c != ".." && forall i :: 0 <= i < |c| ==> c[i] != '/' }

  ghost predicate Plain(cs: seq<Path>) { forall k :: 0 <= k < |cs| ==> PlainComp(cs[k]) }

  // ---------------------------------------------------------------------------
  // How a stack is written
  // ---------------------------------------------------------------------------

  function WithSlash(stack: seq<Path>): Path {
    if stack == [] then "/" else WithSlash(stack[..|stack| - 1]) + stack[|stack| - 1] + "/"
  }

  function Written(stack: seq<Path>): Path {
    if stack == [] then "/" else WithSlash(stack[..|stack| - 1]) + stack[|stack| - 1]
  }

  /** The buffer holds the stack: not begun, or written with or without a slash at the end. */
  ghost predicate Holds(o: Path, stack: seq<Path>) {
    Plain(stack) && ((o == [] && stack == []) || o == Written(stack) || o == WithSlash(stack))
  }

  lemma {:induction false} CompsJoin(a: Path, b: Path)
    ensures Comps(a + "/" + b) == Comps(a) + Comps(b)
    decreases |a|
  {
    hide Comps, Span;
    var ab := a + "/" + b;
    Heads(a);
    Heads(ab);
    if a == [] {
      assert ab[1..] == b;
    } else if a[0] == '/' {
      CompsJoin(a[1..], b);
      assert ab[1..] == a[1..] + "/" + b;
    } else {
      var n := Span(a);
      CompsJoin(a[n..], b);
      SpanIs(ab, n);
      assert ab[..n] == a[..n] && ab[n..] == a[n..] + "/" + b;
    }
  }

  lemma Heads(s: Path)
    ensures s == [] ==> Comps(s) == []
    ensures s != [] && s[0] == '/' ==> Comps(s) == Comps(s[1..])
    ensures s != [] && s[0] != '/' ==> Span(s) > 0 && Comps(s) == [s[..Span(s)]] + Comps(s[Span(s)..])
  {
  }

  lemma {:induction false} SpanIs(s: Path, n: nat)
    requires n <= |s| && (forall i :: 0 <= i < n ==> s[i] != '/') && (n < |s| ==> s[n] == '/')
    ensures Span(s) == n
  {
  }

  lemma OneComp(c: Path)
    requires c != [] && forall i :: 0 <= i < |c| ==> c[i] != '/'
    ensures Comps(c) == [c]
  {
    SpanIs(c, |c|);
    assert c[..|c|] == c && c[|c|..] == [];
  }

  /** Whatever holds a stack reads back as that stack. */
  lemma {:induction false} WrittenReadsBack(stack: seq<Path>)
    requires Plain(stack)
    ensures Comps(WithSlash(stack)) == stack && Comps(Written(stack)) == stack
  {
    hide Comps, Span;
    SlashOnly();
    if stack != [] {
      var before, c := stack[..|stack| - 1], stack[|stack| - 1];
      WrittenReadsBack(before);
      assert PlainComp(c);
      OneComp(c);
      EndsInSlash(before);
      var w := WithSlash(before);
      var v := w[..|w| - 1];
      assert w == v + "/" && w + c == v + "/" + c && w == v + "/" + "";
      CompsJoin(v, "");
      CompsJoin(v, c);
      CompsJoin(v + "/" + c, "");
      assert w + c + "/" == v + "/" + c + "/" + "";
    }
  }

  lemma SlashOnly()
    ensures Comps("/") == [] && Comps("") == []
  {
    assert "/"[1..] == "";
  }

  lemma EndsInSlash(stack: seq<Path>)
    ensures WithSlash(stack) != [] && WithSlash(stack)[0] == '/' && WithSlash(stack)[|WithSlash(stack)| - 1] == '/'
    ensures Written(stack) != [] && Written(stack)[0] == '/'
  {
  }

  lemma {:induction false} EvalPlain(stack: seq<Path>, cs: seq<Path>)
    requires Plain(stack) && Plain(cs)
    ensures Eval(stack, cs) == stack + cs
    decreases |cs|
  {
    if cs != [] {
      assert PlainComp(cs[0]);
      EvalPlain(stack + [cs[0]], cs[1..]);
    }
  }

  // ---------------------------------------------------------------------------
  // The laws of evaluation
  // ---------------------------------------------------------------------------

  /** `.` is nothing; `..` undoes the plain component before it, and is nothing at the root. */
  lemma EvalLaws(s: seq<Path>, c: Path, r: seq<Path>)
    requires PlainComp(c)
    ensures Eval(s, []) == s && Eval(s, ["."] + r) == Eval(s, r)
    ensures Eval([], [".."] + r) == Eval([], r)
    ensures Eval(s, [c, ".."] + r) == Eval(s, r)
    ensures Eval(s, [c] + r) == Eval(s + [c], r) && Eval(s, [c]) == s + [c]
  {
    assert (["."] + r)[1..] == r && ([".."] + r)[1..] == r && ([c] + r)[1..] == r && [c][1..] == [];
    assert ([c, ".."] + r)[1..] == [".."] + r && (s + [c])[..|s|] == s;
  }

  /** Evaluation goes on from where it stopped. */
  lemma {:induction false} EvalJoin(s: seq<Path>, a: seq<Path>, b: seq<Path>)
    ensures Eval(s, a + b) == Eval(Eval(s, a), b)
    decreases |a|
  {
    hide Push;
    if a == [] {
      assert a + b == b;
    } else {
      EvalJoin(Push(s, a[0]), a[1..], b);
      assert (a + b)[1..] == a[1..] + b;
    }
  }

  /** `..` behind plain components leaves all but the last. */
  lemma ParentOfPlain(s: seq<Path>)
    requires Plain(s)
    ensures Eval([], s + [".."]) == if s == [] then [] else s[..|s| - 1]
  {
    EvalPlain([], s);
    EvalJoin([], s, [".."]);
    assert [".."][1..] == [] && [] + s == s;
  }

  /** An absolute path stands for itself, another for its components behind those of the working
      directory, which is the root if it is a single character. */
  lemma AbsoluteComps(path: Path, cwd: Path)
    requires |cwd| == 1 ==> cwd == "/"
    ensures Comps(Absolute(path, cwd)) ==
            if path != [] && path[0] == '/' then Comps(path) else Comps(cwd) + Comps(path)
  {
    hide Comps, Span;
    if path == [] || path[0] != '/' {
      if |cwd| > 1 && cwd[|cwd| - 1] != '/' {
        CompsJoin(cwd, path);
      } else {
        var d := if cwd == [] then "/" else cwd;
        assert Absolute(path, cwd) == d + path;
        SlashThen(d, path);
        SlashOnly();
      }
    }
  }

  lemma SlashThen(d: Path, path: Path)
    requires d != [] && d[|d| - 1] == '/'
    ensures Comps(d + path) == Comps(d) + Comps(path)
  {
    hide Comps, Span;
    var v := d[..|d| - 1];
    SlashOnly();
    CompsJoin(v, "");
    CompsJoin(v, path);
    assert d == v + "/" + "" && d + path == v + "/" + path;
  }

  /** A second pass over a result finds the same components. */
  lemma SecondPass(o: Path, stack: seq<Path>)
    requires Holds(o, stack) && o != []
    ensures Eval([], Comps(o)) == stack == Comps(o)
  {
    WrittenReadsBack(stack);
    EvalPlain([], stack);
  }

  // ---------------------------------------------------------------------------
  // When the buffer is long enough
  // ---------------------------------------------------------------------------

  /** The stack, written, leaves two characters of the buffer unused; the root alone need not. */
  predicate Short(stack: seq<Path>, size: nat) { stack == [] || |Written(stack)| + 1 < size }

  /** The component is taken off or put on the stack without running out of buffer. */
  predicate MayPush(stack: seq<Path>, c: Path, size: nat) {
    c == "." || c == ".." || |WithSlash(stack)| + |c| + 1 < size
  }

  predicate MayEval(stack: seq<Path>, cs: seq<Path>, size: nat)
    decreases |cs|
  {
    cs == [] || (MayPush(stack, cs[0], size) && MayEval(Push(stack, cs[0]), cs[1..], size))
  }

  /** Every stack on the way to the result is short. */
  ghost predicate ShortThroughout(stack: seq<Path>, cs: seq<Path>, size: nat) {
    forall k :: 0 <= k <= |cs| ==> Short(Eval(stack, cs[..k]), size)
  }

  lemma PushShort(stack: seq<Path>, c: Path, size: nat)
    requires Short(stack, size)
    ensures MayPush(stack, c, size) <==> Short(Push(stack, c), size)
  {
    if c == ".." && |stack| > 1 {
      assert Written(stack) == WithSlash(stack[..|stack| - 1]) + stack[|stack| - 1];
      assert |WithSlash(stack[..|stack| - 1])| >= |Written(stack[..|stack| - 1])|;
    } else if c != "." && c != ".." {
      assert (stack + [c])[..|stack|] == stack;
    }
  }

  lemma {:induction false} MayEvalIff(stack: seq<Path>, cs: seq<Path>, size: nat)
    requires Short(stack, size)
    ensures MayEval(stack, cs, size) <==> ShortThroughout(stack, cs, size)
    decreases |cs|
  {
    hide Short, MayPush, Push;
    assert Eval(stack, cs[..0]) == stack;
    if cs != [] {
      var s1, rest := Push(stack, cs[0]), cs[1..];
      PushShort(stack, cs[0], size);
      if Short(s1, size) { MayEvalIff(s1, rest, size); }
      assert Eval(s1, rest[..0]) == s1;
      forall k | 0 <= k <= |rest| ensures Eval(stack, cs[..k + 1]) == Eval(s1, rest[..k]) {
        assert cs[..k + 1][1..] == rest[..k];
      }
      forall k | 0 < k <= |cs| ensures Eval(stack, cs[..k]) == Eval(s1, rest[..k - 1]) {
        assert cs[..k][1..] == rest[..k - 1];
      }
      if ShortThroughout(stack, cs, size) {
        forall k | 0 <= k <= |rest| ensures Short(Eval(s1, rest[..k]), size) {
          assert Short(Eval(stack, cs[..k + 1]), size);
        }
      }
    }
  }

  /** A result that fills the buffer exactly, its NUL included, is refused. */
  lemma ExactFitRefused()
    ensures |Written(Eval([], Comps("/a")))| + 1 == 3 && !ShortThroughout([], Comps("/a"), 3)
    ensures ShortThroughout([], Comps("/a"), 4)
  {
    Heads("/a");
    assert "/a"[1..] == "a";
    OneComp("a");
    assert Comps("/a") == ["a"];
    EvalPlain([], ["a"]);
    assert ["a"][..0] == [] && ["a"][..1] == ["a"] && Written(["a"]) == WithSlash([]) + "a";
  }

  // ---------------------------------------------------------------------------
  // The normaliser
  // ---------------------------------------------------------------------------

  /** Taking the next component off the front of what is left. */
  lemma NextComp(s: Path, n: nat, stack: seq<Path>, size: nat)
    requires s != [] && s[0] != '/' && n == Span(s)
    ensures n > 0 && Comps(s) == [s[..n]] + Comps(s[n..])
    ensures Eval(stack, Comps(s)) == Eval(Push(stack, s[..n]), Comps(s[n..]))
    ensures MayEval(stack, Comps(s), size) <==>
            MayPush(stack, s[..n], size) && MayEval(Push(stack, s[..n]), Comps(s[n..]), size)
  {
    assert Comps(s)[1..] == Comps(s[n..]);
  }

  lemma Root()
    ensures Holds([], []) && Holds("/", []) && Holds(['/'], [])
  {
  }

  lemma NothingLeft(stack: seq<Path>)
    ensures Eval(stack, Comps([])) == stack && forall size: nat :: MayEval(stack, Comps([]), size)
  {
  }

  /** resolve_normalize_path, for a caller whose pointers are valid. The result is the first
      `len` characters of the buffer, and a NUL follows. It is out of range exactly when the absolute
      path is longer than the scratch buffer, or some intermediate result leaves fewer than two
      characters of the output. */
  method ResolveNormalize(path: Path, cwd: Path, out: array<char>) returns (r: int, len: nat)
    modifies out
    ensures r == 0 || r == -EFAULT || r == -ERANGE
    ensures r == -EFAULT <==> out.Length == 0
    ensures r == 0 ==> len < out.Length && out[len] == '\0' && len > 0
    ensures r == 0 ==> Holds(out[..len], Eval([], Comps(Absolute(path, cwd)))) && out[0] == '/'
    ensures r == 0 ==> Comps(out[..len]) == Eval([], Comps(Absolute(path, cwd)))
    ensures r == 0 <==>
            && |Absolute(path, cwd)| < TEMP && out.Length >= 2
            && ShortThroughout([], Comps(Absolute(path, cwd)), out.Length)
    ensures |Absolute(path, cwd)| < TEMP && |Absolute(path, cwd)| + 3 < out.Length ==> r == 0
  {
    hide Span, Comps, Eval, Push, Written, WithSlash, PlainComp, Absolute, MayEval, MayPush, ShortThroughout;
    len := 0;
    if out.Length == 0 { return -EFAULT, 0; }
    var temp := Absolute(path, cwd);
    if |temp| + 1 > 512 { return -ERANGE, 0; }
    if temp == [] || temp[0] != '/' {
      if out.Length < 2 { return -ERANGE, 0; }
      out[0] := '/';
      len := 1;
    }
    ghost var stack: seq<Path> := [];
    Root();
    MayEvalIff([], Comps(temp), out.Length);
    var p := SkipSlashes(temp, 0);
    assert temp[0..] == temp;
    while p < |temp|
      invariant p <= |temp| && len < out.Length && Holds(out[..len], stack)
      invariant Eval([], Comps(temp)) == Eval(stack, Comps(temp[p..]))
      invariant MayEval([], Comps(temp), out.Length) <==> MayEval(stack, Comps(temp[p..]), out.Length)
      invariant p < |temp| ==> temp[p] != '/'
      invariant p < |temp| ==> len <= p + 1
    {
      var comp := Component(temp, p, stack, out.Length);
      p := p + |comp|;
      if comp == "." {
      } else if comp == ".." {
        len := Pop(out, len, stack);
      } else {
        var ok;
        ok, len := Append(out, len, comp, stack);
        if !ok { return -ERANGE, 0; }
      }
      stack := Push(stack, comp);
      p := SkipSlashes(temp, p);
    }
    if len == 0 {
      if out.Length < 2 { return -ERANGE, 0; }
      out[0] := '/';
      len := 1;
    }
    out[len] := '\0';
    r := 0;
    assert temp[p..] == [];
    NothingLeft(stack);
    WrittenReadsBack(stack);
    EndsInSlash(stack);
  }

  /** The component that starts at p. */
  method Component(s: Path, p: nat, ghost stack: seq<Path>, ghost size: nat) returns (c: Path)
    requires p < |s| && s[p] != '/' && Plain(stack)
    ensures c != [] && p + |c| <= |s| && Eval(stack, Comps(s[p..])) == Eval(Push(stack, c), Comps(s[p + |c|..]))
    ensures MayEval(stack, Comps(s[p..]), size) <==>
            MayPush(stack, c, size) && MayEval(Push(stack, c), Comps(s[p + |c|..]), size)
    ensures c == "." || c == ".." ==> MayPush(stack, c, size)
    ensures p + |c| < |s| ==> s[p + |c|] == '/'
    ensures c != "." && c != ".." ==> PlainComp(c)
    ensures c == "." ==> Push(stack, c) == stack
  {
    hide Eval, Comps, Span, Plain, MayEval, WithSlash;
    var q := p;
    while q < |s| && s[q] != '/'
      invariant p <= q <= |s| && forall i :: p <= i < q ==> s[i] != '/'
    {
      q := q + 1;
    }
    c := s[p..q];
    SpanIs(s[p..], q - p);
    NextComp(s[p..], q - p, stack, size);
    assert s[p..][..q - p] == c && s[p..][q - p..] == s[q..];
  }

  /** Past the slashes from p on; they separate components, no more. */
  method SkipSlashes(s: Path, p: nat) returns (q: nat)
    requires p <= |s|
    ensures p <= q <= |s| && Comps(s[q..]) == Comps(s[p..]) && (q < |s| ==> s[q] != '/')
  {
    q := p;
    while q < |s| && s[q] == '/'
      invariant p <= q <= |s| && Comps(s[q..]) == Comps(s[p..])
    {
      assert s[q..][1..] == s[q + 1..];
      q := q + 1;
    }
  }

  /** `..`: back over a trailing slash, then back to the slash before. */
  method Pop(out: array<char>, len: nat, ghost stack: seq<Path>) returns (n: nat)
    requires len <= out.Length && Holds(out[..len], stack)
    ensures n <= len && Holds(out[..n], Push(stack, ".."))
    ensures Holds(out[..n], if stack == [] then [] else stack[..|stack| - 1])
  {
    n := len;
    if n > 1 {
      if out[n - 1] == '/' { n := n - 1; }
      BackedUp(out[..len], stack, n);
      ghost var keep := WithSlash(stack[..|stack| - 1]);
      while n > 1 && out[n - 1] != '/'
        invariant |keep| <= n <= len && out[..|keep|] == keep
      {
        n := n - 1;
      }
      assert n == |keep|;
    }
  }

  /** Without its trailing slash the buffer is the stack below the top, a slash, and the top. */
  lemma BackedUp(o: Path, stack: seq<Path>, n: nat)
    requires Holds(o, stack) && |o| > 1 && n == if o[|o| - 1] == '/' then |o| - 1 else |o|
    ensures stack != [] && Plain(stack[..|stack| - 1])
    ensures var keep := WithSlash(stack[..|stack| - 1]);
            |keep| <= n <= |o| && o[..n] == keep + stack[|stack| - 1] && keep[|keep| - 1] == '/'
            && forall i :: |keep| <= i < n ==> o[i] != '/'
  {
    assert stack != [];
    var keep, c := WithSlash(stack[..|stack| - 1]), stack[|stack| - 1];
    EndsInSlash(stack[..|stack| - 1]);
    assert PlainComp(c);
    assert forall i :: |keep| <= i < |keep| + |c| ==> (keep + c)[i] == c[i - |keep|];
  }

  /** A separator unless there is one, then the component. */
  method Append(out: array<char>, len: nat, c: Path, ghost stack: seq<Path>) returns (ok: bool, n: nat)
    requires len < out.Length && Holds(out[..len], stack) && PlainComp(c)
    modifies out
    ensures ok ==> n < out.Length && Holds(out[..n], Push(stack, c)) && n <= len + 1 + |c|
    ensures ok <==> MayPush(stack, c, out.Length)
    ensures len + |c| + 2 < out.Length ==> ok
  {
    hide Written, WithSlash, Push, PlainComp;
    ghost var closed := if len != 0 && out[len - 1] == '/' then out[..len] else out[..len] + "/";
    Separated(out[..len], closed, stack);
    NotDots(c);
    n := len;
    if n == 0 {
      if out.Length < 2 { return false, n; }
      out[0] := '/';
      n := 1;
    } else if out[n - 1] != '/' {
      if n + 1 >= out.Length { return false, n; }
      out[n] := '/';
      n := n + 1;
    }
    if n + |c| + 1 >= out.Length { return false, n; }
    Separated(old(out[..len]), out[..n], stack);
    CopyIn(out, n, c);
    n := n + |c|;
    ok := true;
    AppendedHolds(stack, c);
  }

  lemma NotDots(c: Path)
    requires PlainComp(c)
    ensures c != "." && c != ".."
  {
  }

  /** memcpy of a component. */
  method CopyIn(out: array<char>, n: nat, c: Path)
    requires n + |c| <= out.Length
    modifies out
    ensures out[..n + |c|] == old(out[..n]) + c
  {
    var i := 0;
    while i < |c|
      invariant i <= |c| && out[..n + i] == old(out[..n]) + c[..i]
    {
      out[n + i] := c[i];
      i := i + 1;
    }
  }

  lemma AppendedHolds(stack: seq<Path>, c: Path)
    requires Plain(stack) && PlainComp(c)
    ensures Push(stack, c) == stack + [c] && Holds(WithSlash(stack) + c, Push(stack, c))
  {
    assert (stack + [c])[..|stack|] == stack;
  }

  /** With a separator at its end the buffer is the stack, each component closed by a slash. */
  lemma Separated(o: Path, o1: Path, stack: seq<Path>)
    requires Holds(o, stack) && o1 == if o != [] && o[|o| - 1] == '/' then o else o + "/"
    ensures o1 == WithSlash(stack)
  {
    EndsInSlash(stack);
    if stack != [] {
      var c := stack[|stack| - 1];
      assert PlainComp(c);
      assert o == Written(stack) ==> o[|o| - 1] == c[|c| - 1];
    }
  }
}
