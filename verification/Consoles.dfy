/** Three virtual consoles over one parser and one screen (kernel/tty.c): saving, redirecting and
    restoring make each of them a terminal of its own. */
module Consoles {
  import opened Terminal

  const NUM_VTYS: nat := 3

  datatype World = World(terms: seq<Term>, active: nat)

  ghost predicate GoodWorld(w: World) {
    |w.terms| == NUM_VTYS && w.active < NUM_VTYS && forall v :: 0 <= v < NUM_VTYS ==> GoodCtx(w.terms[v].ctx)
  }

  /** vt100_restore_context derives the attribute in force from the colour state again. */
  function Resume(t: Term): Term { t.(ctx := Sgr(t.ctx)) }

  /** tty_output_char_vt: a byte for a console in the background borrows the driver. */
  ghost function Output(w: World, v: nat, b: Byte): (r: World)
    requires GoodWorld(w) && v < NUM_VTYS
    ensures GoodWorld(r) && r.active == w.active
  {
    if v == w.active then w.(terms := w.terms[v := PutChar(w.terms[v], b)])
    else w.(terms := w.terms[w.active := Resume(w.terms[w.active])][v := PutChar(Resume(w.terms[v]), b)])
  }

  /** tty_switch_vt. */
  ghost function SwitchTo(w: World, v: int): (r: World)
    requires GoodWorld(w)
    ensures GoodWorld(r)
  {
    if v < 0 || v >= NUM_VTYS || v == w.active then w
    else World(w.terms[v := Resume(w.terms[v])], v)
  }

  /** A switch shows the console asked for, if there is one, and no text changes on any. */
  lemma SwitchShows(w: World, v: int)
    requires GoodWorld(w)
    ensures var r := SwitchTo(w, v);
            && r.active == (if 0 <= v < NUM_VTYS then v else w.active)
            && forall u :: 0 <= u < NUM_VTYS ==> SameText(r.terms[u], w.terms[u])
  {
  }

  datatype Event = Wrote(v: nat, b: Byte) | Switched(to: int)

  ghost predicate Known(es: seq<Event>) { forall i :: 0 <= i < |es| && es[i].Wrote? ==> es[i].v < NUM_VTYS }

  ghost function Run(w: World, es: seq<Event>): (r: World)
    requires GoodWorld(w) && Known(es)
    ensures GoodWorld(r)
  {
    if es == [] then w else Step(Run(w, es[..|es| - 1]), es[|es| - 1])
  }

  ghost function Step(w: World, e: Event): (r: World)
    requires GoodWorld(w) && (e.Wrote? ==> e.v < NUM_VTYS)
    ensures GoodWorld(r)
  {
    match e
    case Wrote(v, b) => Output(w, v, b)
    case Switched(v) => SwitchTo(w, v)
  }

  /** The bytes written to one console, in order. */
  ghost function Own(es: seq<Event>, v: nat): seq<Byte> {
    if es == [] then []
    else
      var before, e := Own(es[..|es| - 1], v), es[|es| - 1];
      if e.Wrote? && e.v == v then before + [e.b] else before
  }

  // ---------------------------------------------------------------------------
  // Non-interference
  // ---------------------------------------------------------------------------

  /** Whatever is written to the consoles, and however they are switched, each shows the text, and
      has the cursor and parser state, of a terminal fed its own bytes alone. */
  lemma {:induction false} TextIsIsolated(w: World, es: seq<Event>, v: nat)
    requires GoodWorld(w) && Known(es) && v < NUM_VTYS
    ensures SameText(Run(w, es).terms[v], Feed(w.terms[v], Own(es, v)))
  {
    hide SameText, PutChar, Step, GoodCtx;
    FeedNothing(w.terms[v]);
    if es != [] {
      var before, e := es[..|es| - 1], es[|es| - 1];
      TextIsIsolated(w, before, v);
      StepKeepsText(Run(w, before), e, v, Feed(w.terms[v], Own(before, v)));
      if e.Wrote? && e.v == v { assert Own(es, v)[..|Own(es, v)| - 1] == Own(before, v); }
    }
  }

  /** One event changes a console's text only by a byte written to it. */
  lemma StepKeepsText(w: World, e: Event, v: nat, u: Term)
    requires GoodWorld(w) && (e.Wrote? ==> e.v < NUM_VTYS) && v < NUM_VTYS
    requires GoodCtx(u.ctx) && SameText(w.terms[v], u)
    ensures SameText(Step(w, e).terms[v], if e.Wrote? && e.v == v then PutChar(u, e.b) else u)
  {
    hide SameText, PutChar, SgrColor;
    var t := w.terms[v];
    ResumeKeepsText(t, u);
    if e.Wrote? && e.v == v {
      PutCharKeepsText(t, u, e.b);
      PutCharKeepsText(Resume(t), u, e.b);
    }
  }

  lemma ResumeKeepsText(t: Term, u: Term)
    requires SameText(t, u)
    ensures SameText(Resume(t), u) && (GoodCtx(t.ctx) ==> GoodCtx(Resume(t).ctx))
  {
  }

  lemma FeedNothing(t: Term)
    requires GoodCtx(t.ctx)
    ensures SameText(Feed(t, []), t) && SameText(t, t)
  {
  }

  /** With consistent colours, each console is exactly such a terminal, colours and all. */
  lemma {:induction false} ConsistentIsIsolated(w: World, es: seq<Event>, v: nat)
    requires GoodWorld(w) && Known(es) && v < NUM_VTYS && forall u :: 0 <= u < NUM_VTYS ==> Consistent(w.terms[u].ctx)
    ensures Run(w, es).terms[v] == Feed(w.terms[v], Own(es, v)) && Consistent(Run(w, es).terms[v].ctx)
  {
    if es != [] {
      var before, e := es[..|es| - 1], es[|es| - 1];
      var r := Run(w, before);
      forall u | 0 <= u < NUM_VTYS ensures Consistent(r.terms[u].ctx) { ConsistentIsIsolated(w, before, u); }
      ConsistentIsIsolated(w, before, v);
      if e.Wrote? && e.v == v {
        assert Own(es, v)[..|Own(es, v)| - 1] == Own(before, v);
        PutCharConsistent(r.terms[v], e.b);
      }
    }
  }

  ghost predicate Isolated(w: World, es: seq<Event>)
    requires GoodWorld(w) && Known(es)
  {
    forall v :: 0 <= v < NUM_VTYS ==> Run(w, es).terms[v] == Feed(w.terms[v], Own(es, v))
  }

  /** Exactly then: a console whose attribute differs from its colour state loses it as soon as
      another console is written to or it is switched to. */
  lemma ColorsIsolatedIff(w: World)
    requires GoodWorld(w)
    ensures (forall es: seq<Event> | Known(es) :: Isolated(w, es)) <==> forall v :: 0 <= v < NUM_VTYS ==>
      Consistent(w.terms[v].ctx)
  {
    if forall v :: 0 <= v < NUM_VTYS ==> Consistent(w.terms[v].ctx) {
      forall es: seq<Event> | Known(es) ensures Isolated(w, es) {
        forall v | 0 <= v < NUM_VTYS ensures Run(w, es).terms[v] == Feed(w.terms[v], Own(es, v)) {
          ConsistentIsIsolated(w, es, v);
        }
      }
    } else {
      var v :| 0 <= v < NUM_VTYS && !Consistent(w.terms[v].ctx);
      var other := if v == 0 then 1 else 0;
      var es := if v == w.active then [Wrote(other, 7)] else [Switched(v)];
      assert es[..0] == [] && Run(w, es[..0]) == w && Own(es, v) == Own(es[..0], v) == [];
      assert Run(w, es).terms[v] == Resume(w.terms[v]) != w.terms[v];
      assert Feed(w.terms[v], Own(es, v)) == w.terms[v];
      assert Known(es) && !Isolated(w, es);
    }
  }

  /** A console's context as tty_init fills it in: white on black for colour sequences, but light
      grey in force. */
  const BOOT: Ctx := Ctx(Normal, [0, 0, 0, 0, 0, 0, 0, 0], 0, 0, 0, 0, 0, 15, 0, false, 0, 0, 7, 0)

  /** So right after boot colours are not isolated: some run shows a console in other colours than
      a terminal of its own would have. */
  lemma BootLosesColors(w: World)
    requires GoodWorld(w) && exists v :: 0 <= v < NUM_VTYS && w.terms[v].ctx == BOOT
    ensures !Consistent(BOOT)
    ensures exists es: seq<Event> :: Known(es) && !Isolated(w, es)
  {
    ColorsIsolatedIff(w);
  }
}
