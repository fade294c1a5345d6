/**
 * What the parser builds for each expression it recognises: `Builds(g,
 * h, f, t)` says that constructing the expression `t` in graph `g` (its
 * operands first, in the order the parser visits them, then the
 * constructor of `t` itself) leaves graph `h` with fragment `f`.  Each
 * case names the edges the constructor adds (module Construction and
 * module Repeats), so the predicate fixes the whole automaton of a
 * pattern up to the numbering of cloned states.
 */
module Building {
  import opened Wrappers
  import opened Labels
  import opened Automaton
  import opened Construction
  import opened Repeats
  import opened Syntax

  /** `h` is `g` with one `literal_frag(lab)` appended, and `f` is that fragment. */
  ghost predicate IsLiteral(g: Graph, h: Graph, lab: Label, f: Frag) {
    var n := |g.eps|;
    && f == Frag(n, n + 1)
    && h == Graph(g.eps + [{}, {}], g.trans + [map[lab := {n + 1}], map[]], g.accept + [false, false])
  }

  /** The `concat_frag` edges between consecutive fragments of `fs`. */
  ghost function ChainEdges(fs: seq<Frag>): set<(nat, nat)>
    decreases |fs|
  {
    if |fs| <= 1 then {} else ChainEdges(fs[..|fs| - 1]) + {(fs[|fs| - 2].end, fs[|fs| - 1].start)}
  }

  /**
   * The end of `parse_seq` with the fragments `fs` of its repeats: one
   * fresh state when there are none, otherwise `concat_frag` folded from
   * the left, linking each end to the next start.
   */
  ghost predicate Joins(g: Graph, h: Graph, fs: seq<Frag>, f: Frag) {
    if fs == [] then f == Frag(|g.eps|, |g.eps|) && Grows(g, h, 1, {})
    else f == Frag(fs[0].start, fs[|fs| - 1].end) && Grows(g, h, 0, ChainEdges(fs))
  }

  /** `alt_frag(fl, fr)`: two fresh states, the entry forking to both operands and both joining the exit. */
  ghost predicate AltBuilt(g: Graph, h: Graph, fl: Frag, fr: Frag, f: Frag) {
    var n := |g.eps|;
    f == Frag(n, n + 1) && Grows(g, h, 2, AltEdges(n, fl, fr))
  }

  /** The operator dispatch of `parse_repeat`; a character that is none of the three builds nothing. */
  ghost predicate PostBuilt(g: Graph, h: Graph, op: char, a: Frag, f: Frag) {
    var n := |g.eps|;
    if op == '*' then f == Frag(n, n + 1) && Grows(g, h, 2, StarEdges(n, a))
    else if op == '+' then f == Frag(n, n + 1) && Grows(g, h, 2, PlusEdges(n, a))
    else if op == '?' then f == Frag(n, n + 1) && Grows(g, h, 2, QuestionEdges(n, a))
    else h == g && f == a
  }

  /** Constructing `t` in `g` gives graph `h` and fragment `f`. */
  ghost predicate Builds(g: Graph, h: Graph, f: Frag, t: Regex)
    decreases t
  {
    match t
    case Lit(lab) => IsLiteral(g, h, lab, f)
    case Cat(items) => exists gm: Graph, fs: seq<Frag> :: BuildsAll(g, gm, fs, items) && Joins(gm, h, fs, f)
    case Or(l, r) =>
      exists g1: Graph, g2: Graph, fl: Frag, fr: Frag ::
        Builds(g, g1, fl, l) && Builds(g1, g2, fr, r) && AltBuilt(g2, h, fl, fr, f)
    case Post(op, b) => exists g1: Graph, fb: Frag :: Builds(g, g1, fb, b) && PostBuilt(g1, h, op, fb, f)
    case Rep(b, min, max) => exists g1: Graph, fb: Frag :: Builds(g, g1, fb, b) && RangeBuilt(g1, h, fb, min, max, f)
  }

  /** Constructing the repeats `items` one after another from `g` gives `h` and their fragments `fs`. */
  ghost predicate BuildsAll(g: Graph, h: Graph, fs: seq<Frag>, items: Items)
    decreases items
  {
    match items
    case Nil => h == g && fs == []
    case Snoc(init, last) =>
      && |fs| > 0
      && var before, f := fs[..|fs| - 1], fs[|fs| - 1];
         exists gm: Graph :: BuildsAll(g, gm, before, init) && Builds(gm, h, f, last)
  }

  // ---------------------------------------------------------------------
  // Introduction rules, one per case
  // ---------------------------------------------------------------------

  lemma LitIntro(g: Graph, h: Graph, lab: Label, f: Frag)
    requires IsLiteral(g, h, lab, f)
    ensures Builds(g, h, f, Lit(lab))
  {
  }

  lemma OrIntro(g: Graph, g1: Graph, g2: Graph, h: Graph, fl: Frag, fr: Frag, f: Frag, l: Regex, r: Regex)
    requires Builds(g, g1, fl, l) && Builds(g1, g2, fr, r) && AltBuilt(g2, h, fl, fr, f)
    ensures Builds(g, h, f, Or(l, r))
  {
  }

  lemma PostIntro(g: Graph, g1: Graph, h: Graph, op: char, fb: Frag, f: Frag, b: Regex)
    requires Builds(g, g1, fb, b) && PostBuilt(g1, h, op, fb, f)
    ensures Builds(g, h, f, Post(op, b))
  {
  }

  lemma RepIntro(g: Graph, g1: Graph, h: Graph, fb: Frag, min: nat, max: MaxCount, f: Frag, b: Regex)
    requires Builds(g, g1, fb, b) && RangeBuilt(g1, h, fb, min, max, f)
    ensures Builds(g, h, f, Rep(b, min, max))
  {
  }

  lemma CatIntro(g: Graph, gm: Graph, h: Graph, fs: seq<Frag>, f: Frag, items: Items)
    requires BuildsAll(g, gm, fs, items) && Joins(gm, h, fs, f)
    ensures Builds(g, h, f, Cat(items))
  {
  }

  lemma NilIntro(g: Graph)
    ensures BuildsAll(g, g, [], Nil)
  {
  }

  lemma SnocIntro(g: Graph, gm: Graph, h: Graph, fs: seq<Frag>, f: Frag, init: Items, last: Regex)
    requires BuildsAll(g, gm, fs, init) && Builds(gm, h, f, last)
    ensures BuildsAll(g, h, fs + [f], Snoc(init, last))
  {
    assert (fs + [f])[..|fs|] == fs;
  }

  /** One more `concat_frag` extends the chain by the edge into the new last fragment. */
  lemma ChainStep(fs: seq<Frag>, k: nat)
    requires 1 <= k < |fs|
    ensures ChainEdges(fs[..k + 1]) == ChainEdges(fs[..k]) + {(fs[k - 1].end, fs[k].start)}
  {
    assert fs[..k + 1][..k] == fs[..k];
  }

  // ---------------------------------------------------------------------
  // An example
  // ---------------------------------------------------------------------

  /**
   * Compiling `ab` into an empty automaton makes exactly the four states
   * of the two literals, the end of `a` linked to the start of `b`
   * (`SeqOfTwo` shows that `ab` is this expression).
   */
  lemma TwoLiterals(h: Graph, f: Frag)
    requires Builds(Graph([], [], []), h, f, Cat(Snoc(Snoc(Nil, Lit(Str("a"))), Lit(Str("b")))))
    ensures f == Frag(0, 3)
    ensures h.eps == [{}, {2}, {}, {}]
    ensures h.trans == [map[Str("a") := {1}], map[], map[Str("b") := {3}], map[]]
    ensures h.accept == [false, false, false, false]
  {
    var gm: Graph, fs: seq<Frag> :|
      BuildsAll(Graph([], [], []), gm, fs, Snoc(Snoc(Nil, Lit(Str("a"))), Lit(Str("b")))) && Joins(gm, h, fs, f);
    TwoItems(gm, fs);
    assert ChainEdges(fs) == {(1, 2)} by {
      assert fs[..1] == [Frag(0, 1)];
    }
    LinkOneTwo(gm, h);
  }

  /** The two literals `a` and `b`, built one after the other. */
  lemma TwoItems(g: Graph, fs: seq<Frag>)
    requires BuildsAll(Graph([], [], []), g, fs, Snoc(Snoc(Nil, Lit(Str("a"))), Lit(Str("b"))))
    ensures fs == [Frag(0, 1), Frag(2, 3)]
    ensures g == Graph([{}, {}, {}, {}], [map[Str("a") := {1}], map[], map[Str("b") := {3}], map[]], [false, false, false, false])
  {
    var g1: Graph :| BuildsAll(Graph([], [], []), g1, fs[..|fs| - 1], Snoc(Nil, Lit(Str("a")))) && Builds(g1, g, fs[|fs| - 1], Lit(Str("b")));
    OneItem(g1, fs[..|fs| - 1]);
  }

  lemma OneItem(g: Graph, fs: seq<Frag>)
    requires BuildsAll(Graph([], [], []), g, fs, Snoc(Nil, Lit(Str("a"))))
    ensures fs == [Frag(0, 1)]
    ensures g == Graph([{}, {}], [map[Str("a") := {1}], map[]], [false, false])
  {
  }

  lemma LinkOneTwo(g: Graph, h: Graph)
    requires g == Graph([{}, {}, {}, {}], [map[Str("a") := {1}], map[], map[Str("b") := {3}], map[]], [false, false, false, false])
    requires Grows(g, h, 0, {(1, 2)})
    ensures h.eps == [{}, {2}, {}, {}]
    ensures h.trans == g.trans && h.accept == g.accept
  {
    forall q | 0 <= q < 4 ensures h.eps[q] == [{}, {2}, {}, {}][q] {
      assert h.eps[q] == {} + EdgesFrom({(1, 2)}, q);
      if q == 1 {
        assert 2 in EdgesFrom({(1, 2)}, q);
      } else {
        assert EdgesFrom({(1, 2)}, q) == {};
      }
    }
  }

  /** `ab` is one sequence of two literals. */
  lemma SeqOfTwo()
    ensures ScanAlt("ab", 0) == Stop(2, Cat(Snoc(Snoc(Nil, Lit(Str("a"))), Lit(Str("b")))))
  {
    assert AtomLabel("ab", 0) == Str("a");
    assert AtomLabel("ab", 1) == Str("b");
  }
}
