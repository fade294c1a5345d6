/**
 * What `count_frag` and `range_frag` of pinyin_regex/engine.py make of the
 * arena, stated on graph values: the rounds of copying and linking of
 * `count_frag`, and the exact edges of every case of `range_frag`; and
 * what follows from them about the bounds of `{m,n}`.
 */
module Repeats {
  import opened Wrappers
  import opened Labels
  import opened Automaton
  import opened Construction

  /** `g` with the two fresh states of `s, e = State(), State()` appended. */
  ghost function AddTwo(g: Graph): Graph {
    Graph(g.eps + [{}, {}], g.trans + [map[], map[]], g.accept + [false, false])
  }

  lemma GrowsAddTwo(g: Graph)
    requires |g.trans| == |g.eps| && |g.accept| == |g.eps|
    ensures Grows(g, AddTwo(g), 2, {})
  {
  }

  /** One more round of the chain. */
  lemma CountChainStep(g: Graph, h: Graph, a: Frag, rs: seq<Round>, r: Round, f: Frag)
    requires CountChain(g, r.before, a, rs, r.prev) && CountRound(r.before, r.copied, h, a, r.m, r.prev, f)
    ensures CountChain(g, h, a, rs + [r], f)
  {
    assert (rs + [r])[..|rs|] == rs;
  }

  /** A round appends at least the copy of `a.start`, and the result ends in that copy. */
  lemma CountRoundShape(hA: Graph, hB: Graph, h: Graph, a: Frag, m: map<nat, nat>, prev: Frag, f: Frag)
    requires CountRound(hA, hB, h, a, m, prev, f)
    ensures f.start == prev.start && |hA.eps| < |h.eps| && |hA.eps| <= f.end < |h.eps|
  {
    ReachesRefl(hA, a.start);
    assert a.start in m;
  }

  /**
   * The chain still starts at `a.start`, and every round appends at least
   * the copy of `a.start`: after `|rs|` rounds the graph has `|rs|` more
   * states at least, so no round is lost.
   */
  lemma {:induction false} CountChainShape(g: Graph, h: Graph, a: Frag, rs: seq<Round>, f: Frag)
    requires CountChain(g, h, a, rs, f)
    ensures f.start == a.start && |g.eps| + |rs| <= |h.eps|
    ensures rs != [] ==> |g.eps| <= f.end < |h.eps|
    decreases |rs|
  {
    if rs != [] {
      var r := rs[|rs| - 1];
      CountChainShape(g, r.before, a, rs[..|rs| - 1], r.prev);
      CountRoundShape(r.before, r.copied, h, a, r.m, r.prev, f);
    }
  }

  /**
   * The epsilon edges the optional tail of `range_frag(a, min, max)` adds,
   * from the state `c0` where it begins to the end `e`.  Unbounded: a loop
   * through `a` back to `c0`, and out to `e`.  Bounded, with `r = max - min`
   * passes: the first pass leaves `c0`; every pass but the last returns to
   * the state it left (`a.end.eps.add(current)`) and the next one leaves
   * from `a.end`; the last pass goes on to `e`.
   */
  ghost function TailEdges(a: Frag, c0: nat, e: nat, min: nat, max: MaxCount): set<(nat, nat)> {
    if max.Unbounded? then {(c0, a.start), (a.end, c0), (a.end, e)}
    else
      var r := max.n - min;
      (if r >= 1 then {(c0, a.start), (a.end, e)} else {})
      + (if r >= 2 then {(a.end, c0), (a.end, a.start)} else {})
      + (if r >= 3 then {(a.end, a.end)} else {})
  }

  /** The edges of the first `i` passes of a bounded tail, none of them the last. */
  ghost function TailPasses(a: Frag, c0: nat, i: nat): set<(nat, nat)> {
    (if i >= 1 then {(c0, a.start), (a.end, c0)} else {})
    + (if i >= 2 then {(a.end, a.start), (a.end, a.end)} else {})
  }

  /** A pass that is not the last adds `current -> a.start` and `a.end -> current`. */
  lemma PassesStep(a: Frag, c0: nat, i: nat, current: nat)
    requires current == (if i == 0 then c0 else a.end)
    ensures TailPasses(a, c0, i) + {(current, a.start)} + {(a.end, current)} == TailPasses(a, c0, i + 1)
  {
  }

  /** The last pass adds `current -> a.start` and `a.end -> e`, which completes the tail. */
  lemma PassesLast(a: Frag, c0: nat, e: nat, min: nat, max: MaxCount, i: nat, current: nat)
    requires max.Finite? && max.n - min == i + 1 && current == (if i == 0 then c0 else a.end)
    ensures TailPasses(a, c0, i) + {(current, a.start)} + {(a.end, e)} == TailEdges(a, c0, e, min, max)
  {
  }

  /**
   * The part of the general case of `range_frag` before the tail, from `g`
   * to `h`: two fresh states `s` and `e`, then the edge `s -> e` when
   * `min == 0`, or else `count_frag(a, min)` built after them and linked in
   * between.  `c0` is where the tail would begin.
   */
  ghost predicate HeadBuilt(g: Graph, h: Graph, a: Frag, min: nat, c0: nat) {
    var n := |g.eps|;
    if min == 0 then c0 == n && Grows(g, h, 2, {(n, n + 1)})
    else exists gc: Graph, req: Frag ::
      && CountBuilt(AddTwo(g), gc, a, min, req)
      && Grows(gc, h, 0, Around(n, req)) && c0 == req.end
  }

  /** `s.eps.add(required.start)` and `required.end.eps.add(e)`, with `s` numbered `n` and `e` numbered `n + 1`. */
  ghost function Around(n: nat, req: Frag): set<(nat, nat)> {
    {(n, req.start), (req.end, n + 1)}
  }

  /** The tail from `c0` to `e`, when `max > min`; nothing otherwise. */
  ghost predicate TailBuilt(g: Graph, h: Graph, a: Frag, c0: nat, e: nat, min: nat, max: MaxCount) {
    if Exceeds(max, min) then Grows(g, h, 0, TailEdges(a, c0, e, min, max)) else h == g
  }

  /** The general case of `range_frag`: the head, then the tail. */
  ghost predicate RangeGeneralBuilt(g: Graph, h: Graph, a: Frag, min: nat, max: MaxCount) {
    exists g2: Graph, c0: nat :: HeadBuilt(g, g2, a, min, c0) && TailBuilt(g2, h, a, c0, |g.eps| + 1, min, max)
  }

  /** Two calls of `State()`. */
  lemma TwoFresh(g: Graph, g1: Graph)
    requires g1.eps == g.eps + [{}] + [{}] && g1.trans == g.trans + [map[]] + [map[]]
    requires g1.accept == g.accept + [false] + [false]
    ensures g1 == AddTwo(g)
    ensures NoAccept(g) ==> NoAccept(g1)
  {
    assert g1.eps == g.eps + [{}, {}];
    assert g1.trans == g.trans + [map[], map[]];
    assert g1.accept == g.accept + [false, false];
  }

  /** `s.eps.add(e)` between the two fresh states: the head when `min == 0`. */
  lemma HeadZero(g: Graph, g1: Graph, h: Graph, a: Frag)
    requires Valid(g) && g1 == AddTwo(g)
    requires h == Graph(g1.eps[|g.eps| := g1.eps[|g.eps|] + {|g.eps| + 1}], g1.trans, g1.accept)
    ensures HeadBuilt(g, h, a, 0, |g.eps|)
  {
    GrowsAddTwo(g);
    GrowsAddEps(g, g1, 2, {}, |g.eps|, |g.eps| + 1);
    assert {} + {(|g.eps|, |g.eps| + 1)} == {(|g.eps|, |g.eps| + 1)};
  }

  /** `s.eps.add(required.start)`, then `required.end.eps.add(e)`. */
  lemma AroundGrows(g1: Graph, g2: Graph, g3: Graph, s: nat, e: nat, req: Frag)
    requires Valid(g1) && s < |g1.eps| && req.end < |g1.eps|
    requires g2 == Graph(g1.eps[s := g1.eps[s] + {req.start}], g1.trans, g1.accept)
    requires g3 == Graph(g2.eps[req.end := g2.eps[req.end] + {e}], g2.trans, g2.accept)
    requires e == s + 1
    ensures Grows(g1, g3, 0, Around(s, req))
  {
    GrowsRefl(g1);
    GrowsAddEps(g1, g1, 0, {}, s, req.start);
    GrowsAddEps(g1, g2, 0, {} + {(s, req.start)}, req.end, e);
    assert {} + {(s, req.start)} + {(req.end, e)} == Around(s, req);
  }

  /** The head with the required part: the witnesses of `HeadBuilt`. */
  lemma HeadIntro(g: Graph, gc: Graph, h: Graph, a: Frag, min: nat, req: Frag)
    requires min > 0 && CountBuilt(AddTwo(g), gc, a, min, req) && Grows(gc, h, 0, Around(|g.eps|, req))
    ensures HeadBuilt(g, h, a, min, req.end)
  {
  }

  /** The head, then the tail: the witnesses of `RangeGeneralBuilt`. */
  lemma GeneralIntro(g: Graph, g2: Graph, h: Graph, a: Frag, min: nat, max: MaxCount, c0: nat, e: nat)
    requires HeadBuilt(g, g2, a, min, c0) && e == |g.eps| + 1 && TailBuilt(g2, h, a, c0, e, min, max)
    ensures RangeGeneralBuilt(g, h, a, min, max)
  {
  }

  /** The special cases `range_frag` handles before the general one. */
  predicate Special(min: nat, max: MaxCount) {
    || (min == 0 && max == Unbounded) || (min == 1 && max == Unbounded)
    || (min == 0 && max == Finite(1)) || (min == 0 && max == Finite(0))
  }

  /**
   * `h` and `f` are what `range_frag(a, min, max)` makes of `g`: `{0,}`,
   * `{1,}` and `{0,1}` are `star_frag`, `plus_frag` and `question_frag`,
   * `{0}` a single edge between two fresh states, and every other range the
   * general case.
   */
  ghost predicate RangeBuilt(g: Graph, h: Graph, a: Frag, min: nat, max: MaxCount, f: Frag) {
    var n := |g.eps|;
    && f == Frag(n, n + 1)
    && if min == 0 && max == Unbounded then Grows(g, h, 2, StarEdges(n, a))
       else if min == 1 && max == Unbounded then Grows(g, h, 2, PlusEdges(n, a))
       else if min == 0 && max == Finite(1) then Grows(g, h, 2, QuestionEdges(n, a))
       else if min == 0 && max == Finite(0) then Grows(g, h, 2, {(n, n + 1)})
       else RangeGeneralBuilt(g, h, a, min, max)
  }

  // ---------------------------------------------------------------------
  // The edges that decide the bounds
  // ---------------------------------------------------------------------

  /** Growing keeps the edges of the old states. */
  lemma GrowsKeepsEdge(g: Graph, h: Graph, k: nat, E: set<(nat, nat)>, x: nat, y: nat)
    requires Grows(g, h, k, E) && x < |g.eps| && y in g.eps[x]
    ensures x < |h.eps| && y in h.eps[x]
  {
  }

  /** An edge of `E` from a state that exists after growing is there. */
  lemma GrowsHasEdge(g: Graph, h: Graph, k: nat, E: set<(nat, nat)>, x: nat, y: nat)
    requires Grows(g, h, k, E) && (x, y) in E && x < |h.eps|
    ensures y in h.eps[x]
  {
    assert y in EdgesFrom(E, x);
  }

  /** The witnesses of the head of the general case with `min > 0`. */
  lemma HeadRequired(g: Graph, h: Graph, a: Frag, min: nat, c0: nat) returns (gc: Graph, req: Frag)
    requires min > 0 && HeadBuilt(g, h, a, min, c0)
    ensures CountBuilt(AddTwo(g), gc, a, min, req)
    ensures Grows(gc, h, 0, Around(|g.eps|, req)) && c0 == req.end
  {
    var n := |g.eps|;
    gc, req :| CountBuilt(AddTwo(g), gc, a, min, req) && Grows(gc, h, 0, Around(n, req)) && c0 == req.end;
  }

  /**
   * After the head, the start `s` of the range has an edge to `a.start`
   * when `min > 0`: the chain of copies begins with `a` itself.  The head
   * keeps the two fresh states, and `c0` exists.
   */
  lemma HeadShape(g: Graph, h: Graph, a: Frag, min: nat, c0: nat)
    requires HeadBuilt(g, h, a, min, c0) && a.start < |g.eps| && a.end < |g.eps|
    ensures |g.eps| + 2 <= |h.eps| && c0 < |h.eps|
    ensures min > 0 ==> a.start in h.eps[|g.eps|]
  {
    if min > 0 {
      var n := |g.eps|;
      var gc, req := HeadRequired(g, h, a, min, c0);
      var rs :| |rs| == min - 1 && CountChain(AddTwo(g), gc, a, rs, req);
      CountChainShape(AddTwo(g), gc, a, rs, req);
      GrowsHasEdge(gc, h, 0, Around(n, req), n, req.start);
    }
  }

  /**
   * The tail's edges: `c0 -> a.start` and `a.end -> e` whenever there is
   * a tail, and `a.end -> a.start` when it is bounded with two passes or
   * more.
   */
  lemma TailShape(g: Graph, g2: Graph, h: Graph, a: Frag, c0: nat, min: nat, max: MaxCount)
    requires TailBuilt(g2, h, a, c0, |g.eps| + 1, min, max) && Exceeds(max, min) && c0 < |g2.eps| && a.end < |g2.eps|
    ensures a.start in h.eps[c0] && |g.eps| + 1 in h.eps[a.end]
    ensures max.Finite? && max.n >= min + 2 ==> a.start in h.eps[a.end]
  {
    var e := |g.eps| + 1;
    var E := TailEdges(a, c0, e, min, max);
    assert (c0, a.start) in E && (a.end, e) in E;
    GrowsHasEdge(g2, h, 0, E, c0, a.start);
    GrowsHasEdge(g2, h, 0, E, a.end, e);
    if max.Finite? && max.n >= min + 2 {
      assert (a.end, a.start) in E;
      GrowsHasEdge(g2, h, 0, E, a.end, a.start);
    }
  }

  /** The head and the tail of the general case. */
  lemma RangeParts(g: Graph, h: Graph, a: Frag, min: nat, max: MaxCount) returns (g2: Graph, c0: nat)
    requires RangeGeneralBuilt(g, h, a, min, max)
    ensures HeadBuilt(g, g2, a, min, c0) && TailBuilt(g2, h, a, c0, |g.eps| + 1, min, max)
  {
    g2, c0 :| HeadBuilt(g, g2, a, min, c0) && TailBuilt(g2, h, a, c0, |g.eps| + 1, min, max);
  }

  /** Outside the special cases, the range is built by the general case. */
  lemma RangeGeneral(g: Graph, h: Graph, a: Frag, min: nat, max: MaxCount, f: Frag)
    requires RangeBuilt(g, h, a, min, max, f) && !Special(min, max)
    ensures RangeGeneralBuilt(g, h, a, min, max)
  {
  }

  /**
   * The edges of the general case that decide the bounds: one pass from
   * the start `s` through `a` to the end `e` when `max > min`, and the
   * edge back from `a.end` to `a.start` when `max >= min + 2`.
   */
  lemma GeneralEdges(g: Graph, h: Graph, a: Frag, min: nat, max: MaxCount)
    requires RangeGeneralBuilt(g, h, a, min, max) && a.start < |g.eps| && a.end < |g.eps|
    ensures |g.eps| + 2 <= |h.eps|
    ensures Exceeds(max, min) ==> a.start in h.eps[|g.eps|] && |g.eps| + 1 in h.eps[a.end]
    ensures max.Finite? && max.n >= min + 2 ==> a.start in h.eps[a.end]
  {
    var g2, c0 := RangeParts(g, h, a, min, max);
    HeadShape(g, g2, a, min, c0);
    if Exceeds(max, min) {
      GeneralOnePass(g, g2, h, a, min, max, c0);
    }
    if max.Finite? && max.n >= min + 2 {
      TailLoops(g, g2, h, a, c0, min, max);
    }
  }

  /** One pass in the general case: `s -> a.start` and `a.end -> e`. */
  lemma GeneralOnePass(g: Graph, g2: Graph, h: Graph, a: Frag, min: nat, max: MaxCount, c0: nat)
    requires HeadBuilt(g, g2, a, min, c0) && TailBuilt(g2, h, a, c0, |g.eps| + 1, min, max)
    requires Exceeds(max, min) && a.start < |g.eps| && a.end < |g.eps|
    ensures |g.eps| < |h.eps| && a.start in h.eps[|g.eps|]
    ensures a.end < |h.eps| && |g.eps| + 1 in h.eps[a.end]
  {
    HeadShape(g, g2, a, min, c0);
    TailShape(g, g2, h, a, c0, min, max);
    if min > 0 {
      GrowsKeepsEdge(g2, h, 0, TailEdges(a, c0, |g.eps| + 1, min, max), |g.eps|, a.start);
    }
  }

  /** A bounded tail of two passes or more links `a.end` back to `a.start`. */
  lemma TailLoops(g: Graph, g2: Graph, h: Graph, a: Frag, c0: nat, min: nat, max: MaxCount)
    requires TailBuilt(g2, h, a, c0, |g.eps| + 1, min, max) && max.Finite? && max.n >= min + 2
    requires c0 < |g2.eps| && a.end < |g2.eps|
    ensures a.end < |h.eps| && a.start in h.eps[a.end]
  {
    TailShape(g, g2, h, a, c0, min, max);
  }

  /** One pass in `star_frag`, `plus_frag` and `question_frag`. */
  lemma SpecialOnePass(g: Graph, h: Graph, a: Frag, min: nat, max: MaxCount, f: Frag)
    requires RangeBuilt(g, h, a, min, max, f) && Special(min, max) && Exceeds(max, min)
    requires a.start < |g.eps| && a.end < |g.eps|
    ensures |g.eps| < |h.eps| && a.start in h.eps[|g.eps|]
    ensures a.end < |h.eps| && |g.eps| + 1 in h.eps[a.end]
  {
    var n := |g.eps|;
    if min == 0 && max == Unbounded {
      var E := StarEdges(n, a);
      GrowsHasEdge(g, h, 2, E, n, a.start);
      GrowsHasEdge(g, h, 2, E, a.end, n + 1);
    } else if min == 1 && max == Unbounded {
      var E := PlusEdges(n, a);
      GrowsHasEdge(g, h, 2, E, n, a.start);
      GrowsHasEdge(g, h, 2, E, a.end, n + 1);
    } else if min == 0 && max == Finite(1) {
      var E := QuestionEdges(n, a);
      GrowsHasEdge(g, h, 2, E, n, a.start);
      GrowsHasEdge(g, h, 2, E, a.end, n + 1);
    }
  }
}
