/**
 * What the edges `range_frag` of pinyin_regex/engine.py adds say about the
 * bounds of `{m,n}`: a single pass through the repeated fragment leads
 * from the start of the range to its end whenever `n > m`, and a bounded
 * range with `n >= m + 2` can pass the fragment any number of times.
 */
module Bounds {
  import opened Wrappers
  import opened Automaton
  import opened Construction
  import opened Repeats

  /**
   * One pass through `a` suffices whenever `max > min`: the start of the
   * range (the new state `|g.eps|`) has an edge to `a.start`, and `a.end`
   * has an edge to the end of the range (the new state `|g.eps| + 1`),
   * whatever `min` is.  So `y{2,3}` accepts a single `y`.
   */
  lemma RangeOnePass(g: Graph, h: Graph, a: Frag, min: nat, max: MaxCount, f: Frag)
    requires RangeBuilt(g, h, a, min, max, f) && Exceeds(max, min) && a.start < |g.eps| && a.end < |g.eps|
    ensures |g.eps| < |h.eps| && a.start in h.eps[|g.eps|]
    ensures a.end < |h.eps| && |g.eps| + 1 in h.eps[a.end]
  {
    if Special(min, max) {
      SpecialOnePass(g, h, a, min, max, f);
    } else {
      GeneralOnePassOf(g, h, a, min, max, f);
    }
  }

  /** One pass outside the special cases. */
  lemma GeneralOnePassOf(g: Graph, h: Graph, a: Frag, min: nat, max: MaxCount, f: Frag)
    requires RangeBuilt(g, h, a, min, max, f) && !Special(min, max) && Exceeds(max, min)
    requires a.start < |g.eps| && a.end < |g.eps|
    ensures |g.eps| < |h.eps| && a.start in h.eps[|g.eps|]
    ensures a.end < |h.eps| && |g.eps| + 1 in h.eps[a.end]
  {
    RangeGeneral(g, h, a, min, max, f);
    GeneralEdges(g, h, a, min, max);
  }

  /**
   * A bounded range with `max >= min + 2` leaves an edge from `a.end` back
   * to `a.start`, so `a` can be passed any number of times: the upper
   * bound is not kept (`y{0,2}` accepts `yyy`).
   */
  lemma RangeLoops(g: Graph, h: Graph, a: Frag, min: nat, max: MaxCount, f: Frag)
    requires RangeBuilt(g, h, a, min, max, f) && max.Finite? && max.n >= min + 2
    requires a.start < |g.eps| && a.end < |g.eps|
    ensures a.end < |h.eps| && a.start in h.eps[a.end]
  {
    RangeGeneral(g, h, a, min, max, f);
    GeneralEdges(g, h, a, min, max);
  }
}
