/**
 * What the steps of the Thompson construction of pinyin_regex/engine.py do
 * to the arena, stated on graph values: how a step grows the arena, what it
 * means for the arena to hold a copy of the states reachable from a root
 * (`clone_frag`), the invariant of the recursive `clone_state`, and the
 * lemmas that keep these facts from one step to the next.
 */
module Construction {
  import opened Labels
  import opened Automaton

  // ---------------------------------------------------------------------
  // Growing the arena
  // ---------------------------------------------------------------------

  /** The targets of the pairs in `E` that leave `q`. */
  ghost function EdgesFrom(E: set<(nat, nat)>, q: nat): set<nat> {
    set p | p in E && p.0 == q :: p.1
  }

  /**
   * `h` is `g` with `k` fresh states (no labels, not accepting) appended
   * and exactly the epsilon edges `E` added.
   */
  ghost predicate Grows(g: Graph, h: Graph, k: nat, E: set<(nat, nat)>) {
    && |h.eps| == |g.eps| + k && |h.trans| == |h.eps| && |h.accept| == |h.eps|
    && |g.trans| == |g.eps| && |g.accept| == |g.eps|
    && (forall q :: 0 <= q < |h.eps| ==> h.eps[q] == (if q < |g.eps| then g.eps[q] else {}) + EdgesFrom(E, q))
    && (forall q :: 0 <= q < |g.eps| ==> h.trans[q] == g.trans[q] && h.accept[q] == g.accept[q])
    && (forall q :: |g.eps| <= q < |h.eps| ==> h.trans[q] == map[] && !h.accept[q])
  }

  /** The edges `star_frag(a)` adds, its fresh start numbered `n` and its fresh end `n + 1`. */
  ghost function StarEdges(n: nat, a: Frag): set<(nat, nat)> {
    {(n, a.start), (n, n + 1), (a.end, a.start), (a.end, n + 1)}
  }

  /** The edges `plus_frag(a)` adds. */
  ghost function PlusEdges(n: nat, a: Frag): set<(nat, nat)> {
    {(n, a.start), (a.end, a.start), (a.end, n + 1)}
  }

  /** The edges `question_frag(a)` adds. */
  ghost function QuestionEdges(n: nat, a: Frag): set<(nat, nat)> {
    {(n, a.start), (n, n + 1), (a.end, n + 1)}
  }

  /** The edges `alt_frag(a, b)` adds. */
  ghost function AltEdges(n: nat, a: Frag, b: Frag): set<(nat, nat)> {
    {(n, a.start), (n, b.start), (a.end, n + 1), (b.end, n + 1)}
  }

  /** All states of a fragment exist. */
  ghost predicate InArena(g: Graph, f: Frag) {
    f.start < |g.eps| && f.end < |g.eps|
  }

  /** Growing only adds: old states keep their labels and flags and gain edges. */
  lemma GrowsExtends(g: Graph, h: Graph, k: nat, E: set<(nat, nat)>)
    requires Valid(g) && Valid(h) && Grows(g, h, k, E)
    ensures Extends(g, h)
    ensures NoAccept(g) ==> NoAccept(h)
  {
  }

  /** An added edge is a path of the grown graph. */
  lemma GrowsEdge(g: Graph, h: Graph, k: nat, E: set<(nat, nat)>, x: nat, y: nat)
    requires Grows(g, h, k, E) && (x, y) in E && x < |h.eps|
    ensures Reaches(h, x, y)
  {
    assert y in EdgesFrom(E, x);
    ReachesEps(h, x, y);
  }

  /** Nothing grown yet. */
  lemma GrowsRefl(g: Graph)
    requires |g.trans| == |g.eps| && |g.accept| == |g.eps|
    ensures Grows(g, g, 0, {})
  {
  }

  /** Two growth steps, the second adding no states, are one. */
  lemma GrowsThen(g: Graph, h: Graph, h2: Graph, k: nat, E1: set<(nat, nat)>, E2: set<(nat, nat)>)
    requires Grows(g, h, k, E1) && Grows(h, h2, 0, E2)
    ensures Grows(g, h2, k, E1 + E2)
  {
    forall q | 0 <= q < |h2.eps|
      ensures h2.eps[q] == (if q < |g.eps| then g.eps[q] else {}) + EdgesFrom(E1 + E2, q)
    {
      assert EdgesFrom(E1 + E2, q) == EdgesFrom(E1, q) + EdgesFrom(E2, q);
    }
  }

  /** Appending a fresh state. */
  lemma GrowsNewState(g: Graph, h: Graph, k: nat, E: set<(nat, nat)>)
    requires Grows(g, h, k, E) && forall p :: p in E ==> p.0 < |h.eps|
    ensures Grows(g, Graph(h.eps + [{}], h.trans + [map[]], h.accept + [false]), k + 1, E)
  {
    var h' := Graph(h.eps + [{}], h.trans + [map[]], h.accept + [false]);
    forall q | 0 <= q < |h'.eps|
      ensures h'.eps[q] == (if q < |g.eps| then g.eps[q] else {}) + EdgesFrom(E, q)
    {
      if q == |h.eps| {
        assert EdgesFrom(E, q) == {};
      }
    }
  }

  /** Adding the epsilon edge `x -> y`. */
  lemma GrowsAddEps(g: Graph, h: Graph, k: nat, E: set<(nat, nat)>, x: nat, y: nat)
    requires Grows(g, h, k, E) && x < |h.eps|
    ensures Grows(g, Graph(h.eps[x := h.eps[x] + {y}], h.trans, h.accept), k, E + {(x, y)})
  {
    var h' := Graph(h.eps[x := h.eps[x] + {y}], h.trans, h.accept);
    forall q | 0 <= q < |h'.eps|
      ensures h'.eps[q] == (if q < |g.eps| then g.eps[q] else {}) + EdgesFrom(E + {(x, y)}, q)
    {
      assert EdgesFrom(E + {(x, y)}, q) == EdgesFrom(E, q) + (if q == x then {y} else {});
    }
  }

  /** The end of `b` can be reached from the start of `a` through the new edge. */
  lemma ConcatWellFormed(g: Graph, h: Graph, a: Frag, b: Frag)
    requires Valid(g) && Valid(h) && Grows(g, h, 0, {(a.end, b.start)})
    requires WellFormed(g, a) && WellFormed(g, b)
    ensures WellFormed(h, Frag(a.start, b.end))
  {
    GrowsExtends(g, h, 0, {(a.end, b.start)});
    ReachesMono(g, h, a.start, a.end);
    ReachesMono(g, h, b.start, b.end);
    GrowsEdge(g, h, 0, {(a.end, b.start)}, a.end, b.start);
    ReachesTransitive(h, a.start, a.end, b.start);
    ReachesTransitive(h, a.start, b.start, b.end);
  }

  /** The edges from `x` to each state of `ts`. */
  ghost function Pairs(x: nat, ts: set<nat>): set<(nat, nat)> {
    set y | y in ts :: (x, y)
  }

  /** Adding the epsilon edges from `x` to all of `ts`. */
  lemma GrowsAddEpsAll(g: Graph, h: Graph, k: nat, E: set<(nat, nat)>, x: nat, ts: set<nat>)
    requires Grows(g, h, k, E) && x < |h.eps|
    ensures Grows(g, Graph(h.eps[x := h.eps[x] + ts], h.trans, h.accept), k, E + Pairs(x, ts))
  {
    var h' := Graph(h.eps[x := h.eps[x] + ts], h.trans, h.accept);
    forall q | 0 <= q < |h'.eps|
      ensures h'.eps[q] == (if q < |g.eps| then g.eps[q] else {}) + EdgesFrom(E + Pairs(x, ts), q)
    {
      forall y | q == x && y in ts ensures y in EdgesFrom(E + Pairs(x, ts), q) {
        assert (x, y) in Pairs(x, ts);
      }
      assert EdgesFrom(E + Pairs(x, ts), q) == EdgesFrom(E, q) + (if q == x then ts else {});
    }
  }

  /** Two edges from the same state. */
  lemma PairsTwo(x: nat, y: nat, z: nat)
    ensures Pairs(x, {y, z}) == {(x, y), (x, z)}
  {
  }

  /** Reachability through a fragment that the step only grew. */
  lemma PassThrough(g: Graph, h: Graph, k: nat, E: set<(nat, nat)>, x: nat, a: Frag, y: nat)
    requires Valid(g) && Valid(h) && Grows(g, h, k, E) && WellFormed(g, a)
    requires (x, a.start) in E && (a.end, y) in E && x < |h.eps|
    ensures Reaches(h, x, y)
  {
    GrowsExtends(g, h, k, E);
    ReachesMono(g, h, a.start, a.end);
    GrowsEdge(g, h, k, E, x, a.start);
    GrowsEdge(g, h, k, E, a.end, y);
    ReachesTransitive(h, x, a.start, a.end);
    ReachesTransitive(h, x, a.end, y);
  }

  /**
   * What every step of the construction keeps: the arena only grew, and a
   * fragment whose end can be reached from its start stays so.
   */
  lemma GrowsKeeps(g: Graph, h: Graph, k: nat, E: set<(nat, nat)>)
    requires Valid(g) && Valid(h) && Grows(g, h, k, E)
    ensures Extends(g, h)
    ensures NoAccept(g) ==> NoAccept(h)
    ensures forall f :: WellFormed(g, f) ==> WellFormed(h, f)
  {
    GrowsExtends(g, h, k, E);
    forall f | WellFormed(g, f) ensures WellFormed(h, f) {
      WellFormedMono(g, h, f);
    }
  }

  /** The alternation's end can be reached from its start when either alternative's can. */
  lemma AltWellFormed(g: Graph, h: Graph, a: Frag, b: Frag, n: nat)
    requires Valid(g) && Valid(h) && n + 1 < |h.eps|
    requires Grows(g, h, 2, AltEdges(n, a, b))
    ensures WellFormed(g, a) || WellFormed(g, b) ==> WellFormed(h, Frag(n, n + 1))
  {
    var E := AltEdges(n, a, b);
    if WellFormed(g, a) {
      PassThrough(g, h, 2, E, n, a, n + 1);
    } else if WellFormed(g, b) {
      PassThrough(g, h, 2, E, n, b, n + 1);
    }
  }

  /** A direct edge from the start to the end: the fragment also matches nothing at all. */
  lemma SkipEdge(g: Graph, h: Graph, k: nat, E: set<(nat, nat)>, s: nat, e: nat)
    requires Valid(h) && Grows(g, h, k, E) && (s, e) in E && s < |h.eps| && e < |h.eps|
    ensures WellFormed(h, Frag(s, e))
    ensures e in Closure(h, {s})
  {
    GrowsEdge(g, h, k, E, s, e);
    assert e in EdgesFrom(E, s);
  }

  /** The loop edge of `*` and `+`: after one pass through `a`, `a` can start again. */
  lemma LoopEdge(g: Graph, h: Graph, k: nat, E: set<(nat, nat)>, a: Frag)
    requires Valid(h) && Grows(g, h, k, E) && (a.end, a.start) in E && a.end < |h.eps|
    ensures a.start in Closure(h, {a.end})
  {
    assert a.start in EdgesFrom(E, a.end);
  }

  /** `+` reaches its end through `a`. */
  lemma PlusWellFormed(g: Graph, h: Graph, a: Frag, s: nat, e: nat)
    requires Valid(g) && Valid(h) && s < |h.eps| && e < |h.eps| && WellFormed(g, a)
    requires Grows(g, h, 2, {(s, a.start), (a.end, a.start), (a.end, e)})
    ensures WellFormed(h, Frag(s, e))
  {
    PassThrough(g, h, 2, {(s, a.start), (a.end, a.start), (a.end, e)}, s, a, e);
  }

  // ---------------------------------------------------------------------
  // count_frag and range_frag
  // ---------------------------------------------------------------------

  /** Of the states of `g`, only `x` may have gained epsilon edges in `h`. */
  ghost predicate OnlyGains(g: Graph, h: Graph, x: nat) {
    && |g.eps| <= |h.eps|
    && forall q :: 0 <= q < |g.eps| && q != x ==> h.eps[q] == g.eps[q]
  }

  /** The copy touches no old state, and the link leaves from the end of the chain. */
  lemma CountFrame(g: Graph, hA: Graph, hB: Graph, hC: Graph, x: nat, y: nat, z: nat)
    requires OnlyGains(g, hA, x) && Untouched(hA, hB) && Grows(hB, hC, 0, {(y, z)})
    requires y == x || |g.eps| <= y
    ensures OnlyGains(g, hC, x)
  {
    forall q | 0 <= q < |g.eps| && q != x ensures hC.eps[q] == g.eps[q] {
      assert EdgesFrom({(y, z)}, q) == {};
    }
  }

  /** `x.eps.add(y)`, as a growth step. */
  lemma AddEpsGrows(h: Graph, x: nat, y: nat)
    requires Valid(h) && x < |h.eps| && y < |h.eps|
    ensures var h' := Graph(h.eps[x := h.eps[x] + {y}], h.trans, h.accept);
      Valid(h') && Extends(h, h') && Reaches(h', x, y) && (NoAccept(h) ==> NoAccept(h'))
  {
    ReachesEps(Graph(h.eps[x := h.eps[x] + {y}], h.trans, h.accept), x, y);
  }

  /** The special cases: the edges of the two fresh states, read off the edge set. */
  lemma RangeSpecial(g: Graph, h: Graph, a: Frag, E: set<(nat, nat)>, loops: bool)
    requires Valid(g) && Valid(h) && InArena(g, a) && |h.eps| == |g.eps| + 2
    requires Grows(g, h, 2, E)
    requires var n := |g.eps|;
      forall p :: p in E ==> (p.0 == n ==> p == (n, n + 1) || (loops && p == (n, a.start))) && p.0 != n + 1
    requires var n := |g.eps|; (n, n + 1) in E || loops
    requires var n := |g.eps|; loops ==> (n, a.start) in E
    ensures Extends(g, h) && (NoAccept(g) ==> NoAccept(h))
    ensures var n := |g.eps|;
      h.eps[n] == (if (n, n + 1) in E then {n + 1} else {}) + (if loops then {a.start} else {}) && h.eps[n + 1] == {}
  {
    GrowsExtends(g, h, 2, E);
    var n := |g.eps|;
    assert EdgesFrom(E, n + 1) == {};
    assert EdgesFrom(E, n) == (if (n, n + 1) in E then {n + 1} else {}) + (if loops then {a.start} else {});
  }

  /** The tail adds `a.start` to the start state's edges exactly when it begins there. */
  lemma TailKeepsHead(now: set<nat>, before: set<nat>, s: nat, y: nat, current: nat, min: nat)
    requires now == before + (if s == current then {y} else {})
    requires min == 0 ==> current == s
    requires min > 0 ==> current != s && y in before
    ensures now == before + {y}
  {
  }

  /** The tail after `i` rounds: only `a.end` and, from the first round on, `c0` have gained edges. */
  ghost predicate TailSoFar(g: Graph, h: Graph, a: Frag, c0: nat, i: nat) {
    && Valid(h) && Extends(g, h) && |h.eps| == |g.eps| && InArena(g, a) && c0 < |g.eps|
    && (NoAccept(g) ==> NoAccept(h))
    && (i > 0 ==> a.start in h.eps[c0])
    && forall q :: 0 <= q < |h.eps| && q != a.end ==> h.eps[q] == g.eps[q] + (if q == c0 && i > 0 then {a.start} else {})
  }

  // ---------------------------------------------------------------------
  // clone_frag
  // ---------------------------------------------------------------------

  /** The copies of the states of `S` that have one. */
  ghost function Image(m: map<nat, nat>, S: set<nat>): set<nat> {
    set y | y in S && y in m :: m[y]
  }

  /** The copy of a transition table: the same labels, the copied targets. */
  ghost function ImageMap(m: map<nat, nat>, t: map<Label, set<nat>>): map<Label, set<nat>> {
    map l | l in t :: Image(m, t[l])
  }

  /** The copied part of a transition table: only the labels of `L`. */
  ghost function ImageMapOn(m: map<nat, nat>, t: map<Label, set<nat>>, L: set<Label>): map<Label, set<nat>> {
    map l | l in L && l in t :: Image(m, t[l])
  }

  /** `m` extends `m0`. */
  ghost predicate Extended(m0: map<nat, nat>, m: map<nat, nat>) {
    forall x :: x in m0 ==> x in m && m[x] == m0[x]
  }

  /**
   * State `x` of the original graph `g0` is completely copied in `h`: all
   * its successors have copies, and its copy has exactly the copied edges.
   */
  ghost predicate Copied(g0: Graph, h: Graph, m: map<nat, nat>, x: nat) {
    && x in m && x < |g0.eps| && x < |g0.trans| && m[x] < |h.eps| && m[x] < |h.trans|
    && (forall y :: y in g0.eps[x] ==> y in m)
    && (forall l, y :: l in g0.trans[x] && y in g0.trans[x][l] ==> y in m)
    && h.eps[m[x]] == Image(m, g0.eps[x])
    && h.trans[m[x]] == ImageMap(m, g0.trans[x])
  }

  /** The states of `g0` are untouched in `h`, which only has states appended. */
  ghost predicate Untouched(g0: Graph, h: Graph) {
    && |g0.eps| <= |h.eps| && |h.trans| == |h.eps| && |h.accept| == |h.eps|
    && |g0.trans| == |g0.eps| && |g0.accept| == |g0.eps|
    && forall q :: 0 <= q < |g0.eps| ==> h.eps[q] == g0.eps[q] && h.trans[q] == g0.trans[q] && h.accept[q] == g0.accept[q]
  }

  /**
   * The copies are the states appended after `g0`, one per original state,
   * in the order `origin` of their creation, each with its original's flag.
   */
  ghost predicate Numbering(g0: Graph, h: Graph, m: map<nat, nat>, origin: seq<nat>) {
    && |h.eps| == |g0.eps| + |origin| && |h.accept| == |h.eps| && |g0.accept| == |g0.eps|
    && (forall i :: 0 <= i < |origin| ==> origin[i] in m && m[origin[i]] == |g0.eps| + i)
    && (forall x :: x in m ==>
          && x < |g0.eps| && |g0.eps| <= m[x] < |h.eps|
          && origin[m[x] - |g0.eps|] == x && h.accept[m[x]] == g0.accept[x])
  }

  /**
   * The invariant of `clone_state`: `m` is `state_map`, `P` the states whose
   * copies are still being filled in (the recursion stack), every other
   * mapped state is completely copied, and everything mapped is reachable
   * from `root`.
   */
  ghost predicate CloneInv(g0: Graph, h: Graph, m: map<nat, nat>, origin: seq<nat>, P: set<nat>, root: nat) {
    && Valid(g0) && Untouched(g0, h) && Numbering(g0, h, m, origin)
    && (forall x :: x in m ==> Reaches(g0, root, x))
    && (forall x :: x in P ==> x in m)
    && (forall x :: x in m && x !in P ==> Copied(g0, h, m, x))
  }

  /** Copies are told apart by their originals. */
  lemma NumberingInjective(g0: Graph, h: Graph, m: map<nat, nat>, origin: seq<nat>, x: nat, y: nat)
    requires Numbering(g0, h, m, origin) && x in m && y in m && x != y
    ensures m[x] != m[y]
  {
  }

  /** Extending the map leaves the image of mapped states alone. */
  lemma ImageExtended(m0: map<nat, nat>, m: map<nat, nat>, S: set<nat>)
    requires Extended(m0, m) && forall y :: y in S ==> y in m0
    ensures Image(m, S) == Image(m0, S)
  {
  }

  /** One more mapped state adds its copy to the image. */
  lemma ImageAdd(m: map<nat, nat>, S: set<nat>, y: nat)
    requires y in m
    ensures Image(m, S + {y}) == Image(m, S) + {m[y]}
  {
  }

  /** A completely copied state stays so while the map grows and other states change. */
  lemma CopiedStable(g0: Graph, h: Graph, h': Graph, m0: map<nat, nat>, m: map<nat, nat>, x: nat)
    requires Copied(g0, h, m0, x) && Extended(m0, m)
    requires m0[x] < |h'.eps| && m0[x] < |h'.trans|
    requires h'.eps[m0[x]] == h.eps[m0[x]] && h'.trans[m0[x]] == h.trans[m0[x]]
    ensures Copied(g0, h', m, x)
  {
    ImageExtended(m0, m, g0.eps[x]);
    forall l | l in g0.trans[x] ensures Image(m, g0.trans[x][l]) == Image(m0, g0.trans[x][l]) {
      ImageExtended(m0, m, g0.trans[x][l]);
    }
    assert ImageMap(m, g0.trans[x]) == ImageMap(m0, g0.trans[x]);
  }

  /** `new_s = State(); new_s.accept = s.accept; state_map[s] = new_s`. */
  lemma InvNewState(g0: Graph, h: Graph, m: map<nat, nat>, origin: seq<nat>, P: set<nat>, root: nat, s: nat, h': Graph)
    requires CloneInv(g0, h, m, origin, P, root) && s < |g0.eps| && s !in m && Reaches(g0, root, s)
    requires h' == Graph(h.eps + [{}], h.trans + [map[]], h.accept + [g0.accept[s]])
    ensures CloneInv(g0, h', m[s := |h.eps|], origin + [s], P + {s}, root)
  {
    var m' := m[s := |h.eps|];
    forall x | x in m' && x !in P + {s} ensures Copied(g0, h', m', x) {
      CopiedStable(g0, h, h', m, m', x);
    }
    var o' := origin + [s];
    forall i | 0 <= i < |o'| ensures o'[i] in m' && m'[o'[i]] == |g0.eps| + i {
      if i < |origin| {
        assert o'[i] == origin[i];
      }
    }
  }

  /** Changing the copy of a state still on the recursion stack keeps the invariant. */
  lemma InvTouchPending(g0: Graph, h: Graph, m: map<nat, nat>, origin: seq<nat>, P: set<nat>, root: nat, s: nat, h': Graph)
    requires CloneInv(g0, h, m, origin, P, root) && s in P
    requires |h'.eps| == |h.eps| && |h'.trans| == |h.trans| && h'.accept == h.accept
    requires forall q :: 0 <= q < |h.eps| && q != m[s] ==> h'.eps[q] == h.eps[q] && h'.trans[q] == h.trans[q]
    ensures CloneInv(g0, h', m, origin, P, root)
  {
    forall x | x in m && x !in P ensures Copied(g0, h', m, x) {
      NumberingInjective(g0, h, m, origin, x, s);
      CopiedStable(g0, h, h', m, m, x);
    }
  }

  /**
   * Setting label `l` on a copy that so far holds the copied labels `done`:
   * it carries no other label, and afterwards holds the copied `done + {l}`.
   */
  lemma SetLabelOk(g0: Graph, s: nat, l: Label, done: set<Label>, m0: map<nat, nat>, m: map<nat, nat>, h: Graph, ns: nat)
    requires Valid(g0) && s < |g0.eps| && l in g0.trans[s] && l !in done && done <= g0.trans[s].Keys
    requires Extended(m0, m) && forall l', y :: l' in done && y in g0.trans[s][l'] ==> y in m0
    requires ns < |h.trans| && h.trans[ns] == ImageMapOn(m0, g0.trans[s], done)
    ensures h.trans[ns].Keys <= {l}
    ensures h.trans[ns][l := Image(m, g0.trans[s][l])] == ImageMapOn(m, g0.trans[s], done + {l})
  {
    forall l' | l' in done ensures Image(m, g0.trans[s][l']) == Image(m0, g0.trans[s][l']) {
      ImageExtended(m0, m, g0.trans[s][l']);
    }
  }

  /** `h` is `h0` with states appended and, of the old ones, only the epsilon edges of `q` changed. */
  ghost predicate UntouchedBut(h0: Graph, h: Graph, q: nat) {
    && |h0.eps| <= |h.eps| && |h.trans| == |h.eps| && |h.accept| == |h.eps|
    && |h0.trans| == |h0.eps| && |h0.accept| == |h0.eps|
    && (forall r :: 0 <= r < |h0.eps| && r != q ==> h.eps[r] == h0.eps[r])
    && (forall r :: 0 <= r < |h0.eps| ==> h.trans[r] == h0.trans[r] && h.accept[r] == h0.accept[r])
  }

  /** Registering `s` in `state_map` brings the recursion closer to its end. */
  lemma MapGrows(A: set<nat>, m: map<nat, nat>, m1: map<nat, nat>, m2: map<nat, nat>, s: nat)
    requires s in A && s !in m && s in m1 && Extended(m, m1) && Extended(m1, m2)
    ensures A - m2.Keys < A - m.Keys
  {
    assert s in A - m.Keys && s !in A - m2.Keys;
  }

  lemma ExtendedTransitive(m0: map<nat, nat>, m1: map<nat, nat>, m2: map<nat, nat>)
    requires Extended(m0, m1) && Extended(m1, m2)
    ensures Extended(m0, m2)
  {
  }

  /** Extending the map never brings back a state that was already copied. */
  lemma MapKeeps(A: set<nat>, m: map<nat, nat>, m': map<nat, nat>)
    requires Extended(m, m')
    ensures A - m'.Keys <= A - m.Keys
  {
  }

  lemma UntouchedRefl(h: Graph)
    requires Valid(h)
    ensures Untouched(h, h)
  {
  }

  /** Of the states before `new_s`, none changed while it was filled in. */
  lemma StateUntouched(h0: Graph, h1: Graph, h2: Graph, h3: Graph, ns: nat)
    requires Untouched(h0, h1) && ns == |h0.eps|
    requires UntouchedBut(h1, h2, ns) && KeptBut(h2, h3, ns)
    ensures Untouched(h0, h3)
  {
  }

  /** A state leaving the recursion stack completely copied keeps the invariant. */
  lemma PopPending(g0: Graph, h: Graph, m: map<nat, nat>, origin: seq<nat>, P: set<nat>, root: nat, s: nat)
    requires CloneInv(g0, h, m, origin, P + {s}, root) && Copied(g0, h, m, s)
    ensures CloneInv(g0, h, m, origin, P, root)
  {
    forall x | x in m && x !in P ensures Copied(g0, h, m, x) {
      if x != s {
        assert x !in P + {s};
      }
    }
  }

  /** The copy of `s` holds the copies of its epsilon successors visited so far (those not in `todo`). */
  ghost predicate EpsProgress(g0: Graph, h: Graph, m: map<nat, nat>, s: nat, ns: nat, todo: set<nat>)
  {
    && s < |g0.eps| && ns < |h.eps|
    && todo <= g0.eps[s] && (forall y :: y in g0.eps[s] - todo ==> y in m)
    && h.eps[ns] == Image(m, g0.eps[s] - todo)
  }

  lemma UntouchedButRefl(h: Graph, q: nat)
    requires Valid(h)
    ensures UntouchedBut(h, h, q)
  {
  }

  /** One round of the loop of `CloneEps`, after the successor `y` was copied and linked. */
  lemma EpsLoopStep(g0: Graph, h0: Graph, hA: Graph, hB: Graph, hC: Graph, m: map<nat, nat>, m0: map<nat, nat>, m': map<nat, nat>,
                    origin': seq<nat>, P: set<nat>, root: nat, s: nat, ns: nat, todo: set<nat>, y: nat)
    requires EpsProgress(g0, hA, m0, s, ns, todo) && y in todo && UntouchedBut(h0, hA, ns) && ns < |h0.eps|
    requires Extended(m, m0) && Extended(m0, m') && y in m' && s in P && s in m' && m'[s] == ns
    requires CloneInv(g0, hB, m', origin', P, root) && Untouched(hA, hB)
    requires hC == Graph(hB.eps[ns := hB.eps[ns] + {m'[y]}], hB.trans, hB.accept)
    ensures CloneInv(g0, hC, m', origin', P, root) && Extended(m, m')
    ensures UntouchedBut(h0, hC, ns)
    ensures EpsProgress(g0, hC, m', s, ns, todo - {y})
  {
    EpsProgressStep(g0, hA, hB, hC, m0, m', s, ns, todo, y);
    InvTouchPending(g0, hB, m', origin', P, root, s, hC);
    UntouchedButStep(h0, hA, hB, hC, ns);
  }

  /** Linking the copy of `s` changes, among the old states, only the copy itself. */
  lemma UntouchedButStep(h0: Graph, hA: Graph, hB: Graph, hC: Graph, ns: nat)
    requires UntouchedBut(h0, hA, ns) && Untouched(hA, hB) && ns < |hB.eps|
    requires |hC.eps| == |hB.eps| && hC.eps == hB.eps[ns := hC.eps[ns]] && hC.trans == hB.trans && hC.accept == hB.accept
    ensures UntouchedBut(h0, hC, ns)
  {
  }

  /** The successor `y` joins the copied ones. */
  lemma EpsProgressStep(g0: Graph, hA: Graph, hB: Graph, hC: Graph, m0: map<nat, nat>, m': map<nat, nat>,
                        s: nat, ns: nat, todo: set<nat>, y: nat)
    requires EpsProgress(g0, hA, m0, s, ns, todo) && y in todo && Extended(m0, m') && y in m'
    requires Untouched(hA, hB) && hC == Graph(hB.eps[ns := hB.eps[ns] + {m'[y]}], hB.trans, hB.accept)
    ensures EpsProgress(g0, hC, m', s, ns, todo - {y})
  {
    var done := g0.eps[s] - todo;
    ImageExtended(m0, m', done);
    ImageAdd(m', done, y);
    assert g0.eps[s] - (todo - {y}) == done + {y};
  }

  /** The set `ts` holds the copies of the targets of label `l` of `s` visited so far (those not in `todo`). */
  ghost predicate TargetsProgress(g0: Graph, m: map<nat, nat>, s: nat, l: Label, todo: set<nat>, ts: set<nat>) {
    && s < |g0.trans| && l in g0.trans[s]
    && todo <= g0.trans[s][l] && (forall y :: y in g0.trans[s][l] - todo ==> y in m)
    && ts == Image(m, g0.trans[s][l] - todo)
  }

  lemma TargetsStart(g0: Graph, m: map<nat, nat>, s: nat, l: Label)
    requires s < |g0.trans| && l in g0.trans[s]
    ensures TargetsProgress(g0, m, s, l, g0.trans[s][l], {})
  {
    assert g0.trans[s][l] - g0.trans[s][l] == {};
  }

  /** One round of the loop of `CloneTargets`, after the target `y` was copied. */
  lemma TargetsLoopStep(g0: Graph, h0: Graph, hA: Graph, hB: Graph, m: map<nat, nat>, m0: map<nat, nat>, m': map<nat, nat>,
                        s: nat, l: Label, todo: set<nat>, y: nat, ts: set<nat>)
    requires TargetsProgress(g0, m0, s, l, todo, ts) && y in todo
    requires Extended(m, m0) && Extended(m0, m') && y in m'
    requires Untouched(h0, hA) && Untouched(hA, hB)
    ensures Extended(m, m') && Untouched(h0, hB)
    ensures TargetsProgress(g0, m', s, l, todo - {y}, ts + {m'[y]})
  {
    var done := g0.trans[s][l] - todo;
    ImageExtended(m0, m', done);
    ImageAdd(m', done, y);
    assert g0.trans[s][l] - (todo - {y}) == done + {y};
  }

  /** `h` is `h0` with states appended, and of the old ones only `q` changed, keeping its flag. */
  ghost predicate KeptBut(h0: Graph, h: Graph, q: nat) {
    && |h0.eps| <= |h.eps| && |h.trans| == |h.eps| && |h.accept| == |h.eps|
    && |h0.trans| == |h0.eps| && |h0.accept| == |h0.eps| && q < |h0.eps|
    && (forall r :: 0 <= r < |h0.eps| && r != q ==> h.eps[r] == h0.eps[r] && h.trans[r] == h0.trans[r])
    && (forall r :: 0 <= r < |h0.eps| ==> h.accept[r] == h0.accept[r])
  }

  /** The copy of `s` holds its copied epsilon edges and the copied labels not in `labels`. */
  ghost predicate TransProgress(g0: Graph, h: Graph, m: map<nat, nat>, s: nat, ns: nat, labels: set<Label>) {
    && s < |g0.eps| && s < |g0.trans| && ns < |h.eps| && ns < |h.trans|
    && labels <= g0.trans[s].Keys
    && (forall y :: y in g0.eps[s] ==> y in m)
    && (forall l, y :: l in g0.trans[s] && l !in labels && y in g0.trans[s][l] ==> y in m)
    && h.eps[ns] == Image(m, g0.eps[s])
    && h.trans[ns] == ImageMapOn(m, g0.trans[s], g0.trans[s].Keys - labels)
  }

  lemma TransStart(g0: Graph, h: Graph, m: map<nat, nat>, s: nat, ns: nat)
    requires Valid(h) && s < |g0.eps| && |g0.trans| == |g0.eps| && ns < |h.eps| && h.trans[ns] == map[]
    requires (forall y :: y in g0.eps[s] ==> y in m) && h.eps[ns] == Image(m, g0.eps[s])
    ensures KeptBut(h, h, ns) && TransProgress(g0, h, m, s, ns, g0.trans[s].Keys)
  {
    assert ImageMapOn(m, g0.trans[s], g0.trans[s].Keys - g0.trans[s].Keys) == map[];
  }

  /** Before `new_s.trans[l] = ts`: no other label is there yet, and the targets exist. */
  lemma TransBeforeSet(g0: Graph, hA: Graph, hB: Graph, m0: map<nat, nat>, m': map<nat, nat>, origin': seq<nat>,
                       s: nat, ns: nat, labels: set<Label>, l: Label, ts: set<nat>)
    requires Valid(g0) && TransProgress(g0, hA, m0, s, ns, labels) && l in labels
    requires Untouched(hA, hB) && Extended(m0, m') && Numbering(g0, hB, m', origin')
    requires ts == Image(m', g0.trans[s][l]) && (forall y :: y in g0.trans[s][l] ==> y in m')
    ensures hB.trans[ns].Keys <= {l} && InRange(hB, ts)
    ensures hB.trans[ns][l := ts] == ImageMapOn(m', g0.trans[s], (g0.trans[s].Keys - labels) + {l})
  {
    SetLabelOk(g0, s, l, g0.trans[s].Keys - labels, m0, m', hB, ns);
  }

  /** One round of the loop of `CloneTrans`, after the label `l` was copied. */
  lemma TransLoopStep(g0: Graph, h0: Graph, hA: Graph, hB: Graph, hC: Graph, m: map<nat, nat>, m0: map<nat, nat>, m': map<nat, nat>,
                      origin': seq<nat>, P: set<nat>, root: nat, s: nat, ns: nat, labels: set<Label>, l: Label, ts: set<nat>)
    requires TransProgress(g0, hA, m0, s, ns, labels) && l in labels && KeptBut(h0, hA, ns)
    requires Extended(m, m0) && Extended(m0, m') && s in P && s in m' && m'[s] == ns
    requires CloneInv(g0, hB, m', origin', P, root) && Untouched(hA, hB)
    requires (forall y :: y in g0.trans[s][l] ==> y in m')
    requires hB.trans[ns][l := ts] == ImageMapOn(m', g0.trans[s], (g0.trans[s].Keys - labels) + {l})
    requires hC == Graph(hB.eps, hB.trans[ns := hB.trans[ns][l := ts]], hB.accept)
    ensures CloneInv(g0, hC, m', origin', P, root) && Extended(m, m')
    ensures KeptBut(h0, hC, ns)
    ensures TransProgress(g0, hC, m', s, ns, labels - {l})
  {
    TransProgressStep(g0, hA, hB, hC, m0, m', s, ns, labels, l, ts);
    InvTouchPending(g0, hB, m', origin', P, root, s, hC);
    KeptButStep(h0, hA, hB, hC.trans[ns], ns);
  }

  /** Relabelling the copy of `s` changes, among the old states, only the copy itself. */
  lemma KeptButStep(h0: Graph, hA: Graph, hB: Graph, tr: map<Label, set<nat>>, ns: nat)
    requires KeptBut(h0, hA, ns) && Untouched(hA, hB) && ns < |hB.eps|
    ensures KeptBut(h0, Graph(hB.eps, hB.trans[ns := tr], hB.accept), ns)
  {
  }

  /** The label `l` joins the copied ones. */
  lemma TransProgressStep(g0: Graph, hA: Graph, hB: Graph, hC: Graph, m0: map<nat, nat>, m': map<nat, nat>,
                          s: nat, ns: nat, labels: set<Label>, l: Label, ts: set<nat>)
    requires TransProgress(g0, hA, m0, s, ns, labels) && l in labels && Extended(m0, m') && Untouched(hA, hB)
    requires (forall y :: y in g0.trans[s][l] ==> y in m')
    requires hB.trans[ns][l := ts] == ImageMapOn(m', g0.trans[s], (g0.trans[s].Keys - labels) + {l})
    requires hC == Graph(hB.eps, hB.trans[ns := hB.trans[ns][l := ts]], hB.accept)
    ensures TransProgress(g0, hC, m', s, ns, labels - {l})
  {
    ImageExtended(m0, m', g0.eps[s]);
    assert g0.trans[s].Keys - (labels - {l}) == (g0.trans[s].Keys - labels) + {l};
  }

  /** After the last label the copy of `s` is complete. */
  lemma TransEnd(g0: Graph, h: Graph, m: map<nat, nat>, s: nat, ns: nat)
    requires TransProgress(g0, h, m, s, ns, {}) && s in m && m[s] == ns
    ensures Copied(g0, h, m, s)
  {
    assert ImageMapOn(m, g0.trans[s], g0.trans[s].Keys - {}) == ImageMap(m, g0.trans[s]);
  }

  // ---------------------------------------------------------------------
  // count_frag: rounds of copying
  // ---------------------------------------------------------------------

  /**
   * One round of `result = concat_frag(result, clone_frag(a))`, from `hA`
   * to `h` with the result `prev` before and `f` after: the copy under `m`
   * of what is reachable from `a.start` is appended (graph `hB`), and the
   * end of the chain is linked to the start of the copy.
   */
  ghost predicate CountRound(hA: Graph, hB: Graph, h: Graph, a: Frag, m: map<nat, nat>, prev: Frag, f: Frag) {
    && Untouched(hA, hB) && IsCopy(hA, hB, m, a.start) && a.end in m
    && Grows(hB, h, 0, {(prev.end, m[a.start])})
    && f == Frag(prev.start, m[a.end])
  }

  /** The graph before a round, the graph after its copy, the copy's numbering and the result before it. */
  datatype Round = Round(before: Graph, copied: Graph, m: map<nat, nat>, prev: Frag)

  /**
   * The rounds `rs`, starting from `result = a` in `g`, end in `h` with
   * `result == f`.  Each round copies what is reachable from `a.start` in
   * the graph of that moment, which from the second round on includes the
   * copies already linked in.
   */
  ghost predicate CountChain(g: Graph, h: Graph, a: Frag, rs: seq<Round>, f: Frag)
    decreases |rs|
  {
    if rs == [] then h == g && f == a
    else
      var r := rs[|rs| - 1];
      CountChain(g, r.before, a, rs[..|rs| - 1], r.prev) && CountRound(r.before, r.copied, h, a, r.m, r.prev, f)
  }

  /** `count_frag(a, count)` for `count > 0`: `count - 1` rounds. */
  ghost predicate CountBuilt(g: Graph, h: Graph, a: Frag, count: int, f: Frag) {
    count > 0 && exists rs: seq<Round> :: |rs| == count - 1 && CountChain(g, h, a, rs, f)
  }

  /**
   * `h` holds a copy of everything reachable from `root` in `g0`, under
   * `m`: exactly the reachable states are copied, each completely, to
   * distinct fresh states appended after `g0`, which are all copies, with
   * the flags of their originals.
   */
  ghost predicate IsCopy(g0: Graph, h: Graph, m: map<nat, nat>, root: nat) {
    && |g0.accept| == |g0.eps| && |h.accept| == |h.eps|
    && (forall x :: x in m <==> Reaches(g0, root, x))
    && (forall x :: x in m ==> Copied(g0, h, m, x))
    && (forall x :: x in m ==> |g0.eps| <= m[x] < |h.eps| && h.accept[m[x]] == g0.accept[x])
    && (forall x, y :: x in m && y in m && x != y ==> m[x] != m[y])
    && (forall q :: |g0.eps| <= q < |h.eps| ==> q in m.Values)
  }

  /** When the recursion is over every reachable state is copied, and nothing else. */
  lemma CloneDone(g0: Graph, h: Graph, m: map<nat, nat>, origin: seq<nat>, root: nat)
    requires CloneInv(g0, h, m, origin, {}, root) && root in m
    ensures IsCopy(g0, h, m, root)
  {
    assert Closed(g0, m.Keys) by {
      forall q | q in m.Keys && q < |g0.eps| && q < |g0.trans|
        ensures g0.eps[q] <= m.Keys && forall l :: l in g0.trans[q] ==> g0.trans[q][l] <= m.Keys
      {
        assert Copied(g0, h, m, q);
      }
    }
    forall x, y | x in m && y in m && x != y ensures m[x] != m[y] {
      NumberingInjective(g0, h, m, origin, x, y);
    }
    forall q | |g0.eps| <= q < |h.eps| ensures q in m.Values {
      var x := origin[q - |g0.eps|];
      assert x in m && m[x] == q;
    }
  }

  /** The copy only adds states, and adds no accepting one unless copied from one. */
  lemma CloneExtends(g0: Graph, h: Graph, m: map<nat, nat>, root: nat)
    requires Valid(g0) && Valid(h) && Untouched(g0, h) && IsCopy(g0, h, m, root)
    ensures Extends(g0, h)
    ensures NoAccept(g0) ==> NoAccept(h)
  {
    if NoAccept(g0) {
      forall q | 0 <= q < |h.accept| ensures !h.accept[q] {
        if q >= |g0.eps| {
          assert q in m.Values;
          var x :| x in m && m[x] == q;
        }
      }
    }
  }

  /**
   * A well-formed fragment is copied to a well-formed fragment: a path
   * from `a.start` to `a.end` is mapped edge by edge to a path between the
   * copies.
   */
  lemma CloneWellFormed(g0: Graph, h: Graph, m: map<nat, nat>, a: Frag)
    requires Valid(g0) && IsCopy(g0, h, m, a.start) && WellFormed(g0, a)
    ensures a.end in m && WellFormed(h, Frag(m[a.start], m[a.end]))
  {
    ReachesRefl(g0, a.start);
    forall T | m[a.start] in T && Closed(h, T) ensures m[a.end] in T {
      var pre := set x | x in m && m[x] in T;
      forall q | q in pre && q < |g0.eps| && q < |g0.trans|
        ensures g0.eps[q] <= pre && forall l :: l in g0.trans[q] ==> g0.trans[q][l] <= pre
      {
        assert Copied(g0, h, m, q);
        forall y | y in g0.eps[q] ensures y in pre {
          assert m[y] in h.eps[m[q]];
        }
        forall l, y | l in g0.trans[q] && y in g0.trans[q][l] ensures y in pre {
          assert m[y] in h.trans[m[q]][l];
        }
      }
      assert Closed(g0, pre);
    }
  }
}
