/**
 * The automaton graph as a value: the `State` objects of
 * pinyin_regex/engine.py laid out in an arena, a state being its index.
 * Holds epsilon-closure (its specification), reachability and the
 * "only grows" relation between two moments of construction.
 */
module Automaton {
  import opened Labels

  /**
   * State `q` has epsilon successors `eps[q]`, labelled successors
   * `trans[q]` (label to target set) and the flag `accept[q]`.
   */
  datatype Graph = Graph(eps: seq<set<nat>>, trans: seq<map<Label, set<nat>>>, accept: seq<bool>)

  /** Every state of `S` exists in `g`. */
  ghost predicate InRange(g: Graph, S: set<nat>) {
    forall q :: q in S ==> q < |g.eps|
  }

  /**
   * Well-formedness: the three attributes per state, edges pointing at
   * existing states, and at most one label per state (only `literal_frag`
   * and `clone_frag` ever write `trans`, each on a fresh state).
   */
  ghost predicate Valid(g: Graph) {
    && |g.trans| == |g.eps|
    && |g.accept| == |g.eps|
    && (forall q :: 0 <= q < |g.eps| ==> InRange(g, g.eps[q]))
    && (forall q, l :: 0 <= q < |g.eps| && l in g.trans[q] ==> g.trans[q].Keys == {l})
    && (forall q, l :: 0 <= q < |g.eps| && l in g.trans[q] ==> InRange(g, g.trans[q][l]))
  }

  /** The numbers below `n`. */
  ghost function Below(n: nat): (r: set<nat>)
    ensures forall q: int :: q in r <==> 0 <= q < n
  {
    if n == 0 then {} else Below(n - 1) + {n - 1}
  }

  /** All states of `g`. */
  ghost function AllStates(g: Graph): set<nat> {
    Below(|g.eps|)
  }

  /** No state is accepting (the situation throughout construction). */
  ghost predicate NoAccept(g: Graph) {
    forall q :: 0 <= q < |g.accept| ==> !g.accept[q]
  }

  /** Some state of `S` is accepting: Python's `any(s.accept for s in S)`. */
  predicate AcceptsAny(g: Graph, S: set<nat>)
    requires Valid(g) && InRange(g, S)
  {
    exists q :: q in S && g.accept[q]
  }

  // ---------------------------------------------------------------------
  // Epsilon closure
  // ---------------------------------------------------------------------

  /** `T` is closed under epsilon edges. */
  ghost predicate EpsClosed(g: Graph, T: set<nat>) {
    forall q :: q in T && q < |g.eps| ==> g.eps[q] <= T
  }

  /** The epsilon successors of the states of `S`. */
  ghost function EpsStep(g: Graph, S: set<nat>): set<nat> {
    set q, t | q in S && q < |g.eps| && t in g.eps[q] :: t
  }

  /**
   * The epsilon closure of `S`, by iteration to a fixed point.  It is the
   * least epsilon-closed set containing `S`.
   */
  ghost function Closure(g: Graph, S: set<nat>): (c: set<nat>)
    requires Valid(g) && InRange(g, S)
    ensures S <= c && InRange(g, c) && EpsClosed(g, c)
    decreases AllStates(g) - S
  {
    var next := S + EpsStep(g, S);
    if next == S then S
    else
      StepShrinksRest(g, S);
      Closure(g, next)
  }

  /** The closure is the least epsilon-closed set containing `S`. */
  lemma {:induction false} ClosureLeast(g: Graph, S: set<nat>, T: set<nat>)
    requires Valid(g) && InRange(g, S) && S <= T && EpsClosed(g, T)
    ensures Closure(g, S) <= T
    decreases AllStates(g) - S
  {
    var next := S + EpsStep(g, S);
    if next != S {
      StepShrinksRest(g, S);
      assert next <= T;
      ClosureLeast(g, next, T);
    }
  }

  /** Closure is monotone. */
  lemma ClosureMono(g: Graph, A: set<nat>, B: set<nat>)
    requires Valid(g) && InRange(g, B) && A <= B
    ensures Closure(g, A) <= Closure(g, B)
  {
    ClosureLeast(g, A, Closure(g, B));
  }

  /** Closing twice changes nothing, and the closure of nothing is empty. */
  lemma ClosureIdempotent(g: Graph, S: set<nat>)
    requires Valid(g) && InRange(g, S)
    ensures Closure(g, Closure(g, S)) == Closure(g, S)
    ensures Closure(g, {}) == {}
  {
    var c := Closure(g, S);
    ClosureLeast(g, c, c);
    var e: set<nat> := {};
    ClosureLeast(g, e, e);
  }

  /** `path` follows epsilon edges from its first state to its last. */
  ghost predicate EpsPath(g: Graph, path: seq<nat>) {
    forall k :: 0 <= k < |path| - 1 ==> path[k] < |g.eps| && path[k + 1] in g.eps[path[k]]
  }

  /** `q` can be reached from a state of `S` along epsilon edges alone. */
  ghost predicate EpsReachable(g: Graph, S: set<nat>, q: nat) {
    exists path :: |path| > 0 && path[0] in S && path[|path| - 1] == q && EpsPath(g, path)
  }

  /**
   * The closure holds exactly the states epsilon-reachable from `S`:
   * everything reachable is in it, and nothing else is.
   */
  lemma ClosureIsReachable(g: Graph, S: set<nat>, q: nat)
    requires Valid(g) && InRange(g, S)
    ensures q in Closure(g, S) <==> EpsReachable(g, S, q)
  {
    if q in Closure(g, S) {
      ClosureOnlyReachable(g, S, q);
    }
    if EpsReachable(g, S, q) {
      var path :| |path| > 0 && path[0] in S && path[|path| - 1] == q && EpsPath(g, path);
      PathStaysInClosure(g, S, path, |path| - 1);
    }
  }

  /** Following the fixed-point iteration: every state it adds has an epsilon path from `S`. */
  lemma ClosureOnlyReachable(g: Graph, S: set<nat>, q: nat)
    requires Valid(g) && InRange(g, S) && q in Closure(g, S)
    ensures EpsReachable(g, S, q)
    decreases AllStates(g) - S
  {
    var next := S + EpsStep(g, S);
    if next == S {
      assert [q][0] in S && EpsPath(g, [q]);
    } else {
      StepShrinksRest(g, S);
      ClosureOnlyReachable(g, next, q);
      var path :| |path| > 0 && path[0] in next && path[|path| - 1] == q && EpsPath(g, path);
      if path[0] !in S {
        var r :| r in S && r < |g.eps| && path[0] in g.eps[r];
        PrependEdge(g, r, path);
        var longer := [r] + path;
        assert |longer| > 0 && longer[0] in S && longer[|longer| - 1] == q && EpsPath(g, longer);
      }
    }
  }

  /** An iteration step that adds a state moves strictly closer to the fixed point. */
  lemma StepShrinksRest(g: Graph, S: set<nat>)
    requires Valid(g) && InRange(g, S) && S + EpsStep(g, S) != S
    ensures AllStates(g) - (S + EpsStep(g, S)) < AllStates(g) - S
  {
    var x :| x in S + EpsStep(g, S) && x !in S;
    assert x in AllStates(g) - S;
  }

  /** An epsilon edge in front of an epsilon path gives a longer one. */
  lemma PrependEdge(g: Graph, r: nat, path: seq<nat>)
    requires |path| > 0 && EpsPath(g, path) && r < |g.eps| && path[0] in g.eps[r]
    ensures EpsPath(g, [r] + path)
  {
    var longer := [r] + path;
    forall k | 0 <= k < |longer| - 1
      ensures longer[k] < |g.eps| && longer[k + 1] in g.eps[longer[k]]
    {
      if k > 0 {
        assert longer[k] == path[k - 1] && longer[k + 1] == path[k];
      }
    }
  }

  /** Each state of an epsilon path starting in `S` lies in the closure of `S`. */
  lemma {:induction false} PathStaysInClosure(g: Graph, S: set<nat>, path: seq<nat>, k: nat)
    requires Valid(g) && InRange(g, S)
    requires |path| > 0 && path[0] in S && EpsPath(g, path) && k < |path|
    ensures path[k] in Closure(g, S)
  {
    if k > 0 {
      PathStaysInClosure(g, S, path, k - 1);
      assert path[k] in g.eps[path[k - 1]];
    }
  }

  // ---------------------------------------------------------------------
  // Reachability along any edge, and growth of the graph
  // ---------------------------------------------------------------------

  /** `T` is closed under epsilon and labelled edges. */
  ghost predicate Closed(g: Graph, T: set<nat>) {
    forall q :: q in T && q < |g.eps| && q < |g.trans| ==>
      g.eps[q] <= T && forall l :: l in g.trans[q] ==> g.trans[q][l] <= T
  }

  /** `y` is reachable from `x` along edges of any kind. */
  ghost predicate Reaches(g: Graph, x: nat, y: nat) {
    forall T {:trigger Closed(g, T)} :: x in T && Closed(g, T) ==> y in T
  }

  lemma ReachesRefl(g: Graph, x: nat)
    ensures Reaches(g, x, x)
  {
  }

  /** One epsilon edge is a path. */
  lemma ReachesEps(g: Graph, x: nat, y: nat)
    requires x < |g.eps| && x < |g.trans| && y in g.eps[x]
    ensures Reaches(g, x, y)
  {
  }

  /** One labelled edge is a path. */
  lemma ReachesLabel(g: Graph, x: nat, l: Label, y: nat)
    requires x < |g.eps| && x < |g.trans| && l in g.trans[x] && y in g.trans[x][l]
    ensures Reaches(g, x, y)
  {
  }

  lemma ReachesTransitive(g: Graph, x: nat, y: nat, z: nat)
    requires Reaches(g, x, y) && Reaches(g, y, z)
    ensures Reaches(g, x, z)
  {
  }

  /**
   * `h` is `g` after construction steps: states are only appended, old
   * states only gain epsilon edges, and their labels and flags stay.
   */
  ghost predicate Extends(g: Graph, h: Graph) {
    && Valid(g) && Valid(h)
    && |g.eps| <= |h.eps|
    && forall q :: 0 <= q < |g.eps| ==>
         g.eps[q] <= h.eps[q] && g.trans[q] == h.trans[q] && g.accept[q] == h.accept[q]
  }

  lemma ExtendsRefl(g: Graph)
    requires Valid(g)
    ensures Extends(g, g)
  {
  }

  lemma ExtendsTransitive(f: Graph, g: Graph, h: Graph)
    requires Extends(f, g) && Extends(g, h)
    ensures Extends(f, h)
  {
  }

  /** Adding states and edges never breaks a path. */
  lemma ReachesMono(g: Graph, h: Graph, x: nat, y: nat)
    requires Extends(g, h) && Reaches(g, x, y)
    ensures Reaches(h, x, y)
  {
    forall T | x in T && Closed(h, T) ensures y in T {
      assert Closed(g, T);
    }
  }

  /** A fragment: the entry and exit state of a sub-automaton. */
  datatype Frag = Frag(start: nat, end: nat)

  /** The fragment's states exist and its end can be reached from its start. */
  ghost predicate WellFormed(g: Graph, f: Frag) {
    f.start < |g.eps| && f.end < |g.eps| && Reaches(g, f.start, f.end)
  }

  lemma WellFormedMono(g: Graph, h: Graph, f: Frag)
    requires Extends(g, h) && WellFormed(g, f)
    ensures WellFormed(h, f)
  {
    ReachesMono(g, h, f.start, f.end);
  }
}
