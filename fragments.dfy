/**
 * Thompson construction (pinyin_regex/engine.py).  The `State` objects of
 * the source live in an arena: the class `Arena` holds, per state, its
 * epsilon successors, its labelled transitions and its accept flag, and a
 * state is its index.  Every fragment constructor is a method that updates
 * the arena in place, exactly as the Python functions update the `State`
 * objects they are given; what each step does to the arena as a graph is
 * stated with the predicates of the module `Construction`.
 */
module Fragments {
  import opened Wrappers
  import opened Labels
  import opened Automaton
  import opened Construction
  import opened Repeats

  /** All `State` objects created by one compilation. */
  class Arena {
    var eps: seq<set<nat>>
    var trans: seq<map<Label, set<nat>>>
    var accept: seq<bool>

    /** The arena as a graph value. */
    function Snapshot(): Graph
      reads this
    {
      Graph(eps, trans, accept)
    }

    ghost predicate Valid()
      reads this
    {
      Automaton.Valid(Snapshot())
    }

    /** An arena without states. */
    constructor ()
      ensures Valid() && Snapshot() == Graph([], [], [])
    {
      eps, trans, accept := [], [], [];
    }

    /** `State()`: a fresh state without edges, not accepting. */
    method NewState() returns (q: nat)
      requires Valid()
      modifies this
      ensures Valid() && q == old(|eps|)
      ensures eps == old(eps) + [{}] && trans == old(trans) + [map[]] && accept == old(accept) + [false]
    {
      q := |eps|;
      eps, trans, accept := eps + [{}], trans + [map[]], accept + [false];
    }

    /** `q.eps.add(t)`. */
    method AddEps(q: nat, t: nat)
      requires Valid() && q < |eps| && t < |eps|
      modifies this
      ensures Valid()
      ensures eps == old(eps)[q := old(eps)[q] + {t}] && trans == old(trans) && accept == old(accept)
    {
      eps := eps[q := eps[q] + {t}];
    }

    /** `q.eps |= ts`. */
    method AddEpsAll(q: nat, ts: set<nat>)
      requires Valid() && q < |eps| && InRange(Snapshot(), ts)
      modifies this
      ensures Valid()
      ensures eps == old(eps)[q := old(eps)[q] + ts] && trans == old(trans) && accept == old(accept)
    {
      eps := eps[q := eps[q] + ts];
    }

    /**
     * `q.trans.setdefault(lab, set()).add(t)`.  The state may carry no
     * other label: as in the source, only fresh states receive labels.
     */
    method AddLabel(q: nat, lab: Label, t: nat)
      requires Valid() && q < |eps| && t < |eps| && trans[q].Keys <= {lab}
      modifies this
      ensures Valid()
      ensures trans == old(trans)[q := old(trans)[q][lab := (if lab in old(trans)[q] then old(trans)[q][lab] else {}) + {t}]]
      ensures eps == old(eps) && accept == old(accept)
    {
      var old_targets := if lab in trans[q] then trans[q][lab] else {};
      trans := trans[q := trans[q][lab := old_targets + {t}]];
    }

    /** `q.trans[lab] = ts`, on a state without any other label. */
    method SetLabel(q: nat, lab: Label, ts: set<nat>)
      requires Valid() && q < |eps| && InRange(Snapshot(), ts) && trans[q].Keys <= {lab}
      modifies this
      ensures Valid()
      ensures trans == old(trans)[q := old(trans)[q][lab := ts]] && eps == old(eps) && accept == old(accept)
    {
      trans := trans[q := trans[q][lab := ts]];
    }

    /** `q.accept = b`. */
    method SetAccept(q: nat, b: bool)
      requires Valid() && q < |eps|
      modifies this
      ensures Valid()
      ensures accept == old(accept)[q := b] && eps == old(eps) && trans == old(trans)
    {
      accept := accept[q := b];
    }
  }

  // ---------------------------------------------------------------------
  // Fragment constructors
  // ---------------------------------------------------------------------

  /** `literal_frag(lab)`: two fresh states joined by one edge labelled `lab`. */
  method Literal(nfa: Arena, lab: Label) returns (f: Frag)
    requires nfa.Valid()
    modifies nfa
    ensures nfa.Valid() && Extends(old(nfa.Snapshot()), nfa.Snapshot())
    ensures var n := old(|nfa.eps|);
      && f == Frag(n, n + 1)
      && nfa.eps == old(nfa.eps) + [{}, {}]
      && nfa.trans == old(nfa.trans) + [map[lab := {n + 1}], map[]]
      && nfa.accept == old(nfa.accept) + [false, false]
    ensures WellFormed(nfa.Snapshot(), f)
    ensures NoAccept(old(nfa.Snapshot())) ==> NoAccept(nfa.Snapshot())
  {
    var s1 := nfa.NewState();
    var s2 := nfa.NewState();
    ghost var t0 := nfa.trans;
    nfa.AddLabel(s1, lab, s2);
    assert t0[s1] == map[] && ({} + {s2}) == {s2};
    assert nfa.trans == t0[s1 := map[lab := {s2}]];
    f := Frag(s1, s2);
    ReachesLabel(nfa.Snapshot(), s1, lab, s2);
  }

  /** `concat_frag(a, b)`: an epsilon edge from the end of `a` to the start of `b`. */
  method Concat(nfa: Arena, a: Frag, b: Frag) returns (f: Frag)
    requires nfa.Valid() && InArena(nfa.Snapshot(), a) && InArena(nfa.Snapshot(), b)
    modifies nfa
    ensures nfa.Valid()
    ensures f == Frag(a.start, b.end)
    ensures Grows(old(nfa.Snapshot()), nfa.Snapshot(), 0, {(a.end, b.start)})
  {
    ghost var g := nfa.Snapshot();
    GrowsRefl(g);
    Link(nfa, a.end, b.start, g, 0, {});
    assert {} + {(a.end, b.start)} == {(a.end, b.start)};
    f := Frag(a.start, b.end);
  }

  /** `State()` during a construction step that started at `g`. */
  method Fresh(nfa: Arena, ghost g: Graph, ghost k: nat, ghost E: set<(nat, nat)>) returns (q: nat)
    requires nfa.Valid() && Grows(g, nfa.Snapshot(), k, E) && forall p :: p in E ==> p.0 < |nfa.eps|
    modifies nfa
    ensures nfa.Valid() && Grows(g, nfa.Snapshot(), k + 1, E) && q == old(|nfa.eps|) && |nfa.eps| == q + 1
  {
    GrowsNewState(g, nfa.Snapshot(), k, E);
    q := nfa.NewState();
  }

  /** `x.eps.add(y)` during a construction step that started at `g`. */
  method Link(nfa: Arena, x: nat, y: nat, ghost g: Graph, ghost k: nat, ghost E: set<(nat, nat)>)
    requires nfa.Valid() && x < |nfa.eps| && y < |nfa.eps| && Grows(g, nfa.Snapshot(), k, E)
    modifies nfa
    ensures nfa.Valid() && Grows(g, nfa.Snapshot(), k, E + {(x, y)}) && |nfa.eps| == old(|nfa.eps|)
  {
    GrowsAddEps(g, nfa.Snapshot(), k, E, x, y);
    nfa.AddEps(x, y);
  }

  /** `x.eps |= ts` during a construction step that started at `g`. */
  method LinkAll(nfa: Arena, x: nat, ts: set<nat>, ghost g: Graph, ghost k: nat, ghost E: set<(nat, nat)>)
    requires nfa.Valid() && x < |nfa.eps| && InRange(nfa.Snapshot(), ts) && Grows(g, nfa.Snapshot(), k, E)
    modifies nfa
    ensures nfa.Valid() && Grows(g, nfa.Snapshot(), k, E + Pairs(x, ts)) && |nfa.eps| == old(|nfa.eps|)
  {
    GrowsAddEpsAll(g, nfa.Snapshot(), k, E, x, ts);
    nfa.AddEpsAll(x, ts);
  }

  /**
   * `alt_frag(a, b)`: a fresh start with edges into both alternatives, and
   * a fresh end that both alternatives lead to.
   */
  method Alt(nfa: Arena, a: Frag, b: Frag) returns (f: Frag)
    requires nfa.Valid() && InArena(nfa.Snapshot(), a) && InArena(nfa.Snapshot(), b)
    modifies nfa
    ensures nfa.Valid()
    ensures var n := old(|nfa.eps|);
      && f == Frag(n, n + 1)
      && Grows(old(nfa.Snapshot()), nfa.Snapshot(), 2, AltEdges(n, a, b))
  {
    ghost var g := nfa.Snapshot();
    GrowsRefl(g);
    var s := Fresh(nfa, g, 0, {});
    var e := Fresh(nfa, g, 1, {});
    LinkAll(nfa, s, {a.start, b.start}, g, 2, {});
    ghost var E := {} + Pairs(s, {a.start, b.start});
    Link(nfa, a.end, e, g, 2, E);
    Link(nfa, b.end, e, g, 2, E + {(a.end, e)});
    PairsTwo(s, a.start, b.start);
    assert E + {(a.end, e)} + {(b.end, e)} == AltEdges(s, a, b);
    f := Frag(s, e);
  }

  /** `star_frag(a)`: zero or more times `a`. */
  method Star(nfa: Arena, a: Frag) returns (f: Frag)
    requires nfa.Valid() && InArena(nfa.Snapshot(), a)
    modifies nfa
    ensures nfa.Valid()
    ensures var n := old(|nfa.eps|);
      && f == Frag(n, n + 1)
      && Grows(old(nfa.Snapshot()), nfa.Snapshot(), 2, StarEdges(n, a))
  {
    ghost var g := nfa.Snapshot();
    GrowsRefl(g);
    var s := Fresh(nfa, g, 0, {});
    var e := Fresh(nfa, g, 1, {});
    LinkAll(nfa, s, {a.start, e}, g, 2, {});
    ghost var E := {} + Pairs(s, {a.start, e});
    LinkAll(nfa, a.end, {a.start, e}, g, 2, E);
    PairsTwo(s, a.start, e);
    PairsTwo(a.end, a.start, e);
    assert E + Pairs(a.end, {a.start, e}) == StarEdges(s, a);
    f := Frag(s, e);
  }

  /** `plus_frag(a)`: one or more times `a`. */
  method Plus(nfa: Arena, a: Frag) returns (f: Frag)
    requires nfa.Valid() && InArena(nfa.Snapshot(), a)
    modifies nfa
    ensures nfa.Valid()
    ensures var n := old(|nfa.eps|);
      && f == Frag(n, n + 1)
      && Grows(old(nfa.Snapshot()), nfa.Snapshot(), 2, PlusEdges(n, a))
  {
    ghost var g := nfa.Snapshot();
    GrowsRefl(g);
    var s := Fresh(nfa, g, 0, {});
    var e := Fresh(nfa, g, 1, {});
    Link(nfa, s, a.start, g, 2, {});
    ghost var E := {} + {(s, a.start)};
    LinkAll(nfa, a.end, {a.start, e}, g, 2, E);
    PairsTwo(a.end, a.start, e);
    assert E + Pairs(a.end, {a.start, e}) == PlusEdges(s, a);
    f := Frag(s, e);
  }

  /** `question_frag(a)`: `a` or nothing. */
  method Question(nfa: Arena, a: Frag) returns (f: Frag)
    requires nfa.Valid() && InArena(nfa.Snapshot(), a)
    modifies nfa
    ensures nfa.Valid()
    ensures var n := old(|nfa.eps|);
      && f == Frag(n, n + 1)
      && Grows(old(nfa.Snapshot()), nfa.Snapshot(), 2, QuestionEdges(n, a))
  {
    ghost var g := nfa.Snapshot();
    GrowsRefl(g);
    var s := Fresh(nfa, g, 0, {});
    var e := Fresh(nfa, g, 1, {});
    LinkAll(nfa, s, {a.start, e}, g, 2, {});
    ghost var E := {} + Pairs(s, {a.start, e});
    Link(nfa, a.end, e, g, 2, E);
    PairsTwo(s, a.start, e);
    assert E + {(a.end, e)} == QuestionEdges(s, a);
    f := Frag(s, e);
  }

  /** The `{0}` case of `range_frag`: two fresh states and one edge, matching nothing but the empty input. */
  method Empty(nfa: Arena) returns (f: Frag)
    requires nfa.Valid()
    modifies nfa
    ensures nfa.Valid()
    ensures var n := old(|nfa.eps|);
      && f == Frag(n, n + 1)
      && Grows(old(nfa.Snapshot()), nfa.Snapshot(), 2, {(n, n + 1)})
  {
    ghost var g := nfa.Snapshot();
    GrowsRefl(g);
    var s := Fresh(nfa, g, 0, {});
    var e := Fresh(nfa, g, 1, {});
    Link(nfa, s, e, g, 2, {});
    assert {} + {(s, e)} == {(s, e)};
    f := Frag(s, e);
  }

  // ---------------------------------------------------------------------
  // clone_frag
  // ---------------------------------------------------------------------

  /**
   * `clone_state(s)`: the copy of `s`, made on first visit (registered in
   * `state_map` before its successors are copied, so cycles end) and
   * looked up afterwards.
   */
  method CloneState(nfa: Arena, ghost g0: Graph, ghost root: nat, s: nat, m: map<nat, nat>, ghost origin: seq<nat>, ghost P: set<nat>)
    returns (ns: nat, m': map<nat, nat>, ghost origin': seq<nat>)
    requires nfa.Valid() && CloneInv(g0, nfa.Snapshot(), m, origin, P, root)
    requires s < |g0.eps| && Reaches(g0, root, s)
    modifies nfa
    ensures nfa.Valid() && CloneInv(g0, nfa.Snapshot(), m', origin', P, root)
    ensures s in m' && ns == m'[s] && Extended(m, m')
    ensures Untouched(old(nfa.Snapshot()), nfa.Snapshot())
    decreases AllStates(g0) - m.Keys, 1
  {
    if s in m {
      UntouchedRefl(nfa.Snapshot());
      return m[s], m, origin;
    }
    ns, m', origin' := CloneNew(nfa, g0, root, s, m, origin, P);
  }

  /** The first visit of `s`: a new state with its flag, filled in by copying the successors. */
  method CloneNew(nfa: Arena, ghost g0: Graph, ghost root: nat, s: nat, m: map<nat, nat>, ghost origin: seq<nat>, ghost P: set<nat>)
    returns (ns: nat, m': map<nat, nat>, ghost origin': seq<nat>)
    requires nfa.Valid() && CloneInv(g0, nfa.Snapshot(), m, origin, P, root)
    requires s < |g0.eps| && Reaches(g0, root, s) && s !in m
    modifies nfa
    ensures nfa.Valid() && CloneInv(g0, nfa.Snapshot(), m', origin', P, root)
    ensures s in m' && ns == m'[s] && Extended(m, m')
    ensures Untouched(old(nfa.Snapshot()), nfa.Snapshot())
    decreases AllStates(g0) - m.Keys, 0
  {
    ghost var h0 := nfa.Snapshot();
    ns := NewCopy(nfa, g0, root, s, m, origin, P);
    ghost var h1 := nfa.Snapshot();
    var m1 := m[s := ns];
    ghost var origin1 := origin + [s];
    MapGrows(AllStates(g0), m, m1, m1, s);
    var m2;
    ghost var origin2;
    m2, origin2 := CloneEps(nfa, g0, root, s, ns, m1, origin1, P + {s});
    ghost var h2 := nfa.Snapshot();
    MapGrows(AllStates(g0), m, m1, m2, s);
    m', origin' := CloneTrans(nfa, g0, root, s, ns, m2, origin2, P + {s});
    StateUntouched(h0, h1, h2, nfa.Snapshot(), ns);
    PopPending(g0, nfa.Snapshot(), m', origin', P, root, s);
  }

  /** `new_s = State(); new_s.accept = s.accept; state_map[s] = new_s`. */
  method NewCopy(nfa: Arena, ghost g0: Graph, ghost root: nat, s: nat, m: map<nat, nat>, ghost origin: seq<nat>, ghost P: set<nat>)
    returns (ns: nat)
    requires nfa.Valid() && CloneInv(g0, nfa.Snapshot(), m, origin, P, root)
    requires s < |g0.eps| && Reaches(g0, root, s) && s !in m
    modifies nfa
    ensures nfa.Valid() && CloneInv(g0, nfa.Snapshot(), m[s := ns], origin + [s], P + {s}, root)
    ensures ns == old(|nfa.eps|) && ns < |nfa.eps| && nfa.eps[ns] == {} && nfa.trans[ns] == map[]
    ensures Untouched(old(nfa.Snapshot()), nfa.Snapshot())
  {
    ghost var h0 := nfa.Snapshot();
    ns := nfa.NewState();
    nfa.SetAccept(ns, nfa.accept[s]);
    assert nfa.accept == h0.accept + [g0.accept[s]];
    InvNewState(g0, h0, m, origin, P, root, s, nfa.Snapshot());
  }

  /** The loop `for nxt in s.eps: new_s.eps.add(clone_state(nxt))`. */
  method CloneEps(nfa: Arena, ghost g0: Graph, ghost root: nat, s: nat, ns: nat, m: map<nat, nat>, ghost origin: seq<nat>, ghost P: set<nat>)
    returns (m': map<nat, nat>, ghost origin': seq<nat>)
    requires nfa.Valid() && CloneInv(g0, nfa.Snapshot(), m, origin, P, root)
    requires s < |g0.eps| && Reaches(g0, root, s) && s in P && m[s] == ns && nfa.eps[ns] == {}
    modifies nfa
    ensures nfa.Valid() && CloneInv(g0, nfa.Snapshot(), m', origin', P, root) && Extended(m, m')
    ensures UntouchedBut(old(nfa.Snapshot()), nfa.Snapshot(), ns)
    ensures (forall y :: y in g0.eps[s] ==> y in m') && nfa.eps[ns] == Image(m', g0.eps[s])
    decreases AllStates(g0) - m.Keys, 4
  {
    ghost var h0 := nfa.Snapshot();
    UntouchedButRefl(h0, ns);
    assert EpsState(g0, h0, m, m, origin, P, root, h0, s, ns, nfa.eps[s]);
    m', origin' := EpsLoop(nfa, g0, root, s, ns, nfa.eps[s], m, origin, P, h0);
    assert g0.eps[s] - {} == g0.eps[s];
  }

  /** What holds between the rounds of `EpsLoop`, with `todo` the successors still to copy. */
  ghost predicate EpsState(g0: Graph, h: Graph, m0: map<nat, nat>, m: map<nat, nat>, origin: seq<nat>, P: set<nat>, root: nat,
                           h0: Graph, s: nat, ns: nat, todo: set<nat>) {
    && Automaton.Valid(h) && CloneInv(g0, h, m, origin, P, root) && Extended(m0, m)
    && UntouchedBut(h0, h, ns) && EpsProgress(g0, h, m, s, ns, todo)
  }

  /** The loop over the epsilon successors of `s` still to copy. */
  method EpsLoop(nfa: Arena, ghost g0: Graph, ghost root: nat, s: nat, ns: nat, succs: set<nat>,
                 m: map<nat, nat>, ghost origin: seq<nat>, ghost P: set<nat>, ghost h0: Graph)
    returns (m': map<nat, nat>, ghost origin': seq<nat>)
    requires EpsState(g0, nfa.Snapshot(), m, m, origin, P, root, h0, s, ns, succs)
    requires s < |g0.eps| && Reaches(g0, root, s) && s in P && m[s] == ns && ns < |h0.eps|
    modifies nfa
    ensures EpsState(g0, nfa.Snapshot(), m, m', origin', P, root, h0, s, ns, {})
    decreases AllStates(g0) - m.Keys, 3
  {
    m', origin' := m, origin;
    var todo := succs;
    while todo != {}
      invariant EpsState(g0, nfa.Snapshot(), m, m', origin', P, root, h0, s, ns, todo)
      decreases todo
    {
      var y :| y in todo;
      m', origin' := EpsRound(nfa, g0, root, s, ns, y, todo, m', origin', P, h0, m);
      todo := todo - {y};
    }
  }

  /** One round of the loop: `new_s.eps.add(clone_state(y))`. */
  method EpsRound(nfa: Arena, ghost g0: Graph, ghost root: nat, s: nat, ns: nat, y: nat, ghost todo: set<nat>,
                  m: map<nat, nat>, ghost origin: seq<nat>, ghost P: set<nat>, ghost h0: Graph, ghost base: map<nat, nat>)
    returns (m': map<nat, nat>, ghost origin': seq<nat>)
    requires EpsState(g0, nfa.Snapshot(), base, m, origin, P, root, h0, s, ns, todo)
    requires s < |g0.eps| && Reaches(g0, root, s) && s in P && m[s] == ns && ns < |h0.eps| && y in todo
    modifies nfa
    ensures EpsState(g0, nfa.Snapshot(), base, m', origin', P, root, h0, s, ns, todo - {y})
    ensures Extended(m, m')
    decreases AllStates(g0) - base.Keys, 2
  {
    MapKeeps(AllStates(g0), base, m);
    ReachesEps(g0, s, y);
    ReachesTransitive(g0, root, s, y);
    ghost var hA := nfa.Snapshot();
    var c;
    c, m', origin' := CloneState(nfa, g0, root, y, m, origin, P);
    ghost var hB := nfa.Snapshot();
    nfa.AddEps(ns, c);
    EpsLoopStep(g0, h0, hA, hB, nfa.Snapshot(), m, m, m', origin', P, root, s, ns, todo, y);
    ExtendedTransitive(base, m, m');
  }

  /** The set `{clone_state(t) for t in targets}` of one label of `s`. */
  method CloneTargets(nfa: Arena, ghost g0: Graph, ghost root: nat, s: nat, l: Label, m: map<nat, nat>, ghost origin: seq<nat>, ghost P: set<nat>)
    returns (ts: set<nat>, m': map<nat, nat>, ghost origin': seq<nat>)
    requires nfa.Valid() && CloneInv(g0, nfa.Snapshot(), m, origin, P, root)
    requires s < |g0.eps| && Reaches(g0, root, s) && s in P && l in g0.trans[s]
    modifies nfa
    ensures nfa.Valid() && CloneInv(g0, nfa.Snapshot(), m', origin', P, root) && Extended(m, m')
    ensures Untouched(old(nfa.Snapshot()), nfa.Snapshot())
    ensures (forall y :: y in g0.trans[s][l] ==> y in m') && ts == Image(m', g0.trans[s][l])
    decreases AllStates(g0) - m.Keys, 4
  {
    ghost var h0 := nfa.Snapshot();
    UntouchedRefl(h0);
    TargetsStart(g0, m, s, l);
    assert TargetsState(g0, h0, m, m, origin, P, root, h0, s, l, nfa.trans[s][l], {});
    ts, m', origin' := TargetsLoop(nfa, g0, root, s, l, nfa.trans[s][l], m, origin, P, h0);
    assert g0.trans[s][l] - {} == g0.trans[s][l];
  }

  /** What holds between the rounds of `TargetsLoop`, with `todo` the targets still to copy. */
  ghost predicate TargetsState(g0: Graph, h: Graph, m0: map<nat, nat>, m: map<nat, nat>, origin: seq<nat>, P: set<nat>, root: nat,
                               h0: Graph, s: nat, l: Label, todo: set<nat>, ts: set<nat>) {
    && Automaton.Valid(h) && CloneInv(g0, h, m, origin, P, root) && Extended(m0, m)
    && Untouched(h0, h) && TargetsProgress(g0, m, s, l, todo, ts)
  }

  /** The loop over the targets of label `l` of `s` still to copy, collecting their copies. */
  method TargetsLoop(nfa: Arena, ghost g0: Graph, ghost root: nat, s: nat, l: Label, targets: set<nat>,
                     m: map<nat, nat>, ghost origin: seq<nat>, ghost P: set<nat>, ghost h0: Graph)
    returns (ts: set<nat>, m': map<nat, nat>, ghost origin': seq<nat>)
    requires TargetsState(g0, nfa.Snapshot(), m, m, origin, P, root, h0, s, l, targets, {})
    requires s < |g0.eps| && Reaches(g0, root, s) && s in P
    modifies nfa
    ensures TargetsState(g0, nfa.Snapshot(), m, m', origin', P, root, h0, s, l, {}, ts)
    decreases AllStates(g0) - m.Keys, 3
  {
    m', origin' := m, origin;
    ts := {};
    var todo := targets;
    while todo != {}
      invariant TargetsState(g0, nfa.Snapshot(), m, m', origin', P, root, h0, s, l, todo, ts)
      decreases todo
    {
      var y :| y in todo;
      ts, m', origin' := TargetsRound(nfa, g0, root, s, l, y, todo, ts, m', origin', P, h0, m);
      todo := todo - {y};
    }
  }

  /** One round of the loop: the copy `clone_state(y)` of the target `y` joins the set. */
  method TargetsRound(nfa: Arena, ghost g0: Graph, ghost root: nat, s: nat, l: Label, y: nat, ghost todo: set<nat>, ts: set<nat>,
                      m: map<nat, nat>, ghost origin: seq<nat>, ghost P: set<nat>, ghost h0: Graph, ghost base: map<nat, nat>)
    returns (ts': set<nat>, m': map<nat, nat>, ghost origin': seq<nat>)
    requires TargetsState(g0, nfa.Snapshot(), base, m, origin, P, root, h0, s, l, todo, ts)
    requires s < |g0.eps| && Reaches(g0, root, s) && s in P && y in todo
    modifies nfa
    ensures TargetsState(g0, nfa.Snapshot(), base, m', origin', P, root, h0, s, l, todo - {y}, ts')
    ensures Extended(m, m')
    decreases AllStates(g0) - base.Keys, 2
  {
    MapKeeps(AllStates(g0), base, m);
    ReachesLabel(g0, s, l, y);
    ReachesTransitive(g0, root, s, y);
    ghost var hA := nfa.Snapshot();
    var c;
    c, m', origin' := CloneState(nfa, g0, root, y, m, origin, P);
    TargetsLoopStep(g0, h0, hA, nfa.Snapshot(), m, m, m', s, l, todo, y, ts);
    ts' := ts + {c};
    ExtendedTransitive(base, m, m');
  }

  /** The loop `for sym, targets in s.trans.items(): new_s.trans[sym] = ...`. */
  method CloneTrans(nfa: Arena, ghost g0: Graph, ghost root: nat, s: nat, ns: nat, m: map<nat, nat>, ghost origin: seq<nat>, ghost P: set<nat>)
    returns (m': map<nat, nat>, ghost origin': seq<nat>)
    requires nfa.Valid() && CloneInv(g0, nfa.Snapshot(), m, origin, P, root)
    requires s < |g0.eps| && Reaches(g0, root, s) && s in P && m[s] == ns && ns < |nfa.eps| && nfa.trans[ns] == map[]
    requires (forall y :: y in g0.eps[s] ==> y in m) && nfa.eps[ns] == Image(m, g0.eps[s])
    modifies nfa
    ensures nfa.Valid() && CloneInv(g0, nfa.Snapshot(), m', origin', P, root) && Extended(m, m')
    ensures Copied(g0, nfa.Snapshot(), m', s)
    ensures KeptBut(old(nfa.Snapshot()), nfa.Snapshot(), ns)
    decreases AllStates(g0) - m.Keys, 7
  {
    ghost var h0 := nfa.Snapshot();
    TransStart(g0, h0, m, s, ns);
    assert TransState(g0, h0, m, m, origin, P, root, h0, s, ns, nfa.trans[s].Keys);
    m', origin' := TransLoop(nfa, g0, root, s, ns, nfa.trans[s].Keys, m, origin, P, h0);
    TransEnd(g0, nfa.Snapshot(), m', s, ns);
  }

  /** What holds between the rounds of `TransLoop`, with `todo` the labels still to copy. */
  ghost predicate TransState(g0: Graph, h: Graph, m0: map<nat, nat>, m: map<nat, nat>, origin: seq<nat>, P: set<nat>, root: nat,
                             h0: Graph, s: nat, ns: nat, todo: set<Label>) {
    && Automaton.Valid(h) && CloneInv(g0, h, m, origin, P, root) && Extended(m0, m)
    && KeptBut(h0, h, ns) && TransProgress(g0, h, m, s, ns, todo)
  }

  /** The loop over the labels of `s` still to copy. */
  method TransLoop(nfa: Arena, ghost g0: Graph, ghost root: nat, s: nat, ns: nat, labels: set<Label>,
                   m: map<nat, nat>, ghost origin: seq<nat>, ghost P: set<nat>, ghost h0: Graph)
    returns (m': map<nat, nat>, ghost origin': seq<nat>)
    requires TransState(g0, nfa.Snapshot(), m, m, origin, P, root, h0, s, ns, labels)
    requires s < |g0.eps| && Reaches(g0, root, s) && s in P && m[s] == ns
    modifies nfa
    ensures TransState(g0, nfa.Snapshot(), m, m', origin', P, root, h0, s, ns, {})
    decreases AllStates(g0) - m.Keys, 6
  {
    m', origin' := m, origin;
    var todo := labels;
    while todo != {}
      invariant TransState(g0, nfa.Snapshot(), m, m', origin', P, root, h0, s, ns, todo)
      decreases todo
    {
      var l :| l in todo;
      m', origin' := TransRound(nfa, g0, root, s, ns, l, todo, m', origin', P, h0, m);
      todo := todo - {l};
    }
  }

  /** One round of the loop: `new_s.trans[l] = {clone_state(t) for t in s.trans[l]}`. */
  method TransRound(nfa: Arena, ghost g0: Graph, ghost root: nat, s: nat, ns: nat, l: Label, ghost labels: set<Label>,
                    m: map<nat, nat>, ghost origin: seq<nat>, ghost P: set<nat>, ghost h0: Graph, ghost base: map<nat, nat>)
    returns (m': map<nat, nat>, ghost origin': seq<nat>)
    requires TransState(g0, nfa.Snapshot(), base, m, origin, P, root, h0, s, ns, labels)
    requires s < |g0.eps| && Reaches(g0, root, s) && s in P && m[s] == ns && l in labels
    modifies nfa
    ensures TransState(g0, nfa.Snapshot(), base, m', origin', P, root, h0, s, ns, labels - {l})
    ensures Extended(m, m')
    decreases AllStates(g0) - base.Keys, 5
  {
    MapKeeps(AllStates(g0), base, m);
    ghost var hA := nfa.Snapshot();
    var ts;
    ts, m', origin' := CloneTargets(nfa, g0, root, s, l, m, origin, P);
    ghost var hB := nfa.Snapshot();
    TransBeforeSet(g0, hA, hB, m, m', origin', s, ns, labels, l, ts);
    nfa.SetLabel(ns, l, ts);
    TransLoopStep(g0, h0, hA, hB, nfa.Snapshot(), m, m, m', origin', P, root, s, ns, labels, l, ts);
    ExtendedTransitive(base, m, m');
  }

  /**
   * `clone_frag(a)`: a fresh copy of the states reachable from `a.start`,
   * and its boundaries.  When `a.end` is not reachable `state_map[frag.end]`
   * raises `KeyError`, which is the result `None` here.
   */
  method Clone(nfa: Arena, a: Frag) returns (r: Option<Frag>, ghost m: map<nat, nat>)
    requires nfa.Valid() && a.start < |nfa.eps| && a.end < |nfa.eps|
    modifies nfa
    ensures nfa.Valid() && Untouched(old(nfa.Snapshot()), nfa.Snapshot())
    ensures IsCopy(old(nfa.Snapshot()), nfa.Snapshot(), m, a.start)
    ensures r == (if a.end in m then Some(Frag(m[a.start], m[a.end])) else None)
  {
    ghost var g0 := nfa.Snapshot();
    ReachesRefl(g0, a.start);
    var ns, stateMap;
    ghost var origin;
    ns, stateMap, origin := CloneState(nfa, g0, a.start, a.start, map[], [], {});
    CloneDone(g0, nfa.Snapshot(), stateMap, origin, a.start);
    m := stateMap;
    if a.end in stateMap {
      r := Some(Frag(ns, stateMap[a.end]));
    } else {
      r := None;
    }
  }

  // ---------------------------------------------------------------------
  // count_frag and range_frag
  // ---------------------------------------------------------------------

  /**
   * `count_frag(a, count)`: `a` followed by `count - 1` copies of `a`, each
   * copied from the chain built so far; `count == 0` is `a?` and a negative
   * count is `a*`.
   */
  method Count(nfa: Arena, a: Frag, count: int) returns (f: Frag)
    requires nfa.Valid() && WellFormed(nfa.Snapshot(), a)
    modifies nfa
    ensures nfa.Valid() && Extends(old(nfa.Snapshot()), nfa.Snapshot()) && WellFormed(nfa.Snapshot(), f)
    ensures NoAccept(old(nfa.Snapshot())) ==> NoAccept(nfa.Snapshot())
    ensures var n := old(|nfa.eps|);
      && (count == 0 ==> f == Frag(n, n + 1) && Grows(old(nfa.Snapshot()), nfa.Snapshot(), 2, QuestionEdges(n, a)))
      && (count < 0 ==> f == Frag(n, n + 1) && Grows(old(nfa.Snapshot()), nfa.Snapshot(), 2, StarEdges(n, a)))
      && (count > 0 ==> f.start == a.start && OnlyGains(old(nfa.Snapshot()), nfa.Snapshot(), a.end))
      && (count == 1 ==> f == a && nfa.Snapshot() == old(nfa.Snapshot()))
      && (count > 1 ==> n <= f.end)
    ensures count > 0 ==> CountBuilt(old(nfa.Snapshot()), nfa.Snapshot(), a, count, f)
  {
    ghost var g := nfa.Snapshot();
    if count <= 0 {
      if count == 0 {
        f := Question(nfa, a);
      } else {
        f := Star(nfa, a);
        ghost var n := |g.eps|;
        GrowsKeeps(g, nfa.Snapshot(), 2, StarEdges(n, a));
        SkipEdge(g, nfa.Snapshot(), 2, StarEdges(n, a), n, n + 1);
      }
      return;
    }
    f := a;
    var i := 0;
    ghost var rs: seq<Round> := [];
    ExtendsRefl(g);
    while i < count - 1
      invariant 0 <= i <= count - 1
      invariant nfa.Valid() && Extends(g, nfa.Snapshot()) && OnlyGains(g, nfa.Snapshot(), a.end)
      invariant WellFormed(nfa.Snapshot(), a) && WellFormed(nfa.Snapshot(), f) && f.start == a.start
      invariant NoAccept(g) ==> NoAccept(nfa.Snapshot())
      invariant i == 0 ==> f == a && nfa.Snapshot() == g
      invariant i > 0 ==> |g.eps| <= f.end
      invariant |rs| == i && CountChain(g, nfa.Snapshot(), a, rs, f)
    {
      ghost var hA := nfa.Snapshot();
      ghost var prev := f;
      ghost var hB, m;
      f, hB, m := CountStep(nfa, a, f, g);
      CountChainStep(g, nfa.Snapshot(), a, rs, Round(hA, hB, m, prev), f);
      rs := rs + [Round(hA, hB, m, prev)];
      i := i + 1;
    }
  }

  /** One round of `result = concat_frag(result, clone_frag(a))`. */
  method CountStep(nfa: Arena, a: Frag, f: Frag, ghost g: Graph) returns (f': Frag, ghost hB: Graph, ghost m: map<nat, nat>)
    requires nfa.Valid() && Extends(g, nfa.Snapshot()) && OnlyGains(g, nfa.Snapshot(), a.end)
    requires WellFormed(nfa.Snapshot(), a) && WellFormed(nfa.Snapshot(), f) && f.start == a.start
    requires f.end == a.end || |g.eps| <= f.end
    modifies nfa
    ensures nfa.Valid() && Extends(g, nfa.Snapshot()) && OnlyGains(g, nfa.Snapshot(), a.end)
    ensures WellFormed(nfa.Snapshot(), a) && WellFormed(nfa.Snapshot(), f') && f'.start == a.start
    ensures NoAccept(old(nfa.Snapshot())) ==> NoAccept(nfa.Snapshot())
    ensures |g.eps| <= f'.end
    ensures CountRound(old(nfa.Snapshot()), hB, nfa.Snapshot(), a, m, f, f')
  {
    ghost var hA := nfa.Snapshot();
    var c;
    c, m := Clone(nfa, a);
    hB := nfa.Snapshot();
    CloneExtends(hA, hB, m, a.start);
    CloneWellFormed(hA, hB, m, a);
    WellFormedMono(hA, hB, f);
    WellFormedMono(hA, hB, a);
    var copy := c.value;
    f' := Concat(nfa, f, copy);
    ConcatWellFormed(hB, nfa.Snapshot(), f, copy);
    GrowsKeeps(hB, nfa.Snapshot(), 0, {(f.end, copy.start)});
    WellFormedMono(hB, nfa.Snapshot(), a);
    ExtendsTransitive(g, hA, hB);
    ExtendsTransitive(g, hB, nfa.Snapshot());
    CountFrame(g, hA, hB, nfa.Snapshot(), a.end, f.end, copy.start);
  }

  /**
   * `range_frag(a, min, max)`: the four special cases `{0,}`, `{1,}`,
   * `{0,1}` and `{0}`, otherwise a fresh start and end around `min`
   * required repetitions (`count_frag`) and the optional tail.  The start
   * has exactly the edges to the end (when `min == 0`) and to `a.start`
   * (when anything can be repeated); the end has none.
   */
  method Range(nfa: Arena, a: Frag, min: nat, max: MaxCount) returns (f: Frag)
    requires nfa.Valid() && WellFormed(nfa.Snapshot(), a)
    modifies nfa
    ensures nfa.Valid() && Extends(old(nfa.Snapshot()), nfa.Snapshot()) && WellFormed(nfa.Snapshot(), f)
    ensures NoAccept(old(nfa.Snapshot())) ==> NoAccept(nfa.Snapshot())
    ensures f == Frag(old(|nfa.eps|), old(|nfa.eps|) + 1)
    ensures nfa.eps[f.start] == (if min == 0 then {f.end} else {}) + (if min > 0 || Exceeds(max, 0) then {a.start} else {})
    ensures nfa.eps[f.end] == {}
    ensures RangeBuilt(old(nfa.Snapshot()), nfa.Snapshot(), a, min, max, f)
  {
    if min == 0 && max == Unbounded {
      f := RangeStar(nfa, a);
    } else if min == 1 && max == Unbounded {
      f := RangePlus(nfa, a);
    } else if min == 0 && max == Finite(1) {
      f := RangeQuestion(nfa, a);
    } else if min == 0 && max == Finite(0) {
      f := RangeZero(nfa, a);
    } else {
      f := RangeGeneral(nfa, a, min, max);
    }
  }

  /** `{0,}`: `star_frag(a)`. */
  method RangeStar(nfa: Arena, a: Frag) returns (f: Frag)
    requires nfa.Valid() && WellFormed(nfa.Snapshot(), a)
    modifies nfa
    ensures nfa.Valid() && Extends(old(nfa.Snapshot()), nfa.Snapshot()) && WellFormed(nfa.Snapshot(), f)
    ensures NoAccept(old(nfa.Snapshot())) ==> NoAccept(nfa.Snapshot())
    ensures var n := old(|nfa.eps|);
      && f == Frag(n, n + 1) && nfa.eps[f.start] == {f.end} + {a.start} && nfa.eps[f.end] == {}
      && Grows(old(nfa.Snapshot()), nfa.Snapshot(), 2, StarEdges(n, a))
  {
    ghost var g := nfa.Snapshot();
    ghost var n := |g.eps|;
    f := Star(nfa, a);
    RangeSpecial(g, nfa.Snapshot(), a, StarEdges(n, a), true);
    PassThrough(g, nfa.Snapshot(), 2, StarEdges(n, a), n, a, n + 1);
  }

  /** `{1,}`: `plus_frag(a)`. */
  method RangePlus(nfa: Arena, a: Frag) returns (f: Frag)
    requires nfa.Valid() && WellFormed(nfa.Snapshot(), a)
    modifies nfa
    ensures nfa.Valid() && Extends(old(nfa.Snapshot()), nfa.Snapshot()) && WellFormed(nfa.Snapshot(), f)
    ensures NoAccept(old(nfa.Snapshot())) ==> NoAccept(nfa.Snapshot())
    ensures var n := old(|nfa.eps|);
      && f == Frag(n, n + 1) && nfa.eps[f.start] == {} + {a.start} && nfa.eps[f.end] == {}
      && Grows(old(nfa.Snapshot()), nfa.Snapshot(), 2, PlusEdges(n, a))
  {
    ghost var g := nfa.Snapshot();
    ghost var n := |g.eps|;
    f := Plus(nfa, a);
    RangeSpecial(g, nfa.Snapshot(), a, PlusEdges(n, a), true);
    PassThrough(g, nfa.Snapshot(), 2, PlusEdges(n, a), n, a, n + 1);
  }

  /** `{0,1}`: `question_frag(a)`. */
  method RangeQuestion(nfa: Arena, a: Frag) returns (f: Frag)
    requires nfa.Valid() && WellFormed(nfa.Snapshot(), a)
    modifies nfa
    ensures nfa.Valid() && Extends(old(nfa.Snapshot()), nfa.Snapshot()) && WellFormed(nfa.Snapshot(), f)
    ensures NoAccept(old(nfa.Snapshot())) ==> NoAccept(nfa.Snapshot())
    ensures var n := old(|nfa.eps|);
      && f == Frag(n, n + 1) && nfa.eps[f.start] == {f.end} + {a.start} && nfa.eps[f.end] == {}
      && Grows(old(nfa.Snapshot()), nfa.Snapshot(), 2, QuestionEdges(n, a))
  {
    ghost var g := nfa.Snapshot();
    ghost var n := |g.eps|;
    f := Question(nfa, a);
    RangeSpecial(g, nfa.Snapshot(), a, QuestionEdges(n, a), true);
    PassThrough(g, nfa.Snapshot(), 2, QuestionEdges(n, a), n, a, n + 1);
  }

  /** `{0}`: a fresh start with one epsilon edge to a fresh end; `a` is skipped. */
  method RangeZero(nfa: Arena, a: Frag) returns (f: Frag)
    requires nfa.Valid() && WellFormed(nfa.Snapshot(), a)
    modifies nfa
    ensures nfa.Valid() && Extends(old(nfa.Snapshot()), nfa.Snapshot()) && WellFormed(nfa.Snapshot(), f)
    ensures NoAccept(old(nfa.Snapshot())) ==> NoAccept(nfa.Snapshot())
    ensures var n := old(|nfa.eps|);
      && f == Frag(n, n + 1) && nfa.eps[f.start] == {f.end} + {} && nfa.eps[f.end] == {}
      && Grows(old(nfa.Snapshot()), nfa.Snapshot(), 2, {(n, n + 1)})
  {
    ghost var g := nfa.Snapshot();
    ghost var n := |g.eps|;
    f := Empty(nfa);
    RangeSpecial(g, nfa.Snapshot(), a, {(n, n + 1)}, false);
    GrowsEdge(g, nfa.Snapshot(), 2, {(n, n + 1)}, n, n + 1);
  }

  /** The general case of `range_frag`. */
  method RangeGeneral(nfa: Arena, a: Frag, min: nat, max: MaxCount) returns (f: Frag)
    requires nfa.Valid() && WellFormed(nfa.Snapshot(), a)
    modifies nfa
    ensures nfa.Valid() && Extends(old(nfa.Snapshot()), nfa.Snapshot()) && WellFormed(nfa.Snapshot(), f)
    ensures NoAccept(old(nfa.Snapshot())) ==> NoAccept(nfa.Snapshot())
    ensures f == Frag(old(|nfa.eps|), old(|nfa.eps|) + 1)
    ensures nfa.eps[f.start] == (if min == 0 then {f.end} else {}) + (if min > 0 || Exceeds(max, min) then {a.start} else {})
    ensures nfa.eps[f.end] == {}
    ensures RangeGeneralBuilt(old(nfa.Snapshot()), nfa.Snapshot(), a, min, max)
  {
    ghost var g := nfa.Snapshot();
    var s, e, current := RangeHead(nfa, a, min);
    ghost var g2 := nfa.Snapshot();
    RangeRest(nfa, a, min, max, s, e, current, g);
    GeneralIntro(g, g2, nfa.Snapshot(), a, min, max, current, e);
    f := Frag(s, e);
  }

  /** After the head: `if max is None or max > min`, the optional tail from `current` to `e`. */
  method RangeRest(nfa: Arena, a: Frag, min: nat, max: MaxCount, s: nat, e: nat, current: nat, ghost g: Graph)
    requires nfa.Valid() && Extends(g, nfa.Snapshot()) && WellFormed(nfa.Snapshot(), Frag(s, e))
    requires NoAccept(g) ==> NoAccept(nfa.Snapshot())
    requires WellFormed(nfa.Snapshot(), a)
    requires current < |nfa.eps| && current != e && (min == 0 <==> current == s) && a.end < s && e == s + 1
    requires nfa.eps[s] == (if min == 0 then {e} else {a.start}) && nfa.eps[e] == {}
    modifies nfa
    ensures nfa.Valid() && Extends(g, nfa.Snapshot()) && WellFormed(nfa.Snapshot(), Frag(s, e))
    ensures NoAccept(g) ==> NoAccept(nfa.Snapshot())
    ensures nfa.eps[s] == (if min == 0 then {e} else {}) + (if min > 0 || Exceeds(max, min) then {a.start} else {})
    ensures nfa.eps[e] == {}
    ensures TailBuilt(old(nfa.Snapshot()), nfa.Snapshot(), a, current, e, min, max)
  {
    ghost var g2 := nfa.Snapshot();
    if Exceeds(max, min) {
      RangeTail(nfa, a, current, e, max, min);
      ExtendsTransitive(g, g2, nfa.Snapshot());
      WellFormedMono(g2, nfa.Snapshot(), Frag(s, e));
      TailKeepsHead(nfa.eps[s], g2.eps[s], s, a.start, current, min);
    }
  }

  /** `s, e = State(), State()`, then the edge `s -> e` or the required part. */
  method RangeHead(nfa: Arena, a: Frag, min: nat) returns (s: nat, e: nat, current: nat)
    requires nfa.Valid() && WellFormed(nfa.Snapshot(), a)
    modifies nfa
    ensures nfa.Valid() && Extends(old(nfa.Snapshot()), nfa.Snapshot()) && WellFormed(nfa.Snapshot(), Frag(s, e))
    ensures NoAccept(old(nfa.Snapshot())) ==> NoAccept(nfa.Snapshot())
    ensures WellFormed(nfa.Snapshot(), a)
    ensures s == old(|nfa.eps|) && e == s + 1 && current < |nfa.eps| && current != e && (min == 0 <==> current == s)
    ensures nfa.eps[s] == (if min == 0 then {e} else {a.start}) && nfa.eps[e] == {}
    ensures HeadBuilt(old(nfa.Snapshot()), nfa.Snapshot(), a, min, current)
  {
    ghost var g := nfa.Snapshot();
    s := nfa.NewState();
    e := nfa.NewState();
    ghost var g1 := nfa.Snapshot();
    TwoFresh(g, g1);
    assert Extends(g, g1);
    WellFormedMono(g, g1, a);
    current := s;
    if min == 0 {
      AddEpsGrows(nfa.Snapshot(), s, e);
      nfa.AddEps(s, e);
      HeadZero(g, g1, nfa.Snapshot(), a);
      WellFormedMono(g1, nfa.Snapshot(), a);
    } else {
      ghost var gc, req;
      current, gc, req := RangeRequired(nfa, a, min, s, e);
      HeadIntro(g, gc, nfa.Snapshot(), a, min, req);
    }
    ExtendsTransitive(g, g1, nfa.Snapshot());
  }

  /**
   * The required part: `s -> count_frag(a, min) -> e`.  Returns the end of
   * the required part, where the optional tail starts.
   */
  method RangeRequired(nfa: Arena, a: Frag, min: nat, s: nat, e: nat) returns (current: nat, ghost gc: Graph, ghost req: Frag)
    requires nfa.Valid() && WellFormed(nfa.Snapshot(), a) && min > 0
    requires |nfa.eps| == e + 1 && e == s + 1 && a.end < s && nfa.eps[s] == {} && nfa.eps[e] == {}
    modifies nfa
    ensures nfa.Valid() && Extends(old(nfa.Snapshot()), nfa.Snapshot())
    ensures NoAccept(old(nfa.Snapshot())) ==> NoAccept(nfa.Snapshot())
    ensures WellFormed(nfa.Snapshot(), a) && WellFormed(nfa.Snapshot(), Frag(s, e))
    ensures nfa.eps[s] == {a.start} && nfa.eps[e] == {} && current < |nfa.eps| && current != s && current != e
    ensures CountBuilt(old(nfa.Snapshot()), gc, a, min, req) && Grows(gc, nfa.Snapshot(), 0, Around(s, req))
    ensures current == req.end
  {
    ghost var g := nfa.Snapshot();
    var required := Count(nfa, a, min);
    req := required;
    gc := nfa.Snapshot();
    WellFormedMono(g, gc, a);
    assert required.end == a.end || |g.eps| <= required.end;
    Surround(nfa, a, s, e, required, g);
    current := required.end;
  }

  /** `s.eps.add(required.start)` and `required.end.eps.add(e)`, after `count_frag` has built `req` from `g`. */
  method Surround(nfa: Arena, a: Frag, s: nat, e: nat, req: Frag, ghost g: Graph)
    requires Valid(g) && |g.eps| == e + 1 && e == s + 1 && a.end < s && g.eps[s] == {} && g.eps[e] == {}
    requires nfa.Valid() && Extends(g, nfa.Snapshot()) && OnlyGains(g, nfa.Snapshot(), a.end)
    requires NoAccept(g) ==> NoAccept(nfa.Snapshot())
    requires WellFormed(nfa.Snapshot(), a) && WellFormed(nfa.Snapshot(), req) && req.start == a.start
    requires req.end == a.end || |g.eps| <= req.end
    modifies nfa
    ensures nfa.Valid() && Extends(g, nfa.Snapshot())
    ensures NoAccept(g) ==> NoAccept(nfa.Snapshot())
    ensures WellFormed(nfa.Snapshot(), a) && WellFormed(nfa.Snapshot(), Frag(s, e))
    ensures nfa.eps[s] == {a.start} && nfa.eps[e] == {} && req.end < |nfa.eps| && req.end != s && req.end != e
    ensures Grows(old(nfa.Snapshot()), nfa.Snapshot(), 0, Around(s, req))
  {
    ghost var g1 := nfa.Snapshot();
    AddEpsGrows(g1, s, req.start);
    nfa.AddEps(s, req.start);
    ghost var g2 := nfa.Snapshot();
    AddEpsGrows(g2, req.end, e);
    nfa.AddEps(req.end, e);
    ghost var g3 := nfa.Snapshot();
    AroundGrows(g1, g2, g3, s, e, req);
    ExtendsTransitive(g, g1, g2);
    ExtendsTransitive(g, g2, g3);
    ExtendsTransitive(g1, g2, g3);
    WellFormedMono(g1, g3, a);
    WellFormedMono(g1, g3, req);
    ReachesMono(g2, g3, s, req.start);
    ReachesTransitive(g3, s, req.start, req.end);
    ReachesTransitive(g3, s, req.end, e);
  }

  /**
   * The optional tail: `max - min` more times `a`, re-linking `a` itself
   * (the source does not copy it), or a loop through `a` when unbounded.
   * Of all states other than `a.end`, only `c0` gains an edge, to `a.start`.
   */
  method RangeTail(nfa: Arena, a: Frag, c0: nat, e: nat, max: MaxCount, min: nat)
    requires nfa.Valid() && InArena(nfa.Snapshot(), a) && c0 < |nfa.eps| && e < |nfa.eps| && Exceeds(max, min)
    modifies nfa
    ensures nfa.Valid() && Extends(old(nfa.Snapshot()), nfa.Snapshot())
    ensures NoAccept(old(nfa.Snapshot())) ==> NoAccept(nfa.Snapshot())
    ensures |nfa.eps| == old(|nfa.eps|) && e in nfa.eps[a.end] && a.start in nfa.eps[c0]
    ensures forall q :: 0 <= q < |nfa.eps| && q != a.end ==>
      nfa.eps[q] == old(nfa.eps[q]) + (if q == c0 then {a.start} else {})
    ensures Grows(old(nfa.Snapshot()), nfa.Snapshot(), 0, TailEdges(a, c0, e, min, max))
  {
    ghost var g := nfa.Snapshot();
    ExtendsRefl(g);
    GrowsRefl(g);
    if max.Unbounded? {
      TailLink(nfa, g, a, c0, c0, a.start, 0, {});
      TailLink(nfa, g, a, c0, a.end, c0, 1, {} + {(c0, a.start)});
      TailLink(nfa, g, a, c0, a.end, e, 1, {} + {(c0, a.start)} + {(a.end, c0)});
      assert {} + {(c0, a.start)} + {(a.end, c0)} + {(a.end, e)} == TailEdges(a, c0, e, min, max);
    } else {
      TailRounds(nfa, g, a, c0, e, min, max);
    }
  }

  /** The bounded tail: `max - min` rounds, each through `a` again. */
  method TailRounds(nfa: Arena, ghost g: Graph, a: Frag, c0: nat, e: nat, min: nat, max: MaxCount)
    requires nfa.Valid() && TailSoFar(g, nfa.Snapshot(), a, c0, 0) && e < |nfa.eps|
    requires Grows(g, nfa.Snapshot(), 0, {}) && max.Finite? && max.n > min
    modifies nfa
    ensures nfa.Valid() && TailSoFar(g, nfa.Snapshot(), a, c0, 1) && e in nfa.eps[a.end]
    ensures Grows(g, nfa.Snapshot(), 0, TailEdges(a, c0, e, min, max))
  {
    var remaining := max.n - min;
    var current := c0;
    var i := 0;
    while i < remaining
      invariant 0 <= i <= remaining
      invariant i == 0 ==> current == c0
      invariant 0 < i < remaining ==> current == a.end
      invariant TailSoFar(g, nfa.Snapshot(), a, c0, if i == 0 then 0 else 1)
      invariant i == remaining ==> e in nfa.eps[a.end]
      invariant i < remaining ==> Grows(g, nfa.Snapshot(), 0, TailPasses(a, c0, i))
      invariant i == remaining ==> Grows(g, nfa.Snapshot(), 0, TailEdges(a, c0, e, min, max))
    {
      if i < remaining - 1 {
        TailPass(nfa, g, a, c0, i, current);
        current := a.end;
      } else {
        TailLastPass(nfa, g, a, c0, e, min, max, i, current);
      }
      i := i + 1;
    }
  }

  /** A pass of the tail that is not the last: `current -> a.start` and `a.end -> current`. */
  method TailPass(nfa: Arena, ghost g: Graph, a: Frag, c0: nat, ghost i: nat, current: nat)
    requires nfa.Valid() && current == (if i == 0 then c0 else a.end)
    requires TailSoFar(g, nfa.Snapshot(), a, c0, if i == 0 then 0 else 1)
    requires Grows(g, nfa.Snapshot(), 0, TailPasses(a, c0, i))
    modifies nfa
    ensures nfa.Valid() && TailSoFar(g, nfa.Snapshot(), a, c0, 1)
    ensures Grows(g, nfa.Snapshot(), 0, TailPasses(a, c0, i + 1))
  {
    ghost var E := TailPasses(a, c0, i);
    TailLink(nfa, g, a, c0, current, a.start, if i == 0 then 0 else 1, E);
    TailLink(nfa, g, a, c0, a.end, current, 1, E + {(current, a.start)});
    PassesStep(a, c0, i, current);
  }

  /** The last pass of the tail: `current -> a.start` and `a.end -> e`. */
  method TailLastPass(nfa: Arena, ghost g: Graph, a: Frag, c0: nat, e: nat, min: nat, max: MaxCount, ghost i: nat, current: nat)
    requires nfa.Valid() && current == (if i == 0 then c0 else a.end) && e < |nfa.eps|
    requires max.Finite? && max.n - min == i + 1
    requires TailSoFar(g, nfa.Snapshot(), a, c0, if i == 0 then 0 else 1)
    requires Grows(g, nfa.Snapshot(), 0, TailPasses(a, c0, i))
    modifies nfa
    ensures nfa.Valid() && TailSoFar(g, nfa.Snapshot(), a, c0, 1) && e in nfa.eps[a.end]
    ensures Grows(g, nfa.Snapshot(), 0, TailEdges(a, c0, e, min, max))
  {
    ghost var E := TailPasses(a, c0, i);
    TailLink(nfa, g, a, c0, current, a.start, if i == 0 then 0 else 1, E);
    TailLink(nfa, g, a, c0, a.end, e, 1, E + {(current, a.start)});
    PassesLast(a, c0, e, min, max, i, current);
  }

  /** One link of the tail: from `a.end`, or from `c0` to `a.start` as the round `i` demands. */
  method TailLink(nfa: Arena, ghost g: Graph, a: Frag, c0: nat, x: nat, y: nat, ghost i: nat, ghost E: set<(nat, nat)>)
    requires TailSoFar(g, nfa.Snapshot(), a, c0, i) && nfa.Valid() && y < |nfa.eps|
    requires x == a.end || (x == c0 && y == a.start)
    requires Grows(g, nfa.Snapshot(), 0, E)
    modifies nfa
    ensures nfa.Valid() && TailSoFar(g, nfa.Snapshot(), a, c0, if x == c0 && y == a.start then 1 else i)
    ensures y in nfa.eps[x] && old(nfa.eps[a.end]) <= nfa.eps[a.end]
    ensures Grows(g, nfa.Snapshot(), 0, E + {(x, y)})
  {
    GrowsAddEps(g, nfa.Snapshot(), 0, E, x, y);
    AddEpsGrows(nfa.Snapshot(), x, y);
    ghost var h := nfa.Snapshot();
    nfa.AddEps(x, y);
    ExtendsTransitive(g, h, nfa.Snapshot());
  }
}
