/**
 * Simulation of the compiled automaton over a token sequence:
 * `epsilon_closure`, `advance_states` and `run_pinyin_regex`
 * (pinyin_regex/engine.py).  Each method is proved against a ghost
 * specification function; the lemmas state what the search promises.
 */
module Matcher {
  import opened Labels
  import opened Automaton

  /**
   * One unit of input: the source character `orig` (Python's
   * `token["char"]`) and its candidate spellings (`token["pinyins"]`).
   */
  datatype Token = Token(orig: string, cands: seq<string>)

  // ---------------------------------------------------------------------
  // epsilon_closure
  // ---------------------------------------------------------------------

  /**
   * The worklist loop of `epsilon_closure`.  The stack is kept as a set:
   * it never holds a state twice and the order of popping does not matter
   * to the result.  The input set is a value and stays unchanged.
   */
  method EpsilonClosure(g: Graph, states: set<nat>) returns (res: set<nat>)
    requires Valid(g) && InRange(g, states)
    ensures states <= res && EpsClosed(g, res)
    ensures res == Closure(g, states)
  {
    var stack := states;
    res := states;
    while stack != {}
      invariant stack <= res && states <= res && InRange(g, res)
      invariant forall q :: q in res && q !in stack ==> g.eps[q] <= res
      invariant res <= Closure(g, states)
      decreases AllStates(g) - res, stack
    {
      var s :| s in stack;
      stack := stack - {s};
      ghost var res0 := res;
      ghost var stack0 := stack;
      var succ := g.eps[s];
      while succ != {}
        invariant succ <= g.eps[s]
        invariant res0 <= res && InRange(g, res) && g.eps[s] - succ <= res
        invariant stack0 <= stack <= res && s !in stack0 && s in res0
        invariant forall q :: q in stack && q !in stack0 ==> q !in res0
        invariant forall q :: q in res && q !in res0 ==> q in stack
        invariant res <= Closure(g, states)
        decreases succ
      {
        var e :| e in succ;
        succ := succ - {e};
        if e !in res {
          res := res + {e};
          stack := stack + {e};
        }
      }
      if res != res0 {
        var x :| x in res && x !in res0;
        assert x in AllStates(g) - res0;
      }
    }
    ClosureLeast(g, states, res);
  }

  // ---------------------------------------------------------------------
  // Specification of advance_states
  // ---------------------------------------------------------------------

  /** Targets of the labels in `L` of state `q` that accept `ch`. */
  ghost function LabelTargets(g: Graph, u: CharClasses, q: nat, L: set<Label>, orig: string, ch: string): set<nat>
    requires q < |g.trans|
  {
    set l, t | l in L && l in g.trans[q] && MatchLabel(u, l, orig, ch) && t in g.trans[q][l] :: t
  }

  /** Targets of all labelled edges out of `S` that accept `ch` (`nxt` in the source). */
  ghost function MatchTargets(g: Graph, u: CharClasses, S: set<nat>, orig: string, ch: string): (r: set<nat>)
    requires Valid(g)
    ensures InRange(g, r)
  {
    set q, t | q in S && q < |g.trans| && t in LabelTargets(g, u, q, g.trans[q].Keys, orig, ch) :: t
  }

  /** Consuming the characters of `s` one at a time, stopping once nothing is left alive. */
  ghost function AdvanceChars(g: Graph, u: CharClasses, cur: set<nat>, orig: string, s: string): (r: set<nat>)
    requires Valid(g) && InRange(g, cur)
    ensures InRange(g, r)
    ensures EpsClosed(g, cur) ==> EpsClosed(g, r)
    decreases |s|
  {
    if s == [] then cur
    else
      var nxt := Closure(g, MatchTargets(g, u, cur, orig, [s[0]]));
      if nxt == {} then {} else AdvanceChars(g, u, nxt, orig, s[1..])
  }

  /** Some label of state `k` accepts the sentinel `s`. */
  ghost predicate SentinelHit(g: Graph, u: CharClasses, k: nat, orig: string, s: string)
    requires k < |g.trans|
  {
    exists l :: l in g.trans[k] && MatchLabel(u, l, orig, s)
  }

  /** The hit set of state `k`: the closure of its matching targets. */
  ghost function HitSet(g: Graph, u: CharClasses, k: nat, orig: string, s: string): set<nat>
    requires Valid(g) && k < |g.eps|
  {
    Closure(g, LabelTargets(g, u, k, g.trans[k].Keys, orig, s))
  }

  /** The states of `c` whose label accepts the sentinel `s`, each with its hit set. */
  ghost function SentinelHits(g: Graph, u: CharClasses, c: set<nat>, orig: string, s: string): map<nat, set<nat>>
    requires Valid(g)
  {
    map k | k in c && k < |g.eps| && SentinelHit(g, u, k, orig, s) :: HitSet(g, u, k, orig, s)
  }

  /**
   * The sentinel branch: the states `k .. n-1` are visited in ascending
   * order, and each one in `hits` replaces the running set `acc` by its
   * hit set; with no hit at all `acc` keeps its initial value.
   */
  ghost function SentinelScan(n: nat, k: nat, hits: map<nat, set<nat>>, acc: set<nat>): set<nat>
    decreases n - k
  {
    if k >= n then acc
    else SentinelScan(n, k + 1, hits, if k in hits then hits[k] else acc)
  }

  /** `advance_states(S, orig, s)`: the states alive after candidate `s` of a token. */
  ghost function Advance(g: Graph, u: CharClasses, S: set<nat>, orig: string, s: string): (r: set<nat>)
    requires Valid(g) && InRange(g, S)
    ensures InRange(g, r) && EpsClosed(g, r)
  {
    var c := Closure(g, S);
    if s == BOS || s == EOS then
      SentinelHitsClosed(g, u, c, orig, s);
      SentinelScanClosed(g, |g.eps|, 0, SentinelHits(g, u, c, orig, s), c);
      SentinelScan(|g.eps|, 0, SentinelHits(g, u, c, orig, s), c)
    else AdvanceChars(g, u, c, orig, s)
  }

  // ---------------------------------------------------------------------
  // advance_states
  // ---------------------------------------------------------------------

  /** With at most one label per state, a matching label carries all matching targets. */
  lemma LabelTargetsOne(g: Graph, u: CharClasses, q: nat, l: Label, orig: string, ch: string)
    requires Valid(g) && q < |g.eps| && l in g.trans[q] && MatchLabel(u, l, orig, ch)
    ensures LabelTargets(g, u, q, g.trans[q].Keys, orig, ch) == g.trans[q][l]
  {
    assert g.trans[q].Keys == {l};
  }

  /** Adding one label to the visited ones adds its matching targets. */
  lemma LabelTargetsAdd(g: Graph, u: CharClasses, q: nat, L: set<Label>, l: Label, orig: string, ch: string)
    requires q < |g.trans|
    ensures LabelTargets(g, u, q, L + {l}, orig, ch) ==
      LabelTargets(g, u, q, L, orig, ch) + (if l in g.trans[q] && MatchLabel(u, l, orig, ch) then g.trans[q][l] else {})
  {
  }

  /** Adding one state to the visited ones adds its matching targets. */
  lemma MatchTargetsAdd(g: Graph, u: CharClasses, S: set<nat>, q: nat, orig: string, ch: string)
    requires Valid(g) && q < |g.trans|
    ensures MatchTargets(g, u, S + {q}, orig, ch) ==
      MatchTargets(g, u, S, orig, ch) + LabelTargets(g, u, q, g.trans[q].Keys, orig, ch)
  {
  }

  /** The matching targets of the states of `cur` on the character `ch` (the inner loops of the source). */
  method CollectTargets(g: Graph, u: CharClasses, cur: set<nat>, orig: string, ch: string) returns (nxt: set<nat>)
    requires Valid(g) && InRange(g, cur)
    ensures nxt == MatchTargets(g, u, cur, orig, ch)
  {
    nxt := {};
    var todo := cur;
    while todo != {}
      invariant todo <= cur
      invariant nxt == MatchTargets(g, u, cur - todo, orig, ch)
      decreases todo
    {
      var st :| st in todo;
      ghost var done := cur - todo;
      todo := todo - {st};
      var labels := g.trans[st].Keys;
      while labels != {}
        invariant labels <= g.trans[st].Keys
        invariant nxt == MatchTargets(g, u, done, orig, ch) + LabelTargets(g, u, st, g.trans[st].Keys - labels, orig, ch)
        decreases labels
      {
        var l :| l in labels;
        LabelTargetsAdd(g, u, st, g.trans[st].Keys - labels, l, orig, ch);
        assert (g.trans[st].Keys - labels) + {l} == g.trans[st].Keys - (labels - {l});
        labels := labels - {l};
        if MatchLabel(u, l, orig, ch) {
          nxt := nxt + g.trans[st][l];
        }
      }
      MatchTargetsAdd(g, u, done, st, orig, ch);
      assert done + {st} == cur - todo;
    }
  }

  /**
   * One state of the sentinel branch: if a label of state `k` accepts `s`,
   * the running set becomes the closure of its targets.
   */
  method SentinelVisit(g: Graph, u: CharClasses, k: nat, orig: string, s: string, acc: set<nat>) returns (cur: set<nat>)
    requires Valid(g) && k < |g.eps| && InRange(g, acc)
    ensures SentinelHit(g, u, k, orig, s) ==> cur == HitSet(g, u, k, orig, s)
    ensures !SentinelHit(g, u, k, orig, s) ==> cur == acc
  {
    cur := acc;
    var labels := g.trans[k].Keys;
    while labels != {}
      invariant labels <= g.trans[k].Keys && InRange(g, cur)
      invariant (exists l :: l in g.trans[k].Keys - labels && MatchLabel(u, l, orig, s))
        ==> cur == Closure(g, LabelTargets(g, u, k, g.trans[k].Keys, orig, s))
      invariant !(exists l :: l in g.trans[k].Keys - labels && MatchLabel(u, l, orig, s)) ==> cur == acc
      decreases labels
    {
      var l :| l in labels;
      labels := labels - {l};
      if MatchLabel(u, l, orig, s) {
        cur := EpsilonClosure(g, g.trans[k][l]);
        LabelTargetsOne(g, u, k, l, orig, s);
      }
    }
  }

  /** The sentinel branch of `advance_states` over the closure `c`. */
  method SentinelAdvance(g: Graph, u: CharClasses, c: set<nat>, orig: string, s: string) returns (cur: set<nat>)
    requires Valid(g) && InRange(g, c)
    ensures cur == SentinelScan(|g.eps|, 0, SentinelHits(g, u, c, orig, s), c)
  {
    ghost var hits := SentinelHits(g, u, c, orig, s);
    cur := c;
    var k := 0;
    while k < |g.eps|
      invariant k <= |g.eps| && InRange(g, cur)
      invariant SentinelScan(|g.eps|, k, hits, cur) == SentinelScan(|g.eps|, 0, hits, c)
      decreases |g.eps| - k
    {
      if k in c {
        cur := SentinelVisit(g, u, k, orig, s, cur);
      }
      k := k + 1;
    }
  }

  /** The character branch of `advance_states`, from the closure `c`. */
  method CharsAdvance(g: Graph, u: CharClasses, c: set<nat>, orig: string, s: string) returns (cur: set<nat>)
    requires Valid(g) && InRange(g, c)
    ensures cur == AdvanceChars(g, u, c, orig, s)
  {
    cur := c;
    var j := 0;
    while j < |s|
      invariant j <= |s| && InRange(g, cur)
      invariant AdvanceChars(g, u, cur, orig, s[j..]) == AdvanceChars(g, u, c, orig, s)
      decreases |s| - j
    {
      var nxt := CollectTargets(g, u, cur, orig, [s[j]]);
      assert s[j..][1..] == s[j + 1..];
      cur := EpsilonClosure(g, nxt);
      if cur == {} {
        break;
      }
      j := j + 1;
    }
  }

  /**
   * `advance_states`: the closure of `states`, then either the sentinel
   * scan or the character-by-character step, exactly as `Advance` says.
   */
  method AdvanceStates(g: Graph, u: CharClasses, states: set<nat>, orig: string, s: string) returns (cur: set<nat>)
    requires Valid(g) && InRange(g, states)
    ensures cur == Advance(g, u, states, orig, s)
  {
    var c := EpsilonClosure(g, states);
    if s == BOS || s == EOS {
      cur := SentinelAdvance(g, u, c, orig, s);
    } else {
      cur := CharsAdvance(g, u, c, orig, s);
    }
  }

  // ---------------------------------------------------------------------
  // Specification of run_pinyin_regex
  // ---------------------------------------------------------------------

  /** The union of `Advance` over the candidates, in list order (`next_states`). */
  ghost function AdvanceAll(g: Graph, u: CharClasses, cur: set<nat>, orig: string, cands: seq<string>): (r: set<nat>)
    requires Valid(g) && InRange(g, cur)
    ensures InRange(g, r)
    decreases |cands|
  {
    if cands == [] then {}
    else AdvanceAll(g, u, cur, orig, cands[..|cands| - 1]) + Advance(g, u, cur, orig, cands[|cands| - 1])
  }

  /** Some candidate of `tok` reaches an accepting state (the early `return True`). */
  ghost predicate EarlyAccept(g: Graph, u: CharClasses, cur: set<nat>, tok: Token)
    requires Valid(g) && InRange(g, cur)
  {
    exists py :: py in tok.cands && AcceptsAny(g, Advance(g, u, cur, tok.orig, py))
  }

  /**
   * The outcome of the token loop from the current set `cur`, where `seed`
   * is the closure of the start state that is added back after every token.
   */
  ghost predicate RunFrom(g: Graph, u: CharClasses, seed: set<nat>, cur: set<nat>, toks: seq<Token>)
    requires Valid(g) && InRange(g, seed) && InRange(g, cur)
    decreases |toks|
  {
    if toks == [] then AcceptsAny(g, cur)
    else
      EarlyAccept(g, u, cur, toks[0])
      || RunFrom(g, u, seed, AdvanceAll(g, u, cur, toks[0].orig, toks[0].cands) + seed, toks[1..])
  }

  /** `run_pinyin_regex(start, tokens)` as a value. */
  ghost predicate Run(g: Graph, u: CharClasses, start: nat, toks: seq<Token>)
    requires Valid(g) && start < |g.eps|
  {
    var seed := Closure(g, {start});
    RunFrom(g, u, seed, seed, toks)
  }

  // ---------------------------------------------------------------------
  // run_pinyin_regex
  // ---------------------------------------------------------------------

  /**
   * The candidate loop for one token: stops at the first candidate whose
   * set accepts, otherwise returns the union of the candidates' sets.
   */
  method StepToken(g: Graph, u: CharClasses, current: set<nat>, tok: Token) returns (accepted: bool, next: set<nat>)
    requires Valid(g) && InRange(g, current)
    ensures accepted == EarlyAccept(g, u, current, tok)
    ensures !accepted ==> next == AdvanceAll(g, u, current, tok.orig, tok.cands)
  {
    next := {};
    var j := 0;
    while j < |tok.cands|
      invariant j <= |tok.cands| && InRange(g, next)
      invariant next == AdvanceAll(g, u, current, tok.orig, tok.cands[..j])
      invariant forall py :: py in tok.cands[..j] ==> !AcceptsAny(g, Advance(g, u, current, tok.orig, py))
      decreases |tok.cands| - j
    {
      var st := AdvanceStates(g, u, current, tok.orig, tok.cands[j]);
      if AcceptsAny(g, st) {
        assert tok.cands[j] in tok.cands;
        return true, next;
      }
      AdvanceAllSnoc(g, u, current, tok.orig, tok.cands, j);
      next := next + st;
      j := j + 1;
    }
    assert tok.cands[..j] == tok.cands;
    accepted := false;
  }

  /** One more candidate adds its set to the union. */
  lemma AdvanceAllSnoc(g: Graph, u: CharClasses, cur: set<nat>, orig: string, cands: seq<string>, j: nat)
    requires Valid(g) && InRange(g, cur) && j < |cands|
    ensures AdvanceAll(g, u, cur, orig, cands[..j + 1])
      == AdvanceAll(g, u, cur, orig, cands[..j]) + Advance(g, u, cur, orig, cands[j])
    ensures forall py :: py in cands[..j + 1] <==> py in cands[..j] || py == cands[j]
  {
    assert cands[..j + 1][..j] == cands[..j];
  }

  /** One token of the run, from position `i` of `toks`. */
  lemma RunFromUnfold(g: Graph, u: CharClasses, seed: set<nat>, cur: set<nat>, toks: seq<Token>, i: nat)
    requires Valid(g) && InRange(g, seed) && InRange(g, cur) && i < |toks|
    ensures RunFrom(g, u, seed, cur, toks[i..]) ==
      (EarlyAccept(g, u, cur, toks[i])
       || RunFrom(g, u, seed, AdvanceAll(g, u, cur, toks[i].orig, toks[i].cands) + seed, toks[i + 1..]))
  {
    assert toks[i..][0] == toks[i] && toks[i..][1..] == toks[i + 1..];
  }

  /**
   * `run_pinyin_regex`: returns at the first candidate that reaches an
   * accepting state, otherwise carries the union of all candidates' sets
   * plus the start closure to the next token.
   */
  method RunPinyinRegex(g: Graph, u: CharClasses, start: nat, tokens: seq<Token>) returns (matched: bool)
    requires Valid(g) && start < |g.eps|
    ensures matched == Run(g, u, start, tokens)
  {
    var startClosure := EpsilonClosure(g, {start});
    var current := startClosure;
    var i := 0;
    while i < |tokens|
      invariant i <= |tokens| && InRange(g, current)
      invariant Run(g, u, start, tokens) == RunFrom(g, u, startClosure, current, tokens[i..])
      decreases |tokens| - i
    {
      var accepted, next := StepToken(g, u, current, tokens[i]);
      RunFromUnfold(g, u, startClosure, current, tokens, i);
      if accepted {
        return true;
      }
      current := next + startClosure;
      i := i + 1;
    }
    matched := AcceptsAny(g, current);
  }

  // ---------------------------------------------------------------------
  // Properties of advance_states
  // ---------------------------------------------------------------------

  /** Once nothing is alive, consuming more characters keeps nothing alive. */
  lemma {:induction false} AdvanceCharsEmpty(g: Graph, u: CharClasses, orig: string, s: string)
    requires Valid(g)
    ensures AdvanceChars(g, u, {}, orig, s) == {}
  {
    if s != [] {
      var mt := MatchTargets(g, u, {}, orig, [s[0]]);
      assert mt == {};
      ClosureIdempotent(g, {});
    }
  }

  /** Outside the sentinel branch, more states before a candidate give more states after it. */
  lemma {:induction false} AdvanceCharsMono(g: Graph, u: CharClasses, A: set<nat>, B: set<nat>, orig: string, s: string)
    requires Valid(g) && InRange(g, B) && A <= B
    ensures AdvanceChars(g, u, A, orig, s) <= AdvanceChars(g, u, B, orig, s)
    decreases |s|
  {
    if s != [] {
      var ma := MatchTargets(g, u, A, orig, [s[0]]);
      var mb := MatchTargets(g, u, B, orig, [s[0]]);
      assert ma <= mb;
      ClosureMono(g, ma, mb);
      var na := Closure(g, ma);
      var nb := Closure(g, mb);
      if na != {} {
        AdvanceCharsMono(g, u, na, nb, orig, s[1..]);
      }
    }
  }

  /** `advance_states` is monotone in its input set for every non-sentinel candidate. */
  lemma AdvanceMono(g: Graph, u: CharClasses, A: set<nat>, B: set<nat>, orig: string, s: string)
    requires Valid(g) && InRange(g, B) && A <= B && s != BOS && s != EOS
    ensures Advance(g, u, A, orig, s) <= Advance(g, u, B, orig, s)
  {
    ClosureMono(g, A, B);
    AdvanceCharsMono(g, u, Closure(g, A), Closure(g, B), orig, s);
  }

  /** An empty candidate only takes the closure. */
  lemma AdvanceEmptyCandidate(g: Graph, u: CharClasses, S: set<nat>, orig: string)
    requires Valid(g) && InRange(g, S)
    ensures Advance(g, u, S, orig, "") == Closure(g, S)
  {
    assert "" != BOS;
  }

  /** Every hit set is an epsilon-closed set of states. */
  lemma SentinelHitsClosed(g: Graph, u: CharClasses, c: set<nat>, orig: string, s: string)
    requires Valid(g)
    ensures forall k :: k in SentinelHits(g, u, c, orig, s) ==>
      InRange(g, SentinelHits(g, u, c, orig, s)[k]) && EpsClosed(g, SentinelHits(g, u, c, orig, s)[k])
  {
  }

  /** The scan ends in an epsilon-closed set of states when it starts in one and every hit set is one. */
  lemma {:induction false} SentinelScanClosed(g: Graph, n: nat, k: nat, hits: map<nat, set<nat>>, acc: set<nat>)
    requires InRange(g, acc) && EpsClosed(g, acc)
    requires forall j :: j in hits ==> InRange(g, hits[j]) && EpsClosed(g, hits[j])
    ensures InRange(g, SentinelScan(n, k, hits, acc)) && EpsClosed(g, SentinelScan(n, k, hits, acc))
    decreases n - k
  {
    if k < n {
      SentinelScanClosed(g, n, k + 1, hits, if k in hits then hits[k] else acc);
    }
  }

  /** Scanning states from `k` on changes nothing when none of them is a hit. */
  lemma {:induction false} SentinelScanNoHit(n: nat, k: nat, hits: map<nat, set<nat>>, acc: set<nat>)
    requires forall j :: k <= j < n ==> j !in hits
    ensures SentinelScan(n, k, hits, acc) == acc
    decreases n - k
  {
    if k < n {
      SentinelScanNoHit(n, k + 1, hits, acc);
    }
  }

  /** Scanning from any `j <= k` passes the hit `k`, which overwrites whatever was collected before it. */
  lemma {:induction false} SentinelScanPasses(n: nat, j: nat, k: nat, hits: map<nat, set<nat>>, acc: set<nat>)
    requires j <= k < n && k in hits
    ensures SentinelScan(n, j, hits, acc) == SentinelScan(n, k + 1, hits, hits[k])
    decreases k - j
  {
    if j < k {
      SentinelScanPasses(n, j + 1, k, hits, if j in hits then hits[j] else acc);
    }
  }

  /**
   * The sentinel branch: with no matching label in the closure, the
   * closure itself survives the sentinel; otherwise only the targets of
   * the last matching state (in visiting order) do.
   */
  lemma SentinelLastHitWins(g: Graph, u: CharClasses, S: set<nat>, orig: string, s: string, k: nat)
    requires Valid(g) && InRange(g, S) && (s == BOS || s == EOS)
    requires k < |g.eps| && k in Closure(g, S) && SentinelHit(g, u, k, orig, s)
    requires forall j :: k < j < |g.eps| && j in Closure(g, S) ==> !SentinelHit(g, u, j, orig, s)
    ensures Advance(g, u, S, orig, s) == HitSet(g, u, k, orig, s)
  {
    var c := Closure(g, S);
    AdvanceSentinel(g, u, S, orig, s);
    SentinelHitsKeys(g, u, c, orig, s, k);
    ScanLastHit(|g.eps|, k, SentinelHits(g, u, c, orig, s), c);
  }

  /** The sentinel branch of `Advance`, unfolded. */
  lemma AdvanceSentinel(g: Graph, u: CharClasses, S: set<nat>, orig: string, s: string)
    requires Valid(g) && InRange(g, S) && (s == BOS || s == EOS)
    ensures Advance(g, u, S, orig, s) == SentinelScan(|g.eps|, 0, SentinelHits(g, u, Closure(g, S), orig, s), Closure(g, S))
  {
  }

  /** A scan from 0 whose last hit is `k` ends with the hit set of `k`. */
  lemma ScanLastHit(n: nat, k: nat, hits: map<nat, set<nat>>, acc: set<nat>)
    requires k < n && k in hits && forall j :: k + 1 <= j < n ==> j !in hits
    ensures SentinelScan(n, 0, hits, acc) == hits[k]
  {
    SentinelScanPasses(n, 0, k, hits, acc);
    SentinelScanNoHit(n, k + 1, hits, hits[k]);
  }

  /** `k` is the last hit of `c`: it is in the map with its hit set, and no later state is. */
  lemma SentinelHitsKeys(g: Graph, u: CharClasses, c: set<nat>, orig: string, s: string, k: nat)
    requires Valid(g) && k < |g.eps| && k in c && SentinelHit(g, u, k, orig, s)
    requires forall j :: k < j < |g.eps| && j in c ==> !SentinelHit(g, u, j, orig, s)
    ensures k in SentinelHits(g, u, c, orig, s) && SentinelHits(g, u, c, orig, s)[k] == HitSet(g, u, k, orig, s)
    ensures forall j :: k + 1 <= j < |g.eps| ==> j !in SentinelHits(g, u, c, orig, s)
  {
  }

  /** The other half: a sentinel nobody matches leaves the closure in place. */
  lemma SentinelNoHitKeeps(g: Graph, u: CharClasses, S: set<nat>, orig: string, s: string)
    requires Valid(g) && InRange(g, S) && (s == BOS || s == EOS)
    requires forall j :: j < |g.eps| && j in Closure(g, S) ==> !SentinelHit(g, u, j, orig, s)
    ensures Advance(g, u, S, orig, s) == Closure(g, S)
  {
    SentinelScanNoHit(|g.eps|, 0, SentinelHits(g, u, Closure(g, S), orig, s), Closure(g, S));
  }

  // ---------------------------------------------------------------------
  // Properties of run_pinyin_regex
  // ---------------------------------------------------------------------

  /** The union over the candidates holds exactly what some candidate leaves alive. */
  lemma {:induction false} AdvanceAllMembers(g: Graph, u: CharClasses, cur: set<nat>, orig: string, cands: seq<string>, q: nat)
    requires Valid(g) && InRange(g, cur)
    ensures q in AdvanceAll(g, u, cur, orig, cands) <==> exists py :: py in cands && q in Advance(g, u, cur, orig, py)
    decreases |cands|
  {
    if cands != [] {
      var init := cands[..|cands| - 1];
      AdvanceAllMembers(g, u, cur, orig, init, q);
      assert forall py :: py in cands <==> py in init || py == cands[|cands| - 1];
    }
  }

  /** Candidates with no sentinel among them. */
  ghost predicate NoSentinel(toks: seq<Token>) {
    forall i, py :: 0 <= i < |toks| && py in toks[i].cands ==> py != BOS && py != EOS
  }

  /** An accepting start closure accepts every input, and stays in every later set. */
  lemma {:induction false} RunSeedAccepting(g: Graph, u: CharClasses, seed: set<nat>, cur: set<nat>, toks: seq<Token>)
    requires Valid(g) && InRange(g, seed) && InRange(g, cur) && seed <= cur && AcceptsAny(g, seed)
    ensures RunFrom(g, u, seed, cur, toks)
    decreases |toks|
  {
    if toks != [] && !EarlyAccept(g, u, cur, toks[0]) {
      RunSeedAccepting(g, u, seed, AdvanceAll(g, u, cur, toks[0].orig, toks[0].cands) + seed, toks[1..]);
    }
  }

  /** If the pattern matches the empty input, it matches every input. */
  lemma RunEmptyMatchAcceptsAll(g: Graph, u: CharClasses, start: nat, toks: seq<Token>)
    requires Valid(g) && start < |g.eps| && Run(g, u, start, [])
    ensures Run(g, u, start, toks)
  {
    var seed := Closure(g, {start});
    RunSeedAccepting(g, u, seed, seed, toks);
  }

  /** Without sentinel candidates, a larger current set never loses a match. */
  lemma {:induction false} RunFromMono(g: Graph, u: CharClasses, seed: set<nat>, A: set<nat>, B: set<nat>, toks: seq<Token>)
    requires Valid(g) && InRange(g, seed) && InRange(g, B) && A <= B && NoSentinel(toks)
    requires RunFrom(g, u, seed, A, toks)
    ensures RunFrom(g, u, seed, B, toks)
    decreases |toks|
  {
    if toks == [] {
      var q :| q in A && g.accept[q];
    } else {
      var t := toks[0];
      forall py | py in t.cands ensures Advance(g, u, A, t.orig, py) <= Advance(g, u, B, t.orig, py) {
        assert NoSentinel(toks) && 0 < |toks| && py in toks[0].cands;
        AdvanceMono(g, u, A, B, t.orig, py);
      }
      if EarlyAccept(g, u, A, t) {
        var py :| py in t.cands && AcceptsAny(g, Advance(g, u, A, t.orig, py));
        assert AcceptsAny(g, Advance(g, u, B, t.orig, py));
      } else {
        var na := AdvanceAll(g, u, A, t.orig, t.cands);
        var nb := AdvanceAll(g, u, B, t.orig, t.cands);
        forall q | q in na ensures q in nb {
          AdvanceAllMembers(g, u, A, t.orig, t.cands, q);
          AdvanceAllMembers(g, u, B, t.orig, t.cands, q);
        }
        assert NoSentinel(toks[1..]) by {
          forall i, py | 0 <= i < |toks[1..]| && py in toks[1..][i].cands ensures py != BOS && py != EOS {
            assert toks[1..][i] == toks[i + 1];
          }
        }
        RunFromMono(g, u, seed, na + seed, nb + seed, toks[1..]);
      }
    }
  }

  /** A set carried to the next token accepts only if the token returned early or the seed accepts. */
  lemma NextAcceptsOnlyBySeed(g: Graph, u: CharClasses, seed: set<nat>, cur: set<nat>, t: Token)
    requires Valid(g) && InRange(g, seed) && InRange(g, cur)
    requires AcceptsAny(g, AdvanceAll(g, u, cur, t.orig, t.cands) + seed)
    ensures EarlyAccept(g, u, cur, t) || AcceptsAny(g, seed)
  {
    var q :| q in AdvanceAll(g, u, cur, t.orig, t.cands) + seed && g.accept[q];
    if q !in seed {
      AdvanceAllMembers(g, u, cur, t.orig, t.cands, q);
      var py :| py in t.cands && q in Advance(g, u, cur, t.orig, py);
      assert AcceptsAny(g, Advance(g, u, cur, t.orig, py));
    }
  }

  lemma {:induction false} RunFromAppend(g: Graph, u: CharClasses, seed: set<nat>, cur: set<nat>, t1: seq<Token>, t2: seq<Token>)
    requires Valid(g) && InRange(g, seed) && InRange(g, cur) && seed <= cur
    requires AcceptsAny(g, cur) ==> AcceptsAny(g, seed)
    requires RunFrom(g, u, seed, cur, t1)
    ensures RunFrom(g, u, seed, cur, t1 + t2)
    decreases |t1|
  {
    if t1 == [] {
      assert t1 + t2 == t2;
      RunSeedAccepting(g, u, seed, cur, t2);
    } else {
      assert (t1 + t2)[0] == t1[0] && (t1 + t2)[1..] == t1[1..] + t2;
      if !EarlyAccept(g, u, cur, t1[0]) {
        var next := AdvanceAll(g, u, cur, t1[0].orig, t1[0].cands) + seed;
        if AcceptsAny(g, next) {
          NextAcceptsOnlyBySeed(g, u, seed, cur, t1[0]);
        }
        RunFromAppend(g, u, seed, next, t1[1..], t2);
      }
    }
  }

  /** A match found in some tokens stays found whatever tokens follow. */
  lemma RunExtendRight(g: Graph, u: CharClasses, start: nat, t1: seq<Token>, t2: seq<Token>)
    requires Valid(g) && start < |g.eps| && Run(g, u, start, t1)
    ensures Run(g, u, start, t1 + t2)
  {
    var seed := Closure(g, {start});
    RunFromAppend(g, u, seed, seed, t1, t2);
  }

  lemma {:induction false} RunFromPrepend(g: Graph, u: CharClasses, seed: set<nat>, cur: set<nat>, t1: seq<Token>, t2: seq<Token>)
    requires Valid(g) && InRange(g, seed) && InRange(g, cur) && seed <= cur && NoSentinel(t2)
    requires RunFrom(g, u, seed, seed, t2)
    ensures RunFrom(g, u, seed, cur, t1 + t2)
    decreases |t1|
  {
    if t1 == [] {
      assert t1 + t2 == t2;
      RunFromMono(g, u, seed, seed, cur, t2);
    } else {
      assert (t1 + t2)[0] == t1[0] && (t1 + t2)[1..] == t1[1..] + t2;
      var next := AdvanceAll(g, u, cur, t1[0].orig, t1[0].cands) + seed;
      RunFromPrepend(g, u, seed, next, t1[1..], t2);
    }
  }

  /**
   * The search is unanchored: the start closure is added back after every
   * token, so a match of sentinel-free tokens is also found after any
   * tokens before it.
   */
  lemma RunExtendLeft(g: Graph, u: CharClasses, start: nat, t1: seq<Token>, t2: seq<Token>)
    requires Valid(g) && start < |g.eps| && NoSentinel(t2) && Run(g, u, start, t2)
    ensures Run(g, u, start, t1 + t2)
  {
    var seed := Closure(g, {start});
    RunFromPrepend(g, u, seed, seed, t1, t2);
  }

  /** Two token lists with the same characters and the same candidate sets, in any order. */
  ghost predicate SameCandidates(t1: seq<Token>, t2: seq<Token>) {
    && |t1| == |t2|
    && forall i :: 0 <= i < |t1| ==>
         t1[i].orig == t2[i].orig && forall py :: py in t1[i].cands <==> py in t2[i].cands
  }

  /** The order (and repetition) of a token's candidates does not change the verdict. */
  lemma {:induction false} RunCandidateOrder(g: Graph, u: CharClasses, seed: set<nat>, cur: set<nat>, t1: seq<Token>, t2: seq<Token>)
    requires Valid(g) && InRange(g, seed) && InRange(g, cur) && SameCandidates(t1, t2)
    ensures RunFrom(g, u, seed, cur, t1) == RunFrom(g, u, seed, cur, t2)
    decreases |t1|
  {
    if t1 != [] {
      var a := t1[0];
      var b := t2[0];
      var na := AdvanceAll(g, u, cur, a.orig, a.cands);
      var nb := AdvanceAll(g, u, cur, b.orig, b.cands);
      forall q | q in na + nb ensures q in na <==> q in nb {
        AdvanceAllMembers(g, u, cur, a.orig, a.cands, q);
        AdvanceAllMembers(g, u, cur, b.orig, b.cands, q);
      }
      assert na == nb;
      assert EarlyAccept(g, u, cur, a) == EarlyAccept(g, u, cur, b);
      assert SameCandidates(t1[1..], t2[1..]) by {
        forall i | 0 <= i < |t1[1..]|
          ensures t1[1..][i].orig == t2[1..][i].orig && forall py :: py in t1[1..][i].cands <==> py in t2[1..][i].cands
        {
          assert t1[1..][i] == t1[i + 1] && t2[1..][i] == t2[i + 1];
        }
      }
      RunCandidateOrder(g, u, seed, na + seed, t1[1..], t2[1..]);
    }
  }
}
