/**
 * The recursive-descent parser of pinyin_regex/parser.py: a `Parser`
 * object with the pattern `p` and the cursor `i`, whose `parse_*`
 * methods build fragments in an `Arena`.  Each method is proved against
 * the scanner of module Syntax: it ends where the scanner says, hangs
 * or raises when the scanner does, and otherwise builds exactly what
 * `Builds` of module Building says for the expression the scanner
 * recognised, a well-formed fragment in a graph that only grew.
 */
module Parsing {
  import opened Wrappers
  import opened Labels
  import opened Automaton
  import opened Fragments
  import opened Construction
  import opened Repeats
  import opened Syntax
  import opened Building
  import opened Matcher

  /**
   * What a `parse_*` call does: return a fragment, loop forever (a
   * malformed `{` quantifier), or raise IndexError (a class ending in `-`).
   */
  datatype Parsed = Built(f: Frag) | Hangs | IndexError

  /**
   * A `parse_*` call that took the graph from `g` to `h` and left the
   * cursor at `i` did what the scan `s` says: it built the expression the
   * scanner recognised and stopped where the scanner stops, or it hangs or
   * raises where the scanner does.
   */
  ghost predicate Agrees(g: Graph, h: Graph, r: Parsed, i: nat, s: Scan) {
    match s
    case Stop(next, t) => r.Built? && i == next && Builds(g, h, r.f, t)
    case Hang => r == Hangs
    case Crash => r == IndexError
  }

  /**
   * `h` is `g` after more construction and has no accepting state: while
   * a pattern is parsed, every state is one the parser made, and
   * `compile_regex` marks the single accepting state only at the end.
   */
  ghost predicate Grew(g: Graph, h: Graph) {
    Extends(g, h) && NoAccept(h)
  }

  lemma GrewTransitive(f: Graph, g: Graph, h: Graph)
    requires Grew(f, g) && Grew(g, h)
    ensures Grew(f, h)
  {
    ExtendsTransitive(f, g, h);
  }

  /** Every fragment of `fs` is well formed in `g`. */
  ghost predicate AllWellFormed(g: Graph, fs: seq<Frag>) {
    forall k :: 0 <= k < |fs| ==> WellFormed(g, fs[k])
  }

  lemma AllWellFormedMono(g: Graph, h: Graph, fs: seq<Frag>)
    requires Extends(g, h) && AllWellFormed(g, fs)
    ensures AllWellFormed(h, fs)
  {
    forall k | 0 <= k < |fs| ensures WellFormed(h, fs[k]) {
      WellFormedMono(g, h, fs[k]);
    }
  }

  // ---------------------------------------------------------------------
  // The construction steps the parser takes
  // ---------------------------------------------------------------------

  /** `alt_frag(left, right)`, where `left` was built in the earlier graph `h`. */
  method AltJoin(nfa: Arena, ghost g: Graph, ghost h: Graph, left: Frag, right: Frag) returns (f: Frag)
    requires nfa.Valid() && Grew(g, h) && WellFormed(h, left)
    requires Grew(h, nfa.Snapshot()) && WellFormed(nfa.Snapshot(), right)
    modifies nfa
    ensures nfa.Valid() && Grew(g, nfa.Snapshot()) && WellFormed(nfa.Snapshot(), f)
    ensures AltBuilt(old(nfa.Snapshot()), nfa.Snapshot(), left, right, f)
  {
    ghost var h' := nfa.Snapshot();
    WellFormedMono(h, h', left);
    var n := |nfa.eps|;
    f := Alt(nfa, left, right);
    ghost var h'' := nfa.Snapshot();
    AltWellFormed(h', h'', left, right, n);
    GrowsExtends(h', h'', 2, AltEdges(n, left, right));
    GrewTransitive(h, h', h'');
    GrewTransitive(g, h, h'');
  }

  /** The empty sequence: one fresh state that is both start and end. */
  method EmptySeq(nfa: Arena) returns (f: Frag)
    requires nfa.Valid() && NoAccept(nfa.Snapshot())
    modifies nfa
    ensures nfa.Valid() && Grew(old(nfa.Snapshot()), nfa.Snapshot()) && WellFormed(nfa.Snapshot(), f)
    ensures Joins(old(nfa.Snapshot()), nfa.Snapshot(), [], f)
  {
    ghost var g := nfa.Snapshot();
    GrowsRefl(g);
    var s := Fresh(nfa, g, 0, {});
    f := Frag(s, s);
    ReachesRefl(nfa.Snapshot(), s);
    GrowsExtends(g, nfa.Snapshot(), 1, {});
  }

  /** `res = frags[0]; for f in frags[1:]: res = concat_frag(res, f)`. */
  method ConcatAll(nfa: Arena, frags: seq<Frag>) returns (res: Frag)
    requires nfa.Valid() && NoAccept(nfa.Snapshot()) && |frags| > 0 && AllWellFormed(nfa.Snapshot(), frags)
    modifies nfa
    ensures nfa.Valid() && Grew(old(nfa.Snapshot()), nfa.Snapshot()) && WellFormed(nfa.Snapshot(), res)
    ensures Joins(old(nfa.Snapshot()), nfa.Snapshot(), frags, res)
  {
    ghost var g := nfa.Snapshot();
    res := frags[0];
    GrowsRefl(g);
    ExtendsRefl(g);
    for k := 1 to |frags|
      invariant nfa.Valid() && Grew(g, nfa.Snapshot()) && AllWellFormed(nfa.Snapshot(), frags)
      invariant WellFormed(nfa.Snapshot(), res) && res == Frag(frags[0].start, frags[k - 1].end)
      invariant Grows(g, nfa.Snapshot(), 0, ChainEdges(frags[..k]))
    {
      ghost var h := nfa.Snapshot();
      var prev := res;
      res := Concat(nfa, prev, frags[k]);
      ghost var h' := nfa.Snapshot();
      ConcatWellFormed(h, h', prev, frags[k]);
      GrowsExtends(h, h', 0, {(prev.end, frags[k].start)});
      AllWellFormedMono(h, h', frags);
      GrewTransitive(g, h, h');
      GrowsThen(g, h, h', 0, ChainEdges(frags[..k]), {(prev.end, frags[k].start)});
      ChainStep(frags, k);
    }
    assert frags[..|frags|] == frags;
  }

  /** The `op` dispatch of `parse_repeat`: `star_frag`, `plus_frag` or `question_frag`. */
  method Postfix(nfa: Arena, op: char, a: Frag) returns (f: Frag)
    requires nfa.Valid() && NoAccept(nfa.Snapshot()) && WellFormed(nfa.Snapshot(), a)
    modifies nfa
    ensures nfa.Valid() && Grew(old(nfa.Snapshot()), nfa.Snapshot()) && WellFormed(nfa.Snapshot(), f)
    ensures PostBuilt(old(nfa.Snapshot()), nfa.Snapshot(), op, a, f)
  {
    ghost var g := nfa.Snapshot();
    var n := |nfa.eps|;
    if op == '*' {
      f := Star(nfa, a);
      ghost var E := StarEdges(n, a);
      SkipEdge(g, nfa.Snapshot(), 2, E, n, n + 1);
      GrowsExtends(g, nfa.Snapshot(), 2, E);
    } else if op == '+' {
      f := Plus(nfa, a);
      ghost var E := PlusEdges(n, a);
      PlusWellFormed(g, nfa.Snapshot(), a, n, n + 1);
      GrowsExtends(g, nfa.Snapshot(), 2, E);
    } else if op == '?' {
      f := Question(nfa, a);
      ghost var E := QuestionEdges(n, a);
      SkipEdge(g, nfa.Snapshot(), 2, E, n, n + 1);
      GrowsExtends(g, nfa.Snapshot(), 2, E);
    } else {
      f := a;
      ExtendsRefl(g);
    }
  }

  /** Adds the characters with code points `lo` to `hi` to `chars`: `for code in range(ord(c), ord(end) + 1)`. */
  method AddCodeRange(chars: set<char>, lo: char, hi: char) returns (r: set<char>)
    ensures r == chars + CharRange(lo as int, hi as int)
  {
    r := chars;
    var code := lo as int;
    while code <= hi as int
      invariant lo as int <= code <= (if hi < lo then lo as int else hi as int + 1)
      invariant r == chars + CharRange(lo as int, code - 1)
      decreases hi as int + 1 - code
    {
      if IsScalar(code) {
        r := r + {code as char};
      }
      code := code + 1;
    }
  }

  class Parser {
    const p: string
    var i: nat

    constructor (pattern: string)
      ensures p == pattern && i == 0
    {
      p := pattern;
      i := 0;
    }

    /** The character under the cursor, or None past the end. */
    function Peek(): (c: Option<char>)
      reads this
      ensures c.None? <==> i >= |p|
      ensures c.Some? ==> c.value == p[i]
    {
      if i < |p| then Some(p[i]) else None
    }

    /** The character under the cursor; the cursor advances even past the end. */
    method Get() returns (c: Option<char>)
      modifies this
      ensures i == old(i) + 1 && c == old(Peek())
    {
      c := Peek();
      i := i + 1;
    }

    /** `parse`: the whole pattern is an alternation. */
    method Parse(nfa: Arena) returns (r: Parsed)
      requires nfa.Valid() && NoAccept(nfa.Snapshot())
      modifies this, nfa
      ensures nfa.Valid() && Grew(old(nfa.Snapshot()), nfa.Snapshot())
      ensures Agrees(old(nfa.Snapshot()), nfa.Snapshot(), r, i, ScanAlt(p, old(i)))
      ensures r.Built? ==> WellFormed(nfa.Snapshot(), r.f)
      ensures old(i) >= |p| || p[old(i)] == ')' ==> r.Built? && r.f.start == r.f.end
    {
      r := ParseAlt(nfa);
    }

    /** `parse_alt`: sequences separated by `|`, joined by `alt_frag`. */
    method ParseAlt(nfa: Arena) returns (r: Parsed)
      requires nfa.Valid() && NoAccept(nfa.Snapshot())
      modifies this, nfa
      ensures nfa.Valid() && Grew(old(nfa.Snapshot()), nfa.Snapshot())
      ensures Agrees(old(nfa.Snapshot()), nfa.Snapshot(), r, i, ScanAlt(p, old(i)))
      ensures r.Built? ==> WellFormed(nfa.Snapshot(), r.f)
      ensures old(i) >= |p| || p[old(i)] == ')' ==> r.Built? && r.f.start == r.f.end
      decreases Room(p, i), 6
    {
      ghost var g := nfa.Snapshot();
      ghost var i0 := i;
      r := ParseSeq(nfa);
      if !r.Built? {
        return;
      }
      var left := r.f;
      ghost var leftRe := ScanSeq(p, i0).re;
      assert i0 >= |p| || p[i0] == ')' ==> ScanSeq(p, i0) == Stop(i0, Cat(Nil));
      while Peek() == Some('|')
        invariant nfa.Valid() && Grew(g, nfa.Snapshot()) && WellFormed(nfa.Snapshot(), left)
        invariant Builds(g, nfa.Snapshot(), left, leftRe) && AltTail(p, i, leftRe) == ScanAlt(p, i0)
        invariant i0 >= |p| || p[i0] == ')' ==> i == i0 && left.start == left.end
        decreases Room(p, i)
      {
        var joined;
        joined, leftRe := AltBranch(nfa, g, left, leftRe);
        if !joined.Built? {
          return joined;
        }
        left := joined.f;
      }
      r := Built(left);
    }

    /**
     * One round of the `while self.peek() == "|"` loop of `parse_alt`: the
     * bar, the next sequence, and `alt_frag` of what came before and that
     * sequence.
     */
    method AltBranch(nfa: Arena, ghost g: Graph, left: Frag, ghost leftRe: Regex) returns (r: Parsed, ghost re: Regex)
      requires nfa.Valid() && Grew(g, nfa.Snapshot()) && WellFormed(nfa.Snapshot(), left)
      requires Builds(g, nfa.Snapshot(), left, leftRe) && i < |p| && p[i] == '|'
      modifies this, nfa
      ensures nfa.Valid() && Grew(g, nfa.Snapshot())
      ensures match ScanSeq(p, old(i) + 1)
        case Stop(k, right) =>
          && r.Built? && i == k && re == Or(leftRe, right)
          && Builds(g, nfa.Snapshot(), r.f, re) && WellFormed(nfa.Snapshot(), r.f)
        case Hang => r == Hangs
        case Crash => r == IndexError
      decreases Room(p, i), 5
    {
      var bar := Get();
      ghost var h := nfa.Snapshot();
      ghost var ib := i;
      var right := ParseSeq(nfa);
      if !right.Built? {
        return right, leftRe;
      }
      ghost var h1 := nfa.Snapshot();
      ghost var rightRe := ScanSeq(p, ib).re;
      var f := AltJoin(nfa, g, h, left, right.f);
      OrIntro(g, h, h1, nfa.Snapshot(), left, right.f, f, leftRe, rightRe);
      re := Or(leftRe, rightRe);
      r := Built(f);
    }

    /** `parse_seq`: repeats up to the end, a `|` or a `)`, joined by `concat_frag`. */
    method ParseSeq(nfa: Arena) returns (r: Parsed)
      requires nfa.Valid() && NoAccept(nfa.Snapshot())
      modifies this, nfa
      ensures nfa.Valid() && Grew(old(nfa.Snapshot()), nfa.Snapshot())
      ensures Agrees(old(nfa.Snapshot()), nfa.Snapshot(), r, i, ScanSeq(p, old(i)))
      ensures r.Built? ==> WellFormed(nfa.Snapshot(), r.f)
      ensures old(i) >= |p| || p[old(i)] == '|' || p[old(i)] == ')' ==> r.Built? && r.f.start == r.f.end
      decreases Room(p, i), 4
    {
      ghost var g := nfa.Snapshot();
      ghost var i0 := i;
      var frags: seq<Frag> := [];
      ghost var acc: Items := Nil;
      ExtendsRefl(g);
      NilIntro(g);
      while true
        invariant nfa.Valid() && Grew(g, nfa.Snapshot()) && AllWellFormed(nfa.Snapshot(), frags)
        invariant BuildsAll(g, nfa.Snapshot(), frags, acc)
        invariant i0 <= i && SeqTail(p, i, acc) == ScanSeq(p, i0)
        invariant frags == [] ==> i == i0
        invariant i0 >= |p| || p[i0] == '|' || p[i0] == ')' ==> frags == []
        decreases Room(p, i)
      {
        var c := Peek();
        if c.None? || c.value == '|' || c.value == ')' {
          break;
        }
        var a;
        a, acc := SeqItem(nfa, g, frags, acc);
        if !a.Built? {
          return a;
        }
        frags := frags + [a.f];
      }
      var f := SeqJoin(nfa, g, frags, acc);
      r := Built(f);
    }

    /** One repeat of the loop of `parse_seq`, appended to the fragments `frags` read so far. */
    method SeqItem(nfa: Arena, ghost g: Graph, frags: seq<Frag>, ghost acc: Items) returns (r: Parsed, ghost items: Items)
      requires nfa.Valid() && Grew(g, nfa.Snapshot()) && AllWellFormed(nfa.Snapshot(), frags)
      requires BuildsAll(g, nfa.Snapshot(), frags, acc)
      modifies this, nfa
      ensures nfa.Valid() && Grew(g, nfa.Snapshot())
      ensures match ScanRepeat(p, old(i))
        case Stop(j, t) =>
          && r.Built? && i == j && items == Snoc(acc, t)
          && AllWellFormed(nfa.Snapshot(), frags + [r.f]) && BuildsAll(g, nfa.Snapshot(), frags + [r.f], items)
        case Hang => r == Hangs
        case Crash => r == IndexError
      decreases Room(p, i), 4, 0
    {
      ghost var h := nfa.Snapshot();
      ghost var ia := i;
      items := acc;
      r := ParseRepeat(nfa);
      if !r.Built? {
        return;
      }
      AllWellFormedMono(h, nfa.Snapshot(), frags);
      GrewTransitive(g, h, nfa.Snapshot());
      ghost var t := ScanRepeat(p, ia).re;
      SnocIntro(g, h, nfa.Snapshot(), frags, r.f, acc, t);
      items := Snoc(acc, t);
    }

    /** The end of `parse_seq`: `State()` for no repeats, otherwise the `concat_frag` chain. */
    method SeqJoin(nfa: Arena, ghost g: Graph, frags: seq<Frag>, ghost acc: Items) returns (f: Frag)
      requires nfa.Valid() && Grew(g, nfa.Snapshot()) && AllWellFormed(nfa.Snapshot(), frags)
      requires BuildsAll(g, nfa.Snapshot(), frags, acc)
      modifies nfa
      ensures nfa.Valid() && Grew(g, nfa.Snapshot()) && WellFormed(nfa.Snapshot(), f)
      ensures Builds(g, nfa.Snapshot(), f, Cat(acc))
      ensures frags == [] ==> f.start == f.end
    {
      ghost var h := nfa.Snapshot();
      if frags == [] {
        f := EmptySeq(nfa);
      } else {
        f := ConcatAll(nfa, frags);
      }
      CatIntro(g, h, nfa.Snapshot(), frags, f, acc);
      GrewTransitive(g, h, nfa.Snapshot());
    }

    /** `parse_repeat`: an atom, then `*`, `+`, `?` and `{m,n}` as long as they follow. */
    method ParseRepeat(nfa: Arena) returns (r: Parsed)
      requires nfa.Valid() && NoAccept(nfa.Snapshot())
      modifies this, nfa
      ensures nfa.Valid() && Grew(old(nfa.Snapshot()), nfa.Snapshot())
      ensures Agrees(old(nfa.Snapshot()), nfa.Snapshot(), r, i, ScanRepeat(p, old(i)))
      ensures r.Built? ==> WellFormed(nfa.Snapshot(), r.f)
      decreases Room(p, i), 3
    {
      ghost var g := nfa.Snapshot();
      ghost var i0 := i;
      r := ParseAtom(nfa);
      if !r.Built? {
        return;
      }
      r := PostfixLoop(nfa, g, r.f, ScanAtom(p, i0).re);
    }

    /**
     * The `while True` loop of `parse_repeat` after the atom `atom`, built
     * from `acc`: it applies operators as long as they follow.
     */
    method PostfixLoop(nfa: Arena, ghost g: Graph, atom: Frag, ghost acc: Regex) returns (r: Parsed)
      requires nfa.Valid() && Grew(g, nfa.Snapshot()) && WellFormed(nfa.Snapshot(), atom)
      requires Builds(g, nfa.Snapshot(), atom, acc)
      modifies this, nfa
      ensures nfa.Valid() && Grew(g, nfa.Snapshot())
      ensures Agrees(g, nfa.Snapshot(), r, i, RepeatTail(p, old(i), acc))
      ensures r.Built? ==> WellFormed(nfa.Snapshot(), r.f)
    {
      ghost var i0 := i;
      ghost var acc0 := acc;
      var atom := atom;
      ghost var acc := acc;
      while true
        invariant nfa.Valid() && Grew(g, nfa.Snapshot()) && WellFormed(nfa.Snapshot(), atom)
        invariant Builds(g, nfa.Snapshot(), atom, acc) && RepeatTail(p, i, acc) == RepeatTail(p, i0, acc0)
        decreases Room(p, i)
      {
        var c := Peek();
        if c.None? {
          break;
        }
        if c.value == '*' || c.value == '+' || c.value == '?' {
          atom, acc := PostfixStep(nfa, g, atom, acc);
        } else if c.value == '{' {
          var before := i;
          atom, acc := RangeStep(nfa, g, atom, acc);
          if i == before {
            return Hangs;
          }
        } else {
          break;
        }
      }
      r := Built(atom);
    }

    /** A `*`, `+` or `?` in the loop of `parse_repeat`: the operator is read and applied. */
    method PostfixStep(nfa: Arena, ghost g: Graph, atom: Frag, ghost acc: Regex) returns (f: Frag, ghost re: Regex)
      requires nfa.Valid() && Grew(g, nfa.Snapshot()) && WellFormed(nfa.Snapshot(), atom)
      requires Builds(g, nfa.Snapshot(), atom, acc) && i < |p| && (p[i] == '*' || p[i] == '+' || p[i] == '?')
      modifies this, nfa
      ensures nfa.Valid() && Grew(g, nfa.Snapshot()) && WellFormed(nfa.Snapshot(), f)
      ensures i == old(i) + 1 && re == Post(p[old(i)], acc) && Builds(g, nfa.Snapshot(), f, re)
    {
      ghost var h := nfa.Snapshot();
      var op := Get();
      f := Postfix(nfa, op.value, atom);
      PostIntro(g, h, nfa.Snapshot(), op.value, atom, f, acc);
      re := Post(op.value, acc);
      GrewTransitive(g, h, nfa.Snapshot());
    }

    /**
     * A `{` in the loop of `parse_repeat`: a quantifier is applied, or the
     * cursor stays on the `{` when there is none.
     */
    method RangeStep(nfa: Arena, ghost g: Graph, atom: Frag, ghost acc: Regex) returns (f: Frag, ghost re: Regex)
      requires nfa.Valid() && Grew(g, nfa.Snapshot()) && WellFormed(nfa.Snapshot(), atom)
      requires Builds(g, nfa.Snapshot(), atom, acc) && i < |p| && p[i] == '{'
      modifies this, nfa
      ensures nfa.Valid() && Grew(g, nfa.Snapshot()) && WellFormed(nfa.Snapshot(), f)
      ensures match QuantSpec(p, old(i))
        case Quant(min, max, k) => i == k && re == Rep(acc, min, max) && Builds(g, nfa.Snapshot(), f, re)
        case Malformed => i == old(i)
    {
      ghost var h := nfa.Snapshot();
      ghost var q := QuantSpec(p, i);
      f := ParseRangeQuantifier(nfa, atom);
      re := acc;
      if q.Quant? {
        RepIntro(g, h, nfa.Snapshot(), atom, q.min, q.max, f, acc);
        re := Rep(acc, q.min, q.max);
      }
      GrewTransitive(g, h, nfa.Snapshot());
    }

    /** The digits from the cursor on: `while (c := self.peek()) is not None and c.isdigit()`. */
    method ReadDigits() returns (s: string)
      requires i <= |p|
      modifies this
      ensures i == DigitRun(p, old(i)) && s == p[old(i)..i]
    {
      s := "";
      ghost var i0 := i;
      while Peek().Some? && IsDigit(Peek().value)
        invariant i0 <= i <= |p| && DigitRun(p, i) == DigitRun(p, i0) && s == p[i0..i]
        decreases |p| - i
      {
        var d := Get();
        s := s + [d.value];
      }
    }

    /**
     * The body of the `try` in `parse_range_quantifier`, with the cursor on
     * `{`: reads `{m}`, `{m,}` or `{m,n}` and says what it found, as
     * `QuantSpec` does; where `SyntaxError` would be raised the result is
     * `Malformed` and the cursor is left wherever reading stopped.
     */
    method ReadQuantifier() returns (q: Quant)
      requires i < |p| && p[i] == '{'
      modifies this
      ensures q == QuantSpec(p, old(i))
      ensures q.Quant? ==> i == q.next
    {
      ghost var startPos := i;
      var brace := Get();
      var mStr := ReadDigits();
      if mStr == "" {
        return Malformed;
      }
      var min := Decimal(mStr);
      var max := Finite(min);
      if Peek() == Some(',') {
        var comma := Get();
        var nStr := ReadDigits();
        if nStr != "" {
          max := Finite(Decimal(nStr));
        } else {
          max := Unbounded;
        }
      }
      assert QuantSpec(p, startPos) == QuantClose(p, min, max, i);
      if Peek() != Some('}') {
        return Malformed;
      }
      var close := Get();
      if max.Finite? && min > max.n {
        return Malformed;
      }
      q := Quant(min, max, i);
    }

    /**
     * `parse_range_quantifier` with the cursor on `{`: on a well-formed
     * `{m}`, `{m,}` or `{m,n}` the cursor moves past `}` and the result is
     * `range_frag(atom, m, n)`; otherwise (the `except` branch) the cursor
     * goes back to `{` and the atom is returned as it was, the graph
     * untouched.
     */
    method ParseRangeQuantifier(nfa: Arena, atom: Frag) returns (f: Frag)
      requires nfa.Valid() && NoAccept(nfa.Snapshot()) && WellFormed(nfa.Snapshot(), atom) && i < |p| && p[i] == '{'
      modifies this, nfa
      ensures nfa.Valid() && Grew(old(nfa.Snapshot()), nfa.Snapshot()) && WellFormed(nfa.Snapshot(), f)
      ensures match QuantSpec(p, old(i))
        case Quant(min, max, next) =>
          && i == next && RangeBuilt(old(nfa.Snapshot()), nfa.Snapshot(), atom, min, max, f)
        case Malformed => i == old(i) && f == atom && nfa.Snapshot() == old(nfa.Snapshot())
    {
      var startPos := i;
      var q := ReadQuantifier();
      if q.Malformed? {
        i := startPos;
        ExtendsRefl(nfa.Snapshot());
        return atom;
      }
      f := Range(nfa, atom, q.min, q.max);
    }

    /**
     * `parse_atom`: every atom but a group is a single `literal_frag`,
     * whose label `AtomLabel` gives; a group is `parse_alt` and the `)` if
     * one follows.
     */
    method ParseAtom(nfa: Arena) returns (r: Parsed)
      requires nfa.Valid() && NoAccept(nfa.Snapshot())
      modifies this, nfa
      ensures nfa.Valid() && Grew(old(nfa.Snapshot()), nfa.Snapshot())
      ensures Agrees(old(nfa.Snapshot()), nfa.Snapshot(), r, i, ScanAtom(p, old(i)))
      ensures r.Built? ==> WellFormed(nfa.Snapshot(), r.f)
      decreases Room(p, i), 1
    {
      var c := Get();
      var f: Frag;
      if c.None? {
        f := Literal(nfa, Str(""));
      } else if c.value == '\\' {
        var next := Get();
        if next.None? {
          f := Literal(nfa, Str("\\"));
        } else if next.value == '^' {
          f := Literal(nfa, Str("^"));
        } else if next.value == '$' {
          f := Literal(nfa, Str("$"));
        } else {
          f := Literal(nfa, Str(['\\', next.value]));
        }
      } else if c.value == '[' {
        r := ParseCharclass(nfa);
        return;
      } else if c.value == '(' {
        r := ParseAlt(nfa);
        if r.Built? && Peek() == Some(')') {
          var close := Get();
        }
        return;
      } else if c.value == '.' {
        f := Literal(nfa, Str("."));
      } else if c.value == '^' {
        f := Literal(nfa, Str(BOS));
      } else if c.value == '$' {
        f := Literal(nfa, Str(EOS));
      } else {
        f := Literal(nfa, Str([c.value]));
      }
      r := Built(f);
    }

    /**
     * `parse_charclass` with the cursor after `[`: an optional `^`, the
     * members up to `]`, then one `literal_frag` with the set or its
     * negation.  A `-` as the last character of the pattern raises
     * IndexError before anything is built.
     */
    method ParseCharclass(nfa: Arena) returns (r: Parsed)
      requires nfa.Valid() && NoAccept(nfa.Snapshot())
      modifies this, nfa
      ensures nfa.Valid() && Grew(old(nfa.Snapshot()), nfa.Snapshot())
      ensures r.Built? ==> WellFormed(nfa.Snapshot(), r.f)
      ensures match ClassSpec(p, old(i))
        case Class(_, _, k) =>
          && i == k && r.Built?
          && IsLiteral(old(nfa.Snapshot()), nfa.Snapshot(), ClassLabel(ClassSpec(p, old(i))), r.f)
        case ClassCrash => r == IndexError && nfa.Snapshot() == old(nfa.Snapshot())
    {
      var negate := false;
      if Peek() == Some('^') {
        negate := true;
        var caret := Get();
      }
      var chars, crashed := ReadMembers();
      if crashed {
        ExtendsRefl(nfa.Snapshot());
        return IndexError;
      }
      var close := Get();
      var f := Literal(nfa, if negate then NotChars(chars) else Chars(chars));
      r := Built(f);
    }

    /**
     * The member loop of `parse_charclass`, up to (not over) the closing
     * `]` or the end of the pattern.  `crashed` is the IndexError of
     * `self.p[self.i + 1]` after a `-` that ends the pattern.
     */
    method ReadMembers() returns (chars: set<char>, crashed: bool)
      modifies this
      ensures crashed <==> ClassLoop(p, old(i), {}) == ClassCrash
      ensures !crashed ==> ClassLoop(p, old(i), {}) == Class(false, chars, i + 1)
    {
      chars := {};
      ghost var j0 := i;
      while Peek().Some? && Peek().value != ']'
        invariant j0 <= i && ClassLoop(p, i, chars) == ClassLoop(p, j0, {})
        decreases |p| - i
      {
        var c := Get();
        if Peek() == Some('-') {
          if i + 1 >= |p| {
            return chars, true;
          }
          if p[i + 1] != ']' {
            var dash := Get();
            var end := Get();
            chars := AddCodeRange(chars, c.value, end.value);
          } else {
            chars := chars + {c.value};
          }
        } else {
          chars := chars + {c.value};
        }
      }
      crashed := false;
    }
  }

  /** What `compile_regex` gives: the automaton with its start state, or the hang or the IndexError of parsing. */
  datatype Compiled = Compiled(g: Graph, start: nat) | CompileHangs | CompileIndexError

  /**
   * `compile_regex`: parse the whole pattern into a fresh automaton and
   * make the end of the fragment its one accepting state.  Parsing stops
   * at the end or at a `)` that closes no group; the rest of the pattern
   * is ignored.  `stop` is where the parser stopped, `end` the accepting
   * state.
   */
  method CompileRegex(pattern: string) returns (r: Compiled, ghost stop: nat, ghost end: nat, ghost built: Graph)
    ensures r.Compiled? <==> ScanAlt(pattern, 0).Stop?
    ensures r == CompileHangs <==> ScanAlt(pattern, 0) == Hang
    ensures r.Compiled? ==>
      && stop == ScanAlt(pattern, 0).next && (stop >= |pattern| || pattern[stop] == ')')
      && Valid(r.g) && r.start < |r.g.eps| && end < |r.g.eps| && Reaches(r.g, r.start, end)
      && forall q :: 0 <= q < |r.g.accept| ==> (r.g.accept[q] <==> q == end)
    ensures r.Compiled? && (pattern == "" || pattern[0] == ')') ==> r.start == end
    ensures r.Compiled? ==>
      && Builds(Graph([], [], []), built, Frag(r.start, end), ScanAlt(pattern, 0).re)
      && end < |built.accept| && r.g == Graph(built.eps, built.trans, built.accept[end := true])
  {
    var nfa := new Arena();
    var parser := new Parser(pattern);
    var frag := parser.Parse(nfa);
    stop := parser.i;
    if frag.Hangs? {
      return CompileHangs, stop, 0, nfa.Snapshot();
    } else if frag.IndexError? {
      return CompileIndexError, stop, 0, nfa.Snapshot();
    }
    AltStopsAtClose(pattern, 0);
    built := nfa.Snapshot();
    nfa.SetAccept(frag.f.end, true);
    ReachesIgnoresAccept(built, nfa.Snapshot(), frag.f.start, frag.f.end);
    end := frag.f.end;
    r := Compiled(nfa.Snapshot(), frag.f.start);
  }

  /** Reachability does not look at the accepting flags. */
  lemma ReachesIgnoresAccept(g: Graph, h: Graph, x: nat, y: nat)
    requires h.eps == g.eps && h.trans == g.trans && Reaches(g, x, y)
    ensures Reaches(h, x, y)
  {
    forall T | x in T && Closed(h, T) ensures y in T {
      assert Closed(g, T);
    }
  }

  /**
   * An automaton whose start state accepts, such as the one compiled from
   * the empty pattern, matches every token sequence: the start closure is
   * added back after every token.
   */
  lemma AcceptingStartMatchesAll(g: Graph, u: CharClasses, start: nat, toks: seq<Token>)
    requires Valid(g) && start < |g.eps| && g.accept[start]
    ensures Run(g, u, start, toks)
  {
    assert start in Closure(g, {start});
    RunEmptyMatchAcceptsAll(g, u, start, toks);
  }
}
