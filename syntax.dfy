/**
 * The control flow of the recursive-descent parser of
 * pinyin_regex/parser.py as pure functions of the pattern `p` and a
 * cursor position: where each `parse_*` routine leaves the cursor, the
 * expression it recognised there, whether it runs forever, and whether it
 * stops with an IndexError; plus the quantifier `{m,n}`, the character
 * class `[...]` and the label of each simple atom.  The `Parser` methods of
 * module Parsing are proved to follow these functions step for step.
 */
module Syntax {
  import opened Wrappers
  import opened Labels

  /**
   * The expression a parse routine recognised, which says how the fragment
   * it returns is put together.  A group is the expression inside it.
   */
  datatype Regex =
    | Lit(lab: Label)                           // one `literal_frag(lab)`
    | Cat(items: Items)                         // `parse_seq`: the repeats, joined by `concat_frag`
    | Or(left: Regex, right: Regex)             // `alt_frag(left, right)`
    | Post(op: char, body: Regex)               // `star_frag`, `plus_frag` or `question_frag`
    | Rep(body: Regex, min: nat, max: MaxCount) // `range_frag(body, min, max)`

  /** The repeats of a sequence in pattern order; the last one read is the last appended. */
  datatype Items = Nil | Snoc(init: Items, last: Regex)

  /**
   * What a parse routine does from a cursor position: it returns with the
   * cursor at `next` having recognised `re`, it loops forever, or it raises
   * IndexError.
   */
  datatype Scan = Stop(next: nat, re: Regex) | Hang | Crash

  /**
   * Characters still to read at cursor `i`.  The cursor may run past the
   * end of the pattern (`get` advances even when `peek` is None).
   */
  function Room(p: string, i: nat): nat {
    if i <= |p| then |p| - i else 0
  }

  // ---------------------------------------------------------------------
  // Numbers of `{m,n}`
  // ---------------------------------------------------------------------

  /** A decimal digit, as `str.isdigit` decides it for ASCII. */
  predicate IsDigit(c: char) {
    '0' <= c <= '9'
  }

  /** The end of the run of digits that starts at `j` (the `while ... isdigit()` loops). */
  function DigitRun(p: string, j: nat): (k: nat)
    ensures j <= k && (k == j || k <= |p|)
    ensures forall m :: j <= m < k ==> m < |p| && IsDigit(p[m])
    ensures k < |p| ==> !IsDigit(p[k])
    decreases |p| - j
  {
    if j < |p| && IsDigit(p[j]) then DigitRun(p, j + 1) else j
  }

  /** Python's `int(s)`, for the strings of decimal digits it is applied to here. */
  function Decimal(s: string): nat {
    if s == [] then 0
    else Decimal(s[..|s| - 1]) * 10 + DigitValue(s[|s| - 1])
  }

  /** The value of one decimal digit. */
  function DigitValue(c: char): nat {
    if IsDigit(c) then c as int - '0' as int else 0
  }

  /** Leading zeros do not change the value (`int("007") == 7`). */
  lemma {:induction false} DecimalLeadingZero(s: string)
    requires forall m :: 0 <= m < |s| ==> IsDigit(s[m])
    ensures Decimal("0" + s) == Decimal(s)
    decreases |s|
  {
    if s != [] {
      var init := s[..|s| - 1];
      assert ("0" + s)[..|"0" + s| - 1] == "0" + init;
      DecimalLeadingZero(init);
    }
  }

  /** The result of `parse_range_quantifier`: the bounds and the cursor after `}`, or a syntax error. */
  datatype Quant = Quant(min: nat, max: MaxCount, next: nat) | Malformed

  /**
   * `parse_range_quantifier` at the `{` in position `i`: digits, optionally
   * a comma and more digits, then `}`; the bounds must be ordered.  Any
   * other text is a SyntaxError, after which the source restores the cursor.
   */
  function QuantSpec(p: string, i: nat): (r: Quant)
    requires i < |p| && p[i] == '{'
    ensures r.Quant? ==> i + 3 <= r.next <= |p| && p[r.next - 1] == '}'
    ensures r.Quant? && r.max.Finite? ==> r.min <= r.max.n
  {
    var b := DigitRun(p, i + 1);
    if b == i + 1 then Malformed else QuantTail(p, Decimal(p[i + 1..b]), b)
  }

  /** After the lower bound, ending at `b`: an optional comma and upper bound. */
  function QuantTail(p: string, min: nat, b: nat): (r: Quant)
    ensures r.Quant? ==> b < r.next <= |p| && p[r.next - 1] == '}'
    ensures r.Quant? && r.max.Finite? ==> r.min <= r.max.n
  {
    if b < |p| && p[b] == ',' then
      var d := DigitRun(p, b + 1);
      QuantClose(p, min, if d == b + 1 then Unbounded else Finite(Decimal(p[b + 1..d])), d)
    else QuantClose(p, min, Finite(min), b)
  }

  /** The closing brace at `d`, and the order of the bounds. */
  function QuantClose(p: string, min: nat, max: MaxCount, d: nat): (r: Quant)
    ensures r.Quant? ==> r == Quant(min, max, d + 1) && d < |p| && p[d] == '}'
    ensures r.Quant? && r.max.Finite? ==> r.min <= r.max.n
  {
    if d >= |p| || p[d] != '}' then Malformed
    else if max.Finite? && min > max.n then Malformed
    else Quant(min, max, d + 1)
  }

  /** Positions `a` up to (not including) `b` hold a non-empty run of digits. */
  predicate DigitsBetween(p: string, a: nat, b: nat) {
    a < b <= |p| && forall k :: a <= k < b ==> IsDigit(p[k])
  }

  /** The run of digits starting at `j` ends at `e` when a non-digit (or the end) follows. */
  lemma {:induction false} DigitRunOver(p: string, j: nat, e: nat)
    requires j <= e <= |p| && forall k :: j <= k < e ==> IsDigit(p[k])
    requires e < |p| ==> !IsDigit(p[e])
    ensures DigitRun(p, j) == e
    decreases e - j
  {
    if j < e {
      DigitRunOver(p, j + 1, e);
    }
  }

  /** `{m}` repeats exactly `m` times and leaves the cursor after the brace. */
  lemma QuantExact(p: string, i: nat, b: nat)
    requires DigitsBetween(p, i + 1, b) && b < |p| && p[i] == '{' && p[b] == '}'
    ensures QuantSpec(p, i) == Quant(Decimal(p[i + 1..b]), Finite(Decimal(p[i + 1..b])), b + 1)
  {
    DigitRunOver(p, i + 1, b);
  }

  /** `{m,}` has no upper bound. */
  lemma QuantAtLeast(p: string, i: nat, b: nat)
    requires DigitsBetween(p, i + 1, b) && b + 1 < |p| && p[i] == '{' && p[b] == ',' && p[b + 1] == '}'
    ensures QuantSpec(p, i) == Quant(Decimal(p[i + 1..b]), Unbounded, b + 2)
  {
    DigitRunOver(p, i + 1, b);
    DigitRunOver(p, b + 1, b + 1);
  }

  /** `{m,n}` repeats between `m` and `n` times, and is a syntax error when `m > n`. */
  lemma QuantBetween(p: string, i: nat, b: nat, d: nat)
    requires DigitsBetween(p, i + 1, b) && DigitsBetween(p, b + 1, d) && d < |p|
    requires p[i] == '{' && p[b] == ',' && p[d] == '}'
    ensures var lo, hi := Decimal(p[i + 1..b]), Decimal(p[b + 1..d]);
      QuantSpec(p, i) == if lo > hi then Malformed else Quant(lo, Finite(hi), d + 1)
  {
    DigitRunOver(p, i + 1, b);
    DigitRunOver(p, b + 1, d);
  }

  /** Without a digit right after `{` there is no quantifier. */
  lemma QuantNeedsDigits(p: string, i: nat)
    requires i < |p| && p[i] == '{' && (i + 1 >= |p| || !IsDigit(p[i + 1]))
    ensures QuantSpec(p, i) == Malformed
  {
  }

  // ---------------------------------------------------------------------
  // Character classes
  // ---------------------------------------------------------------------

  /** A code point that has a character (Python's lone surrogates have none). */
  predicate IsScalar(x: int) {
    0 <= x < 0xD800 || 0xE000 <= x < 0x11_0000
  }

  /** `{chr(code) for code in range(lo, hi + 1)}`: empty when `hi < lo`. */
  function CharRange(lo: int, hi: int): (r: set<char>)
    ensures forall c: char :: c in r <==> lo <= c as int <= hi
    decreases hi - lo
  {
    if lo > hi then {} else CharRange(lo, hi - 1) + (if IsScalar(hi) then {hi as char} else {})
  }

  /** The result of `parse_charclass`: negation, member set and the cursor after it, or an IndexError. */
  datatype Class = Class(negated: bool, chars: set<char>, next: nat) | ClassCrash

  /**
   * The member loop of `parse_charclass` from position `j`, with `chars`
   * collected so far.  `x-y` is a range unless `]` follows the dash; a dash
   * as the last character of the pattern makes `self.p[self.i + 1]` raise
   * IndexError; the closing `]` is consumed even when the pattern has ended.
   */
  function ClassLoop(p: string, j: nat, chars: set<char>): (r: Class)
    ensures r.Class? ==> chars <= r.chars && !r.negated && j < r.next
    ensures r.Class? && j <= |p| ==> r.next == |p| + 1 || (r.next <= |p| && p[r.next - 1] == ']')
    decreases |p| - j
  {
    if j >= |p| || p[j] == ']' then Class(false, chars, j + 1)
    else
      var c := p[j];
      if j + 1 < |p| && p[j + 1] == '-' then
        if j + 2 >= |p| then ClassCrash
        else if p[j + 2] != ']' then ClassLoop(p, j + 3, chars + CharRange(c as int, p[j + 2] as int))
        else ClassLoop(p, j + 1, chars + {c})
      else ClassLoop(p, j + 1, chars + {c})
  }

  /** `parse_charclass` with the cursor just after `[`: an optional `^`, then the members. */
  function ClassSpec(p: string, j: nat): Class {
    if j < |p| && p[j] == '^' then
      match ClassLoop(p, j + 1, {})
      case Class(_, cs, k) => Class(true, cs, k)
      case ClassCrash => ClassCrash
    else ClassLoop(p, j, {})
  }

  /** The label a character class compiles to: a set, or the pair ("NEG", set). */
  function ClassLabel(c: Class): Label
    requires c.Class?
  {
    if c.negated then NotChars(c.chars) else Chars(c.chars)
  }

  /** A range contributes every character between its ends, and none when they are reversed. */
  lemma ClassRange(p: string, j: nat, chars: set<char>)
    requires j + 3 < |p| && p[j + 1] == '-' && p[j + 2] != ']' && p[j] != ']'
    ensures ClassLoop(p, j, chars) == ClassLoop(p, j + 3, chars + CharRange(p[j] as int, p[j + 2] as int))
    ensures p[j + 2] < p[j] ==> CharRange(p[j] as int, p[j + 2] as int) == {}
  {
  }

  /** A dash right before `]` is an ordinary member. */
  lemma ClassTrailingDash(p: string, j: nat, chars: set<char>)
    requires j + 2 < |p| && p[j] != ']' && p[j + 1] == '-' && p[j + 2] == ']'
    ensures ClassLoop(p, j, chars) == Class(false, chars + {p[j], '-'}, j + 3)
  {
    assert ClassLoop(p, j + 2, chars + {p[j]} + {'-'}) == Class(false, chars + {p[j]} + {'-'}, j + 3);
    assert chars + {p[j]} + {'-'} == chars + {p[j], '-'};
  }

  /** A dash as the last character of the pattern raises IndexError. */
  lemma ClassDashAtEnd(p: string, j: nat, chars: set<char>)
    requires j + 2 == |p| && p[j] != ']' && p[j + 1] == '-'
    ensures ClassLoop(p, j, chars) == ClassCrash
  {
  }

  /** The characters from position `j` to the end. */
  function Rest(p: string, j: nat): set<char> {
    set m | j <= m < |p| :: p[m]
  }

  /** An unterminated class takes the rest of the pattern and leaves the cursor one past its end. */
  lemma {:induction false} ClassUnterminated(p: string, j: nat, chars: set<char>)
    requires j <= |p| && forall m :: j <= m < |p| ==> p[m] != ']' && p[m] != '-'
    ensures ClassLoop(p, j, chars) == Class(false, chars + Rest(p, j), |p| + 1)
    decreases |p| - j
  {
    if j < |p| {
      ClassUnterminated(p, j + 1, chars + {p[j]});
      assert chars + {p[j]} + Rest(p, j + 1) == chars + Rest(p, j);
    } else {
      assert Rest(p, j) == {};
    }
  }

  // ---------------------------------------------------------------------
  // Atoms
  // ---------------------------------------------------------------------

  /**
   * The label of the single literal fragment an atom at `i` compiles to,
   * when it is neither a class nor a group: `\^` and `\$` are the literal
   * characters, any other `\c` the two-character label "\c" and a trailing
   * `\` the label "\"; bare `^`, `$` and `.` are the two sentinels and the
   * wildcard; any other character is itself.  At the end of the pattern the
   * label is "".
   */
  function AtomLabel(p: string, i: nat): Label {
    if i >= |p| then Str("")
    else if p[i] == '\\' then
      if i + 1 >= |p| then Str("\\")
      else if p[i + 1] == '^' then Str("^")
      else if p[i + 1] == '$' then Str("$")
      else Str(['\\', p[i + 1]])
    else if p[i] == '.' then Str(".")
    else if p[i] == '^' then Str(BOS)
    else if p[i] == '$' then Str(EOS)
    else Str([p[i]])
  }

  /**
   * An escape other than `\^`, `\$` and the four classes `\d`, `\w`, `\s`,
   * `\z` is a label of two characters, so it never matches a consumed
   * character: `\.` does not match a dot.
   */
  lemma EscapeNeverMatches(u: CharClasses, p: string, i: nat, orig: string, c: char)
    requires i + 1 < |p| && p[i] == '\\' && p[i + 1] !in {'^', '$', 'd', 'w', 's', 'z'}
    ensures ScanAtom(p, i) == Stop(i + 2, Lit(AtomLabel(p, i)))
    ensures !MatchLabel(u, AtomLabel(p, i), orig, [c])
  {
    var s := ['\\', p[i + 1]];
    assert |s| == 2 && s != "." && s != BOS && s != EOS;
    assert s != "\\d" && s != "\\w" && s != "\\s" && s != "\\z";
    PlainLabelIsEquality(u, s, orig, [c], c);
  }

  /** Bare `^` and `$` match only the sentinel candidates, whatever the original character. */
  lemma AnchorsMatchSentinels(u: CharClasses, p: string, i: nat, orig: string, ch: string)
    requires i < |p| && (p[i] == '^' || p[i] == '$')
    ensures ScanAtom(p, i) == Stop(i + 1, Lit(AtomLabel(p, i)))
    ensures MatchLabel(u, AtomLabel(p, i), orig, ch) <==> ch == (if p[i] == '^' then BOS else EOS)
  {
    SentinelMatch(u, AtomLabel(p, i), orig, ch);
  }

  // ---------------------------------------------------------------------
  // The recursive descent
  // ---------------------------------------------------------------------

  /** `parse_alt`: a sequence, then `| sequence` as long as a bar follows. */
  function ScanAlt(p: string, i: nat): (r: Scan)
    ensures r.Stop? ==> i <= r.next
    decreases Room(p, i), 7
  {
    match ScanSeq(p, i)
    case Stop(j, t) => AltTail(p, j, t)
    case Hang => Hang
    case Crash => Crash
  }

  /**
   * The `while self.peek() == "|"` loop of `parse_alt` at position `j`,
   * with the alternation `left` folded so far: each further sequence
   * becomes the right operand of a new `Or`, so the fold is left-associative.
   */
  function AltTail(p: string, j: nat, left: Regex): (r: Scan)
    ensures r.Stop? ==> j <= r.next
    decreases Room(p, j), 6
  {
    if j < |p| && p[j] == '|' then
      match ScanSeq(p, j + 1)
      case Stop(k, right) => AltTail(p, k, Or(left, right))
      case Hang => Hang
      case Crash => Crash
    else Stop(j, left)
  }

  /** `parse_seq`: repeats until the end of the pattern, a `|` or a `)`. */
  function ScanSeq(p: string, i: nat): (r: Scan)
    ensures r.Stop? ==> i <= r.next && r.re.Cat?
    decreases Room(p, i), 5
  {
    SeqTail(p, i, Nil)
  }

  /** The loop of `parse_seq` at position `i`, with the repeats `acc` read so far. */
  function SeqTail(p: string, i: nat, acc: Items): (r: Scan)
    ensures r.Stop? ==> i <= r.next && r.re.Cat?
    decreases Room(p, i), 4
  {
    if i >= |p| || p[i] == '|' || p[i] == ')' then Stop(i, Cat(acc))
    else
      match ScanRepeat(p, i)
      case Stop(j, t) => SeqTail(p, j, Snoc(acc, t))
      case Hang => Hang
      case Crash => Crash
  }

  /** `parse_repeat`: an atom and its postfix operators. */
  function ScanRepeat(p: string, i: nat): (r: Scan)
    ensures r.Stop? ==> i < r.next
    decreases Room(p, i), 3
  {
    match ScanAtom(p, i)
    case Stop(j, t) => RepeatTail(p, j, t)
    case Hang => Hang
    case Crash => Crash
  }

  /**
   * The postfix loop of `parse_repeat` at position `j`, with the operators
   * so far applied to the atom in `acc`: each operator wraps the result of
   * the ones before it.  A `{` that is no quantifier leaves the cursor on
   * the `{`, so the loop meets the same `{` again and never ends.
   */
  function RepeatTail(p: string, j: nat, acc: Regex): (r: Scan)
    ensures r.Stop? ==> j <= r.next
    decreases Room(p, j), 2
  {
    if j >= |p| then Stop(j, acc)
    else if p[j] == '*' || p[j] == '+' || p[j] == '?' then RepeatTail(p, j + 1, Post(p[j], acc))
    else if p[j] == '{' then
      match QuantSpec(p, j)
      case Quant(min, max, k) => RepeatTail(p, k, Rep(acc, min, max))
      case Malformed => Hang
    else Stop(j, acc)
  }

  /**
   * `parse_atom`: a class, a group with its optional `)`, or a single
   * literal (one character, or an escape of two).
   */
  function ScanAtom(p: string, i: nat): (r: Scan)
    ensures r.Stop? ==> i < r.next
    decreases Room(p, i), 1
  {
    if i < |p| && p[i] == '[' then
      var c := ClassSpec(p, i + 1);
      if c.Class? then Stop(c.next, Lit(ClassLabel(c))) else Crash
    else if i < |p| && p[i] == '(' then
      match ScanAlt(p, i + 1)
      case Stop(j, t) => Stop(if j < |p| && p[j] == ')' then j + 1 else j, t)
      case Hang => Hang
      case Crash => Crash
    else Stop(if i < |p| && p[i] == '\\' then i + 2 else i + 1, Lit(AtomLabel(p, i)))
  }

  // ---------------------------------------------------------------------
  // Properties of the descent
  // ---------------------------------------------------------------------

  /** `parse_seq` stops only at the end, before a `|` or before a `)`, consuming neither. */
  lemma {:induction false} SeqStopsAtDelimiter(p: string, i: nat, acc: Items)
    requires SeqTail(p, i, acc).Stop?
    ensures var j := SeqTail(p, i, acc).next; j >= |p| || p[j] == '|' || p[j] == ')'
    decreases Room(p, i)
  {
    if !(i >= |p| || p[i] == '|' || p[i] == ')') {
      var r := ScanRepeat(p, i);
      SeqStopsAtDelimiter(p, r.next, Snoc(acc, r.re));
    }
  }

  /** The bar loop leaves only at the end or before a `)`. */
  lemma {:induction false} AltTailStops(p: string, j: nat, left: Regex)
    requires AltTail(p, j, left).Stop?
    requires j >= |p| || p[j] == '|' || p[j] == ')'
    ensures var k := AltTail(p, j, left).next; k >= |p| || p[k] == ')'
    decreases Room(p, j)
  {
    if j < |p| && p[j] == '|' {
      var s := ScanSeq(p, j + 1);
      SeqStopsAtDelimiter(p, j + 1, Nil);
      AltTailStops(p, s.next, Or(left, s.re));
    }
  }

  /**
   * `parse_alt` stops only at the end or before a `)` it leaves unread:
   * at the top level everything after an unmatched `)` is ignored.
   */
  lemma AltStopsAtClose(p: string, i: nat)
    requires ScanAlt(p, i).Stop?
    ensures var j := ScanAlt(p, i).next; j >= |p| || p[j] == ')'
  {
    SeqStopsAtDelimiter(p, i, Nil);
    AltTailStops(p, ScanSeq(p, i).next, ScanSeq(p, i).re);
  }

  /** A malformed quantifier among the postfix operators makes `parse_repeat` run forever. */
  lemma MalformedQuantifierHangs(p: string, i: nat)
    requires ScanAtom(p, i).Stop?
    requires var j := ScanAtom(p, i).next; j < |p| && p[j] == '{' && QuantSpec(p, j).Malformed?
    ensures ScanRepeat(p, i) == Hang
  {
  }

  /** `y{z}` never finishes: no digit after the brace. */
  lemma HangsWithoutDigits()
    ensures ScanAlt("y{z}", 0) == Hang
  {
    QuantNeedsDigits("y{z}", 1);
    MalformedQuantifierHangs("y{z}", 0);
  }

  /** `y{1` never finishes: no closing brace. */
  lemma HangsUnclosed()
    ensures ScanAlt("y{1", 0) == Hang
  {
    DigitRunOver("y{1", 2, 3);
    assert QuantSpec("y{1", 1) == Malformed;
    MalformedQuantifierHangs("y{1", 0);
  }

  /** `y{3,1}` never finishes: the bounds are reversed. */
  lemma HangsReversed()
    ensures ScanAlt("y{3,1}", 0) == Hang
  {
    assert "y{3,1}"[2..3] == "3" && "y{3,1}"[4..5] == "1";
    QuantBetween("y{3,1}", 1, 3, 5);
    MalformedQuantifierHangs("y{3,1}", 0);
  }

  /** `y{2,3}` is read as one quantified atom. */
  lemma QuantifiedAtom()
    ensures ScanAlt("y{2,3}", 0) == Stop(6, Cat(Snoc(Nil, Rep(Lit(Str("y")), 2, Finite(3)))))
  {
    assert "y{2,3}"[2..3] == "2" && "y{2,3}"[4..5] == "3";
    QuantBetween("y{2,3}", 1, 3, 5);
    assert RepeatTail("y{2,3}", 1, Lit(Str("y"))) == Stop(6, Rep(Lit(Str("y")), 2, Finite(3)));
  }

  /** `a|b|c` is `(a|b)|c`: the bars fold to the left. */
  lemma AltFoldsLeft()
    ensures ScanAlt("a|b|c", 0) == Stop(5, Or(Or(Cat(Snoc(Nil, Lit(Str("a")))), Cat(Snoc(Nil, Lit(Str("b"))))), Cat(Snoc(Nil, Lit(Str("c"))))))
  {
  }

  /** `a*?` is `(a*)?`: the postfix operators apply left to right to the same atom. */
  lemma PostfixChains()
    ensures ScanRepeat("a*?", 0) == Stop(3, Post('?', Post('*', Lit(Str("a")))))
  {
  }
}
