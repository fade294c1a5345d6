# pinyin_regex core, modelled in Dafny

pinyin_regex compiles a small regular-expression language into a
Thompson-style NFA and runs the NFA over a sequence of tokens. Each token
is one character of the input text. It carries that original character
and the set of strings it may be read as: its pinyin syllables, their
initials, and their "fuzzy" flat-tongue variants. Labels match in
three ways:

- on the original character: `.`, `\d`, `\w`, `\s` and the CJK test `\z`;
- on the characters of a candidate reading: ordinary characters and
  character classes;
- the anchors `^` and `$` compile to sentinel labels. These match only
  the sentinel candidates `⟨BOS⟩` and `⟨EOS⟩`.

Matching is an unanchored search. The start closure is added back after
every token, and the run succeeds as soon as any candidate of a token
reaches an accepting state.

The model has eleven modules (plus `Wrappers`, which holds `Option` and the
quantifier bound `MaxCount`):

- **Labels**: the three kinds of transition key (`Str`, `Chars`,
  `NotChars`) and `match_label`.
- **Automaton**: a graph value with `eps`/`trans`/`accept` per state,
  defined by index. It also defines:
  - the epsilon closure as a least fixed point;
  - reachability along all edges;
  - `Extends`, meaning the graph only grew (states appended, epsilon
    edges added).
- **Fragments**: `Arena` is a class whose sequences are the fields of all
  `State` objects. Object identity becomes an index into the arena. The
  Thompson constructors, `clone_frag`, `count_frag` and `range_frag` are
  methods that update the arena in place.
- **Construction**: what each constructor does to the arena, stated on
  graph values. `Grows` says that a step appended fresh states and added
  exactly a given set of epsilon edges. It also defines what a copy of
  the reachable states is, and the invariant of the recursive
  `clone_state`. The lemmas here carry these facts from one step to the
  next.
- **Repeats**: what `count_frag` and `range_frag` make of the arena. The
  rounds of copying and linking of `count_frag` (`CountBuilt`), and the
  exact edge set of every case of `range_frag` (`RangeBuilt`).
- **Bounds**: what those edges mean for the bounds of `{m,n}`.
- **Building**: `Builds(g, h, f, t)`, the automaton the parser constructs
  for an expression `t` of the scanner. Literals, `concat_frag` chains,
  `alt_frag`, the postfix operators and `range_frag` each name the exact
  edges they add.
- **Matcher**: `epsilon_closure`, `advance_states` and `run_pinyin_regex`
  as methods with loops. Each is proved equal to a specification function
  (`Closure`, `Advance`, `Run`). Properties of the search are lemmas about
  those functions.
- **Syntax**: a pure scanner that says, for every position of a pattern,
  where each `parse_*` routine stops and which expression (`Regex`) it
  read, or whether it hangs or raises IndexError.
- **Parsing**: the `Parser` class with cursor `i`. Each `parse_*` method is
  proved to follow the scanner exactly: it stops, hangs or raises where
  the scanner does, and what it builds is exactly `Builds` of the
  expression the scanner read. It also leaves a well-formed fragment in a
  graph that only grew. `compile_regex` is here too.
- **Pinyin**: `INITIALS`, `FUZZY_MAP`, `get_shengmu` and `expand_pinyin`.

Python's unbounded `int` is Dafny's `int`. `float("inf")` as the upper
bound of a quantifier is the `Unbounded` case of `MaxCount`.

Three source behaviours are modelled as outcomes rather than excluded:

- A malformed `{...}` quantifier (`y{z}`, `y{1`, `y{3,1}`) makes
  `parse_repeat` loop forever. `parse_range_quantifier` puts the cursor
  back on the `{`, and the loop meets it again. The model's `Hangs`
  outcome records this.
- A character class whose `-` is the last character of the pattern raises
  IndexError at `self.p[self.i + 1]`. This is modelled by the outcomes
  `IndexError` and `ClassCrash`.
- `clone_frag` raises KeyError when the fragment's end cannot be reached
  from its start. `Clone` returns `None` in that case.

The postfix loop is the `while True` loop of `parse_repeat`. Its
quantifier branch, `ParseRangeQuantifier`, builds exactly `RangeBuilt`,
the edges of `range_frag` case by case. That includes the optional tail of
a bounded range (pinyin_regex/engine.py:289-303). The tail adds its
epsilon edges from `a.end` on the original fragment `a` itself, and `a` is
also the first copy of the required part. Two consequences are proved
about the edges (module Bounds):

- `RangeOnePass`: whenever `max > min`, the range's start has an edge to
  `a.start` and `a.end` has an edge to the range's end. So one pass
  through `a` suffices and the lower bound is not enforced: `y{2,3}`
  accepts a single `y`.
- `RangeLoops`: a bounded range with `max >= min + 2` has the edge
  `a.end → a.start`. So `a` can be passed any number of times and the
  upper bound is not enforced either: `y{0,2}` accepts `yyy`.

The model keeps this behaviour, as the source has it.

## Model

| member | source | states |
|---|---|---|
| Labels.MatchLabel | pinyin_regex/engine.py:42-85 | `match_label` branch by branch, in the source's order: `.`, the two sentinels, the four escape classes on the original character, then a set, a negated set, or string equality on the candidate. Its properties are the lemmas below. |
| Labels.WildcardMatch | pinyin_regex/engine.py:53-55 | `.` matches any candidate whose original character is not one of the two sentinels. |
| Labels.SentinelMatch | pinyin_regex/engine.py:57-61 | a `⟨BOS⟩`/`⟨EOS⟩` label matches exactly the candidate equal to that sentinel, whatever the original character. |
| Labels.EscapeClasses | pinyin_regex/engine.py:63-74 | `\d`, `\w`, `\s` test the original character with isdigit, isascii-and-isalnum and isspace; `\z` holds exactly for a single character in U+4E00..U+9FFF. |
| Labels.EscapeIgnoresCandidate | pinyin_regex/engine.py:63-74 | the four escape classes give the same answer for every candidate character. |
| Labels.NegatedSetIsComplement | pinyin_regex/engine.py:76-82 | the ("NEG", set) label matches exactly when the plain set label does not. |
| Labels.PlainLabelIsEquality | pinyin_regex/engine.py:84-85 | any other string label matches only the equal candidate, so a label of length other than one (an unknown escape such as `\q`) never matches one character. |
| Automaton.Closure | pinyin_regex/engine.py:20-39 | the closure contains the given states, only states of the graph, and is closed under epsilon edges. |
| Automaton.ClosureLeast | pinyin_regex/engine.py:20-39 | the closure lies inside every epsilon-closed superset of the given states (it is the least one). |
| Automaton.ClosureIsReachable | pinyin_regex/engine.py:20-39 | a state is in the closure if and only if an epsilon path leads to it from a given state. |
| Automaton.ClosureMono | pinyin_regex/engine.py:20-39 | a larger set of states has a larger closure. |
| Automaton.ClosureIdempotent | pinyin_regex/engine.py:20-39 | closing a closure changes nothing, and the closure of no states is empty. |
| Automaton.ReachesMono | pinyin_regex/engine.py:143-216 | the constructors only append states and add edges, so a path of an earlier graph survives in every later one. |
| Automaton.WellFormedMono | pinyin_regex/engine.py:143-216 | a fragment whose end is reachable from its start stays so as construction goes on. |
| Fragments.Arena.NewState | pinyin_regex/engine.py:11-17 | `State()` appends a state with no epsilon edges, no transitions and accept false, leaving the others unchanged. |
| Fragments.Arena.AddEps | pinyin_regex/engine.py:153 | `q.eps.add(t)`: `t` joins the epsilon edges of `q` and nothing else changes. |
| Fragments.Arena.AddEpsAll | pinyin_regex/engine.py:115-116 | all of `ts` join the epsilon edges of `q` and nothing else changes. |
| Fragments.Arena.AddLabel | pinyin_regex/engine.py:139 | `q.trans.setdefault(lab, set()).add(t)`: `t` joins the targets of `lab` on `q` and nothing else changes. |
| Fragments.Arena.SetLabel | pinyin_regex/engine.py:119-120 | `q.trans[lab] = ts`: the targets of `lab` on `q` become `ts` and nothing else changes. |
| Fragments.Arena.SetAccept | pinyin_regex/engine.py:226 | only the accept flag of the one state changes. |
| Fragments.Literal | pinyin_regex/engine.py:129-140 | two fresh states joined by the single label, no other change, the end reachable from the start, and no accepting state introduced. |
| Fragments.Concat | pinyin_regex/engine.py:143-154 | the only change is the epsilon edge from a.end to b.start; the result runs from a.start to b.end. |
| Construction.ConcatWellFormed | pinyin_regex/engine.py:143-154 | if both parts reach their ends, the concatenation reaches its end. |
| Fragments.Alt | pinyin_regex/engine.py:157-171 | two fresh states and exactly the four epsilon edges s→a.start, s→b.start, a.end→e, b.end→e. |
| Construction.AltWellFormed | pinyin_regex/engine.py:157-171 | an alternation reaches its end when either branch does. |
| Fragments.Star | pinyin_regex/engine.py:174-186 | two fresh states and exactly the edges s→a.start, s→e, a.end→a.start, a.end→e. |
| Construction.SkipEdge | pinyin_regex/engine.py:184 | when a constructor adds s→e, the end is in the start's epsilon closure (the zero-repetition path). |
| Construction.LoopEdge | pinyin_regex/engine.py:185 | the back edge puts a.start in the epsilon closure of a.end (repetition). |
| Fragments.Plus | pinyin_regex/engine.py:189-201 | two fresh states and exactly the edges s→a.start, a.end→a.start, a.end→e; no skip edge. |
| Construction.PlusWellFormed | pinyin_regex/engine.py:189-201 | `plus_frag` of a fragment that reaches its end reaches its own end. |
| Fragments.Question | pinyin_regex/engine.py:204-216 | two fresh states and exactly the edges s→a.start, s→e, a.end→e. |
| Fragments.Empty | pinyin_regex/engine.py:256-260 | the `{0}` fragment: two fresh states and the single edge s→e. |
| Fragments.Clone | pinyin_regex/engine.py:98-127 | the states reachable from a.start are copied one-to-one into fresh states with the same flags and with edges redirected through the copy map; old states are untouched; the result is None exactly when a.end was not copied (the KeyError). |
| Fragments.CloneState | pinyin_regex/engine.py:105-122 | `clone_state(s)`: afterwards `s` is in the copy map with the returned copy, the map only grew, existing states are untouched, and the copying invariant (every finished state completely copied) is kept. |
| Fragments.CloneNew | pinyin_regex/engine.py:109-122 | the first visit of `s`: a fresh copy with `s`'s accept flag is registered before its successors are copied, then its epsilon edges and transitions are filled in; same guarantees as `CloneState`. |
| Construction.CloneExtends | pinyin_regex/engine.py:98-127 | cloning only grows the graph and adds no accepting state if the fragment had none. |
| Construction.CloneWellFormed | pinyin_regex/engine.py:98-127 | cloning a fragment that reaches its end never raises, and the copy reaches its own end. |
| Fragments.Count | pinyin_regex/engine.py:219-235 | count 0 is `question_frag`, a negative count `star_frag` (exactly those edges); for count > 0 the result is `count - 1` rounds (`CountBuilt`), each appending a copy of everything then reachable from a.start and linking the chain's end to the copy's start; count 1 changes nothing; the result reaches its end. |
| Fragments.CountStep | pinyin_regex/engine.py:233-234 | one round `result = concat_frag(result, clone_frag(a))`: exactly one `CountRound`, a copy of what is reachable from a.start linked from the chain's end, with the result ending in the copy. |
| Fragments.Range | pinyin_regex/engine.py:238-305 | the graph after the call is exactly `RangeBuilt`: the star, plus, question and `{0}` edges in the four special cases; otherwise two fresh states, `s → e` when min is 0, `count_frag(a, min)` linked between them, and the tail's edges when max > min; the start's edges are listed, the end has none, and the result reaches its end. |
| Fragments.RangeGeneral | pinyin_regex/engine.py:262-305 | the general case: two fresh states, the start's edges as listed, none on the end, and exactly `RangeGeneralBuilt` (the head, then the tail). |
| Fragments.RangeHead | pinyin_regex/engine.py:262-275 | `s, e = State(), State()`, then `s → e` when min is 0, or the `count_frag(a, min)` chain linked between `s` and `e`; exactly `HeadBuilt`, with the tail's starting point `current`. |
| Fragments.RangeTail | pinyin_regex/engine.py:277-303 | the optional tail from `current` to `e` adds exactly `TailEdges`: the star-like loop when unbounded, `max - min` passes otherwise; only `current` and a.end gain edges. |
| Fragments.TailRounds | pinyin_regex/engine.py:294-303 | the `for i in range(remaining)` loop adds exactly the bounded `TailEdges`, ending with `a.end → e`. |
| Repeats.CountChainShape | pinyin_regex/engine.py:232-235 | the chain keeps a.start as its start, every round appends at least one state (no round is lost), and after a round the end is a fresh state. |
| Repeats.GeneralEdges | pinyin_regex/engine.py:262-303 | in the general case of `range_frag`, the start reaches a.start and a.end reaches the end in one edge each when max > min, and a.end links back to a.start when max ≥ min + 2. |
| Bounds.RangeOnePass | pinyin_regex/engine.py:250-303 | in every case with max > min, the range's start has an edge to a.start and a.end an edge to the range's end: one pass through `a` suffices, whatever min is. |
| Bounds.RangeLoops | pinyin_regex/engine.py:289-303 | a bounded range with max ≥ min + 2 has the edge a.end → a.start, so the upper bound is not kept. |
| Construction.GrowsThen | pinyin_regex/engine.py:143-154 | two construction steps in a row append the states of the first and add the union of both edge sets. |
| Matcher.EpsilonClosure | pinyin_regex/engine.py:20-39 | the worklist loop returns exactly `Closure`: the given states and all states epsilon-reachable from them. |
| Matcher.CollectTargets | pinyin_regex/engine.py:328-332 | the union of the targets of every label, of every current state, that matches the character. |
| Matcher.SentinelVisit | pinyin_regex/engine.py:322-325 | one state of the sentinel scan: if one of its labels matches, the set becomes the closure of that state's matching targets, otherwise it stays as it was. |
| Matcher.SentinelAdvance | pinyin_regex/engine.py:321-325 | scanning the closure in state order, the closure of the targets of the last matching state wins; with no match the closure stays. |
| Matcher.CharsAdvance | pinyin_regex/engine.py:326-335 | one step per character of the candidate, stopping early once the set is empty. |
| Matcher.Advance | pinyin_regex/engine.py:308-337 | the specification of `advance_states`: the closure, then the last-hit sentinel scan or one step per character; the result lies in the graph and is epsilon-closed. |
| Matcher.AdvanceStates | pinyin_regex/engine.py:308-337 | the result equals the specification `Advance` for every state set, original character and candidate. |
| Matcher.AdvanceCharsEmpty | pinyin_regex/engine.py:334-335 | from no states every candidate leads to no states (the early `break` loses nothing). |
| Matcher.AdvanceMono | pinyin_regex/engine.py:326-335 | for a non-sentinel candidate, more current states give more resulting states. |
| Matcher.AdvanceEmptyCandidate | pinyin_regex/engine.py:319-337 | the empty candidate consumes nothing: the result is the closure of the current states. |
| Matcher.SentinelLastHitWins | pinyin_regex/engine.py:321-325 | for a sentinel candidate the result is the closure of the targets of the highest-numbered closure state with a matching label. |
| Matcher.SentinelNoHitKeeps | pinyin_regex/engine.py:321-325 | when no closure state has a matching label, a sentinel candidate leaves the closure as it is. |
| Matcher.AdvanceAll | pinyin_regex/engine.py:356-361 | the union, over the candidates of a token, of `Advance`; it lies in the graph. |
| Matcher.StepToken | pinyin_regex/engine.py:354-361 | the token either accepts early (some candidate reaches an accepting state) or yields the union over its candidates. |
| Matcher.AdvanceAllMembers | pinyin_regex/engine.py:356-361 | a state is in the union for a token if and only if some candidate of the token reaches it. |
| Matcher.RunFrom | pinyin_regex/engine.py:353-366 | the specification of the token loop: accept at the end if the current set accepts, else accept early on a candidate, or go on with the union plus the start closure. |
| Matcher.Run | pinyin_regex/engine.py:340-366 | `run_pinyin_regex` as a value: `RunFrom` seeded with the closure of the start state. |
| Matcher.RunPinyinRegex | pinyin_regex/engine.py:340-366 | the result equals the specification `Run` for every automaton and token sequence. |
| Matcher.RunEmptyMatchAcceptsAll | pinyin_regex/engine.py:350-366 | if the pattern matches the empty token sequence, it matches every token sequence. |
| Matcher.RunExtendRight | pinyin_regex/engine.py:353-366 | a match on a token sequence stays a match when tokens are appended (search reports success once reached). |
| Matcher.RunExtendLeft | pinyin_regex/engine.py:350-366 | a match on a sentinel-free token sequence stays a match when any tokens are put in front (the start closure is re-seeded every step). |
| Matcher.RunCandidateOrder | pinyin_regex/engine.py:356 | the order in which a token lists its candidates does not change the result. |
| Matcher.NextAcceptsOnlyBySeed | pinyin_regex/engine.py:359-363 | if the next state set accepts, either some candidate already accepted early or the start closure accepts. |
| Syntax.DigitRun | pinyin_regex/parser.py:103 | the digit loop ends at the first non-digit or the end of the pattern and all characters it passes are digits. |
| Syntax.DecimalLeadingZero | pinyin_regex/parser.py:109 | `int` of a digit string ignores a leading zero. |
| Syntax.QuantSpec | pinyin_regex/parser.py:93-143 | a recognised quantifier ends after a `}` at least three characters on, with ordered bounds. |
| Syntax.QuantTail | pinyin_regex/parser.py:111-129 | after the lower bound: an optional comma and upper bound (none means unbounded), then the brace; a success ends after a `}` with ordered bounds. |
| Syntax.QuantClose | pinyin_regex/parser.py:128-136 | a success is exactly the given bounds ending after the `}` at `d`; a missing brace or reversed bounds is malformed. |
| Syntax.QuantExact | pinyin_regex/parser.py:109-112 | `{m}` is the range m..m, ending after the brace. |
| Syntax.QuantAtLeast | pinyin_regex/parser.py:113-125 | `{m,}` has no upper bound. |
| Syntax.QuantBetween | pinyin_regex/parser.py:113-136 | `{m,n}` is the range m..n, and a syntax error when m > n. |
| Syntax.QuantNeedsDigits | pinyin_regex/parser.py:106-107 | without a digit after `{` there is no quantifier. |
| Syntax.CharRange | pinyin_regex/parser.py:201-202 | a range holds exactly the characters whose code point lies between the two ends, none when reversed. |
| Syntax.ClassLoop | pinyin_regex/parser.py:193-207 | the member loop only adds characters and ends just after a `]` or one past the end of the pattern. |
| Syntax.ClassSpec | pinyin_regex/parser.py:184-212 | `parse_charclass` after `[`: an optional `^` makes the class negated, then the member loop; it crashes exactly when the loop does. |
| Syntax.ClassRange | pinyin_regex/parser.py:197-202 | `x-y` adds the code-point range and moves on three characters. |
| Syntax.ClassTrailingDash | pinyin_regex/parser.py:197-205 | `x-]` adds `x` and `-` as plain members and closes the class. |
| Syntax.ClassDashAtEnd | pinyin_regex/parser.py:197 | a `-` that is the last character of the pattern raises IndexError. |
| Syntax.ClassUnterminated | pinyin_regex/parser.py:193-207 | without `]`, the class takes every remaining character and leaves the cursor one past the end. |
| Syntax.EscapeNeverMatches | pinyin_regex/parser.py:152-161 | an escape other than `\^`, `\$` and the four classes compiles to a two-character label that never matches a consumed character. |
| Syntax.AnchorsMatchSentinels | pinyin_regex/parser.py:176-180 | bare `^` and `$` match exactly the `⟨BOS⟩` and `⟨EOS⟩` candidates. |
| Syntax.ScanAlt | pinyin_regex/parser.py:42-49 | `parse_alt` as a scan: a sequence, then the bar loop; a finished alternation never moves the cursor back. |
| Syntax.AltTail | pinyin_regex/parser.py:45-48 | the bar loop: each further sequence becomes the right operand of a new `Or`, so `\|` folds to the left. |
| Syntax.ScanSeq | pinyin_regex/parser.py:51-67 | `parse_seq` as a scan: the result is a `Cat` of the repeats and the cursor never moves back. |
| Syntax.SeqTail | pinyin_regex/parser.py:54-58 | the repeat loop: stops before the end, a bar or `)` and appends each repeat in order. |
| Syntax.RepeatTail | pinyin_regex/parser.py:73-91 | the postfix loop: each `*`, `+`, `?` or quantifier wraps what came before; a `{` that is no quantifier hangs. |
| Syntax.ScanRepeat | pinyin_regex/parser.py:69-91 | a repeat that finishes consumes at least one character. |
| Syntax.ScanAtom | pinyin_regex/parser.py:145-182 | every atom that finishes consumes at least one character. |
| Syntax.AtomLabel | pinyin_regex/parser.py:147-182 | the label of a one-character or escaped atom: "" at the end, `\^` and `\$` as the plain characters, other escapes as two-character labels, bare `^`/`$` as the sentinels, `.` as the wildcard, any other character as itself. |
| Syntax.SeqStopsAtDelimiter | pinyin_regex/parser.py:51-58 | `parse_seq` stops only at the end of the pattern or before a bar or `)`. |
| Syntax.AltStopsAtClose | pinyin_regex/parser.py:42-49 | `parse_alt` stops only at the end or before a `)` it leaves unread, so text after an unmatched `)` is ignored. |
| Syntax.MalformedQuantifierHangs | pinyin_regex/parser.py:73-91 | an atom followed by a `{` that is no quantifier makes `parse_repeat` loop forever. |
| Syntax.HangsWithoutDigits | pinyin_regex/parser.py:106-107 | `y{z}` never finishes compiling. |
| Syntax.HangsUnclosed | pinyin_regex/parser.py:128-129 | `y{1` never finishes compiling. |
| Syntax.HangsReversed | pinyin_regex/parser.py:133-136 | `y{3,1}` never finishes compiling. |
| Syntax.QuantifiedAtom | pinyin_regex/parser.py:69-138 | `y{2,3}` is read whole as one quantified atom. |
| Syntax.AltFoldsLeft | pinyin_regex/parser.py:42-49 | `a\|b\|c` is read as `(a\|b)\|c`. |
| Syntax.PostfixChains | pinyin_regex/parser.py:73-91 | `a*?` is read as `(a*)?`: the operators apply left to right to the same atom. |
| Parsing.AltJoin | pinyin_regex/parser.py:47-48 | `alt_frag` adds exactly two fresh states and the four edges s→left.start, s→right.start, left.end→e, right.end→e (`AltBuilt`), and the result reaches its end. |
| Parsing.EmptySeq | pinyin_regex/parser.py:60-62 | the empty sequence is one fresh state, with no edge, used as both start and end. |
| Parsing.ConcatAll | pinyin_regex/parser.py:64-67 | the chain runs from the first fragment's start to the last one's end and adds exactly the edge from each fragment's end to the next one's start (`Joins`). |
| Parsing.Postfix | pinyin_regex/parser.py:78-85 | `*`, `+`, `?` add two fresh states and exactly the edges of `star_frag`, `plus_frag` or `question_frag`; any other character leaves atom and graph as they were (`PostBuilt`). |
| Building.ChainStep | pinyin_regex/parser.py:64-66 | one more `concat_frag` adds exactly the edge into the new last fragment. |
| Building.TwoLiterals | pinyin_regex/parser.py:51-67 | `ab` builds exactly four states: `a` from 0 to 1, `b` from 2 to 3, and the single edge 1 → 2. |
| Building.SeqOfTwo | pinyin_regex/parser.py:51-67 | `ab` is read as one sequence of two literals. |
| Parsing.AddCodeRange | pinyin_regex/parser.py:201-202 | the loop over code points adds exactly `CharRange(lo, hi)` to the set. |
| Parsing.Parser.constructor | pinyin_regex/parser.py:24-26 | the parser holds the pattern with the cursor at 0. |
| Parsing.Parser.Peek | pinyin_regex/parser.py:28-30 | None exactly when the cursor is at or past the end, else the character under the cursor. |
| Parsing.Parser.Get | pinyin_regex/parser.py:32-36 | returns what `peek` saw and advances the cursor by one, even past the end. |
| Parsing.Parser.Parse | pinyin_regex/parser.py:38-40 | the whole pattern is one alternation: it stops, hangs or raises where the scanner does, and builds exactly the automaton of the expression read. |
| Parsing.Parser.ParseAlt | pinyin_regex/parser.py:42-49 | ends where, and fails how, the scanner says, and builds exactly `Builds` of the scanned expression, the bars folded to the left; the fragment is well formed in a graph that only grew and has no accepting state; at the end or before `)` the result is an empty one-state fragment. |
| Parsing.Parser.AltBranch | pinyin_regex/parser.py:45-48 | one bar: reads it and the next sequence, and builds `alt_frag` of what came before and that sequence, or hangs or raises as the scanner does. |
| Parsing.Parser.ParseSeq | pinyin_regex/parser.py:51-67 | as the scanner for sequences, building each repeat in turn and then their `concat_frag` chain; before the end, a bar or `)` the result is an empty one-state fragment. |
| Parsing.Parser.SeqItem | pinyin_regex/parser.py:58 | one repeat appended to the list: the fragment built is the scanner's next repeat, or the call hangs or raises with it. |
| Parsing.Parser.SeqJoin | pinyin_regex/parser.py:60-67 | the list of repeats becomes the `Cat` of their expressions: one fresh state when empty, otherwise the chain. |
| Parsing.Parser.ParseRepeat | pinyin_regex/parser.py:69-91 | as the scanner for repeats, including the hang on a malformed quantifier; builds the atom and then each operator in the order read. |
| Parsing.Parser.PostfixLoop | pinyin_regex/parser.py:73-91 | applies the operators that follow as the scanner reads them and hangs when the cursor stays on a `{`. |
| Parsing.Parser.PostfixStep | pinyin_regex/parser.py:78-85 | reads one `*`, `+` or `?` and builds that operator on the atom. |
| Parsing.Parser.RangeStep | pinyin_regex/parser.py:86-87 | a quantifier moves the cursor to its end and builds `range_frag`; without one the cursor stays put. |
| Parsing.Parser.ReadDigits | pinyin_regex/parser.py:103-104 | moves the cursor over the run of digits and returns exactly those characters. |
| Parsing.Parser.ReadQuantifier | pinyin_regex/parser.py:99-136 | reads exactly what the quantifier syntax says and, when it is well formed, leaves the cursor after `}`. |
| Parsing.Parser.ParseRangeQuantifier | pinyin_regex/parser.py:93-143 | a well-formed quantifier moves past `}` and builds exactly `range_frag(atom, m, n)` (`RangeBuilt`); a malformed one puts the cursor back and returns the atom with the graph unchanged. |
| Parsing.Parser.ParseAtom | pinyin_regex/parser.py:145-182 | follows the scanner and builds exactly its expression: every atom but a group is one fresh `literal_frag` with the label the syntax assigns (escapes, `.`, sentinels, end of pattern, classes); a group is the inner alternation. |
| Parsing.Parser.ParseCharclass | pinyin_regex/parser.py:184-212 | a class yields one `literal_frag` with the member set or its negation and the cursor after `]`; a trailing `-` raises IndexError with the graph unchanged. |
| Parsing.Parser.ReadMembers | pinyin_regex/parser.py:193-206 | collects exactly the members the class syntax defines, and crashes exactly when the syntax raises IndexError. |
| Parsing.CompileRegex | pinyin_regex/parser.py:215-227 | compiles exactly when the scanner finishes and hangs exactly when it hangs; the automaton is exactly `Builds` of the scanned expression from an empty arena, with only the fragment's end marked accepting; that state is reachable from the start; parsing stopped at the end or at an unmatched `)`; the empty pattern compiles to an accepting start state. |
| Parsing.ReachesIgnoresAccept | pinyin_regex/parser.py:226 | setting the accept flag does not change which states are reachable. |
| Parsing.AcceptingStartMatchesAll | pinyin_regex/parser.py:226-227 | an automaton whose start state accepts (as from the empty pattern) matches every token sequence. |
| Pinyin.Shengmu | pinyin_regex/pinyin_utils.py:47-59 | the initial of a syllable is a prefix of it, and non-empty for a non-empty syllable. |
| Pinyin.InitialFrom | pinyin_regex/pinyin_utils.py:56-59 | the search result is a prefix of the syllable and non-empty for a non-empty syllable. |
| Pinyin.GetShengmu | pinyin_regex/pinyin_utils.py:47-59 | the loop with early return gives `Shengmu(py)`. |
| Pinyin.ShengmuIsFirstListed | pinyin_regex/pinyin_utils.py:56-58 | the initial is the first entry of `INITIALS`, in list order, that prefixes the syllable. |
| Pinyin.ShengmuFallback | pinyin_regex/pinyin_utils.py:59 | without a listed initial, the first character, and "" for "". |
| Pinyin.RetroflexWins | pinyin_regex/pinyin_utils.py:12-36 | `zh`, `ch`, `sh` are found before `z`, `c`, `s`. |
| Pinyin.ShengmuExamples | pinyin_regex/pinyin_utils.py:47-59 | "" → "", "a" → "a", "zhong" → "zh", "zong" → "z". |
| Pinyin.ExpandPinyin | pinyin_regex/pinyin_utils.py:62-89 | the syllable is always present, the initial when initials are on, and there are at most four strings. |
| Pinyin.ExpandPlain | pinyin_regex/pinyin_utils.py:75-89 | with both options off the syllable expands to itself alone. |
| Pinyin.FlatTongue | pinyin_regex/pinyin_utils.py:40-44 | the fuzzy map covers exactly `zh`, `ch`, `sh` and drops their `h`. |
| Pinyin.ExpandMembers | pinyin_regex/pinyin_utils.py:75-89 | a string is in the expansion if and only if it is the syllable, the initial (initials on), or the flat initial with or without the final (fuzzy on, retroflex initial). |
| Pinyin.FuzzyKeepsFinal | pinyin_regex/pinyin_utils.py:84-87 | with fuzzy on, `zh…`, `ch…`, `sh…` also offer `z…`, `c…`, `s…` with the same final. |
| Pinyin.ExpandExamples | pinyin_regex/pinyin_utils.py:62-89 | `zhong` expands to {zhong, zh, zong, z}; `bei` to {bei, b}, without `pei`. |

## Left out

- `text_to_tokens` (pinyin_regex/pinyin_utils.py) calls the external pypinyin library. Tokens are given to the matcher as `Token(orig, cands)`, with the candidates as a sequence.
- `str.isdigit`, `str.isalnum` and `str.isspace` are Unicode tables. The model passes them in as the abstract `CharClasses` record.
- Python iterates the set `cur` of `State` objects in an order set by object hashes. The sentinel branch of `advance_states` depends on that order, because the last matching state wins. The model fixes the order as ascending state index. `RunCandidateOrder` shows that the candidate order does not matter.
- States are indices into the arena rather than Python objects. The automaton is read as a graph value once compilation is done.
- Quantifier digits are ASCII only. `str.isdigit` and `int()` also accept other scripts' decimal digits, which the model does not.
- In a class range, surrogate code points have no Dafny `char`. `CharRange` skips them, while Python's `chr` would build lone surrogates.
- Python's recursion limit (RecursionError on deeply nested groups or deep clones) is left out.
- The endless loop on a malformed quantifier is the `Hangs` outcome. The model does not run forever.
- Pinyin.ExpandPinyin: the default arguments `use_initials=True, use_fuzzy=True` (pinyin_regex/pinyin_utils.py:63) are not modelled; both flags are always passed explicitly, and `ExpandExamples` uses the default values `true, true`.
- `debug.py`, `errors.py` and the package `__init__.py` are not part of this model.
- Fragments.Count: requires that the fragment's end is reachable from its start. Without that, the source's `clone_frag` raises KeyError. Every fragment the parser builds meets it (`ParseAlt` and the other parse methods ensure `WellFormed`).
- Fragments.Range: requires a well-formed fragment, as Count does, and takes `min` as a natural number. The source accepts any `int`, but the parser only passes digit strings. The quantifier equivalences (`{0,}` ≡ `*`, and so on) are stated as equal edge sets, not as equal languages.
- Parsing.Parser.ParseAlt, ParseSeq, ParseRepeat, ParseAtom, ParseCharclass, ParseRangeQuantifier and Parse: require that no state of the arena accepts. During `compile_regex` every existing state was made by the parser and is not accepting, so no call the source makes is excluded.
- Parsing.Parser.ReadMembers: the guard `c is not None and end is not None` (pinyin_regex/parser.py:200) always holds once the IndexError case is handled, so it has no branch of its own.
- The language of each fragment is not stated as a set of token sequences. The model states the exact edges every constructor adds, what the parser builds, and the matcher's behaviour on any automaton; consequences such as the lost bounds of `{m,n}` are stated as edges.
