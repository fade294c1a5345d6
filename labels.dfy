/**
 * Transition labels of the NFA and the predicate `match_label`
 * (pinyin_regex/engine.py).
 */
module Labels {

  /** The sentinel strings that `^` and `$` compile to. */
  const BOS: string := "⟨BOS⟩"
  const EOS: string := "⟨EOS⟩"

  /**
   * A key of `State.trans`.  The source uses a plain string (a literal
   * character, ".", an escape such as "\d", a sentinel, or any other text),
   * a frozenset of one-character strings for `[...]`, and the pair
   * ("NEG", frozenset) for `[^...]`.  Which kind a string label is, is
   * decided by its contents, exactly as `match_label` does.
   */
  datatype Label =
    | Str(s: string)
    | Chars(cs: set<char>)
    | NotChars(cs: set<char>)

  /**
   * Python's Unicode predicates `str.isdigit`, `str.isalnum` and
   * `str.isspace`, which the escape classes apply to the original
   * character.  They are library tables, so the model keeps them abstract.
   */
  datatype CharClasses = CharClasses(
    isDigit: string -> bool,
    isAlnum: string -> bool,
    isSpace: string -> bool)

  /** `str.isascii()`: every code point is below 128 (true of ""). */
  predicate IsAscii(s: string) {
    forall k :: 0 <= k < |s| ==> s[k] as int < 128
  }

  /** The `\z` test: exactly one character, in U+4E00..U+9FFF. */
  predicate IsCjk(s: string) {
    |s| == 1 && 0x4E00 <= s[0] as int <= 0x9FFF
  }

  /** The four escape labels that test the original character. */
  predicate IsEscapeClass(l: Label) {
    l == Str("\\d") || l == Str("\\w") || l == Str("\\s") || l == Str("\\z")
  }

  /** The labels `match_label` treats specially before the final equality test. */
  predicate IsSpecial(s: string) {
    s == "." || s == BOS || s == EOS || IsEscapeClass(Str(s))
  }

  /**
   * `match_label(label, ch_org, ch)`: `orig` is the token's original
   * character, `ch` the candidate character being consumed (or, in the
   * sentinel branch of `advance_states`, the whole candidate string).
   * The tests run in the source's order.
   */
  function MatchLabel(u: CharClasses, lab: Label, orig: string, ch: string): bool {
    if lab == Str(".") then orig != BOS && orig != EOS
    else if lab == Str(BOS) then ch == BOS
    else if lab == Str(EOS) then ch == EOS
    else if lab == Str("\\d") then u.isDigit(orig)
    else if lab == Str("\\w") then IsAscii(orig) && u.isAlnum(orig)
    else if lab == Str("\\s") then u.isSpace(orig)
    else if lab == Str("\\z") then IsCjk(orig)
    else
      match lab
      case Chars(cs) => |ch| == 1 && ch[0] in cs
      case NotChars(cs) => !(|ch| == 1 && ch[0] in cs)
      case Str(s) => ch == s
  }

  /** The wildcard looks only at the original character and rejects just the two sentinels. */
  lemma WildcardMatch(u: CharClasses, orig: string, ch: string)
    ensures MatchLabel(u, Str("."), orig, ch) <==> orig != BOS && orig != EOS
  {
  }

  /** A sentinel label matches exactly the candidate equal to it. */
  lemma SentinelMatch(u: CharClasses, l: Label, orig: string, ch: string)
    requires l == Str(BOS) || l == Str(EOS)
    ensures MatchLabel(u, l, orig, ch) <==> ch == l.s
  {
  }

  /** `\d`, `\w`, `\s` and `\z` ignore the candidate character. */
  lemma EscapeIgnoresCandidate(u: CharClasses, l: Label, orig: string, ch1: string, ch2: string)
    requires IsEscapeClass(l)
    ensures MatchLabel(u, l, orig, ch1) == MatchLabel(u, l, orig, ch2)
  {
  }

  /** The escape classes spelled out. */
  lemma EscapeClasses(u: CharClasses, orig: string, ch: string)
    ensures MatchLabel(u, Str("\\d"), orig, ch) == u.isDigit(orig)
    ensures MatchLabel(u, Str("\\w"), orig, ch) == (IsAscii(orig) && u.isAlnum(orig))
    ensures MatchLabel(u, Str("\\s"), orig, ch) == u.isSpace(orig)
    ensures MatchLabel(u, Str("\\z"), orig, ch) == (|orig| == 1 && 0x4E00 <= orig[0] as int <= 0x9FFF)
  {
  }

  /** For one character set, `[...]` and `[^...]` give opposite answers on every input. */
  lemma NegatedSetIsComplement(u: CharClasses, cs: set<char>, orig: string, ch: string)
    ensures MatchLabel(u, NotChars(cs), orig, ch) == !MatchLabel(u, Chars(cs), orig, ch)
  {
  }

  /**
   * Every other string label is compared for equality with the candidate,
   * so a label of two or more characters (an unrecognised escape such as
   * "\q") never matches a single consumed character.
   */
  lemma PlainLabelIsEquality(u: CharClasses, s: string, orig: string, ch: string, c: char)
    requires !IsSpecial(s)
    ensures MatchLabel(u, Str(s), orig, ch) <==> ch == s
    ensures |s| != 1 ==> !MatchLabel(u, Str(s), orig, [c])
  {
  }
}
