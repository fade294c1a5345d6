/**
 * The pinyin helpers of pinyin_regex/pinyin_utils.py: the initial
 * (shengmu) of a syllable, found by an ordered prefix search over the
 * table of initials, and the expansion of a syllable into the strings a
 * token offers to the matcher: the syllable, its initial, and the
 * flat-tongue variants of `zh`, `ch` and `sh`.
 */
module Pinyin {
  /** The initials in search order; the two-letter ones come before `z`, `c` and `s`. */
  const Initials: seq<string> := [
    "zh", "ch", "sh", "b", "p", "m", "f", "d", "t", "n", "l", "g",
    "k", "h", "j", "q", "x", "r", "z", "c", "s", "y", "w"
  ]

  /** The fuzzy ("flat tongue") replacements of the retroflex initials. */
  const FuzzyMap: map<string, string> := map["zh" := "z", "ch" := "c", "sh" := "s"]

  /**
   * The initial of `py`, searching the table from position `k`: the first
   * entry that is a prefix of `py`, else the first character of `py`, else
   * the empty string.
   */
  function InitialFrom(py: string, k: nat): (r: string)
    ensures r <= py
    ensures py != [] ==> r != []
    decreases |Initials| - k
  {
    if k >= |Initials| then (if py == [] then py else py[..1])
    else if Initials[k] <= py then Initials[k]
    else InitialFrom(py, k + 1)
  }

  /** The initial of `py`, as `get_shengmu` determines it. */
  function Shengmu(py: string): (r: string)
    ensures r <= py
    ensures py != [] ==> r != []
  {
    InitialFrom(py, 0)
  }

  /** `get_shengmu`: the loop over `INITIALS` with an early return. */
  method GetShengmu(py: string) returns (sm: string)
    ensures sm == Shengmu(py)
  {
    for k := 0 to |Initials|
      invariant InitialFrom(py, k) == Shengmu(py)
    {
      if Initials[k] <= py {
        return Initials[k];
      }
    }
    sm := if py == [] then py else py[..1];
  }

  /** The search skips entries that do not prefix `py` and stops at the first that does. */
  lemma {:induction false} InitialFromFirst(py: string, k: nat, m: nat)
    requires k <= m < |Initials| && Initials[m] <= py
    requires forall j :: k <= j < m ==> !(Initials[j] <= py)
    ensures InitialFrom(py, k) == Initials[m]
    decreases m - k
  {
    if k < m {
      InitialFromFirst(py, k + 1, m);
    }
  }

  lemma {:induction false} InitialFromNone(py: string, k: nat)
    requires forall j :: k <= j < |Initials| ==> !(Initials[j] <= py)
    ensures InitialFrom(py, k) == (if py == [] then py else py[..1])
    decreases |Initials| - k
  {
    if k < |Initials| {
      InitialFromNone(py, k + 1);
    }
  }

  /** The initial is the first entry of the table, in list order, that prefixes `py`. */
  lemma ShengmuIsFirstListed(py: string, m: nat)
    requires m < |Initials| && Initials[m] <= py
    requires forall j :: 0 <= j < m ==> !(Initials[j] <= py)
    ensures Shengmu(py) == Initials[m]
  {
    InitialFromFirst(py, 0, m);
  }

  /** Without a listed initial, the initial is the first character, and "" for "". */
  lemma ShengmuFallback(py: string)
    requires forall j :: 0 <= j < |Initials| ==> !(Initials[j] <= py)
    ensures Shengmu(py) == (if py == [] then py else py[..1])
  {
    InitialFromNone(py, 0);
  }

  /** `a` is not a prefix of `s` when the two differ at a position both have. */
  lemma Mismatch(a: string, s: string, k: nat)
    requires k < |a| && k < |s| && a[k] != s[k]
    ensures !(a <= s)
  {
    if |a| <= |s| {
      assert s[..|a|][k] == s[k];
    }
  }

  /** `zh`, `ch` and `sh` win over `z`, `c` and `s`. */
  lemma RetroflexWins(rest: string)
    ensures Shengmu("zh" + rest) == "zh"
    ensures Shengmu("ch" + rest) == "ch"
    ensures Shengmu("sh" + rest) == "sh"
  {
    assert Initials[0] <= "zh" + rest;
    Mismatch("zh", "ch" + rest, 0);
    assert Initials[1] <= "ch" + rest;
    Mismatch("zh", "sh" + rest, 0);
    Mismatch("ch", "sh" + rest, 0);
    assert Initials[2] <= "sh" + rest;
    ShengmuIsFirstListed("ch" + rest, 1);
    ShengmuIsFirstListed("sh" + rest, 2);
  }

  lemma ShengmuExamples()
    ensures Shengmu("") == ""
    ensures Shengmu("a") == "a"
    ensures Shengmu("zhong") == "zh"
    ensures Shengmu("zong") == "z"
  {
    RetroflexWins("ong");
    assert "zhong" == "zh" + "ong";
    ShengmuOfA();
    ShengmuOfZong();
  }

  /** No initial starts with a vowel. */
  lemma ShengmuOfA()
    ensures Shengmu("a") == "a"
  {
    forall j | 0 <= j < |Initials| ensures !(Initials[j] <= "a") {
      Mismatch(Initials[j], "a", 0);
    }
    ShengmuFallback("a");
  }

  /** `z` is the first initial that prefixes `zong`. */
  lemma ShengmuOfZong()
    ensures Shengmu("zong") == "z"
  {
    forall j | 0 <= j < 18 ensures !(Initials[j] <= "zong") {
      if j == 0 {
        Mismatch("zh", "zong", 1);
      } else {
        Mismatch(Initials[j], "zong", 0);
      }
    }
    ShengmuIsFirstListed("zong", 18);
  }

  /** `b` is the first initial that prefixes `bei`. */
  lemma ShengmuOfBei()
    ensures Shengmu("bei") == "b"
  {
    forall j | 0 <= j < 3 ensures !(Initials[j] <= "bei") {
      Mismatch(Initials[j], "bei", 0);
    }
    ShengmuIsFirstListed("bei", 3);
  }

  /**
   * `expand_pinyin(py, use_initials, use_fuzzy)`: the syllable, its
   * initial when `useInitials`, and, when `useFuzzy` and the initial is
   * retroflex, the syllable and the initial with the flat initial.
   */
  function ExpandPinyin(py: string, useInitials: bool, useFuzzy: bool): (r: set<string>)
    ensures py in r
    ensures useInitials ==> Shengmu(py) in r
    ensures |r| <= 4
  {
    var sm := Shengmu(py);
    var withInitial := {py} + (if useInitials then {sm} else {});
    if useFuzzy && sm in FuzzyMap then
      var fuzzy := FuzzyMap[sm];
      CardFour(py, sm, fuzzy + py[|sm|..], fuzzy);
      withInitial + {fuzzy + py[|sm|..], fuzzy}
    else
      CardTwo(py, sm);
      withInitial
  }

  lemma CardTwo(a: string, b: string)
    ensures |{a} + {b}| <= 2 && |{a}| <= 2
  {
  }

  lemma CardFour(a: string, b: string, c: string, d: string)
    ensures |{a} + {b} + {c, d}| <= 4 && |{a} + {c, d}| <= 4
  {
  }

  /** With both options off a syllable expands to itself. */
  lemma ExpandPlain(py: string)
    ensures ExpandPinyin(py, false, false) == {py}
  {
  }

  /** The fuzzy map covers exactly the retroflex initials and drops their `h`. */
  lemma FlatTongue(sm: string)
    ensures sm in FuzzyMap <==> sm == "zh" || sm == "ch" || sm == "sh"
    ensures sm in FuzzyMap ==> |sm| == 2 && sm[1] == 'h' && FuzzyMap[sm] == sm[..1]
  {
  }

  /**
   * Every string of the expansion is the syllable, its initial, or the
   * flat form of a retroflex initial with or without the rest of the
   * syllable; and each of these is there when its option is on.
   */
  lemma ExpandMembers(py: string, useInitials: bool, useFuzzy: bool, x: string)
    ensures var sm := Shengmu(py);
      x in ExpandPinyin(py, useInitials, useFuzzy) <==>
        || x == py
        || (useInitials && x == sm)
        || (useFuzzy && (sm == "zh" || sm == "ch" || sm == "sh") && (x == sm[..1] + py[2..] || x == sm[..1]))
  {
    FlatTongue(Shengmu(py));
  }

  /** A fuzzy variant keeps the final: `zhong` also offers `zong`. */
  lemma FuzzyKeepsFinal(rest: string, useInitials: bool)
    ensures "z" + rest in ExpandPinyin("zh" + rest, useInitials, true)
    ensures "c" + rest in ExpandPinyin("ch" + rest, useInitials, true)
    ensures "s" + rest in ExpandPinyin("sh" + rest, useInitials, true)
  {
    RetroflexWins(rest);
    assert ("zh" + rest)[2..] == rest && ("ch" + rest)[2..] == rest && ("sh" + rest)[2..] == rest;
  }

  lemma ExpandExamples()
    ensures ExpandPinyin("zhong", true, true) == {"zhong", "zh", "zong", "z"}
    ensures ExpandPinyin("bei", true, true) == {"bei", "b"}
    ensures "pei" !in ExpandPinyin("bei", true, true)
  {
    RetroflexWins("ong");
    assert "zhong" == "zh" + "ong";
    assert FuzzyMap["zh"] + "zhong"[2..] == "zong";
    ShengmuOfBei();
  }
}
