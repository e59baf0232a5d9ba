/**
 * The post-build theme scoping of the bundled stylesheet
 * (web_packages/fluttron_milkdown/frontend/scripts/transform-theme-css.mjs).
 *
 * Every theme stylesheet bundled into one file writes its rules against `.milkdown`.
 * The transformer finds each theme's section by the bundler's source comment and
 * rewrites each `.milkdown {` rule met in it into `.<parentClass> .milkdown {`.
 * Functions here state what each step computes; the imperative methods that follow
 * the source's loops are proved to compute the same.
 */
module ThemeCss {
  import opened JsText

  /** One entry of `THEME_MAPPINGS`: a source-path marker and the class its rules are scoped under. */
  datatype ThemeMapping = ThemeMapping(sourcePattern: string, parentClass: string)

  /** The names of the four bundled themes. */
  const ThemeNames: seq<string> := ["frame", "frame-dark", "nord", "nord-dark"]

  /** The source path of a bundled theme stylesheet, `/theme/<name>/style.css`. */
  function ThemePath(name: string): string {
    "/theme/" + name + "/style.css"
  }

  /** The class a theme's rules are scoped under, `milkdown-theme-<name>`. */
  function ThemeClass(name: string): string {
    "milkdown-theme-" + name
  }

  /** `THEME_MAPPINGS`: one entry per theme, its source path and its class. */
  const THEME_MAPPINGS: seq<ThemeMapping> := [
    ThemeMapping(ThemePath("frame"), ThemeClass("frame")),
    ThemeMapping(ThemePath("frame-dark"), ThemeClass("frame-dark")),
    ThemeMapping(ThemePath("nord"), ThemeClass("nord")),
    ThemeMapping(ThemePath("nord-dark"), ThemeClass("nord-dark"))
  ]

  lemma MappingsOfThemeNames()
    ensures |THEME_MAPPINGS| == |ThemeNames|
    ensures forall t :: 0 <= t < |THEME_MAPPINGS| ==>
      THEME_MAPPINGS[t] == ThemeMapping(ThemePath(ThemeNames[t]), ThemeClass(ThemeNames[t]))
  {
  }

  /** The rule opener that is rewritten (`milkdownPattern`). */
  const RulePattern: string := ".milkdown {"

  /** The start of the comment the bundler writes before each bundled file. */
  const CommentMarker: string := "/* node_modules"

  /** The selector that replaces `.milkdown` in a scoped rule. */
  function NewSelector(parentClass: string): string {
    "." + parentClass + " .milkdown"
  }

  /** A parent class that can be written into a selector without opening or closing a block. */
  predicate BraceFree(parentClass: string) {
    '{' !in parentClass && '}' !in parentClass
  }

  // ---------------------------------------------------------------------------
  // The brace scan of scopeMilkdownRule

  function Delta(c: char): int {
    if c == '{' then 1 else if c == '}' then -1 else 0
  }

  /** The number of `{` minus the number of `}` in `t`. */
  function Balance(t: string): int {
    if t == [] then 0 else Delta(t[0]) + Balance(t[1..])
  }

  lemma {:induction false} BalanceSnoc(t: string, c: char)
    ensures Balance(t + [c]) == Balance(t) + Delta(c)
  {
    if t != [] {
      assert (t + [c])[1..] == t[1..] + [c];
      BalanceSnoc(t[1..], c);
    } else {
      assert [c][1..] == [];
    }
  }

  /**
   * Where the depth-counting scan of lines 88-94 stops, started at index `k` with
   * depth `depth`: the first index at which the depth is no longer positive, or
   * the end of the text.
   */
  function ScanClose(s: string, k: nat, depth: int): (e: nat)
    requires k <= |s|
    ensures k <= e <= |s|
    decreases |s| - k
  {
    if k < |s| && depth > 0 then ScanClose(s, k + 1, depth + Delta(s[k])) else k
  }

  /** The depth stays positive before the stop, and is no longer positive at a stop inside the text. */
  lemma {:induction false} ScanCloseDepth(s: string, k: nat, depth: int)
    requires k <= |s|
    ensures var e := ScanClose(s, k, depth);
      && (forall j :: k <= j < e ==> depth + Balance(s[k..j]) > 0)
      && (e < |s| ==> depth + Balance(s[k..e]) <= 0)
    decreases |s| - k
  {
    var e := ScanClose(s, k, depth);
    if k < |s| && depth > 0 {
      var d := depth + Delta(s[k]);
      ScanCloseDepth(s, k + 1, d);
      forall j | k < j <= e && j <= |s|
        ensures depth + Balance(s[k..j]) == d + Balance(s[k + 1..j])
      {
        assert s[k..j][1..] == s[k + 1..j];
      }
      assert s[k..k] == [];
    } else {
      assert s[k..k] == [];
    }
  }

  /**
   * When the scan starts inside a block and the depth reaches zero, it stops just
   * after a `}` and the depth is exactly zero there: nested blocks stay inside.
   */
  lemma ScanCloseStopsAfterClosingBrace(s: string, k: nat, depth: int)
    requires k <= |s| && depth > 0
    ensures var e := ScanClose(s, k, depth);
      depth + Balance(s[k..e]) <= 0 ==> e > k && s[e - 1] == '}' && depth + Balance(s[k..e]) == 0
  {
    var e := ScanClose(s, k, depth);
    ScanCloseDepth(s, k, depth);
    if depth + Balance(s[k..e]) <= 0 {
      assert e != k;
      assert s[k..e] == s[k..e - 1] + [s[e - 1]];
      BalanceSnoc(s[k..e - 1], s[e - 1]);
    }
  }

  /** The opening brace of the rule body is balanced: the scan reaches depth zero. */
  predicate RuleCloses(s: string, braceIndex: nat)
    requires braceIndex < |s|
  {
    1 + Balance(s[braceIndex + 1..ScanClose(s, braceIndex + 1, 1)]) == 0
  }

  // ---------------------------------------------------------------------------
  // scopeMilkdownRule

  /**
   * What `scopeMilkdownRule(css, ruleStart, parentClass)` returns: the rule from
   * `ruleStart` to its balanced `}` is rebuilt as `<ws>.<parentClass> .milkdown {<body>}`,
   * where `<ws>` is the whitespace run just before `ruleStart`, and the text before
   * the whitespace run is kept. `asWritten` selects how that text is cut: with
   * `slice(0, -ws.length)` as line 105 writes it, which keeps nothing at all when the
   * whitespace run is empty, or by its length, as evidently intended.
   */
  function ScopeRuleWith(css: string, ruleStart: int, parentClass: string, asWritten: bool): string {
    var braceIndex := IndexOf(css, "{", ruleStart);
    if braceIndex == -1 then css
    else RebuildRule(css, ruleStart, braceIndex + 1, ScanClose(css, braceIndex + 1, 1), parentClass, asWritten)
  }

  /**
   * Lines 95-105: the rule rebuilt once its braces are located. The scan stopped at
   * `scanEnd`, so `closeIndex` is `scanEnd - 1` and the text after the rule starts
   * at `scanEnd`.
   */
  function RebuildRule(css: string, ruleStart: int, bodyStart: int, scanEnd: int, parentClass: string, asWritten: bool): string {
    var ruleContent := Substring(css, bodyStart, scanEnd - 1);
    var beforeRule := Substring(css, 0, ruleStart);
    var afterRule := Substring(css, scanEnd, |css|);
    var whitespace := TrailingWhitespace(beforeRule);
    var newRule := whitespace + NewSelector(parentClass) + " {" + ruleContent + "}";
    KeptText(beforeRule, asWritten) + newRule + afterRule
  }

  /**
   * The text kept in front of the new rule: `beforeRule.slice(0, -whitespace.length)`
   * as line 105 writes it, or everything before the whitespace run.
   */
  function KeptText(beforeRule: string, asWritten: bool): string {
    var whitespace := TrailingWhitespace(beforeRule);
    if asWritten then SliceToNegative(beforeRule, |whitespace|) else beforeRule[..|beforeRule| - |whitespace|]
  }

  /** `scopeMilkdownRule` as line 105 writes it. */
  function ScopeRuleAsWritten(css: string, ruleStart: int, parentClass: string): string {
    ScopeRuleWith(css, ruleStart, parentClass, true)
  }

  /** `scopeMilkdownRule` with the text before the rule kept whole. */
  function ScopeRule(css: string, ruleStart: int, parentClass: string): string {
    ScopeRuleWith(css, ruleStart, parentClass, false)
  }

  /**
   * `scopeMilkdownRule` with its depth-counting loop (lines 85-105, text before the
   * rule kept whole). `closeIndex` is read before the decrement of line 95.
   */
  method ScopeMilkdownRule(css: string, ruleStart: int, parentClass: string) returns (r: string)
    ensures r == ScopeRule(css, ruleStart, parentClass)
  {
    var braceIndex := IndexOf(css, "{", ruleStart);
    if braceIndex == -1 {
      ScopeRuleFromBrace(css, ruleStart, parentClass, braceIndex);
      return css;
    }
    var depth := 1;
    var closeIndex := braceIndex + 1;
    while closeIndex < |css| && depth > 0
      invariant braceIndex + 1 <= closeIndex <= |css|
      invariant ScanClose(css, closeIndex, depth) == ScanClose(css, braceIndex + 1, 1)
      decreases |css| - closeIndex
    {
      ScanCloseStep(css, closeIndex, depth);
      if css[closeIndex] == '{' {
        depth := depth + 1;
      } else if css[closeIndex] == '}' {
        depth := depth - 1;
      }
      closeIndex := closeIndex + 1;
    }
    ScanCloseStop(css, closeIndex, depth);
    ScopeRuleFromBrace(css, ruleStart, parentClass, braceIndex);
    r := RebuildRule(css, ruleStart, braceIndex + 1, closeIndex, parentClass, false);
  }

  lemma ScanCloseStep(s: string, k: nat, depth: int)
    requires k < |s| && depth > 0
    ensures ScanClose(s, k, depth) == ScanClose(s, k + 1, depth + Delta(s[k]))
  {
  }

  lemma ScanCloseStop(s: string, k: nat, depth: int)
    requires k <= |s| && !(k < |s| && depth > 0)
    ensures ScanClose(s, k, depth) == k
  {
  }

  /** Without a `{` after the rule start the text is returned as it is; otherwise the rule is rebuilt. */
  lemma ScopeRuleFromBrace(css: string, ruleStart: int, parentClass: string, braceIndex: int)
    requires braceIndex == IndexOf(css, "{", ruleStart)
    ensures braceIndex == -1 ==> ScopeRule(css, ruleStart, parentClass) == css
    ensures braceIndex != -1 ==> 0 <= braceIndex < |css|
    ensures braceIndex != -1 ==>
      (ScopeRule(css, ruleStart, parentClass)
        == RebuildRule(css, ruleStart, braceIndex + 1, ScanClose(css, braceIndex + 1, 1), parentClass, false))
  {
    var r := ScopeRuleWith(css, ruleStart, parentClass, false);
    assert ScopeRule(css, ruleStart, parentClass) == r;
  }

  /** At an occurrence of `.milkdown {` the first `{` from `m` is the rule's own. */
  lemma BraceOfRule(css: string, m: nat)
    requires At(css, RulePattern, m)
    ensures IndexOf(css, "{", m) == m + 10
  {
    assert css[m..m + 11] == RulePattern;
    assert At(css, "{", m + 10) by {
      assert css[m + 10..m + 11] == [css[m + 10]] == [RulePattern[10]];
    }
    forall j | m <= j < m + 10
      ensures !At(css, "{", j)
    {
      assert css[j] == RulePattern[j - m];
      assert css[j..j + 1] == [css[j]];
    }
  }

  /** Where the scan of the rule opened at `m` stops. */
  function RuleEnd(css: string, m: nat): (e: nat)
    requires At(css, RulePattern, m)
    ensures m + 11 <= e <= |css|
  {
    ScanClose(css, m + 11, 1)
  }

  /**
   * The body that `scopeMilkdownRule` copies: the text between the braces, or the
   * `{` itself when the text ends right after it (`substring` swaps its arguments).
   */
  function RuleBody(css: string, m: nat): string
    requires At(css, RulePattern, m)
  {
    var e := RuleEnd(css, m);
    if e > m + 11 then css[m + 11..e - 1] else css[m + 10..m + 11]
  }

  /** The rebuilt rule from its body on: the body, the closing brace and the text after the rule. */
  function RuleTail(css: string, m: nat): string
    requires At(css, RulePattern, m)
  {
    RuleBody(css, m) + "}" + css[RuleEnd(css, m)..]
  }

  /** The text kept before the rule, followed by the whitespace run. */
  lemma KeptThenWhitespace(t: string, asWritten: bool)
    ensures KeptText(t, asWritten) + TrailingWhitespace(t) == if asWritten && |TrailingWhitespace(t)| == 0 then [] else t
  {
    var ws := TrailingWhitespace(t);
    assert t == t[..|t| - |ws|] + t[|t| - |ws|..];
  }

  lemma RebuildRuleIs(css: string, ruleStart: int, bodyStart: int, scanEnd: int, parentClass: string, asWritten: bool)
    ensures var beforeRule := Substring(css, 0, ruleStart);
      RebuildRule(css, ruleStart, bodyStart, scanEnd, parentClass, asWritten)
        == KeptText(beforeRule, asWritten)
          + (TrailingWhitespace(beforeRule) + NewSelector(parentClass) + " {" + Substring(css, bodyStart, scanEnd - 1) + "}")
          + Substring(css, scanEnd, |css|)
  {
  }

  lemma SubstringToEnd(s: string, a: nat)
    requires a <= |s|
    ensures Substring(s, a, |s|) == s[a..]
  {
    assert s[a..|s|] == s[a..];
  }

  lemma Regroup(prefix: string, ws: string, sel: string, body: string, after: string)
    ensures prefix + (ws + sel + " {" + body + "}") + after == (prefix + ws) + (sel + " {") + (body + "}" + after)
  {
  }

  /** The text that stands before the new selector: all of it, or nothing when `slice(0, -0)` drops it. */
  function KeptBefore(css: string, m: nat, asWritten: bool): string
    requires m <= |css|
  {
    if asWritten && |TrailingWhitespace(css[..m])| == 0 then [] else css[..m]
  }

  /** The three pieces `scopeMilkdownRule` cuts out of the text at an occurrence of `.milkdown {`. */
  lemma RulePieces(css: string, m: nat)
    requires At(css, RulePattern, m)
    ensures Substring(css, m + 11, RuleEnd(css, m) - 1) == RuleBody(css, m)
    ensures Substring(css, 0, m) == css[..m]
    ensures Substring(css, RuleEnd(css, m), |css|) == css[RuleEnd(css, m)..]
  {
    var e := RuleEnd(css, m);
    if e == m + 11 {
      assert Substring(css, m + 11, e - 1) == css[m + 10..m + 11];
    }
    SubstringToEnd(css, e);
  }

  /** The rebuilt rule at an occurrence of `.milkdown {`, once the scan's end is known. */
  lemma RebuildRuleAt(css: string, m: nat, parentClass: string, asWritten: bool)
    requires At(css, RulePattern, m)
    ensures RebuildRule(css, m, m + 11, RuleEnd(css, m), parentClass, asWritten) ==
      KeptBefore(css, m, asWritten) + (NewSelector(parentClass) + " {") + RuleTail(css, m)
  {
    var e := RuleEnd(css, m);
    RulePieces(css, m);
    var beforeRule := Substring(css, 0, m);
    var ws := TrailingWhitespace(beforeRule);
    var kept := KeptText(beforeRule, asWritten);
    KeptThenWhitespace(beforeRule, asWritten);
    RebuildRuleIs(css, m, m + 11, e, parentClass, asWritten);
    Regroup(kept, ws, NewSelector(parentClass), RuleBody(css, m), css[e..]);
  }

  /** Either version of `scopeMilkdownRule` at an occurrence of `.milkdown {`, spelled out piece by piece. */
  lemma ScopeRuleWithAt(css: string, m: nat, parentClass: string, asWritten: bool)
    requires At(css, RulePattern, m)
    ensures ScopeRuleWith(css, m, parentClass, asWritten) ==
      KeptBefore(css, m, asWritten) + (NewSelector(parentClass) + " {") + RuleTail(css, m)
  {
    BraceOfRule(css, m);
    assert ScopeRuleWith(css, m, parentClass, asWritten) == RebuildRule(css, m, m + 11, RuleEnd(css, m), parentClass, asWritten);
    RebuildRuleAt(css, m, parentClass, asWritten);
  }

  /** `scopeMilkdownRule` at an occurrence of `.milkdown {`: the text before it, the new selector, the rest. */
  lemma ScopeRuleAt(css: string, m: nat, parentClass: string)
    requires At(css, RulePattern, m)
    ensures ScopeRule(css, m, parentClass) == css[..m] + (NewSelector(parentClass) + " {") + RuleTail(css, m)
  {
    ScopeRuleWithAt(css, m, parentClass, false);
  }

  /** The rebuilt rule is never shorter than what it replaces, nor longer than the replaced text plus two. */
  lemma RuleTailLength(css: string, m: nat)
    requires At(css, RulePattern, m)
    ensures |css| - m - 11 <= |RuleTail(css, m)| <= |css| - m - 9
  {
  }

  /** The layout of a rewritten rule, used for the termination measure of the section scan. */
  lemma ScopeRuleShape(css: string, m: nat, parentClass: string)
    requires At(css, RulePattern, m)
    ensures var r := ScopeRule(css, m, parentClass);
      var sel := NewSelector(parentClass) + " {";
      && m + |sel| <= |r| && r[..m] == css[..m] && r[m..m + |sel|] == sel
      && |css| + |parentClass| + 2 <= |r| <= |css| + |sel| - 9
  {
    ScopeRuleAt(css, m, parentClass);
    RuleTailLength(css, m);
    var sel := NewSelector(parentClass) + " {";
    var tail := RuleTail(css, m);
    var r := css[..m] + sel + tail;
    assert r[..m] == css[..m];
    assert r[m..m + |sel|] == sel;
  }

  /** Where the scan stops when the rule's braces balance: just after a `}`, inside the text. */
  lemma RuleEndOfClosedRule(css: string, m: nat)
    requires At(css, RulePattern, m)
    ensures RuleCloses(css, m + 10) <==> RuleEnd(css, m) < |css| || 1 + Balance(css[m + 11..|css|]) == 0
    ensures RuleCloses(css, m + 10) ==> RuleEnd(css, m) > m + 11 && css[RuleEnd(css, m) - 1] == '}'
    ensures !RuleCloses(css, m + 10) ==> RuleEnd(css, m) == |css|
  {
    ScanCloseStopsAfterClosingBrace(css, m + 11, 1);
    ScanCloseDepth(css, m + 11, 1);
  }

  lemma ConcatAssoc(a: string, b: string, c: string)
    ensures a + b + c == a + (b + c)
  {
  }

  /** The new selector followed by ` {` is `.<parentClass> ` followed by the rule opener. */
  lemma SelectorThenPattern(parentClass: string)
    ensures NewSelector(parentClass) + " {" == ("." + parentClass + " ") + RulePattern
  {
  }

  /** The text from an occurrence of the rule opener: the opener, then the rest. */
  lemma PatternThenRest(css: string, m: nat, end: nat)
    requires At(css, RulePattern, m) && m + 11 <= end <= |css|
    ensures css[m..end] == RulePattern + css[m + 11..end]
  {
    assert css[m..m + 11] == RulePattern;
  }

  /** The rest of a rule whose braces balance is the text after its opener, unchanged. */
  lemma ClosedRuleRest(css: string, m: nat)
    requires At(css, RulePattern, m) && RuleCloses(css, m + 10)
    ensures RuleTail(css, m) == css[m + 11..]
  {
    RuleEndOfClosedRule(css, m);
    var e := RuleEnd(css, m);
    assert css[m + 11..] == css[m + 11..e - 1] + [css[e - 1]] + css[e..];
  }

  /** The new selector and the rest of a rule whose braces balance: the old text behind `.<parentClass> `. */
  lemma ClosedRuleTail(css: string, m: nat, parentClass: string)
    requires At(css, RulePattern, m) && RuleCloses(css, m + 10)
    ensures (NewSelector(parentClass) + " {") + RuleTail(css, m) == ("." + parentClass + " ") + css[m..]
  {
    SelectorThenPattern(parentClass);
    ClosedRuleRest(css, m);
    PatternThenRest(css, m, |css|);
    assert css[m..|css|] == css[m..] && css[m + 11..|css|] == css[m + 11..];
    ConcatAssoc("." + parentClass + " ", RulePattern, css[m + 11..]);
  }

  /**
   * A rule whose braces balance is scoped by inserting `.<parentClass> ` in front of
   * it: nothing else in the text changes.
   */
  lemma ScopeRuleInserts(css: string, m: nat, parentClass: string)
    requires At(css, RulePattern, m) && RuleCloses(css, m + 10)
    ensures ScopeRule(css, m, parentClass) == css[..m] + ("." + parentClass + " ") + css[m..]
  {
    ScopeRuleAt(css, m, parentClass);
    ClosedRuleTail(css, m, parentClass);
    ConcatAssoc(css[..m], NewSelector(parentClass) + " {", RuleTail(css, m));
    ConcatAssoc(css[..m], "." + parentClass + " ", css[m..]);
  }

  /** The new selector and the rest of a rule left open at the end of the text. */
  lemma UnclosedRuleTail(css: string, m: nat, parentClass: string)
    requires At(css, RulePattern, m) && !RuleCloses(css, m + 10) && |css| > m + 11
    ensures (NewSelector(parentClass) + " {") + RuleTail(css, m) == ("." + parentClass + " ") + (css[m..|css| - 1] + "}")
  {
    RuleEndOfClosedRule(css, m);
    assert RuleTail(css, m) == css[m + 11..|css| - 1] + "}";
    SelectorThenPattern(parentClass);
    PatternThenRest(css, m, |css| - 1);
    ConcatAssoc("." + parentClass + " ", RulePattern, css[m + 11..|css| - 1] + "}");
    ConcatAssoc(RulePattern, css[m + 11..|css| - 1], "}");
  }

  /** The new selector and the rest of a rule whose `{` is the last character of the text. */
  lemma OpenBraceAtEndTail(css: string, m: nat, parentClass: string)
    requires At(css, RulePattern, m) && |css| == m + 11
    ensures (NewSelector(parentClass) + " {") + RuleTail(css, m) == ("." + parentClass + " ") + (css[m..] + "{}")
  {
    assert RuleEnd(css, m) == |css|;
    assert RuleTail(css, m) == "{}";
    assert css[m..] == RulePattern;
  }

  /**
   * A rule left open at the end of the text is still closed in the output: its last
   * character is replaced by `}`, or `{}` is appended when the text ends at the
   * rule's own `{` (the `substring` arguments are swapped there).
   */
  lemma ScopeRuleUnclosed(css: string, m: nat, parentClass: string)
    requires At(css, RulePattern, m) && !RuleCloses(css, m + 10)
    ensures |css| > m + 11 ==>
      ScopeRule(css, m, parentClass) == css[..m] + ("." + parentClass + " ") + (css[m..|css| - 1] + "}")
    ensures |css| == m + 11 ==>
      ScopeRule(css, m, parentClass) == css[..m] + ("." + parentClass + " ") + (css[m..] + "{}")
  {
    ScopeRuleAt(css, m, parentClass);
    if |css| > m + 11 {
      UnclosedRuleTail(css, m, parentClass);
    } else {
      OpenBraceAtEndTail(css, m, parentClass);
    }
    ConcatAssoc(css[..m], NewSelector(parentClass) + " {", RuleTail(css, m));
    ConcatAssoc(css[..m], "." + parentClass + " ", css[m..|css| - 1] + "}");
    ConcatAssoc(css[..m], "." + parentClass + " ", css[m..] + "{}");
  }

  /** A text holding `.<parentClass> .milkdown {` at `m` holds a guarded match right after the class. */
  lemma GuardedBehindSelector(r: string, m: nat, parentClass: string)
    requires m + |NewSelector(parentClass) + " {"| <= |r| && r[m..m + |NewSelector(parentClass) + " {"|] == NewSelector(parentClass) + " {"
    ensures At(r, RulePattern, m + |parentClass| + 2) && Guarded(r, m + |parentClass| + 2, parentClass)
  {
    var prefix := "." + parentClass + " ";
    var k := m + |prefix|;
    SelectorThenPattern(parentClass);
    SliceHalves(r, m, prefix, RulePattern);
    assert Substring(r, Max(0, k - |parentClass| - 2), k) == prefix;
    assert prefix[1..1 + |parentClass|] == parentClass;
    assert At(prefix, parentClass, 1);
  }

  /** A slice spelling `a + b` spells `a`, then `b`. */
  lemma SliceHalves(r: string, m: nat, a: string, b: string)
    requires m + |a + b| <= |r| && r[m..m + |a + b|] == a + b
    ensures r[m..m + |a|] == a && r[m + |a|..m + |a| + |b|] == b
  {
    assert r[m..m + |a|] == r[m..m + |a + b|][..|a|];
    assert r[m + |a|..m + |a| + |b|] == r[m..m + |a + b|][|a|..];
  }

  /**
   * After a rule is scoped, the `.milkdown {` it now holds sits right after
   * `.<parentClass> `, where the guard of lines 69-76 recognises it.
   */
  lemma GuardedAfterScope(css: string, m: nat, parentClass: string)
    requires At(css, RulePattern, m)
    ensures var r := ScopeRule(css, m, parentClass);
      At(r, RulePattern, m + |parentClass| + 2) && Guarded(r, m + |parentClass| + 2, parentClass)
  {
    ScopeRuleShape(css, m, parentClass);
    GuardedBehindSelector(ScopeRule(css, m, parentClass), m, parentClass);
  }

  /** What line 105 keeps before the rule, by the character that precedes it. */
  lemma KeptBeforeAsWritten(css: string, m: nat)
    requires 0 < m <= |css|
    ensures IsWhitespace(css[m - 1]) ==> KeptBefore(css, m, true) == css[..m]
    ensures !IsWhitespace(css[m - 1]) ==> KeptBefore(css, m, true) == []
  {
    var t := css[..m];
    EndsInWhitespace(t);
    assert t[|t| - 1] == css[m - 1];
  }

  lemma EndsInWhitespace(t: string)
    requires t != []
    ensures |TrailingWhitespace(t)| == 0 <==> !IsWhitespace(t[|t| - 1])
  {
    TrailingWhitespaceIsMaximal(t);
  }

  /**
   * `scopeMilkdownRule` as written agrees with the corrected rule when the match is
   * at the start of the text or right after whitespace.
   */
  lemma ScopeRuleAsWrittenAgrees(css: string, m: nat, parentClass: string)
    requires At(css, RulePattern, m) && (m == 0 || IsWhitespace(css[m - 1]))
    ensures ScopeRuleAsWritten(css, m, parentClass) == ScopeRule(css, m, parentClass)
  {
    ScopeRuleWithAt(css, m, parentClass, true);
    ScopeRuleWithAt(css, m, parentClass, false);
    if m > 0 {
      KeptBeforeAsWritten(css, m);
    }
  }

  lemma AsWrittenWithoutPrefix(css: string, m: nat, parentClass: string)
    requires At(css, RulePattern, m) && m > 0 && !IsWhitespace(css[m - 1])
    ensures ScopeRuleAsWritten(css, m, parentClass) == (NewSelector(parentClass) + " {") + RuleTail(css, m)
  {
    ScopeRuleWithAt(css, m, parentClass, true);
    KeptBeforeAsWritten(css, m);
    assert [] + (NewSelector(parentClass) + " {") == NewSelector(parentClass) + " {";
  }

  /**
   * When anything but whitespace precedes the match, `scopeMilkdownRule` as written
   * returns the corrected result without the `m` characters that stood before the match.
   */
  lemma ScopeRuleAsWrittenDrops(css: string, m: nat, parentClass: string)
    requires At(css, RulePattern, m) && m > 0 && !IsWhitespace(css[m - 1])
    ensures ScopeRule(css, m, parentClass) == css[..m] + ScopeRuleAsWritten(css, m, parentClass)
  {
    AsWrittenWithoutPrefix(css, m, parentClass);
    ScopeRuleAt(css, m, parentClass);
    ConcatAssoc(css[..m], NewSelector(parentClass) + " {", RuleTail(css, m));
  }

  /**
   * When the rule's braces balance and anything but whitespace precedes it,
   * `scopeMilkdownRule` as written loses the whole text before the rule, where the
   * corrected rule only inserts `.<parentClass> ` in front of it.
   */
  lemma ScopeRuleAsWrittenLosesPrefix(css: string, m: nat, parentClass: string)
    requires At(css, RulePattern, m) && m > 0 && !IsWhitespace(css[m - 1]) && RuleCloses(css, m + 10)
    ensures ScopeRuleAsWritten(css, m, parentClass) == ("." + parentClass + " ") + css[m..]
    ensures ScopeRule(css, m, parentClass) == css[..m] + ("." + parentClass + " ") + css[m..]
  {
    AsWrittenWithoutPrefix(css, m, parentClass);
    ClosedRuleTail(css, m, parentClass);
    ScopeRuleInserts(css, m, parentClass);
  }

  /** A selector list `p,.milkdown {}`: the second selector is scoped, and `p,` comes before it. */
  const SelectorListExample: string := "p,.milkdown {}"

  /**
   * The selector list meets `ScopeRuleAsWrittenLosesPrefix`: a closed rule at index 2
   * preceded by `,`, so line 105 returns `.<parentClass> .milkdown {}` without the `p,`.
   */
  lemma SelectorListLosesPrefix()
    ensures At(SelectorListExample, RulePattern, 2) && !IsWhitespace(SelectorListExample[1])
    ensures RuleCloses(SelectorListExample, 12)
  {
    var css := SelectorListExample;
    assert css[2..13] == RulePattern;
    assert ScanClose(css, 13, 1) == 14;
    assert css[13..14] == "}";
  }

  // ---------------------------------------------------------------------------
  // transformThemeSection

  /** The scan state after one pass of the loop of lines 62-79: stopped, or text and resume index. */
  datatype Scan = Done | Continue(css: string, currentIndex: nat)

  /**
   * The skip guard of lines 69-76: the `parentClass.length + 2` characters before
   * the match already contain the parent class.
   */
  predicate Guarded(css: string, m: int, parentClass: string) {
    Includes(Substring(css, Max(0, m - |parentClass| - 2), m), parentClass)
  }

  /** The text after the loop body has looked at the match at `m`, with the rule scoped by `ScopeRule`. */
  function Rewrite(css: string, m: int, parentClass: string): string {
    if Guarded(css, m, parentClass) then css else ScopeRule(css, m, parentClass)
  }

  /** The same, with the rule scoped as line 105 writes it. */
  function RewriteAsWritten(css: string, m: int, parentClass: string): string {
    if Guarded(css, m, parentClass) then css else ScopeRuleAsWritten(css, m, parentClass)
  }

  /** The two rewrites agree on a skipped match and on a match at the start or after whitespace. */
  lemma RewriteAsWrittenAgrees(css: string, m: nat, parentClass: string)
    requires At(css, RulePattern, m)
    ensures m == 0 || IsWhitespace(css[m - 1]) || Guarded(css, m, parentClass) ==>
      RewriteAsWritten(css, m, parentClass) == Rewrite(css, m, parentClass)
  {
    if !Guarded(css, m, parentClass) && (m == 0 || IsWhitespace(css[m - 1])) {
      ScopeRuleAsWrittenAgrees(css, m, parentClass);
    }
  }

  /**
   * The match the loop body works on (lines 63-67): the first `.milkdown {` at or
   * after the scan position, provided it comes before the next comment marker
   * searched from one past the scan position; -1 when there is no such match, and
   * then the section holds no `.milkdown {` between the scan position and that marker.
   */
  function NextMatch(css: string, currentIndex: int): (m: int)
    ensures m == -1 || (Clamp(currentIndex, |css|) <= m && At(css, RulePattern, m))
    ensures m != -1 ==> forall j :: Clamp(currentIndex, |css|) <= j < m ==> !At(css, RulePattern, j)
    ensures var c := IndexOf(css, CommentMarker, currentIndex + 1);
      m != -1 ==> c == -1 || m < c
    ensures var c := IndexOf(css, CommentMarker, currentIndex + 1);
      m == -1 ==> forall j :: Clamp(currentIndex, |css|) <= j && (c == -1 || j < c) ==> !At(css, RulePattern, j)
  {
    var nextComment := IndexOf(css, CommentMarker, currentIndex + 1);
    var nextMilkdown := IndexOf(css, RulePattern, currentIndex);
    if nextMilkdown == -1 || (nextComment != -1 && nextMilkdown > nextComment) then -1
    else
      MarkerIsNoRule(css, nextMilkdown);
      nextMilkdown
  }

  /** The comment marker and the rule opener never start at the same index. */
  lemma MarkerIsNoRule(css: string, i: int)
    ensures At(css, RulePattern, i) ==> !At(css, CommentMarker, i)
  {
    if At(css, RulePattern, i) {
      assert css[i] == css[i..i + |RulePattern|][0] == '.';
    }
  }

  /**
   * One pass of the loop as the source writes it: the rule is scoped as line 105
   * writes it, and the scan resumes after the first `}` at or after the match, or at
   * index 0 when there is none (line 78).
   */
  function SectionStepAsWritten(css: string, currentIndex: int, parentClass: string): Scan {
    var m := NextMatch(css, currentIndex);
    if m == -1 then Done
    else
      var css' := RewriteAsWritten(css, m, parentClass);
      Continue(css', IndexOf(css', "}", m) + 1)
  }

  /**
   * One pass of the loop, corrected at lines 78 and 105: the text before the rule is
   * kept, and when no `}` follows the match the scan ends instead of starting over
   * from index 0.
   */
  function SectionStep(css: string, currentIndex: int, parentClass: string): Scan {
    var m := NextMatch(css, currentIndex);
    if m == -1 then Done
    else
      var css' := Rewrite(css, m, parentClass);
      var closeBrace := IndexOf(css', "}", m);
      if closeBrace == -1 then Continue(css', |css'|) else Continue(css', closeBrace + 1)
  }

  /**
   * The corrected pass is the pass as written whenever the match is at the start
   * of the text, after whitespace or skipped, and a `}` follows it.
   */
  lemma SectionStepAgrees(css: string, currentIndex: int, parentClass: string)
    ensures var m := NextMatch(css, currentIndex);
      var next := SectionStep(css, currentIndex, parentClass);
      m != -1 && (m == 0 || IsWhitespace(css[m - 1]) || Guarded(css, m, parentClass))
      && next.Continue? && IndexOf(next.css, "}", m) != -1 ==>
        next == SectionStepAsWritten(css, currentIndex, parentClass)
  {
    var m := NextMatch(css, currentIndex);
    if m != -1 {
      if m == 0 || IsWhitespace(css[m - 1]) || Guarded(css, m, parentClass) {
        RewriteAsWrittenAgrees(css, m, parentClass);
        assert RewriteAsWritten(css, m, parentClass) == Rewrite(css, m, parentClass);
      }
    }
  }

  /**
   * Each pass of the corrected loop makes the text left to scan shorter, so the
   * scan ends on every input.
   */
  lemma SectionStepShrinks(css: string, currentIndex: nat, parentClass: string)
    requires currentIndex < |css| && BraceFree(parentClass)
    ensures var next := SectionStep(css, currentIndex, parentClass);
      next.Continue? ==>
        next.currentIndex <= |next.css| && |next.css| - next.currentIndex < |css| - currentIndex
  {
    var m := NextMatch(css, currentIndex);
    if m != -1 {
      var r := Rewrite(css, m, parentClass);
      var close := IndexOf(r, "}", m);
      if close != -1 && !Guarded(css, m, parentClass) {
        ScopeRuleShape(css, m, parentClass);
        NoClosingBraceInSelector(css, m, parentClass);
        assert close < |r| && m <= close;
      }
    }
  }

  /** From the match to the end of the new selector, the rewritten text has no `}`. */
  lemma NoClosingBraceInSelector(css: string, m: nat, parentClass: string)
    requires At(css, RulePattern, m) && BraceFree(parentClass)
    ensures var r := ScopeRule(css, m, parentClass);
      forall j :: m <= j < m + |NewSelector(parentClass) + " {"| ==> !At(r, "}", j)
  {
    ScopeRuleShape(css, m, parentClass);
    SelectorHasNoClosingBrace(parentClass);
    NoClosingBraceInWindow(ScopeRule(css, m, parentClass), m, NewSelector(parentClass) + " {");
  }

  lemma NoClosingBraceInWindow(r: string, sigma: nat, sel: string)
    requires sigma + |sel| <= |r| && r[sigma..sigma + |sel|] == sel
    requires forall i :: 0 <= i < |sel| ==> sel[i] != '}'
    ensures forall j :: sigma <= j < sigma + |sel| ==> !At(r, "}", j)
  {
    forall j | sigma <= j < sigma + |sel|
      ensures !At(r, "}", j)
    {
      assert r[j] == sel[j - sigma];
      assert r[j..j + 1] == [r[j]];
    }
  }

  lemma SelectorHasNoClosingBrace(parentClass: string)
    requires BraceFree(parentClass)
    ensures forall i :: 0 <= i < |NewSelector(parentClass) + " {"| ==> (NewSelector(parentClass) + " {")[i] != '}'
  {
    var sel := NewSelector(parentClass) + " {";
    assert sel == "." + parentClass + " .milkdown {";
    forall i | 0 <= i < |sel|
      ensures sel[i] != '}'
    {
      if 1 <= i < 1 + |parentClass| {
        assert sel[i] == parentClass[i - 1];
      }
    }
  }

  /**
   * `transformThemeSection(css, sectionStart, parentClass)`, with the corrected
   * resume rule: the loop of lines 62-79 run until it stops.
   */
  function ThemeSection(css: string, currentIndex: nat, parentClass: string): string
    requires BraceFree(parentClass)
    decreases |css| - currentIndex
  {
    if currentIndex >= |css| then css
    else
      match SectionStep(css, currentIndex, parentClass)
      case Done => css
      case Continue(css', k) =>
        SectionStepShrinks(css, currentIndex, parentClass);
        ThemeSection(css', k, parentClass)
  }

  /**
   * Where the step as written and the corrected step part: a guarded match with no
   * `}` after it sends the source's loop back to index 0, while the corrected loop stops.
   */
  lemma AsWrittenStepRestarts(css: string, currentIndex: int, parentClass: string)
    requires NextMatch(css, currentIndex) != -1
    requires Guarded(css, NextMatch(css, currentIndex), parentClass)
    requires IndexOf(css, "}", NextMatch(css, currentIndex)) == -1
    ensures SectionStepAsWritten(css, currentIndex, parentClass) == Continue(css, 0)
    ensures SectionStep(css, currentIndex, parentClass) == Continue(css, |css|)
  {
  }

  /** The text `.<parentClass> .milkdown {` holds no `.milkdown {` before the one at its end. */
  lemma NoRuleInsideSelector(r: string, m: nat, parentClass: string)
    requires BraceFree(parentClass)
    requires m + |NewSelector(parentClass) + " {"| <= |r| && r[m..m + |NewSelector(parentClass) + " {"|] == NewSelector(parentClass) + " {"
    ensures forall j :: m <= j < m + |parentClass| + 2 ==> !At(r, RulePattern, j)
  {
    var sel := NewSelector(parentClass) + " {";
    assert sel == "." + parentClass + " .milkdown {";
    forall j | m <= j < m + |parentClass| + 2
      ensures !At(r, RulePattern, j)
    {
      var i := j + 10 - m;
      assert r[j + 10] == sel[i];
      if i < 1 + |parentClass| {
        assert sel[i] == parentClass[i - 1];
      } else {
        var tail := " .milkdown {";
        assert forall k :: 0 <= k < 11 ==> tail[k] != '{';
        assert sel[i] == tail[i - 1 - |parentClass|];
      }
      assert sel[i] != '{';
      assert RulePattern[10] == '{';
    }
  }

  /** A character of a CSS class name as the mappings write them. */
  predicate IsClassChar(c: char) {
    'a' <= c <= 'z' || 'A' <= c <= 'Z' || '0' <= c <= '9' || c == '-' || c == '_'
  }

  /** A class name: non-empty, class-name characters only. */
  predicate ClassName(parentClass: string) {
    |parentClass| > 0 && forall i :: 0 <= i < |parentClass| ==> IsClassChar(parentClass[i])
  }

  /** Every parent class of `THEME_MAPPINGS` is a class name, so it opens and closes no block. */
  lemma MappingClassesAreClassNames()
    ensures forall k :: 0 <= k < |THEME_MAPPINGS| ==>
      ClassName(THEME_MAPPINGS[k].parentClass) && BraceFree(THEME_MAPPINGS[k].parentClass)
  {
    forall k | 0 <= k < |THEME_MAPPINGS|
      ensures ClassName(THEME_MAPPINGS[k].parentClass) && BraceFree(THEME_MAPPINGS[k].parentClass)
    {
      var c := THEME_MAPPINGS[k].parentClass;
      assert c == "milkdown-theme-" + ["frame", "frame-dark", "nord", "nord-dark"][k];
      assert forall i :: 0 <= i < |c| ==> IsClassChar(c[i]);
    }
  }

  /** Nothing in `.<parentClass> .milkdown {` can start the comment marker `CommentMarker`. */
  lemma SelectorHasNoSlash(parentClass: string)
    requires ClassName(parentClass)
    ensures forall i :: 0 <= i < |NewSelector(parentClass) + " {"| ==> (NewSelector(parentClass) + " {")[i] != '/'
  {
    var sel := NewSelector(parentClass) + " {";
    assert sel == "." + parentClass + " .milkdown {";
    forall i | 0 <= i < |sel|
      ensures sel[i] != '/'
    {
      if 1 <= i < 1 + |parentClass| {
        assert sel[i] == parentClass[i - 1];
        assert IsClassChar(parentClass[i - 1]);
      } else if i >= 1 + |parentClass| {
        var tail := " .milkdown {";
        assert forall k :: 0 <= k < |tail| ==> tail[k] != '/';
        assert sel[i] == tail[i - 1 - |parentClass|];
      }
    }
  }

  /** In the text `.<parentClass> .milkdown {` the first match is the one after the class, and it is guarded. */
  lemma SelectorTextMatch(parentClass: string)
    requires BraceFree(parentClass)
    ensures var r := NewSelector(parentClass) + " {";
      IndexOf(r, RulePattern, 0) == |parentClass| + 2 && Guarded(r, |parentClass| + 2, parentClass)
  {
    var r := NewSelector(parentClass) + " {";
    assert r[0..|r|] == r;
    GuardedBehindSelector(r, 0, parentClass);
    NoRuleInsideSelector(r, 0, parentClass);
  }

  /** The text `.<parentClass> .milkdown {` holds no comment marker. */
  lemma SelectorTextNoComment(parentClass: string)
    requires ClassName(parentClass)
    ensures IndexOf(NewSelector(parentClass) + " {", CommentMarker, 1) == -1
  {
    var r := NewSelector(parentClass) + " {";
    SelectorHasNoSlash(parentClass);
    forall j | 0 <= j
      ensures !At(r, CommentMarker, j)
    {
      if j + 15 <= |r| {
        assert r[j..j + 15][0] == r[j] != '/';
      }
    }
  }

  /** The text `.<parentClass> .milkdown {` holds no `}`. */
  lemma SelectorTextNoClosingBrace(parentClass: string)
    requires BraceFree(parentClass)
    ensures IndexOf(NewSelector(parentClass) + " {", "}", |parentClass| + 2) == -1
  {
    var r := NewSelector(parentClass) + " {";
    SelectorHasNoClosingBrace(parentClass);
    assert r[0..|r|] == r;
    NoClosingBraceInWindow(r, 0, r);
  }

  /** One pass over `.<parentClass> .milkdown {`: a guarded match with no `}` after it. */
  lemma SelectorTextStep(parentClass: string)
    requires ClassName(parentClass) && BraceFree(parentClass)
    ensures var r := NewSelector(parentClass) + " {";
      && NextMatch(r, 0) == |parentClass| + 2 && Guarded(r, |parentClass| + 2, parentClass)
      && IndexOf(r, "}", |parentClass| + 2) == -1
  {
    SelectorTextMatch(parentClass);
    SelectorTextNoComment(parentClass);
    SelectorTextNoClosingBrace(parentClass);
  }

  /**
   * An input on which the source's loop never ends: in `.<parentClass> .milkdown {`
   * (for the first theme, `.milkdown-theme-frame .milkdown {`) the match is guarded
   * and no `}` follows, so line 78 sets the index back to 0 and the next pass starts
   * from the same state.
   */
  lemma AsWrittenLoopRepeats(parentClass: string)
    requires ClassName(parentClass) && BraceFree(parentClass)
    ensures var r := NewSelector(parentClass) + " {";
      SectionStepAsWritten(r, 0, parentClass) == Continue(r, 0)
  {
    var r := NewSelector(parentClass) + " {";
    SelectorTextStep(parentClass);
    AsWrittenStepRestarts(r, 0, parentClass);
  }

  /** On the same input the corrected loop stops after one pass and leaves the text as it is. */
  lemma CorrectedLoopStops(parentClass: string)
    requires ClassName(parentClass) && BraceFree(parentClass)
    ensures var r := NewSelector(parentClass) + " {";
      ThemeSection(r, 0, parentClass) == r
  {
    var r := NewSelector(parentClass) + " {";
    SelectorTextStep(parentClass);
    AsWrittenStepRestarts(r, 0, parentClass);
    ThemeSectionUnfold(r, 0, parentClass);
    ThemeSectionUnfold(r, |r|, parentClass);
  }

  /**
   * A section whose every remaining match is already guarded comes out unchanged:
   * scoping does not touch rules already under the parent class.
   */
  lemma {:induction false} ThemeSectionAllGuarded(css: string, currentIndex: nat, parentClass: string)
    requires BraceFree(parentClass)
    requires forall j :: currentIndex <= j && At(css, RulePattern, j) ==> Guarded(css, j, parentClass)
    ensures ThemeSection(css, currentIndex, parentClass) == css
    decreases |css| - currentIndex
  {
    ThemeSectionUnfold(css, currentIndex, parentClass);
    if currentIndex < |css| {
      var next := SectionStep(css, currentIndex, parentClass);
      if next.Continue? {
        SectionStepShrinks(css, currentIndex, parentClass);
        var m := NextMatch(css, currentIndex);
        assert next.css == css;
        assert next.currentIndex >= currentIndex;
        ThemeSectionAllGuarded(css, next.currentIndex, parentClass);
      }
    }
  }

  /** The rewrite at a match keeps the text before the match and never shortens the text. */
  lemma RewriteKeepsPrefix(css: string, m: nat, parentClass: string)
    requires At(css, RulePattern, m)
    ensures |css| <= |Rewrite(css, m, parentClass)| && Rewrite(css, m, parentClass)[..m] == css[..m]
  {
    if !Guarded(css, m, parentClass) {
      ScopeRuleShape(css, m, parentClass);
    }
  }

  lemma PrefixOfPrefix(a: string, b: string, i: nat, m: nat)
    requires i <= m <= |a| && m <= |b| && a[..m] == b[..m]
    ensures a[..i] == b[..i]
  {
    assert a[..i] == a[..m][..i];
    assert b[..i] == b[..m][..i];
  }

  /** One step keeps the text before the scan position and never shortens the text. */
  lemma SectionStepKeepsPrefix(css: string, currentIndex: nat, parentClass: string)
    requires currentIndex < |css| && BraceFree(parentClass)
    ensures var next := SectionStep(css, currentIndex, parentClass);
      next.Continue? ==>
        && |css| <= |next.css| && next.css[..currentIndex] == css[..currentIndex]
        && currentIndex <= next.currentIndex
  {
    var m := NextMatch(css, currentIndex);
    if m != -1 {
      var r := Rewrite(css, m, parentClass);
      RewriteKeepsPrefix(css, m, parentClass);
      PrefixOfPrefix(r, css, currentIndex, m);
      var next := SectionStep(css, currentIndex, parentClass);
      assert next.css == r && m <= next.currentIndex;
    }
  }

  /**
   * The section transform never touches the text before its start and never
   * shortens the text; this is what lets the sections be processed from the last
   * to the first without moving the starts still to be processed.
   */
  lemma {:induction false} ThemeSectionKeepsPrefix(css: string, currentIndex: nat, parentClass: string)
    requires BraceFree(parentClass) && currentIndex <= |css|
    ensures var r := ThemeSection(css, currentIndex, parentClass);
      |css| <= |r| && r[..currentIndex] == css[..currentIndex]
    decreases |css| - currentIndex
  {
    ThemeSectionUnfold(css, currentIndex, parentClass);
    if currentIndex < |css| {
      var next := SectionStep(css, currentIndex, parentClass);
      if next.Continue? {
        SectionStepShrinks(css, currentIndex, parentClass);
        SectionStepKeepsPrefix(css, currentIndex, parentClass);
        ThemeSectionKeepsPrefix(next.css, next.currentIndex, parentClass);
        PrefixOfPrefix(ThemeSection(next.css, next.currentIndex, parentClass), next.css, currentIndex, next.currentIndex);
      }
    }
  }

  /** One unfolding of `ThemeSection`. */
  lemma ThemeSectionUnfold(css: string, currentIndex: nat, parentClass: string)
    requires BraceFree(parentClass)
    ensures currentIndex >= |css| ==> ThemeSection(css, currentIndex, parentClass) == css
    ensures currentIndex < |css| && SectionStep(css, currentIndex, parentClass) == Done ==>
      ThemeSection(css, currentIndex, parentClass) == css
    ensures currentIndex < |css| && SectionStep(css, currentIndex, parentClass).Continue? ==>
      var next := SectionStep(css, currentIndex, parentClass);
      ThemeSection(css, currentIndex, parentClass) == ThemeSection(next.css, next.currentIndex, parentClass)
  {
  }

  // ---------------------------------------------------------------------------
  // What a section transform does to its section

  /**
   * Where each pass leaves the match it worked on: moved right by the inserted
   * `.<parentClass> ` when the pass scoped it, in place when the guard skipped it.
   */
  function ScopedMatches(css: string, currentIndex: nat, parentClass: string): seq<int>
    requires BraceFree(parentClass)
    decreases |css| - currentIndex
  {
    if currentIndex >= |css| then []
    else
      match SectionStep(css, currentIndex, parentClass)
      case Done => []
      case Continue(css', k) =>
        SectionStepShrinks(css, currentIndex, parentClass);
        [ScopedAt(css, NextMatch(css, currentIndex), parentClass)] + ScopedMatches(css', k, parentClass)
  }

  /** Where the pass leaves the match at `m`: in place when skipped, after `.<parentClass> ` when scoped. */
  function ScopedAt(css: string, m: int, parentClass: string): int {
    if Guarded(css, m, parentClass) then m else m + |parentClass| + 2
  }

  /** `pat` at `i` survives in a text that agrees on a prefix covering it. */
  lemma AtInPrefix(a: string, b: string, pat: string, i: nat, n: nat)
    requires n <= |a| && n <= |b| && a[..n] == b[..n] && i + |pat| <= n && At(a, pat, i)
    ensures At(b, pat, i)
  {
    assert a[i..i + |pat|] == a[..n][i..i + |pat|] == b[..n][i..i + |pat|] == b[i..i + |pat|];
  }

  /** The guard at `p` looks only at the text before `p`. */
  lemma GuardedInPrefix(a: string, b: string, p: nat, parentClass: string, n: nat)
    requires p <= n <= |a| && n <= |b| && a[..n] == b[..n] && Guarded(a, p, parentClass)
    ensures Guarded(b, p, parentClass)
  {
    var lo := Max(0, p - |parentClass| - 2);
    assert 0 <= lo <= p;
    assert a[lo..p] == b[lo..p] by {
      assert a[lo..p] == a[..n][lo..p];
      assert b[lo..p] == b[..n][lo..p];
    }
    assert Substring(a, lo, p) == a[lo..p] && Substring(b, lo, p) == b[lo..p];
  }

  /**
   * The loop body leaves the match guarded, in place or behind the inserted
   * `.<parentClass> `, with no `}` between the match and the end of its `.milkdown {`.
   */
  lemma RewriteScopes(css: string, m: nat, parentClass: string)
    requires At(css, RulePattern, m) && BraceFree(parentClass)
    ensures var r := Rewrite(css, m, parentClass);
      var p := ScopedAt(css, m, parentClass);
      && At(r, RulePattern, p) && Guarded(r, p, parentClass)
      && forall j :: m <= j < p + |RulePattern| ==> !At(r, "}", j)
  {
    if Guarded(css, m, parentClass) {
      RuleOpenerHasNoClosingBrace(css, m);
    } else {
      ScopeRuleScopes(css, m, parentClass);
    }
  }

  lemma ScopeRuleScopes(css: string, m: nat, parentClass: string)
    requires At(css, RulePattern, m) && BraceFree(parentClass)
    ensures var r := ScopeRule(css, m, parentClass);
      var p := m + |parentClass| + 2;
      && At(r, RulePattern, p) && Guarded(r, p, parentClass)
      && forall j :: m <= j < p + |RulePattern| ==> !At(r, "}", j)
  {
    GuardedAfterScope(css, m, parentClass);
    NoClosingBraceInSelector(css, m, parentClass);
  }

  lemma RuleOpenerHasNoClosingBrace(css: string, m: nat)
    requires At(css, RulePattern, m)
    ensures forall j :: m <= j < m + |RulePattern| ==> !At(css, "}", j)
  {
    assert forall i :: 0 <= i < |RulePattern| ==> RulePattern[i] != '}';
    NoClosingBraceInWindow(css, m, RulePattern);
  }

  /**
   * Every `.milkdown {` the section transform works on comes out scoped: in the
   * result it stands, behind the parent class, where the pass that visited it left it.
   */
  lemma {:induction false} ThemeSectionScopesVisited(css: string, currentIndex: nat, parentClass: string)
    requires BraceFree(parentClass)
    ensures var r := ThemeSection(css, currentIndex, parentClass);
      forall p :: p in ScopedMatches(css, currentIndex, parentClass) ==>
        currentIndex <= p && At(r, RulePattern, p) && Guarded(r, p, parentClass)
    decreases |css| - currentIndex
  {
    var done, css', k, p0 := ScopeAdvance(css, currentIndex, parentClass);
    if !done {
      ThemeSectionScopesVisited(css', k, parentClass);
      ThemeSectionKeepsPrefix(css', k, parentClass);
      var r := ThemeSection(css', k, parentClass);
      AtInPrefix(css', r, RulePattern, p0, k);
      GuardedInPrefix(css', r, p0, parentClass, k);
      forall p | p in ScopedMatches(css, currentIndex, parentClass)
        ensures currentIndex <= p && At(r, RulePattern, p) && Guarded(r, p, parentClass)
      {
        if p != p0 {
          assert p in ScopedMatches(css', k, parentClass);
        }
      }
    }
  }

  /** One unfolding of the section transform and of the matches it visits. */
  lemma ScopeAdvance(css: string, currentIndex: nat, parentClass: string)
    returns (done: bool, css': string, k: nat, p0: int)
    requires BraceFree(parentClass)
    ensures done ==> ScopedMatches(css, currentIndex, parentClass) == []
    ensures !done ==>
      && ThemeSection(css, currentIndex, parentClass) == ThemeSection(css', k, parentClass)
      && ScopedMatches(css, currentIndex, parentClass) == [p0] + ScopedMatches(css', k, parentClass)
      && |css'| - k < |css| - currentIndex
      && currentIndex <= p0 && p0 + |RulePattern| <= k <= |css'|
      && At(css', RulePattern, p0) && Guarded(css', p0, parentClass)
  {
    if currentIndex >= |css| || NextMatch(css, currentIndex) == -1 {
      ThemeSectionNoMatch(css, currentIndex, parentClass);
      done, css', k, p0 := true, css, currentIndex, 0;
    } else {
      var m := NextMatch(css, currentIndex);
      var r := Rewrite(css, m, parentClass);
      var close := IndexOf(r, "}", m);
      ThemeSectionAt(css, currentIndex, parentClass, m, r, close);
      RewriteScopes(css, m, parentClass);
      k := if close == -1 then |r| else close + 1;
      assert |r| - k < |css| - currentIndex by {
        SectionStepShrinks(css, currentIndex, parentClass);
        SectionStepAt(css, currentIndex, parentClass, m, r, close);
      }
      done, css', p0 := false, r, ScopedAt(css, m, parentClass);
    }
  }

  /** The transform stops where the section has no further match. */
  lemma ThemeSectionNoMatch(css: string, currentIndex: nat, parentClass: string)
    requires BraceFree(parentClass) && (currentIndex >= |css| || NextMatch(css, currentIndex) == -1)
    ensures ThemeSection(css, currentIndex, parentClass) == css
    ensures ScopedMatches(css, currentIndex, parentClass) == []
  {
    ThemeSectionUnfold(css, currentIndex, parentClass);
  }

  /** The transform at a match goes on from the rewritten text, after the next `}` or at its end. */
  lemma ThemeSectionAt(css: string, currentIndex: nat, parentClass: string, m: int, r: string, close: int)
    requires BraceFree(parentClass) && currentIndex < |css|
    requires m == NextMatch(css, currentIndex) && m != -1
    requires r == Rewrite(css, m, parentClass) && close == IndexOf(r, "}", m)
    ensures close == -1 ==> ThemeSection(css, currentIndex, parentClass) == ThemeSection(r, |r|, parentClass)
    ensures close == -1 ==>
      ScopedMatches(css, currentIndex, parentClass) == [ScopedAt(css, m, parentClass)] + ScopedMatches(r, |r|, parentClass)
    ensures close != -1 ==> ThemeSection(css, currentIndex, parentClass) == ThemeSection(r, close + 1, parentClass)
    ensures close != -1 ==>
      ScopedMatches(css, currentIndex, parentClass) == [ScopedAt(css, m, parentClass)] + ScopedMatches(r, close + 1, parentClass)
  {
    var k := if close == -1 then |r| else close + 1;
    assert SectionStep(css, currentIndex, parentClass) == Continue(r, k) by {
      SectionStepAt(css, currentIndex, parentClass, m, r, close);
    }
    assert ThemeSection(css, currentIndex, parentClass) == ThemeSection(r, k, parentClass);
    assert ScopedMatches(css, currentIndex, parentClass) == [ScopedAt(css, m, parentClass)] + ScopedMatches(r, k, parentClass);
  }

  // ---------------------------------------------------------------------------
  // Running a section transform on its own result

  /**
   * The section transform is idempotent: run again from the same start on its own
   * result, it changes nothing. The second run meets each match the first run
   * visited, now behind the parent class, where the guard of lines 69-76 skips it,
   * and it resumes after the same `}`.
   */
  lemma {:induction false} ThemeSectionIdempotent(css: string, currentIndex: nat, parentClass: string)
    requires ClassName(parentClass) && BraceFree(parentClass)
    ensures var r := ThemeSection(css, currentIndex, parentClass);
      ThemeSection(r, currentIndex, parentClass) == r
    decreases |css| - currentIndex
  {
    if currentIndex >= |css| || NextMatch(css, currentIndex) == -1 {
      ThemeSectionNoMatch(css, currentIndex, parentClass);
    } else {
      var m := NextMatch(css, currentIndex);
      var r := Rewrite(css, m, parentClass);
      var close := IndexOf(r, "}", m);
      ThemeSectionAt(css, currentIndex, parentClass, m, r, close);
      var k := if close == -1 then |r| else close + 1;
      assert k <= |r| && |r| - k < |css| - currentIndex by {
        SectionStepShrinks(css, currentIndex, parentClass);
        SectionStepAt(css, currentIndex, parentClass, m, r, close);
      }
      ThemeSectionIdempotent(r, k, parentClass);
      ThemeSectionKeepsPrefix(r, k, parentClass);
      if close == -1 {
        ThemeSectionNoMatch(r, |r|, parentClass);
      }
      var again := ThemeSection(r, k, parentClass);
      var p := ScopedAt(css, m, parentClass);
      RewriteOpener(css, currentIndex, parentClass, m, r, p);
      RerunFindsScoped(r, again, currentIndex, m, p, close, parentClass);
      GuardedPass(again, currentIndex, parentClass, p, close);
    }
  }

  /**
   * A pass over a text whose next match is guarded skips it and resumes after the
   * first `}` that follows it, or stops at the end when there is none.
   */
  lemma GuardedPass(css: string, currentIndex: nat, parentClass: string, p: int, close: int)
    requires BraceFree(parentClass) && currentIndex < |css|
    requires p == NextMatch(css, currentIndex) && p != -1 && Guarded(css, p, parentClass)
    requires close == IndexOf(css, "}", p)
    ensures close == -1 ==> ThemeSection(css, currentIndex, parentClass) == css
    ensures close != -1 ==>
      ThemeSection(css, currentIndex, parentClass) == ThemeSection(css, close + 1, parentClass)
  {
    SectionStepAt(css, currentIndex, parentClass, p, css, close);
    ThemeSectionUnfold(css, currentIndex, parentClass);
    if close == -1 {
      ThemeSectionUnfold(css, |css|, parentClass);
    }
  }

  /**
   * What the rewritten text `r` holds around the match at `m`, which the pass leaves
   * at `p`: a guarded `.milkdown {` at `p` and, between the scan position `from` and
   * `p`, no other `.milkdown {`, nothing that can start the comment marker before
   * the text kept from the input ends, and no `}` from `m` to the end of the opener.
   */
  predicate OpenedAt(r: string, from: nat, m: nat, p: nat, parentClass: string) {
    && from <= m <= p && At(r, RulePattern, p) && Guarded(r, p, parentClass) && r[m] == '.'
    && (forall q :: m <= q <= p ==> r[q] != '/')
    && (forall j :: from <= j < p ==> !At(r, RulePattern, j))
    && (forall j :: from + 1 <= j && j + |CommentMarker| <= m ==> !At(r, CommentMarker, j))
    && (forall j :: m <= j < p + |RulePattern| ==> !At(r, "}", j))
  }

  /**
   * The second run's pass over a text that agrees with the first pass's output up to
   * where the first pass resumed finds the scoped match, guarded, and the same `}`.
   */
  lemma RerunFindsScoped(r: string, again: string, currentIndex: nat, m: nat, p: nat, close: int, parentClass: string)
    requires OpenedAt(r, currentIndex, m, p, parentClass) && close == IndexOf(r, "}", m)
    requires close == -1 ==> again == r
    requires close != -1 ==> close + 1 <= |again| && again[..close + 1] == r[..close + 1]
    ensures NextMatch(again, currentIndex) == p && Guarded(again, p, parentClass)
    ensures IndexOf(again, "}", p) == close
  {
    var n := if close == -1 then |r| else close + 1;
    assert n <= |again| && again[..n] == r[..n] && p + |RulePattern| <= n;
    assert At(again, RulePattern, p) && Guarded(again, p, parentClass) by {
      AtAgrees(r, again, RulePattern, p, n);
      GuardedInPrefix(r, again, p, parentClass, n);
    }
    assert forall j :: currentIndex <= j < p ==> !At(again, RulePattern, j) by {
      NoneInSharedPrefix(r, again, RulePattern, currentIndex, p, n);
    }
    assert forall j :: currentIndex + 1 <= j <= p ==> !At(again, CommentMarker, j) by {
      PatternChars();
      NoneEndingInSharedPrefix(r, again, CommentMarker, currentIndex + 1, m, n);
      assert again[m] == again[..n][m] == r[m];
      NoneAcross(again, CommentMarker, currentIndex + 1, m);
      NoneStartingIn(r, again, CommentMarker, m, p, n);
    }
    assert IndexOf(again, "}", p) == close by {
      RerunFindsClose(r, again, m, p, close, n);
    }
    NextMatchIs(again, currentIndex, p);
  }

  /** The second run finds the `}` the first pass found, from the scoped match on. */
  lemma RerunFindsClose(r: string, again: string, m: nat, p: nat, close: int, n: nat)
    requires m <= p && p + |RulePattern| <= n <= |r| && n <= |again| && again[..n] == r[..n]
    requires close == IndexOf(r, "}", m) && (close == -1 ==> again == r) && (close != -1 ==> n == close + 1)
    requires forall j :: m <= j < p + |RulePattern| ==> !At(r, "}", j)
    ensures IndexOf(again, "}", p) == close
  {
    if close != -1 {
      AtAgrees(r, again, "}", close, n);
      NoneInSharedPrefix(r, again, "}", p, close, n);
    }
  }

  /**
   * The loop body works on `p` when `p` holds the first `.milkdown {` from the scan
   * position and no comment marker starts between one past the position and `p`.
   */
  lemma NextMatchIs(css: string, currentIndex: nat, p: nat)
    requires currentIndex <= p && At(css, RulePattern, p)
    requires forall j :: currentIndex <= j < p ==> !At(css, RulePattern, j)
    requires forall j :: currentIndex + 1 <= j <= p ==> !At(css, CommentMarker, j)
    ensures NextMatch(css, currentIndex) == p
  {
    assert IndexOf(css, RulePattern, currentIndex) == p;
    var c := IndexOf(css, CommentMarker, currentIndex + 1);
    assert c == -1 || c > p;
  }

  /** The pass at the match `m` leaves the text around it as `OpenedAt` describes. */
  lemma RewriteOpener(css: string, currentIndex: nat, parentClass: string, m: int, r: string, p: int)
    requires ClassName(parentClass) && BraceFree(parentClass) && currentIndex < |css|
    requires m == NextMatch(css, currentIndex) && m != -1
    requires r == Rewrite(css, m, parentClass) && p == ScopedAt(css, m, parentClass)
    ensures OpenedAt(r, currentIndex, m, p, parentClass)
  {
    var c0 := IndexOf(css, CommentMarker, currentIndex + 1);
    assert forall j :: currentIndex + 1 <= j && j + |CommentMarker| <= m ==> !At(css, CommentMarker, j);
    assert forall j :: currentIndex <= j < m ==> !At(css, RulePattern, j);
    if Guarded(css, m, parentClass) {
      assert r == css && p == m;
      GuardedOpener(css, currentIndex, m, parentClass);
    } else {
      assert r == ScopeRule(css, m, parentClass) && p == m + |parentClass| + 2;
      ScopeRuleShape(css, m, parentClass);
      assert At(r, NewSelector(parentClass) + " {", m);
      SelectorOpener(css, r, currentIndex, m, p, parentClass);
    }
  }

  /** A guarded match is opened where it stands. */
  lemma GuardedOpener(css: string, from: nat, m: nat, parentClass: string)
    requires At(css, RulePattern, m) && Guarded(css, m, parentClass) && from <= m
    requires forall j :: from <= j < m ==> !At(css, RulePattern, j)
    requires forall j :: from + 1 <= j && j + |CommentMarker| <= m ==> !At(css, CommentMarker, j)
    ensures OpenedAt(css, from, m, m, parentClass)
  {
    RuleOpenerHasNoClosingBrace(css, m);
    AtChars(css, RulePattern, m);
    PatternChars();
  }

  /** A text holding `.<parentClass> .milkdown {` at `m`, after a kept prefix, is opened there. */
  lemma SelectorOpener(css: string, r: string, from: nat, m: nat, p: nat, parentClass: string)
    requires ClassName(parentClass) && BraceFree(parentClass) && from <= m <= |css| && p == m + |parentClass| + 2
    requires At(r, NewSelector(parentClass) + " {", m) && r[..m] == css[..m]
    requires forall j :: from <= j < m ==> !At(css, RulePattern, j)
    requires forall j :: from + 1 <= j && j + |CommentMarker| <= m ==> !At(css, CommentMarker, j)
    ensures OpenedAt(r, from, m, p, parentClass)
  {
    var sel := NewSelector(parentClass) + " {";
    assert At(r, RulePattern, p) && Guarded(r, p, parentClass) by {
      GuardedBehindSelector(r, m, parentClass);
    }
    assert r[m] == '.' && forall q :: m <= q <= p ==> r[q] != '/' by {
      SelectorChars(parentClass);
      AtChars(r, sel, m);
    }
    assert forall j :: m <= j < p + |RulePattern| ==> !At(r, "}", j) by {
      SelectorChars(parentClass);
      SelectorHasNoClosingBrace(parentClass);
      NoClosingBraceInWindow(r, m, sel);
    }
    assert forall j :: m <= j < p ==> !At(r, RulePattern, j) by {
      NoRuleInsideSelector(r, m, parentClass);
    }
    assert forall j :: from <= j < m ==> !At(r, RulePattern, j) by {
      PatternChars();
      NoneEndingInSharedPrefix(css, r, RulePattern, from, m, m);
      NoneAcross(r, RulePattern, from, m);
    }
    NoneEndingInSharedPrefix(css, r, CommentMarker, from + 1, m, m);
  }

  /** Two texts that agree on a prefix have the same occurrences that start in a stretch ending inside it. */
  lemma NoneInSharedPrefix(a: string, b: string, pat: string, lo: int, hi: int, n: nat)
    requires n <= |a| && n <= |b| && a[..n] == b[..n] && hi - 1 + |pat| <= n
    requires forall j :: lo <= j < hi ==> !At(a, pat, j)
    ensures forall j :: lo <= j < hi ==> !At(b, pat, j)
  {
    forall j | lo <= j < hi && 0 <= j
      ensures !At(b, pat, j)
    {
      AtAgrees(a, b, pat, j, n);
    }
  }

  /** The same for the occurrences that end by `hi`, inside the shared prefix. */
  lemma NoneEndingInSharedPrefix(a: string, b: string, pat: string, lo: int, hi: int, n: nat)
    requires n <= |a| && n <= |b| && a[..n] == b[..n] && hi <= n
    requires forall j :: lo <= j && j + |pat| <= hi ==> !At(a, pat, j)
    ensures forall j :: lo <= j && j + |pat| <= hi ==> !At(b, pat, j)
  {
    forall j | lo <= j && j + |pat| <= hi && 0 <= j
      ensures !At(b, pat, j)
    {
      AtAgrees(a, b, pat, j, n);
    }
  }

  /**
   * A pattern that holds the character at `m` only at its start cannot occur across
   * `m`, so the occurrences before `m` are those that end by `m`.
   */
  lemma NoneAcross(s: string, pat: string, lo: int, m: nat)
    requires m < |s| && forall d :: 1 <= d < |pat| ==> pat[d] != s[m]
    requires forall j :: lo <= j && j + |pat| <= m ==> !At(s, pat, j)
    ensures forall j :: lo <= j < m ==> !At(s, pat, j)
  {
    forall j | lo <= j < m && 0 <= j && m < j + |pat| && j + |pat| <= |s|
      ensures !At(s, pat, j)
    {
      MismatchNotAt(s, pat, j, m);
    }
  }

  /** No occurrence starts where the shared prefix has no character that starts the pattern. */
  lemma NoneStartingIn(a: string, b: string, pat: string, lo: nat, hi: int, n: nat)
    requires n <= |a| && n <= |b| && a[..n] == b[..n] && hi < n && |pat| > 0
    requires forall q :: lo <= q <= hi ==> a[q] != pat[0]
    ensures forall j :: lo <= j <= hi ==> !At(b, pat, j)
  {
    forall j | lo <= j <= hi && j + |pat| <= |b|
      ensures !At(b, pat, j)
    {
      assert b[j] == b[..n][j] == a[..n][j] == a[j];
      MismatchNotAt(b, pat, j, j);
    }
  }

  /** The characters of the two search patterns that the scan relies on. */
  lemma PatternChars()
    ensures |RulePattern| == 11 && RulePattern[0] == '.'
    ensures forall d :: 1 <= d < |RulePattern| ==> RulePattern[d] != '.'
    ensures |CommentMarker| == 15 && CommentMarker[0] == '/'
    ensures forall d :: 0 <= d < |CommentMarker| ==> CommentMarker[d] != '.'
  {
  }

  /** `.<parentClass> .milkdown {` starts with `.` and holds no `/`. */
  lemma SelectorChars(parentClass: string)
    requires ClassName(parentClass)
    ensures var sel := NewSelector(parentClass) + " {";
      |sel| == |parentClass| + 13 && sel[0] == '.' && forall q :: 0 <= q < |sel| ==> sel[q] != '/'
  {
    SelectorHasNoSlash(parentClass);
    assert NewSelector(parentClass) + " {" == "." + parentClass + " .milkdown {";
  }

  /** Two texts that agree on a prefix agree on every occurrence inside it. */
  lemma AtAgrees(a: string, b: string, pat: string, i: int, n: nat)
    requires n <= |a| && n <= |b| && a[..n] == b[..n] && 0 <= i && i + |pat| <= n
    ensures At(a, pat, i) <==> At(b, pat, i)
  {
    assert a[i..i + |pat|] == a[..n][i..i + |pat|] == b[..n][i..i + |pat|] == b[i..i + |pat|];
  }

  /** The rule scan looks only at the text after its start. */
  lemma {:induction false} ScanCloseAfterPrefix(p: string, t: string, k: nat, depth: int)
    requires k <= |t|
    ensures ScanClose(p + t, |p| + k, depth) == |p| + ScanClose(t, k, depth)
    decreases |t| - k
  {
    if k < |t| && depth > 0 {
      assert (p + t)[|p| + k] == t[k];
      ScanCloseAfterPrefix(p, t, k + 1, depth + Delta(t[k]));
    }
  }

  /** A rule in the part after a prefix ends, and closes or not, as it does in that part. */
  lemma RuleAfterPrefix(p: string, t: string, i: nat)
    requires At(t, RulePattern, i)
    ensures At(p + t, RulePattern, |p| + i)
    ensures RuleEnd(p + t, |p| + i) == |p| + RuleEnd(t, i)
    ensures RuleCloses(p + t, |p| + i + 10) == RuleCloses(t, i + 10)
  {
    AtAfterPrefix(p, t, RulePattern, i);
    ScanCloseAfterPrefix(p, t, i + 11, 1);
    assert (p + t)[|p| + i + 11..|p| + RuleEnd(t, i)] == t[i + 11..RuleEnd(t, i)];
  }

  /** Every `.milkdown {` from `from` up to the marker at `c` opens a rule that closes before `c`. */
  predicate RulesCloseBefore(css: string, from: nat, c: nat) {
    forall j :: from <= j < c && At(css, RulePattern, j) ==> RuleCloses(css, j + 10) && RuleEnd(css, j) < c
  }

  /** What the loop body inserts at the match: nothing when the guard skips it, else `.<parentClass> `. */
  function Inserted(css: string, m: int, parentClass: string): string {
    if Guarded(css, m, parentClass) then "" else "." + parentClass + " "
  }

  /** At a rule whose braces balance the loop body only inserts, and what it inserts holds no `}`. */
  lemma RewriteInsertsClosed(css: string, m: nat, parentClass: string)
    requires At(css, RulePattern, m) && RuleCloses(css, m + 10) && BraceFree(parentClass)
    ensures Rewrite(css, m, parentClass) == css[..m] + Inserted(css, m, parentClass) + css[m..]
    ensures forall j :: m <= j < m + |Inserted(css, m, parentClass)| ==> !At(Rewrite(css, m, parentClass), "}", j)
  {
    if Guarded(css, m, parentClass) {
      assert Rewrite(css, m, parentClass) == css && Inserted(css, m, parentClass) == "";
      Rejoin(css, m);
    } else {
      assert Rewrite(css, m, parentClass) == ScopeRule(css, m, parentClass);
      assert Inserted(css, m, parentClass) == "." + parentClass + " ";
      ScopeRuleInserts(css, m, parentClass);
      NoClosingBraceInSelector(css, m, parentClass);
    }
  }

  lemma Rejoin(s: string, m: nat)
    requires m <= |s|
    ensures s[..m] + "" + s[m..] == s
  {
    assert s[..m] + s[m..] == s;
  }

  /** Inside a section the match's rule closes, and its first `}` lies at least two characters before the marker. */
  lemma CloseInSection(css: string, currentIndex: nat, c: nat, m: int)
    requires currentIndex < |css| && c == IndexOf(css, CommentMarker, currentIndex + 1) && RulesCloseBefore(css, currentIndex, c)
    requires m == NextMatch(css, currentIndex) && m != -1
    ensures var b := IndexOf(css, "}", m);
      && RuleCloses(css, m + 10) && m <= b && b + 2 <= c
      && IndexOf(css, CommentMarker, b + 2) == c && RulesCloseBefore(css, b + 1, c)
  {
    var e := RuleEnd(css, m);
    RuleEndOfClosedRule(css, m);
    assert At(css, "}", e - 1);
    IndexOfSkip(css, CommentMarker, currentIndex + 1, IndexOf(css, "}", m) + 2);
  }

  /** The first `}` from the insertion point moves by the length of an insertion that holds none. */
  lemma ShiftClose(css: string, r: string, m: nat, ins: string, b: nat)
    requires m <= |css| && r == css[..m] + ins + css[m..]
    requires m <= b && b == IndexOf(css, "}", m)
    requires forall j :: m <= j < m + |ins| ==> !At(r, "}", j)
    ensures IndexOf(r, "}", m) == b + |ins|
  {
    var p, t := css[..m], css[m..];
    assert css == p + t;
    IndexOfSkip(r, "}", m, m + |ins|);
    IndexOfAfterPrefix(p + ins, t, "}", 0);
    IndexOfAfterPrefix(p, t, "}", 0);
  }

  /** A marker after the insertion point moves by the length of the insertion, and so does the text after it. */
  lemma ShiftMarker(css: string, r: string, m: nat, ins: string, j: nat, c: nat, j': nat, c': nat)
    requires m <= j <= |css| && r == css[..m] + ins + css[m..] && j' == j + |ins| && c' == c + |ins|
    requires c == IndexOf(css, CommentMarker, j)
    ensures c' <= |r|
    ensures IndexOf(r, CommentMarker, j') == c'
    ensures r[c'..] == css[c..]
  {
    var p, t := css[..m], css[m..];
    assert css == p + t;
    IndexOfAfterPrefix(p + ins, t, CommentMarker, j - m);
    IndexOfAfterPrefix(p, t, CommentMarker, j - m);
    assert r[c'..] == t[c - m..] == css[c..];
  }

  /** The rules after the insertion point move with it, and still close before the moved marker. */
  lemma ShiftRules(css: string, r: string, m: nat, ins: string, j: nat, c: nat, j': nat, c': nat)
    requires m <= j && m <= |css| && r == css[..m] + ins + css[m..] && j' == j + |ins| && c' == c + |ins|
    requires RulesCloseBefore(css, j, c)
    ensures RulesCloseBefore(r, j', c')
  {
    var p, t := css[..m], css[m..];
    assert css == p + t;
    forall q | j' <= q < c' && At(r, RulePattern, q)
      ensures RuleCloses(r, q + 10) && RuleEnd(r, q) < c'
    {
      var i := q - m - |ins|;
      AtAfterPrefix(p + ins, t, RulePattern, i);
      AtAfterPrefix(p, t, RulePattern, i);
      RuleAfterPrefix(p + ins, t, i);
      RuleAfterPrefix(p, t, i);
    }
  }

  /**
   * The section bound of lines 63-67: when every rule between the scan position and
   * the next comment marker closes before that marker, the transform
   * never touches the text from the marker on.
   */
  lemma {:induction false} ThemeSectionStaysInSection(css: string, currentIndex: nat, parentClass: string, c: nat)
    requires ClassName(parentClass) && BraceFree(parentClass)
    requires c == IndexOf(css, CommentMarker, currentIndex + 1) && RulesCloseBefore(css, currentIndex, c)
    ensures c <= |css| && EndsWith(ThemeSection(css, currentIndex, parentClass), css[c..])
    decreases |css| - currentIndex
  {
    var done, css', k, c' := SectionAdvance(css, currentIndex, parentClass, c);
    if done {
      assert css[|css| - |css[c..]|..] == css[c..];
    } else {
      ThemeSectionStaysInSection(css', k, parentClass, c');
    }
  }

  /**
   * One unfolding of the section transform inside a section: either it leaves the
   * text as it is, or it goes on from a new text and scan position in which the
   * marker and everything after it stand unchanged.
   */
  lemma SectionAdvance(css: string, currentIndex: nat, parentClass: string, c: nat)
    returns (done: bool, css': string, k: nat, c': nat)
    requires ClassName(parentClass) && BraceFree(parentClass)
    requires c == IndexOf(css, CommentMarker, currentIndex + 1) && RulesCloseBefore(css, currentIndex, c)
    ensures c <= |css|
    ensures done ==> ThemeSection(css, currentIndex, parentClass) == css
    ensures !done ==>
      && ThemeSection(css, currentIndex, parentClass) == ThemeSection(css', k, parentClass)
      && |css'| - k < |css| - currentIndex
      && c' <= |css'| && css'[c'..] == css[c..]
      && c' == IndexOf(css', CommentMarker, k + 1) && RulesCloseBefore(css', k, c')
  {
    if currentIndex >= |css| || NextMatch(css, currentIndex) == -1 {
      ThemeSectionNoMatch(css, currentIndex, parentClass);
      done, css', k, c' := true, css, currentIndex, c;
    } else {
      var m := NextMatch(css, currentIndex);
      var r := Rewrite(css, m, parentClass);
      var close;
      close, c' := StepInSection(css, currentIndex, parentClass, c, m);
      ThemeSectionAt(css, currentIndex, parentClass, m, r, close);
      done, css', k := false, r, close + 1;
    }
  }

  /**
   * One pass at the match `m` inside a section whose rules close before its end
   * marker: the pass only inserts before the match, the `}` the scan resumes after
   * lies before the marker, and the marker and what follows it move by the insertion.
   */
  lemma StepInSection(css: string, currentIndex: nat, parentClass: string, c: nat, m: int)
    returns (close: nat, c': nat)
    requires ClassName(parentClass) && BraceFree(parentClass) && currentIndex < |css|
    requires c == IndexOf(css, CommentMarker, currentIndex + 1) && RulesCloseBefore(css, currentIndex, c)
    requires m == NextMatch(css, currentIndex) && m != -1
    ensures var r := Rewrite(css, m, parentClass);
      && close == IndexOf(r, "}", m)
      && |r| - (close + 1) < |css| - currentIndex
      && c' <= |r| && r[c'..] == css[c..]
      && c' == IndexOf(r, CommentMarker, close + 1 + 1)
      && RulesCloseBefore(r, close + 1, c')
  {
    var ins := Inserted(css, m, parentClass);
    var r := Rewrite(css, m, parentClass);
    var b := IndexOf(css, "}", m);
    CloseInSection(css, currentIndex, c, m);
    close, c' := b + |ins|, c + |ins|;
    RewriteInsertsClosed(css, m, parentClass);
    ShiftClose(css, r, m, ins, b);
    ShiftMarker(css, r, m, ins, b + 2, c, close + 1 + 1, c');
    ShiftRules(css, r, m, ins, b + 1, c, close + 1, c');
    assert |r| == |css| + |ins|;
  }

  // ---------------------------------------------------------------------------
  // Every rule of a section comes out scoped

  /**
   * Rules do not nest: between a `.milkdown {` from `from` on and the first `}`
   * after it, no other `.milkdown {` starts before the marker at `c`.
   */
  predicate RulesUnnested(css: string, from: nat, c: nat) {
    forall j, q :: from <= j < q < c && At(css, RulePattern, j) && At(css, RulePattern, q) ==>
      0 <= IndexOf(css, "}", j) < q
  }

  /**
   * The promise of `transformThemeSection`: in a section whose rules close before
   * the next comment marker and do not nest, every `.milkdown {` from the start up
   * to where that marker stands in the result comes out under the parent class.
   */
  lemma {:induction false} ThemeSectionScopesAll(css: string, currentIndex: nat, parentClass: string, c: nat)
    requires ClassName(parentClass) && BraceFree(parentClass)
    requires c == IndexOf(css, CommentMarker, currentIndex + 1)
    requires RulesCloseBefore(css, currentIndex, c) && RulesUnnested(css, currentIndex, c)
    ensures var r := ThemeSection(css, currentIndex, parentClass);
      && c <= |css| && EndsWith(r, css[c..])
      && forall j :: currentIndex <= j < c + |r| - |css| && At(r, RulePattern, j) ==> Guarded(r, j, parentClass)
    decreases |css| - currentIndex
  {
    ThemeSectionStaysInSection(css, currentIndex, parentClass, c);
    var done, r1, k, c1 := ScopesAllAdvance(css, currentIndex, parentClass, c);
    if !done {
      ThemeSectionScopesAll(r1, k, parentClass, c1);
      var r := ThemeSection(r1, k, parentClass);
      ThemeSectionKeepsPrefix(r1, k, parentClass);
      GuardedBeforeResume(r1, r, currentIndex, k - 1, parentClass);
      forall j | currentIndex <= j < c + |r| - |css| && At(r, RulePattern, j)
        ensures Guarded(r, j, parentClass)
      {
        if j >= k {
          assert j < c1 + |r| - |r1|;
        }
      }
    }
  }

  /**
   * One unfolding of the section transform inside a section whose rules close and do
   * not nest: either no `.milkdown {` is left before the marker, or the transform goes
   * on from a text whose matches up to the resume point are all guarded.
   */
  lemma ScopesAllAdvance(css: string, currentIndex: nat, parentClass: string, c: nat)
    returns (done: bool, r1: string, k: nat, c1: nat)
    requires ClassName(parentClass) && BraceFree(parentClass)
    requires c == IndexOf(css, CommentMarker, currentIndex + 1)
    requires RulesCloseBefore(css, currentIndex, c) && RulesUnnested(css, currentIndex, c)
    ensures done ==> ThemeSection(css, currentIndex, parentClass) == css
    ensures done ==> forall j :: currentIndex <= j < c ==> !At(css, RulePattern, j)
    ensures !done ==>
      && ThemeSection(css, currentIndex, parentClass) == ThemeSection(r1, k, parentClass)
      && |r1| - k < |css| - currentIndex && 0 < k <= |r1| && At(r1, "}", k - 1)
      && c1 <= |r1| && c1 - |r1| == c - |css|
      && c1 == IndexOf(r1, CommentMarker, k + 1)
      && RulesCloseBefore(r1, k, c1) && RulesUnnested(r1, k, c1)
      && forall j :: currentIndex <= j <= k - 1 && At(r1, RulePattern, j) ==> Guarded(r1, j, parentClass)
  {
    if NextMatch(css, currentIndex) == -1 {
      ThemeSectionNoMatch(css, currentIndex, parentClass);
      done, r1, k, c1 := true, css, 1, 0;
    } else {
      done := false;
      r1, k, c1 := ScopesAllStep(css, currentIndex, parentClass, c);
    }
  }

  /** The unfolding at a match: the pass of `PassScopesAll`, after which the transform goes on. */
  lemma ScopesAllStep(css: string, currentIndex: nat, parentClass: string, c: nat)
    returns (r1: string, k: nat, c1: nat)
    requires ClassName(parentClass) && BraceFree(parentClass)
    requires c == IndexOf(css, CommentMarker, currentIndex + 1)
    requires RulesCloseBefore(css, currentIndex, c) && RulesUnnested(css, currentIndex, c)
    requires NextMatch(css, currentIndex) != -1
    ensures ThemeSection(css, currentIndex, parentClass) == ThemeSection(r1, k, parentClass)
    ensures |r1| - k < |css| - currentIndex && 0 < k <= |r1| && At(r1, "}", k - 1)
    ensures c1 <= |r1| && c1 - |r1| == c - |css|
    ensures c1 == IndexOf(r1, CommentMarker, k + 1)
    ensures RulesCloseBefore(r1, k, c1) && RulesUnnested(r1, k, c1)
    ensures forall j :: currentIndex <= j <= k - 1 && At(r1, RulePattern, j) ==> Guarded(r1, j, parentClass)
  {
    var m := NextMatch(css, currentIndex);
    r1 := Rewrite(css, m, parentClass);
    var close;
    close, c1 := PassScopesAll(css, currentIndex, parentClass, c, m);
    ThemeSectionAt(css, currentIndex, parentClass, m, r1, close);
    k := close + 1;
  }

  /**
   * One pass inside such a section: every `.milkdown {` of the rewritten text from
   * the scan position up to the `}` the scan resumes after is guarded, and the rest
   * of the section keeps its rules closed and unnested.
   */
  lemma PassScopesAll(css: string, currentIndex: nat, parentClass: string, c: nat, m: int)
    returns (close: nat, c1: nat)
    requires ClassName(parentClass) && BraceFree(parentClass) && currentIndex < |css|
    requires c == IndexOf(css, CommentMarker, currentIndex + 1)
    requires RulesCloseBefore(css, currentIndex, c) && RulesUnnested(css, currentIndex, c)
    requires m == NextMatch(css, currentIndex) && m != -1
    ensures var r := Rewrite(css, m, parentClass);
      && close == IndexOf(r, "}", m) && At(r, "}", close)
      && |r| - (close + 1) < |css| - currentIndex
      && c1 <= |r| && r[c1..] == css[c..] && c1 - |r| == c - |css|
      && c1 == IndexOf(r, CommentMarker, close + 1 + 1)
      && RulesCloseBefore(r, close + 1, c1) && RulesUnnested(r, close + 1, c1)
      && forall j :: currentIndex <= j <= close && At(r, RulePattern, j) ==> Guarded(r, j, parentClass)
  {
    var ins := Inserted(css, m, parentClass);
    var r := Rewrite(css, m, parentClass);
    var b := IndexOf(css, "}", m);
    CloseInSection(css, currentIndex, c, m);
    close, c1 := StepInSection(css, currentIndex, parentClass, c, m);
    assert r == css[..m] + ins + css[m..] && close == b + |ins| by {
      RewriteInsertsClosed(css, m, parentClass);
      ShiftClose(css, r, m, ins, b);
    }
    assert |r[c1..]| == |css[c..]|;
    assert At(r, "}", close);
    assert RulesUnnested(r, close + 1, c1) by {
      assert RulesUnnested(css, b + 1, c);
      ShiftUnnested(css, r, m, ins, b + 1, c, close + 1, c1);
    }
    assert forall j :: currentIndex <= j <= close && At(r, RulePattern, j) ==> Guarded(r, j, parentClass) by {
      OnlyScopedInPass(css, currentIndex, parentClass, m, r, ins, b, c);
    }
  }

  /** In the pass's text, the only `.milkdown {` from the scan position to the rule's `}` is the scoped match. */
  lemma OnlyScopedInPass(css: string, currentIndex: nat, parentClass: string, m: int, r: string, ins: string, b: nat, c: nat)
    requires ClassName(parentClass) && BraceFree(parentClass) && currentIndex < |css|
    requires m == NextMatch(css, currentIndex) && m != -1 && m <= b && b + 2 <= c
    requires r == Rewrite(css, m, parentClass) && ins == Inserted(css, m, parentClass)
    requires r == css[..m] + ins + css[m..] && b == IndexOf(css, "}", m) && RulesUnnested(css, currentIndex, c)
    ensures forall j :: currentIndex <= j <= b + |ins| && At(r, RulePattern, j) ==> Guarded(r, j, parentClass)
  {
    var p := ScopedAt(css, m, parentClass);
    assert p == m + |ins|;
    assert OpenedAt(r, currentIndex, m, p, parentClass) by {
      RewriteOpener(css, currentIndex, parentClass, m, r, p);
    }
    assert forall j :: p < j <= b + |ins| ==> !At(r, RulePattern, j) by {
      NoRuleInsideRule(css, r, m, ins, b, c, currentIndex);
    }
    forall j | currentIndex <= j <= b + |ins| && At(r, RulePattern, j)
      ensures Guarded(r, j, parentClass)
    {
      assert j == p;
    }
  }

  /** Between the scoped match and its `}`, the rewritten text holds no `.milkdown {`. */
  lemma NoRuleInsideRule(css: string, r: string, m: nat, ins: string, b: nat, c: nat, from: nat)
    requires At(css, RulePattern, m) && from <= m <= b && b + 2 <= c && r == css[..m] + ins + css[m..]
    requires b == IndexOf(css, "}", m) && RulesUnnested(css, from, c)
    ensures forall j :: m + |ins| < j <= b + |ins| ==> !At(r, RulePattern, j)
  {
    forall j | m + |ins| < j <= b + |ins|
      ensures !At(r, RulePattern, j)
    {
      ShiftedAt(css, r, m, ins, RulePattern, j - m - |ins|);
      if At(css, RulePattern, j - |ins|) {
        UnnestedAt(css, from, c, m, j - |ins|);
      }
    }
  }

  /** One instance of `RulesUnnested`. */
  lemma UnnestedAt(css: string, from: nat, c: nat, j: int, q: int)
    requires RulesUnnested(css, from, c) && from <= j < q < c && At(css, RulePattern, j) && At(css, RulePattern, q)
    ensures 0 <= IndexOf(css, "}", j) < q
  {
  }

  /** Past the insertion point, the occurrences of a pattern move by the insertion's length. */
  lemma ShiftedAt(css: string, r: string, m: nat, ins: string, pat: string, i: nat)
    requires m <= |css| && r == css[..m] + ins + css[m..]
    ensures At(r, pat, m + |ins| + i) <==> At(css, pat, m + i)
  {
    var pre, t := css[..m], css[m..];
    assert css == pre + t;
    AtAfterPrefix(pre + ins, t, pat, i);
    AtAfterPrefix(pre, t, pat, i);
  }

  /** Past the insertion point, the first `}` moves by the insertion's length. */
  lemma ShiftedIndexOf(css: string, r: string, m: nat, ins: string, pat: string, i: nat)
    requires m + i <= |css| && r == css[..m] + ins + css[m..]
    ensures var x := IndexOf(css, pat, m + i);
      IndexOf(r, pat, m + |ins| + i) == if x == -1 then -1 else x + |ins|
  {
    var pre, t := css[..m], css[m..];
    assert css == pre + t;
    IndexOfAfterPrefix(pre + ins, t, pat, i);
    IndexOfAfterPrefix(pre, t, pat, i);
  }

  /** The unnested rules after the insertion point move with it. */
  lemma ShiftUnnested(css: string, r: string, m: nat, ins: string, j0: nat, c: nat, j0': nat, c': nat)
    requires m <= j0 && m <= |css| && r == css[..m] + ins + css[m..] && j0' == j0 + |ins| && c' == c + |ins|
    requires RulesUnnested(css, j0, c)
    ensures RulesUnnested(r, j0', c')
  {
    forall j, q | j0' <= j < q < c' && At(r, RulePattern, j) && At(r, RulePattern, q)
      ensures 0 <= IndexOf(r, "}", j) < q
    {
      ShiftedAt(css, r, m, ins, RulePattern, j - m - |ins|);
      ShiftedAt(css, r, m, ins, RulePattern, q - m - |ins|);
      ShiftedIndexOf(css, r, m, ins, "}", j - m - |ins|);
      UnnestedAt(css, j0, c, j - |ins|, q - |ins|);
    }
  }

  /**
   * A text that agrees with `r1` up to the `}` at `close` keeps the guarded matches of
   * `r1` from `from` on: no `.milkdown {` can reach over that `}`.
   */
  lemma GuardedBeforeResume(r1: string, r: string, from: nat, close: nat, parentClass: string)
    requires At(r1, "}", close) && close + 1 <= |r| && r[..close + 1] == r1[..close + 1]
    requires forall j :: from <= j <= close && At(r1, RulePattern, j) ==> Guarded(r1, j, parentClass)
    ensures forall j :: from <= j < close + 1 && At(r, RulePattern, j) ==> Guarded(r, j, parentClass)
  {
    assert r[close] == r[..close + 1][close] == r1[..close + 1][close] == r1[close..close + 1][0] == '}';
    forall j | from <= j < close + 1 && At(r, RulePattern, j)
      ensures Guarded(r, j, parentClass)
    {
      if j + |RulePattern| > close + 1 {
        assert RulePattern[close - j] != '}';
        MismatchNotAt(r, RulePattern, j, close);
      }
      AtAgrees(r1, r, RulePattern, j, close + 1);
      GuardedInPrefix(r1, r, j, parentClass, close + 1);
    }
  }

  /** `s` is a suffix of `r`. */
  predicate EndsWith(r: string, s: string) {
    |s| <= |r| && r[|r| - |s|..] == s
  }

  /**
   * `transformThemeSection` with its loop (lines 57-82), the resume rule of line 78
   * corrected: when no `}` follows the match the loop stops.
   */
  method TransformThemeSection(css: string, sectionStart: nat, parentClass: string) returns (r: string)
    requires BraceFree(parentClass)
    ensures r == ThemeSection(css, sectionStart, parentClass)
  {
    var currentIndex: nat := sectionStart;
    var transformedCss := css;
    while currentIndex < |transformedCss|
      invariant ThemeSection(transformedCss, currentIndex, parentClass) == ThemeSection(css, sectionStart, parentClass)
      decreases |transformedCss| - currentIndex
    {
      SectionStepShrinks(transformedCss, currentIndex, parentClass);
      ThemeSectionUnfold(transformedCss, currentIndex, parentClass);
      var next := SectionPass(transformedCss, currentIndex, parentClass);
      if next.Done? {
        break;
      }
      transformedCss, currentIndex := next.css, next.currentIndex;
    }
    ThemeSectionUnfold(transformedCss, currentIndex, parentClass);
    return transformedCss;
  }

  /**
   * One pass of the loop body of lines 58-79: the two searches, the rewrite of the
   * match unless it is guarded, and the search for the `}` the scan resumes after.
   */
  method SectionPass(css: string, currentIndex: nat, parentClass: string) returns (next: Scan)
    requires BraceFree(parentClass)
    ensures next == SectionStep(css, currentIndex, parentClass)
  {
    var nextComment := IndexOf(css, CommentMarker, currentIndex + 1);
    var nextMilkdown := IndexOf(css, RulePattern, currentIndex);
    SectionStepOfSearch(css, currentIndex, parentClass, nextComment, nextMilkdown);
    if nextMilkdown == -1 {
      return Done;
    }
    if nextComment != -1 && nextMilkdown > nextComment {
      return Done;
    }
    var transformedCss := css;
    var beforeMilkdown := Substring(css, Max(0, nextMilkdown - |parentClass| - 2), nextMilkdown);
    if !Includes(beforeMilkdown, parentClass) {
      transformedCss := ScopeMilkdownRule(css, nextMilkdown, parentClass);
      assert !Guarded(css, nextMilkdown, parentClass);
    } else {
      assert Guarded(css, nextMilkdown, parentClass);
    }
    assert transformedCss == Rewrite(css, nextMilkdown, parentClass);
    var closeBrace := IndexOf(transformedCss, "}", nextMilkdown);
    SectionStepAt(css, currentIndex, parentClass, nextMilkdown, transformedCss, closeBrace);
    if closeBrace == -1 {
      return Continue(transformedCss, |transformedCss|);
    }
    return Continue(transformedCss, closeBrace + 1);
  }

  /** The two searches at the head of the loop decide whether the section has another match. */
  lemma SectionStepOfSearch(css: string, currentIndex: nat, parentClass: string, nextComment: int, nextMilkdown: int)
    requires nextComment == IndexOf(css, CommentMarker, currentIndex + 1)
    requires nextMilkdown == IndexOf(css, RulePattern, currentIndex)
    ensures nextMilkdown == -1 || (nextComment != -1 && nextMilkdown > nextComment) ==>
      SectionStep(css, currentIndex, parentClass) == Done
    ensures !(nextMilkdown == -1 || (nextComment != -1 && nextMilkdown > nextComment)) ==>
      NextMatch(css, currentIndex) == nextMilkdown
  {
  }

  /** The step at a match: the rewritten text, and the scan resumed after the next `}` or stopped. */
  lemma SectionStepAt(css: string, currentIndex: int, parentClass: string, m: int, rewritten: string, closeBrace: int)
    requires m == NextMatch(css, currentIndex) && m != -1
    requires rewritten == Rewrite(css, m, parentClass)
    requires closeBrace == IndexOf(rewritten, "}", m)
    ensures closeBrace == -1 ==> SectionStep(css, currentIndex, parentClass) == Continue(rewritten, |rewritten|)
    ensures closeBrace != -1 ==> SectionStep(css, currentIndex, parentClass) == Continue(rewritten, closeBrace + 1)
  {
    var next := SectionStep(css, currentIndex, parentClass);
    assert next.Continue? && next.css == rewritten;
    assert next.currentIndex == if closeBrace == -1 then |rewritten| else closeBrace + 1;
  }
}
