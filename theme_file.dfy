/**
 * The file-level step of
 * web_packages/fluttron_milkdown/frontend/scripts/transform-theme-css.mjs:
 * `generateContainerStyles`, the two rule counts of lines 123-124, and
 * `transformThemeCss`, which reads the bundled stylesheet, scopes its theme
 * sections, appends the container styles and writes the result back.
 */
module ThemeFile {
  import opened JsText
  import opened ThemeCss
  import opened ThemeTransform

  // ---------------------------------------------------------------------------
  // generateContainerStyles (lines 147-194)

  /** The colours one theme's container block sets. */
  datatype ThemeStyle = ThemeStyle(
    note: string, parentClass: string,
    background: string, onBackground: string, surface: string, primary: string,
    border: string, fill: string)

  /** The four theme blocks, in the order the template lists them. */
  const ThemeStyles: seq<ThemeStyle> := [
    ThemeStyle("Frame theme - neutral gray", "milkdown-theme-frame",
               "#ffffff", "#000000", "#f7f7f7", "#333333", "#333333", "#ffffff"),
    ThemeStyle("Frame dark theme", "milkdown-theme-frame-dark",
               "#1a1a1a", "#e6e6e6", "#121212", "#b5b5b5", "#b5b5b5", "#1a1a1a"),
    ThemeStyle("Nord theme - distinctive blue", "milkdown-theme-nord",
               "#fdfcff", "#1b1c1d", "#f8f9ff", "#2e6db3", "#2e6db3", "#f0f4fc"),
    ThemeStyle("Nord dark theme - blue accent", "milkdown-theme-nord-dark",
               "#1b1c1d", "#f8f9ff", "#111418", "#88c0d0", "#88c0d0", "#1b1c1d")
  ]

  /** Lines 148-152: the block shared by every editor container. */
  const ContainerHeader: string :=
    "/* Fluttron: Theme container visual styles */\n"
    + ".fluttron-milkdown {\n"
    + "  border-radius: 8px;\n"
    + "  transition: border-color 0.2s, background-color 0.2s;\n"
    + "}\n"

  /** The comment line that opens a theme's block. */
  function StyleComment(s: ThemeStyle): string {
    "/* " + s.note + " */\n"
  }

  /** The selector line of a theme's block: its parent class, then ` {`. */
  function StyleOpener(s: ThemeStyle): string {
    "." + s.parentClass + " {"
  }

  /** One theme's block: the comment, the selector and its declarations. */
  function StyleBlock(s: ThemeStyle): string {
    StyleComment(s) + StyleOpener(s) + StyleBody(s)
  }

  /** The six declarations of a theme's block and the closing brace. */
  function StyleBody(s: ThemeStyle): string {
    "\n"
    + "  --crepe-color-background: " + s.background + ";\n"
    + "  --crepe-color-on-background: " + s.onBackground + ";\n"
    + "  --crepe-color-surface: " + s.surface + ";\n"
    + "  --crepe-color-primary: " + s.primary + ";\n"
    + "  border: 2px solid " + s.border + ";\n"
    + "  background: " + s.fill + ";\n"
    + "}\n"
  }

  /** Rendered blocks, each after an empty line. */
  function Blocks(bs: seq<string>): string {
    if bs == [] then [] else "\n" + bs[0] + Blocks(bs[1..])
  }

  /** The block of each theme, in order. */
  function RenderedBlocks(ss: seq<ThemeStyle>): (bs: seq<string>)
    ensures |bs| == |ss|
    ensures forall i :: 0 <= i < |ss| ==> bs[i] == StyleBlock(ss[i])
  {
    if ss == [] then [] else [StyleBlock(ss[0])] + RenderedBlocks(ss[1..])
  }

  /** What `generateContainerStyles()` returns. */
  function ContainerStyles(): string {
    ContainerHeader + Blocks(RenderedBlocks(ThemeStyles))
  }

  /** The container blocks style exactly the four classes the sections are scoped under, in the same order. */
  lemma StylesFollowMappings()
    ensures |ThemeStyles| == |THEME_MAPPINGS|
    ensures forall t :: 0 <= t < |ThemeStyles| ==> ThemeStyles[t].parentClass == THEME_MAPPINGS[t].parentClass
  {
    MappingsOfThemeNames();
  }

  /** Every container's border is drawn in the theme's primary colour. */
  lemma BorderIsPrimary()
    ensures forall t :: 0 <= t < |ThemeStyles| ==> ThemeStyles[t].border == ThemeStyles[t].primary
  {
  }

  /** `pat` at `i` in `b` is `pat` at `|a| + i` in `a + b + c`. */
  lemma AtInside(a: string, b: string, c: string, pat: string, i: nat)
    requires At(b, pat, i)
    ensures At(a + b + c, pat, |a| + i)
  {
    var s := a + b + c;
    assert s[|a| + i..|a| + i + |pat|] == b[i..i + |pat|];
  }

  /** `pat` at `k` in `b` is `pat` at `|a| + k` in `a + b`. */
  lemma AtAfter(a: string, b: string, pat: string, k: nat)
    requires At(b, pat, k)
    ensures At(a + b, pat, |a| + k)
  {
    assert (a + b)[|a| + k..|a| + k + |pat|] == b[k..k + |pat|];
  }

  /** An occurrence inside an occurrence is an occurrence. */
  lemma AtWithin(s: string, b: string, pat: string, k: nat, i: nat)
    requires At(s, b, k) && At(b, pat, i)
    ensures At(s, pat, k + i)
  {
    forall j | 0 <= j < |pat|
      ensures s[k + i + j] == pat[j]
    {
      assert s[k..k + |b|][i + j] == b[i + j];
    }
  }

  /** Every block of the list appears whole in the joined text. */
  lemma {:induction false} BlocksHold(bs: seq<string>, t: nat)
    requires t < |bs|
    ensures exists k :: At(Blocks(bs), bs[t], k)
    decreases |bs|
  {
    var rest := Blocks(bs[1..]);
    if t == 0 {
      assert At(bs[0], bs[0], 0);
      AtInside("\n", bs[0], rest, bs[0], 0);
      assert At(Blocks(bs), bs[0], 1);
    } else {
      BlocksHold(bs[1..], t - 1);
      assert bs[1..][t - 1] == bs[t];
      var k :| At(rest, bs[t], k);
      AtAfter("\n" + bs[0], rest, bs[t], k);
      assert At(Blocks(bs), bs[t], 1 + |bs[0]| + k);
    }
  }

  /** A piece of any block is found in the header followed by the blocks. */
  lemma PieceOfBlocks(h: string, bs: seq<string>, t: nat, pre: string, pat: string, post: string)
    requires t < |bs| && bs[t] == pre + pat + post
    ensures exists k :: At(h + Blocks(bs), pat, k)
  {
    BlocksHold(bs, t);
    var k :| At(Blocks(bs), bs[t], k);
    AtInside(pre, pat, post, pat, 0);
    AtWithin(Blocks(bs), bs[t], pat, k, |pre|);
    AtAfter(h, Blocks(bs), pat, k + |pre|);
  }

  /** The container styles hold the selector of every theme block. */
  lemma ContainerStylesHoldOpener(t: nat)
    requires t < |ThemeStyles|
    ensures exists k :: At(ContainerStyles(), StyleOpener(ThemeStyles[t]), k)
  {
    var s, bs := ThemeStyles[t], RenderedBlocks(ThemeStyles);
    assert bs[t] == StyleComment(s) + StyleOpener(s) + StyleBody(s);
    PieceOfBlocks(ContainerHeader, bs, t, StyleComment(s), StyleOpener(s), StyleBody(s));
    var k :| At(ContainerHeader + Blocks(bs), StyleOpener(s), k);
    assert At(ContainerStyles(), StyleOpener(s), k);
  }

  /** The container styles give every theme's parent class a block of its own. */
  lemma ContainerStylesCoverThemes(t: nat)
    requires t < |THEME_MAPPINGS|
    ensures Includes(ContainerStyles(), "." + THEME_MAPPINGS[t].parentClass + " {")
  {
    StylesFollowMappings();
    assert StyleOpener(ThemeStyles[t]) == "." + THEME_MAPPINGS[t].parentClass + " {";
    ContainerStylesHoldOpener(t);
  }

  // ---------------------------------------------------------------------------
  // The counts of lines 123-124

  /** `\w`: an ASCII letter, digit or underscore. */
  predicate IsWordChar(c: char) {
    ('a' <= c <= 'z') || ('A' <= c <= 'Z') || ('0' <= c <= '9') || c == '_'
  }

  /** The characters a class-name run may hold: `\w`, and `-` when `hyphen` is set (`[\w-]`). */
  predicate InRun(c: char, hyphen: bool) {
    IsWordChar(c) || (hyphen && c == '-')
  }

  /** The length of the longest run of such characters starting at `i`. */
  function RunLength(s: string, i: nat, hyphen: bool): (n: nat)
    requires i <= |s|
    ensures i + n <= |s|
    decreases |s| - i
  {
    if i < |s| && InRun(s[i], hyphen) then 1 + RunLength(s, i + 1, hyphen) else 0
  }

  /** The length of the longest run of `\s` starting at `i`. */
  function SpaceRun(s: string, i: nat): (n: nat)
    requires i <= |s|
    ensures i + n <= |s|
    decreases |s| - i
  {
    if i < |s| && IsWhitespace(s[i]) then 1 + SpaceRun(s, i + 1) else 0
  }

  /**
   * The regular expressions the counts use: `/\.milkdown\s*{/` (line 123), and
   * `/milkdown-theme-\w+ \.milkdown/` (line 124), or with `[\w-]+` in place of `\w+`.
   */
  datatype CountPattern = RuleOpener | ScopedRule(hyphen: bool)

  const ClassPrefix: string := "milkdown-theme-"
  const ScopedTail: string := " .milkdown"

  /**
   * The length of the match of `p` at `i`, or -1 when there is none. `\s*` and
   * the class run are greedy and the character after them (`{` or a space) is
   * outside their class, so backtracking never finds a shorter match.
   */
  function MatchAt(p: CountPattern, s: string, i: nat): (n: int)
    requires i <= |s|
    ensures n == -1 || (10 <= n && i + n <= |s|)
  {
    match p
    case RuleOpener =>
      if At(s, ".milkdown", i) then
        var k := SpaceRun(s, i + 9);
        if i + 9 + k < |s| && s[i + 9 + k] == '{' then 9 + k + 1 else -1
      else -1
    case ScopedRule(hyphen) =>
      if At(s, ClassPrefix, i) then
        var k := RunLength(s, i + 15, hyphen);
        if k > 0 && At(s, ScopedTail, i + 15 + k) then 15 + k + 10 else -1
      else -1
  }

  /** A match of the scoped-rule pattern spans the prefix, at least one class character and ` .milkdown`. */
  lemma ScopedMatchLength(s: string, i: nat, hyphen: bool)
    requires i <= |s|
    ensures var n := MatchAt(ScopedRule(hyphen), s, i);
      n == -1 || 26 <= n
  {
  }

  /**
   * `(s.match(re) || []).length` for a global `re`, from `i`: each match is taken
   * at the first position where one starts and the search resumes after it.
   */
  function CountMatches(p: CountPattern, s: string, i: nat): (n: nat)
    requires i <= |s|
    ensures 10 * n <= |s| - i
    decreases |s| - i
  {
    if i == |s| then 0
    else
      var m := MatchAt(p, s, i);
      if m == -1 then CountMatches(p, s, i + 1) else 1 + CountMatches(p, s, i + m)
  }

  /** Line 123: the `.milkdown` rules of the stylesheet as read. */
  function OriginalCount(css: string): nat {
    CountMatches(RuleOpener, css, 0)
  }

  /** Line 124 as written: the class run is `\w+`, which stops at the `-` of `-dark`. */
  function ScopedCountAsWritten(css: string): nat {
    CountMatches(ScopedRule(false), css, 0)
  }

  /** Line 124 with the class run `[\w-]+`, so that the dark themes' classes are counted too. */
  function ScopedCount(css: string): nat {
    CountMatches(ScopedRule(true), css, 0)
  }

  /** Every `.milkdown {` the section transform looks for is a rule the original count counts. */
  lemma RuleOpenerMatchesRulePattern(s: string, i: nat)
    requires At(s, RulePattern, i)
    ensures MatchAt(RuleOpener, s, i) == 11
  {
    assert s[i..i + 9] == s[i..i + 11][..9];
    assert s[i + 9] == s[i..i + 11][9] == ' ';
    assert s[i + 10] == s[i..i + 11][10] == '{';
    assert SpaceRun(s, i + 10) == 0;
    assert SpaceRun(s, i + 9) == 1;
  }

  /** A run that ends where the class of its characters ends has exactly that length. */
  lemma {:induction false} RunLengthIs(s: string, i: nat, e: nat, hyphen: bool)
    requires i <= e <= |s|
    requires forall j :: i <= j < e ==> InRun(s[j], hyphen)
    requires e == |s| || !InRun(s[e], hyphen)
    ensures RunLength(s, i, hyphen) == e - i
    decreases e - i
  {
    if i < e {
      RunLengthIs(s, i + 1, e, hyphen);
    }
  }

  /** The text of a rule scoped under `milkdown-theme-<w>-<v>`. */
  function HyphenatedScopedRule(w: string, v: string): string {
    "." + ClassPrefix + w + "-" + v + ScopedTail + " {"
  }

  /** The class name of a hyphenated scoped rule sits at index 1, its run from index 16. */
  lemma HyphenatedScopedRuleParts(w: string, v: string)
    ensures var s := HyphenatedScopedRule(w, v);
      && |s| == 29 + |w| + |v| && s[0] == '.'
      && s[1..16] == ClassPrefix
      && (forall j :: 0 <= j < |w| ==> s[16 + j] == w[j])
      && s[16 + |w|] == '-'
      && (forall j :: 0 <= j < |v| ==> s[17 + |w| + j] == v[j])
      && s[17 + |w| + |v|..27 + |w| + |v|] == ScopedTail
      && s[27 + |w| + |v|..] == " {"
  {
    var s := HyphenatedScopedRule(w, v);
    var a := "." + ClassPrefix;
    assert s == a + w + "-" + v + ScopedTail + " {";
    assert s[..16] == a;
    assert s[1..16] == a[1..];
    var b := a + w + "-" + v;
    assert s == b + ScopedTail + " {";
    assert s[|b|..|b| + 10] == ScopedTail;
    assert s[|b| + 10..] == " {";
  }

  /**
   * The count as written cannot match a rule scoped under a hyphenated class
   * `milkdown-theme-<w>-<v>`: `\w+` stops at the `-`, which is not the space the
   * pattern needs next.
   */
  lemma ScopedMatchAsWrittenMissesHyphen(w: string, v: string)
    requires w != [] && forall j :: 0 <= j < |w| ==> IsWordChar(w[j])
    ensures MatchAt(ScopedRule(false), HyphenatedScopedRule(w, v), 1) == -1
  {
    var s := HyphenatedScopedRule(w, v);
    HyphenatedScopedRuleParts(w, v);
    RunLengthIs(s, 16, 16 + |w|, false);
    assert s[16 + |w|..26 + |w|][0] == s[16 + |w|];
  }

  /** With `[\w-]+` the whole class is the run and the rule is matched. */
  lemma ScopedMatchCountsHyphen(w: string, v: string)
    requires forall j :: 0 <= j < |w| ==> IsWordChar(w[j])
    requires forall j :: 0 <= j < |v| ==> InRun(v[j], true)
    ensures MatchAt(ScopedRule(true), HyphenatedScopedRule(w, v), 1) == 26 + |w| + |v|
  {
    var s := HyphenatedScopedRule(w, v);
    HyphenatedScopedRuleParts(w, v);
    assert s[17 + |w| + |v|] == ScopedTail[0];
    RunLengthIs(s, 16, 17 + |w| + |v|, true);
  }

  /** The dark frame theme's scoped rule: missed as written, matched with `[\w-]+`. */
  lemma FrameDarkScopedRule()
    ensures MatchAt(ScopedRule(false), HyphenatedScopedRule("frame", "dark"), 1) == -1
    ensures MatchAt(ScopedRule(true), HyphenatedScopedRule("frame", "dark"), 1) == 35
  {
    ScopedMatchAsWrittenMissesHyphen("frame", "dark");
    ScopedMatchCountsHyphen("frame", "dark");
  }

  /** A count finds nothing from `i` when no match starts at or after `i`. */
  lemma {:induction false} CountMatchesNone(p: CountPattern, s: string, i: nat)
    requires i <= |s|
    requires forall j :: i <= j < |s| ==> MatchAt(p, s, j) == -1
    ensures CountMatches(p, s, i) == 0
    decreases |s| - i
  {
    if i < |s| {
      CountMatchesNone(p, s, i + 1);
    }
  }

  /**
   * The `-` characters of a rule scoped under `milkdown-theme-<w>-<v>` with `w` and
   * `v` made of `\w` characters: the two of the prefix and the one between the words.
   */
  lemma HyphenatedScopedRuleHyphens(w: string, v: string, i: int)
    requires forall j :: 0 <= j < |w| ==> IsWordChar(w[j])
    requires forall j :: 0 <= j < |v| ==> IsWordChar(v[j])
    requires 0 <= i < |HyphenatedScopedRule(w, v)|
    ensures HyphenatedScopedRule(w, v)[i] == '-' ==> i == 9 || i == 15 || i == 16 + |w|
  {
    var s := HyphenatedScopedRule(w, v);
    HyphenatedScopedRuleParts(w, v);
    if i == 0 {
    } else if i < 16 {
      assert s[i] == s[1..16][i - 1] == ClassPrefix[i - 1];
    } else if i < 16 + |w| {
      assert s[i] == w[i - 16];
    } else if i == 16 + |w| {
    } else if i < 17 + |w| + |v| {
      assert s[i] == v[i - 17 - |w|];
    } else if i < 27 + |w| + |v| {
      assert s[i] == s[17 + |w| + |v|..27 + |w| + |v|][i - 17 - |w| - |v|] == ScopedTail[i - 17 - |w| - |v|];
    } else {
      assert s[i] == s[27 + |w| + |v|..][i - 27 - |w| - |v|] == " {"[i - 27 - |w| - |v|];
    }
  }

  /** In such a rule the class prefix starts at index 1 and nowhere else. */
  lemma HyphenatedScopedRulePrefixAtOne(w: string, v: string, j: int)
    requires forall j :: 0 <= j < |w| ==> IsWordChar(w[j])
    requires forall j :: 0 <= j < |v| ==> IsWordChar(v[j])
    ensures At(HyphenatedScopedRule(w, v), ClassPrefix, j) ==> j == 1
  {
    var s := HyphenatedScopedRule(w, v);
    AtChars(s, ClassPrefix, j);
    assert ClassPrefix[0] == 'm' && ClassPrefix[8] == '-' && ClassPrefix[14] == '-';
    if 0 <= j && j + 15 <= |s| {
      HyphenatedScopedRuleHyphens(w, v, j + 8);
      HyphenatedScopedRuleHyphens(w, v, j + 14);
      if j == 7 {
        HyphenatedScopedRuleParts(w, v);
        assert s[7] == s[1..16][6] == 'w';
      }
    }
  }

  /**
   * The counts of line 124 on a rule scoped under a hyphenated class such as
   * `milkdown-theme-frame-dark`: as written the rule is not counted at all, with
   * `[\w-]+` it is counted once.
   */
  lemma HyphenatedScopedCounts(w: string, v: string)
    requires w != [] && forall j :: 0 <= j < |w| ==> IsWordChar(w[j])
    requires forall j :: 0 <= j < |v| ==> IsWordChar(v[j])
    ensures ScopedCountAsWritten(HyphenatedScopedRule(w, v)) == 0
    ensures ScopedCount(HyphenatedScopedRule(w, v)) == 1
  {
    var s := HyphenatedScopedRule(w, v);
    forall j | 0 <= j < |s|
      ensures MatchAt(ScopedRule(false), s, j) == -1
    {
      HyphenatedScopedRulePrefixAtOne(w, v, j);
      if j == 1 {
        ScopedMatchAsWrittenMissesHyphen(w, v);
      }
    }
    CountMatchesNone(ScopedRule(false), s, 0);
    HyphenatedScopedRulePrefixAtOne(w, v, 0);
    ScopedMatchCountsHyphen(w, v);
    HyphenatedScopedRuleParts(w, v);
    forall j | |s| - 3 <= j < |s|
      ensures MatchAt(ScopedRule(true), s, j) == -1
    {
      ScopedMatchLength(s, j, true);
    }
    CountMatchesNone(ScopedRule(true), s, |s| - 3);
    assert CountMatches(ScopedRule(true), s, 1) == 1 + CountMatches(ScopedRule(true), s, |s| - 3);
  }

  /** The dark frame theme's scoped rule is counted once with `[\w-]+` and not at all as written. */
  lemma FrameDarkCounts()
    ensures ScopedCountAsWritten(HyphenatedScopedRule("frame", "dark")) == 0
    ensures ScopedCount(HyphenatedScopedRule("frame", "dark")) == 1
  {
    HyphenatedScopedCounts("frame", "dark");
  }

  // ---------------------------------------------------------------------------
  // transformThemeCss (lines 108-145)

  /** Lines 121 and 130: the scoped content, an empty line, and the container styles. */
  function TransformedFile(css: string): string {
    ScopedContent(css) + "\n\n" + ContainerStyles()
  }

  /**
   * The file-level step is not idempotent: the container styles are appended on
   * every run, so a second run makes the file longer again.
   */
  lemma TransformedFileGrows(css: string)
    ensures |TransformedFile(TransformedFile(css))| > |TransformedFile(css)|
    ensures TransformedFile(TransformedFile(css)) != TransformedFile(css)
  {
    var once := TransformedFile(css);
    ScopedContentKeepsBefore(once, 0);
  }

  /** The output starts with the scoped content and ends with the container styles. */
  lemma TransformedFileShape(css: string)
    ensures var r := TransformedFile(css);
      && r[..|ScopedContent(css)|] == ScopedContent(css)
      && r[|r| - |ContainerStyles()|..] == ContainerStyles()
  {
  }

  /** The figures `transformThemeCss` resolves with. */
  datatype Counts = Counts(originalCount: nat, scopedCount: nat)

  /** Why `transformThemeCss` rejects: the read or the write of the stylesheet threw. */
  datatype FsError = ReadFailed(path: string) | WriteFailed(path: string)

  datatype Result<T> = Success(value: T) | Failure(error: FsError)

  /**
   * The file system as far as the step sees it: the contents of each readable
   * file, and the paths whose write throws.
   */
  class FileStore {
    var files: map<string, string>
    var unwritable: set<string>

    constructor(files: map<string, string>, unwritable: set<string>)
      ensures this.files == files && this.unwritable == unwritable
    {
      this.files := files;
      this.unwritable := unwritable;
    }

    /**
     * `transformThemeCss(path)`: a failed read rejects before anything is written;
     * otherwise the counts are taken on the text as read and as scoped (before the
     * container styles are appended), and a failed write rejects with the file as
     * it was.
     */
    method TransformThemeCss(path: string) returns (r: Result<Counts>)
      modifies this
      ensures unwritable == old(unwritable)
      ensures path !in old(files) ==> r == Failure(ReadFailed(path)) && files == old(files)
      ensures path in old(files) && path in unwritable ==>
        r == Failure(WriteFailed(path)) && files == old(files)
      ensures path in old(files) && path !in unwritable ==>
        var css := old(files)[path];
        && r == Success(Counts(OriginalCount(css), ScopedCount(ScopedContent(css))))
        && files == old(files)[path := TransformedFile(css)]
    {
      if path !in files {
        return Failure(ReadFailed(path));
      }
      var css := files[path];
      var transformedCss := TransformCssContent(css);
      var originalCount := OriginalCount(css);
      var scopedCount := ScopedCount(transformedCss);
      var containerStyles := ContainerStyles();
      transformedCss := transformedCss + "\n\n" + containerStyles;
      assert transformedCss == TransformedFile(css);
      if path in unwritable {
        return Failure(WriteFailed(path));
      }
      files := files[path := transformedCss];
      return Success(Counts(originalCount, scopedCount));
    }
  }
}
