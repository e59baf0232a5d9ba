# Fluttron Milkdown editor view and theme-CSS scoping, in Dafny

This project models the core of the Fluttron Milkdown web package, the embeddable
markdown editor view that a Flutter host shows through an `HtmlElementView`:

- **The theme-CSS transformer** (`frontend/scripts/transform-theme-css.mjs`). It is a
  post-build step. It finds the section of each bundled Milkdown theme in the bundled
  stylesheet by the bundler's source-path comment. It rewrites every `.milkdown {`
  rule of that section as `.milkdown-theme-<name> .milkdown {`, so that the four
  themes can coexist. It then appends the container styles and writes the file back.
  Two rule counts are reported.
  - Module `ThemeCss` covers one rule and one section.
  - `ThemeTransform` covers the whole stylesheet.
  - `ThemeFile` covers the container styles, the counts and the read/transform/write step.
- **The editor view** (`frontend/src/main.js`), module `Editor`:
  - the normalisation of the host's configuration;
  - the feature switches handed to the Crepe engine;
  - the theme classes of the container;
  - the process-wide registry of live editors with its destroy and initialise operations;
  - the container and mount elements that `createMilkdownEditorView` returns.
- **The editor events** (`frontend/src/events.js`), module `Events`: the four event
  names and the payloads of the change, ready, focus and blur notifications.

Module `JsText` states the JavaScript string built-ins the code relies on:
`indexOf`, `includes`, `substring`, `slice(0, -n)`, `/(\s*)$/`, `split`, and the
decimal rendering of a number in a template literal.

Imperative code stays imperative in the model.
- **Loops:** the loops of `scopeMilkdownRule`, `transformThemeSection` and
  `transformCssContent` are `while`/`for` loops. Each is proved equal to a
  specification function, and the properties are proved about those functions.
- **Registry:** the editor registry and the page elements are classes whose methods
  state the whole new state.
- **Foreign calls:**
  - whether the Crepe engine's `create()` and `destroy()` resolve or reject is a
    parameter of the operations that await them;
  - the file system is a map from path to contents plus a set of unwritable paths;
  - the clock is a parameter;
  - dispatched window events are appended to a log.

Three places where the code does not do what it evidently intends are listed under
Findings. In each case the model keeps the code as written beside the corrected
version and uses the corrected one.

## Model

| member | source | states |
|---|---|---|
| `JsText.IndexOf` | web_packages/fluttron_milkdown/frontend/scripts/transform-theme-css.mjs:37 | `indexOf` returns -1 when the pattern does not occur at or after the clamped start; otherwise it returns an occurrence at or after the start, and the pattern occurs nowhere between the start and that index |
| `JsText.Includes` | web_packages/fluttron_milkdown/frontend/scripts/transform-theme-css.mjs:40 | `includes` holds exactly when the pattern occurs at some index |
| `JsText.Substring` | web_packages/fluttron_milkdown/frontend/scripts/transform-theme-css.mjs:69-72 | `substring` clamps both ends into the text and returns the slice between them in either order: with both ends inside, the slice between them; with one end past the text, the rest from the other end; with one end before the start, the part up to the other end; the result is never longer than the text |
| `JsText.SliceToNegative` | web_packages/fluttron_milkdown/frontend/scripts/transform-theme-css.mjs:105 | `slice(0, -n)` drops the last `n` characters, but for `n == 0` it returns the empty string |
| `JsText.TrailingWhitespaceIsMaximal` | web_packages/fluttron_milkdown/frontend/scripts/transform-theme-css.mjs:100-101 | the capture of `/(\s*)$/` is a suffix made only of whitespace that cannot be extended to the left; it is empty exactly when the text does not end in whitespace |
| `JsText.JoinSplit` | web_packages/fluttron_milkdown/frontend/src/events.js:22 | joining the pieces of `split('\n')` with the separator gives back the markdown |
| `JsText.IntToStringInjective` | web_packages/fluttron_milkdown/frontend/src/main.js:175 | distinct integers render as distinct decimal strings |
| `Events.LineCount` | web_packages/fluttron_milkdown/frontend/src/events.js:22 | the line count is the number of newlines plus one |
| `Events.EmitEditorChange` | web_packages/fluttron_milkdown/frontend/src/events.js:16-26 | the change event is named `<prefix>.change` and carries the view id, the whole markdown, its length in UTF-16 code units (as JavaScript's `length` counts), its line count and the given timestamp |
| `JsText.Utf16Length` | web_packages/fluttron_milkdown/frontend/src/events.js:20 | a string's JavaScript length lies between its number of characters and twice that, and equals its number of characters when no character lies outside the Basic Multilingual Plane |
| `JsText.Utf16LengthOfAstral` | web_packages/fluttron_milkdown/frontend/src/events.js:20 | an emoji is one character but two UTF-16 code units, so the two lengths differ |
| `Events.EmitEditorReady` | web_packages/fluttron_milkdown/frontend/src/events.js:33-37 | the ready event carries the view id and nothing else |
| `Events.EmitEditorFocus` | web_packages/fluttron_milkdown/frontend/src/events.js:44-48 | the focus event carries the view id and nothing else |
| `Events.EmitEditorBlur` | web_packages/fluttron_milkdown/frontend/src/events.js:55-59 | the blur event carries the view id and nothing else |
| `Events.EventNamesDistinct` | web_packages/fluttron_milkdown/frontend/src/events.js:62-67 | the four event names are pairwise distinct |
| `Events.EventNamesUnderPrefix` | web_packages/fluttron_milkdown/frontend/src/events.js:8 | every event name is `fluttron.milkdown.editor` followed by a dot and a non-empty suffix |
| `Events.ChangePayloadIsComplete` | web_packages/fluttron_milkdown/frontend/src/events.js:16-26 | a change payload is the full text, not a diff: its line count equals the number of pieces of `split('\n')`, and the pieces join back into the markdown |
| `ThemeCss.MappingsOfThemeNames` | web_packages/fluttron_milkdown/frontend/scripts/transform-theme-css.mjs:23-28 | there are four mappings; each pairs `/theme/<name>/style.css` with `milkdown-theme-<name>` for frame, frame-dark, nord and nord-dark |
| `ThemeCss.MappingClassesAreClassNames` | web_packages/fluttron_milkdown/frontend/scripts/transform-theme-css.mjs:23-28 | every parent class is a non-empty class name, so no parent class opens or closes a block |
| `ThemeCss.ScanCloseDepth` | web_packages/fluttron_milkdown/frontend/scripts/transform-theme-css.mjs:88-94 | the depth-counting scan keeps the depth positive before it stops, and it stops inside the text only where the depth is no longer positive |
| `ThemeCss.ScanCloseStopsAfterClosingBrace` | web_packages/fluttron_milkdown/frontend/scripts/transform-theme-css.mjs:88-95 | once the depth is no longer positive, the scan has stopped just after a `}` with the depth exactly zero, so nested blocks stay inside the rule |
| `ThemeCss.ScopeMilkdownRule` | web_packages/fluttron_milkdown/frontend/scripts/transform-theme-css.mjs:84-106 | the loop-based `scopeMilkdownRule`, with its depth-counting scan, returns the specification `ScopeRule` |
| `ThemeCss.ScopeRuleFromBrace` | web_packages/fluttron_milkdown/frontend/scripts/transform-theme-css.mjs:85-86 | with no `{` after the rule start the text comes back unchanged; otherwise the rule is rebuilt from the brace and the scan's end |
| `ThemeCss.ScopeRuleAt` | web_packages/fluttron_milkdown/frontend/scripts/transform-theme-css.mjs:97-105 | at an occurrence of `.milkdown {` the result is the text before it, then `.<parentClass> .milkdown {`, then the body and what follows it |
| `ThemeCss.ScopeRuleShape` | web_packages/fluttron_milkdown/frontend/scripts/transform-theme-css.mjs:97-105 | scoping a rule keeps the text before it, puts the new selector at the rule's index, and lengthens the text by at least the class plus two characters |
| `ThemeCss.RuleEndOfClosedRule` | web_packages/fluttron_milkdown/frontend/scripts/transform-theme-css.mjs:88-95 | a rule's braces balance exactly when the scan stops inside the text or at depth zero at the end; a balanced rule ends after a `}`, and an unbalanced one runs to the end of the text |
| `ThemeCss.ScopeRuleInserts` | web_packages/fluttron_milkdown/frontend/scripts/transform-theme-css.mjs:97-105 | a rule whose braces balance is scoped by inserting `.<parentClass> ` in front of it, and nothing else in the text changes |
| `ThemeCss.ScopeRuleUnclosed` | web_packages/fluttron_milkdown/frontend/scripts/transform-theme-css.mjs:95-99 | a rule left open at the end of the text is closed in the output: the text's last character is replaced by `}`, or `{}` is appended when the text ends at the rule's own `{`, because `substring` swaps its arguments |
| `ThemeCss.GuardedAfterScope` | web_packages/fluttron_milkdown/frontend/scripts/transform-theme-css.mjs:69-76 | after a rule is scoped, its `.milkdown {` is recognised by the skip guard, so it is never scoped twice |
| `ThemeCss.KeptBeforeAsWritten` | web_packages/fluttron_milkdown/frontend/scripts/transform-theme-css.mjs:100-105 | line 105 keeps all the text before the rule when whitespace precedes it, and none of it otherwise |
| `ThemeCss.ScopeRuleAsWrittenAgrees` | web_packages/fluttron_milkdown/frontend/scripts/transform-theme-css.mjs:100-105 | the code as written agrees with the corrected rule when the match is at the start of the text or right after whitespace |
| `ThemeCss.ScopeRuleAsWrittenDrops` | web_packages/fluttron_milkdown/frontend/scripts/transform-theme-css.mjs:105 | when anything but whitespace precedes the match, the code as written returns the corrected result minus the text before the match |
| `ThemeCss.ScopeRuleAsWrittenLosesPrefix` | web_packages/fluttron_milkdown/frontend/scripts/transform-theme-css.mjs:105 | for a balanced rule right after a non-whitespace character, the code as written loses the whole prefix, while the corrected rule only inserts the class |
| `ThemeCss.SelectorListLosesPrefix` | web_packages/fluttron_milkdown/frontend/scripts/transform-theme-css.mjs:105 | the selector list `p,.milkdown {}` meets the conditions of the lemma above |
| `ThemeCss.NextMatch` | web_packages/fluttron_milkdown/frontend/scripts/transform-theme-css.mjs:63-67 | the match the loop body works on is the first `.milkdown {` at or after the scan position, and it lies before the next `/* node_modules` comment searched from one past the position; there is none exactly when no `.milkdown {` lies between the position and that comment |
| `ThemeCss.RewriteAsWrittenAgrees` | web_packages/fluttron_milkdown/frontend/scripts/transform-theme-css.mjs:69-77 | the rewrite as written equals the corrected one when the match is at the start of the text, right after whitespace, or already under the parent class |
| `ThemeCss.SectionStepAgrees` | web_packages/fluttron_milkdown/frontend/scripts/transform-theme-css.mjs:62-79 | a corrected pass equals the pass as written when the match is at the start, after whitespace or already guarded, and a `}` follows it |
| `ThemeCss.MarkerIsNoRule` | web_packages/fluttron_milkdown/frontend/scripts/transform-theme-css.mjs:63-67 | a `.milkdown {` and a `/* node_modules` comment never start at the same index |
| `ThemeCss.SectionStepShrinks` | web_packages/fluttron_milkdown/frontend/scripts/transform-theme-css.mjs:62-79 | each pass of the corrected loop shortens the text left to scan, so the section transform ends on every input |
| `ThemeCss.AsWrittenStepRestarts` | web_packages/fluttron_milkdown/frontend/scripts/transform-theme-css.mjs:78 | at a guarded match with no `}` after it, the code as written resumes at index 0, while the corrected step stops |
| `ThemeCss.AsWrittenLoopRepeats` | web_packages/fluttron_milkdown/frontend/scripts/transform-theme-css.mjs:62-79 | on `.<parentClass> .milkdown {`, a pass of the loop as written returns to the state it started from, so the loop never ends |
| `ThemeCss.CorrectedLoopStops` | web_packages/fluttron_milkdown/frontend/scripts/transform-theme-css.mjs:62-79 | on the same input, the corrected loop stops after one pass and leaves the text unchanged |
| `ThemeCss.ThemeSectionAllGuarded` | web_packages/fluttron_milkdown/frontend/scripts/transform-theme-css.mjs:69-76 | a section whose remaining matches are all already under the parent class comes out unchanged |
| `ThemeCss.RewriteScopes` | web_packages/fluttron_milkdown/frontend/scripts/transform-theme-css.mjs:69-77 | after the rewrite, the visited `.milkdown {` stands behind the parent class, at the match or shifted by the inserted class, and no `}` lies between the match and the end of the rule opener |
| `ThemeCss.ThemeSectionScopesVisited` | web_packages/fluttron_milkdown/frontend/scripts/transform-theme-css.mjs:62-79 | every `.milkdown {` a pass of the loop visits stands in the section's result at or after the start, recognised by the skip guard: the loop scopes every rule it visits |
| `ThemeCss.ThemeSectionScopesAll` | web_packages/fluttron_milkdown/frontend/scripts/transform-theme-css.mjs:57-82 | every top-level `.milkdown {` of a section is rewritten: when the rules between the start and the next `/* node_modules` comment close before that comment and no `.milkdown {` starts inside another rule before its first `}`, every `.milkdown {` of the result from the start up to where that comment now stands is behind the parent class, as the skip guard sees it; the comment and the text after it are an unchanged suffix |
| `ThemeCss.ThemeSectionStaysInSection` | web_packages/fluttron_milkdown/frontend/scripts/transform-theme-css.mjs:63-67 | when each rule between the start and the next `/* node_modules` comment closes before that comment, the section transform leaves the text from the comment on unchanged, as a suffix of the result |
| `ThemeCss.ThemeSectionKeepsPrefix` | web_packages/fluttron_milkdown/frontend/scripts/transform-theme-css.mjs:57-82 | the section transform never touches the text before its start and never shortens the text |
| `ThemeCss.ThemeSectionIdempotent` | web_packages/fluttron_milkdown/frontend/scripts/transform-theme-css.mjs:57-82 | the section transform is idempotent: run again from the same start on its own result, it changes nothing |
| `ThemeCss.TransformThemeSection` | web_packages/fluttron_milkdown/frontend/scripts/transform-theme-css.mjs:57-82 | the loop-based `transformThemeSection` returns the specification `ThemeSection`, whose promise (every top-level `.milkdown {` of the section scoped) is `ThemeCss.ThemeSectionScopesAll` |
| `ThemeCss.SectionPass` | web_packages/fluttron_milkdown/frontend/scripts/transform-theme-css.mjs:58-79 | one pass of the loop body (the two searches, the guarded rewrite, the search for the next `}`) equals the specification step |
| `ThemeTransform.ClosesCommentIsIncludes` | web_packages/fluttron_milkdown/frontend/scripts/transform-theme-css.mjs:40 | the section test holds exactly when the window contains `*` followed by `/` |
| `ThemeTransform.IsSectionCommentIsIncludes` | web_packages/fluttron_milkdown/frontend/scripts/transform-theme-css.mjs:39-40 | a source path opens a section exactly when the 200 characters from it contain the end of a comment |
| `ThemeTransform.SectionStartsSound` | web_packages/fluttron_milkdown/frontend/scripts/transform-theme-css.mjs:34-44 | every recorded position is an occurrence of the mapping's source path, at or after the scan start, that opens a section, and it carries the mapping's class |
| `ThemeTransform.SectionStartsIncreasing` | web_packages/fluttron_milkdown/frontend/scripts/transform-theme-css.mjs:36-44 | positions are recorded in strictly increasing order, none before the scan start |
| `ThemeTransform.SectionStartsExact` | web_packages/fluttron_milkdown/frontend/scripts/transform-theme-css.mjs:36-44 | when the source path cannot overlap itself, a position is recorded exactly when it is an occurrence at or after the scan start that opens a section; resuming after an occurrence skips no other |
| `ThemeTransform.SectionStartsAdvance` | web_packages/fluttron_milkdown/frontend/scripts/transform-theme-css.mjs:36-44 | one turn of the inner loop moves the search forward and keeps "found so far + still to come" equal to the full scan |
| `ThemeTransform.MappingPatternNoSelfOverlap` | web_packages/fluttron_milkdown/frontend/scripts/transform-theme-css.mjs:23-28 | no mapping's source path can overlap itself |
| `ThemeTransform.MappingPatternsExclusive` | web_packages/fluttron_milkdown/frontend/scripts/transform-theme-css.mjs:23-28 | no two mappings' source paths occur at the same index |
| `ThemeTransform.AllPositionsExact` | web_packages/fluttron_milkdown/frontend/scripts/transform-theme-css.mjs:30-45 | the collected positions are exactly the section starts of the four themes |
| `ThemeTransform.CollectedDistinct` | web_packages/fluttron_milkdown/frontend/scripts/transform-theme-css.mjs:33-45 | no two collected positions share an index |
| `ThemeTransform.InsertDescending` | web_packages/fluttron_milkdown/frontend/scripts/transform-theme-css.mjs:48 | inserting into a descending sequence gives a permutation that stays descending, and strictly so when the indices are distinct |
| `ThemeTransform.SortDescending` | web_packages/fluttron_milkdown/frontend/scripts/transform-theme-css.mjs:48 | the sort returns a permutation of the positions in descending index order, strictly descending when the indices are distinct |
| `ThemeTransform.SectionsInDecreasingOrder` | web_packages/fluttron_milkdown/frontend/scripts/transform-theme-css.mjs:48-52 | the sections are transformed in strictly decreasing order of their start, each exactly once |
| `ThemeTransform.ApplySectionsStep` | web_packages/fluttron_milkdown/frontend/scripts/transform-theme-css.mjs:50-52 | one turn of the loop transforms the next section on the text the previous turns left |
| `ThemeTransform.ApplySectionsKeepsBefore` | web_packages/fluttron_milkdown/frontend/scripts/transform-theme-css.mjs:50-52 | transforming sections that all start at or after `n` leaves the text before `n` unchanged and never shortens the text |
| `ThemeTransform.ScopedContentKeepsBefore` | web_packages/fluttron_milkdown/frontend/scripts/transform-theme-css.mjs:30-55 | the text before the first section start comes through `transformCssContent` unchanged, and the output is never shorter than the input |
| `ThemeTransform.ScopedContentWithoutSections` | web_packages/fluttron_milkdown/frontend/scripts/transform-theme-css.mjs:30-55 | a stylesheet with no theme section comes through unchanged |
| `ThemeTransform.FindSectionStarts` | web_packages/fluttron_milkdown/frontend/scripts/transform-theme-css.mjs:34-44 | the `indexOf` loop records exactly the scan `SectionStarts` |
| `ThemeTransform.CollectThemePositions` | web_packages/fluttron_milkdown/frontend/scripts/transform-theme-css.mjs:30-45 | the outer loop collects the section starts of every mapping, in mapping order |
| `ThemeTransform.TransformCssContent` | web_packages/fluttron_milkdown/frontend/scripts/transform-theme-css.mjs:30-55 | `transformCssContent` returns the specification `ScopedContent`: the sorted sections transformed from the last to the first |
| `ThemeTransform.SectionScopesFinalRule` | web_packages/fluttron_milkdown/frontend/scripts/transform-theme-css.mjs:57-82 | a section whose only rule is the `.milkdown {}` ending the text, with no `{`, `}` or `_` in the text before it: when the guard of lines 69-76 does not find the class just before the rule, the transform puts `.<parentClass> ` in front of the rule and changes nothing else |
| `ThemeTransform.TransformNotIdempotent` | web_packages/fluttron_milkdown/frontend/scripts/transform-theme-css.mjs:30-82 | the corrected `transformCssContent` is not idempotent: on a stylesheet where the nord and the frame section reach the same rule, after a line break, the first run puts `.milkdown-theme-nord .milkdown-theme-frame ` in front of the rule, and a second run puts both classes in front of it once more |
| `ThemeTransform.PassAsWrittenScopesFinalRule` | web_packages/fluttron_milkdown/frontend/scripts/transform-theme-css.mjs:62-79 | with whitespace before a section's only rule, one pass of the loop as written (lines 78 and 105 uncorrected) scopes the rule exactly as the corrected pass does and resumes at the end of the text, where the loop ends |
| `ThemeTransform.AsWrittenPassesOnSheet` | web_packages/fluttron_milkdown/frontend/scripts/transform-theme-css.mjs:57-82 | on that stylesheet, each of the four section runs of the two runs is one such pass of the code as written, with the same text as the corrected run, so the code as written is not idempotent either |
| `ThemeFile.StylesFollowMappings` | web_packages/fluttron_milkdown/frontend/scripts/transform-theme-css.mjs:147-194 | the container styles have one block per mapping, for the same class, in the same order |
| `ThemeFile.BorderIsPrimary` | web_packages/fluttron_milkdown/frontend/scripts/transform-theme-css.mjs:154-192 | every theme's container border is drawn in that theme's primary colour |
| `ThemeFile.BlocksHold` | web_packages/fluttron_milkdown/frontend/scripts/transform-theme-css.mjs:153-193 | every block appears whole in the joined blocks |
| `ThemeFile.ContainerStylesCoverThemes` | web_packages/fluttron_milkdown/frontend/scripts/transform-theme-css.mjs:147-194 | the container styles contain `.<parentClass> {` for every mapping's class |
| `ThemeFile.RuleOpenerMatchesRulePattern` | web_packages/fluttron_milkdown/frontend/scripts/transform-theme-css.mjs:123 | every `.milkdown {` the section transform looks for is matched, 11 characters long, by `/\.milkdown\s*{/` |
| `ThemeFile.RunLengthIs` | web_packages/fluttron_milkdown/frontend/scripts/transform-theme-css.mjs:124 | the greedy class run ends exactly where its character class ends |
| `ThemeFile.ScopedMatchAsWrittenMissesHyphen` | web_packages/fluttron_milkdown/frontend/scripts/transform-theme-css.mjs:124 | as written, the count's `\w+` cannot match a rule scoped under a hyphenated class `milkdown-theme-<w>-<v>` |
| `ThemeFile.ScopedMatchCountsHyphen` | web_packages/fluttron_milkdown/frontend/scripts/transform-theme-css.mjs:124 | with `[\w-]+` the whole hyphenated class is the run, and the rule is matched |
| `ThemeFile.CountMatchesNone` | web_packages/fluttron_milkdown/frontend/scripts/transform-theme-css.mjs:123-124 | a global count finds nothing from an index when no match starts at or after it |
| `ThemeFile.HyphenatedScopedRulePrefixAtOne` | web_packages/fluttron_milkdown/frontend/scripts/transform-theme-css.mjs:124 | in the scoped rule `.milkdown-theme-<w>-<v> .milkdown {` the text `milkdown-theme-` occurs only at index 1 |
| `ThemeFile.HyphenatedScopedCounts` | web_packages/fluttron_milkdown/frontend/scripts/transform-theme-css.mjs:124 | on the scoped rule of any hyphenated class, the count as written is 0 while the corrected count is 1 |
| `ThemeFile.FrameDarkCounts` | web_packages/fluttron_milkdown/frontend/scripts/transform-theme-css.mjs:124 | the frame-dark theme's scoped rule counts 0 as written and 1 corrected |
| `ThemeFile.FrameDarkScopedRule` | web_packages/fluttron_milkdown/frontend/scripts/transform-theme-css.mjs:124 | the frame-dark theme's scoped rule is missed as written and matched with `[\w-]+` |
| `ThemeFile.TransformedFileGrows` | web_packages/fluttron_milkdown/frontend/scripts/transform-theme-css.mjs:129-130 | the file step is not idempotent: a second run appends the container styles again and makes the file longer |
| `ThemeFile.TransformedFileShape` | web_packages/fluttron_milkdown/frontend/scripts/transform-theme-css.mjs:121-130 | the transformed file starts with the scoped content and ends with the container styles |
| `ThemeFile.FileStore.TransformThemeCss` | web_packages/fluttron_milkdown/frontend/scripts/transform-theme-css.mjs:108-145 | see below |
| `Editor.NormalizeConfigCases` | web_packages/fluttron_milkdown/frontend/src/main.js:67-93 | see below |
| `Editor.NormalizeIsIdempotent` | web_packages/fluttron_milkdown/frontend/src/main.js:67-93 | normalising a normalised record, passed back as an object, gives the same record |
| `Editor.FlagHasDefault` | web_packages/fluttron_milkdown/frontend/src/main.js:12-33 | every engine feature's flag is among the defaults, and it is `true` there |
| `Editor.CrepeFeatureFollowsFlag` | web_packages/fluttron_milkdown/frontend/src/main.js:95-106 | every engine feature gets a switch, and the switch is off exactly when its flag is the value `false` |
| `Editor.FeatureOffOnlyWhenFalse` | web_packages/fluttron_milkdown/frontend/src/main.js:84-106 | after normalisation a feature is off exactly when the configuration object's `features` sets its flag to `false` |
| `Editor.ClearThemeClasses` | web_packages/fluttron_milkdown/frontend/src/main.js:108-115 | the loop removes the six theme classes and keeps every other class |
| `Editor.ApplyTheme` | web_packages/fluttron_milkdown/frontend/src/main.js:117-120 | afterwards `milkdown-theme-frame` is the only theme class, whatever the theme name, and the other classes are as before |
| `Editor.ThemedClassesDetermined` | web_packages/fluttron_milkdown/frontend/src/main.js:117-120 | the two postconditions of `ApplyTheme` fix the new class set: the old non-theme classes plus `milkdown-theme-frame`, whatever theme classes were there before, so applying a theme twice gives the same classes as applying it once |
| `Editor.FirstWithClass` | web_packages/fluttron_milkdown/frontend/src/main.js:137 | the lookup returns the first child that carries the mount class, or none when no child does |
| `Editor.ConsistentAfterDestroy` | web_packages/fluttron_milkdown/frontend/src/main.js:122-132 | removing an entry and logging its destroy keeps every registered engine the last one constructed for its id |
| `Editor.ConsistentAfterConstruct` | web_packages/fluttron_milkdown/frontend/src/main.js:141-145 | constructing an engine for an unregistered id keeps the registry consistent, and that engine becomes the id's last call |
| `Editor.ConsistentAfterRegister` | web_packages/fluttron_milkdown/frontend/src/main.js:162 | registering the engine constructed last for an id keeps the registry consistent |
| `Editor.DestroyedIsUnregistered` | web_packages/fluttron_milkdown/frontend/src/main.js:122-132 | an id whose last engine call was a destroy is not registered |
| `Editor.EditorRegistry.constructor` | web_packages/fluttron_milkdown/frontend/src/main.js:35 | the registry starts empty and consistent |
| `Editor.EditorRegistry.DestroyEditor` | web_packages/fluttron_milkdown/frontend/src/main.js:122-132 | see below |
| `Editor.EditorRegistry.InitializeCrepeEditor` | web_packages/fluttron_milkdown/frontend/src/main.js:134-168 | see below |
| `Editor.EditorRegistry.Register` | web_packages/fluttron_milkdown/frontend/src/main.js:159-167 | the forwarders are added to the mount, the instance is registered, the theme is applied, and a ready event then a change event are appended |
| `Editor.EditorRegistry.StartView` | web_packages/fluttron_milkdown/frontend/src/main.js:196-203 | the engine-call log gains a destroy for a registered id and then one construct; a rejected initialisation is rendered into the mount as the error markup, and nothing else changes |
| `Editor.EditorRegistry.CreateMilkdownEditorView` | web_packages/fluttron_milkdown/frontend/src/main.js:171-206 | see below |
| `Editor.NewView` | web_packages/fluttron_milkdown/frontend/src/main.js:174-194 | two fresh elements: a container with the view's id, the class `fluttron-milkdown`, its style and the mount as its only child; a mount with its class and style, found by the mount lookup |
| `Editor.ContainerClassIsNoTheme` | web_packages/fluttron_milkdown/frontend/src/main.js:176 | `fluttron-milkdown` is not a theme class, so applying a theme keeps it |
| `Editor.ContainerIdsDistinct` | web_packages/fluttron_milkdown/frontend/src/main.js:175 | two views never share a container id |
| `Editor.ErrorHtmlShowsMessage` | web_packages/fluttron_milkdown/frontend/src/main.js:198-202 | the failure markup contains the error's message |

Contracts too long for a table cell:

- `ThemeFile.FileStore.TransformThemeCss` has three cases.
  - **Read fails** (no such file): it rejects with the read error, and the files are
    unchanged.
  - **Write fails** (the path is unwritable): it rejects with the write error, and the
    files are unchanged.
  - **Otherwise:** the file becomes the scoped content, two newlines and the
    container styles. The result holds two counts:
    - the count of `.milkdown` rules on the text as read;
    - the count of scoped rules on the scoped text before the styles are appended.
- `Editor.NormalizeConfigCases` covers each shape of configuration.
  - **A string** becomes the initial markdown, with theme `frame`, not read-only, and
    the default features.
  - **`null`, `undefined` and every other non-object** (a number, a boolean, a
    function) give the same defaults with empty markdown.
  - **An object:**
    - the markdown and the theme are taken only when they are strings, and any
      string theme is kept;
    - `readonly` is true exactly when the object's `readonly` is the value `true`;
    - the features are the defaults overridden key by key by the object's `features`,
      when that is a non-null object.
- `Editor.EditorRegistry.DestroyEditor`: an unknown id changes nothing. A known id has
  a destroy call logged and its entry removed, whether `destroy()` resolves or
  rejects. The id is then unregistered, so calling it again changes nothing.
  The registry stays consistent.
- `Editor.EditorRegistry.InitializeCrepeEditor`, in order:
  1. The old entry, if any, is destroyed.
  2. Then the new engine is constructed, from the mount lookup's result, the initial
     markdown and the mapped features.
  3. The call resolves exactly when `create()` resolves and the mount was found.
  4. On success:
     - the instance (engine with its read-only flag, container, theme) is registered;
     - the view id is added to the mount's focus and blur forwarders, and the
       container's other children keep theirs;
     - the frame theme class is applied;
     - exactly one ready event and then one change event carrying the initial
       markdown are appended.
  5. On failure:
     - the id stays unregistered;
     - the container's classes, the mount's forwarders and the event log are
       unchanged;
     - the rejection is the one from `create()`, or the browser's `null` error when
       no mount was found.
- `Editor.EditorRegistry.CreateMilkdownEditorView` logs a destroy call when the id was
  registered, then one construct call, whatever the outcome. It returns a fresh container whatever
  the configuration: id `fluttron-milkdown-<viewId>`, its style, and exactly one fresh
  mount child carrying the mount class and style.
  - **Once initialisation succeeds:**
    - the container's classes are `fluttron-milkdown` and `milkdown-theme-frame`;
    - the normalised configuration is registered for the id;
    - the ready event and then the change event are appended.
  - **Once it fails:** the error's message is rendered inside the mount, the container
    keeps only `fluttron-milkdown`, and the id is unregistered.

## Left out

- Console output, `process.argv` handling and `process.exit` (transform-theme-css.mjs:196-201) are I/O and are not modelled.
- The file system is a map from path to contents, with a set of paths whose write throws. The default path `CSS_FILE_PATH`, resolved from the module's own location (transform-theme-css.mjs:18-20), is replaced by the `path` parameter.
- The counts are returned as a value: their logging is not modelled. The value holds the corrected scoped count (the `ScopedCount` of `[\w-]+`, see Findings).
- `ThemeCss.TransformThemeSection`: models the loop with line 78 corrected (the scan stops when no `}` follows the match) and line 105 corrected (the text before the rule is kept); the code as written is modelled beside it (`ThemeCss.SectionStepAsWritten`, `ThemeCss.ScopeRuleAsWritten`), see Findings.
- `ThemeCss.ScopeMilkdownRule`: models line 105 corrected (the text before the whitespace run is kept); the code as written is `ThemeCss.ScopeRuleAsWritten`, see Findings.
- `ThemeCss.SectionPass`: models one pass with lines 78 and 105 corrected; the code as written is `ThemeCss.SectionStepAsWritten` with `ThemeCss.RewriteAsWritten`, see Findings.
- `ThemeTransform.TransformCssContent`: returns the content of the corrected section transform of lines 78 and 105, not the code as written; see Findings.
- `ThemeFile.FileStore.TransformThemeCss`: writes the corrected content of lines 78 and 105 and returns the corrected scoped count of line 124; see Findings.
- JavaScript indexes strings by UTF-16 code units, the model by characters. The 200-unit window after a source path (transform-theme-css.mjs:39) and the guard window before a match (transform-theme-css.mjs:70) are counted in characters, so they differ from the code's when the stylesheet holds characters outside the Basic Multilingual Plane. `characterCount` (events.js:20) is counted in code units (`JsText.Utf16Length`).
- `JsText.IntToString`: gives the plain decimal digits of every integer; JavaScript switches to exponent notation from 1e21 on, and view ids never get that large.
- `ThemeTransform.TransformCssContent`: no idempotence is claimed for the whole file. Each section transform is idempotent (`ThemeCss.ThemeSectionIdempotent`). The whole transform is not: when two sections reach the same rule, a second run scopes it under both classes again. `ThemeTransform.TransformNotIdempotent` proves this for the corrected transform on `ThemeTransform.SharedRuleSheet`. On that sheet every section run is a single pass that the code as written takes identically (`ThemeTransform.AsWrittenPassesOnSheet`), so the code as written behaves the same there.
- `ThemeCss.ThemeSectionScopesAll`: proved for a section that a `/* node_modules` comment follows, whose rules close before that comment and do not nest. It says nothing about the last section of a file, which no such comment follows. It also says nothing about a `.milkdown {` that starts inside another rule before that rule's first `}`: the scan resumes after that `}` and skips it.
- The Crepe engine (`@milkdown/crepe`) is a foreign library. An engine is the record of what it was constructed with. Whether `create()` and `destroy()` resolve or reject is a parameter. What the engine draws into the mount, and the classes it adds there, are not modelled.
- Engine-driven change events after initialisation are not modelled: the `markdownUpdated` listener (main.js:153-157). Neither are the focus and blur events themselves (main.js:159-160). The model records which view ids have forwarders on the mount. As in the code, re-initialising a view on the same mount adds a second forwarder, which is never removed.
- The clock is a parameter: `new Date().toISOString()` (events.js:23, main.js:44).
- `main.js` keeps its own copies of the four emitters (main.js:37-65). They build the same payloads as events.js, so the registry uses the `Events` functions.
- Asynchronous interleaving is not modelled. Each operation runs to its end before the next starts. `createMilkdownEditorView` returns its container synchronously while initialisation goes on in the background; the model states the state once initialisation has settled. Two overlapping initialisations for the same id are not modelled.
- `Editor.FirstWithClass`: `querySelector` searches all descendants, but the model searches only the container's direct children, which is where `createMilkdownEditorView` puts the mount.
- JavaScript values are modelled as a datatype whose objects are their own enumerable properties. Arrays, which `typeof` also calls objects, are the object of their indices. Prototype properties and getters are not modelled. Numbers are integers; which number a flag holds does not matter, because only `typeof` and `!== false` look at it.
- `error.message` of a non-`Error` rejection, and `console.error` on an initialisation failure (main.js:197), are not modelled.
- The null-mount rejection message is the text a V8-based browser gives. Other engines word it differently.
- `applyTheme` ignores its `themeName` argument, so every view gets `milkdown-theme-frame` (main.js:117-120). The model follows the code. A design that applies the requested theme, or validates theme names, is not what the code does.

## Findings

| source | as written | input that shows it | evidently intended | confidence | as-written member | corrected member |
|---|---|---|---|---|---|---|
| web_packages/fluttron_milkdown/frontend/scripts/transform-theme-css.mjs:78 | `currentIndex = transformedCss.indexOf('}', nextMilkdown) + 1` sets the index back to 0 when no `}` follows the match. The scan then restarts from the top of the stylesheet. If a `/* node_modules` comment at index 1 or later comes before the first `.milkdown {`, the loop ends there. Otherwise the earlier rules are scoped under this section's class. When the match is already scoped and the first `.milkdown {` of the text, the same pass repeats forever | the section `.milkdown-theme-frame .milkdown {` scanned from 0 under `milkdown-theme-frame` | stop scanning the section when no `}` follows | not executed | `ThemeCss.AsWrittenLoopRepeats` | `ThemeCss.CorrectedLoopStops` |
| web_packages/fluttron_milkdown/frontend/scripts/transform-theme-css.mjs:105 | `beforeRule.slice(0, -whitespace.length)` is `slice(0, -0)`, the empty string, when no whitespace precedes the rule, so all the text before the rule is lost | `p,.milkdown {}` with the rule at index 2 | keep the text before the whitespace run (`beforeRule.slice(0, beforeRule.length - whitespace.length)`) | not executed | `ThemeCss.ScopeRuleAsWrittenLosesPrefix` | `ThemeCss.ScopeRuleInserts` |
| web_packages/fluttron_milkdown/frontend/scripts/transform-theme-css.mjs:124 | `/milkdown-theme-\w+ \.milkdown/g` cannot match the hyphenated classes `milkdown-theme-frame-dark` and `milkdown-theme-nord-dark`, so the scoped count leaves out the rules of both dark themes | `.milkdown-theme-frame-dark .milkdown {` | count every scoped rule, with `[\w-]+` for the class | not executed | `ThemeFile.HyphenatedScopedCounts` | `ThemeFile.ScopedMatchCountsHyphen` |
