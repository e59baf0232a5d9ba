/**
 * `transformCssContent` of
 * web_packages/fluttron_milkdown/frontend/scripts/transform-theme-css.mjs:
 * locating the theme sections of the bundled stylesheet through
 * `THEME_MAPPINGS`, ordering them from the last to the first, and scoping each
 * one under its theme's parent class.
 */
module ThemeTransform {
  import opened JsText
  import opened ThemeCss

  // ---------------------------------------------------------------------------
  // Locating the theme sections (lines 30-45)

  /** An entry of `themePositions`: where a theme's section starts and the class it is scoped under. */
  datatype ThemePosition = ThemePosition(index: nat, parentClass: string)

  /** The number of characters after a source path searched for the end of its comment. */
  const CommentWindow: nat := 200

  /**
   * The source path at `i` is followed within 200 characters by the end of a
   * comment (see `IsSectionCommentIsIncludes` for the source's own wording).
   */
  predicate IsSectionComment(css: string, i: int) {
    0 <= i <= |css| && ClosesComment(css[i..Min(i + CommentWindow, |css|)])
  }

  /** `w` holds `*` immediately followed by `/`. */
  predicate ClosesComment(w: string) {
    |w| >= 2 && ((w[0] == '*' && w[1] == '/') || ClosesComment(w[1..]))
  }

  /** `ClosesComment` is `includes` of the two-character comment terminator. */
  lemma {:induction false} ClosesCommentIsIncludes(w: string)
    ensures ClosesComment(w) <==> Includes(w, "*/")
  {
    if |w| >= 2 {
      ClosesCommentIsIncludes(w[1..]);
      if w[0] == '*' && w[1] == '/' {
        assert At(w, "*/", 0);
      } else if ClosesComment(w[1..]) {
        var j :| At(w[1..], "*/", j);
        assert w[j + 1..j + 3] == w[1..][j..j + 2];
        assert At(w, "*/", j + 1);
      }
      if Includes(w, "*/") {
        var j :| At(w, "*/", j);
        if j > 0 {
          assert w[1..][j - 1..j + 1] == w[j..j + 2];
          assert At(w[1..], "*/", j - 1);
        }
      }
    }
  }

  /** The test of lines 39-40: `css.substring(i, i + 200).includes('*' + '/')`. */
  lemma IsSectionCommentIsIncludes(css: string, i: nat)
    requires i <= |css|
    ensures IsSectionComment(css, i) <==> Includes(Substring(css, i, i + CommentWindow), "*/")
  {
    assert Substring(css, i, i + CommentWindow) == css[i..Min(i + CommentWindow, |css|)];
    ClosesCommentIsIncludes(css[i..Min(i + CommentWindow, |css|)]);
  }

  /** No suffix of `pat` is also a prefix of it, so two occurrences never overlap. */
  predicate NoSelfOverlap(pat: string) {
    forall d :: 0 < d < |pat| ==> pat[d..] != pat[..|pat| - d]
  }

  /**
   * The positions the inner loop of lines 34-44 records for one mapping, stated as
   * a scan of the text from `pos`: an occurrence of the source path followed within
   * the window by the end of a comment is recorded, and the scan resumes after the
   * occurrence; anywhere else the scan moves on by one character. `FindSectionStarts`
   * is proved to compute it with `indexOf`.
   */
  function SectionStarts(css: string, mapping: ThemeMapping, pos: nat): seq<ThemePosition>
    requires |mapping.sourcePattern| > 0 && pos <= |css|
    decreases |css| - pos
  {
    var pat := mapping.sourcePattern;
    if pos + |pat| > |css| then []
    else if At(css, pat, pos) then
      (if IsSectionComment(css, pos) then [ThemePosition(pos, mapping.parentClass)] else [])
        + SectionStarts(css, mapping, pos + |pat|)
    else SectionStarts(css, mapping, pos + 1)
  }

  lemma SectionStartsEnd(css: string, mapping: ThemeMapping, pos: nat)
    requires |mapping.sourcePattern| > 0 && pos <= |css| && pos + |mapping.sourcePattern| > |css|
    ensures SectionStarts(css, mapping, pos) == []
  {
  }

  lemma SectionStartsHit(css: string, mapping: ThemeMapping, pos: nat)
    requires |mapping.sourcePattern| > 0 && At(css, mapping.sourcePattern, pos) && IsSectionComment(css, pos)
    ensures SectionStarts(css, mapping, pos)
      == [ThemePosition(pos, mapping.parentClass)] + SectionStarts(css, mapping, pos + |mapping.sourcePattern|)
  {
  }

  lemma SectionStartsMiss(css: string, mapping: ThemeMapping, pos: nat)
    requires |mapping.sourcePattern| > 0 && At(css, mapping.sourcePattern, pos) && !IsSectionComment(css, pos)
    ensures SectionStarts(css, mapping, pos) == SectionStarts(css, mapping, pos + |mapping.sourcePattern|)
  {
  }

  lemma SectionStartsSkip(css: string, mapping: ThemeMapping, pos: nat)
    requires |mapping.sourcePattern| > 0 && pos < |css| && !At(css, mapping.sourcePattern, pos)
    ensures SectionStarts(css, mapping, pos) == SectionStarts(css, mapping, pos + 1)
  {
  }

  /** A stretch holding no occurrence adds nothing. */
  lemma {:induction false} SectionStartsSkipTo(css: string, mapping: ThemeMapping, pos: nat, i: nat)
    requires |mapping.sourcePattern| > 0 && pos <= i <= |css|
    requires forall j :: pos <= j < i ==> !At(css, mapping.sourcePattern, j)
    ensures SectionStarts(css, mapping, pos) == SectionStarts(css, mapping, i)
    decreases i - pos
  {
    if pos < i {
      SectionStartsSkip(css, mapping, pos);
      SectionStartsSkipTo(css, mapping, pos + 1, i);
    }
  }

  /**
   * Every recorded position is an occurrence of the source path at or after `pos`
   * that opens a section, under the mapping's class.
   */
  lemma {:induction false} SectionStartsSound(css: string, mapping: ThemeMapping, pos: nat)
    requires |mapping.sourcePattern| > 0 && pos <= |css|
    ensures forall q :: q in SectionStarts(css, mapping, pos) ==>
      && q.parentClass == mapping.parentClass && pos <= q.index
      && At(css, mapping.sourcePattern, q.index) && IsSectionComment(css, q.index)
    decreases |css| - pos
  {
    var pat := mapping.sourcePattern;
    if pos + |pat| > |css| {
      SectionStartsEnd(css, mapping, pos);
    } else if At(css, pat, pos) {
      SectionStartsSound(css, mapping, pos + |pat|);
      if IsSectionComment(css, pos) {
        SectionStartsHit(css, mapping, pos);
      } else {
        SectionStartsMiss(css, mapping, pos);
      }
    } else {
      SectionStartsSound(css, mapping, pos + 1);
      SectionStartsSkip(css, mapping, pos);
    }
  }

  /** Positions in strictly increasing order of index. */
  predicate Increasing(ps: seq<ThemePosition>) {
    forall i, j :: 0 <= i < j < |ps| ==> ps[i].index < ps[j].index
  }

  /** `ps` is increasing and none of its indices is below `bound`. */
  predicate IncreasingFrom(ps: seq<ThemePosition>, bound: int) {
    Increasing(ps) && forall k :: 0 <= k < |ps| ==> bound <= ps[k].index
  }

  /** The scan records positions from left to right, none before `pos`. */
  lemma {:induction false} SectionStartsIncreasing(css: string, mapping: ThemeMapping, pos: nat)
    requires |mapping.sourcePattern| > 0 && pos <= |css|
    ensures IncreasingFrom(SectionStarts(css, mapping, pos), pos)
    decreases |css| - pos
  {
    var pat := mapping.sourcePattern;
    if pos + |pat| > |css| {
      SectionStartsEnd(css, mapping, pos);
    } else if At(css, pat, pos) {
      var next := pos + |pat|;
      var rest := SectionStarts(css, mapping, next);
      assert IncreasingFrom(rest, next) by {
        SectionStartsIncreasing(css, mapping, next);
      }
      if IsSectionComment(css, pos) {
        SectionStartsHit(css, mapping, pos);
        ConsIncreasing(ThemePosition(pos, mapping.parentClass), rest, next);
      } else {
        SectionStartsMiss(css, mapping, pos);
        IncreasingFromLower(rest, next, pos);
      }
    } else {
      var rest := SectionStarts(css, mapping, pos + 1);
      assert IncreasingFrom(rest, pos + 1) by {
        SectionStartsIncreasing(css, mapping, pos + 1);
      }
      SectionStartsSkip(css, mapping, pos);
      IncreasingFromLower(rest, pos + 1, pos);
    }
  }

  lemma IncreasingFromLower(ps: seq<ThemePosition>, bound: int, lower: int)
    requires IncreasingFrom(ps, bound) && lower <= bound
    ensures IncreasingFrom(ps, lower)
  {
  }

  lemma ConsIncreasing(p: ThemePosition, rest: seq<ThemePosition>, bound: nat)
    requires IncreasingFrom(rest, bound) && p.index < bound
    ensures IncreasingFrom([p] + rest, p.index)
  {
    var ps := [p] + rest;
    forall i, j | 0 <= i < j < |ps|
      ensures ps[i].index < ps[j].index
    {
      assert ps[j] == rest[j - 1];
      if i > 0 {
        assert ps[i] == rest[i - 1];
      }
    }
    assert forall k :: 0 < k < |ps| ==> ps[k] == rest[k - 1];
  }

  /** `k` is recorded by the scan from `pos` exactly when it is an occurrence there that opens a section. */
  predicate RecordedExactly(css: string, mapping: ThemeMapping, pos: nat, k: nat)
    requires |mapping.sourcePattern| > 0 && pos <= |css|
  {
    ThemePosition(k, mapping.parentClass) in SectionStarts(css, mapping, pos) <==>
      pos <= k && At(css, mapping.sourcePattern, k) && IsSectionComment(css, k)
  }

  /**
   * When the source path cannot overlap itself, the positions recorded from `pos`
   * are exactly the occurrences at or after it that open a section: resuming after
   * an occurrence skips no other occurrence.
   */
  lemma {:induction false} SectionStartsExact(css: string, mapping: ThemeMapping, pos: nat, k: nat)
    requires |mapping.sourcePattern| > 0 && pos <= |css| && NoSelfOverlap(mapping.sourcePattern)
    ensures RecordedExactly(css, mapping, pos, k)
    decreases |css| - pos
  {
    var pat := mapping.sourcePattern;
    if k < pos || pos + |pat| > |css| {
      SectionStartsOutside(css, mapping, pos, k);
    } else if At(css, pat, pos) {
      if k < pos + |pat| {
        SectionStartsAtOccurrence(css, mapping, pos, k);
      } else {
        SectionStartsExact(css, mapping, pos + |pat|, k);
        SectionStartsPastOccurrence(css, mapping, pos, k);
      }
    } else if k == pos {
      SectionStartsNotHere(css, mapping, pos);
    } else {
      SectionStartsExact(css, mapping, pos + 1, k);
      SectionStartsPastSkip(css, mapping, pos, k);
    }
  }

  /** Before the scan position, or once no occurrence fits, nothing is recorded and nothing qualifies. */
  lemma SectionStartsOutside(css: string, mapping: ThemeMapping, pos: nat, k: nat)
    requires |mapping.sourcePattern| > 0 && pos <= |css|
    requires k < pos || pos + |mapping.sourcePattern| > |css|
    ensures RecordedExactly(css, mapping, pos, k)
  {
    SectionStartsSound(css, mapping, pos);
  }

  /** Where the scan stands at a non-occurrence, that position is not recorded. */
  lemma SectionStartsNotHere(css: string, mapping: ThemeMapping, pos: nat)
    requires |mapping.sourcePattern| > 0 && pos + |mapping.sourcePattern| <= |css|
    requires !At(css, mapping.sourcePattern, pos)
    ensures RecordedExactly(css, mapping, pos, pos)
  {
    SectionStartsSkip(css, mapping, pos);
    SectionStartsSound(css, mapping, pos + 1);
  }

  /** Within an occurrence the scan stands at, only the occurrence itself can be recorded. */
  lemma SectionStartsAtOccurrence(css: string, mapping: ThemeMapping, pos: nat, k: nat)
    requires |mapping.sourcePattern| > 0 && NoSelfOverlap(mapping.sourcePattern)
    requires At(css, mapping.sourcePattern, pos) && pos <= k < pos + |mapping.sourcePattern|
    ensures RecordedExactly(css, mapping, pos, k)
  {
    var pat := mapping.sourcePattern;
    var q := ThemePosition(k, mapping.parentClass);
    assert q !in SectionStarts(css, mapping, pos + |pat|) by {
      SectionStartsSound(css, mapping, pos + |pat|);
    }
    assert pos < k ==> !At(css, pat, k) by {
      if pos < k {
        NoOccurrenceInside(css, pat, pos, k);
      }
    }
    if IsSectionComment(css, pos) {
      SectionStartsHit(css, mapping, pos);
      var here := ThemePosition(pos, mapping.parentClass);
      assert q in [here] + SectionStarts(css, mapping, pos + |pat|) <==> q == here;
    } else {
      SectionStartsMiss(css, mapping, pos);
    }
  }

  /** Past an occurrence the scan stands at, recording is decided by the rest of the scan. */
  lemma SectionStartsPastOccurrence(css: string, mapping: ThemeMapping, pos: nat, k: nat)
    requires |mapping.sourcePattern| > 0 && At(css, mapping.sourcePattern, pos)
    requires pos + |mapping.sourcePattern| <= k
    requires RecordedExactly(css, mapping, pos + |mapping.sourcePattern|, k)
    ensures RecordedExactly(css, mapping, pos, k)
  {
    if IsSectionComment(css, pos) {
      SectionStartsHit(css, mapping, pos);
      assert ThemePosition(k, mapping.parentClass) != ThemePosition(pos, mapping.parentClass);
    } else {
      SectionStartsMiss(css, mapping, pos);
    }
  }

  /** Past a non-occurrence the scan stands at, recording is decided by the rest of the scan. */
  lemma SectionStartsPastSkip(css: string, mapping: ThemeMapping, pos: nat, k: nat)
    requires |mapping.sourcePattern| > 0 && pos < k && pos < |css| && !At(css, mapping.sourcePattern, pos)
    requires RecordedExactly(css, mapping, pos + 1, k)
    ensures RecordedExactly(css, mapping, pos, k)
  {
    SectionStartsSkip(css, mapping, pos);
  }

  /** With no occurrence left from `searchStart`, nothing is recorded. */
  lemma SectionStartsExhausted(css: string, mapping: ThemeMapping, searchStart: nat)
    requires |mapping.sourcePattern| > 0 && searchStart <= |css|
    requires IndexOf(css, mapping.sourcePattern, searchStart) == -1
    ensures SectionStarts(css, mapping, searchStart) == []
  {
    SectionStartsSkipTo(css, mapping, searchStart, |css|);
    SectionStartsEnd(css, mapping, |css|);
  }

  /**
   * One turn of the inner loop of lines 36-44: the positions recorded so far
   * followed by those still to come stay the same when the search moves past the
   * occurrence `indexOf` found, recording it when the window after it holds `*`+`/`.
   */
  lemma SectionStartsAdvance(css: string, mapping: ThemeMapping, searchStart: nat, found: seq<ThemePosition>,
                             i: int, closes: bool, found': seq<ThemePosition>, next: nat)
    requires |mapping.sourcePattern| > 0 && searchStart <= |css|
    requires found + SectionStarts(css, mapping, searchStart) == SectionStarts(css, mapping, 0)
    requires i == IndexOf(css, mapping.sourcePattern, searchStart) && i != -1
    requires closes == Includes(Substring(css, i, i + CommentWindow), "*/")
    requires found' == if closes then found + [ThemePosition(i, mapping.parentClass)] else found
    requires next == i + |mapping.sourcePattern|
    ensures searchStart < next <= |css|
    ensures found' + SectionStarts(css, mapping, next) == SectionStarts(css, mapping, 0)
  {
    SectionStartsSkipTo(css, mapping, searchStart, i);
    IsSectionCommentIsIncludes(css, i);
    var rest := SectionStarts(css, mapping, next);
    if closes {
      var here := ThemePosition(i, mapping.parentClass);
      SectionStartsHit(css, mapping, i);
      SeqAssoc(found, [here], rest);
      assert found' + rest == found + SectionStarts(css, mapping, i);
    } else {
      SectionStartsMiss(css, mapping, i);
      assert found' + rest == found + SectionStarts(css, mapping, i);
    }
  }

  lemma SeqAssoc<T>(a: seq<T>, b: seq<T>, c: seq<T>)
    ensures a + (b + c) == (a + b) + c
  {
  }

  lemma NoOccurrenceInside(css: string, pat: string, i: nat, k: nat)
    requires NoSelfOverlap(pat) && At(css, pat, i) && i < k < i + |pat|
    ensures !At(css, pat, k)
  {
    if At(css, pat, k) {
      OverlapIsBorder(css, pat, i, k);
      assert false;
    }
  }

  /** Two occurrences of a pattern that overlap: the overlap is both a suffix and a prefix of it. */
  lemma OverlapIsBorder(css: string, pat: string, i: nat, j: nat)
    requires i < j < i + |pat| && At(css, pat, i) && At(css, pat, j)
    ensures pat[j - i..] == pat[..|pat| - (j - i)]
  {
    assert pat[j - i..] == css[i..i + |pat|][j - i..] == css[j..i + |pat|];
    assert pat[..|pat| - (j - i)] == css[j..j + |pat|][..|pat| - (j - i)] == css[j..i + |pat|];
  }

  /** A source path whose theme name has no `/` and does not start with `t` cannot overlap itself. */
  lemma ThemePathNoSelfOverlap(name: string)
    requires |name| > 0 && '/' !in name && name[0] != 't'
    ensures NoSelfOverlap(ThemePath(name))
  {
    var pat := ThemePath(name);
    var tail := "/style.css";
    forall d | 0 < d < |pat|
      ensures pat[d..] != pat[..|pat| - d]
    {
      if d < 7 {
        assert pat[d] == "/theme/"[d];
        if d < 6 {
          assert d == 1 || d == 2 || d == 3 || d == 4 || d == 5;
          assert pat[d..][0] != pat[..|pat| - d][0];
        } else {
          assert pat[d..][1] == name[0];
          assert pat[..|pat| - d][1] == 't';
        }
      } else if d < 7 + |name| {
        assert pat[d] == name[d - 7];
        assert pat[d..][0] != pat[..|pat| - d][0];
      } else if d == 7 + |name| {
        assert pat[d..][1] == 's';
        assert pat[..|pat| - d][1] == 't';
      } else {
        assert pat[d] == tail[d - 7 - |name|];
        assert forall k :: 1 <= k < |tail| ==> tail[k] != '/';
        assert pat[d..][0] != pat[..|pat| - d][0];
      }
    }
  }

  lemma ThemeNameShape(t: nat)
    requires t < |ThemeNames|
    ensures |ThemeNames[t]| > 0 && '/' !in ThemeNames[t] && ThemeNames[t][0] != 't'
  {
  }

  /** Each mapping's source path is a theme path that cannot overlap itself. */
  lemma MappingPatternNoSelfOverlap(t: nat)
    requires t < |THEME_MAPPINGS|
    ensures |THEME_MAPPINGS[t].sourcePattern| > 0 && NoSelfOverlap(THEME_MAPPINGS[t].sourcePattern)
  {
    MappingsOfThemeNames();
    ThemeNameShape(t);
    ThemePathNoSelfOverlap(ThemeNames[t]);
  }

  /** Two patterns that differ at a position both reach cannot occur at the same index. */
  lemma DifferentPatternsApart(css: string, a: string, b: string, i: nat, p: nat)
    requires p < |a| && p < |b| && a[p] != b[p]
    ensures !(At(css, a, i) && At(css, b, i))
  {
  }

  /** No two mappings' source paths occur at the same index. */
  lemma MappingPatternsExclusive(css: string, s: nat, t: nat, i: nat)
    requires s < t < |THEME_MAPPINGS|
    ensures !(At(css, THEME_MAPPINGS[s].sourcePattern, i) && At(css, THEME_MAPPINGS[t].sourcePattern, i))
  {
    var a, b := THEME_MAPPINGS[s].sourcePattern, THEME_MAPPINGS[t].sourcePattern;
    if s == 0 && t == 1 {
      assert a[12] != b[12];
      DifferentPatternsApart(css, a, b, i, 12);
    } else if s == 2 && t == 3 {
      assert a[11] != b[11];
      DifferentPatternsApart(css, a, b, i, 11);
    } else {
      assert a[7] != b[7];
      DifferentPatternsApart(css, a, b, i, 7);
    }
  }

  /** `q` is a section start of mapping `t`: its source path occurs at `q.index`, followed by the end of a comment. */
  predicate SectionOf(css: string, q: ThemePosition, t: int) {
    && 0 <= t < |THEME_MAPPINGS|
    && q.parentClass == THEME_MAPPINGS[t].parentClass
    && At(css, THEME_MAPPINGS[t].sourcePattern, q.index)
    && IsSectionComment(css, q.index)
  }

  /** The positions collected for the first `n` mappings, in the order the outer loop visits them. */
  function Collected(css: string, n: nat): seq<ThemePosition>
    requires n <= |THEME_MAPPINGS|
  {
    if n == 0 then [] else Collected(css, n - 1) + SectionStarts(css, THEME_MAPPINGS[n - 1], 0)
  }

  lemma CollectedNext(css: string, n: nat)
    requires n < |THEME_MAPPINGS|
    ensures Collected(css, n + 1) == Collected(css, n) + SectionStarts(css, THEME_MAPPINGS[n], 0)
  {
  }

  /** Every position collected for the first `n` mappings is a section start of one of them. */
  lemma {:induction false} CollectedAreSections(css: string, n: nat)
    requires n <= |THEME_MAPPINGS|
    ensures forall q :: q in Collected(css, n) ==> exists t :: 0 <= t < n && SectionOf(css, q, t)
  {
    if n > 0 {
      CollectedAreSections(css, n - 1);
      MappingPatternNoSelfOverlap(n - 1);
      SectionStartsSound(css, THEME_MAPPINGS[n - 1], 0);
      var starts := SectionStarts(css, THEME_MAPPINGS[n - 1], 0);
      assert forall q :: q in starts ==> SectionOf(css, q, n - 1);
    }
  }

  /** All the positions lines 30-45 collect. */
  function AllPositions(css: string): seq<ThemePosition> {
    Collected(css, |THEME_MAPPINGS|)
  }

  /** The scan of mapping `t` over the whole text records exactly its section starts. */
  lemma MappingStartsExact(css: string, t: nat, q: ThemePosition)
    requires t < |THEME_MAPPINGS|
    ensures q in SectionStarts(css, THEME_MAPPINGS[t], 0) <==> SectionOf(css, q, t)
  {
    var mapping := THEME_MAPPINGS[t];
    MappingPatternNoSelfOverlap(t);
    SectionStartsExact(css, mapping, 0, q.index);
    SectionStartsSound(css, mapping, 0);
    if SectionOf(css, q, t) {
      assert q == ThemePosition(q.index, mapping.parentClass);
    }
  }

  /** A position is collected for one of the first `n` mappings exactly when it is a section start of one of them. */
  lemma {:induction false} CollectedExact(css: string, n: nat, q: ThemePosition)
    requires n <= |THEME_MAPPINGS|
    ensures q in Collected(css, n) <==> exists t :: 0 <= t < n && SectionOf(css, q, t)
  {
    if n > 0 {
      CollectedExact(css, n - 1, q);
      MappingStartsExact(css, n - 1, q);
      CollectedNext(css, n - 1);
      if exists t :: 0 <= t < n && SectionOf(css, q, t) {
        var t :| 0 <= t < n && SectionOf(css, q, t);
        if t < n - 1 {
          assert exists t' :: 0 <= t' < n - 1 && SectionOf(css, q, t');
        }
      }
    }
  }

  /**
   * The positions collected are exactly the section starts of the four themes: an
   * occurrence of a theme's source path followed within 200 characters by `*`+`/`.
   */
  lemma AllPositionsExact(css: string, q: ThemePosition)
    ensures q in AllPositions(css) <==> exists t :: 0 <= t < |THEME_MAPPINGS| && SectionOf(css, q, t)
  {
    CollectedExact(css, |THEME_MAPPINGS|, q);
  }

  /** No two collected positions share an index. */
  predicate IndexDistinct(ps: seq<ThemePosition>) {
    forall i, j :: 0 <= i < j < |ps| ==> ps[i].index != ps[j].index
  }

  lemma {:induction false} CollectedDistinct(css: string, n: nat)
    requires n <= |THEME_MAPPINGS|
    ensures IndexDistinct(Collected(css, n))
  {
    if n > 0 {
      CollectedDistinct(css, n - 1);
      var c := Collected(css, n - 1);
      var st := SectionStarts(css, THEME_MAPPINGS[n - 1], 0);
      MappingPatternNoSelfOverlap(n - 1);
      SectionStartsIncreasing(css, THEME_MAPPINGS[n - 1], 0);
      forall i, j | 0 <= i < |c| && 0 <= j < |st|
        ensures c[i].index != st[j].index
      {
        EarlierMappingApart(css, n, c[i], st[j]);
      }
      ConcatDistinct(c, st);
    }
  }

  /** A position collected for an earlier mapping and one of mapping `n - 1` differ in index. */
  lemma EarlierMappingApart(css: string, n: nat, q: ThemePosition, r: ThemePosition)
    requires 0 < n <= |THEME_MAPPINGS|
    requires q in Collected(css, n - 1) && r in SectionStarts(css, THEME_MAPPINGS[n - 1], 0)
    ensures q.index != r.index
  {
    CollectedAreSections(css, n - 1);
    MappingPatternNoSelfOverlap(n - 1);
    SectionStartsSound(css, THEME_MAPPINGS[n - 1], 0);
    var t :| 0 <= t < n - 1 && SectionOf(css, q, t);
    if q.index == r.index {
      MappingPatternsExclusive(css, t, n - 1, q.index);
    }
  }

  lemma ConcatDistinct(a: seq<ThemePosition>, b: seq<ThemePosition>)
    requires IndexDistinct(a)
    requires Increasing(b)
    requires forall i, j :: 0 <= i < |a| && 0 <= j < |b| ==> a[i].index != b[j].index
    ensures IndexDistinct(a + b)
  {
    var ab := a + b;
    forall i, j | 0 <= i < j < |ab|
      ensures ab[i].index != ab[j].index
    {
      if i >= |a| {
        assert ab[i] == b[i - |a|] && ab[j] == b[j - |a|];
      } else if j >= |a| {
        assert ab[i] == a[i] && ab[j] == b[j - |a|];
      } else {
        assert ab[i] == a[i] && ab[j] == a[j];
      }
    }
  }

  // ---------------------------------------------------------------------------
  // Ordering the sections (line 48)

  /** Indices never increase along `ps`. */
  predicate Descending(ps: seq<ThemePosition>) {
    forall i, j :: 0 <= i < j < |ps| ==> ps[i].index >= ps[j].index
  }

  /** Indices strictly decrease along `ps`. */
  predicate StrictlyDescending(ps: seq<ThemePosition>) {
    forall i, j :: 0 <= i < j < |ps| ==> ps[i].index > ps[j].index
  }

  /** In a descending sequence no entry has a larger index than the first. */
  lemma HeadIsLargest(s: seq<ThemePosition>)
    requires Descending(s) && s != []
    ensures forall y :: y in s ==> y.index <= s[0].index
  {
    forall y | y in s
      ensures y.index <= s[0].index
    {
      var k :| 0 <= k < |s| && s[k] == y;
    }
  }

  /** The tail of a descending sequence is descending and below its head. */
  lemma DescendingTail(s: seq<ThemePosition>)
    requires Descending(s) && s != []
    ensures Descending(s[1..]) && forall y :: y in s[1..] ==> y.index <= s[0].index
    ensures StrictlyDescending(s) ==> StrictlyDescending(s[1..]) && forall y :: y in s[1..] ==> y.index < s[0].index
  {
    forall y | y in s[1..]
      ensures y.index <= s[0].index && (StrictlyDescending(s) ==> y.index < s[0].index)
    {
      var k :| 0 <= k < |s[1..]| && s[1..][k] == y;
      assert s[k + 1] == y;
    }
    forall i, j | 0 <= i < j < |s[1..]|
      ensures s[1..][i].index >= s[1..][j].index && (StrictlyDescending(s) ==> s[1..][i].index > s[1..][j].index)
    {
      assert s[1..][i] == s[i + 1] && s[1..][j] == s[j + 1];
    }
  }

  /** Putting an entry no smaller than every other in front keeps a sequence descending. */
  lemma ConsDescending(h: ThemePosition, t: seq<ThemePosition>)
    requires Descending(t) && forall y :: y in t ==> y.index <= h.index
    ensures Descending([h] + t)
    ensures StrictlyDescending(t) && (forall y :: y in t ==> y.index != h.index) ==> StrictlyDescending([h] + t)
  {
    var r := [h] + t;
    forall i, j | 0 <= i < j < |r|
      ensures r[i].index >= r[j].index
    {
      assert r[j] == t[j - 1];
      if i > 0 {
        assert r[i] == t[i - 1];
      }
    }
    if StrictlyDescending(t) && (forall y :: y in t ==> y.index != h.index) {
      forall i, j | 0 <= i < j < |r|
        ensures r[i].index > r[j].index
      {
        assert r[j] == t[j - 1];
        if i > 0 {
          assert r[i] == t[i - 1];
        }
      }
    }
  }

  /** The entries of a sequence whose multiset is that of `b` plus `x` are `x` and those of `b`. */
  lemma MembersOfMultiset(a: seq<ThemePosition>, b: seq<ThemePosition>, x: ThemePosition)
    requires multiset(a) == multiset(b) + multiset{x}
    ensures forall y :: y in a ==> y == x || y in b
  {
    forall y | y in a
      ensures y == x || y in b
    {
      assert y in multiset(a);
    }
  }

  /** `x` placed into the descending `s` before the first entry whose index is not larger. */
  function InsertDescending(x: ThemePosition, s: seq<ThemePosition>): (r: seq<ThemePosition>)
    requires Descending(s)
    ensures multiset(r) == multiset(s) + multiset{x}
    ensures Descending(r)
    ensures StrictlyDescending(s) && (forall y :: y in s ==> y.index != x.index) ==> StrictlyDescending(r)
  {
    if s == [] || s[0].index <= x.index then
      if s != [] then HeadIsLargest(s); ConsDescending(x, s); [x] + s else ConsDescending(x, s); [x] + s
    else
      assert s == [s[0]] + s[1..];
      DescendingTail(s);
      var rest := InsertDescending(x, s[1..]);
      MembersOfMultiset(rest, s[1..], x);
      ConsDescending(s[0], rest);
      [s[0]] + rest
  }

  /**
   * `themePositions.sort((a, b) => b.index - a.index)`: the same positions, by
   * descending index; with distinct indices the order is strict.
   */
  function SortDescending(ps: seq<ThemePosition>): (r: seq<ThemePosition>)
    ensures multiset(r) == multiset(ps)
    ensures Descending(r)
    ensures IndexDistinct(ps) ==> StrictlyDescending(r)
  {
    if ps == [] then []
    else
      assert ps == [ps[0]] + ps[1..];
      var rest := SortDescending(ps[1..]);
      if IndexDistinct(ps) then DistinctFromRest(ps, rest); InsertDescending(ps[0], rest)
      else InsertDescending(ps[0], rest)
  }

  lemma DistinctFromRest(ps: seq<ThemePosition>, rest: seq<ThemePosition>)
    requires ps != [] && IndexDistinct(ps) && multiset(rest) == multiset(ps[1..])
    ensures IndexDistinct(ps[1..])
    ensures forall y :: y in rest ==> y.index != ps[0].index
  {
    forall y | y in rest
      ensures y.index != ps[0].index
    {
      assert y in multiset(ps[1..]);
      var k :| 0 <= k < |ps[1..]| && ps[1..][k] == y;
      assert ps[k + 1] == y;
    }
    forall i, j | 0 <= i < j < |ps[1..]|
      ensures ps[1..][i].index != ps[1..][j].index
    {
      assert ps[1..][i] == ps[i + 1] && ps[1..][j] == ps[j + 1];
    }
  }

  /** The sections are transformed in strictly decreasing order of their start, each exactly once. */
  lemma SectionsInDecreasingOrder(css: string)
    ensures var ps := SortDescending(AllPositions(css));
      StrictlyDescending(ps) && multiset(ps) == multiset(AllPositions(css))
  {
    CollectedDistinct(css, |THEME_MAPPINGS|);
  }

  // ---------------------------------------------------------------------------
  // Transforming the sections (lines 50-54)

  /** Every position names a class that opens and closes no block. */
  predicate BraceFreeClasses(ps: seq<ThemePosition>) {
    forall q :: q in ps ==> BraceFree(q.parentClass)
  }

  /** The loop of lines 50-52: each section transformed in turn, on the text the previous one left. */
  function ApplySections(css: string, ps: seq<ThemePosition>): string
    requires BraceFreeClasses(ps)
    decreases |ps|
  {
    if ps == [] then css
    else ApplySections(ThemeSection(css, ps[0].index, ps[0].parentClass), ps[1..])
  }

  /** One turn of the loop of lines 50-52, seen from the suffix of positions still to process. */
  lemma ApplySectionsStep(css: string, ps: seq<ThemePosition>, i: nat)
    requires BraceFreeClasses(ps) && i < |ps|
    ensures BraceFree(ps[i].parentClass) && BraceFreeClasses(ps[i..]) && BraceFreeClasses(ps[i + 1..])
    ensures ApplySections(css, ps[i..]) == ApplySections(ThemeSection(css, ps[i].index, ps[i].parentClass), ps[i + 1..])
  {
    assert ps[i] in ps;
    assert forall q :: q in ps[i..] ==> q in ps;
    assert ps[i..][1..] == ps[i + 1..];
  }

  /** The positions collected all carry a mapping's class. */
  lemma AllPositionsBraceFree(css: string)
    ensures BraceFreeClasses(AllPositions(css))
    ensures BraceFreeClasses(SortDescending(AllPositions(css)))
  {
    var ps := AllPositions(css);
    CollectedAreSections(css, |THEME_MAPPINGS|);
    forall q | q in ps
      ensures BraceFree(q.parentClass)
    {
      var t :| 0 <= t < |THEME_MAPPINGS| && SectionOf(css, q, t);
      MappingClassesAreClassNames();
    }
    forall q | q in SortDescending(ps)
      ensures BraceFree(q.parentClass)
    {
      assert q in multiset(SortDescending(ps));
      assert q in ps;
    }
  }

  /** `transformCssContent(css)`: the collected sections transformed from the last to the first. */
  function ScopedContent(css: string): string {
    AllPositionsBraceFree(css);
    ApplySections(css, SortDescending(AllPositions(css)))
  }

  lemma ScopedContentOf(css: string)
    ensures BraceFreeClasses(SortDescending(AllPositions(css)))
    ensures ScopedContent(css) == ApplySections(css, SortDescending(AllPositions(css)))
  {
    AllPositionsBraceFree(css);
  }

  /** One section transform never touches the text before `n` when the section starts at or after `n`. */
  lemma ThemeSectionKeepsBefore(css: string, q: ThemePosition, n: nat)
    requires BraceFree(q.parentClass) && n <= q.index && n <= |css|
    ensures var r := ThemeSection(css, q.index, q.parentClass);
      |css| <= |r| && r[..n] == css[..n]
  {
    var r := ThemeSection(css, q.index, q.parentClass);
    if q.index <= |css| {
      ThemeSectionKeepsPrefix(css, q.index, q.parentClass);
      PrefixOfPrefix(r, css, n, q.index);
    } else {
      ThemeSectionUnfold(css, q.index, q.parentClass);
    }
  }

  /** Transforming sections that all start at or after `n` leaves the text before `n` as it was. */
  lemma {:induction false} ApplySectionsKeepsBefore(css: string, ps: seq<ThemePosition>, n: nat)
    requires BraceFreeClasses(ps) && n <= |css|
    requires forall q :: q in ps ==> n <= q.index
    ensures var r := ApplySections(css, ps);
      |css| <= |r| && r[..n] == css[..n]
    decreases |ps|
  {
    if ps != [] {
      ApplySectionsStep(css, ps, 0);
      assert ps[0] in ps && ps[0..] == ps;
      var t := ThemeSection(css, ps[0].index, ps[0].parentClass);
      ThemeSectionKeepsBefore(css, ps[0], n);
      assert forall q :: q in ps[1..] ==> q in ps;
      ApplySectionsKeepsBefore(t, ps[1..], n);
      PrefixOfPrefix(ApplySections(t, ps[1..]), t, n, n);
    }
  }

  /** The text before the first section start, if any, comes through the transform unchanged. */
  lemma ScopedContentKeepsBefore(css: string, n: nat)
    requires n <= |css|
    requires forall q, t :: SectionOf(css, q, t) ==> n <= q.index
    ensures |css| <= |ScopedContent(css)| && ScopedContent(css)[..n] == css[..n]
  {
    AllPositionsBraceFree(css);
    CollectedAreSections(css, |THEME_MAPPINGS|);
    var ps := SortDescending(AllPositions(css));
    forall q | q in ps
      ensures n <= q.index
    {
      assert q in multiset(ps);
      assert q in AllPositions(css);
    }
    ApplySectionsKeepsBefore(css, ps, n);
  }

  lemma HasMember(ps: seq<ThemePosition>)
    requires ps != []
    ensures exists q :: q in ps
  {
    assert ps[0] in ps;
  }

  /** A stylesheet with no theme section comes through unchanged. */
  lemma ScopedContentWithoutSections(css: string)
    requires forall q, t :: !SectionOf(css, q, t)
    ensures ScopedContent(css) == css
  {
    var ps := AllPositions(css);
    CollectedAreSections(css, |THEME_MAPPINGS|);
    if ps != [] {
      HasMember(ps);
      assert false;
    }
    assert |SortDescending(ps)| == |multiset(SortDescending(ps))| == 0;
  }

  // ---------------------------------------------------------------------------
  // Running the whole transform on its own result

  /** The frame and the nord source paths back to back, then the end of a comment and a line break. */
  const TwoPaths: string := ThemePath("frame") + ThemePath("nord") + "*/\n"

  /** A whole rule for the editor, `.milkdown {}`. */
  const MilkdownRule: string := RulePattern + "}"

  /** The smallest stylesheet in which the nord and the frame section both reach one rule. */
  const SharedRuleSheet: string := TwoPaths + MilkdownRule

  /** The sections of `TwoPaths`: frame at 0, nord at 22. */
  const FrameStart: ThemePosition := ThemePosition(0, ThemeClass("frame"))
  const NordStart: ThemePosition := ThemePosition(22, ThemeClass("nord"))

  /** `.<parentClass> `, what the section transform puts in front of a rule it scopes. */
  function ClassPrefix(parentClass: string): string {
    "." + parentClass + " "
  }

  const NordPrefix: string := ClassPrefix(ThemeClass("nord"))
  const FramePrefix: string := ClassPrefix(ThemeClass("frame"))

  /** Text that opens no block, closes none, and cannot hold the comment marker. */
  predicate Plain(s: string) {
    '{' !in s && '}' !in s && '_' !in s
  }

  lemma MilkdownRuleChars()
    ensures |MilkdownRule| == 12 && MilkdownRule[..11] == RulePattern && MilkdownRule[11] == '}'
    ensures forall i :: 0 <= i < 10 ==> RulePattern[i] != '{'
    ensures '_' !in MilkdownRule && '}' !in RulePattern && CommentMarker[7] == '_'
  {
  }

  lemma TwoPathsSlash(i: int)
    requires 0 <= i < 46 && TwoPaths[i] == '/'
    ensures i == 0 || i == 6 || i == 12 || i == 22 || i == 28 || i == 33 || i == 44
  {
    if 13 <= i < 22 || 23 <= i < 28 || 29 <= i < 33 || 34 <= i < 44 {
    } else if i < 6 {
    } else if i < 12 {
    }
  }

  lemma TwoPathsLayout()
    ensures |TwoPaths| == 46 && TwoPaths[45] == '\n'
    ensures TwoPaths[7] == 'f' && TwoPaths[12] == '/' && TwoPaths[29] == 'n' && TwoPaths[33] == '/'
    ensures TwoPaths[43] == '*' && TwoPaths[44] == '/'
  {
  }

  /** A source path adds no brace and no `_` to its theme name. */
  lemma ThemePathPlain(name: string)
    requires Plain(name)
    ensures Plain(ThemePath(name))
  {
  }

  lemma TwoPathsPlain()
    ensures Plain(TwoPaths)
  {
    ThemePathPlain("frame");
    ThemePathPlain("nord");
  }

  lemma PrefixLengths()
    ensures |NordPrefix| == 21 && |FramePrefix| == 22
  {
  }

  lemma PrefixesPlain()
    ensures Plain(NordPrefix) && Plain(FramePrefix)
  {
  }

  lemma NoSlashAfterPaths()
    ensures '/' !in NordPrefix && '/' !in FramePrefix && '/' !in MilkdownRule
  {
  }

  lemma SheetClassesBraceFree()
    ensures BraceFree(ThemeClass("nord")) && BraceFree(ThemeClass("frame"))
  {
  }

  lemma MappingPatternChars(k: nat)
    requires k < |THEME_MAPPINGS|
    ensures var pat := THEME_MAPPINGS[k].sourcePattern;
      && |pat| >= 21 && pat[0] == '/' && pat[1] == 't' && pat[6] == '/'
      && (pat[7] == 'f' <==> k < 2) && (pat[7] == 'n' <==> 2 <= k)
      && (k == 1 ==> pat[12] == '-') && (k == 3 ==> pat[11] == '-')
  {
  }

  /**
   * After the two paths, text without `/` holds no further source path: the frame
   * path is found only at 0 and the nord path only at 22.
   */
  lemma PathsInSheet(rest: string, k: nat, j: int)
    requires '/' !in rest && k < |THEME_MAPPINGS|
    requires At(TwoPaths + rest, THEME_MAPPINGS[k].sourcePattern, j)
    ensures (j == 0 && k == 0) || (j == 22 && k == 2)
  {
    var s := TwoPaths + rest;
    var pat := THEME_MAPPINGS[k].sourcePattern;
    TwoPathsLayout();
    MappingPatternChars(k);
    AtChars(s, pat, j);
    assert s[j] == '/' && s[j + 1] == 't' && s[j + 6] == '/' && s[j + 7] == pat[7];
    assert s[j + 11] == pat[11] && s[j + 12] == pat[12];
    assert forall i :: 0 <= i < |s| && s[i] == '/' ==> i < 46 && TwoPaths[i] == '/' by {
      forall i | 46 <= i < |s|
        ensures s[i] != '/'
      {
        assert s[i] == rest[i - 46];
      }
    }
    TwoPathsSlash(j);
    TwoPathsSlash(j + 6);
    assert s[7] == 'f' && s[12] == '/' && s[29] == 'n' && s[33] == '/';
  }

  /** `*` then `/` at `i` is an occurrence of the end of a comment. */
  lemma PairAt(w: string, i: nat)
    requires i + 2 <= |w| && w[i] == '*' && w[i + 1] == '/'
    ensures At(w, "*/", i)
  {
    assert w[i..i + 2] == [w[i], w[i + 1]];
  }

  /** Both paths of `TwoPaths` open a section: the `*` + `/` at 43 is inside both windows. */
  lemma TwoPathsOpenSections(rest: string)
    ensures SectionOf(TwoPaths + rest, FrameStart, 0) && SectionOf(TwoPaths + rest, NordStart, 2)
  {
    var s := TwoPaths + rest;
    TwoPathsLayout();
    assert At(s, THEME_MAPPINGS[0].sourcePattern, 0) by {
      assert s[0..22] == ThemePath("frame");
    }
    assert At(s, THEME_MAPPINGS[2].sourcePattern, 22) by {
      assert s[22..43] == ThemePath("nord");
    }
    var w0 := s[0..Min(0 + CommentWindow, |s|)];
    var w1 := s[22..Min(22 + CommentWindow, |s|)];
    assert |w0| >= 45 && w0[43] == '*' && w0[44] == '/';
    assert |w1| >= 23 && w1[21] == '*' && w1[22] == '/';
    PairAt(w0, 43);
    PairAt(w1, 21);
    ClosesCommentIsIncludes(w0);
    ClosesCommentIsIncludes(w1);
  }

  /** The sections of such a text are exactly those of the two paths. */
  lemma SectionsOfSheet(rest: string, q: ThemePosition, k: int)
    requires '/' !in rest
    ensures SectionOf(TwoPaths + rest, q, k) <==> (q == FrameStart && k == 0) || (q == NordStart && k == 2)
  {
    TwoPathsOpenSections(rest);
    if SectionOf(TwoPaths + rest, q, k) {
      PathsInSheet(rest, k, q.index);
    }
  }

  /** A strictly descending sequence holding exactly `a` and `b`, `a` the later one, is `[a, b]`. */
  lemma ExactlyTwo(ps: seq<ThemePosition>, a: ThemePosition, b: ThemePosition)
    requires StrictlyDescending(ps) && a.index > b.index
    requires forall y :: y in ps <==> y == a || y == b
    ensures ps == [a, b]
  {
    assert a in ps && b in ps;
    var i :| 0 <= i < |ps| && ps[i] == a;
    var j :| 0 <= j < |ps| && ps[j] == b;
    assert ps[0] in ps && ps[|ps| - 1] in ps;
    assert i == 0 && j == |ps| - 1;
    assert |ps| > 1 ==> ps[1] in ps;
  }

  /** Such a text's sections are transformed nord first, then frame. */
  lemma PositionsOfSheet(rest: string)
    requires '/' !in rest
    ensures SortDescending(AllPositions(TwoPaths + rest)) == [NordStart, FrameStart]
  {
    var s := TwoPaths + rest;
    var ps := SortDescending(AllPositions(s));
    SectionsInDecreasingOrder(s);
    forall y
      ensures y in ps <==> y == NordStart || y == FrameStart
    {
      assert y in ps <==> y in multiset(ps);
      assert y in AllPositions(s) <==> y in multiset(AllPositions(s));
      AllPositionsExact(s, y);
      SectionsOfSheet(rest, y, 0);
      SectionsOfSheet(rest, y, 2);
      if exists k :: 0 <= k < |THEME_MAPPINGS| && SectionOf(s, y, k) {
        var k :| 0 <= k < |THEME_MAPPINGS| && SectionOf(s, y, k);
        SectionsOfSheet(rest, y, k);
      }
    }
    ExactlyTwo(ps, NordStart, FrameStart);
  }

  /** Two sections: the second pass runs on what the first one left. */
  lemma ApplyTwo(css: string, a: ThemePosition, b: ThemePosition)
    requires BraceFree(a.parentClass) && BraceFree(b.parentClass)
    ensures BraceFreeClasses([a, b])
    ensures ApplySections(css, [a, b]) == ThemeSection(ThemeSection(css, a.index, a.parentClass), b.index, b.parentClass)
  {
    var ps := [a, b];
    var mid := ThemeSection(css, a.index, a.parentClass);
    assert ps[1..] == [b] && [b][1..] == [];
    assert ApplySections(css, ps) == ApplySections(mid, [b]);
    assert ApplySections(mid, [b]) == ApplySections(ThemeSection(mid, b.index, b.parentClass), []);
  }

  /**
   * The guard of lines 69-76 lets the match at `m` through when, at each of the three
   * places the class could stand in the window before it, its `d`-th character is missing.
   */
  lemma NotGuarded(css: string, m: nat, parentClass: string, d: nat)
    requires |parentClass| + 2 <= m <= |css| && d < |parentClass|
    requires var b := m - |parentClass| - 2;
      css[b + d] != parentClass[d] && css[b + d + 1] != parentClass[d] && css[b + d + 2] != parentClass[d]
    ensures !Guarded(css, m, parentClass)
  {
    var b := m - |parentClass| - 2;
    var w := css[b..m];
    forall j
      ensures !At(w, parentClass, j)
    {
      if 0 <= j <= 2 {
        assert w[j + d] == css[b + j + d];
        MismatchNotAt(w, parentClass, j, j + d);
      }
    }
    GuardedWindow(css, m, parentClass);
  }

  /** When the text is long enough, the guard looks at exactly the `|parentClass| + 2` characters before `m`. */
  lemma GuardedWindow(css: string, m: nat, parentClass: string)
    requires |parentClass| + 2 <= m <= |css|
    ensures Guarded(css, m, parentClass) <==> Includes(css[m - |parentClass| - 2..m], parentClass)
  {
    var b := m - |parentClass| - 2;
    assert Max(0, b) == b;
    assert Substring(css, b, m) == css[b..m];
  }

  /** When the rule is the last thing in the text and plain text comes before it, the pass finds it. */
  lemma FinalRuleIsNext(pre: string, currentIndex: nat)
    requires Plain(pre) && currentIndex <= |pre|
    ensures At(pre + MilkdownRule, RulePattern, |pre|)
    ensures NextMatch(pre + MilkdownRule, currentIndex) == |pre|
  {
    var s := pre + MilkdownRule;
    var m := |pre|;
    MilkdownRuleChars();
    assert At(s, RulePattern, m) by {
      assert s[m..m + 11] == MilkdownRule[..11];
    }
    NoneWhere(s, RulePattern, 10, 0, m + 10);
    NoneWhere(s, CommentMarker, 7, 0, |s|);
    NextMatchIs(s, currentIndex, m);
  }

  /** The final rule's braces balance. */
  lemma FinalRuleCloses(pre: string)
    requires Plain(pre)
    ensures RuleCloses(pre + MilkdownRule, |pre| + 10)
  {
    var s := pre + MilkdownRule;
    var m := |pre|;
    FinalRuleIsNext(pre, m);
    RuleEndOfClosedRule(s, m);
    var t := s[m + 11..|s|];
    assert |t| == 1 && t[0] == '}' && t[1..] == [];
    assert Balance(t) == Delta(t[0]) + Balance(t[1..]);
  }

  /** Scoping the final rule puts `.<parentClass> ` in front of it. */
  lemma FinalRuleRewritten(pre: string, parentClass: string)
    requires Plain(pre) && !Guarded(pre + MilkdownRule, |pre|, parentClass)
    ensures Rewrite(pre + MilkdownRule, |pre|, parentClass) == pre + ClassPrefix(parentClass) + MilkdownRule
  {
    var s := pre + MilkdownRule;
    var m := |pre|;
    FinalRuleIsNext(pre, m);
    FinalRuleCloses(pre);
    assert ScopeRule(s, m, parentClass) == s[..m] + ("." + parentClass + " ") + s[m..] by {
      ScopeRuleInserts(s, m, parentClass);
    }
    assert s[..m] == pre && s[m..] == MilkdownRule;
  }

  /** After the scoped rule's opener, the first `}` is the one that ends the text. */
  lemma FinalRuleClose(pre: string, parentClass: string)
    requires BraceFree(parentClass) && Plain(pre)
    ensures var r := pre + ClassPrefix(parentClass) + MilkdownRule;
      IndexOf(r, "}", |pre|) == |r| - 1
  {
    var r := pre + ClassPrefix(parentClass) + MilkdownRule;
    MilkdownRuleChars();
    assert r[..|r| - 1] == pre + ClassPrefix(parentClass) + RulePattern;
    NoneWhere(r, "}", 0, |pre|, |r| - 1);
    assert At(r, "}", |r| - 1) by {
      assert r[|r| - 1..|r|] == "}";
    }
  }

  /**
   * A section whose only rule is the last thing in the text, with plain text before
   * it: when the guard lets the rule through, the transform puts `.<parentClass> ` in
   * front of it and stops.
   */
  lemma SectionScopesFinalRule(pre: string, currentIndex: nat, parentClass: string)
    requires BraceFree(parentClass) && Plain(pre) && currentIndex <= |pre|
    requires !Guarded(pre + MilkdownRule, |pre|, parentClass)
    ensures ThemeSection(pre + MilkdownRule, currentIndex, parentClass) == pre + ClassPrefix(parentClass) + MilkdownRule
  {
    var s := pre + MilkdownRule;
    var r := pre + ClassPrefix(parentClass) + MilkdownRule;
    FinalRuleIsNext(pre, currentIndex);
    FinalRuleRewritten(pre, parentClass);
    FinalRuleClose(pre, parentClass);
    ThemeSectionAt(s, currentIndex, parentClass, |pre|, r, |r| - 1);
    ThemeSectionNoMatch(r, |r|, parentClass);
  }

  /** The same, with the guard's failure given by three missing characters of the class. */
  lemma PassScopesFinalRule(pre: string, currentIndex: nat, parentClass: string, d: nat)
    requires BraceFree(parentClass) && Plain(pre) && currentIndex <= |pre|
    requires |parentClass| + 2 <= |pre| && d < |parentClass|
    requires var b := |pre| - |parentClass| - 2;
      pre[b + d] != parentClass[d] && pre[b + d + 1] != parentClass[d] && pre[b + d + 2] != parentClass[d]
    ensures ThemeSection(pre + MilkdownRule, currentIndex, parentClass) == pre + ClassPrefix(parentClass) + MilkdownRule
  {
    var b := |pre| - |parentClass| - 2;
    var s := pre + MilkdownRule;
    assert s[b + d] == pre[b + d] && s[b + d + 1] == pre[b + d + 1] && s[b + d + 2] == pre[b + d + 2];
    NotGuarded(s, |pre|, parentClass, d);
    SectionScopesFinalRule(pre, currentIndex, parentClass);
  }

  /**
   * With whitespace before the final rule, the pass as lines 62-79 write it is the
   * corrected pass: line 105 keeps the text before the rule, a `}` follows the rule,
   * and the scan resumes at the end of the text, where the loop of line 62 ends.
   */
  lemma PassAsWrittenScopesFinalRule(pre: string, currentIndex: nat, parentClass: string, d: nat)
    requires BraceFree(parentClass) && Plain(pre) && currentIndex <= |pre|
    requires |parentClass| + 2 <= |pre| && d < |parentClass| && IsWhitespace(pre[|pre| - 1])
    requires var b := |pre| - |parentClass| - 2;
      pre[b + d] != parentClass[d] && pre[b + d + 1] != parentClass[d] && pre[b + d + 2] != parentClass[d]
    ensures var r := pre + ClassPrefix(parentClass) + MilkdownRule;
      SectionStepAsWritten(pre + MilkdownRule, currentIndex, parentClass) == Continue(r, |r|)
  {
    var b := |pre| - |parentClass| - 2;
    var s := pre + MilkdownRule;
    assert s[b + d] == pre[b + d] && s[b + d + 1] == pre[b + d + 1] && s[b + d + 2] == pre[b + d + 2];
    NotGuarded(s, |pre|, parentClass, d);
    FinalRulePassAsWritten(pre, currentIndex, parentClass);
  }

  /** The same, with the guard's failure given outright. */
  lemma FinalRulePassAsWritten(pre: string, currentIndex: nat, parentClass: string)
    requires BraceFree(parentClass) && Plain(pre) && currentIndex <= |pre|
    requires 0 < |pre| && IsWhitespace(pre[|pre| - 1]) && !Guarded(pre + MilkdownRule, |pre|, parentClass)
    ensures var r := pre + ClassPrefix(parentClass) + MilkdownRule;
      SectionStepAsWritten(pre + MilkdownRule, currentIndex, parentClass) == Continue(r, |r|)
  {
    var s := pre + MilkdownRule;
    var m := |pre|;
    var r := pre + ClassPrefix(parentClass) + MilkdownRule;
    FinalRuleIsNext(pre, currentIndex);
    FinalRuleRewrittenAsWritten(pre, parentClass);
    FinalRuleClose(pre, parentClass);
    AsWrittenStepAt(s, currentIndex, parentClass, m, r, |r| - 1);
  }

  /** With whitespace before the final rule, line 105 as written scopes it as the corrected line does. */
  lemma FinalRuleRewrittenAsWritten(pre: string, parentClass: string)
    requires Plain(pre) && 0 < |pre| && IsWhitespace(pre[|pre| - 1]) && !Guarded(pre + MilkdownRule, |pre|, parentClass)
    ensures RewriteAsWritten(pre + MilkdownRule, |pre|, parentClass) == pre + ClassPrefix(parentClass) + MilkdownRule
  {
    var s := pre + MilkdownRule;
    var m := |pre|;
    assert s[m - 1] == pre[m - 1];
    FinalRuleIsNext(pre, m);
    FinalRuleRewritten(pre, parentClass);
    RewriteAsWrittenAgrees(s, m, parentClass);
  }

  /** The step as written at a match followed by a `}`: the rewritten text, resumed after that `}`. */
  lemma AsWrittenStepAt(css: string, currentIndex: int, parentClass: string, m: int, rewritten: string, closeBrace: int)
    requires m == NextMatch(css, currentIndex) && m != -1
    requires rewritten == RewriteAsWritten(css, m, parentClass)
    requires closeBrace == IndexOf(rewritten, "}", m) && closeBrace != -1
    ensures SectionStepAsWritten(css, currentIndex, parentClass) == Continue(rewritten, closeBrace + 1)
  {
  }

  /** On the stylesheet, the nord pass scopes the rule under its class. */
  lemma NordPassOnSheet()
    ensures ThemeSection(TwoPaths + MilkdownRule, 22, ThemeClass("nord")) == TwoPaths + NordPrefix + MilkdownRule
  {
    SheetClassesBraceFree();
    TwoPathsLayout();
    TwoPathsPlain();
    assert TwoPaths[28] == '/' && TwoPaths[29] == 'n' && TwoPaths[30] == 'o';
    PassScopesFinalRule(TwoPaths, 22, ThemeClass("nord"), 3);
  }

  /** The frame pass then finds the rule behind the nord class, not its own, and scopes it again. */
  lemma FramePassAfterNord()
    ensures ThemeSection(TwoPaths + NordPrefix + MilkdownRule, 0, ThemeClass("frame"))
      == TwoPaths + NordPrefix + FramePrefix + MilkdownRule
  {
    var pre := TwoPaths + NordPrefix;
    SheetClassesBraceFree();
    TwoPathsPlain();
    PrefixLengths();
    PrefixesPlain();
    assert Plain(pre);
    assert pre[60] == 'e' && pre[61] == '-' && pre[62] == 'n';
    PassScopesFinalRule(pre, 0, ThemeClass("frame"), 15);
  }

  /** The first run puts the nord class and then the frame class in front of the rule. */
  lemma FirstRun()
    ensures ScopedContent(SharedRuleSheet) == TwoPaths + NordPrefix + FramePrefix + MilkdownRule
  {
    var s0 := TwoPaths + MilkdownRule;
    NordPassOnSheet();
    FramePassAfterNord();
    assert '/' !in MilkdownRule by {
      NoSlashAfterPaths();
    }
    PositionsOfSheet(MilkdownRule);
    ScopedContentOf(s0);
    SheetClassesBraceFree();
    ApplyTwo(s0, NordStart, FrameStart);
  }

  lemma Regroup(a: string, b: string, c: string, d: string)
    ensures a + b + c + d == a + (b + c + d)
  {
  }

  /** Run again, the nord pass finds the rule behind the frame class, not its own, and scopes it again. */
  lemma NordPassOnRerun()
    ensures ThemeSection(TwoPaths + NordPrefix + FramePrefix + MilkdownRule, 22, ThemeClass("nord"))
      == TwoPaths + NordPrefix + FramePrefix + NordPrefix + MilkdownRule
  {
    var pre := TwoPaths + NordPrefix + FramePrefix;
    SheetClassesBraceFree();
    TwoPathsPlain();
    PrefixLengths();
    PrefixesPlain();
    assert Plain(pre);
    assert pre[83] == 'f' && pre[84] == 'r' && pre[85] == 'a';
    PassScopesFinalRule(pre, 22, ThemeClass("nord"), 15);
  }

  /** And the frame pass finds it behind the nord class again. */
  lemma FramePassOnRerun()
    ensures ThemeSection(TwoPaths + NordPrefix + FramePrefix + NordPrefix + MilkdownRule, 0, ThemeClass("frame"))
      == TwoPaths + NordPrefix + FramePrefix + NordPrefix + FramePrefix + MilkdownRule
  {
    var pre := TwoPaths + NordPrefix + FramePrefix + NordPrefix;
    SheetClassesBraceFree();
    TwoPathsPlain();
    PrefixLengths();
    PrefixesPlain();
    assert Plain(pre);
    assert pre[103] == 'e' && pre[104] == '-' && pre[105] == 'n';
    PassScopesFinalRule(pre, 0, ThemeClass("frame"), 15);
  }

  /** The second run finds the same two sections and puts both classes in front of the rule once more. */
  lemma SecondRun()
    ensures ScopedContent(TwoPaths + NordPrefix + FramePrefix + MilkdownRule)
      == TwoPaths + NordPrefix + FramePrefix + NordPrefix + FramePrefix + MilkdownRule
  {
    var s2 := TwoPaths + NordPrefix + FramePrefix + MilkdownRule;
    var rest := NordPrefix + FramePrefix + MilkdownRule;
    NordPassOnRerun();
    FramePassOnRerun();
    Regroup(TwoPaths, NordPrefix, FramePrefix, MilkdownRule);
    assert '/' !in rest by {
      NoSlashAfterPaths();
    }
    PositionsOfSheet(rest);
    ScopedContentOf(s2);
    SheetClassesBraceFree();
    ApplyTwo(s2, NordStart, FrameStart);
  }

  /**
   * The code as written takes the same four passes: each section run of both runs is
   * one pass of lines 62-79 as written, which scopes the rule exactly as the corrected
   * pass does and resumes at the end of the text, where the loop ends.
   */
  lemma AsWrittenPassesOnSheet()
    ensures var r := TwoPaths + NordPrefix + MilkdownRule;
      SectionStepAsWritten(SharedRuleSheet, 22, ThemeClass("nord")) == Continue(r, |r|)
    ensures var r := TwoPaths + NordPrefix + FramePrefix + MilkdownRule;
      SectionStepAsWritten(TwoPaths + NordPrefix + MilkdownRule, 0, ThemeClass("frame")) == Continue(r, |r|)
    ensures var r := TwoPaths + NordPrefix + FramePrefix + NordPrefix + MilkdownRule;
      SectionStepAsWritten(TwoPaths + NordPrefix + FramePrefix + MilkdownRule, 22, ThemeClass("nord")) == Continue(r, |r|)
    ensures var r := TwoPaths + NordPrefix + FramePrefix + NordPrefix + FramePrefix + MilkdownRule;
      SectionStepAsWritten(TwoPaths + NordPrefix + FramePrefix + NordPrefix + MilkdownRule, 0, ThemeClass("frame"))
        == Continue(r, |r|)
  {
    NordAsWrittenOnSheet();
    FrameAsWrittenAfterNord();
    NordAsWrittenOnRerun();
    FrameAsWrittenOnRerun();
  }

  lemma NordAsWrittenOnSheet()
    ensures var r := TwoPaths + NordPrefix + MilkdownRule;
      SectionStepAsWritten(SharedRuleSheet, 22, ThemeClass("nord")) == Continue(r, |r|)
  {
    SheetClassesBraceFree();
    TwoPathsLayout();
    TwoPathsPlain();
    assert TwoPaths[28] == '/' && TwoPaths[29] == 'n' && TwoPaths[30] == 'o';
    PassAsWrittenScopesFinalRule(TwoPaths, 22, ThemeClass("nord"), 3);
  }

  lemma FrameAsWrittenAfterNord()
    ensures var r := TwoPaths + NordPrefix + FramePrefix + MilkdownRule;
      SectionStepAsWritten(TwoPaths + NordPrefix + MilkdownRule, 0, ThemeClass("frame")) == Continue(r, |r|)
  {
    var pre := TwoPaths + NordPrefix;
    SheetClassesBraceFree();
    TwoPathsPlain();
    PrefixLengths();
    PrefixesPlain();
    assert Plain(pre);
    assert pre[60] == 'e' && pre[61] == '-' && pre[62] == 'n' && pre[66] == ' ';
    PassAsWrittenScopesFinalRule(pre, 0, ThemeClass("frame"), 15);
  }

  lemma NordAsWrittenOnRerun()
    ensures var r := TwoPaths + NordPrefix + FramePrefix + NordPrefix + MilkdownRule;
      SectionStepAsWritten(TwoPaths + NordPrefix + FramePrefix + MilkdownRule, 22, ThemeClass("nord")) == Continue(r, |r|)
  {
    var pre := TwoPaths + NordPrefix + FramePrefix;
    SheetClassesBraceFree();
    TwoPathsPlain();
    PrefixLengths();
    PrefixesPlain();
    assert Plain(pre);
    assert pre[83] == 'f' && pre[84] == 'r' && pre[85] == 'a' && pre[88] == ' ';
    PassAsWrittenScopesFinalRule(pre, 22, ThemeClass("nord"), 15);
  }

  lemma FrameAsWrittenOnRerun()
    ensures var r := TwoPaths + NordPrefix + FramePrefix + NordPrefix + FramePrefix + MilkdownRule;
      SectionStepAsWritten(TwoPaths + NordPrefix + FramePrefix + NordPrefix + MilkdownRule, 0, ThemeClass("frame"))
        == Continue(r, |r|)
  {
    var pre := TwoPaths + NordPrefix + FramePrefix + NordPrefix;
    SheetClassesBraceFree();
    TwoPathsPlain();
    PrefixLengths();
    PrefixesPlain();
    assert Plain(pre);
    assert pre[103] == 'e' && pre[104] == '-' && pre[105] == 'n' && pre[109] == ' ';
    PassAsWrittenScopesFinalRule(pre, 0, ThemeClass("frame"), 15);
  }

  /**
   * `transformCssContent` run on its own output changes it. Where the nord and the
   * frame section both reach the same rule, each run puts both classes in front of
   * it again: the guard of lines 69-76 looks only for the section's own class in the
   * few characters before the rule, and finds the other one there.
   */
  lemma TransformNotIdempotent()
    ensures ScopedContent(SharedRuleSheet) == TwoPaths + NordPrefix + FramePrefix + MilkdownRule
    ensures ScopedContent(ScopedContent(SharedRuleSheet))
      == TwoPaths + NordPrefix + FramePrefix + NordPrefix + FramePrefix + MilkdownRule
    ensures ScopedContent(ScopedContent(SharedRuleSheet)) != ScopedContent(SharedRuleSheet)
  {
    FirstRun();
    SecondRun();
    PrefixLengths();
  }

  /**
   * The inner loop of `transformCssContent` (lines 34-44) for one mapping: search
   * the source path from the start of the text, record each occurrence followed by
   * the end of a comment, resume after the occurrence.
   */
  method FindSectionStarts(css: string, mapping: ThemeMapping) returns (found: seq<ThemePosition>)
    requires |mapping.sourcePattern| > 0
    ensures found == SectionStarts(css, mapping, 0)
  {
    found := [];
    var searchStart: nat := 0;
    while true
      invariant searchStart <= |css|
      invariant found + SectionStarts(css, mapping, searchStart) == SectionStarts(css, mapping, 0)
      decreases |css| - searchStart
    {
      var patternIndex := IndexOf(css, mapping.sourcePattern, searchStart);
      if patternIndex == -1 {
        SectionStartsExhausted(css, mapping, searchStart);
        return;
      }
      var afterPattern := Substring(css, patternIndex, patternIndex + CommentWindow);
      var closesComment := Includes(afterPattern, "*/");
      ghost var before, previous := found, searchStart;
      if closesComment {
        found := found + [ThemePosition(patternIndex, mapping.parentClass)];
      }
      searchStart := patternIndex + |mapping.sourcePattern|;
      SectionStartsAdvance(css, mapping, previous, before, patternIndex, closesComment, found, searchStart);
    }
  }

  /** The outer loop of lines 33-45: the section starts of every mapping, in mapping order. */
  method CollectThemePositions(css: string) returns (themePositions: seq<ThemePosition>)
    ensures themePositions == AllPositions(css)
  {
    themePositions := [];
    for mi := 0 to |THEME_MAPPINGS|
      invariant themePositions == Collected(css, mi)
    {
      MappingsOfThemeNames();
      var found := FindSectionStarts(css, THEME_MAPPINGS[mi]);
      themePositions := themePositions + found;
    }
  }

  /**
   * `transformCssContent` (lines 30-55): collect the section starts, sort them by
   * descending index, then transform each section in turn, from the last to the first.
   */
  method TransformCssContent(css: string) returns (result: string)
    ensures result == ScopedContent(css)
  {
    var themePositions := CollectThemePositions(css);
    ScopedContentOf(css);
    themePositions := SortDescending(themePositions);
    assert themePositions[0..] == themePositions;
    result := css;
    for i := 0 to |themePositions|
      invariant BraceFreeClasses(themePositions[i..])
      invariant ApplySections(result, themePositions[i..]) == ScopedContent(css)
    {
      ApplySectionsStep(result, themePositions, i);
      result := TransformThemeSection(result, themePositions[i].index, themePositions[i].parentClass);
    }
  }
}
