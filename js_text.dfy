/**
 * The JavaScript string built-ins that the modelled code relies on, over
 * `string` (a sequence of characters): `indexOf`, `includes`, `substring`,
 * `slice(0, -n)`, the regular-expression class `\s`, `split` on one character
 * and the decimal rendering of an integer in a template literal.
 */
module JsText {

  /** JavaScript's `\s`: the WhiteSpace and LineTerminator characters of ECMAScript. */
  predicate IsWhitespace(c: char) {
    || c == '\t' || c == '\n' || c == '\U{000B}' || c == '\U{000C}' || c == '\r' || c == ' '
    || c == '\U{00A0}' || c == '\U{1680}' || ('\U{2000}' <= c <= '\U{200A}')
    || c == '\U{2028}' || c == '\U{2029}' || c == '\U{202F}' || c == '\U{205F}'
    || c == '\U{3000}' || c == '\U{FEFF}'
  }

  /** `pat` occurs in `s` starting at index `i`. */
  predicate At(s: string, pat: string, i: int) {
    0 <= i && i + |pat| <= |s| && s[i..i + |pat|] == pat
  }

  /** An occurrence of `pat` at `j` fixes the characters from `j` on. */
  lemma AtChars(s: string, pat: string, j: int)
    ensures At(s, pat, j) ==> forall d :: 0 <= d < |pat| ==> s[j + d] == pat[d]
  {
    if At(s, pat, j) {
      forall d | 0 <= d < |pat|
        ensures s[j + d] == pat[d]
      {
        assert s[j..j + |pat|][d] == s[j + d];
      }
    }
  }

  /** `pat` does not occur at `i` when a character in its span differs from the pattern's. */
  lemma MismatchNotAt(s: string, pat: string, i: int, q: int)
    requires 0 <= i <= q < i + |pat| && q < |s| && s[q] != pat[q - i]
    ensures !At(s, pat, i)
  {
    AtChars(s, pat, i);
  }

  /** `pat` starts nowhere its `d`-th character would fall on `lo..hi` when no character there is that one. */
  lemma NoneWhere(s: string, pat: string, d: nat, lo: int, hi: int)
    requires d < |pat|
    requires forall i :: lo <= i < hi && 0 <= i < |s| ==> s[i] != pat[d]
    ensures forall j :: lo <= j + d < hi ==> !At(s, pat, j)
  {
    forall j | lo <= j + d < hi
      ensures !At(s, pat, j)
    {
      if 0 <= j && j + |pat| <= |s| {
        MismatchNotAt(s, pat, j, j + d);
      }
    }
  }

  /** A position argument of a string built-in, clamped into `0..n`. */
  function Clamp(x: int, n: nat): (r: nat)
    ensures r <= n
    ensures 0 <= x <= n ==> r == x
  {
    if x < 0 then 0 else if x > n then n else x
  }

  function Min(a: int, b: int): int { if a <= b then a else b }

  function Max(a: int, b: int): int { if a <= b then b else a }

  /** The search behind `indexOf`, starting at an index already clamped. */
  function IndexFrom(s: string, pat: string, k: nat): (r: int)
    requires k <= |s|
    ensures r == -1 || (k <= r && At(s, pat, r))
    ensures r != -1 ==> forall j :: k <= j < r ==> !At(s, pat, j)
    ensures r == -1 ==> forall j :: k <= j ==> !At(s, pat, j)
    decreases |s| - k
  {
    if k + |pat| > |s| then -1
    else if s[k..k + |pat|] == pat then k
    else IndexFrom(s, pat, k + 1)
  }

  /**
   * `s.indexOf(pat, from)`: the first index at or after `from` (clamped into
   * the string) where `pat` occurs, or -1 when there is none.
   */
  function IndexOf(s: string, pat: string, from: int): (r: int)
    ensures r == -1 || (Clamp(from, |s|) <= r && At(s, pat, r))
    ensures r != -1 ==> forall j :: Clamp(from, |s|) <= j < r ==> !At(s, pat, j)
    ensures r == -1 ==> forall j :: Clamp(from, |s|) <= j ==> !At(s, pat, j)
  {
    IndexFrom(s, pat, Clamp(from, |s|))
  }

  /** `s.includes(pat)`. */
  function Includes(s: string, pat: string): (b: bool)
    ensures b <==> exists j :: At(s, pat, j)
  {
    IndexOf(s, pat, 0) != -1
  }

  /** `s.substring(a, b)`: both ends clamped, swapped when `a > b`. */
  function Substring(s: string, a: int, b: int): (r: string)
    ensures |r| <= |s|
    ensures 0 <= a <= b <= |s| ==> r == s[a..b]
    ensures 0 <= b <= a <= |s| ==> r == s[b..a]
    ensures 0 <= a <= |s| <= b ==> r == s[a..]
    ensures 0 <= b <= |s| <= a ==> r == s[b..]
    ensures a <= 0 <= b <= |s| ==> r == s[..b]
    ensures b <= 0 <= a <= |s| ==> r == s[..a]
    ensures a <= 0 && |s| <= b ==> r == s
    ensures b <= 0 && |s| <= a ==> r == s
    ensures a <= 0 && b <= 0 ==> r == []
    ensures |s| <= a && |s| <= b ==> r == []
  {
    var lo, hi := Clamp(a, |s|), Clamp(b, |s|);
    if lo <= hi then s[lo..hi] else s[hi..lo]
  }

  /**
   * `t.slice(0, -n)`. For `n == 0` the end index is `-0`, which is `0`, so the
   * result is empty rather than the whole of `t`.
   */
  function SliceToNegative(t: string, n: nat): (r: string)
    ensures n == 0 ==> r == []
    ensures 0 < n <= |t| ==> r == t[..|t| - n]
    ensures n >= |t| ==> r == []
  {
    if n == 0 || n >= |t| then [] else t[..|t| - n]
  }

  /** The capture of `/(\s*)$/` on `t`: its longest suffix made of whitespace. */
  function TrailingWhitespace(t: string): (w: string)
    ensures |w| <= |t| && w == t[|t| - |w|..]
  {
    if t != [] && IsWhitespace(t[|t| - 1]) then TrailingWhitespace(t[..|t| - 1]) + [t[|t| - 1]] else []
  }

  /** The run is all whitespace and cannot be extended to the left; it is empty exactly when `t` does not end in whitespace. */
  lemma {:induction false} TrailingWhitespaceIsMaximal(t: string)
    ensures var w := TrailingWhitespace(t);
      && (forall i :: 0 <= i < |w| ==> IsWhitespace(w[i]))
      && (|w| < |t| ==> !IsWhitespace(t[|t| - |w| - 1]))
      && (t != [] ==> (|w| > 0 <==> IsWhitespace(t[|t| - 1])))
  {
    if t != [] && IsWhitespace(t[|t| - 1]) {
      TrailingWhitespaceIsMaximal(t[..|t| - 1]);
    }
  }

  /**
   * `s.length`: JavaScript counts UTF-16 code units, so a character outside the
   * Basic Multilingual Plane counts twice.
   */
  function Utf16Length(s: string): (n: nat)
    ensures |s| <= n <= 2 * |s|
    ensures (forall i :: 0 <= i < |s| ==> s[i] <= '\U{FFFF}') ==> n == |s|
  {
    if s == [] then 0 else (if s[0] <= '\U{FFFF}' then 1 else 2) + Utf16Length(s[1..])
  }

  /** An emoji is one character here and two code units in JavaScript. */
  lemma Utf16LengthOfAstral()
    ensures |"\U{1F600}"| == 1 && Utf16Length("\U{1F600}") == 2
  {
  }

  /** A search that starts after a prefix looks only at what follows the prefix. */
  lemma AtAfterPrefix(p: string, t: string, pat: string, i: int)
    requires 0 <= i
    ensures At(p + t, pat, |p| + i) <==> At(t, pat, i)
  {
    if i + |pat| <= |t| {
      assert (p + t)[|p| + i..|p| + i + |pat|] == t[i..i + |pat|];
    }
  }

  /** `indexOf` from inside the part after a prefix finds what it finds in that part, shifted. */
  lemma IndexOfAfterPrefix(p: string, t: string, pat: string, j: nat)
    requires j <= |t|
    ensures var x := IndexOf(t, pat, j);
      IndexOf(p + t, pat, |p| + j) == if x == -1 then -1 else |p| + x
  {
    var x := IndexOf(t, pat, j);
    var y := IndexOf(p + t, pat, |p| + j);
    if x == -1 {
      if y != -1 {
        AtAfterPrefix(p, t, pat, y - |p|);
      }
    } else {
      AtAfterPrefix(p, t, pat, x);
      if y != -1 && y < |p| + x {
        AtAfterPrefix(p, t, pat, y - |p|);
      }
    }
  }

  /** `indexOf` skips a stretch where the pattern does not occur. */
  lemma IndexOfSkip(s: string, pat: string, a: nat, b: nat)
    requires a <= b <= |s|
    requires forall j :: a <= j < b ==> !At(s, pat, j)
    ensures IndexOf(s, pat, a) == IndexOf(s, pat, b)
  {
  }

  /** The number of occurrences of `c` in `s`. */
  function Count(s: string, c: char): (n: nat)
    ensures n <= |s|
  {
    if s == [] then 0 else (if s[0] == c then 1 else 0) + Count(s[1..], c)
  }

  /** `s.split(sep)` for a one-character separator: the pieces between separators. */
  function Split(s: string, sep: char): (pieces: seq<string>)
    ensures |pieces| == Count(s, sep) + 1
    ensures forall i :: 0 <= i < |pieces| ==> sep !in pieces[i]
  {
    if s == [] then [[]]
    else
      var rest := Split(s[1..], sep);
      if s[0] == sep then [[]] + rest else [[s[0]] + rest[0]] + rest[1..]
  }

  /** `pieces.join(sep)`: the inverse of `Split`. */
  function Join(pieces: seq<string>, sep: char): string
    requires |pieces| > 0
  {
    if |pieces| == 1 then pieces[0] else pieces[0] + [sep] + Join(pieces[1..], sep)
  }

  /** Joining the pieces of a split gives back the string. */
  lemma {:induction false} JoinSplit(s: string, sep: char)
    ensures Join(Split(s, sep), sep) == s
  {
    if s != [] {
      var rest := Split(s[1..], sep);
      JoinSplit(s[1..], sep);
      if s[0] == sep {
        assert Split(s, sep) == [[]] + rest;
        assert ([[]] + rest)[1..] == rest;
      } else {
        var ps := [[s[0]] + rest[0]] + rest[1..];
        assert Split(s, sep) == ps;
        if |rest| == 1 {
          assert Join(rest, sep) == rest[0];
        } else {
          assert Join(rest, sep) == rest[0] + [sep] + Join(rest[1..], sep);
          assert ps[1..] == rest[1..];
        }
      }
    }
  }

  function Digit(d: nat): (c: char)
    requires d < 10
    ensures '0' <= c <= '9'
  {
    "0123456789"[d]
  }

  /** The decimal numeral of `n`, as `${n}` renders a non-negative integer. */
  function NatToDecimal(n: nat): (s: string)
    ensures |s| > 0
    ensures forall i :: 0 <= i < |s| ==> '0' <= s[i] <= '9'
  {
    if n < 10 then [Digit(n)] else NatToDecimal(n / 10) + [Digit(n % 10)]
  }

  /** `${i}` for an integer-valued number: a minus sign for negatives, then the numeral. */
  function IntToString(i: int): (s: string)
    ensures |s| > 0
    ensures (s[0] == '-') <==> i < 0
  {
    if i < 0 then "-" + NatToDecimal(-i) else NatToDecimal(i)
  }

  /** The value of a numeral of decimal digits. */
  function DecimalValue(s: string): nat
    requires forall i :: 0 <= i < |s| ==> '0' <= s[i] <= '9'
  {
    if s == [] then 0 else 10 * DecimalValue(s[..|s| - 1]) + (s[|s| - 1] as int - '0' as int)
  }

  lemma {:induction false} DecimalRoundTrip(n: nat)
    ensures DecimalValue(NatToDecimal(n)) == n
  {
    var s := NatToDecimal(n);
    if n >= 10 {
      DecimalRoundTrip(n / 10);
      assert s[..|s| - 1] == NatToDecimal(n / 10);
      assert s[|s| - 1] == Digit(n % 10);
      assert Digit(n % 10) as int - '0' as int == n % 10 by {
        var d := n % 10;
        assert d == 0 || d == 1 || d == 2 || d == 3 || d == 4 || d == 5 || d == 6 || d == 7 || d == 8 || d == 9;
      }
    } else {
      assert s == [Digit(n)];
      assert s[..0] == [];
      assert Digit(n) as int - '0' as int == n by {
        assert n == 0 || n == 1 || n == 2 || n == 3 || n == 4 || n == 5 || n == 6 || n == 7 || n == 8 || n == 9;
      }
    }
  }

  /** Distinct integers render as distinct strings. */
  lemma IntToStringInjective(a: int, b: int)
    requires a != b
    ensures IntToString(a) != IntToString(b)
  {
    if a < 0 && b < 0 {
      NatToDecimalInjective(-a, -b);
      MinusSignInjective(NatToDecimal(-a), NatToDecimal(-b));
      assert IntToString(a) == "-" + NatToDecimal(-a) && IntToString(b) == "-" + NatToDecimal(-b);
    } else if a >= 0 && b >= 0 {
      NatToDecimalInjective(a, b);
    } else {
      var sa, sb := IntToString(a), IntToString(b);
      assert (sa[0] == '-') != (sb[0] == '-');
    }
  }

  lemma MinusSignInjective(x: string, y: string)
    requires x != y
    ensures "-" + x != "-" + y
  {
    assert ("-" + x)[1..] == x && ("-" + y)[1..] == y;
  }

  lemma NatToDecimalInjective(a: nat, b: nat)
    requires a != b
    ensures NatToDecimal(a) != NatToDecimal(b)
  {
    DecimalRoundTrip(a);
    DecimalRoundTrip(b);
  }
}
