/**
 * The string primitives of Python and JavaScript that the renaming pipeline relies on,
 * with the exact semantics the pipeline observes: `str.split`, `str.join`, `str.replace`,
 * `str.strip`, `str.isalnum` / `str.isalpha`, negative indexing and clamped slicing, and
 * JavaScript's `String.prototype.indexOf`.
 */
module Text {
  import opened Results

  // ---------------------------------------------------------------------------
  // Character classes (ASCII; see README "Left out")
  // ---------------------------------------------------------------------------

  predicate IsAsciiLetter(c: char) {
    'a' <= c <= 'z' || 'A' <= c <= 'Z'
  }

  predicate IsAsciiDigit(c: char) {
    '0' <= c <= '9'
  }

  /** Python's `c.isalnum()` on one character. */
  predicate IsAlnum(c: char) {
    IsAsciiLetter(c) || IsAsciiDigit(c)
  }

  /** Python's `c.isalpha()` on one character. */
  predicate IsAlpha(c: char) {
    IsAsciiLetter(c)
  }

  /** Python's `s.isalpha()`: false on the empty string, otherwise every character is a letter. */
  predicate IsAlphaString(s: string) {
    |s| > 0 && forall i :: 0 <= i < |s| ==> IsAlpha(s[i])
  }

  /** A character of an identifier run as `mask_code` intends it: `c.isalnum() or c == '_'`. */
  predicate IsWordChar(c: char) {
    IsAlnum(c) || c == '_'
  }

  /** The characters that Python's `str.strip()` removes (the ASCII ones). */
  predicate IsSpace(c: char) {
    c == ' ' || c == '\t' || c == '\n' || c == '\r' || c == '\U{B}' || c == '\U{C}'
    || '\U{1C}' <= c <= '\U{1F}'
  }

  // ---------------------------------------------------------------------------
  // str.strip()
  // ---------------------------------------------------------------------------

  /** The index of the first non-whitespace character of `s` at or after `i` (or `|s|`). */
  function SkipSpaceForward(s: string, i: nat): (a: nat)
    requires i <= |s|
    ensures i <= a <= |s| && (a == |s| || !IsSpace(s[a]))
    ensures forall k :: i <= k < a ==> IsSpace(s[k])
    decreases |s| - i
  {
    if i < |s| && IsSpace(s[i]) then SkipSpaceForward(s, i + 1) else i
  }

  /** The end of `s[lo..j]` once its trailing whitespace is dropped. */
  function SkipSpaceBackward(s: string, lo: nat, j: nat): (b: nat)
    requires lo <= j <= |s|
    ensures lo <= b <= j && (b == lo || !IsSpace(s[b - 1]))
    ensures forall k :: b <= k < j ==> IsSpace(s[k])
  {
    if j > lo && IsSpace(s[j - 1]) then SkipSpaceBackward(s, lo, j - 1) else j
  }

  /** Python's `s.strip()`: the slice of `s` left once the whitespace at both ends is gone. */
  function Strip(s: string): (r: string)
    ensures r == [] || (!IsSpace(r[0]) && !IsSpace(r[|r| - 1]))
    ensures StrippedAt(s, r, SkipSpaceForward(s, 0))
  {
    var a := SkipSpaceForward(s, 0);
    var b := SkipSpaceBackward(s, a, |s|);
    s[a..b]
  }

  /** `r` is the slice of `s` starting at `a`, and everything of `s` around it is whitespace. */
  predicate StrippedAt(s: string, r: string, a: int) {
    0 <= a <= |s| - |r| && r == s[a..a + |r|]
    && (forall i :: 0 <= i < a ==> IsSpace(s[i]))
    && (forall i :: a + |r| <= i < |s| ==> IsSpace(s[i]))
  }

  // ---------------------------------------------------------------------------
  // Python indexing and slicing
  // ---------------------------------------------------------------------------

  /** Python's `s[i]`: a negative `i` counts from the end; `None` where Python raises IndexError. */
  function PyIndex(s: string, i: int): Option<char> {
    if 0 <= i < |s| then Some(s[i])
    else if -|s| <= i < 0 then Some(s[|s| + i])
    else None
  }

  /** Python's `s[:k]`: a negative `k` counts from the end, and the bound is clamped to `s`. */
  function PySliceTo(s: string, k: int): string {
    if k < 0 then s[..if |s| + k < 0 then 0 else |s| + k]
    else s[..if k > |s| then |s| else k]
  }

  /** Python's `s[k:]`, with the same conventions as `PySliceTo`. */
  function PySliceFrom(s: string, k: int): string {
    if k < 0 then s[if |s| + k < 0 then 0 else |s| + k..]
    else s[if k > |s| then |s| else k..]
  }

  // ---------------------------------------------------------------------------
  // str.split(sep) and sep.join(parts)
  // ---------------------------------------------------------------------------

  /** Python's `s.split(sep)` for a one-character separator: always at least one piece, none holding `sep`. */
  function Split(s: string, sep: char): (parts: seq<string>)
    ensures |parts| >= 1
    ensures forall i :: 0 <= i < |parts| ==> sep !in parts[i]
  {
    if |s| == 0 then [""]
    else
      var rest := Split(s[1..], sep);
      if s[0] == sep then [""] + rest
      else [[s[0]] + rest[0]] + rest[1..]
  }

  /** Python's `sep.join(parts)`. */
  function Join(parts: seq<string>, sep: string): string {
    if |parts| == 0 then ""
    else if |parts| == 1 then parts[0]
    else parts[0] + sep + Join(parts[1..], sep)
  }

  /** Python's `[x] * n`: `n` copies of `x`, none when `n <= 0`. */
  function Repeat(n: int, x: string): (r: seq<string>)
    ensures |r| == if n > 0 then n else 0
    ensures forall i :: 0 <= i < |r| ==> r[i] == x
  {
    if n <= 0 then [] else [x] + Repeat(n - 1, x)
  }

  /** Joining the pieces of a split with the same separator gives the original text back. */
  lemma {:induction false} JoinSplit(s: string, sep: char)
    ensures Join(Split(s, sep), [sep]) == s
  {
    if |s| > 0 {
      var rest := Split(s[1..], sep);
      JoinSplit(s[1..], sep);
      if s[0] == sep {
        assert Split(s, sep) == [""] + rest;
        assert ([""] + rest)[1..] == rest;
      } else if |rest| == 1 {
        assert Split(s, sep) == [[s[0]] + rest[0]];
      } else {
        var parts := Split(s, sep);
        assert parts == [[s[0]] + rest[0]] + rest[1..];
        assert parts[1..] == rest[1..];
        calc {
          Join(parts, [sep]);
          [s[0]] + rest[0] + [sep] + Join(rest[1..], [sep]);
          [s[0]] + (rest[0] + [sep] + Join(rest[1..], [sep]));
          [s[0]] + Join(rest, [sep]);
          [s[0]] + s[1..];
        }
      }
    }
  }

  lemma {:induction false} SplitWithoutSeparator(a: string, sep: char)
    requires sep !in a
    ensures Split(a, sep) == [a]
  {
    if |a| > 0 {
      assert sep !in a[1..];
      SplitWithoutSeparator(a[1..], sep);
      assert [a[0]] + a[1..] == a;
    }
  }

  lemma {:induction false} SplitAtSeparator(a: string, rest: string, sep: char)
    requires sep !in a
    ensures Split(a + [sep] + rest, sep) == [a] + Split(rest, sep)
  {
    var s := a + [sep] + rest;
    if |a| == 0 {
      assert s[0] == sep && s[1..] == rest;
    } else {
      assert s[0] == a[0] && s[1..] == a[1..] + [sep] + rest;
      assert sep !in a[1..];
      SplitAtSeparator(a[1..], rest, sep);
      assert [a[0]] + a[1..] == a;
    }
  }

  /** Splitting a join of separator-free pieces gives the pieces back, so their number is preserved. */
  lemma {:induction false} SplitJoin(parts: seq<string>, sep: char)
    requires |parts| >= 1
    requires forall i :: 0 <= i < |parts| ==> sep !in parts[i]
    ensures Split(Join(parts, [sep]), sep) == parts
  {
    if |parts| == 1 {
      SplitWithoutSeparator(parts[0], sep);
    } else {
      SplitJoin(parts[1..], sep);
      SplitAtSeparator(parts[0], Join(parts[1..], [sep]), sep);
      assert [parts[0]] + parts[1..] == parts;
    }
  }

  // ---------------------------------------------------------------------------
  // str.replace(pat, rep)
  // ---------------------------------------------------------------------------

  predicate StartsWith(s: string, w: string) {
    |w| <= |s| && s[..|w|] == w
  }

  /**
   * Python's `s.replace(pat, rep)`: scanning left to right, every non-overlapping occurrence
   * of `pat` is replaced by `rep`, in a single pass that never rescans what it inserted.
   */
  function Replace(s: string, pat: string, rep: string): string
    requires |pat| > 0
  {
    if |s| < |pat| then s
    else if s[..|pat|] == pat then rep + Replace(s[|pat|..], pat, rep)
    else [s[0]] + Replace(s[1..], pat, rep)
  }

  lemma {:induction false} ReplaceAtPattern(pat: string, t: string, rep: string)
    requires |pat| > 0
    ensures Replace(pat + t, pat, rep) == rep + Replace(t, pat, rep)
  {
    assert (pat + t)[..|pat|] == pat && (pat + t)[|pat|..] == t;
  }

  /** A text that starts with a character absent from `pat` keeps that character in front. */
  lemma {:induction false} ReplaceAfterForeignChar(c: char, t: string, pat: string, rep: string)
    requires |pat| > 0 && c !in pat
    ensures Replace([c] + t, pat, rep) == [c] + Replace(t, pat, rep)
  {
    var s := [c] + t;
    assert s[1..] == t;
    if |s| >= |pat| {
      assert s[..|pat|][0] == c != pat[0];
    }
  }

  lemma {:induction false} FirstCharOfPrefix(s: string, w: string)
    requires |w| > 0 && StartsWith(s, w)
    ensures s[0] == w[0]
  {
    assert s[..|w|][0] == s[0];
  }

  /**
   * When `rep` starts with a character that `w` does not contain, a prefix `w` of the replaced
   * text was already a prefix of the original text.
   */
  lemma {:induction false} ReplaceKeepsForeignPrefix(t: string, pat: string, rep: string, w: string)
    requires |pat| > 0 && |rep| > 0 && rep[0] !in w
    requires StartsWith(Replace(t, pat, rep), w)
    ensures StartsWith(t, w)
  {
    if |w| > 0 && |t| >= |pat| {
      var r := Replace(t, pat, rep);
      if t[..|pat|] == pat {
        FirstCharOfPrefix(r, w);
        assert false;
      } else {
        var y := Replace(t[1..], pat, rep);
        assert r == [t[0]] + y;
        assert r[..|w|] == [t[0]] + y[..|w| - 1];
        assert y[..|w| - 1] == w[1..];
        ReplaceKeepsForeignPrefix(t[1..], pat, rep, w[1..]);
        assert t[..|w|] == [t[0]] + t[1..][..|w| - 1];
      }
    }
  }

  /** A text that starts with `pat` has that occurrence replaced first. */
  lemma {:induction false} ReplaceAtStart(s: string, pat: string, rep: string)
    requires |pat| > 0 && |s| >= |pat| && s[..|pat|] == pat
    ensures Replace(s, pat, rep) == rep + Replace(s[|pat|..], pat, rep)
  {
  }

  /** The second pass over a padded occurrence: the spaces are kept and `pat` becomes `rep`. */
  lemma {:induction false} ReplacePadded(pat: string, x: string, rep: string)
    requires |pat| > 0 && ' ' !in pat
    ensures Replace(" " + pat + " " + x, pat, rep) == " " + rep + " " + Replace(x, pat, rep)
  {
    assert " " + pat + " " + x == [' '] + (pat + (" " + x));
    ReplaceAfterForeignChar(' ', pat + (" " + x), pat, rep);
    ReplaceAtPattern(pat, " " + x, rep);
    ReplaceAfterForeignChar(' ', x, pat, rep);
    assert " " + rep + " " + Replace(x, pat, rep) == [' '] + (rep + ([' '] + Replace(x, pat, rep)));
  }

  /** The step of `ReplaceTwice` for a text that starts with `pat`. */
  lemma {:induction false} ReplaceTwiceAtPattern(s: string, pat: string, rep: string)
    requires |pat| > 0 && ' ' !in pat && |s| >= |pat| && s[..|pat|] == pat
    requires Replace(Replace(s[|pat|..], pat, " " + pat + " "), pat, rep) == Replace(s[|pat|..], pat, " " + rep + " ")
    ensures Replace(Replace(s, pat, " " + pat + " "), pat, rep) == Replace(s, pat, " " + rep + " ")
  {
    var x := Replace(s[|pat|..], pat, " " + pat + " ");
    ReplaceAtStart(s, pat, " " + pat + " ");
    ReplacePadded(pat, x, rep);
    ReplaceAtStart(s, pat, " " + rep + " ");
  }

  /** A text that does not start with `pat` keeps its first character in front. */
  lemma {:induction false} ReplaceAtMismatch(c: char, y: string, pat: string, rep: string)
    requires |pat| > 0 && !StartsWith([c] + y, pat)
    ensures Replace([c] + y, pat, rep) == [c] + Replace(y, pat, rep)
  {
    assert ([c] + y)[1..] == y;
  }

  /** The first pass cannot make a text that does not start with `pat` start with it. */
  lemma {:induction false} FirstPassKeepsMismatch(s: string, pat: string)
    requires |pat| > 0 && ' ' !in pat && |s| >= |pat| && s[..|pat|] != pat
    ensures !StartsWith([s[0]] + Replace(s[1..], pat, " " + pat + " "), pat)
  {
    var padded := " " + pat + " ";
    var y := Replace(s[1..], pat, padded);
    var t := [s[0]] + y;
    if StartsWith(t, pat) {
      assert StartsWith(y, pat[1..]) by {
        assert y[..|pat| - 1] == t[..|pat|][1..];
      }
      assert padded[0] !in pat[1..];
      ReplaceKeepsForeignPrefix(s[1..], pat, padded, pat[1..]);
      assert false;
    }
  }

  /** The step of `ReplaceTwice` for a text that does not start with `pat`. */
  lemma {:induction false} ReplaceTwiceElsewhere(s: string, pat: string, rep: string)
    requires |pat| > 0 && ' ' !in pat && |s| >= |pat| && s[..|pat|] != pat
    requires Replace(Replace(s[1..], pat, " " + pat + " "), pat, rep) == Replace(s[1..], pat, " " + rep + " ")
    ensures Replace(Replace(s, pat, " " + pat + " "), pat, rep) == Replace(s, pat, " " + rep + " ")
  {
    assert s == [s[0]] + s[1..];
    ReplaceAtMismatch(s[0], s[1..], pat, " " + pat + " ");
    FirstPassKeepsMismatch(s, pat);
    ReplaceAtMismatch(s[0], Replace(s[1..], pat, " " + pat + " "), pat, rep);
    ReplaceAtMismatch(s[0], s[1..], pat, " " + rep + " ");
  }

  /**
   * Replacing `pat` by `" " + pat + " "` and then `pat` by `rep` is one single-pass replacement of
   * `pat` by `" " + rep + " "`: the second pass sees exactly the occurrences of the first, once each.
   */
  lemma {:induction false} ReplaceTwice(s: string, pat: string, rep: string)
    requires |pat| > 0 && ' ' !in pat
    ensures Replace(Replace(s, pat, " " + pat + " "), pat, rep) == Replace(s, pat, " " + rep + " ")
  {
    if |s| < |pat| {
    } else if s[..|pat|] == pat {
      ReplaceTwice(s[|pat|..], pat, rep);
      ReplaceTwiceAtPattern(s, pat, rep);
    } else {
      ReplaceTwice(s[1..], pat, rep);
      ReplaceTwiceElsewhere(s, pat, rep);
    }
  }

  /** Replacing each of `n` space-separated copies of `pat` by `x` gives `n` space-separated copies of `x`. */
  lemma {:induction false} ReplaceInRepeat(n: int, pat: string, x: string)
    requires n >= 1 && |pat| > 0 && ' ' !in pat
    ensures Replace(Join(Repeat(n, pat), " "), pat, x) == Join(Repeat(n, x), " ")
  {
    if n == 1 {
      ReplaceAtPattern(pat, "", x);
      assert pat + "" == pat && x + "" == x;
    } else {
      var rest := Join(Repeat(n - 1, pat), " ");
      assert Repeat(n, pat)[1..] == Repeat(n - 1, pat);
      assert Repeat(n, x)[1..] == Repeat(n - 1, x);
      assert Join(Repeat(n, pat), " ") == pat + (" " + rest);
      ReplaceAtPattern(pat, " " + rest, x);
      ReplaceAfterForeignChar(' ', rest, pat, x);
      ReplaceInRepeat(n - 1, pat, x);
    }
  }

  // ---------------------------------------------------------------------------
  // JavaScript's text.indexOf(word, from)
  // ---------------------------------------------------------------------------

  /** `word` occurs in `text` starting at index `p`. */
  predicate MatchAt(text: string, word: string, p: int) {
    0 <= p && p + |word| <= |text| && forall j :: 0 <= j < |word| ==> text[p + j] == word[j]
  }

  /**
   * JavaScript's `text.indexOf(word, from)` for a non-empty `word` and a non-negative `from`: the
   * least index at or after `from` where `word` occurs, or -1 when there is none.
   */
  function IndexOf(text: string, word: string, from: nat): int
    requires |word| > 0
    decreases |text| - from
  {
    if from + |word| > |text| then -1
    else if MatchAt(text, word, from) then from
    else IndexOf(text, word, from + 1)
  }

  /** `indexOf` finds the first match at or after `from`, and -1 exactly when there is none. */
  lemma {:induction false} IndexOfFirstMatch(text: string, word: string, from: nat)
    requires |word| > 0
    ensures var r := IndexOf(text, word, from);
            (r == -1 || (from <= r && MatchAt(text, word, r)))
            && forall p :: from <= p && (r == -1 || p < r) ==> !MatchAt(text, word, p)
    decreases |text| - from
  {
    if from + |word| <= |text| && !MatchAt(text, word, from) {
      IndexOfFirstMatch(text, word, from + 1);
    }
  }
}
