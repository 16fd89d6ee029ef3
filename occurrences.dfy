/**
 * The editor side of the renaming: `findOccurrencesInDocument`
 * (irename/src/commands/renameIdentifier.ts), which finds every non-overlapping match of the word
 * under the cursor, line by line, with `indexOf`. The document is its sequence of line texts, and
 * the word range the editor reports for the cursor position is an input.
 */
module Occurrences {
  import opened Results
  import opened Text

  /** A range within one line: characters `start .. end - 1` of line `line` (all 0-based). */
  datatype Range = Range(line: int, start: int, end: int)

  /** The exceptions the editor API raises before the search begins. */
  datatype FindError =
    | IllegalLine       // `document.lineAt(line - 1)` outside the document
    | IllegalCharacter  // `new Position(line - 1, char - 1)` with a negative character

  /** A range the editor can report for a document: inside one of its lines. */
  predicate ValidRange(lines: seq<string>, r: Range) {
    0 <= r.line < |lines| && 0 <= r.start <= r.end <= |lines[r.line]|
  }

  /** `document.getText(range)` for a range inside one line. */
  function RangeText(lines: seq<string>, r: Range): string
    requires ValidRange(lines, r)
  {
    lines[r.line][r.start..r.end]
  }

  /**
   * The non-overlapping matches of `word` on a line, taken greedily from the left starting at
   * `from`: the indices the `indexOf` loop visits.
   */
  function LineMatches(text: string, word: string, from: nat): seq<nat>
    requires |word| > 0
    decreases |text| - from
  {
    if from + |word| > |text| then []
    else if MatchAt(text, word, from) then [from] + LineMatches(text, word, from + |word|)
    else LineMatches(text, word, from + 1)
  }

  /** The ranges pushed for line `i`, one per visited index. */
  function LineRanges(i: int, matches: seq<int>, word: string): seq<Range> {
    seq(|matches|, k requires 0 <= k < |matches| => Range(i, matches[k], matches[k] + |word|))
  }

  /** The ranges pushed for every line, in line order. */
  function DocumentRanges(lines: seq<string>, word: string): seq<Range>
    requires |word| > 0
  {
    if |lines| == 0 then []
    else
      var last := |lines| - 1;
      DocumentRanges(lines[..last], word) + LineRanges(last, LineMatches(lines[last], word, 0), word)
  }

  /** What `findOccurrencesInDocument(document, line, char)` returns, or the exception it raises. */
  function FindOccurrences(lines: seq<string>, line: int, ch: int, wordRange: Option<Range>): Result<seq<Range>, FindError>
    requires wordRange.Some? ==> ValidRange(lines, wordRange.value)
  {
    if !(0 <= line - 1 < |lines|) then Failure(IllegalLine)
    else if ch - 1 < 0 then Failure(IllegalCharacter)
    else if wordRange.None? || wordRange.value.start == wordRange.value.end then Success([])
    else Success(DocumentRanges(lines, RangeText(lines, wordRange.value)))
  }

  /** The for-loop over the lines around the while-loop that advances `index`. */
  method FindOccurrencesInDocument(lines: seq<string>, line: int, ch: int, wordRange: Option<Range>)
    returns (r: Result<seq<Range>, FindError>)
    requires wordRange.Some? ==> ValidRange(lines, wordRange.value)
    ensures r == FindOccurrences(lines, line, ch, wordRange)
  {
    if !(0 <= line - 1 < |lines|) {
      return Failure(IllegalLine);
    }
    if ch - 1 < 0 {
      return Failure(IllegalCharacter);
    }
    if wordRange.None? || wordRange.value.start == wordRange.value.end {
      return Success([]);
    }
    var range := wordRange.value;
    var targetWord := RangeText(lines, range);
    var occurrences: seq<Range> := [];
    for i := 0 to |lines|
      invariant occurrences == DocumentRanges(lines[..i], targetWord)
    {
      DocumentRangesSnoc(lines, i, targetWord);
      occurrences := PushLineOccurrences(occurrences, i, lines[i], targetWord, range.start);
    }
    assert lines[..|lines|] == lines;
    return Success(occurrences);
  }

  /**
   * The body of the for-loop for line `i`: the while-loop that pushes a range for every index
   * `indexOf` visits on the line, resuming the search at `index + targetWord.length`.
   */
  method PushLineOccurrences(occurrences: seq<Range>, i: int, text: string, targetWord: string, start: int)
    returns (pushed: seq<Range>)
    requires |targetWord| > 0
    ensures pushed == occurrences + LineRanges(i, LineMatches(text, targetWord, 0), targetWord)
  {
    pushed := occurrences;
    ghost var all := LineMatches(text, targetWord, 0);
    ghost var n := 0;
    LineMatchesStep(text, targetWord, 0);
    LineMatchesAreMatches(text, targetWord, 0);
    var index := IndexOf(text, targetWord, 0);
    while index != -1
      invariant 0 <= n <= |all|
      invariant index == (if n < |all| then all[n] else -1)
      invariant pushed == occurrences + LineRanges(i, all[..n], targetWord)
      decreases |all| - n
    {
      assert MatchAt(text, targetWord, all[n]);
      LineMatchesNext(text, targetWord, 0, n);
      LineRangesSnoc(i, all, n, targetWord);
      var found := Range(i, index, index + |targetWord|);
      var isSameWord := text[index..index + |targetWord|] == targetWord;
      var isSamePosition := index == start;
      if isSameWord && isSamePosition {
        pushed := pushed + [found];
      } else if isSameWord && !isSamePosition {
        pushed := pushed + [found];
      }
      index := IndexOf(text, targetWord, index + |targetWord|);
      n := n + 1;
    }
    assert all[..n] == all;
  }

  // ---------------------------------------------------------------------------
  // Properties
  // ---------------------------------------------------------------------------

  /**
   * One round of the `indexOf` loop follows the greedy scan: no match ends the line, and a match
   * is visited and the scan goes on after it.
   */
  lemma {:induction false} LineMatchesStep(text: string, word: string, from: nat)
    requires |word| > 0
    ensures var index := IndexOf(text, word, from);
            (index == -1 ==> LineMatches(text, word, from) == [])
            && (index != -1 ==>
                  from <= index && MatchAt(text, word, index)
                  && LineMatches(text, word, from) == [index] + LineMatches(text, word, index + |word|))
    decreases |text| - from
  {
    if from + |word| <= |text| && !MatchAt(text, word, from) {
      LineMatchesStep(text, word, from + 1);
    }
  }

  /** Pushing the range of the `n`-th visited index extends the ranges of the first `n`. */
  lemma {:induction false} LineRangesSnoc(i: int, ms: seq<int>, n: int, word: string)
    requires 0 <= n < |ms|
    ensures LineRanges(i, ms[..n + 1], word) == LineRanges(i, ms[..n], word) + [Range(i, ms[n], ms[n] + |word|)]
  {
  }

  /**
   * `indexOf` resumed after the `j`-th visited index finds the next visited index, or -1 after
   * the last.
   */
  lemma {:induction false} LineMatchesNext(text: string, word: string, from: nat, j: int)
    requires |word| > 0 && 0 <= j < |LineMatches(text, word, from)|
    ensures var all := LineMatches(text, word, from);
            IndexOf(text, word, all[j] + |word|) == (if j + 1 < |all| then all[j + 1] else -1)
    decreases j
  {
    LineMatchesStep(text, word, from);
    var index := IndexOf(text, word, from);
    var rest := LineMatches(text, word, index + |word|);
    if j == 0 {
      LineMatchesStep(text, word, index + |word|);
    } else {
      LineMatchesNext(text, word, index + |word|, j - 1);
    }
  }

  /** The ranges of the first `i + 1` lines extend those of the first `i` by the ranges of line `i`. */
  lemma {:induction false} DocumentRangesSnoc(lines: seq<string>, i: int, word: string)
    requires 0 <= i < |lines| && |word| > 0
    ensures DocumentRanges(lines[..i + 1], word)
         == DocumentRanges(lines[..i], word) + LineRanges(i, LineMatches(lines[i], word, 0), word)
  {
    assert lines[..i + 1][..i] == lines[..i];
  }

  /** On one line every visited index is a match at or after `from`. */
  lemma {:induction false} LineMatchesAreMatches(text: string, word: string, from: nat)
    requires |word| > 0
    ensures MatchesFrom(text, word, from, LineMatches(text, word, from))
    decreases |text| - from + 1
  {
    LineMatchesStep(text, word, from);
    var index := IndexOf(text, word, from);
    if index != -1 {
      LineMatchesAreMatches(text, word, index + |word|);
    }
  }

  /**
   * The search resumes at `index + |word|`: neighbouring visited indices are at least `|word|`
   * apart, so the ranges of one line strictly increase and do not overlap.
   */
  lemma {:induction false} LineMatchesSpaced(text: string, word: string, from: nat)
    requires |word| > 0
    ensures Spaced(LineMatches(text, word, from), |word|)
    decreases |text| - from + 1
  {
    LineMatchesStep(text, word, from);
    var index := IndexOf(text, word, from);
    if index != -1 {
      var rest := LineMatches(text, word, index + |word|);
      LineMatchesSpaced(text, word, index + |word|);
      LineMatchesAreMatches(text, word, index + |word|);
      var ms := [index] + rest;
      forall k | 0 <= k < |ms| - 1
        ensures ms[k] + |word| <= ms[k + 1]
      {
        if k > 0 {
          assert ms[k] == rest[k - 1] && ms[k + 1] == rest[k];
        }
      }
    }
  }

  /**
   * No match is skipped except by overlap: every match at or after `from` is visited or starts
   * inside a visited one.
   */
  lemma {:induction false} LineMatchesComplete(text: string, word: string, from: nat, p: int)
    requires |word| > 0
    requires from <= p && MatchAt(text, word, p)
    ensures var ms := LineMatches(text, word, from);
            p in ms || exists k :: 0 <= k < |ms| && ms[k] < p < ms[k] + |word|
    decreases |text| - from + 1
  {
    LineMatchesStep(text, word, from);
    IndexOfFirstMatch(text, word, from);
    var index := IndexOf(text, word, from);
    assert index != -1;
    var rest := LineMatches(text, word, index + |word|);
    var ms := [index] + rest;
    if p == index {
      assert ms[0] == p;
    } else if p < index + |word| {
      assert ms[0] < p < ms[0] + |word|;
    } else {
      LineMatchesComplete(text, word, index + |word|, p);
      if p in rest {
        var j :| 0 <= j < |rest| && rest[j] == p;
        assert ms[j + 1] == p;
      } else {
        var j :| 0 <= j < |rest| && rest[j] < p < rest[j] + |word|;
        assert ms[j + 1] == rest[j];
      }
    }
  }

  /** Ranges built from matches on line `i` lie inside that line, span the word and hold it. */
  lemma {:induction false} LineRangesMatch(lines: seq<string>, i: int, ms: seq<int>, word: string)
    requires 0 <= i < |lines|
    requires MatchesFrom(lines[i], word, 0, ms)
    ensures forall r :: r in LineRanges(i, ms, word) ==>
              ValidRange(lines, r) && r.end - r.start == |word| && RangeText(lines, r) == word
  {
    var rs := LineRanges(i, ms, word);
    forall r | r in rs
      ensures ValidRange(lines, r) && r.end - r.start == |word| && RangeText(lines, r) == word
    {
      var k :| 0 <= k < |rs| && rs[k] == r;
      assert MatchAt(lines[i], word, ms[k]);
    }
  }

  /** Every reported range spans exactly the word's length and its text is the word. */
  lemma {:induction false} DocumentRangesMatch(lines: seq<string>, word: string)
    requires |word| > 0
    ensures forall r :: r in DocumentRanges(lines, word) ==>
              ValidRange(lines, r) && r.end - r.start == |word| && RangeText(lines, r) == word
  {
    if |lines| > 0 {
      var last := |lines| - 1;
      var prefix := lines[..last];
      DocumentRangesMatch(prefix, word);
      LineMatchesAreMatches(lines[last], word, 0);
      LineRangesMatch(lines, last, LineMatches(lines[last], word, 0), word);
      forall r | r in DocumentRanges(prefix, word)
        ensures ValidRange(lines, r) && RangeText(lines, r) == word
      {
        assert prefix[r.line] == lines[r.line];
      }
    }
  }

  /**
   * Nothing is missed: every match of the word in any line is covered by a reported range of
   * that line (its own, or the one it overlaps).
   */
  lemma {:induction false} DocumentRangesComplete(lines: seq<string>, word: string, l: int, p: int)
    requires |word| > 0 && 0 <= l < |lines| && MatchAt(lines[l], word, p)
    ensures exists r :: r in DocumentRanges(lines, word) && r.line == l && r.start <= p < r.end
  {
    var last := |lines| - 1;
    var earlier := DocumentRanges(lines[..last], word);
    var ms := LineMatches(lines[last], word, 0);
    var here := LineRanges(last, ms, word);
    assert DocumentRanges(lines, word) == earlier + here;
    if l == last {
      LineMatchesComplete(lines[l], word, 0, p);
      var k :| 0 <= k < |ms| && ms[k] <= p < ms[k] + |word|;
      assert here[k] in earlier + here;
    } else {
      assert lines[..last][l] == lines[l];
      DocumentRangesComplete(lines[..last], word, l, p);
      var r :| r in earlier && r.line == l && r.start <= p < r.end;
      assert r in earlier + here;
    }
  }

  /** `a` comes before `b` in document order and does not overlap it. */
  predicate Before(a: Range, b: Range) {
    a.line < b.line || (a.line == b.line && a.end <= b.start)
  }

  /** Every index in `ms` is a match of `word` in `text` at or after `from`. */
  predicate MatchesFrom(text: string, word: string, from: nat, ms: seq<int>) {
    forall k :: 0 <= k < |ms| ==> from <= ms[k] && MatchAt(text, word, ms[k])
  }

  /** Neighbouring indices are at least `gap` apart. */
  predicate Spaced(ms: seq<int>, gap: int) {
    forall k :: 0 <= k < |ms| - 1 ==> ms[k] + gap <= ms[k + 1]
  }

  /** Every range lies on one of the first `n` lines. */
  predicate LinesBelow(rs: seq<Range>, n: int) {
    forall k :: 0 <= k < |rs| ==> 0 <= rs[k].line < n
  }

  /** Each range comes before every later one. */
  predicate InOrder(rs: seq<Range>) {
    forall a, b :: 0 <= a < b < |rs| ==> Before(rs[a], rs[b])
  }

  /** Neighbouring indices at least `gap` apart make any two indices at least `gap` apart. */
  lemma {:induction false} LineMatchesChain(ms: seq<int>, gap: int, a: int, b: int)
    requires gap > 0 && 0 <= a < b < |ms|
    requires Spaced(ms, gap)
    ensures ms[a] + gap <= ms[b]
    decreases b - a
  {
    if b > a + 1 {
      LineMatchesChain(ms, gap, a, b - 1);
    }
  }

  /** Ranges built from indices at least the word's length apart are in column order without overlap. */
  lemma {:induction false} LineRangesOrdered(i: int, ms: seq<int>, word: string)
    requires |word| > 0
    requires Spaced(ms, |word|)
    ensures InOrder(LineRanges(i, ms, word))
  {
    var rs := LineRanges(i, ms, word);
    forall a, b | 0 <= a < b < |rs|
      ensures Before(rs[a], rs[b])
    {
      LineMatchesChain(ms, |word|, a, b);
    }
  }

  /** Ranges of earlier lines, in order, followed by ranges of line `last`, in order, are in order. */
  lemma {:induction false} OrderedAppend(earlier: seq<Range>, here: seq<Range>, last: int)
    requires 0 <= last && LinesBelow(earlier, last) && InOrder(earlier)
    requires forall k :: 0 <= k < |here| ==> here[k].line == last
    requires InOrder(here)
    ensures LinesBelow(earlier + here, last + 1) && InOrder(earlier + here)
  {
    var rs := earlier + here;
    forall k | 0 <= k < |rs|
      ensures 0 <= rs[k].line < last + 1
    {
      if k >= |earlier| {
        assert rs[k] == here[k - |earlier|];
      } else {
        assert rs[k] == earlier[k];
      }
    }
    forall a, b | 0 <= a < b < |rs|
      ensures Before(rs[a], rs[b])
    {
      if b >= |earlier| {
        assert rs[b] == here[b - |earlier|];
        if a >= |earlier| {
          assert rs[a] == here[a - |earlier|];
        }
      }
    }
  }

  /** The ranges are ordered by line and then by column, with no overlap on a line. */
  lemma {:induction false} DocumentRangesOrdered(lines: seq<string>, word: string)
    requires |word| > 0
    ensures LinesBelow(DocumentRanges(lines, word), |lines|) && InOrder(DocumentRanges(lines, word))
  {
    if |lines| > 0 {
      var last := |lines| - 1;
      var ms := LineMatches(lines[last], word, 0);
      DocumentRangesOrdered(lines[..last], word);
      LineMatchesSpaced(lines[last], word, 0);
      LineRangesOrdered(last, ms, word);
      OrderedAppend(DocumentRanges(lines[..last], word), LineRanges(last, ms, word), last);
    }
  }

  /** A word that is part of a longer identifier is still reported: `x` is found inside `max`. */
  lemma {:induction false} SubstringInsideIdentifier(text: string)
    requires text == "max = x"
    ensures LineMatches(text, "x", 0) == [2, 6]
  {
    var x := "x";
    assert text[0] == 'm' && text[1] == 'a' && text[2] == 'x' && text[3] == ' ';
    assert text[4] == '=' && text[5] == ' ' && text[6] == 'x' && x[0] == 'x';
    assert LineMatches(text, x, 7) == [];
    assert MatchAt(text, x, 6);
    assert LineMatches(text, x, 6) == [6];
    assert !MatchAt(text, x, 5) && !MatchAt(text, x, 4) && !MatchAt(text, x, 3);
    assert LineMatches(text, x, 5) == [6];
    assert LineMatches(text, x, 4) == [6];
    assert LineMatches(text, x, 3) == [6];
    assert MatchAt(text, x, 2);
    assert LineMatches(text, x, 2) == [2, 6];
    assert !MatchAt(text, x, 1) && !MatchAt(text, x, 0);
    assert LineMatches(text, x, 1) == [2, 6];
  }

  /** A missing or empty word range gives no occurrences once the position itself is legal. */
  lemma {:induction false} EmptyWordRange(lines: seq<string>, line: int, ch: int, wordRange: Option<Range>)
    requires wordRange.Some? ==> ValidRange(lines, wordRange.value)
    requires 0 <= line - 1 < |lines| && ch >= 1
    requires wordRange.None? || wordRange.value.start == wordRange.value.end
    ensures FindOccurrences(lines, line, ch, wordRange) == Success([])
  {
  }
}
