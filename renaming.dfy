/**
 * The rename server's occurrence resolver (`find_variable_at_position`) and masking
 * transform (`mask_code`), both in server/api/renaming.py.
 *
 * The Java lexer is an external collaborator: its output (or the message of the
 * exception it raised) is an input here.
 */
module Renaming {
  import opened Results
  import opened Text

  // ---------------------------------------------------------------------------
  // Tokens, positions, errors
  // ---------------------------------------------------------------------------

  /** The token classes of the Java lexer; only `Identifier` tokens can name a variable. */
  datatype TokenKind =
    | Identifier | Keyword | Modifier | BasicType | BooleanLiteral | NullLiteral
    | Literal | Separator | Operator | Annotation

  /** A lexer token: its class, its text and its 1-based start line and column. */
  datatype Token = Token(kind: TokenKind, value: string, line: int, column: int)

  /** A 1-based (line, column) pair. */
  datatype Position = Position(line: int, column: int)

  /** What the lexer produced: the token list, or the message of the exception it raised. */
  datatype Lexed = Tokens(tokens: seq<Token>) | LexFailure(message: string)

  datatype ResolveError = NoTokenFound | NotAnIdentifier | ParseError(message: string)

  /** The error text `find_variable_at_position` returns for each failure. */
  function ErrorMessage(e: ResolveError): string {
    match e
    case NoTokenFound => "No token found at that position."
    case NotAnIdentifier => "Token at position is not an identifier."
    case ParseError(m) => "Error parsing Java code: " + m
  }

  /**
   * The returned text identifies the failure: the three kinds of message are distinct, and a
   * parse error's message carries the lexer's message unchanged.
   */
  lemma {:induction false} ErrorMessageInjective(a: ResolveError, b: ResolveError)
    ensures ErrorMessage(a) == ErrorMessage(b) <==> a == b
  {
    if ErrorMessage(a) == ErrorMessage(b) {
      assert ErrorMessage(a)[0] == ErrorMessage(b)[0];
      if a.ParseError? && b.ParseError? {
        var prefix := "Error parsing Java code: ";
        assert (prefix + a.message)[|prefix|..] == a.message;
        assert (prefix + b.message)[|prefix|..] == b.message;
      }
    }
  }

  /** A successful resolution: the identifier's name and the positions of all its occurrences. */
  datatype Resolution = Resolution(name: string, occurrences: seq<Position>)

  function PositionOf(t: Token): Position {
    Position(t.line, t.column)
  }

  // ---------------------------------------------------------------------------
  // find_variable_at_position
  // ---------------------------------------------------------------------------

  /** Token `t` lies on `line` and its span `[column, column + |value| - 1]` contains `col`. */
  predicate Covers(t: Token, line: int, col: int) {
    t.line == line && t.column <= col <= t.column + |t.value| - 1
  }

  /** `tokens[k]` covers (line, col) and no earlier token does. */
  predicate IsFirstCovering(tokens: seq<Token>, line: int, col: int, k: int) {
    0 <= k < |tokens| && Covers(tokens[k], line, col)
    && forall i :: 0 <= i < k ==> !Covers(tokens[i], line, col)
  }

  /** The index of the first token, in stream order, covering (line, col); `None` if no token does. */
  function FirstCovering(tokens: seq<Token>, line: int, col: int): (r: Option<nat>)
    ensures r.Some? ==> IsFirstCovering(tokens, line, col, r.value)
    ensures r.None? ==> forall i :: 0 <= i < |tokens| ==> !Covers(tokens[i], line, col)
  {
    if |tokens| == 0 then None
    else if Covers(tokens[0], line, col) then Some(0)
    else
      match FirstCovering(tokens[1..], line, col)
      case None => None
      case Some(k) => Some(k + 1)
  }

  /** The positions of the identifier tokens spelled `name`, in token order. */
  function IdentifierPositions(tokens: seq<Token>, name: string): seq<Position> {
    if |tokens| == 0 then []
    else
      var last := tokens[|tokens| - 1];
      IdentifierPositions(tokens[..|tokens| - 1], name)
        + (if last.kind == Identifier && last.value == name then [PositionOf(last)] else [])
  }

  /** The lexical resolution strategy: the token at (line, col), then every identifier token with its spelling. */
  function Resolve(tokens: seq<Token>, line: int, col: int): Result<Resolution, ResolveError> {
    match FirstCovering(tokens, line, col)
    case None => Failure(NoTokenFound)
    case Some(k) =>
      if tokens[k].kind != Identifier then Failure(NotAnIdentifier)
      else Success(Resolution(tokens[k].value, IdentifierPositions(tokens, tokens[k].value)))
  }

  function ResolveLexed(lexed: Lexed, line: int, col: int): Result<Resolution, ResolveError> {
    match lexed
    case LexFailure(m) => Failure(ParseError(m))
    case Tokens(tokens) => Resolve(tokens, line, col)
  }

  /** `find_variable_at_position`, on the lexer's output. */
  method FindVariableAtPosition(lexed: Lexed, line: int, col: int)
    returns (r: Result<Resolution, ResolveError>)
    ensures r == ResolveLexed(lexed, line, col)
  {
    if lexed.LexFailure? {
      return Failure(ParseError(lexed.message));
    }
    var tokens := lexed.tokens;

    // 1) the first token on `line` whose column span contains `col`
    var found: Option<Token> := None;
    ghost var foundIndex := 0;
    for i := 0 to |tokens|
      invariant forall k :: 0 <= k < i ==> !Covers(tokens[k], line, col)
    {
      var t := tokens[i];
      if t.line == line {
        var startCol := t.column;
        var endCol := startCol + |t.value| - 1;
        if startCol <= col <= endCol {
          found := Some(t);
          foundIndex := i;
          break;
        }
      }
    }
    assert found.Some? ==> IsFirstCovering(tokens, line, col, foundIndex) && found.value == tokens[foundIndex];

    // 2) the failures
    if found.None? {
      return Failure(NoTokenFound);
    }
    if found.value.kind != Identifier {
      return Failure(NotAnIdentifier);
    }
    var variableName := found.value.value;

    // 3) every identifier token with that spelling
    var occurrences: seq<Position> := [];
    for i := 0 to |tokens|
      invariant occurrences == IdentifierPositions(tokens[..i], variableName)
    {
      var t := tokens[i];
      assert tokens[..i + 1][..i] == tokens[..i];
      if t.kind == Identifier && t.value == variableName {
        occurrences := occurrences + [Position(t.line, t.column)];
      }
    }
    assert tokens[..|tokens|] == tokens;
    return Success(Resolution(variableName, occurrences));
  }

  /** A position is an occurrence exactly when some identifier token spelled `name` starts there. */
  lemma {:induction false} IdentifierPositionsExact(tokens: seq<Token>, name: string, p: Position)
    ensures p in IdentifierPositions(tokens, name)
        <==> exists i :: 0 <= i < |tokens| && tokens[i].kind == Identifier && tokens[i].value == name
                         && PositionOf(tokens[i]) == p
  {
    if |tokens| > 0 {
      var init := tokens[..|tokens| - 1];
      IdentifierPositionsExact(init, name, p);
      assert forall i :: 0 <= i < |init| ==> init[i] == tokens[i];
    }
  }

  /** Resolution reports `NoTokenFound` exactly when no token covers the position. */
  lemma {:induction false} ResolveNoTokenFound(tokens: seq<Token>, line: int, col: int)
    ensures Resolve(tokens, line, col) == Failure(NoTokenFound)
        <==> forall i :: 0 <= i < |tokens| ==> !Covers(tokens[i], line, col)
  {
    if FirstCovering(tokens, line, col).Some? {
      var k := FirstCovering(tokens, line, col).value;
      assert Covers(tokens[k], line, col);
    }
  }

  /** A requested line that no token lies on (for instance one past the end of the text) finds no token. */
  lemma {:induction false} ResolveLineWithoutTokens(tokens: seq<Token>, line: int, col: int)
    requires forall i :: 0 <= i < |tokens| ==> tokens[i].line != line
    ensures Resolve(tokens, line, col) == Failure(NoTokenFound)
  {
    ResolveNoTokenFound(tokens, line, col);
  }

  /** Resolution reports `NotAnIdentifier` exactly when the first covering token is not an identifier. */
  lemma {:induction false} ResolveNotAnIdentifier(tokens: seq<Token>, line: int, col: int)
    ensures Resolve(tokens, line, col) == Failure(NotAnIdentifier)
        <==> exists k :: IsFirstCovering(tokens, line, col, k) && tokens[k].kind != Identifier
  {
    if exists k :: IsFirstCovering(tokens, line, col, k) && tokens[k].kind != Identifier {
      var k :| IsFirstCovering(tokens, line, col, k) && tokens[k].kind != Identifier;
      FirstCoveringUnique(tokens, line, col, k);
    }
  }

  lemma {:induction false} FirstCoveringUnique(tokens: seq<Token>, line: int, col: int, k: int)
    requires IsFirstCovering(tokens, line, col, k)
    ensures FirstCovering(tokens, line, col) == Some(k)
  {
  }

  /**
   * On success the name is the spelling of the first covering token, which is an identifier;
   * the occurrences are all identifier tokens with that spelling, and they include that token's
   * own position, so there is at least one.
   */
  lemma {:induction false} ResolveSuccess(tokens: seq<Token>, line: int, col: int, res: Resolution)
    requires Resolve(tokens, line, col) == Success(res)
    ensures exists k :: IsFirstCovering(tokens, line, col, k) && tokens[k].kind == Identifier
                        && res.name == tokens[k].value && PositionOf(tokens[k]) in res.occurrences
    ensures forall p :: (p in res.occurrences <==>
                          exists i :: 0 <= i < |tokens| && tokens[i].kind == Identifier
                                      && tokens[i].value == res.name && PositionOf(tokens[i]) == p)
    ensures |res.occurrences| >= 1
  {
    var k := FirstCovering(tokens, line, col).value;
    forall p ensures p in res.occurrences
        <==> (exists i :: 0 <= i < |tokens| && tokens[i].kind == Identifier && tokens[i].value == res.name
                          && PositionOf(tokens[i]) == p)
    {
      IdentifierPositionsExact(tokens, res.name, p);
    }
    IdentifierPositionsExact(tokens, res.name, PositionOf(tokens[k]));
  }

  // ---------------------------------------------------------------------------
  // mask_code
  // ---------------------------------------------------------------------------

  /** Python's IndexError, raised by a scan that indexes outside its line. */
  datatype MaskError = IndexError

  const MaskLiteral: string := "[MASK]"

  /**
   * The text `mask_code` writes over one occurrence: `"[MASK]"` when `numTokens == -1`, otherwise
   * `numTokens` copies of `"[MASK]"` joined by single spaces (none when `numTokens` is 0 or below -1).
   */
  function Replacement(numTokens: int): string {
    if numTokens == -1 then MaskLiteral else Join(Repeat(numTokens, MaskLiteral), " ")
  }

  /**
   * Where the left scan stops. Python reads its condition as
   * `(start > 0 and lc[start - 1].isalnum()) or lc[start - 1] == '_'`: whichever operand runs,
   * it reads `lc[start - 1]` with Python's negative indexing, and raises when that is out of range.
   */
  function ScanLeft(lc: string, start: int): Result<int, MaskError>
    decreases start + |lc|
  {
    match PyIndex(lc, start - 1)
    case None => Failure(IndexError)
    case Some(c) =>
      if (start > 0 && IsAlnum(c)) || c == '_' then ScanLeft(lc, start - 1) else Success(start)
  }

  /**
   * Where the right scan stops. Python reads its condition as
   * `(end < len(lc) and lc[end].isalnum()) or lc[end] == '_'`, so it reads `lc[end]` even when
   * `end == len(lc)`, and raises there.
   */
  function ScanRight(lc: string, end: int): Result<int, MaskError>
    decreases |lc| - end
  {
    match PyIndex(lc, end)
    case None => Failure(IndexError)
    case Some(c) =>
      if (end < |lc| && IsAlnum(c)) || c == '_' then ScanRight(lc, end + 1) else Success(end)
  }

  /** The left scan moves one character left while the character before `start` continues the run. */
  lemma {:induction false} ScanLeftStep(lc: string, start: int)
    requires PyIndex(lc, start - 1).Some?
    requires var c := PyIndex(lc, start - 1).value; (start > 0 && IsAlnum(c)) || c == '_'
    ensures ScanLeft(lc, start) == ScanLeft(lc, start - 1)
  {
  }

  /** The right scan moves one character right while the character at `end` continues the run. */
  lemma {:induction false} ScanRightStep(lc: string, end: int)
    requires PyIndex(lc, end).Some?
    requires var c := PyIndex(lc, end).value; (end < |lc| && IsAlnum(c)) || c == '_'
    ensures ScanRight(lc, end) == ScanRight(lc, end + 1)
  {
  }

  /** One occurrence applied to the current content of its line (0-based `charIndex`), writing `rep` over its run. */
  function MaskOne(lc: string, charIndex: int, rep: string): Result<string, MaskError> {
    var start :- ScanLeft(lc, charIndex);
    var end :- ScanRight(lc, charIndex);
    Success(PySliceTo(lc, start) + rep + PySliceFrom(lc, end))
  }

  /** The occurrences applied one after another to the list of lines; out-of-range lines are skipped. */
  function MaskLines(lines: seq<string>, occurrences: seq<Position>, rep: string)
    : Result<seq<string>, MaskError>
    decreases |occurrences|
  {
    if |occurrences| == 0 then Success(lines)
    else
      var lineIndex := occurrences[0].line - 1;
      if 0 <= lineIndex < |lines| then
        var masked :- MaskOne(lines[lineIndex], occurrences[0].column - 1, rep);
        MaskLines(lines[lineIndex := masked], occurrences[1..], rep)
      else
        MaskLines(lines, occurrences[1..], rep)
  }

  /** What `mask_code` returns, or the IndexError it raises. */
  function MaskedText(code: string, occurrences: seq<Position>, numTokens: int): Result<string, MaskError> {
    var lines :- MaskLines(Split(code, '\n'), occurrences, Replacement(numTokens));
    Success(Join(lines, "\n"))
  }

  /**
   * The body of `mask_code`'s loop for one occurrence on an existing line: widen `start` and
   * `end` from `charIndex` with the two while-loops, then splice in the replacement.
   */
  method MaskLine(lineContent: string, charIndex: int, numTokens: int) returns (r: Result<string, MaskError>)
    ensures r == MaskOne(lineContent, charIndex, Replacement(numTokens))
  {
    var start := charIndex;
    while true
      invariant ScanLeft(lineContent, start) == ScanLeft(lineContent, charIndex)
      decreases start + |lineContent|
    {
      var c := PyIndex(lineContent, start - 1);
      if c.None? {
        return Failure(IndexError);
      }
      if !((start > 0 && IsAlnum(c.value)) || c.value == '_') {
        break;
      }
      ScanLeftStep(lineContent, start);
      start := start - 1;
    }

    var end := charIndex;
    while true
      invariant ScanRight(lineContent, end) == ScanRight(lineContent, charIndex)
      decreases |lineContent| - end
    {
      var c := PyIndex(lineContent, end);
      if c.None? {
        return Failure(IndexError);
      }
      if !((end < |lineContent| && IsAlnum(c.value)) || c.value == '_') {
        break;
      }
      ScanRightStep(lineContent, end);
      end := end + 1;
    }

    if numTokens == -1 {
      r := Success(PySliceTo(lineContent, start) + MaskLiteral + PySliceFrom(lineContent, end));
    } else {
      r := Success(PySliceTo(lineContent, start) + Join(Repeat(numTokens, MaskLiteral), " ")
                   + PySliceFrom(lineContent, end));
    }
  }

  /**
   * The body of `mask_code`'s loop for occurrence `k`: an occurrence on an existing line rewrites
   * that line, one on a line outside the text leaves the lines as they are. The result is one step
   * of the fold `MaskLines`.
   */
  method MaskOccurrence(lines: seq<string>, occurrences: seq<Position>, k: int, numTokens: int)
    returns (r: Result<seq<string>, MaskError>)
    requires 0 <= k < |occurrences|
    ensures r.Failure? ==> MaskLines(lines, occurrences[k..], Replacement(numTokens)) == Failure(r.error)
    ensures r.Success? ==> MaskLines(lines, occurrences[k..], Replacement(numTokens))
                           == MaskLines(r.value, occurrences[k + 1..], Replacement(numTokens))
  {
    var lineIndex := occurrences[k].line - 1;
    if 0 <= lineIndex < |lines| {
      var masked := MaskLine(lines[lineIndex], occurrences[k].column - 1, numTokens);
      if masked.Failure? {
        MaskLinesFailsAt(lines, occurrences, k, Replacement(numTokens), masked.error);
        return Failure(masked.error);
      }
      MaskLinesStepAt(lines, occurrences, k, Replacement(numTokens), masked.value);
      r := Success(lines[lineIndex := masked.value]);
    } else {
      MaskLinesSkipsAt(lines, occurrences, k, Replacement(numTokens));
      r := Success(lines);
    }
  }

  /** The fold from occurrence `k` on raises when that occurrence is on an existing line and raises. */
  lemma {:induction false} MaskLinesFailsAt(lines: seq<string>, occurrences: seq<Position>, k: int, rep: string, e: MaskError)
    requires 0 <= k < |occurrences| && 0 <= occurrences[k].line - 1 < |lines|
    requires MaskOne(lines[occurrences[k].line - 1], occurrences[k].column - 1, rep) == Failure(e)
    ensures MaskLines(lines, occurrences[k..], rep) == Failure(e)
  {
    var rest := occurrences[k..];
    assert rest[0] == occurrences[k];
    MaskLinesFails(lines, rest, rep);
  }

  /** The fold from occurrence `k` on goes on with the rewritten line when that occurrence masks to `masked`. */
  lemma {:induction false} MaskLinesStepAt(lines: seq<string>, occurrences: seq<Position>, k: int, rep: string, masked: string)
    requires 0 <= k < |occurrences| && 0 <= occurrences[k].line - 1 < |lines|
    requires MaskOne(lines[occurrences[k].line - 1], occurrences[k].column - 1, rep) == Success(masked)
    ensures MaskLines(lines, occurrences[k..], rep)
         == MaskLines(lines[occurrences[k].line - 1 := masked], occurrences[k + 1..], rep)
  {
    var rest := occurrences[k..];
    assert rest[0] == occurrences[k] && rest[1..] == occurrences[k + 1..];
    MaskLinesStep(lines, rest, rep, masked);
  }

  /** The fold from occurrence `k` on, when that occurrence is on a line outside the text. */
  lemma {:induction false} MaskLinesSkipsAt(lines: seq<string>, occurrences: seq<Position>, k: int, rep: string)
    requires 0 <= k < |occurrences| && !(0 <= occurrences[k].line - 1 < |lines|)
    ensures MaskLines(lines, occurrences[k..], rep) == MaskLines(lines, occurrences[k + 1..], rep)
  {
    var rest := occurrences[k..];
    assert rest[0] == occurrences[k] && rest[1..] == occurrences[k + 1..];
    MaskLinesSkips(lines, rest, rep);
  }

  /** `mask_code`: rewrites the lines in place, occurrence by occurrence. */
  method MaskCode(code: string, occurrences: seq<Position>, numTokens: int)
    returns (r: Result<string, MaskError>)
    ensures r == MaskedText(code, occurrences, numTokens)
  {
    var lines := Split(code, '\n');
    ghost var expected := MaskLines(lines, occurrences, Replacement(numTokens));
    for k := 0 to |occurrences|
      invariant MaskLines(lines, occurrences[k..], Replacement(numTokens)) == expected
    {
      var next := MaskOccurrence(lines, occurrences, k, numTokens);
      if next.Failure? {
        MaskedTextFails(code, occurrences, numTokens, next.error);
        return Failure(next.error);
      }
      lines := next.value;
    }
    MaskLinesDone(lines, occurrences[|occurrences|..], Replacement(numTokens));
    MaskedTextOfLines(code, occurrences, numTokens, lines);
    return Success(Join(lines, "\n"));
  }

  // ---------------------------------------------------------------------------
  // Properties of mask_code
  // ---------------------------------------------------------------------------

  /** `-1` writes one `[MASK]`; `n >= 1` writes `n` copies separated by single spaces; 0 deletes the identifier. */
  lemma {:induction false} ReplacementShape(n: int)
    ensures n == -1 ==> Replacement(n) == "[MASK]"
    ensures n >= 1 ==> Split(Replacement(n), ' ') == Repeat(n, "[MASK]")
    ensures n == 0 || n < -1 ==> Replacement(n) == ""
  {
    if n >= 1 {
      SplitJoin(Repeat(n, MaskLiteral), ' ');
    }
  }

  /** `lc[s..e]` is the maximal run of word characters around the 0-based index `ci`. */
  predicate MaximalRun(lc: string, ci: int, s: int, e: int) {
    0 <= s <= ci <= e <= |lc|
    && (forall i :: s <= i < e ==> IsWordChar(lc[i]))
    && (s == 0 || !IsWordChar(lc[s - 1]))
    && (e == |lc| || !IsWordChar(lc[e]))
  }

  /**
   * The left scan walks back over word characters to the start `s` of the run. At `s == 0` it
   * reads `lc[-1]`, the last character of the line, and only stops if that is not `_`.
   */
  lemma {:induction false} ScanLeftStopsAtRunStart(lc: string, start: int, s: int)
    requires 0 <= s <= start <= |lc| && |lc| > 0
    requires forall i :: s <= i < start ==> IsWordChar(lc[i])
    requires (s > 0 && !IsWordChar(lc[s - 1])) || (s == 0 && lc[|lc| - 1] != '_')
    ensures ScanLeft(lc, start) == Success(s)
    decreases start
  {
    if start > s {
      ScanLeftStopsAtRunStart(lc, start - 1, s);
    }
  }

  /** The right scan walks forward over word characters to the first non-word character `e`. */
  lemma {:induction false} ScanRightStopsAtRunEnd(lc: string, end: int, e: int)
    requires 0 <= end <= e < |lc|
    requires forall i :: end <= i < e ==> IsWordChar(lc[i])
    requires !IsWordChar(lc[e])
    ensures ScanRight(lc, end) == Success(e)
    decreases e - end
  {
    if end < e {
      ScanRightStopsAtRunEnd(lc, end + 1, e);
    }
  }

  /** When the run reaches the end of the line, the right scan reads `lc[len(lc)]` and raises. */
  lemma {:induction false} ScanRightRaisesAtEndOfLine(lc: string, end: int)
    requires 0 <= end <= |lc|
    requires forall i :: end <= i < |lc| ==> IsWordChar(lc[i])
    ensures ScanRight(lc, end) == Failure(IndexError)
    decreases |lc| - end
  {
    if end < |lc| {
      ScanRightRaisesAtEndOfLine(lc, end + 1);
    }
  }

  /**
   * An occurrence whose run is followed by a non-word character on its line is replaced, run
   * and only run: the text before and after it is kept.
   */
  lemma {:induction false} MaskOneReplacesRun(lc: string, ci: int, s: int, e: int, rep: string)
    requires MaximalRun(lc, ci, s, e) && e < |lc|
    requires s > 0 || lc[|lc| - 1] != '_'
    ensures MaskOne(lc, ci, rep) == Success(lc[..s] + rep + lc[e..])
  {
    ScanLeftStopsAtRunStart(lc, ci, s);
    ScanRightStopsAtRunEnd(lc, ci, e);
  }

  /** An occurrence whose run reaches the end of its line makes the whole call raise IndexError. */
  lemma {:induction false} MaskOneRaisesAtEndOfLine(lc: string, ci: int, rep: string)
    requires 0 <= ci <= |lc|
    requires forall i :: ci <= i < |lc| ==> IsWordChar(lc[i])
    ensures MaskOne(lc, ci, rep) == Failure(IndexError)
  {
    ScanRightRaisesAtEndOfLine(lc, ci);
    var left := ScanLeft(lc, ci);
    if left.Failure? {
      assert left.error == IndexError;
    }
  }

  lemma {:induction false} JoinAvoids(parts: seq<string>, sep: string, c: char)
    requires c !in sep
    requires forall i :: 0 <= i < |parts| ==> c !in parts[i]
    ensures c !in Join(parts, sep)
  {
    if |parts| > 1 {
      JoinAvoids(parts[1..], sep, c);
    }
  }

  lemma {:induction false} MaskOneKeepsLineBreaksOut(lc: string, ci: int, rep: string)
    requires '\n' !in lc && '\n' !in rep && MaskOne(lc, ci, rep).Success?
    ensures '\n' !in MaskOne(lc, ci, rep).value
  {
    PySlicesAvoid(lc, ScanLeft(lc, ci).value, '\n');
    PySlicesAvoid(lc, ScanRight(lc, ci).value, '\n');
  }

  /** No replacement holds a line break. */
  lemma {:induction false} ReplacementWithoutLineBreak(n: int)
    ensures '\n' !in Replacement(n)
  {
    JoinAvoids(Repeat(n, MaskLiteral), " ", '\n');
  }

  lemma {:induction false} PySlicesAvoid(lc: string, k: int, c: char)
    requires c !in lc
    ensures c !in PySliceTo(lc, k) && c !in PySliceFrom(lc, k)
  {
    var before, after := PySliceTo(lc, k), PySliceFrom(lc, k);
    assert forall i :: 0 <= i < |before| ==> before[i] == lc[i];
    assert forall i :: 0 <= i < |after| ==> after[i] == lc[|lc| - |after| + i];
  }

  /** No line of `lines` holds a line break. */
  predicate WithoutLineBreaks(lines: seq<string>) {
    forall i :: 0 <= i < |lines| ==> '\n' !in lines[i]
  }

  lemma {:induction false} RewriteWithoutLineBreaks(lines: seq<string>, k: int, masked: string)
    requires WithoutLineBreaks(lines) && 0 <= k < |lines| && '\n' !in masked
    ensures WithoutLineBreaks(lines[k := masked])
  {
  }

  /** One step of a fold that succeeds: the lines after the first occurrence keep their count and stay free of breaks. */
  lemma {:induction false} MaskLinesNext(lines: seq<string>, occurrences: seq<Position>, rep: string)
    returns (next: seq<string>)
    requires |occurrences| > 0 && MaskLines(lines, occurrences, rep).Success?
    ensures MaskLines(lines, occurrences, rep) == MaskLines(next, occurrences[1..], rep)
    ensures |next| == |lines|
    ensures WithoutLineBreaks(lines) && '\n' !in rep ==> WithoutLineBreaks(next)
  {
    var lineIndex := occurrences[0].line - 1;
    if 0 <= lineIndex < |lines| {
      MaskLinesFirstSucceeds(lines, occurrences, rep);
      var masked := MaskOne(lines[lineIndex], occurrences[0].column - 1, rep).value;
      next := lines[lineIndex := masked];
      MaskLinesStep(lines, occurrences, rep, masked);
      if WithoutLineBreaks(lines) && '\n' !in rep {
        MaskOneKeepsLineBreaksOut(lines[lineIndex], occurrences[0].column - 1, rep);
        RewriteWithoutLineBreaks(lines, lineIndex, masked);
      }
    } else {
      next := lines;
      MaskLinesSkips(lines, occurrences, rep);
    }
  }

  /** Masking keeps the number of lines, and keeps every line free of line breaks. */
  lemma {:induction false} MaskLinesShape(lines: seq<string>, occurrences: seq<Position>, rep: string)
    requires MaskLines(lines, occurrences, rep).Success?
    ensures |MaskLines(lines, occurrences, rep).value| == |lines|
    ensures WithoutLineBreaks(lines) && '\n' !in rep ==> WithoutLineBreaks(MaskLines(lines, occurrences, rep).value)
    decreases |occurrences|
  {
    if |occurrences| > 0 {
      var next := MaskLinesNext(lines, occurrences, rep);
      MaskLinesShape(next, occurrences[1..], rep);
    }
  }

  /** A fold that succeeds has succeeded on its first occurrence when that one is on an existing line. */
  lemma {:induction false} MaskLinesFirstSucceeds(lines: seq<string>, occurrences: seq<Position>, rep: string)
    requires |occurrences| > 0 && 0 <= occurrences[0].line - 1 < |lines|
    requires MaskLines(lines, occurrences, rep).Success?
    ensures MaskOne(lines[occurrences[0].line - 1], occurrences[0].column - 1, rep).Success?
  {
  }

  /** `mask_code` returns as many lines as it was given: replacements never contain a line break. */
  lemma {:induction false} MaskPreservesLineCount(code: string, occurrences: seq<Position>, n: int)
    requires MaskedText(code, occurrences, n).Success?
    ensures |Split(MaskedText(code, occurrences, n).value, '\n')| == |Split(code, '\n')|
  {
    var lines := Split(code, '\n');
    ReplacementWithoutLineBreak(n);
    MaskLinesShape(lines, occurrences, Replacement(n));
    SplitJoin(MaskLines(lines, occurrences, Replacement(n)).value, '\n');
  }

  lemma {:induction false} MaskLinesSkipsAll(lines: seq<string>, occurrences: seq<Position>, rep: string)
    requires forall k :: 0 <= k < |occurrences| ==> !(0 <= occurrences[k].line - 1 < |lines|)
    ensures MaskLines(lines, occurrences, rep) == Success(lines)
    decreases |occurrences|
  {
    if |occurrences| > 0 {
      MaskLinesSkips(lines, occurrences, rep);
      MaskLinesSkipsAll(lines, occurrences[1..], rep);
    }
  }

  lemma {:induction false} MaskLinesSkips(lines: seq<string>, occurrences: seq<Position>, rep: string)
    requires |occurrences| > 0 && !(0 <= occurrences[0].line - 1 < |lines|)
    ensures MaskLines(lines, occurrences, rep) == MaskLines(lines, occurrences[1..], rep)
  {
  }

  /** Occurrences on lines outside the text are skipped: with no other, the text comes back unchanged. */
  lemma {:induction false} MaskOutOfRangeUnchanged(code: string, occurrences: seq<Position>, n: int)
    requires forall k :: 0 <= k < |occurrences|
               ==> !(0 <= occurrences[k].line - 1 < |Split(code, '\n')|)
    ensures MaskedText(code, occurrences, n) == Success(code)
  {
    MaskLinesSkipsAll(Split(code, '\n'), occurrences, Replacement(n));
    JoinSplit(code, '\n');
  }

  /** `mask_code` joins whatever lines the fold produced. */
  lemma {:induction false} MaskedTextOfLines(code: string, occurrences: seq<Position>, n: int, lines: seq<string>)
    requires MaskLines(Split(code, '\n'), occurrences, Replacement(n)) == Success(lines)
    ensures MaskedText(code, occurrences, n) == Success(Join(lines, "\n"))
  {
  }

  /** The fold raises as soon as an occurrence on an existing line raises. */
  lemma {:induction false} MaskLinesFails(lines: seq<string>, occurrences: seq<Position>, rep: string)
    requires |occurrences| > 0 && 0 <= occurrences[0].line - 1 < |lines|
    requires MaskOne(lines[occurrences[0].line - 1], occurrences[0].column - 1, rep).Failure?
    ensures MaskLines(lines, occurrences, rep)
         == Failure(MaskOne(lines[occurrences[0].line - 1], occurrences[0].column - 1, rep).error)
  {
  }

  /** `mask_code` raises whatever the fold raised. */
  lemma {:induction false} MaskedTextFails(code: string, occurrences: seq<Position>, n: int, e: MaskError)
    requires MaskLines(Split(code, '\n'), occurrences, Replacement(n)) == Failure(e)
    ensures MaskedText(code, occurrences, n) == Failure(e)
  {
  }

  /** One step of the fold: an occurrence on an existing line rewrites that line. */
  lemma {:induction false} MaskLinesStep(lines: seq<string>, occurrences: seq<Position>, rep: string, masked: string)
    requires |occurrences| > 0 && 0 <= occurrences[0].line - 1 < |lines|
    requires MaskOne(lines[occurrences[0].line - 1], occurrences[0].column - 1, rep) == Success(masked)
    ensures MaskLines(lines, occurrences, rep)
         == MaskLines(lines[occurrences[0].line - 1 := masked], occurrences[1..], rep)
  {
  }

  /** The fold over one occurrence on an existing line is that occurrence's rewrite. */
  lemma {:induction false} MaskLinesSingleton(lines: seq<string>, p: Position, rep: string, masked: string)
    requires 0 <= p.line - 1 < |lines|
    requires MaskOne(lines[p.line - 1], p.column - 1, rep) == Success(masked)
    ensures MaskLines(lines, [p], rep) == Success(lines[p.line - 1 := masked])
  {
    assert [p] == [p] + [];
    MaskLinesCons(lines, p, [], rep, masked);
    MaskLinesDone(lines[p.line - 1 := masked], [], rep);
  }

  /** The fold applies its first occurrence and goes on with the rest. */
  lemma {:induction false} MaskLinesCons(lines: seq<string>, o: Position, rest: seq<Position>, rep: string, masked: string)
    requires 0 <= o.line - 1 < |lines|
    requires MaskOne(lines[o.line - 1], o.column - 1, rep) == Success(masked)
    ensures MaskLines(lines, [o] + rest, rep) == MaskLines(lines[o.line - 1 := masked], rest, rep)
  {
    assert ([o] + rest)[0] == o && ([o] + rest)[1..] == rest;
    MaskLinesStep(lines, [o] + rest, rep, masked);
  }

  /**
   * A single occurrence followed by a non-word character on its line: only its maximal run is
   * replaced, and every other line and character is kept.
   */
  lemma {:induction false} MaskSingleOccurrence(code: string, p: Position, s: int, e: int, n: int)
    requires 0 <= p.line - 1 < |Split(code, '\n')|
    requires var lc := Split(code, '\n')[p.line - 1];
             MaximalRun(lc, p.column - 1, s, e) && e < |lc| && (s > 0 || lc[|lc| - 1] != '_')
    ensures var lines := Split(code, '\n');
            var lc := lines[p.line - 1];
            MaskedText(code, [p], n) == Success(Join(lines[p.line - 1 := lc[..s] + Replacement(n) + lc[e..]], "\n"))
  {
    var lines := Split(code, '\n');
    var lc := lines[p.line - 1];
    MaskLinesSingleRun(lines, p, s, e, Replacement(n));
    MaskedTextOfLines(code, [p], n, lines[p.line - 1 := lc[..s] + Replacement(n) + lc[e..]]);
  }

  /** The fold over one occurrence whose run ends before a non-word character rewrites just that run. */
  lemma {:induction false} MaskLinesSingleRun(lines: seq<string>, p: Position, s: int, e: int, rep: string)
    requires 0 <= p.line - 1 < |lines|
    requires var lc := lines[p.line - 1];
             MaximalRun(lc, p.column - 1, s, e) && e < |lc| && (s > 0 || lc[|lc| - 1] != '_')
    ensures var lc := lines[p.line - 1];
            MaskLines(lines, [p], rep) == Success(lines[p.line - 1 := lc[..s] + rep + lc[e..]])
  {
    MaskOneReplacesRun(lines[p.line - 1], p.column - 1, s, e, rep);
    MaskLinesSingleton(lines, p, rep, lines[p.line - 1][..s] + rep + lines[p.line - 1][e..]);
  }

  /** The first occurrence whose run reaches the end of its line makes `mask_code` raise. */
  lemma {:induction false} MaskRaisesAtEndOfLine(code: string, occurrences: seq<Position>, n: int)
    requires |occurrences| > 0 && 0 <= occurrences[0].line - 1 < |Split(code, '\n')|
    requires var lc := Split(code, '\n')[occurrences[0].line - 1];
             0 <= occurrences[0].column - 1 <= |lc|
             && forall i :: occurrences[0].column - 1 <= i < |lc| ==> IsWordChar(lc[i])
    ensures MaskedText(code, occurrences, n) == Failure(IndexError)
  {
    var lines := Split(code, '\n');
    MaskOneRaisesAtEndOfLine(lines[occurrences[0].line - 1], occurrences[0].column - 1, Replacement(n));
    assert MaskLines(lines, occurrences, Replacement(n)) == Failure(IndexError);
  }

  /** With no occurrences left, the fold returns the lines it has. */
  lemma {:induction false} MaskLinesDone(lines: seq<string>, occurrences: seq<Position>, rep: string)
    requires |occurrences| == 0
    ensures MaskLines(lines, occurrences, rep) == Success(lines)
  {
  }

  /** On a one-line text, an occurrence on line 1 rewrites that line and the fold goes on. */
  lemma {:induction false} MaskLinesOneLine(line: string, o: Position, rest: seq<Position>, rep: string, masked: string)
    requires o.line == 1 && MaskOne(line, o.column - 1, rep) == Success(masked)
    ensures MaskLines([line], [o] + rest, rep) == MaskLines([masked], rest, rep)
  {
    assert ([o] + rest)[0] == o && ([o] + rest)[1..] == rest;
    assert [line][0 := masked] == [masked];
    MaskLinesStep([line], [o] + rest, rep, masked);
  }

  /** Two occurrences on a one-line text are applied in order, the second to the already rewritten line. */
  lemma {:induction false} MaskTwoOnOneLine(code: string, p: Position, q: Position, n: int, first: string, second: string)
    requires '\n' !in code && p.line == 1 && q.line == 1
    requires MaskOne(code, p.column - 1, Replacement(n)) == Success(first)
    requires MaskOne(first, q.column - 1, Replacement(n)) == Success(second)
    ensures MaskedText(code, [p, q], n) == Success(second)
  {
    SplitWithoutSeparator(code, '\n');
    assert [p, q] == [p] + [q] && [q] == [q] + [];
    MaskLinesOneLine(code, p, [q], Replacement(n), first);
    MaskLinesOneLine(first, q, [], Replacement(n), second);
    MaskLinesDone([second], [], Replacement(n));
    MaskedTextOfLines(code, [p, q], n, [second]);
    assert Join([second], "\n") == second;
  }

  lemma {:induction false} StaleColumnFirstStep(code: string, line: string)
    requires code == "x = x;"
    requires line == "[MASK] = x;"
    ensures MaskOne(code, 0, MaskLiteral) == Success(line)
  {
    assert IsWordChar(code[0]) && !IsWordChar(code[1]) && code[|code| - 1] == ';';
    MaskOneReplacesRun(code, 0, 0, 1, MaskLiteral);
    assert code[..0] == [] && code[1..] == " = x;";
    assert code[..0] + MaskLiteral + code[1..] == line;
  }

  /** In `[MASK] = x;` the run around index 4 is `MASK`, indices 1 to 4. */
  lemma {:induction false} StaleColumnSecondRun(line: string)
    requires line == "[MASK] = x;"
    ensures MaximalRun(line, 4, 1, 5) && 5 < |line|
  {
    assert line[1] == 'M' && line[2] == 'A' && line[3] == 'S' && line[4] == 'K';
    assert line[0] == '[' && line[5] == ']';
  }

  /** Replacing `MASK` in `[MASK] = x;` by `[MASK]` gives `[[MASK]] = x;`. */
  lemma {:induction false} StaleColumnSecondText(line: string, masked: string)
    requires line == "[MASK] = x;"
    requires masked == "[[MASK]] = x;"
    ensures line[..1] + MaskLiteral + line[5..] == masked
  {
    var result := line[..1] + MaskLiteral + line[5..];
    assert |result| == |masked|;
    forall i | 0 <= i < |masked|
      ensures result[i] == masked[i]
    {
      if i < 1 {
      } else if i < 7 {
        assert result[i] == MaskLiteral[i - 1];
      } else {
        assert result[i] == line[i - 2];
      }
    }
  }

  lemma {:induction false} StaleColumnSecondStep(line: string, masked: string)
    requires line == "[MASK] = x;"
    requires masked == "[[MASK]] = x;"
    ensures MaskOne(line, 4, MaskLiteral) == Success(masked)
  {
    StaleColumnSecondRun(line);
    StaleColumnSecondText(line, masked);
    MaskOneReplacesRun(line, 4, 1, 5, MaskLiteral);
  }

  /**
   * The second `x` (column 5 of the original line) is looked up in the line after the first
   * replacement has shifted it, so the letters of the first `[MASK]` are masked instead.
   */
  lemma {:induction false} StaleColumnExample(code: string, masked: string)
    requires code == "x = x;"
    requires masked == "[[MASK]] = x;"
    ensures MaskedText(code, [Position(1, 1), Position(1, 5)], -1) == Success(masked)
  {
    var line := "[MASK] = x;";
    StaleColumnFirstStep(code, line);
    StaleColumnSecondStep(line, masked);
    assert forall i :: 0 <= i < |code| ==> code[i] != '\n';
    assert Replacement(-1) == MaskLiteral;
    MaskTwoOnOneLine(code, Position(1, 1), Position(1, 5), -1, line, masked);
  }

  // ---------------------------------------------------------------------------
  // The scans with the precedence the comparison operators evidently intended
  // ---------------------------------------------------------------------------

  /** A line whose identifier ends the line: the right scan reads one past the end and raises. */
  lemma {:induction false} EndOfLineExample(code: string)
    requires code == "class Foo"
    ensures MaskedText(code, [Position(1, 7)], -1) == Failure(IndexError)
  {
    assert forall i :: 0 <= i < |code| ==> code[i] != '\n';
    SplitWithoutSeparator(code, '\n');
    assert forall i :: 6 <= i < |code| ==> IsWordChar(code[i]);
    MaskRaisesAtEndOfLine(code, [Position(1, 7)], -1);
  }

  /** A line ending in `_`: the left scan at column 1 wraps to the end of the line through index -1. */
  lemma {:induction false} WrapAroundExample(lc: string)
    requires lc == "a = b_"
    ensures MaskOne(lc, 0, MaskLiteral) == Success("a = b[MASK] = b_")
  {
    assert PyIndex(lc, -1) == Some('_') && PyIndex(lc, -2) == Some('b');
    assert ScanLeft(lc, -1) == Success(-1);
    assert PyIndex(lc, 0) == Some('a') && PyIndex(lc, 1) == Some(' ');
    assert ScanRight(lc, 1) == Success(1);
    assert ScanLeft(lc, 0) == Success(-1) && ScanRight(lc, 0) == Success(1);
    assert PySliceTo(lc, -1) == "a = b" && PySliceFrom(lc, 1) == " = b_";
    assert PySliceTo(lc, -1) + MaskLiteral + PySliceFrom(lc, 1) == "a = b[MASK] = b_";
  }

  /** The left scan as `start > 0 and (lc[start - 1].isalnum() or lc[start - 1] == '_')`. */
  function ScanLeftIntended(lc: string, start: int): Result<int, MaskError>
    decreases start
  {
    if start > 0 then
      match PyIndex(lc, start - 1)
      case None => Failure(IndexError)
      case Some(c) => if IsWordChar(c) then ScanLeftIntended(lc, start - 1) else Success(start)
    else Success(start)
  }

  /** The right scan as `end < len(lc) and (lc[end].isalnum() or lc[end] == '_')`. */
  function ScanRightIntended(lc: string, end: int): Result<int, MaskError>
    decreases |lc| - end
  {
    if end < |lc| then
      match PyIndex(lc, end)
      case None => Failure(IndexError)
      case Some(c) => if IsWordChar(c) then ScanRightIntended(lc, end + 1) else Success(end)
    else Success(end)
  }

  /** One occurrence applied with the intended scans. */
  function MaskOneIntended(lc: string, charIndex: int, rep: string): Result<string, MaskError> {
    var start :- ScanLeftIntended(lc, charIndex);
    var end :- ScanRightIntended(lc, charIndex);
    Success(PySliceTo(lc, start) + rep + PySliceFrom(lc, end))
  }

  lemma {:induction false} ScanLeftIntendedStops(lc: string, ci: int, s: int)
    requires 0 <= s <= ci <= |lc| && (forall i :: s <= i < ci ==> IsWordChar(lc[i]))
    requires s == 0 || !IsWordChar(lc[s - 1])
    ensures ScanLeftIntended(lc, ci) == Success(s)
    decreases ci
  {
    if ci > s {
      ScanLeftIntendedStops(lc, ci - 1, s);
    }
  }

  lemma {:induction false} ScanRightIntendedStops(lc: string, ci: int, e: int)
    requires 0 <= ci <= e <= |lc| && (forall i :: ci <= i < e ==> IsWordChar(lc[i]))
    requires e == |lc| || !IsWordChar(lc[e])
    ensures ScanRightIntended(lc, ci) == Success(e)
    decreases e - ci
  {
    if ci < e {
      ScanRightIntendedStops(lc, ci + 1, e);
    }
  }

  /**
   * With the intended scans every in-range column replaces exactly its maximal word run,
   * including a run that ends the line or a line that ends in `_`.
   */
  lemma {:induction false} MaskOneIntendedReplacesRun(lc: string, ci: int, s: int, e: int, rep: string)
    requires MaximalRun(lc, ci, s, e)
    ensures MaskOneIntended(lc, ci, rep) == Success(lc[..s] + rep + lc[e..])
  {
    ScanLeftIntendedStops(lc, ci, s);
    ScanRightIntendedStops(lc, ci, e);
  }

  /** The end-of-line line that makes `mask_code` raise is masked by the intended scans. */
  lemma {:induction false} EndOfLineIntended(lc: string)
    requires lc == "class Foo"
    ensures MaskOneIntended(lc, 6, MaskLiteral) == Success("class [MASK]")
  {
    assert forall i :: 6 <= i < |lc| ==> IsWordChar(lc[i]);
    assert !IsWordChar(lc[5]);
    MaskOneIntendedReplacesRun(lc, 6, 6, |lc|, MaskLiteral);
    assert lc[..6] == "class " && lc[|lc|..] == [];
    assert lc[..6] + MaskLiteral + lc[|lc|..] == "class [MASK]";
  }
}
