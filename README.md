# Identifier renaming: occurrence resolution, masking, candidate scoring, editor search

This project models the non-neural core of an identifier-renaming service for Java code, and
proves properties of it. The service has a server and an editor extension:

- The server finds the identifier under a (line, column) position and all of its occurrences
  (`find_variable_at_position`).
- It masks every occurrence with `[MASK]` placeholders (`mask_code`).
- It expands the placeholders into mask tokens and cuts the token ids into 512-id windows framed
  by `[CLS]`/`[SEP]`. It locates the mask runs, gathers the positions for each subtoken, picks one
  decoded piece per subtoken and scores the result (`generate_identifier_candidates`).
- It tries 1 .. N subtokens and keeps the name with the lowest score (`select_best_identifier`).
- The editor extension finds every textual occurrence of the word under the cursor
  (`findOccurrencesInDocument`).

The source is imperative, so each loop of the source is a Dafny `method` with a `while` loop and
its invariants. Each method is proved equal to a specification function, and the lemmas state
what the source promises about those functions.

| file | module | models |
|---|---|---|
| results.dfy | `Results` | `Option` and `Result`, the error paths |
| text.dfy | `Text` | Python `split`/`join`/`replace`/`strip`, negative indexing and clamped slices; JavaScript `indexOf` |
| renaming.dfy | `Renaming` | `find_variable_at_position`, `mask_code` |
| inference.dfy | `Inference` | `generate_identifier_candidates`, `select_best_identifier` |
| occurrences.dfy | `Occurrences` | `findOccurrencesInDocument` |

## How the external collaborators are modelled

Anything the core calls but does not implement is an input:

- The Java lexer: its token list (kind, value, 1-based line and column), or the message of the
  exception it raised.
- The tokenizer: a function from text to ids and attention mask.
- The masked language model: a function that takes the windows, the attention masks and the
  gathered positions of one subtoken. It returns the five decoded top-k strings and their negative
  log-probabilities.
- The editor: the document as its sequence of line texts, and the word range it reports at the
  cursor.

Scores are `real`s.

The masking is modelled exactly as the code is written, because the rest of the pipeline consumes
what the code actually produces. This includes three behaviours:

- The scan conditions parse as `(bound and isalnum) or c == '_'`. The scans therefore use Python's
  negative indexing, and they raise `IndexError` when a word run reaches the end of its line.
- Occurrences are applied one after the other to the already rewritten line, so a second
  occurrence on the same line is looked up at a stale column (`Renaming.StaleColumnExample`).
- The manual-mode placeholders are expanded twice (see Findings).

The code has no separate line-out-of-range error: a request for a line beyond the text gets
"No token found at that position." (`Renaming.ResolveLineWithoutTokens`).

## Model

| member | source | states |
|---|---|---|
| Text.Strip | server/inference.py:123 | the stripped string has no leading or trailing whitespace, and it is the input with exactly its leading and trailing whitespace removed |
| Text.Split | server/api/renaming.py:77 | `split('\n')` returns at least one part, and no part holds the separator |
| Text.Repeat | server/api/renaming.py:98 | `[x] * n` has `max(n, 0)` elements, each equal to `x` |
| Text.JoinSplit | server/api/renaming.py:77-100 | joining the parts of a split with the separator gives back the text |
| Text.SplitJoin | server/api/renaming.py:77-100 | splitting a join of separator-free parts gives back the parts |
| Text.SplitWithoutSeparator | server/api/renaming.py:77 | a text without line breaks splits into itself alone |
| Text.SplitAtSeparator | server/api/renaming.py:77 | a separator-free prefix followed by the separator becomes the first part of the split |
| Text.ReplaceTwice | server/inference.py:20-21 | replacing `pat` by `" pat "` and then `pat` by `rep` is the same as replacing `pat` by `" rep "` in one pass |
| Text.ReplaceInRepeat | server/inference.py:21 | replacing `pat` in `n` space-joined copies of `pat` gives `n` space-joined copies of the replacement |
| Text.IndexOfFirstMatch | irename/src/commands/renameIdentifier.ts:84-101 | `indexOf(word, from)` is -1 or the position of a match at or after `from`, and there is no match between `from` and it |
| Renaming.FirstCovering | server/api/renaming.py:37-43 | the result is the first token in stream order whose span `[column, column + len - 1]` on the line contains the column; `None` exactly when no token covers it |
| Renaming.FindVariableAtPosition | server/api/renaming.py:26-62 | the loop with `found_token`/`break` and the occurrence loop return the resolution, or the lexer's parse error |
| Renaming.ErrorMessageInjective | server/api/renaming.py:46-62 | `ErrorMessage`, the text returned for each failure ("No token found at that position.", "Token at position is not an identifier.", or "Error parsing Java code: " followed by the lexer's message), is the same for two failures if and only if they are the same failure: the text tells the three outcomes apart and keeps the lexer's message |
| Renaming.ResolveNoTokenFound | server/api/renaming.py:46-47 | the `NoTokenFound` failure, whose text is "No token found at that position.", happens if and only if no token covers the position |
| Renaming.ResolveLineWithoutTokens | server/api/renaming.py:37-47 | a line holding no token, including a line beyond the text, gives the `NoTokenFound` failure |
| Renaming.ResolveNotAnIdentifier | server/api/renaming.py:48-49 | the `NotAnIdentifier` failure, whose text is "Token at position is not an identifier.", happens if and only if the first covering token is not an identifier |
| Renaming.IdentifierPositionsExact | server/api/renaming.py:53-57 | a position is collected exactly when some identifier token with that spelling starts there |
| Renaming.ResolveSuccess | server/api/renaming.py:51-59 | on success the name is the first covering token's text, that token is an identifier and its own position is among the occurrences; the occurrences are exactly the identifier tokens with that name; the list is non-empty |
| Renaming.MaskLine | server/api/renaming.py:84-98 | the two while-loops and the replacement give the masked line, or `IndexError` |
| Renaming.MaskOccurrence | server/api/renaming.py:78-98 | one iteration of the occurrence loop is the first step of the fold: it raises what the fold raises, or it rewrites `lines` so that the rest of the fold is unchanged |
| Renaming.MaskCode | server/api/renaming.py:64-101 | the in-place loop over the occurrences returns the masked text, or the `IndexError` the scan raised |
| Renaming.ReplacementShape | server/api/renaming.py:95-98 | `-1` gives `"[MASK]"`; `n >= 1` gives `n` placeholders separated by single spaces; 0 and other negative counts give the empty string, which deletes the identifier |
| Renaming.ReplacementWithoutLineBreak | server/api/renaming.py:95-98 | no replacement holds a line break |
| Renaming.ScanLeftStopsAtRunStart | server/api/renaming.py:88-89 | from inside a word run, the left scan stops at the run's first character (when the scan does not wrap around through index -1) |
| Renaming.ScanRightStopsAtRunEnd | server/api/renaming.py:91-92 | from inside a word run followed by a non-word character, the right scan stops at that character |
| Renaming.ScanRightRaisesAtEndOfLine | server/api/renaming.py:91 | a word run that reaches the end of the line makes the right scan read `line_content[len]` and raise `IndexError` |
| Renaming.MaskOneReplacesRun | server/api/renaming.py:86-98 | on a maximal word run followed by a non-word character, only that run is replaced, and the prefix and suffix are kept |
| Renaming.MaskOneRaisesAtEndOfLine | server/api/renaming.py:91 | an occurrence whose run reaches the end of its line raises `IndexError` |
| Renaming.MaskOneKeepsLineBreaksOut | server/api/renaming.py:96-98 | rewriting a line without line breaks, using a replacement without line breaks, leaves none in the line |
| Renaming.MaskLinesShape | server/api/renaming.py:77-100 | a successful fold keeps the number of lines and keeps every line free of line breaks |
| Renaming.MaskPreservesLineCount | server/api/renaming.py:77-100 | the masked text has as many lines as the input |
| Renaming.MaskLinesSkipsAll | server/api/renaming.py:83 | occurrences that all lie on missing lines leave the lines unchanged |
| Renaming.MaskOutOfRangeUnchanged | server/api/renaming.py:77-100 | if every occurrence is out of range, the text comes back unchanged |
| Renaming.MaskSingleOccurrence | server/api/renaming.py:77-100 | one occurrence whose run ends before a non-word character: only its maximal run is replaced on its line, and every other line and character is kept |
| Renaming.MaskRaisesAtEndOfLine | server/api/renaming.py:91 | if the first occurrence's run reaches the end of its line, `mask_code` raises `IndexError` |
| Renaming.MaskTwoOnOneLine | server/api/renaming.py:78-98 | two occurrences on one line are applied in order, the second to the already rewritten line |
| Renaming.StaleColumnFirstStep | server/api/renaming.py:96 | masking the first `x` of `x = x;` gives `[MASK] = x;` |
| Renaming.StaleColumnSecondRun | server/api/renaming.py:88-92 | in `[MASK] = x;`, the word run around index 4 is `MASK` |
| Renaming.StaleColumnSecondText | server/api/renaming.py:96 | replacing `MASK` in `[MASK] = x;` gives `[[MASK]] = x;` |
| Renaming.StaleColumnSecondStep | server/api/renaming.py:86-96 | the second occurrence's stale column 5 masks the letters of the first placeholder |
| Renaming.StaleColumnExample | server/api/renaming.py:78-100 | `mask_code("x = x;", [(1,1), (1,5)], -1)` returns `[[MASK]] = x;`: the second `x` stays unmasked |
| Renaming.EndOfLineExample | server/api/renaming.py:91 | `mask_code("class Foo", [(1,7)], -1)` raises `IndexError` |
| Renaming.WrapAroundExample | server/api/renaming.py:88 | in `a = b_`, the left scan at column 1 wraps around through index -1, and the line becomes `a = b[MASK] = b_` |
| Renaming.ScanLeftIntendedStops | server/api/renaming.py:88-89 | with the evidently intended precedence, the left scan stops exactly at the start of the word run |
| Renaming.ScanRightIntendedStops | server/api/renaming.py:91-92 | with the evidently intended precedence, the right scan stops exactly at the end of the word run, including the end of the line |
| Renaming.MaskOneIntendedReplacesRun | server/api/renaming.py:86-98 | with the intended scans, every maximal word run is replaced and the rest of the line kept, with no raise and no wrap-around |
| Renaming.EndOfLineIntended | server/api/renaming.py:91 | with the intended scans, `class Foo` at column 7 becomes `class [MASK]` |
| Inference.ExpandIsSinglePass | server/inference.py:20-21 | the two `replace` calls act as one pass: each `[MASK]` becomes `" " + n mask tokens + " "`, and nothing written is expanded again |
| Inference.ManualModeExpandsTwice | server/inference.py:20-21 | text masked with `n >= 1` placeholders is expanded into `n` groups of `n` mask tokens |
| Inference.ExpandSinglePlaceholder | server/inference.py:19-21 | one placeholder is expanded into exactly `n` space-separated mask tokens |
| Inference.Chunks | server/inference.py:40-41 | the chunks are consecutive slices whose concatenation is the ids; all but the last hold 510 ids, none holds more, and only an empty input gives an empty chunk |
| Inference.ChunkCount | server/inference.py:40 | there are `ceil(len / 510)` chunks, and one for an empty input |
| Inference.ChunksSameShape | server/inference.py:40-41 | the id and attention-mask sequences, being of equal length, split into chunks of the same lengths |
| Inference.WindowLayout | server/inference.py:53-64 | every window has length 512: 101 at index 0, then the chunk, then 102 right after it, then 0 up to the end |
| Inference.AttentionMarksRealIds | server/inference.py:56-64 | the attention mask is 1 exactly on `[CLS]`, the chunk and `[SEP]`, and 0 on the padding |
| Inference.BuildWindows | server/inference.py:53-64 | the two in-place loops over the chunks produce the framed and padded windows and attention masks |
| Inference.RunEnd | server/inference.py:75-76 | the inner loop stops at the first index past the run of mask ids |
| Inference.RunStartsFromExact | server/inference.py:67-79 | the recorded indices are strictly increasing, and they are exactly the starts of mask runs from `j` on |
| Inference.RunStartsExact | server/inference.py:67-79 | the recorded indices are strictly increasing, and an index is recorded if and only if a mask run starts there: one index per run |
| Inference.MaskRunStarts | server/inference.py:69-79 | the while-loop on `j` records the run starts of one window |
| Inference.FindMaskPositions | server/inference.py:67-79 | the loop over the windows records the run starts of each window |
| Inference.StartContributionsExact | server/inference.py:101-104 | a window's gathered pairs for subtoken `t` are exactly `(chunk, start + t)` for its run starts with `start + t < 512` |
| Inference.ContributionsExact | server/inference.py:100-104 | the gathered pairs for subtoken `t` are exactly the pairs `(chunk, start + t)` with `start + t < 512`, over all windows |
| Inference.GatherSubtoken | server/inference.py:99-104 | the two nested loops gather exactly the contributing pairs for subtoken `t` |
| Inference.GatherSlots | server/inference.py:96-110 | the loop over `t` keeps the non-empty gathers in the order of `t` |
| Inference.SlotGroupsShape | server/inference.py:96-110 | at most `num_mask_tokens` pieces are kept, and each has at least one position |
| Inference.SlotGroupsComplete | server/inference.py:96-110 | when every subtoken has a contributing position, there is one piece per subtoken, in order |
| Inference.LateMaskDropsPiece | server/inference.py:103-110 | a mask run starting at index 510 with 3 subtokens yields only 2 pieces: the third position, 512, is dropped |
| Inference.FirstAlphabetic | server/inference.py:122-127 | the search returns the first alphabetic decoding from `from` on, or the length if there is none |
| Inference.ChoiceIndex | server/inference.py:120-132 | the chosen index is the first alphabetic decoding of the top-5, or 0 when none is alphabetic |
| Inference.ChooseToken | server/inference.py:120-132 | the loop with `break` and the fallback choose that index |
| Inference.DecodedNameAlphabetic | server/inference.py:116-134 | when every piece has an alphabetic candidate, the predicted name consists only of letters |
| Inference.TotalNllNonNegative | server/inference.py:114-136 | with non-negative negative log-probabilities, the total is non-negative |
| Inference.DecodeAndScore | server/inference.py:113-136 | the accumulator loop gives the concatenated chosen pieces and the summed negative log-probability |
| Inference.AveragePllDivisor | server/inference.py:138-141 | the divisor is `num_mask_tokens`, not the number of pieces; the average is 0 when `num_mask_tokens <= 0`; it is non-negative when the total is |
| Inference.NoMaskTokens | server/inference.py:96-141 | with no subtoken requested, the name is empty and the score 0 |
| Inference.PiecesAtMostRequested | server/inference.py:96-110 | at most `num_mask_tokens` pieces are decoded, so fewer pieces than requested can come out |
| Inference.GenerateIdentifierCandidates | server/inference.py:7-145 | the whole pipeline (expand, encode, chunk, frame, scan, gather, decode, average) returns the specified candidate |
| Inference.BestSoFarIsFirstMinimum | server/inference.py:155-167 | after trying the candidates in order, the kept one has the lowest score and every earlier candidate scores strictly higher, so ties keep the smaller count; nothing is kept if and only if nothing was tried |
| Inference.SelectBestIdentifier | server/inference.py:148-175 | the loop over counts 1..max returns the name of the first strictly lowest score, and `""` when `max_num_tokens < 1` |
| Occurrences.FindOccurrencesInDocument | irename/src/commands/renameIdentifier.ts:69-106 | the nested loops return the specified ranges, the empty list for a missing or empty word range, or the editor's exception for an illegal line or character |
| Occurrences.PushLineOccurrences | irename/src/commands/renameIdentifier.ts:84-101 | the while-loop over `index` appends exactly the line's greedy non-overlapping matches |
| Occurrences.LineMatchesStep | irename/src/commands/renameIdentifier.ts:84-101 | `indexOf` gives the next greedy match, and the search goes on at `index + word.length` |
| Occurrences.LineMatchesNext | irename/src/commands/renameIdentifier.ts:101 | resuming after the `j`-th match finds the next match, or -1 after the last |
| Occurrences.LineMatchesAreMatches | irename/src/commands/renameIdentifier.ts:86-92 | every visited index is a match of the word on the line |
| Occurrences.LineMatchesSpaced | irename/src/commands/renameIdentifier.ts:101 | consecutive matches on a line are at least `word.length` apart, so they are strictly increasing and do not overlap |
| Occurrences.LineMatchesComplete | irename/src/commands/renameIdentifier.ts:84-101 | every match on the line is visited, or it overlaps a visited match |
| Occurrences.LineRangesMatch | irename/src/commands/renameIdentifier.ts:86-92 | every range pushed for a line lies in the line, spans `word.length` characters and its text is the word |
| Occurrences.DocumentRangesMatch | irename/src/commands/renameIdentifier.ts:82-103 | every returned range lies in the document, spans `word.length` characters and its text is the word |
| Occurrences.DocumentRangesComplete | irename/src/commands/renameIdentifier.ts:95-99 | every match anywhere in the document is covered by a returned range, since both branches push |
| Occurrences.LineRangesOrdered | irename/src/commands/renameIdentifier.ts:84-101 | the ranges of one line are strictly increasing and non-overlapping |
| Occurrences.DocumentRangesOrdered | irename/src/commands/renameIdentifier.ts:82-103 | the results are ordered by line and then by column, and all lie on lines of the document |
| Occurrences.SubstringInsideIdentifier | irename/src/commands/renameIdentifier.ts:95-99 | with no whole-word check, `x` matches inside `max` as well as on its own |
| Occurrences.EmptyWordRange | irename/src/commands/renameIdentifier.ts:74-76 | a missing or empty word range gives the empty list |

Proof helpers, each a single unfolding of a fold or a loop step that the methods and lemmas above
rely on: `Renaming.ScanLeftStep`, `Renaming.ScanRightStep`, `Renaming.FirstCoveringUnique`,
`Renaming.MaskLinesStep`, `Renaming.MaskLinesStepAt`, `Renaming.MaskLinesCons`,
`Renaming.MaskLinesSkips`, `Renaming.MaskLinesSkipsAt`, `Renaming.MaskLinesFails`,
`Renaming.MaskLinesFailsAt`, `Renaming.MaskLinesDone`, `Renaming.MaskLinesFirstSucceeds`,
`Renaming.MaskLinesNext`, `Renaming.MaskLinesSingleton`, `Renaming.MaskLinesSingleRun`,
`Renaming.MaskLinesOneLine`, `Renaming.MaskedTextOfLines`, `Renaming.MaskedTextFails`, `Inference.Zeros`,
`Inference.FirstMinimumStep`, `Inference.BestSoFarSnoc`.

## Left out

- The model forward pass, `softmax`, `log`, the averaging of logits and `topk` are left out. They are floating-point tensor numerics. The predictor function supplies, for each gathered piece, its five decoded candidates and their negative log-probabilities.
- The Java lexer (`javalang`) and the tokenizer's `encode_plus`/`decode` are left out. They are foreign libraries; their outputs are inputs to the model.
- Inference.AveragePllDivisor: the score is not rounded with `round(..., 2)`, because that is floating-point rounding. As a result, two counts whose scores differ only after rounding are compared unrounded in `Inference.SelectBestIdentifier`.
- Inference.SelectBestIdentifier: scores are exact reals, so an infinite or NaN score is not modelled. Such a score can never beat the initial `float('inf')`. In the model, the first candidate is always kept.
- Inference.GenerateIdentifierCandidates: its `print` of the expanded text and the `print` logging elsewhere are left out, because they are output only.
- Text.Strip: Python's `strip`, `isalnum` and `isalpha` are modelled on ASCII letters, digits and whitespace only. Unicode character classes are not modelled.
- Occurrences.FindOccurrencesInDocument: columns and lengths count Dafny characters (Unicode scalar values), while JavaScript's `indexOf`, `targetWord.length` and the editor's positions count UTF-16 code units. On a line holding characters outside the Basic Multilingual Plane the columns differ: on the line `😀x` with the word `x`, the editor gets the range (0, 2, 3) and the model gives (0, 1, 2). Modelling lines as UTF-16 code units would need an encoder that is not part of this model.
- Text.IndexOfFirstMatch: JavaScript `indexOf` is modelled only for a non-negative start and a non-empty word, because those are the only calls the editor makes after its empty-range check.
- The FastAPI handler `rename_identifier` is left out because it is HTTP plumbing. Its blanket `except` also re-wraps the 400 and 404 errors as 500 (server/api/renaming.py:134-135).
- server/main.py and server/model.py are not part of this model. They cover weight loading, device selection and a two-line dispatch in which the automatic mode reports a constant probability of 1.0.
- The editor extension's user interface, networking and edits are not part of this model. The word range comes from the editor API and is an input.

## Findings

| source | as written | input that shows it | evidently intended | confidence | as-written member | corrected member |
|---|---|---|---|---|---|---|
| server/api/renaming.py:88-91 | `while start > 0 and lc[start-1].isalnum() or lc[start-1] == '_'` parses as `(A and B) or C`, so the bounds test does not guard the `'_'` test | `mask_code("class Foo", [(1,7)], -1)` raises `IndexError`; on the line `a = b_`, column 1 wraps around to `a = b[MASK] = b_` | stop at the line's ends: `start > 0 and (isalnum or == '_')` | high (not executed) | Renaming.EndOfLineExample, Renaming.WrapAroundExample | Renaming.MaskOneIntendedReplacesRun, Renaming.EndOfLineIntended |
| server/inference.py:20-21 with server/api/renaming.py:124 | in manual mode `mask_code` already writes `n` placeholders, and each of them is expanded again into `n` mask tokens | `num_tokens = 2`: the occurrence becomes 4 mask tokens in two groups | one placeholder per occurrence, expanded once into `n` tokens | high (not executed) | Inference.ManualModeExpandsTwice | Inference.ExpandSinglePlaceholder |
