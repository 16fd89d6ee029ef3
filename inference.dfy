/**
 * The integer and string logic of `generate_identifier_candidates` and `select_best_identifier`
 * (server/inference.py). The tokenizer and the masked language model are supplied as functions:
 * `encode` stands for `encode_plus(..., add_special_tokens=False)`, and `predict` stands for the
 * forward pass, the averaging of the gathered logits, `topk(k=5)`, `decode` and `-log(softmax)`,
 * returning for one subtoken the decoded top-5 strings and their negative log-probabilities.
 */
module Inference {
  import opened Results
  import opened Text
  import Renaming

  /** Every window the model sees holds exactly this many ids. */
  const WindowLength: int := 512
  /** Ids per chunk, leaving room for the two boundary ids. */
  const ChunkCapacity: int := 510
  /** The hard-coded `[CLS]` and `[SEP]` ids, and the padding id. */
  const ClsId: int := 101
  const SepId: int := 102
  const PadId: int := 0
  /** How many top-scoring ids are inspected for each subtoken. */
  const TopK: int := 5

  // ---------------------------------------------------------------------------
  // Step 1: expanding the placeholder
  // ---------------------------------------------------------------------------

  /**
   * `code.replace("[MASK]", " [MASK] ")` followed by
   * `.replace("[MASK]", " ".join([maskToken] * n))`.
   */
  function ExpandMasks(code: string, maskToken: string, n: int): string {
    var spaced := Replace(code, Renaming.MaskLiteral, " " + Renaming.MaskLiteral + " ");
    Replace(spaced, Renaming.MaskLiteral, Join(Repeat(n, maskToken), " "))
  }

  /**
   * The two replacements act as one single pass: each `[MASK]` of the input becomes
   * `" " + n mask tokens + " "`, and the mask tokens written are never expanded again.
   */
  lemma {:induction false} ExpandIsSinglePass(code: string, maskToken: string, n: int)
    ensures ExpandMasks(code, maskToken, n)
         == Replace(code, Renaming.MaskLiteral, " " + Join(Repeat(n, maskToken), " ") + " ")
  {
    ReplaceTwice(code, Renaming.MaskLiteral, Join(Repeat(n, maskToken), " "));
  }

  /**
   * As written, manual mode expands twice: `mask_code` has already written `n` placeholders
   * for the occurrence, and each of them becomes `n` mask tokens, `n * n` in all.
   */
  lemma {:induction false} ManualModeExpandsTwice(n: int, maskToken: string)
    requires n >= 1
    ensures ExpandMasks(Renaming.Replacement(n), maskToken, n)
         == Join(Repeat(n, " " + Join(Repeat(n, maskToken), " ") + " "), " ")
  {
    ExpandIsSinglePass(Renaming.Replacement(n), maskToken, n);
    ReplaceInRepeat(n, Renaming.MaskLiteral, " " + Join(Repeat(n, maskToken), " ") + " ");
  }

  /**
   * With a single placeholder per occurrence, the expansion yields exactly `n` mask tokens,
   * separated by single spaces.
   */
  lemma {:induction false} ExpandSinglePlaceholder(n: int, maskToken: string)
    requires n >= 1 && |maskToken| > 0 && ' ' !in maskToken
    ensures ExpandMasks(Renaming.Replacement(-1), maskToken, n) == " " + Join(Repeat(n, maskToken), " ") + " "
    ensures Split(Join(Repeat(n, maskToken), " "), ' ') == Repeat(n, maskToken)
  {
    ManualModeExpandsTwice(1, maskToken);
    assert Renaming.Replacement(1) == Renaming.Replacement(-1);
    ExpandIsSinglePass(Renaming.Replacement(-1), maskToken, n);
    ReplaceInRepeat(1, Renaming.MaskLiteral, " " + Join(Repeat(n, maskToken), " ") + " ");
    assert Join(Repeat(1, " " + Join(Repeat(n, maskToken), " ") + " "), " ")
        == " " + Join(Repeat(n, maskToken), " ") + " ";
    SplitJoin(Repeat(n, maskToken), ' ');
  }

  // ---------------------------------------------------------------------------
  // Step 3: 510-id chunks
  // ---------------------------------------------------------------------------

  function Flatten(chunks: seq<seq<int>>): seq<int> {
    if |chunks| == 0 then [] else chunks[0] + Flatten(chunks[1..])
  }

  /**
   * `tensor.split(510)`: consecutive slices of 510 ids, the last one shorter; an empty tensor
   * splits into one empty chunk.
   */
  function Chunks(ids: seq<int>): (chunks: seq<seq<int>>)
    ensures |chunks| >= 1 && Flatten(chunks) == ids
    ensures forall i :: 0 <= i < |chunks| - 1 ==> |chunks[i]| == ChunkCapacity
    ensures forall i :: 0 <= i < |chunks| ==> |chunks[i]| <= ChunkCapacity
    ensures ids == [] || 0 < |chunks[|chunks| - 1]|
    decreases |ids|
  {
    if |ids| <= ChunkCapacity then [ids]
    else
      var rest := Chunks(ids[ChunkCapacity..]);
      assert ids[..ChunkCapacity] + ids[ChunkCapacity..] == ids;
      [ids[..ChunkCapacity]] + rest
  }

  /** The number of chunks is the ceiling of `|ids| / 510`, and 1 for no ids. */
  lemma {:induction false} ChunkCount(ids: seq<int>)
    ensures |Chunks(ids)| == if |ids| == 0 then 1 else (|ids| + ChunkCapacity - 1) / ChunkCapacity
    decreases |ids|
  {
    if |ids| > ChunkCapacity {
      ChunkCount(ids[ChunkCapacity..]);
    }
  }

  /** Two sequences of equal length split into chunks of pairwise equal lengths. */
  lemma {:induction false} ChunksSameShape(a: seq<int>, b: seq<int>)
    requires |a| == |b|
    ensures |Chunks(a)| == |Chunks(b)|
    ensures forall i :: 0 <= i < |Chunks(a)| ==> |Chunks(a)[i]| == |Chunks(b)[i]|
    decreases |a|
  {
    if |a| > ChunkCapacity {
      ChunksSameShape(a[ChunkCapacity..], b[ChunkCapacity..]);
    }
  }

  // ---------------------------------------------------------------------------
  // Steps 4 and 5: boundary ids and padding
  // ---------------------------------------------------------------------------

  function Zeros(k: nat): (z: seq<int>)
    ensures |z| == k && forall i :: 0 <= i < k ==> z[i] == PadId
  {
    seq(k, _ => PadId)
  }

  /** Step 5: a row shorter than 512 is padded with zeros up to 512; a longer one is kept. */
  function Pad(row: seq<int>): seq<int> {
    if |row| < WindowLength then row + Zeros(WindowLength - |row|) else row
  }

  /**
   * A chunk with `first` prepended and `last` appended, then padded. For ids this is
   * `[CLS] chunk [SEP] 0 ... 0`, for the attention mask `1 mask 1 0 ... 0`.
   */
  function Framed(chunk: seq<int>, first: int, last: int): seq<int> {
    Pad([first] + chunk + [last])
  }

  /**
   * Every window of a chunk of at most 510 ids has length 512: `first` at index 0, the chunk at
   * 1 .. |chunk|, `last` right after it, and padding ids everywhere after that.
   */
  lemma {:induction false} WindowLayout(chunk: seq<int>, first: int, last: int)
    requires |chunk| <= ChunkCapacity
    ensures var w := Framed(chunk, first, last);
            |w| == WindowLength && w[0] == first && w[1..|chunk| + 1] == chunk && w[|chunk| + 1] == last
            && forall k :: |chunk| + 2 <= k < WindowLength ==> w[k] == PadId
  {
    var w := Framed(chunk, first, last);
    assert w[..|chunk| + 2] == [first] + chunk + [last];
    assert w[1..|chunk| + 1] == ([first] + chunk + [last])[1..|chunk| + 1];
  }

  /** Every chunk framed. */
  function Frames(chunks: seq<seq<int>>, first: int, last: int): seq<seq<int>> {
    seq(|chunks|, i requires 0 <= i < |chunks| => Framed(chunks[i], first, last))
  }

  /**
   * The attention window marks exactly the real positions: when the tokenizer's mask is all ones,
   * position `k` of the framed mask is 1 if and only if it holds `[CLS]`, a chunk id or `[SEP]`.
   */
  lemma {:induction false} AttentionMarksRealIds(mask: seq<int>)
    requires |mask| <= ChunkCapacity && forall i :: 0 <= i < |mask| ==> mask[i] == 1
    ensures var w := Framed(mask, 1, 1);
            forall k :: 0 <= k < WindowLength ==> (w[k] == 1 <==> k <= |mask| + 1)
  {
    var w := Framed(mask, 1, 1);
    WindowLayout(mask, 1, 1);
    forall k | 0 <= k < WindowLength
      ensures w[k] == 1 <==> k <= |mask| + 1
    {
      if 1 <= k <= |mask| {
        assert w[k] == w[1..|mask| + 1][k - 1];
      }
    }
  }

  /** Steps 4 and 5: the chunk lists are rewritten in place, first framed, then padded. */
  method BuildWindows(idChunks: seq<seq<int>>, maskChunks: seq<seq<int>>)
    returns (windows: seq<seq<int>>, attention: seq<seq<int>>)
    requires |maskChunks| == |idChunks| && forall k :: 0 <= k < |idChunks| ==> |maskChunks[k]| == |idChunks[k]|
    ensures windows == Frames(idChunks, ClsId, SepId) && attention == Frames(maskChunks, 1, 1)
  {
    windows := idChunks;
    attention := maskChunks;
    for i := 0 to |windows|
      invariant |windows| == |idChunks| && |attention| == |maskChunks|
      invariant forall k :: 0 <= k < i ==> windows[k] == [ClsId] + idChunks[k] + [SepId]
      invariant forall k :: i <= k < |windows| ==> windows[k] == idChunks[k]
      invariant forall k :: 0 <= k < i ==> attention[k] == [1] + maskChunks[k] + [1]
      invariant forall k :: i <= k < |attention| ==> attention[k] == maskChunks[k]
    {
      windows := windows[i := [ClsId] + windows[i] + [SepId]];
      attention := attention[i := [1] + attention[i] + [1]];
    }
    for i := 0 to |windows|
      invariant |windows| == |idChunks| && |attention| == |maskChunks|
      invariant forall k :: 0 <= k < i ==> windows[k] == Framed(idChunks[k], ClsId, SepId)
      invariant forall k :: i <= k < |windows| ==> windows[k] == [ClsId] + idChunks[k] + [SepId]
      invariant forall k :: 0 <= k < i ==> attention[k] == Framed(maskChunks[k], 1, 1)
      invariant forall k :: i <= k < |attention| ==> attention[k] == [1] + maskChunks[k] + [1]
    {
      var length := |windows[i]|;
      if length < WindowLength {
        var padLen := WindowLength - length;
        windows := windows[i := windows[i] + Zeros(padLen)];
        attention := attention[i := attention[i] + Zeros(padLen)];
      }
    }
  }

  // ---------------------------------------------------------------------------
  // Step 6: the first index of every run of mask ids
  // ---------------------------------------------------------------------------

  /** Index `p` of `w` holds the mask id and its left neighbour (if any) does not. */
  predicate IsRunStart(w: seq<int>, maskId: int, p: int) {
    0 <= p < |w| && w[p] == maskId && (p == 0 || w[p - 1] != maskId)
  }

  /** The index just past the run of mask ids starting at `j` (`j` itself when there is none). */
  function RunEnd(w: seq<int>, maskId: int, j: nat): (e: nat)
    requires j <= |w|
    ensures j <= e <= |w| && (e == |w| || w[e] != maskId)
    ensures forall k :: j <= k < e ==> w[k] == maskId
    decreases |w| - j
  {
    if j < |w| && w[j] == maskId then RunEnd(w, maskId, j + 1) else j
  }

  /** The run starts the scan records from index `j` on. */
  function RunStartsFrom(w: seq<int>, maskId: int, j: nat): seq<int>
    requires j <= |w|
    decreases |w| - j
  {
    if j == |w| then []
    else if w[j] == maskId then [j] + RunStartsFrom(w, maskId, RunEnd(w, maskId, j))
    else RunStartsFrom(w, maskId, j + 1)
  }

  function RunStarts(w: seq<int>, maskId: int): seq<int> {
    RunStartsFrom(w, maskId, 0)
  }

  predicate StrictlyIncreasing(s: seq<int>) {
    forall i, j :: 0 <= i < j < |s| ==> s[i] < s[j]
  }

  lemma {:induction false} RunStartsFromExact(w: seq<int>, maskId: int, j: nat)
    requires j <= |w|
    requires j == 0 || j == |w| || w[j - 1] != maskId || w[j] != maskId
    ensures var r := RunStartsFrom(w, maskId, j);
            StrictlyIncreasing(r) && (forall i :: 0 <= i < |r| ==> j <= r[i])
            && forall p :: p in r <==> (j <= p && IsRunStart(w, maskId, p))
    decreases |w| - j
  {
    if j < |w| {
      if w[j] == maskId {
        var e := RunEnd(w, maskId, j);
        RunStartsFromExact(w, maskId, e);
        forall p | j < p < e
          ensures !IsRunStart(w, maskId, p)
        {
          assert w[p - 1] == maskId;
        }
      } else {
        RunStartsFromExact(w, maskId, j + 1);
      }
    }
  }

  /**
   * The scan records strictly increasing indices, and an index is recorded if and only if it
   * starts a maximal run of mask ids, so every run yields exactly one index.
   */
  lemma {:induction false} RunStartsExact(w: seq<int>, maskId: int)
    ensures var r := RunStarts(w, maskId);
            StrictlyIncreasing(r) && forall p :: p in r <==> IsRunStart(w, maskId, p)
  {
    RunStartsFromExact(w, maskId, 0);
  }

  /** The `while j < chunk_tensor.size(0)` loop over one window. */
  method MaskRunStarts(w: seq<int>, maskId: int) returns (positions: seq<int>)
    ensures positions == RunStarts(w, maskId)
  {
    positions := [];
    var j := 0;
    while j < |w|
      invariant 0 <= j <= |w|
      invariant positions + RunStartsFrom(w, maskId, j) == RunStarts(w, maskId)
      decreases |w| - j
    {
      if w[j] == maskId {
        positions := positions + [j];
        ghost var j0 := j;
        while j < |w| && w[j] == maskId
          invariant j0 <= j <= |w|
          invariant RunEnd(w, maskId, j) == RunEnd(w, maskId, j0)
          decreases |w| - j
        {
          j := j + 1;
        }
      } else {
        j := j + 1;
      }
    }
  }

  /** The run starts of every window. */
  function AllRunStarts(windows: seq<seq<int>>, maskId: int): seq<seq<int>> {
    seq(|windows|, i requires 0 <= i < |windows| => RunStarts(windows[i], maskId))
  }

  /** Step 6: one list of run starts per window, in window order. */
  method FindMaskPositions(windows: seq<seq<int>>, maskId: int) returns (maskPositions: seq<seq<int>>)
    ensures maskPositions == AllRunStarts(windows, maskId)
  {
    maskPositions := [];
    for c := 0 to |windows|
      invariant |maskPositions| == c
      invariant forall i :: 0 <= i < c ==> maskPositions[i] == RunStarts(windows[i], maskId)
    {
      var positions := MaskRunStarts(windows[c], maskId);
      maskPositions := maskPositions + [positions];
    }
  }

  // ---------------------------------------------------------------------------
  // Step 9: which (chunk, position) pairs feed each subtoken
  // ---------------------------------------------------------------------------

  /** A position `pos` of window `chunk` whose logits are gathered. */
  datatype Slot = Slot(chunk: int, pos: int)

  /** The pairs gathered for subtoken `t` from the run starts `starts` of window `chunk`. */
  function StartContributions(chunk: int, starts: seq<int>, t: int): seq<Slot> {
    if |starts| == 0 then []
    else
      var pos := starts[|starts| - 1] + t;
      StartContributions(chunk, starts[..|starts| - 1], t) + (if pos < WindowLength then [Slot(chunk, pos)] else [])
  }

  /** The pairs gathered for subtoken `t`, window by window. */
  function Contributions(maskPositions: seq<seq<int>>, t: int): seq<Slot> {
    if |maskPositions| == 0 then []
    else
      var c := |maskPositions| - 1;
      Contributions(maskPositions[..c], t) + StartContributions(c, maskPositions[c], t)
  }

  /** The non-empty gathers for subtokens `0 .. count - 1`, in order; empty ones are dropped. */
  function SlotGroups(maskPositions: seq<seq<int>>, count: nat): seq<seq<Slot>> {
    if count == 0 then []
    else
      var g := Contributions(maskPositions, count - 1);
      SlotGroups(maskPositions, count - 1) + (if |g| > 0 then [g] else [])
  }

  lemma {:induction false} StartContributionsExact(chunk: int, starts: seq<int>, t: int)
    ensures forall sl :: sl in StartContributions(chunk, starts, t)
              <==> (sl.chunk == chunk && sl.pos < WindowLength && sl.pos - t in starts)
  {
    if |starts| > 0 {
      var init := starts[..|starts| - 1];
      StartContributionsExact(chunk, init, t);
      assert starts == init + [starts[|starts| - 1]];
    }
  }

  /**
   * Subtoken `t` reads window `c` at `pos` if and only if `pos - t` starts a mask run in that
   * window and `pos < 512`.
   */
  lemma {:induction false} ContributionsExact(maskPositions: seq<seq<int>>, t: int)
    ensures forall sl :: sl in Contributions(maskPositions, t)
              <==> (0 <= sl.chunk < |maskPositions| && sl.pos < WindowLength && sl.pos - t in maskPositions[sl.chunk])
  {
    if |maskPositions| > 0 {
      var c := |maskPositions| - 1;
      ContributionsExact(maskPositions[..c], t);
      StartContributionsExact(c, maskPositions[c], t);
    }
  }

  /** At most `count` pieces survive, and none of them is empty. */
  lemma {:induction false} SlotGroupsShape(maskPositions: seq<seq<int>>, count: nat)
    ensures var gs := SlotGroups(maskPositions, count);
            |gs| <= count && forall i :: 0 <= i < |gs| ==> |gs[i]| > 0
  {
    if count > 0 {
      SlotGroupsShape(maskPositions, count - 1);
    }
  }

  /** When every subtoken has a contributing position, piece `t` is exactly the gather for `t`. */
  lemma {:induction false} SlotGroupsComplete(maskPositions: seq<seq<int>>, count: nat)
    requires forall t :: 0 <= t < count ==> |Contributions(maskPositions, t)| > 0
    ensures var gs := SlotGroups(maskPositions, count);
            |gs| == count && forall t :: 0 <= t < count ==> gs[t] == Contributions(maskPositions, t)
  {
    if count > 0 {
      SlotGroupsComplete(maskPositions, count - 1);
    }
  }

  /**
   * A single mask run starting at index 510 and three subtokens: subtoken 2 would read index 512,
   * so it is dropped and only two pieces are decoded.
   */
  lemma {:induction false} LateMaskDropsPiece()
    ensures SlotGroups([[510]], 3) == [[Slot(0, 510)], [Slot(0, 511)]]
  {
    assert [[510]][..0] == [];
    assert [510][..0] == [];
    assert Contributions([[510]], 0) == [Slot(0, 510)];
    assert Contributions([[510]], 1) == [Slot(0, 511)];
    assert Contributions([[510]], 2) == [];
  }

  /** Reading one more run start of window `chunk` appends its slot when that stays inside the window. */
  lemma {:induction false} StartContributionsSnoc(chunk: int, starts: seq<int>, k: int, t: int)
    requires 0 <= k < |starts|
    ensures StartContributions(chunk, starts[..k + 1], t)
         == StartContributions(chunk, starts[..k], t)
            + (if starts[k] + t < WindowLength then [Slot(chunk, starts[k] + t)] else [])
  {
    assert starts[..k + 1][..k] == starts[..k];
  }

  /** Reading one more window appends what that window contributes. */
  lemma {:induction false} ContributionsSnoc(maskPositions: seq<seq<int>>, c: int, t: int)
    requires 0 <= c < |maskPositions|
    ensures Contributions(maskPositions[..c + 1], t)
         == Contributions(maskPositions[..c], t) + StartContributions(c, maskPositions[c], t)
  {
    assert maskPositions[..c + 1][..c] == maskPositions[..c];
  }

  /** Step 9: for each subtoken index, the positions gathered across all windows. */
  method GatherSlots(maskPositions: seq<seq<int>>, numMaskTokens: int) returns (groups: seq<seq<Slot>>)
    ensures groups == SlotGroups(maskPositions, if numMaskTokens > 0 then numMaskTokens else 0)
  {
    var count := if numMaskTokens > 0 then numMaskTokens else 0;
    groups := [];
    for t := 0 to count
      invariant groups == SlotGroups(maskPositions, t)
    {
      var slots := GatherSubtoken(maskPositions, t);
      if |slots| > 0 {
        groups := groups + [slots];
      }
    }
  }

  /** The inner loops of step 9 for one subtoken index `t`. */
  method GatherSubtoken(maskPositions: seq<seq<int>>, t: int) returns (slots: seq<Slot>)
    ensures slots == Contributions(maskPositions, t)
  {
    slots := [];
    for c := 0 to |maskPositions|
      invariant slots == Contributions(maskPositions[..c], t)
    {
      ContributionsSnoc(maskPositions, c, t);
      var starts := maskPositions[c];
      for k := 0 to |starts|
        invariant slots == Contributions(maskPositions[..c], t) + StartContributions(c, starts[..k], t)
      {
        StartContributionsSnoc(c, starts, k, t);
        var pos := starts[k] + t;
        if pos < WindowLength {
          slots := slots + [Slot(c, pos)];
        }
      }
      assert starts[..|starts|] == starts;
    }
    assert maskPositions[..|maskPositions|] == maskPositions;
  }

  // ---------------------------------------------------------------------------
  // Step 10: choosing a token per piece
  // ---------------------------------------------------------------------------

  /** What the model reports for one piece: the decoded top-k ids and their negative log-probabilities. */
  datatype Prediction = Prediction(decoded: seq<string>, negLogProb: seq<real>)

  predicate ValidPrediction(p: Prediction) {
    |p.decoded| == TopK && |p.negLogProb| == TopK
  }

  /** A decoded candidate qualifies when, stripped, it is a non-empty run of letters. */
  predicate Alphabetic(s: string) {
    IsAlphaString(Strip(s))
  }

  /** The first qualifying index at or after `from`, or `|decoded|` when there is none. */
  function FirstAlphabetic(decoded: seq<string>, from: nat): (k: nat)
    requires from <= |decoded|
    ensures from <= k <= |decoded|
    ensures k < |decoded| ==> Alphabetic(decoded[k])
    ensures forall j :: from <= j < k ==> !Alphabetic(decoded[j])
    decreases |decoded| - from
  {
    if from == |decoded| || Alphabetic(decoded[from]) then from else FirstAlphabetic(decoded, from + 1)
  }

  /** The index of the chosen id: the first alphabetic candidate, else the top one. */
  function ChoiceIndex(decoded: seq<string>): (k: nat)
    requires |decoded| > 0
    ensures k < |decoded|
    ensures (Alphabetic(decoded[k]) && forall j :: 0 <= j < k ==> !Alphabetic(decoded[j]))
         || (k == 0 && forall j :: 0 <= j < |decoded| ==> !Alphabetic(decoded[j]))
  {
    var k := FirstAlphabetic(decoded, 0);
    if k < |decoded| then k else 0
  }

  /** The `for candidate_id in topk_ids` loop with its fallback. */
  method ChooseToken(decoded: seq<string>) returns (k: nat)
    requires |decoded| > 0
    ensures k == ChoiceIndex(decoded)
  {
    var chosen: Option<nat> := None;
    for i := 0 to |decoded|
      invariant forall j :: 0 <= j < i ==> !Alphabetic(decoded[j])
      invariant chosen == None
    {
      var tok := Strip(decoded[i]);
      if IsAlphaString(tok) {
        chosen := Some(i);
        break;
      }
    }
    if chosen == None {
      k := 0;
    } else {
      k := chosen.value;
    }
  }

  /** The stripped string the source appends for one piece. */
  function ChosenPiece(p: Prediction): string
    requires ValidPrediction(p)
  {
    Strip(p.decoded[ChoiceIndex(p.decoded)])
  }

  function ChosenNll(p: Prediction): real
    requires ValidPrediction(p)
  {
    p.negLogProb[ChoiceIndex(p.decoded)]
  }

  /** The model's answer for every gathered piece. */
  type Predictor = (seq<seq<int>>, seq<seq<int>>, seq<Slot>) -> Prediction

  ghost predicate ValidPredictor(predict: Predictor) {
    forall windows, attention, g :: ValidPrediction(predict(windows, attention, g))
  }

  /** `predicted_identifier`: the chosen pieces concatenated in order. */
  function DecodedName(predict: Predictor, windows: seq<seq<int>>, attention: seq<seq<int>>, groups: seq<seq<Slot>>): string
    requires ValidPredictor(predict)
  {
    if |groups| == 0 then ""
    else
      var last := |groups| - 1;
      DecodedName(predict, windows, attention, groups[..last]) + ChosenPiece(predict(windows, attention, groups[last]))
  }

  /** `total_pll`: the chosen pieces' negative log-probabilities summed in order. */
  function TotalNll(predict: Predictor, windows: seq<seq<int>>, attention: seq<seq<int>>, groups: seq<seq<Slot>>): real
    requires ValidPredictor(predict)
  {
    if |groups| == 0 then 0.0
    else
      var last := |groups| - 1;
      TotalNll(predict, windows, attention, groups[..last]) + ChosenNll(predict(windows, attention, groups[last]))
  }

  /**
   * When every piece has an alphabetic candidate among its top 5, the identifier consists of
   * letters only.
   */
  lemma {:induction false} DecodedNameAlphabetic(predict: Predictor, windows: seq<seq<int>>, attention: seq<seq<int>>, groups: seq<seq<Slot>>)
    requires ValidPredictor(predict)
    requires forall i :: 0 <= i < |groups| ==> HasAlphabetic(predict(windows, attention, groups[i]))
    ensures forall c :: c in DecodedName(predict, windows, attention, groups) ==> IsAlpha(c)
  {
    if |groups| > 0 {
      var last := |groups| - 1;
      assert forall i :: 0 <= i < last ==> groups[..last][i] == groups[i];
      DecodedNameAlphabetic(predict, windows, attention, groups[..last]);
      var p := predict(windows, attention, groups[last]);
      assert HasAlphabetic(p);
      assert Alphabetic(p.decoded[ChoiceIndex(p.decoded)]);
    }
  }

  /** Some candidate of the piece qualifies. */
  predicate HasAlphabetic(p: Prediction) {
    exists j :: 0 <= j < |p.decoded| && Alphabetic(p.decoded[j])
  }

  /** Non-negative per-piece scores give a non-negative total. */
  lemma {:induction false} TotalNllNonNegative(predict: Predictor, windows: seq<seq<int>>, attention: seq<seq<int>>, groups: seq<seq<Slot>>)
    requires ValidPredictor(predict)
    requires forall g :: forall j :: 0 <= j < TopK ==> predict(windows, attention, g).negLogProb[j] >= 0.0
    ensures TotalNll(predict, windows, attention, groups) >= 0.0
  {
    if |groups| > 0 {
      TotalNllNonNegative(predict, windows, attention, groups[..|groups| - 1]);
    }
  }

  /** Step 10: decode every piece and accumulate its negative log-probability. */
  method DecodeAndScore(predict: Predictor, windows: seq<seq<int>>, attention: seq<seq<int>>, groups: seq<seq<Slot>>)
    returns (name: string, total: real)
    requires ValidPredictor(predict)
    ensures name == DecodedName(predict, windows, attention, groups)
    ensures total == TotalNll(predict, windows, attention, groups)
  {
    name := "";
    total := 0.0;
    for i := 0 to |groups|
      invariant name == DecodedName(predict, windows, attention, groups[..i])
      invariant total == TotalNll(predict, windows, attention, groups[..i])
    {
      assert groups[..i + 1][..i] == groups[..i];
      var p := predict(windows, attention, groups[i]);
      var k := ChooseToken(p.decoded);
      name := name + Strip(p.decoded[k]);
      total := total + p.negLogProb[k];
    }
    assert groups[..|groups|] == groups;
  }

  // ---------------------------------------------------------------------------
  // Step 11 and the whole candidate
  // ---------------------------------------------------------------------------

  /** Step 11 without the rounding: the total over `num_mask_tokens`, or 0 when that is not positive. */
  function AveragePll(total: real, numMaskTokens: int): real {
    if numMaskTokens > 0 then total / numMaskTokens as real else 0.0
  }

  /**
   * The divisor is `num_mask_tokens`, not the number of decoded pieces: scaling back by
   * `num_mask_tokens` recovers the total, and a non-negative total gives a non-negative average.
   */
  lemma {:induction false} AveragePllDivisor(total: real, numMaskTokens: int)
    ensures numMaskTokens > 0 ==> AveragePll(total, numMaskTokens) * numMaskTokens as real == total
    ensures numMaskTokens <= 0 ==> AveragePll(total, numMaskTokens) == 0.0
    ensures total >= 0.0 ==> AveragePll(total, numMaskTokens) >= 0.0
  {
  }

  /** What the tokenizer returns for a text: the ids and the attention mask, of equal length. */
  datatype Encoding = Encoding(ids: seq<int>, attention: seq<int>)

  /** The external pieces of the pipeline. */
  datatype Oracles = Oracles(
    maskToken: string,
    maskTokenId: int,
    encode: string -> Encoding,
    predict: Predictor)

  ghost predicate ValidOracles(o: Oracles) {
    (forall s :: |o.encode(s).ids| == |o.encode(s).attention|) && ValidPredictor(o.predict)
  }

  /** The pair `generate_identifier_candidates` returns, before rounding. */
  datatype Candidate = Candidate(name: string, pll: real)

  /** The gathers for `numMaskTokens` subtokens of the expanded text. */
  function PieceGroups(code: string, numMaskTokens: int, o: Oracles): seq<seq<Slot>>
    requires ValidOracles(o)
  {
    var enc := o.encode(ExpandMasks(code, o.maskToken, numMaskTokens));
    var windows := Frames(Chunks(enc.ids), ClsId, SepId);
    SlotGroups(AllRunStarts(windows, o.maskTokenId), if numMaskTokens > 0 then numMaskTokens else 0)
  }

  /** `generate_identifier_candidates(code, numMaskTokens, ...)` as a function of its inputs. */
  function IdentifierCandidate(code: string, numMaskTokens: int, o: Oracles): Candidate
    requires ValidOracles(o)
  {
    var enc := o.encode(ExpandMasks(code, o.maskToken, numMaskTokens));
    var windows := Frames(Chunks(enc.ids), ClsId, SepId);
    var attention := Frames(Chunks(enc.attention), 1, 1);
    var groups := PieceGroups(code, numMaskTokens, o);
    Candidate(DecodedName(o.predict, windows, attention, groups),
              AveragePll(TotalNll(o.predict, windows, attention, groups), numMaskTokens))
  }

  /** With no subtoken requested, nothing is gathered: the name is empty and the score 0. */
  lemma {:induction false} NoMaskTokens(code: string, numMaskTokens: int, o: Oracles)
    requires ValidOracles(o) && numMaskTokens <= 0
    ensures IdentifierCandidate(code, numMaskTokens, o) == Candidate("", 0.0)
  {
  }

  /** At most `numMaskTokens` pieces are decoded, each with at least one gathered position. */
  lemma {:induction false} PiecesAtMostRequested(code: string, numMaskTokens: int, o: Oracles)
    requires ValidOracles(o)
    ensures var gs := PieceGroups(code, numMaskTokens, o);
            |gs| <= (if numMaskTokens > 0 then numMaskTokens else 0) && forall i :: 0 <= i < |gs| ==> |gs[i]| > 0
  {
    var enc := o.encode(ExpandMasks(code, o.maskToken, numMaskTokens));
    var windows := Frames(Chunks(enc.ids), ClsId, SepId);
    SlotGroupsShape(AllRunStarts(windows, o.maskTokenId), if numMaskTokens > 0 then numMaskTokens else 0);
  }

  /** `generate_identifier_candidates`: expand, encode, chunk, frame, scan, gather, decode, average. */
  method GenerateIdentifierCandidates(code: string, numMaskTokens: int, o: Oracles) returns (c: Candidate)
    requires ValidOracles(o)
    ensures c == IdentifierCandidate(code, numMaskTokens, o)
  {
    var xInit := ExpandMasks(code, o.maskToken, numMaskTokens);
    var encoding := o.encode(xInit);
    var idChunks := Chunks(encoding.ids);
    var maskChunks := Chunks(encoding.attention);
    ChunksSameShape(encoding.attention, encoding.ids);
    var windows, attention := BuildWindows(idChunks, maskChunks);
    var maskPositions := FindMaskPositions(windows, o.maskTokenId);
    var groups := GatherSlots(maskPositions, numMaskTokens);
    var name, total := DecodeAndScore(o.predict, windows, attention, groups);
    var avgPll := 0.0;
    if numMaskTokens > 0 {
      avgPll := total / numMaskTokens as real;
    }
    c := Candidate(name, avgPll);
  }

  // ---------------------------------------------------------------------------
  // select_best_identifier
  // ---------------------------------------------------------------------------

  /** The candidates for 1 .. `count` subtokens, in that order. */
  ghost function TriedCandidates(code: string, o: Oracles, count: nat): (cs: seq<Candidate>)
    requires ValidOracles(o)
    ensures |cs| == count
  {
    if count == 0 then [] else TriedCandidates(code, o, count - 1) + [IdentifierCandidate(code, count, o)]
  }

  /** `cs[k]` has the lowest score of `cs`, and every earlier candidate scores strictly higher. */
  predicate FirstMinimum(cs: seq<Candidate>, k: int) {
    0 <= k < |cs|
    && (forall j :: 0 <= j < |cs| ==> cs[k].pll <= cs[j].pll)
    && (forall j :: 0 <= j < k ==> cs[k].pll < cs[j].pll)
  }

  /** The best candidate kept after trying `cs` in order; `None` plays the part of `float('inf')`. */
  function BestSoFar(cs: seq<Candidate>): Option<Candidate> {
    if |cs| == 0 then None
    else
      var best := BestSoFar(cs[..|cs| - 1]);
      var c := cs[|cs| - 1];
      if best == None || c.pll < best.value.pll then Some(c) else best
  }

  /**
   * The update `if pll < best_pll` keeps the first minimum: a new candidate takes over exactly
   * when it scores strictly lower than the current best.
   */
  lemma {:induction false} FirstMinimumStep(cs: seq<Candidate>, k: int, c: Candidate)
    requires |cs| == 0 || FirstMinimum(cs, k)
    ensures |cs| == 0 || c.pll < cs[k].pll ==> FirstMinimum(cs + [c], |cs|)
    ensures |cs| > 0 && !(c.pll < cs[k].pll) ==> FirstMinimum(cs + [c], k)
  {
  }

  /** The kept candidate is the first one with the lowest score, and there is one as soon as one was tried. */
  lemma {:induction false} BestSoFarIsFirstMinimum(cs: seq<Candidate>)
    ensures BestSoFar(cs) == None <==> |cs| == 0
    ensures |cs| > 0 ==> exists k :: FirstMinimum(cs, k) && BestSoFar(cs) == Some(cs[k])
  {
    if |cs| > 0 {
      var init := cs[..|cs| - 1];
      var c := cs[|cs| - 1];
      assert cs == init + [c];
      BestSoFarIsFirstMinimum(init);
      if |init| == 0 {
        FirstMinimumStep(init, 0, c);
        assert FirstMinimum(cs, 0);
      } else {
        var k :| FirstMinimum(init, k) && BestSoFar(init) == Some(init[k]);
        FirstMinimumStep(init, k, c);
        if c.pll < init[k].pll {
          assert FirstMinimum(cs, |init|);
        } else {
          assert FirstMinimum(cs, k) && cs[k] == init[k];
        }
      }
    }
  }

  /** Trying one more candidate `c` replaces the kept one exactly when `c` scores strictly lower. */
  lemma {:induction false} BestSoFarSnoc(cs: seq<Candidate>, c: Candidate)
    ensures var best := BestSoFar(cs);
            BestSoFar(cs + [c]) == if best == None || c.pll < best.value.pll then Some(c) else best
  {
    assert (cs + [c])[..|cs|] == cs;
  }

  /** The name `select_best_identifier` returns after trying `cs`. */
  function BestName(cs: seq<Candidate>): string {
    match BestSoFar(cs)
    case None => ""
    case Some(c) => c.name
  }

  /**
   * `select_best_identifier`: tries 1 .. `maxNumTokens` subtokens in increasing order and keeps
   * the name of the first strictly lowest score.
   */
  method SelectBestIdentifier(code: string, o: Oracles, maxNumTokens: int) returns (best: string)
    requires ValidOracles(o)
    ensures best == BestName(TriedCandidates(code, o, if maxNumTokens > 0 then maxNumTokens else 0))
  {
    ghost var count: nat := if maxNumTokens > 0 then maxNumTokens else 0;
    best := "";
    var bestPll: Option<real> := None;
    ghost var tried: seq<Candidate> := [];
    ghost var kept: Option<Candidate> := None;
    var nSub := 1;
    while nSub <= maxNumTokens
      invariant 1 <= nSub <= count + 1
      invariant tried == TriedCandidates(code, o, nSub - 1)
      invariant kept == BestSoFar(tried)
      invariant bestPll == (if kept == None then None else Some(kept.value.pll))
      invariant best == (if kept == None then "" else kept.value.name)
      decreases maxNumTokens - nSub
    {
      var candidate := GenerateIdentifierCandidates(code, nSub, o);
      BestSoFarSnoc(tried, candidate);
      if bestPll == None || candidate.pll < bestPll.value {
        bestPll := Some(candidate.pll);
        best := candidate.name;
        kept := Some(candidate);
      }
      tried := tried + [candidate];
      nSub := nSub + 1;
    }
    assert nSub - 1 == count;
  }
}
