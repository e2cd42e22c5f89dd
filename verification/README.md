# Pop2Piano token-to-note decoder, in Dafny

This project models the integer core of the Pop2Piano tokenizer
(`src/transformers/models/pop2piano/tokenization_pop2piano.py`). The
tokenizer turns the ids generated by the Pop2Piano transformer into piano
notes `[onset, offset, pitch, velocity]`, where onset and offset are beat
indices. The model has four layers, one module each:

- `Codec` (codec.dfy): the flat id space of four contiguous ranges, SPECIAL
  [0,S), NOTE [S,S+N), VELOCITY [S+N,S+N+V) and TIME [S+N+V,…). It covers
  `_convert_id_to_token`, `_convert_token_to_id`, and the dispatch on the
  type code done by the decoding loop. The four type codes, the four range
  sizes, `DEFAULT_VELOCITY` and `num_bars` are fields of a `Vocab` record,
  i.e. configuration read from the vocabulary.
- `NoteOrder` (note_order.dfy): the note record and the final ordering by
  `onset*128+offset`.
- `SegmentDecoder` (segment_decoder.dfy): `relative_tokens_to_notes` with its
  helpers `token_time_to_note` and `token_note_to_note`. It is a fold over
  the ids carrying a state record: time cursor, current velocity, the N+1
  pending-onset slots, and the notes so far. After the scan it force-closes
  the pending onsets, then sorts.
- `BatchStitcher` (batch_stitcher.dfy): `relative_batch_tokens_to_notes`.
  Row i is decoded from start `beat_offset + i*bars*4` with cutoff
  `cutoff + start`, and the results are concatenated in row order. The
  stitcher is defined for any row decoder (`StitchWith`). `Stitch`
  instantiates it with the segment decoder, and `DecoderContract` states what
  the stitcher's lemmas need from a decoder.
- `RequestOrchestrator` (request_orchestrator.dfy): the integer part of
  `__call__`, in four steps:
  - it validates the counts of the feature extractor's output;
  - it splits the token rows into examples at the separator rows, whose
    attention-mask column 0 is 0;
  - it cuts each example's columns after the last end-of-sequence id (id 1,
    the default `eos_token`);
  - it decodes each example with `num_bars` bars per row and a cutoff of
    `(num_bars + 1) * 4`.

  `Process` keeps the loop's cursor update `start_idx += end_idx + 1` as
  written, and `ProcessCorrected` is the intended variant (see Findings).

Errors the source raises are values of the model:
- an empty token row makes `tokens[0]` fail, modelled as
  `Err(EmptySegment)`;
- each failed validation is one `CallError`;
- an example without any end-of-sequence id makes `np.max` of an empty array
  fail, modelled as `Err(NoEndOfSequence)`.

The source sorts with `argsort`, which is not requested as stable. The model
sorts with a stable insertion sort and claims only what any order-by-key
sort gives: sortedness and a permutation. `SortedPermutationsShareKeys`
shows that any two such results agree key by key.

## Model

| member | source | states |
|---|---|---|
| Codec.RangeOf | src/transformers/models/pop2piano/tokenization_pop2piano.py:150-163 | every id, including negative ones and ones past the TIME range, lies in exactly one range, and an id on a boundary belongs to the higher range |
| Codec.ConvertIdToToken | src/transformers/models/pop2piano/tokenization_pop2piano.py:139-165 | the token carries its range's type code; SPECIAL keeps the id, NOTE and VELOCITY values lie in [0,N) and [0,V), and TIME values are at least the time offset |
| Codec.ConvertTokenToId | src/transformers/models/pop2piano/tokenization_pop2piano.py:169-189 | an unknown type code gives -1; with distinct codes a SPECIAL value is its own id, and an in-range value of another known type lands in that type's id range |
| Codec.DecodeEncodeRoundTrip | src/transformers/models/pop2piano/tokenization_pop2piano.py:150-189 | with distinct type codes, decoding the encoding of an in-range (type, value) pair gives the pair back |
| Codec.EncodeDecodeRoundTrip | src/transformers/models/pop2piano/tokenization_pop2piano.py:150-189 | with distinct type codes, encoding the decoding of any id gives the id back |
| Codec.TimeOffsetOnlyShiftsTime | src/transformers/models/pop2piano/tokenization_pop2piano.py:150-163 | `time_idx_offset` is added to TIME values only; ids in the other ranges decode the same for every offset |
| Codec.Classify | src/transformers/models/pop2piano/tokenization_pop2piano.py:297-318 | the loop's dispatch finds a type exactly when the code is one of the four type codes, and the type it finds has that code |
| Codec.DispatchOfDecoded | src/transformers/models/pop2piano/tokenization_pop2piano.py:297-318 | a decoded token always reaches a branch, so "Token type not understood" never happens; with distinct codes the branch is the id's own range |
| Codec.DispatchedValueBounds | src/transformers/models/pop2piano/tokenization_pop2piano.py:155-163 | a token dispatched as NOTE has a value in [0,N), and one dispatched as TIME has a value of at least 0 |
| NoteOrder.Insert | src/transformers/models/pop2piano/tokenization_pop2piano.py:335-336 | inserting into a key-sorted list keeps it sorted and adds exactly the one note |
| NoteOrder.SortByKey | src/transformers/models/pop2piano/tokenization_pop2piano.py:335-336 | the result is in nondecreasing `onset*128+offset` order and is a permutation of the input |
| NoteOrder.SortSortedIsIdentity | src/transformers/models/pop2piano/tokenization_pop2piano.py:335-336 | sorting a list whose keys strictly increase changes nothing |
| NoteOrder.SortedPermutationsShareKeys | src/transformers/models/pop2piano/tokenization_pop2piano.py:335-336 | any two key-sorted permutations of the same notes have the same key at every position, so the tie order is the only freedom a sort has |
| SegmentDecoder.InitialState | src/transformers/models/pop2piano/tokenization_pop2piano.py:293-296 | the cursor starts at `start_idx` and the velocity at 0; all N+1 onset slots are empty and there are no notes |
| SegmentDecoder.TokenTimeToNote | src/transformers/models/pop2piano/tokenization_pop2piano.py:47-52 | without a cutoff the cursor advances by the value; with one it becomes the smaller of the advanced cursor and the cutoff |
| SegmentDecoder.CursorStaysInWindow | src/transformers/models/pop2piano/tokenization_pop2piano.py:47-52 | a TIME step never moves the cursor back and keeps it within [start, cutoff] |
| SegmentDecoder.TokenNoteToNote | src/transformers/models/pop2piano/tokenization_pop2piano.py:55-67 | a NOTE with no pending onset opens one at the cursor. With an onset before the cursor it emits one note (onset, cursor, pitch, default velocity), and re-opens at the cursor exactly when the velocity is not 0. With an onset not before the cursor nothing changes. Other pitches are untouched |
| SegmentDecoder.StepToken | src/transformers/models/pop2piano/tokenization_pop2piano.py:297-318 | SPECIAL 1 halts and other SPECIAL values change nothing; VELOCITY only sets the velocity, TIME only moves the cursor, and NOTE applies `token_note_to_note` to its pitch; at most one note is appended per token, and the unknown-type outcome never arises |
| SegmentDecoder.Scan | src/transformers/models/pop2piano/tokenization_pop2piano.py:297-318 | the scan never fails, keeps the N+1 slots with the spare slot unused, and only appends to the notes |
| SegmentDecoder.ScanBounded | src/transformers/models/pop2piano/tokenization_pop2piano.py:293-318 | with start <= cutoff, the cursor stays in [start, cutoff], pending onsets lie between start and the cursor, and emitted notes end by the cursor |
| SegmentDecoder.ScanCursorMonotone | src/transformers/models/pop2piano/tokenization_pop2piano.py:301-304 | the cursor after the scan is not before the cursor before it, and it stays at or below the cutoff |
| SegmentDecoder.ScanIgnoresAfterStop | src/transformers/models/pop2piano/tokenization_pop2piano.py:298-300 | the ids after a SPECIAL 1 have no effect on the scan |
| SegmentDecoder.ClosingOffset | src/transformers/models/pop2piano/tokenization_pop2piano.py:323-328 | a force-closed note ends after its onset, at or after the cursor and, with a cutoff, at or after the cutoff; the offset is one of those three bounds |
| SegmentDecoder.ForceClose | src/transformers/models/pop2piano/tokenization_pop2piano.py:320-329 | each force-closed note comes from a pending slot with that onset, has the closing offset and the default velocity, and the notes come in increasing pitch order |
| SegmentDecoder.ForceCloseCovers | src/transformers/models/pop2piano/tokenization_pop2piano.py:320-329 | every pending onset yields a force-closed note of its pitch |
| SegmentDecoder.ForceCloseNothingPending | src/transformers/models/pop2piano/tokenization_pop2piano.py:320-329 | with no onset pending, nothing is force-closed |
| SegmentDecoder.SingleForceClose | src/transformers/models/pop2piano/tokenization_pop2piano.py:320-329 | a lone pending onset at the cursor, with no cutoff, is closed one index later |
| SegmentDecoder.Emitted | src/transformers/models/pop2piano/tokenization_pop2piano.py:283-329 | the unsorted notes exist exactly for a non-empty row, and each has onset < offset, pitch < N and the default velocity |
| SegmentDecoder.EmittedInWindow | src/transformers/models/pop2piano/tokenization_pop2piano.py:293-329 | every emitted note starts at or after `start_idx`; with a cutoff it starts no later than the cutoff and ends at most one index past it |
| SegmentDecoder.DecodeSegment | src/transformers/models/pop2piano/tokenization_pop2piano.py:271-337 | an empty row fails; otherwise the result is a key-sorted permutation of the emitted notes, all well formed, and empty when nothing is emitted |
| SegmentDecoder.DecodeSegmentInWindow | src/transformers/models/pop2piano/tokenization_pop2piano.py:271-337 | the decoded notes lie in the window [start, cutoff], offsets at most one past it |
| SegmentDecoder.DecodeSegmentOfSorted | src/transformers/models/pop2piano/tokenization_pop2piano.py:331-337 | when the keys of the emitted notes strictly increase, the decoded notes are the emitted notes unchanged |
| SegmentDecoder.StopTokenEndsSegment | src/transformers/models/pop2piano/tokenization_pop2piano.py:283-300 | appending ids after a SPECIAL 1 does not change the decoded notes |
| SegmentDecoder.LeadingOutOfRangeDropped | src/transformers/models/pop2piano/tokenization_pop2piano.py:283-286 | a row whose first id is at or above the vocabulary size and whose second id is below it decodes exactly as the row without its first id |
| SegmentDecoder.OneIsStopToken | src/transformers/models/pop2piano/tokenization_pop2piano.py:158-163 | with at least two SPECIAL ids and distinct codes, id 1 is the stop token |
| SegmentDecoder.SingleNoteSegment | src/transformers/models/pop2piano/tokenization_pop2piano.py:271-337 | a row holding one NOTE id yields one note of length one at the start |
| SegmentDecoder.StrikeShiftRelease | src/transformers/models/pop2piano/tokenization_pop2piano.py:271-337 | NOTE p, TIME 3, NOTE p from index 0 yields the single note (0, 3, p, default velocity) |
| BatchStitcher.Concat | src/transformers/models/pop2piano/tokenization_pop2piano.py:224-233 | the concatenation succeeds exactly when every part does; otherwise it fails with the first failure |
| BatchStitcher.ConcatAppend | src/transformers/models/pop2piano/tokenization_pop2piano.py:224-233 | concatenating a+b is concatenating a followed by concatenating b |
| BatchStitcher.ConcatMembers | src/transformers/models/pop2piano/tokenization_pop2piano.py:224-233 | every note of a concatenation is a note of some part |
| BatchStitcher.ConcatStep | src/transformers/models/pop2piano/tokenization_pop2piano.py:224-229 | after a successful prefix, a failing part makes the result that part's error, and a successful part appends its notes to the notes so far |
| BatchStitcher.ConcatDropsSilent | src/transformers/models/pop2piano/tokenization_pop2piano.py:224-225 | dropping a part that succeeded with no notes leaves the concatenation, success or failure, unchanged |
| BatchStitcher.ConcatAllSilent | src/transformers/models/pop2piano/tokenization_pop2piano.py:212-233 | when every part succeeded with no notes, the concatenation is the empty list |
| BatchStitcher.StitchWith | src/transformers/models/pop2piano/tokenization_pop2piano.py:212-233 | for any row decoder, the batch succeeds exactly when every row, decoded from start `beat_offset + i*bars*4` with cutoff `cutoff + start`, succeeds; otherwise it fails with the error of the first failing row; no rows give no notes |
| BatchStitcher.DecoderContract | src/transformers/models/pop2piano/tokenization_pop2piano.py:271-337 | the segment decoder fails only on an empty row, with EmptySegment; it emits well-formed notes and keeps them in the row's window |
| BatchStitcher.Stitch | src/transformers/models/pop2piano/tokenization_pop2piano.py:191-233 | with the segment decoder, a batch decodes exactly when no row is empty, and otherwise fails with EmptySegment; no rows give no notes |
| BatchStitcher.StitchAllSilent | src/transformers/models/pop2piano/tokenization_pop2piano.py:231-233 | a batch whose rows all decode to no notes gives the empty list |
| BatchStitcher.StitchWellFormed | src/transformers/models/pop2piano/tokenization_pop2piano.py:214-233 | every note of a decoded batch is well formed |
| BatchStitcher.StitchWithAppend | src/transformers/models/pop2piano/tokenization_pop2piano.py:214-233 | for a decoder that fails only on empty rows, stitching a+b is stitching a, then b alone with the beat offset moved past a's rows |
| BatchStitcher.StitchAppend | src/transformers/models/pop2piano/tokenization_pop2piano.py:214-233 | the same for the segment decoder: rows contribute independently and in row order |
| BatchStitcher.StitchInWindow | src/transformers/models/pop2piano/tokenization_pop2piano.py:214-222 | every note of the batch lies in the window of some row |
| BatchStitcher.StitchRows | src/transformers/models/pop2piano/tokenization_pop2piano.py:212-233 | the source's loop over rows computes the stitched result |
| BatchStitcher.RelativeBatchTokensToNotes | src/transformers/models/pop2piano/tokenization_pop2piano.py:191-233 | the method fails, with EmptySegment, exactly when some row is empty; the notes it returns are well formed; no rows give no notes; and its result is `Stitch`'s |
| RequestOrchestrator.Validate | src/transformers/models/pop2piano/tokenization_pop2piano.py:424-457 | the call is accepted exactly when the counts agree: with masks, separators = beatsteps = extrapolated beatsteps and mask rows = token rows; without masks, one beatsteps and one extrapolated row. Each error is characterised in check order |
| RequestOrchestrator.ZerosFrom | src/transformers/models/pop2piano/tokenization_pop2piano.py:461 | the separator positions are strictly increasing, each holds a 0, and every 0 is among them |
| RequestOrchestrator.SeparatorCount | src/transformers/models/pop2piano/tokenization_pop2piano.py:434-461 | there are as many separator rows as the zeros the validation counts |
| RequestOrchestrator.ExampleEnds | src/transformers/models/pop2piano/tokenization_pop2piano.py:459-463 | with masks the end indices are exactly the separator rows in increasing order, one per counted zero; without masks the single end is the number of token rows |
| RequestOrchestrator.PySlice | src/transformers/models/pop2piano/tokenization_pop2piano.py:469 | Python slicing with clamped bounds: the result is the run of elements from `lo` up to `hi` or the end, and it is empty when `lo` is at or past either |
| RequestOrchestrator.LastEosInRow | src/transformers/models/pop2piano/tokenization_pop2piano.py:471 | the last position of a row holding id 1, or none when the row has none |
| RequestOrchestrator.LastEosColumn | src/transformers/models/pop2piano/tokenization_pop2piano.py:471 | the largest column holding id 1 in any row, or none when no row holds it |
| RequestOrchestrator.TrimAt | src/transformers/models/pop2piano/tokenization_pop2piano.py:471 | the trimmed tensor has as many rows, and each row is the prefix of its original of length min(w, its length) |
| RequestOrchestrator.TrimToEos | src/transformers/models/pop2piano/tokenization_pop2piano.py:471 | fails with NoEndOfSequence exactly when no id 1 occurs. Otherwise every row is cut to one common positive width, no id 1 is cut away, and some row ends with id 1 |
| RequestOrchestrator.SegmentCutoff | src/transformers/models/pop2piano/tokenization_pop2piano.py:494 | with `num_bars` bars per row, every row's absolute cutoff in the stitcher (`cutoff + start`) lies one bar of four beats past the start of the next row |
| RequestOrchestrator.ExampleNotes | src/transformers/models/pop2piano/tokenization_pop2piano.py:469-495 | an example fails with NoEndOfSequence exactly when its rows hold no id 1; any other failure is an empty trimmed row |
| RequestOrchestrator.RunningStart | src/transformers/models/pop2piano/tokenization_pop2piano.py:503 | the cursor before example k, as written, is the sum of the first k end indices plus k |
| RequestOrchestrator.ExamplesFrom | src/transformers/models/pop2piano/tokenization_pop2piano.py:467-503 | on success there is one note list per example, each being that example's decoding; on failure the error is that of the first example, in order, that fails |
| RequestOrchestrator.ProcessWith | src/transformers/models/pop2piano/tokenization_pop2piano.py:424-503 | once the validation passes, the call fails only with NoEndOfSequence or with an empty trimmed row, whichever cursor rule is used |
| RequestOrchestrator.RunExamples | src/transformers/models/pop2piano/tokenization_pop2piano.py:465-503 | the loop with `start_idx += end_idx + 1` computes the examples' outcome with the cursor as written |
| RequestOrchestrator.Call | src/transformers/models/pop2piano/tokenization_pop2piano.py:424-503 | a failed validation is the call's error; a successful call passed validation and yields one note list per beatsteps row; after validation it fails only with NoEndOfSequence or an empty trimmed row; and its result is `Process`'s |
| RequestOrchestrator.ExampleOutcome | src/transformers/models/pop2piano/tokenization_pop2piano.py:469-495 | for a rectangular token tensor, an example decodes exactly when its rows hold id 1, and otherwise fails with NoEndOfSequence; the segment decoder never fails there |
| RequestOrchestrator.ExampleWellFormed | src/transformers/models/pop2piano/tokenization_pop2piano.py:490-495 | every note of a decoded example is well formed |
| RequestOrchestrator.ProcessShape | src/transformers/models/pop2piano/tokenization_pop2piano.py:424-503 | a successful call passed validation and yields one note list per beatsteps row; a failed validation is the call's error |
| RequestOrchestrator.RunningStartOvershoots | src/transformers/models/pop2piano/tokenization_pop2piano.py:503 | the cursor as written equals the row after the previous separator for the first two examples, and lies strictly beyond it from the third on |
| RequestOrchestrator.ProcessAgreesUpToTwo | src/transformers/models/pop2piano/tokenization_pop2piano.py:467-503 | with at most two examples, the call as written and the corrected call give the same outcome |
| RequestOrchestrator.IntendedExampleRows | src/transformers/models/pop2piano/tokenization_pop2piano.py:459-469 | with the corrected cursor, example k is exactly the rows after separator k-1 up to separator k: none of them is a separator, and the row before them is one |
| RequestOrchestrator.CorrectedDecodesBetweenSeparators | src/transformers/models/pop2piano/tokenization_pop2piano.py:459-503 | the corrected call's k-th note list is the decoding of exactly the rows between separators k-1 and k |
| RequestOrchestrator.CursorOvershootCounterexample | src/transformers/models/pop2piano/tokenization_pop2piano.py:503 | with separators at rows 1, 3 and 6 and id 1 in every row, the call as written fails with NoEndOfSequence while the corrected call decodes |

## Left out

- Loading the vocabulary JSON in `__init__` (lines 119-126) and
  `save_vocabulary` (lines 371-391) are file I/O. The sizes, type codes,
  `DEFAULT_VELOCITY` and `num_bars` are fields of `Vocab` instead.
- The end-of-sequence id is fixed at 1, the default `eos_token` (line 101).
  A tokenizer built with another `eos_token` is not modelled.
- `notes_to_midi` (lines 339-369) and the `offset_sec` argument of
  `relative_batch_tokens_to_midi` (line 266) are left out. They look up float
  times in the beatsteps and build `pretty_midi` objects, a library outside
  this model. The model stops at the index-space notes handed to
  `notes_to_midi`, so `RequestOrchestrator.Process` returns one such note list
  per example. The source instead returns a flat list of `pretty_midi` notes
  and one MIDI object per example.
- The float shift of note times by `beatsteps[0]` (lines 497-500) is left
  out, and so is the trim of the beatsteps arrays by their attention masks
  (lines 481-484). Both trims fail when a mask row holds no 1 (`np.max` of an
  empty array). `notes_to_midi` then indexes the extrapolated beatsteps with
  each onset and offset (lines 362-363), which fails for an index past the
  array. Neither failure is modelled, so an `Ok` from `Process` does not
  imply that `__call__` returns.
- `BatchFeature` packaging and the `return_midi` switch (lines 505-508) are
  left out.
- Torch and numpy conversions are left out: `is_torch_tensor`/`.item()`
  (lines 290-291) and `to_numpy` (lines 486-488). The `hasattr` probing of
  the feature extractor output (lines 418-422) becomes the boolean
  `masksPresent`.
- The attention mask enters the model as its first column only, and the
  beatsteps as their row counts. Nothing else of them is read by the integer
  logic.
- Token ids are unbounded integers. The source's int64 arrays cannot overflow
  for the id ranges involved, so no wrap-around is modelled.
- NoteOrder.SortByKey: it places notes with equal keys in a fixed order,
  whereas `argsort` leaves the tie order unspecified. For that reason no
  contract names a tie order: `SortSortedIsIdentity` and
  `DecodeSegmentOfSorted` are stated for strictly increasing keys only.
- Codec.ConvertTokenToId: the default `token_type="3"` of
  `_convert_token_to_id` (line 169) is not modelled; the type code is always
  passed.
- LeadingOutOfRangeDropped: it covers a first id at or above the vocabulary
  size followed by an in-range id. When the second id is out of range too, the
  source keeps it and scans it as a TIME token. The model does the same, but
  no lemma states that case.
- The tests of the unrelated CLVP model are not part of this model. They
  exercise neural-network tensors, not this decoder.

## Findings

| source | as written | input that shows it | evidently intended | confidence | as-written member | corrected member |
|---|---|---|---|---|---|---|
| src/transformers/models/pop2piano/tokenization_pop2piano.py:503 | `start_idx += end_idx + 1` adds the separator's index to the cursor, so from the third example on the slice starts past the row after the previous separator | attention-mask column 0 = [1,0,1,0,1,1,0] (separators at rows 1, 3, 6), seven token rows each [1], three beatsteps and extrapolated rows: the third example is sliced as rows [6:6], which is empty, and `np.max` fails | `start_idx = end_idx + 1`: example k is the rows after separator k-1 up to separator k, here rows [4:6] | not executed | RequestOrchestrator.CursorOvershootCounterexample | RequestOrchestrator.CorrectedDecodesBetweenSeparators |
