/** The integer part of the tokenizer's `__call__`: validate the feature
    extractor's counts, split the generated token rows into examples at the
    separator rows (attention mask column 0 equal to 0), cut each example's
    columns after its last end-of-sequence id and decode it with the batch
    stitcher, `num_bars` bars per row and a cutoff of (num_bars + 1) * 4. */
module RequestOrchestrator {
  import opened Outcomes
  import opened Codec
  import opened NoteOrder
  import opened SegmentDecoder
  import opened BatchStitcher

  /** The end-of-sequence id (the tokenizer's default eos token "1"). */
  const EndOfSequence := 1

  datatype CallError =
    | BatchedWithoutMasks    // several beatsteps rows but no attention masks
    | LengthMismatch         // separator rows, beatsteps and extrapolated beatsteps disagree in number
    | MaskRowMismatch        // attention mask and token ids differ in number of rows
    | SingleExampleMismatch  // without masks there must be one beatsteps and one extrapolated row
    | NoEndOfSequence        // an example's rows hold no end-of-sequence id
    | Decode(error: DecodeError)

  /** What `__call__` reads from the feature extractor's output: whether the
      three attention masks are present, column 0 of the attention mask (one
      entry per mask row) and the number of beatsteps and extrapolated
      beatsteps rows. */
  datatype Features = Features(
    masksPresent: bool,
    maskFirstColumn: seq<int>,
    beatstepsCount: nat,
    extrapolatedCount: nat)

  type Notes = seq<NoteEvent>

  // ---------------------------------------------------------------------
  // Validation

  /** `sum(attention_mask[:, 0] == 0)`. */
  function CountZeros(col: seq<int>): nat {
    if |col| == 0 then 0
    else (if col[0] == 0 then 1 else 0) + CountZeros(col[1..])
  }

  /** The conditions under which every check passes. */
  predicate Accepted(f: Features, tokenRows: nat) {
    if f.masksPresent then
      && CountZeros(f.maskFirstColumn) == f.beatstepsCount
      && f.beatstepsCount == f.extrapolatedCount
      && |f.maskFirstColumn| == tokenRows
    else
      f.beatstepsCount == 1 && f.extrapolatedCount == 1
  }

  /** The checks in the order `__call__` makes them; the first failing one
      names the error. */
  function Validate(f: Features, tokenRows: nat): (r: Option<CallError>)
    ensures r.None? <==> Accepted(f, tokenRows)
    ensures r == Some(BatchedWithoutMasks) <==> !f.masksPresent && f.beatstepsCount > 1
    ensures r == Some(SingleExampleMismatch) <==>
      !f.masksPresent && (f.beatstepsCount == 0 || (f.beatstepsCount == 1 && f.extrapolatedCount != 1))
    ensures r == Some(LengthMismatch) <==>
      f.masksPresent && (CountZeros(f.maskFirstColumn) != f.beatstepsCount || f.beatstepsCount != f.extrapolatedCount)
    ensures r == Some(MaskRowMismatch) <==>
      && f.masksPresent && CountZeros(f.maskFirstColumn) == f.beatstepsCount == f.extrapolatedCount
      && |f.maskFirstColumn| != tokenRows
  {
    if !f.masksPresent && f.beatstepsCount > 1 then Some(BatchedWithoutMasks)
    else if f.masksPresent then
      if CountZeros(f.maskFirstColumn) != f.beatstepsCount || f.beatstepsCount != f.extrapolatedCount then
        Some(LengthMismatch)
      else if |f.maskFirstColumn| != tokenRows then Some(MaskRowMismatch)
      else None
    else if f.beatstepsCount != 1 || f.extrapolatedCount != 1 then Some(SingleExampleMismatch)
    else None
  }

  // ---------------------------------------------------------------------
  // Splitting into examples

  /** `np.where(col == 0)[0]` restricted to indices from `from` on: the zero
      positions in increasing order. */
  function ZerosFrom(col: seq<int>, from: nat): (r: seq<nat>)
    requires from <= |col|
    ensures forall k :: 0 <= k < |r| ==> from <= r[k] < |col| && col[r[k]] == 0
    ensures forall k, l :: 0 <= k < l < |r| ==> r[k] < r[l]
    ensures forall i :: from <= i < |col| && col[i] == 0 ==> i in r
    decreases |col| - from
  {
    if from == |col| then []
    else if col[from] == 0 then [from] + ZerosFrom(col, from + 1)
    else ZerosFrom(col, from + 1)
  }

  /** The separator rows: every row whose mask column 0 is 0, ascending. */
  function SeparatorRows(col: seq<int>): seq<nat> {
    ZerosFrom(col, 0)
  }

  /** There are as many separator rows as zeros counted by the validation. */
  lemma {:induction false} ZerosFromCount(col: seq<int>, from: nat)
    requires from <= |col|
    ensures |ZerosFrom(col, from)| == CountZeros(col[from..])
    decreases |col| - from
  {
    if from < |col| {
      ZerosFromCount(col, from + 1);
      assert col[from..][1..] == col[from + 1..];
    }
  }

  lemma SeparatorCount(col: seq<int>)
    ensures |SeparatorRows(col)| == CountZeros(col)
  {
    ZerosFromCount(col, 0);
    assert col[0..] == col;
  }

  /** The loop's end indices: the separator rows with masks, else the number
      of token rows. */
  function ExampleEnds(f: Features, tokenRows: nat): (r: seq<nat>)
    ensures f.masksPresent ==> r == SeparatorRows(f.maskFirstColumn) && |r| == CountZeros(f.maskFirstColumn)
    ensures !f.masksPresent ==> r == [tokenRows]
  {
    if f.masksPresent then
      SeparatorCount(f.maskFirstColumn);
      SeparatorRows(f.maskFirstColumn)
    else [tokenRows]
  }

  /** Python's `s[lo:hi]` for non-negative bounds: both are clamped to the
      length and an empty range gives the empty sequence. */
  function PySlice<T>(s: seq<T>, lo: nat, hi: nat): (r: seq<T>)
    ensures forall k :: 0 <= k < |r| ==> lo + k < |s| && r[k] == s[lo + k]
    ensures lo < hi && lo < |s| ==> lo + |r| == Min(hi, |s|)
    ensures lo >= hi || lo >= |s| ==> r == []
  {
    if lo >= hi || lo >= |s| then [] else s[lo..Min(hi, |s|)]
  }

  // ---------------------------------------------------------------------
  // End-of-sequence trim

  /** The last index of a row holding the end-of-sequence id. */
  function LastEosInRow(row: seq<int>): (r: Option<nat>)
    ensures r.Some? ==> r.value < |row| && row[r.value] == EndOfSequence
    ensures r.Some? ==> forall j :: r.value < j < |row| ==> row[j] != EndOfSequence
    ensures r.None? ==> forall j :: 0 <= j < |row| ==> row[j] != EndOfSequence
  {
    if |row| == 0 then None
    else if row[|row| - 1] == EndOfSequence then Some(|row| - 1)
    else LastEosInRow(row[..|row| - 1])
  }

  function MaxOption(a: Option<nat>, b: Option<nat>): Option<nat> {
    match a
    case None => b
    case Some(x) => match b case None => a case Some(y) => Some(if x >= y then x else y)
  }

  /** `np.max(np.where(rows == eos)[1])`: the last column holding the
      end-of-sequence id in any row; None where `__call__`'s `np.max` would
      be applied to an empty array. */
  function LastEosColumn(rows: seq<seq<int>>): (r: Option<nat>)
    ensures r.Some? ==> exists i :: 0 <= i < |rows| && r.value < |rows[i]| && rows[i][r.value] == EndOfSequence
    ensures r.Some? ==> forall i, j :: 0 <= i < |rows| && r.value < j < |rows[i]| ==> rows[i][j] != EndOfSequence
    ensures r.None? ==> forall i, j :: 0 <= i < |rows| && 0 <= j < |rows[i]| ==> rows[i][j] != EndOfSequence
  {
    if |rows| == 0 then None
    else
      var n := |rows| - 1;
      var earlier := LastEosColumn(rows[..n]);
      var here := LastEosInRow(rows[n]);
      assert forall i :: 0 <= i < n ==> rows[..n][i] == rows[i];
      MaxOption(earlier, here)
  }

  /** Python's `row[:w]` for w >= 0. */
  function Take(row: seq<int>, w: nat): seq<int> {
    if w <= |row| then row[..w] else row
  }

  /** Every row of `trimmed` is the matching row of `rows` cut to `w`
      columns. */
  predicate TrimmedTo(rows: seq<seq<int>>, trimmed: seq<seq<int>>, w: nat) {
    |trimmed| == |rows| && forall i :: 0 <= i < |rows| ==> trimmed[i] == Take(rows[i], w)
  }

  /** `rows[:, :w]`: each row keeps its first w columns, or all of them
      when it is shorter. */
  function TrimAt(rows: seq<seq<int>>, w: nat): (r: seq<seq<int>>)
    ensures TrimmedTo(rows, r, w)
    ensures |r| == |rows|
    ensures forall i :: 0 <= i < |rows| ==> |r[i]| == Min(w, |rows[i]|) && r[i] == rows[i][..|r[i]|]
  {
    seq(|rows|, i requires 0 <= i < |rows| => Take(rows[i], w))
  }

  /** Cutting after the last end-of-sequence column removes no
      end-of-sequence id. */
  lemma TrimAtLastEosKeepsAll(rows: seq<seq<int>>, t: seq<seq<int>>, last: nat)
    requires LastEosColumn(rows) == Some(last)
    requires TrimmedTo(rows, t, last + 1)
    ensures forall i, j :: 0 <= i < |rows| && |t[i]| <= j < |rows[i]| ==> rows[i][j] != EndOfSequence
  {
    forall i, j | 0 <= i < |rows| && |t[i]| <= j < |rows[i]| ensures rows[i][j] != EndOfSequence {
      assert t[i] == Take(rows[i], last + 1);
      assert last < j;
    }
  }

  /** Cutting after the last end-of-sequence column leaves that id at the
      end of some row. */
  lemma TrimAtLastEosEndsRow(rows: seq<seq<int>>, t: seq<seq<int>>, last: nat)
    requires LastEosColumn(rows) == Some(last)
    requires TrimmedTo(rows, t, last + 1)
    ensures exists i :: 0 <= i < |rows| && |t[i]| > 0 && t[i][|t[i]| - 1] == EndOfSequence
  {
    var i :| 0 <= i < |rows| && last < |rows[i]| && rows[i][last] == EndOfSequence;
    assert t[i] == rows[i][..last + 1];
    assert |t[i]| == last + 1 && t[i][last] == rows[i][last];
  }

  /** `rows[:, :last + 1]`: every row cut after the last end-of-sequence
      column; an example without any end-of-sequence id is an error. */
  function TrimToEos(rows: seq<seq<int>>): (r: Result<seq<seq<int>>, CallError>)
    ensures r.Err? <==> !HoldsEos(rows)
    ensures r.Err? ==> r.error == NoEndOfSequence
    ensures r.Ok? ==> exists w: nat :: w > 0 && TrimmedTo(rows, r.value, w)
    ensures r.Ok? ==> forall i, j :: 0 <= i < |rows| && |r.value[i]| <= j < |rows[i]| ==> rows[i][j] != EndOfSequence
    ensures r.Ok? ==> exists i :: 0 <= i < |rows| && |r.value[i]| > 0 && r.value[i][|r.value[i]| - 1] == EndOfSequence
  {
    match LastEosColumn(rows)
    case None => Err(NoEndOfSequence)
    case Some(last) =>
      var t := TrimAt(rows, last + 1);
      TrimAtLastEosKeepsAll(rows, t, last);
      TrimAtLastEosEndsRow(rows, t, last);
      Ok(t)
  }

  // ---------------------------------------------------------------------
  // Decoding the examples

  /** `cutoff_time_idx` passed for every example. With `num_bars` bars per
      row, every row's absolute cutoff in the stitcher lies one bar of four
      beats past the start of the next row. */
  function SegmentCutoff(v: Vocab): (r: int)
    ensures forall b, i :: r + RowStart(b, v.numBars, i) == RowStart(b, v.numBars, i + 1) + 4
    ensures r >= 4
  {
    (v.numBars + 1) * 4
  }

  /** One example: the token rows [lo, hi), trimmed and stitched with
      `num_bars` bars per row from beat offset 0. It fails with
      NoEndOfSequence exactly when those rows hold no end-of-sequence id;
      any other failure is an empty trimmed row. */
  function ExampleNotes(v: Vocab, rows: seq<seq<int>>, lo: nat, hi: nat): (r: Result<Notes, CallError>)
    ensures r == Err(NoEndOfSequence) <==> !HoldsEos(PySlice(rows, lo, hi))
    ensures r.Err? && r.error != NoEndOfSequence ==> r.error == Decode(EmptySegment)
  {
    match TrimToEos(PySlice(rows, lo, hi))
    case Err(e) => Err(e)
    case Ok(trimmed) =>
      match Stitch(v, trimmed, 0, v.numBars, SegmentCutoff(v))
      case Err(e) => Err(Decode(e))
      case Ok(notes) => Ok(notes)
  }

  /** How the loop picks the first row of example k. */
  datatype CursorRule =
    | AsWritten   // start_idx += end_idx + 1
    | Intended    // the row after the previous separator

  /** The sum of a sequence of row indices. */
  function Total(s: seq<nat>): nat {
    if |s| == 0 then 0 else s[0] + Total(s[1..])
  }

  lemma {:induction false} TotalAppend(s: seq<nat>, x: nat)
    ensures Total(s + [x]) == Total(s) + x
  {
    if |s| > 0 {
      assert (s + [x])[1..] == s[1..] + [x];
      TotalAppend(s[1..], x);
    }
  }

  /** The cursor after k iterations of `start_idx += end_idx + 1`: the sum
      of the first k end indices plus one per separator skipped. */
  function RunningStart(ends: seq<nat>, k: nat): (r: nat)
    requires k <= |ends|
    ensures r == Total(ends[..k]) + k
  {
    if k == 0 then 0
    else
      assert ends[..k] == ends[..k - 1] + [ends[k - 1]];
      TotalAppend(ends[..k - 1], ends[k - 1]);
      RunningStart(ends, k - 1) + ends[k - 1] + 1
  }

  /** The row after the previous separator. */
  function IntendedStart(ends: seq<nat>, k: nat): nat
    requires k <= |ends|
  {
    if k == 0 then 0 else ends[k - 1] + 1
  }

  function SliceStart(rule: CursorRule, ends: seq<nat>, k: nat): nat
    requires k <= |ends|
  {
    match rule
    case AsWritten => RunningStart(ends, k)
    case Intended => IntendedStart(ends, k)
  }

  /** Decodes the example made of rows [lo, hi). */
  type ExampleDecoder = (nat, nat) -> Result<Notes, CallError>

  function Example(v: Vocab, rows: seq<seq<int>>): ExampleDecoder {
    (lo: nat, hi: nat) => ExampleNotes(v, rows, lo, hi)
  }

  /** Examples k, k+1, ... in order; the first failing example fails the
      call with its error. */
  function ExamplesFrom(example: ExampleDecoder, ends: seq<nat>, rule: CursorRule, k: nat)
    : (r: Result<seq<Notes>, CallError>)
    requires k <= |ends|
    ensures r.Ok? ==> |r.value| == |ends| - k
    ensures r.Ok? ==> forall j :: k <= j < |ends| ==> example(SliceStart(rule, ends, j), ends[j]) == Ok(r.value[j - k])
    ensures r.Err? ==> exists j :: (k <= j < |ends| && example(SliceStart(rule, ends, j), ends[j]) == Err(r.error)
      && forall i :: k <= i < j ==> example(SliceStart(rule, ends, i), ends[i]).Ok?)
    decreases |ends| - k
  {
    if k == |ends| then Ok([])
    else
      var first := example(SliceStart(rule, ends, k), ends[k]);
      if first.Err? then Err(first.error)
      else
        var later := ExamplesFrom(example, ends, rule, k + 1);
        if later.Err? then
          var j :| k + 1 <= j < |ends| && example(SliceStart(rule, ends, j), ends[j]) == Err(later.error)
            && forall i :: k + 1 <= i < j ==> example(SliceStart(rule, ends, i), ends[i]).Ok?;
          assert forall i :: k <= i < j ==> example(SliceStart(rule, ends, i), ends[i]).Ok?;
          Err(later.error)
        else Ok([first.value] + later.value)
  }

  /** `__call__` with the given cursor rule: validation, then the
      examples. Once the validation passes, the call can only fail for an
      example without an end-of-sequence id or with an empty trimmed row. */
  function ProcessWith(v: Vocab, rows: seq<seq<int>>, f: Features, rule: CursorRule): (r: Result<seq<Notes>, CallError>)
    ensures r.Err? && Accepted(f, |rows|) ==> r.error == NoEndOfSequence || r.error == Decode(EmptySegment)
  {
    match Validate(f, |rows|)
    case Some(e) => Err(e)
    case None => ExamplesFrom(Example(v, rows), ExampleEnds(f, |rows|), rule, 0)
  }

  /** `__call__` as written: the cursor advances by `start_idx += end_idx + 1`. */
  function Process(v: Vocab, rows: seq<seq<int>>, f: Features): Result<seq<Notes>, CallError> {
    ProcessWith(v, rows, f, AsWritten)
  }

  /** `__call__` with each example starting after the previous separator. */
  function ProcessCorrected(v: Vocab, rows: seq<seq<int>>, f: Features): Result<seq<Notes>, CallError> {
    ProcessWith(v, rows, f, Intended)
  }

  // ---------------------------------------------------------------------
  // The loop

  /** The accumulated examples in front of the outcome of the rest. */
  function Prepend(done: seq<Notes>, rest: Result<seq<Notes>, CallError>): Result<seq<Notes>, CallError> {
    match rest
    case Err(e) => Err(e)
    case Ok(more) => Ok(done + more)
  }

  /** The loop of `__call__`: for each end index the example from the
      cursor, then `start_idx += end_idx + 1`. */
  method RunExamples(example: ExampleDecoder, ends: seq<nat>) returns (r: Result<seq<Notes>, CallError>)
    ensures r == ExamplesFrom(example, ends, AsWritten, 0)
  {
    var examples: seq<Notes> := [];
    var start: nat := 0;
    var index := 0;
    PrependNothing(ExamplesFrom(example, ends, AsWritten, 0));
    while index < |ends|
      invariant 0 <= index <= |ends|
      invariant start == RunningStart(ends, index)
      invariant ExamplesFrom(example, ends, AsWritten, 0) == Prepend(examples, ExamplesFrom(example, ends, AsWritten, index))
    {
      var endIdx := ends[index];
      assert SliceStart(AsWritten, ends, index) == start;
      var notes := example(start, endIdx);
      ExamplesFromStep(example, ends, AsWritten, index);
      if notes.Err? {
        return Err(notes.error);
      }
      var rest := ExamplesFrom(example, ends, AsWritten, index + 1);
      PrependTwice(examples, [notes.value], rest);
      examples := examples + [notes.value];
      start := start + endIdx + 1;
      index := index + 1;
    }
    assert examples + [] == examples;
    return Ok(examples);
  }

  /** `__call__`: the validation, then the loop over the examples. A failed
      validation is the call's error; a successful call yields one note list
      per beatsteps row; after validation the call fails only for a missing
      end-of-sequence id or an empty trimmed row. */
  method Call(v: Vocab, rows: seq<seq<int>>, f: Features) returns (r: Result<seq<Notes>, CallError>)
    ensures r == Process(v, rows, f)
    ensures !Accepted(f, |rows|) ==> r == Err(Validate(f, |rows|).value)
    ensures r.Ok? ==> Accepted(f, |rows|) && |r.value| == f.beatstepsCount
    ensures r.Err? && Accepted(f, |rows|) ==> r.error == NoEndOfSequence || r.error == Decode(EmptySegment)
  {
    var invalid := Validate(f, |rows|);
    if invalid.Some? {
      return Err(invalid.value);
    }
    r := RunExamples(Example(v, rows), ExampleEnds(f, |rows|));
    ProcessShape(v, rows, f, AsWritten);
  }

  /** One step of the loop: example k, then the rest. */
  lemma ExamplesFromStep(example: ExampleDecoder, ends: seq<nat>, rule: CursorRule, k: nat)
    requires k < |ends|
    ensures var notes := example(SliceStart(rule, ends, k), ends[k]);
      ExamplesFrom(example, ends, rule, k)
        == if notes.Err? then Err(notes.error) else Prepend([notes.value], ExamplesFrom(example, ends, rule, k + 1))
  {
  }

  lemma PrependNothing(rest: Result<seq<Notes>, CallError>)
    ensures Prepend([], rest) == rest
  {
    if rest.Ok? {
      assert [] + rest.value == rest.value;
    }
  }

  lemma PrependTwice(a: seq<Notes>, b: seq<Notes>, rest: Result<seq<Notes>, CallError>)
    ensures Prepend(a, Prepend(b, rest)) == Prepend(a + b, rest)
  {
    if rest.Ok? {
      assert a + (b + rest.value) == (a + b) + rest.value;
    }
  }

  // ---------------------------------------------------------------------
  // Properties of the call

  /** A token tensor: every row has the same number of columns. */
  predicate Rectangular(rows: seq<seq<int>>) {
    forall i, j :: 0 <= i < |rows| && 0 <= j < |rows| ==> |rows[i]| == |rows[j]|
  }

  predicate HoldsEos(rows: seq<seq<int>>) {
    exists i, j :: 0 <= i < |rows| && 0 <= j < |rows[i]| && rows[i][j] == EndOfSequence
  }

  /** Rows [lo, hi) of a token tensor form a token tensor. */
  lemma SliceRectangular(rows: seq<seq<int>>, lo: nat, hi: nat)
    requires Rectangular(rows)
    ensures Rectangular(PySlice(rows, lo, hi))
  {
    var slice := PySlice(rows, lo, hi);
    forall i, j | 0 <= i < |slice| && 0 <= j < |slice| ensures |slice[i]| == |slice[j]| {
      assert slice[i] == rows[lo + i] && slice[j] == rows[lo + j];
    }
  }

  /** Cutting a token tensor to a positive width leaves no row empty once
      one row is not. */
  lemma TrimmedRowsNonEmpty(rows: seq<seq<int>>, trimmed: seq<seq<int>>, w: nat, i0: nat)
    requires Rectangular(rows) && w > 0 && TrimmedTo(rows, trimmed, w)
    requires i0 < |trimmed| && |trimmed[i0]| > 0
    ensures forall i :: 0 <= i < |trimmed| ==> |trimmed[i]| > 0
  {
    forall i | 0 <= i < |trimmed| ensures |trimmed[i]| > 0 {
      assert |rows[i]| == |rows[i0]| > 0;
    }
  }

  /** Of a token tensor, an example decodes exactly when its rows hold an
      end-of-sequence id; the segment decoder itself never fails there,
      because every trimmed row keeps at least the columns up to that id. */
  lemma ExampleOutcome(v: Vocab, rows: seq<seq<int>>, lo: nat, hi: nat)
    requires Rectangular(rows)
    ensures ExampleNotes(v, rows, lo, hi).Ok? <==> HoldsEos(PySlice(rows, lo, hi))
    ensures ExampleNotes(v, rows, lo, hi).Err? ==> ExampleNotes(v, rows, lo, hi).error == NoEndOfSequence
  {
    var slice := PySlice(rows, lo, hi);
    if HoldsEos(slice) {
      SliceRectangular(rows, lo, hi);
      TrimmedExampleDecodes(v, slice);
    }
  }

  /** The trimmed rows of a token tensor holding an end-of-sequence id are
      all non-empty, so the stitcher decodes them. */
  lemma TrimmedExampleDecodes(v: Vocab, slice: seq<seq<int>>)
    requires Rectangular(slice) && HoldsEos(slice)
    ensures Stitch(v, TrimToEos(slice).value, 0, v.numBars, SegmentCutoff(v)).Ok?
  {
    var trimmed := TrimToEos(slice).value;
    var w: nat :| w > 0 && TrimmedTo(slice, trimmed, w);
    var i0 :| 0 <= i0 < |slice| && |trimmed[i0]| > 0 && trimmed[i0][|trimmed[i0]| - 1] == EndOfSequence;
    TrimmedRowsNonEmpty(slice, trimmed, w, i0);
  }

  /** Every note of a decoded example is well formed. */
  lemma ExampleWellFormed(v: Vocab, rows: seq<seq<int>>, lo: nat, hi: nat)
    requires ExampleNotes(v, rows, lo, hi).Ok?
    ensures forall k :: 0 <= k < |ExampleNotes(v, rows, lo, hi).value| ==> WellFormed(v, ExampleNotes(v, rows, lo, hi).value[k])
  {
    var trimmed := TrimToEos(PySlice(rows, lo, hi)).value;
    StitchWellFormed(v, trimmed, 0, v.numBars, SegmentCutoff(v));
  }

  /** A successful call passed the validation and yields one note list per
      beatsteps row; a failed validation is the call's error. */
  lemma ProcessShape(v: Vocab, rows: seq<seq<int>>, f: Features, rule: CursorRule)
    ensures ProcessWith(v, rows, f, rule).Ok? ==>
      Accepted(f, |rows|) && |ProcessWith(v, rows, f, rule).value| == f.beatstepsCount
    ensures !Accepted(f, |rows|) ==> ProcessWith(v, rows, f, rule) == Err(Validate(f, |rows|).value)
  {
  }

  /** The cursor as written agrees with the intended one for the first two
      examples and lies strictly beyond it from the third on. */
  lemma RunningStartOvershoots(ends: seq<nat>, k: nat)
    requires k <= |ends|
    ensures k <= 1 ==> RunningStart(ends, k) == IntendedStart(ends, k)
    ensures k >= 2 ==> RunningStart(ends, k) > IntendedStart(ends, k)
  {
    if k >= 2 {
      assert RunningStart(ends, k - 1) >= 1;
    }
  }

  lemma {:induction false} RulesAgreeFrom(example: ExampleDecoder, ends: seq<nat>, k: nat)
    requires k <= |ends| <= 2
    ensures ExamplesFrom(example, ends, AsWritten, k) == ExamplesFrom(example, ends, Intended, k)
    decreases |ends| - k
  {
    if k < |ends| {
      RulesAgreeFrom(example, ends, k + 1);
      RunningStartOvershoots(ends, k);
    }
  }

  /** With at most two examples the cursor as written is harmless. */
  lemma ProcessAgreesUpToTwo(v: Vocab, rows: seq<seq<int>>, f: Features)
    requires f.beatstepsCount <= 2
    ensures Process(v, rows, f) == ProcessCorrected(v, rows, f)
  {
    if Validate(f, |rows|).None? {
      RulesAgreeFrom(Example(v, rows), ExampleEnds(f, |rows|), 0);
    }
  }

  /** With the intended cursor, example k is exactly the run of rows after
      the previous separator up to (not including) separator k: no row in it
      is a separator, and the row before it is one. */
  lemma IntendedExampleRows(f: Features, rows: seq<seq<int>>, k: nat)
    requires f.masksPresent && Accepted(f, |rows|)
    requires k < |ExampleEnds(f, |rows|)|
    ensures var ends := ExampleEnds(f, |rows|);
      var lo := IntendedStart(ends, k);
      && lo <= ends[k] < |rows|
      && PySlice(rows, lo, ends[k]) == rows[lo..ends[k]]
      && f.maskFirstColumn[ends[k]] == 0
      && (forall i :: lo <= i < ends[k] ==> f.maskFirstColumn[i] != 0)
      && (k > 0 ==> f.maskFirstColumn[lo - 1] == 0)
  {
    var ends := ExampleEnds(f, |rows|);
    SeparatorCount(f.maskFirstColumn);
  }

  /** The corrected call decodes, as example k, exactly the rows after
      separator k-1 up to separator k. */
  lemma CorrectedDecodesBetweenSeparators(v: Vocab, rows: seq<seq<int>>, f: Features, k: nat)
    requires f.masksPresent
    requires ProcessCorrected(v, rows, f).Ok? && k < |ProcessCorrected(v, rows, f).value|
    ensures var ends := ExampleEnds(f, |rows|);
      var lo := IntendedStart(ends, k);
      && k < |ends| && lo <= ends[k] < |rows|
      && (forall i :: lo <= i < ends[k] ==> f.maskFirstColumn[i] != 0)
      && (k > 0 ==> f.maskFirstColumn[lo - 1] == 0)
      && f.maskFirstColumn[ends[k]] == 0
      && PySlice(rows, lo, ends[k]) == rows[lo..ends[k]]
      && ExampleNotes(v, rows, lo, ends[k]) == Ok(ProcessCorrected(v, rows, f).value[k])
  {
    ProcessShape(v, rows, f, Intended);
    IntendedExampleRows(f, rows, k);
  }

  /** Every non-empty range of rows that each hold only the end-of-sequence
      id decodes. */
  lemma EosRowsDecode(v: Vocab, rows: seq<seq<int>>, lo: nat, hi: nat)
    requires forall i :: 0 <= i < |rows| ==> rows[i] == [EndOfSequence]
    requires lo < hi <= |rows|
    ensures Example(v, rows)(lo, hi).Ok?
  {
    ExampleOutcome(v, rows, lo, hi);
    assert PySlice(rows, lo, hi)[0][0] == EndOfSequence;
  }

  /** Seven token rows, each holding only the end-of-sequence id. */
  const OvershootRows: seq<seq<int>> := seq(7, i => [EndOfSequence])

  /** Separators at rows 1, 3 and 6: three examples. */
  const OvershootFeatures := Features(true, [1, 0, 1, 0, 1, 1, 0], 3, 3)

  lemma OvershootZeros()
    ensures SeparatorRows(OvershootFeatures.maskFirstColumn) == [1, 3, 6]
  {
    var col := OvershootFeatures.maskFirstColumn;
    assert ZerosFrom(col, 7) == [];
    assert ZerosFrom(col, 6) == [6];
    assert ZerosFrom(col, 5) == [6];
    assert ZerosFrom(col, 4) == [6];
    assert ZerosFrom(col, 3) == [3, 6];
    assert ZerosFrom(col, 2) == [3, 6];
    assert ZerosFrom(col, 1) == [1, 3, 6];
    assert ZerosFrom(col, 0) == [1, 3, 6];
  }

  lemma OvershootSeparators()
    ensures Validate(OvershootFeatures, |OvershootRows|) == None
    ensures ExampleEnds(OvershootFeatures, |OvershootRows|) == [1, 3, 6]
  {
    OvershootZeros();
    SeparatorCount(OvershootFeatures.maskFirstColumn);
  }

  /** As written, the third of the examples ending at rows 1, 3 and 6 is
      rows [6, 6), for any example decoder. */
  lemma OvershootAsWritten(example: ExampleDecoder, e: CallError)
    requires example(0, 1).Ok? && example(2, 3).Ok? && example(6, 6) == Err(e)
    ensures ExamplesFrom(example, [1, 3, 6], AsWritten, 0) == Err(e)
  {
    var ends: seq<nat> := [1, 3, 6];
    assert RunningStart(ends, 1) == 2;
    assert RunningStart(ends, 2) == 6;
    assert ExamplesFrom(example, ends, AsWritten, 2) == Err(e);
  }

  /** With the intended cursor they are rows [0, 1), [2, 3) and [4, 6). */
  lemma OvershootIntended(example: ExampleDecoder)
    requires example(0, 1).Ok? && example(2, 3).Ok? && example(4, 6).Ok?
    ensures ExamplesFrom(example, [1, 3, 6], Intended, 0).Ok?
  {
    var ends: seq<nat> := [1, 3, 6];
    assert ExamplesFrom(example, ends, Intended, 3).Ok?;
    assert ExamplesFrom(example, ends, Intended, 2).Ok?;
  }

  /** The empty example has no end-of-sequence id. */
  lemma EmptyExampleFails(v: Vocab, rows: seq<seq<int>>, lo: nat, hi: nat)
    requires hi <= lo
    ensures Example(v, rows)(lo, hi) == Err(NoEndOfSequence)
  {
    assert PySlice(rows, lo, hi) == [];
  }

  /** The cursor as written on a concrete input: separators at rows 1, 3
      and 6 and an end-of-sequence id in every row. The third example is
      sliced as rows [6, 6), which is empty, so the call fails; the
      intended rows [4, 6) decode. */
  lemma CursorOvershootCounterexample(v: Vocab)
    ensures Process(v, OvershootRows, OvershootFeatures) == Err(NoEndOfSequence)
    ensures ProcessCorrected(v, OvershootRows, OvershootFeatures).Ok?
  {
    var example := Example(v, OvershootRows);
    OvershootSeparators();
    EosRowsDecode(v, OvershootRows, 0, 1);
    EosRowsDecode(v, OvershootRows, 2, 3);
    EosRowsDecode(v, OvershootRows, 4, 6);
    EmptyExampleFails(v, OvershootRows, 6, 6);
    OvershootAsWritten(example, NoEndOfSequence);
    OvershootIntended(example);
  }
}
