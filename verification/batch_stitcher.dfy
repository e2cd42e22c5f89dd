/** The batch stitcher (`relative_batch_tokens_to_notes`): row i of a batch
    covers the bars starting at beat_offset + i*bars*4, and its notes are cut
    off `cutoff` time steps after that start. The rows' notes are concatenated
    in row order; the first row that cannot be decoded fails the batch.

    The stitching is stated for any per-row decoder; `Stitch` instantiates it
    with the segment decoder, whose contract (`DecoderContract`) is all the
    batch-level proofs use. */
module BatchStitcher {
  import opened Outcomes
  import opened Codec
  import opened NoteOrder
  import opened SegmentDecoder

  type Part = Result<seq<NoteEvent>, DecodeError>

  /** A per-row decoder: tokens, start index and absolute cutoff index. */
  type RowDecoder = (seq<int>, int, int) -> Part

  /** Part i is the first part that failed. */
  predicate FirstFailure(parts: seq<Part>, i: int)
    requires 0 <= i < |parts|
  {
    parts[i].Err? && forall j :: 0 <= j < i ==> parts[j].Ok?
  }

  /** Concatenation of the parts in order, failing with the first failure. */
  function Concat(parts: seq<Part>): (r: Part)
    ensures r.Ok? <==> forall i :: 0 <= i < |parts| ==> parts[i].Ok?
    ensures r.Err? ==> exists i :: 0 <= i < |parts| && parts[i] == Err(r.error) && FirstFailure(parts, i)
    decreases |parts|
  {
    if |parts| == 0 then Ok([])
    else
      var n := |parts| - 1;
      assert forall i :: 0 <= i < n ==> parts[..n][i] == parts[i];
      match Concat(parts[..n])
      case Err(e) => Err(e)
      case Ok(earlier) =>
        match parts[n]
        case Err(e) => Err(e)
        case Ok(last) => Ok(earlier + last)
  }

  /** Concatenating a+b is concatenating a, then b. */
  lemma {:induction false} ConcatAppend(a: seq<Part>, b: seq<Part>)
    requires forall i :: 0 <= i < |a| ==> a[i].Ok?
    requires forall i :: 0 <= i < |b| ==> b[i].Ok?
    ensures Concat(a + b).Ok?
    ensures Concat(a + b).value == Concat(a).value + Concat(b).value
    decreases |b|
  {
    if |b| == 0 {
      assert a + b == a;
    } else {
      var n := |b| - 1;
      var ab := a + b;
      assert ab[..|a| + n] == a + b[..n];
      assert forall i :: 0 <= i < n ==> b[..n][i] == b[i];
      ConcatAppend(a, b[..n]);
      assert ab[|a| + n] == b[n];
      assert Concat(b) == Ok(Concat(b[..n]).value + b[n].value);
      assert Concat(ab) == Ok(Concat(a + b[..n]).value + b[n].value);
    }
  }

  /** Every note of a successful concatenation is a note of some part. */
  lemma {:induction false} ConcatMembers(parts: seq<Part>, k: int)
    requires Concat(parts).Ok? && 0 <= k < |Concat(parts).value|
    ensures exists i, j :: 0 <= i < |parts| && 0 <= j < |parts[i].value| && Concat(parts).value[k] == parts[i].value[j]
    decreases |parts|
  {
    var n := |parts| - 1;
    assert forall i :: 0 <= i < n ==> parts[..n][i] == parts[i];
    var earlier := Concat(parts[..n]).value;
    if k < |earlier| {
      ConcatMembers(parts[..n], k);
      var i, j :| 0 <= i < n && 0 <= j < |parts[..n][i].value| && earlier[k] == parts[..n][i].value[j];
      assert parts[i] == parts[..n][i];
    } else {
      assert Concat(parts).value[k] == parts[n].value[k - |earlier|];
    }
  }

  /** The outcome so far extended by one more part. */
  function Extend(acc: Part, next: Part): Part {
    match acc
    case Err(e) => Err(e)
    case Ok(earlier) =>
      match next
      case Err(e) => Err(e)
      case Ok(last) => Ok(earlier + last)
  }

  lemma ConcatSnoc(parts: seq<Part>, next: Part)
    ensures Concat(parts + [next]) == Extend(Concat(parts), next)
  {
    assert (parts + [next])[..|parts|] == parts;
  }

  /** A part without notes contributes nothing: dropping it leaves the
      concatenation, success or failure, unchanged. */
  lemma {:induction false} ConcatDropsSilent(parts: seq<Part>, i: int)
    requires 0 <= i < |parts| && parts[i] == Ok([])
    ensures Concat(parts[..i] + parts[i + 1..]) == Concat(parts)
    decreases |parts|
  {
    var n := |parts| - 1;
    var shorter := parts[..n];
    assert parts == shorter + [parts[n]];
    ConcatSnoc(shorter, parts[n]);
    if i == n {
      assert parts[..i] + parts[i + 1..] == shorter;
      if Concat(shorter).Ok? {
        assert Concat(shorter).value + [] == Concat(shorter).value;
      }
    } else {
      var dropped := shorter[..i] + shorter[i + 1..];
      assert parts[..i] + parts[i + 1..] == dropped + [parts[n]];
      ConcatDropsSilent(shorter, i);
      ConcatSnoc(dropped, parts[n]);
    }
  }

  /** When no part has notes, the concatenation is empty. */
  lemma {:induction false} ConcatAllSilent(parts: seq<Part>)
    requires forall i :: 0 <= i < |parts| ==> parts[i] == Ok([])
    ensures Concat(parts) == Ok([])
    decreases |parts|
  {
    if |parts| > 0 {
      var n := |parts| - 1;
      assert forall i :: 0 <= i < n ==> parts[..n][i] == parts[i];
      ConcatAllSilent(parts[..n]);
      var none: seq<NoteEvent> := [];
      assert none + none == none;
      assert Concat(parts) == Ok(none + none);
    }
  }

  /** Extending a successful prefix by one part. */
  lemma ConcatStep(parts: seq<Part>, i: int)
    requires 0 <= i < |parts|
    requires Concat(parts[..i]).Ok?
    ensures parts[i].Err? ==> Concat(parts[..i + 1]) == Err(parts[i].error)
    ensures parts[i].Ok? ==> Concat(parts[..i + 1]) == Ok(Concat(parts[..i]).value + parts[i].value)
  {
    assert parts[..i + 1][..i] == parts[..i];
    assert parts[..i + 1][i] == parts[i];
  }

  /** A failing prefix makes the whole concatenation fail the same way. */
  lemma {:induction false} ConcatPrefixFailure(parts: seq<Part>, n: nat)
    requires n <= |parts|
    requires Concat(parts[..n]).Err?
    ensures Concat(parts) == Concat(parts[..n])
    decreases |parts|
  {
    if n == |parts| {
      assert parts[..n] == parts;
    } else {
      var m := |parts| - 1;
      assert parts[..m][..n] == parts[..n];
      ConcatPrefixFailure(parts[..m], n);
    }
  }

  /** Start index of row i. */
  function RowStart(beatOffset: int, barsPerBatch: int, i: int): int {
    beatOffset + i * barsPerBatch * 4
  }

  /** Starting m rows later is starting from row m's start. */
  lemma RowStartShift(beatOffset: int, barsPerBatch: int, m: int, i: int)
    ensures RowStart(beatOffset, barsPerBatch, m + i) == RowStart(RowStart(beatOffset, barsPerBatch, m), barsPerBatch, i)
  {
    assert (m + i) * barsPerBatch * 4 == m * barsPerBatch * 4 + i * barsPerBatch * 4 by {
      assert (m + i) * barsPerBatch == m * barsPerBatch + i * barsPerBatch;
    }
  }

  /** Each row decoded from its own start, with the cutoff counted from there. */
  function RowResults(decode: RowDecoder, rows: seq<seq<int>>, beatOffset: int, barsPerBatch: int, cutoff: int): (r: seq<Part>)
    ensures |r| == |rows|
    ensures forall i :: 0 <= i < |rows| ==>
      r[i] == decode(rows[i], RowStart(beatOffset, barsPerBatch, i), cutoff + RowStart(beatOffset, barsPerBatch, i))
  {
    seq(|rows|, i requires 0 <= i < |rows| =>
      decode(rows[i], RowStart(beatOffset, barsPerBatch, i), cutoff + RowStart(beatOffset, barsPerBatch, i)))
  }

  /** The batch's notes for a given per-row decoder: it succeeds exactly when
      every row does, fails with the error of the first row that fails, and a
      batch of no rows gives no notes. */
  function StitchWith(decode: RowDecoder, rows: seq<seq<int>>, beatOffset: int, barsPerBatch: int, cutoff: int): (r: Part)
    ensures r.Ok? <==> forall i :: 0 <= i < |rows| ==>
      decode(rows[i], RowStart(beatOffset, barsPerBatch, i), cutoff + RowStart(beatOffset, barsPerBatch, i)).Ok?
    ensures r.Err? ==> exists i :: (0 <= i < |rows|
      && decode(rows[i], RowStart(beatOffset, barsPerBatch, i), cutoff + RowStart(beatOffset, barsPerBatch, i)) == Err(r.error)
      && forall j :: 0 <= j < i ==>
           decode(rows[j], RowStart(beatOffset, barsPerBatch, j), cutoff + RowStart(beatOffset, barsPerBatch, j)).Ok?)
    ensures |rows| == 0 ==> r == Ok([])
  {
    Concat(RowResults(decode, rows, beatOffset, barsPerBatch, cutoff))
  }

  /** The segment decoder as a per-row decoder. */
  function Decoder(v: Vocab): RowDecoder {
    (tokens: seq<int>, start: int, cut: int) => DecodeSegment(v, tokens, start, Some(cut))
  }

  /** `relative_batch_tokens_to_notes`: the batch decodes exactly when no row
      is empty, and otherwise fails with EmptySegment; a batch of no rows
      gives no notes. */
  function Stitch(v: Vocab, rows: seq<seq<int>>, beatOffset: int, barsPerBatch: int, cutoff: int): (r: Part)
    ensures r.Ok? <==> forall i :: 0 <= i < |rows| ==> |rows[i]| > 0
    ensures r.Err? ==> r.error == EmptySegment
    ensures |rows| == 0 ==> r == Ok([])
  {
    DecoderContract(v);
    StitchWith(Decoder(v), rows, beatOffset, barsPerBatch, cutoff)
  }

  /** What the batch needs from a row decoder. */
  ghost predicate FailsOnlyWhenEmpty(decode: RowDecoder) {
    forall t, s, c :: decode(t, s, c).Ok? <==> |t| > 0
  }

  ghost predicate FailsWithEmptySegment(decode: RowDecoder) {
    forall t, s, c :: decode(t, s, c).Err? ==> decode(t, s, c).error == EmptySegment
  }

  ghost predicate EmitsWellFormed(v: Vocab, decode: RowDecoder) {
    forall t, s, c :: decode(t, s, c).Ok? ==>
      forall k :: 0 <= k < |decode(t, s, c).value| ==> WellFormed(v, decode(t, s, c).value[k])
  }

  ghost predicate StaysInWindow(decode: RowDecoder) {
    forall t, s, c :: s <= c && decode(t, s, c).Ok? ==>
      forall k :: 0 <= k < |decode(t, s, c).value| ==>
        s <= decode(t, s, c).value[k].onset <= c && decode(t, s, c).value[k].offset <= c + 1
  }

  /** The segment decoder fails only on an empty row, with EmptySegment, emits
      well-formed notes and keeps them inside the row's window. */
  lemma DecoderContract(v: Vocab)
    ensures FailsOnlyWhenEmpty(Decoder(v))
    ensures FailsWithEmptySegment(Decoder(v))
    ensures EmitsWellFormed(v, Decoder(v))
    ensures StaysInWindow(Decoder(v))
  {
    forall t, s, c | s <= c && Decoder(v)(t, s, c).Ok?
      ensures forall k :: 0 <= k < |Decoder(v)(t, s, c).value| ==>
        s <= Decoder(v)(t, s, c).value[k].onset <= c && Decoder(v)(t, s, c).value[k].offset <= c + 1
    {
      DecodeSegmentInWindow(v, t, s, Some(c));
    }
  }

  /** A batch whose rows all decode to no notes gives no notes. */
  lemma StitchAllSilent(v: Vocab, rows: seq<seq<int>>, beatOffset: int, barsPerBatch: int, cutoff: int)
    requires forall i :: 0 <= i < |rows| ==>
      DecodeSegment(v, rows[i], RowStart(beatOffset, barsPerBatch, i), Some(cutoff + RowStart(beatOffset, barsPerBatch, i))) == Ok([])
    ensures Stitch(v, rows, beatOffset, barsPerBatch, cutoff) == Ok([])
  {
    ConcatAllSilent(RowResults(Decoder(v), rows, beatOffset, barsPerBatch, cutoff));
  }

  /** Every note of a successful batch is well formed. */
  lemma {:induction false} StitchWellFormed(v: Vocab, rows: seq<seq<int>>, beatOffset: int, barsPerBatch: int, cutoff: int)
    requires Stitch(v, rows, beatOffset, barsPerBatch, cutoff).Ok?
    ensures var r := Stitch(v, rows, beatOffset, barsPerBatch, cutoff).value;
      forall k :: 0 <= k < |r| ==> WellFormed(v, r[k])
  {
    DecoderContract(v);
    var parts := RowResults(Decoder(v), rows, beatOffset, barsPerBatch, cutoff);
    var r := Concat(parts).value;
    forall k | 0 <= k < |r| ensures WellFormed(v, r[k]) {
      ConcatMembers(parts, k);
      var i, j :| 0 <= i < |parts| && 0 <= j < |parts[i].value| && r[k] == parts[i].value[j];
    }
  }

  /** With a decoder that succeeds on non-empty rows, stitching a+b is
      stitching a, then b alone with the beat offset moved past a's rows. */
  lemma StitchWithAppend(decode: RowDecoder, a: seq<seq<int>>, b: seq<seq<int>>, beatOffset: int, barsPerBatch: int, cutoff: int)
    requires FailsOnlyWhenEmpty(decode)
    requires forall i :: 0 <= i < |a| ==> |a[i]| > 0
    requires forall i :: 0 <= i < |b| ==> |b[i]| > 0
    ensures StitchWith(decode, a + b, beatOffset, barsPerBatch, cutoff).Ok?
    ensures StitchWith(decode, a + b, beatOffset, barsPerBatch, cutoff).value
      == StitchWith(decode, a, beatOffset, barsPerBatch, cutoff).value
         + StitchWith(decode, b, RowStart(beatOffset, barsPerBatch, |a|), barsPerBatch, cutoff).value
  {
    var shifted := RowStart(beatOffset, barsPerBatch, |a|);
    var pa := RowResults(decode, a, beatOffset, barsPerBatch, cutoff);
    var pb := RowResults(decode, b, shifted, barsPerBatch, cutoff);
    var pab := RowResults(decode, a + b, beatOffset, barsPerBatch, cutoff);
    forall i | 0 <= i < |b| ensures pab[|a| + i] == pb[i] {
      RowStartShift(beatOffset, barsPerBatch, |a|, i);
      assert (a + b)[|a| + i] == b[i];
    }
    forall k | 0 <= k < |pab| ensures pab[k] == (pa + pb)[k] {
      if k < |a| {
        assert (a + b)[k] == a[k];
      } else {
        assert pab[|a| + (k - |a|)] == pb[k - |a|];
      }
    }
    assert pab == pa + pb;
    assert forall i :: 0 <= i < |pa| ==> pa[i].Ok?;
    assert forall i :: 0 <= i < |pb| ==> pb[i].Ok?;
    ConcatAppend(pa, pb);
  }

  /** Decoding a+b is decoding a, followed by decoding b alone with the beat
      offset moved past a's rows: rows contribute independently and in order. */
  lemma StitchAppend(v: Vocab, a: seq<seq<int>>, b: seq<seq<int>>, beatOffset: int, barsPerBatch: int, cutoff: int)
    requires forall i :: 0 <= i < |a| ==> |a[i]| > 0
    requires forall i :: 0 <= i < |b| ==> |b[i]| > 0
    ensures Stitch(v, a + b, beatOffset, barsPerBatch, cutoff).Ok?
    ensures Stitch(v, a + b, beatOffset, barsPerBatch, cutoff).value
      == Stitch(v, a, beatOffset, barsPerBatch, cutoff).value
         + Stitch(v, b, RowStart(beatOffset, barsPerBatch, |a|), barsPerBatch, cutoff).value
  {
    DecoderContract(v);
    StitchWithAppend(Decoder(v), a, b, beatOffset, barsPerBatch, cutoff);
  }

  /** With a decoder that keeps notes in the row's window, every note of the
      batch lies in the window of some row. */
  lemma StitchWithInWindow(decode: RowDecoder, rows: seq<seq<int>>, beatOffset: int, barsPerBatch: int, cutoff: int)
    requires StaysInWindow(decode)
    requires cutoff >= 0
    requires StitchWith(decode, rows, beatOffset, barsPerBatch, cutoff).Ok?
    ensures var r := StitchWith(decode, rows, beatOffset, barsPerBatch, cutoff).value;
      forall k :: 0 <= k < |r| ==> exists i :: (0 <= i < |rows| &&
        RowStart(beatOffset, barsPerBatch, i) <= r[k].onset <= cutoff + RowStart(beatOffset, barsPerBatch, i) &&
        r[k].offset <= cutoff + RowStart(beatOffset, barsPerBatch, i) + 1)
  {
    var parts := RowResults(decode, rows, beatOffset, barsPerBatch, cutoff);
    var r := Concat(parts).value;
    forall k | 0 <= k < |r|
      ensures exists i :: (0 <= i < |rows| &&
        RowStart(beatOffset, barsPerBatch, i) <= r[k].onset <= cutoff + RowStart(beatOffset, barsPerBatch, i) &&
        r[k].offset <= cutoff + RowStart(beatOffset, barsPerBatch, i) + 1)
    {
      ConcatMembers(parts, k);
      var i, j :| 0 <= i < |parts| && 0 <= j < |parts[i].value| && r[k] == parts[i].value[j];
      var start := RowStart(beatOffset, barsPerBatch, i);
      assert start <= cutoff + start;
    }
  }

  /** Every note of the batch lies in the window of some row: onset in
      [start_i, cutoff + start_i] and offset at most one past that, when the
      cutoff is not negative. */
  lemma StitchInWindow(v: Vocab, rows: seq<seq<int>>, beatOffset: int, barsPerBatch: int, cutoff: int)
    requires cutoff >= 0
    requires Stitch(v, rows, beatOffset, barsPerBatch, cutoff).Ok?
    ensures var r := Stitch(v, rows, beatOffset, barsPerBatch, cutoff).value;
      forall k :: 0 <= k < |r| ==> exists i :: (0 <= i < |rows| &&
        RowStart(beatOffset, barsPerBatch, i) <= r[k].onset <= cutoff + RowStart(beatOffset, barsPerBatch, i) &&
        r[k].offset <= cutoff + RowStart(beatOffset, barsPerBatch, i) + 1)
  {
    DecoderContract(v);
    StitchWithInWindow(Decoder(v), rows, beatOffset, barsPerBatch, cutoff);
  }

  /** The rows' loop of `relative_batch_tokens_to_notes`: an absent
      accumulator until the first row that yields notes, then concatenation;
      the first row that cannot be decoded ends the loop with its error. It
      computes `StitchWith`. */
  method StitchRows(decode: RowDecoder, rows: seq<seq<int>>, beatOffset: int, barsPerBatch: int, cutoff: int)
    returns (r: Part)
    ensures r == StitchWith(decode, rows, beatOffset, barsPerBatch, cutoff)
  {
    ghost var parts := RowResults(decode, rows, beatOffset, barsPerBatch, cutoff);
    var notes: Option<seq<NoteEvent>> := None;
    var index := 0;
    while index < |rows|
      invariant 0 <= index <= |rows|
      invariant Concat(parts[..index]).Ok?
      invariant notes.None? ==> Concat(parts[..index]).value == []
      invariant notes.Some? ==> Concat(parts[..index]).value == notes.value
    {
      var start := RowStart(beatOffset, barsPerBatch, index);
      var segment := decode(rows[index], start, cutoff + start);
      assert segment == parts[index];
      ConcatStep(parts, index);
      if segment.Err? {
        ConcatPrefixFailure(parts, index + 1);
        return Err(segment.error);
      }
      var rowNotes := segment.value;
      if |rowNotes| == 0 {
      } else if notes.None? {
        notes := Some(rowNotes);
      } else {
        notes := Some(notes.value + rowNotes);
      }
      index := index + 1;
    }
    assert parts[..index] == parts;
    if notes.None? {
      return Ok([]);
    }
    return Ok(notes.value);
  }

  /** `relative_batch_tokens_to_notes` with the segment decoder: it fails,
      with EmptySegment, exactly when some row is empty; the notes it returns
      are well formed; no rows give no notes. */
  method RelativeBatchTokensToNotes(v: Vocab, rows: seq<seq<int>>, beatOffset: int, barsPerBatch: int, cutoff: int)
    returns (r: Part)
    ensures r == Stitch(v, rows, beatOffset, barsPerBatch, cutoff)
    ensures r.Ok? <==> forall i :: 0 <= i < |rows| ==> |rows[i]| > 0
    ensures r.Err? ==> r.error == EmptySegment
    ensures r.Ok? ==> forall k :: 0 <= k < |r.value| ==> WellFormed(v, r.value[k])
    ensures |rows| == 0 ==> r == Ok([])
  {
    r := StitchRows(Decoder(v), rows, beatOffset, barsPerBatch, cutoff);
    if r.Ok? {
      StitchWellFormed(v, rows, beatOffset, barsPerBatch, cutoff);
    }
  }
}
