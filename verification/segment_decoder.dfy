/** The segment decoder (`relative_tokens_to_notes`): a scan over one row of
    token ids that keeps a time cursor, a current velocity and, per pitch, a
    pending onset; it emits a note each time a pitch is struck again after the
    cursor moved, force-closes every onset still pending at the end and returns
    the notes sorted by onset*128 + offset. */
module SegmentDecoder {
  import opened Outcomes
  import opened Codec
  import opened NoteOrder

  datatype DecodeError =
    | EmptySegment        // the row has no first token to inspect
    | TypeNotUnderstood   // a decoded type code matched none of the four

  /** The scan state: cursor into the time grid, last velocity value, one
      pending-onset slot per pitch plus one spare slot, notes emitted so far. */
  datatype DecoderState = DecoderState(
    cursor: int,
    velocity: int,
    pending: seq<Option<int>>,
    notes: seq<NoteEvent>)

  /** Every note the decoder emits has a positive length, a pitch of the NOTE
      range and the vocabulary's default velocity. */
  predicate WellFormed(v: Vocab, n: NoteEvent) {
    n.onset < n.offset && 0 <= n.pitch < v.sizeNote && n.velocity == v.defaultVelocity
  }

  /** The shape the scan keeps: N+1 slots, the spare slot never used, every
      emitted note well formed. */
  predicate Sound(v: Vocab, st: DecoderState) {
    && |st.pending| == v.sizeNote + 1
    && st.pending[v.sizeNote].None?
    && forall i :: 0 <= i < |st.notes| ==> WellFormed(v, st.notes[i])
  }

  /** Time-window facts relative to the start index and optional cutoff. */
  predicate InWindow(x: int, start: int, cutoff: Option<int>) {
    start <= x && (cutoff.Some? ==> x <= cutoff.value)
  }

  predicate Bounded(st: DecoderState, start: int, cutoff: Option<int>) {
    && InWindow(st.cursor, start, cutoff)
    && (forall p :: 0 <= p < |st.pending| && st.pending[p].Some? ==>
          start <= st.pending[p].value <= st.cursor)
    && (forall i :: 0 <= i < |st.notes| ==>
          start <= st.notes[i].onset && st.notes[i].offset <= st.cursor)
  }

  function InitialState(v: Vocab, start: int): (st: DecoderState)
    ensures Sound(v, st) && st.notes == [] && st.velocity == 0 && st.cursor == start
    ensures forall p :: 0 <= p < |st.pending| ==> st.pending[p].None?
  {
    DecoderState(start, 0, seq(v.sizeNote + 1, _ => None), [])
  }

  /** `token_time_to_note`: advance the cursor by a TIME value, clamped to the
      cutoff when there is one. */
  function TokenTimeToNote(number: int, cutoff: Option<int>, current: int): (r: int)
    ensures cutoff.None? ==> r == current + number
    ensures cutoff.Some? ==> r <= cutoff.value && r <= current + number
    ensures cutoff.Some? ==> r == cutoff.value || r == current + number
  {
    var shifted := current + number;
    if cutoff.Some? then Min(shifted, cutoff.value) else shifted
  }

  /** With a non-negative shift and a window that is not empty, the cursor
      only moves forward and stays inside the window. */
  lemma CursorStaysInWindow(number: int, cutoff: Option<int>, current: int, start: int)
    requires number >= 0
    requires InWindow(current, start, cutoff)
    ensures current <= TokenTimeToNote(number, cutoff, current)
    ensures InWindow(TokenTimeToNote(number, cutoff, current), start, cutoff)
  {
  }

  /** `token_note_to_note` for pitch p: open an onset at the cursor when none
      is pending; close a pending onset that lies before the cursor, emitting a
      note and re-opening at the cursor only if the current velocity is not 0;
      leave everything unchanged when the pending onset is not before the
      cursor. Only slot p and the note list can change. */
  function TokenNoteToNote(v: Vocab, p: int, st: DecoderState): (r: DecoderState)
    requires 0 <= p < |st.pending|
    ensures r.cursor == st.cursor && r.velocity == st.velocity
    ensures |r.pending| == |st.pending|
    ensures forall q :: 0 <= q < |st.pending| && q != p ==> r.pending[q] == st.pending[q]
    ensures st.pending[p].None? ==> r.pending[p] == Some(st.cursor) && r.notes == st.notes
    ensures st.pending[p].Some? && st.pending[p].value < st.cursor ==>
      && r.notes == st.notes + [NoteEvent(st.pending[p].value, st.cursor, p, v.defaultVelocity)]
      && (r.pending[p].Some? <==> st.velocity != 0)
      && (r.pending[p].Some? ==> r.pending[p].value == st.cursor)
    ensures st.pending[p].Some? && st.pending[p].value >= st.cursor ==> r == st
  {
    match st.pending[p]
    case Some(onset) =>
      if onset < st.cursor then
        var reopened := if st.velocity == 0 then None else Some(st.cursor);
        st.(notes := st.notes + [NoteEvent(onset, st.cursor, p, v.defaultVelocity)],
            pending := st.pending[p := reopened])
      else st
    case None =>
      st.(pending := st.pending[p := Some(st.cursor)])
  }

  /** What one token does to the scan. */
  datatype Step = Continue(next: DecoderState) | Halt | Unknown

  /** The SPECIAL value that ends the scan. */
  predicate IsStopToken(v: Vocab, id: int) {
    var w := ConvertIdToToken(v, id, 0);
    Classify(v, w.code) == Some(Special) && w.value == 1
  }

  /** One iteration of the scan loop. SPECIAL 1 halts; other SPECIAL values
      and VELOCITY tokens emit nothing, VELOCITY only setting the velocity;
      TIME only moves the cursor; NOTE is `token_note_to_note` on its pitch;
      at most one note is appended per token; the "not understood" outcome
      never arises. */
  function StepToken(v: Vocab, id: int, cutoff: Option<int>, st: DecoderState): (r: Step)
    requires Sound(v, st)
    ensures !r.Unknown?
    ensures r.Halt? <==> IsStopToken(v, id)
    ensures r.Continue? ==> Sound(v, r.next)
    ensures r.Continue? ==> |st.notes| <= |r.next.notes| <= |st.notes| + 1 && r.next.notes[..|st.notes|] == st.notes
    ensures r.Continue? && Classify(v, ConvertIdToToken(v, id, 0).code) == Some(Special) ==> r.next == st
    ensures r.Continue? && Classify(v, ConvertIdToToken(v, id, 0).code) == Some(Velocity) ==>
      r.next == st.(velocity := ConvertIdToToken(v, id, 0).value)
    ensures r.Continue? && Classify(v, ConvertIdToToken(v, id, 0).code) == Some(Time) ==>
      r.next == st.(cursor := TokenTimeToNote(ConvertIdToToken(v, id, 0).value, cutoff, st.cursor))
    ensures r.Continue? && Classify(v, ConvertIdToToken(v, id, 0).code) == Some(Note) ==>
      0 <= ConvertIdToToken(v, id, 0).value < |st.pending| &&
      r.next == TokenNoteToNote(v, ConvertIdToToken(v, id, 0).value, st)
  {
    var w := ConvertIdToToken(v, id, 0);
    DispatchOfDecoded(v, id, 0);
    DispatchedValueBounds(v, id);
    match Classify(v, w.code)
    case None => Unknown
    case Some(Special) => if w.value == 1 then Halt else Continue(st)
    case Some(Time) => Continue(st.(cursor := TokenTimeToNote(w.value, cutoff, st.cursor)))
    case Some(Velocity) => Continue(st.(velocity := w.value))
    case Some(Note) =>
      var next := TokenNoteToNote(v, w.value, st);
      assert next.notes[..|st.notes|] == st.notes;
      Continue(next)
  }

  /** The scan loop over the decoded tokens, ending early at the stop token.
      The decoder only ever appends to its note list. */
  function Scan(v: Vocab, ids: seq<int>, cutoff: Option<int>, st: DecoderState): (r: Result<DecoderState, DecodeError>)
    requires Sound(v, st)
    ensures r.Ok?
    ensures Sound(v, r.value)
    ensures |st.notes| <= |r.value.notes| && r.value.notes[..|st.notes|] == st.notes
    decreases |ids|
  {
    if |ids| == 0 then Ok(st)
    else
      match StepToken(v, ids[0], cutoff, st)
      case Unknown => Err(TypeNotUnderstood)
      case Halt => Ok(st)
      case Continue(next) =>
        var r := Scan(v, ids[1..], cutoff, next);
        assert r.value.notes[..|st.notes|] == r.value.notes[..|next.notes|][..|st.notes|];
        r
  }

  /** One token keeps the window facts, provided the window is not empty. */
  lemma StepBounded(v: Vocab, id: int, cutoff: Option<int>, st: DecoderState, start: int)
    requires Sound(v, st)
    requires cutoff.None? || start <= cutoff.value
    requires Bounded(st, start, cutoff)
    ensures StepToken(v, id, cutoff, st).Continue? ==> Bounded(StepToken(v, id, cutoff, st).next, start, cutoff)
  {
    var w := ConvertIdToToken(v, id, 0);
    DispatchOfDecoded(v, id, 0);
    DispatchedValueBounds(v, id);
    match Classify(v, w.code)
    case Some(Time) =>
      CursorStaysInWindow(w.value, cutoff, st.cursor, start);
    case Some(Note) =>
      var next := TokenNoteToNote(v, w.value, st);
      assert forall i :: 0 <= i < |st.notes| ==> next.notes[i] == st.notes[i];
    case _ =>
  }

  /** With start <= cutoff every onset lies in [start, cursor], every offset
      is at most the cursor and the cursor stays within [start, cutoff]. */
  lemma {:induction false} ScanBounded(v: Vocab, ids: seq<int>, cutoff: Option<int>, st: DecoderState, start: int)
    requires Sound(v, st)
    requires cutoff.None? || start <= cutoff.value
    requires Bounded(st, start, cutoff)
    ensures Bounded(Scan(v, ids, cutoff, st).value, start, cutoff)
    decreases |ids|
  {
    if |ids| > 0 {
      StepBounded(v, ids[0], cutoff, st, start);
      match StepToken(v, ids[0], cutoff, st)
      case Halt =>
      case Continue(next) =>
        ScanBounded(v, ids[1..], cutoff, next, start);
    }
  }

  /** With the cursor at or below the cutoff, the scan never moves the cursor
      back and never past the cutoff. */
  lemma {:induction false} ScanCursorMonotone(v: Vocab, ids: seq<int>, cutoff: Option<int>, st: DecoderState)
    requires Sound(v, st)
    requires cutoff.None? || st.cursor <= cutoff.value
    ensures st.cursor <= Scan(v, ids, cutoff, st).value.cursor
    ensures cutoff.Some? ==> Scan(v, ids, cutoff, st).value.cursor <= cutoff.value
    decreases |ids|
  {
    if |ids| > 0 {
      var w := ConvertIdToToken(v, ids[0], 0);
      DispatchedValueBounds(v, ids[0]);
      match StepToken(v, ids[0], cutoff, st)
      case Halt =>
      case Continue(next) =>
        if Classify(v, w.code) == Some(Time) {
          CursorStaysInWindow(w.value, cutoff, st.cursor, st.cursor);
        }
        ScanCursorMonotone(v, ids[1..], cutoff, next);
    }
  }

  /** Tokens after the stop token have no effect on the scan. */
  lemma {:induction false} ScanIgnoresAfterStop(v: Vocab, pre: seq<int>, stop: int, rest: seq<int>,
                                                cutoff: Option<int>, st: DecoderState)
    requires Sound(v, st)
    requires IsStopToken(v, stop)
    ensures Scan(v, pre + [stop] + rest, cutoff, st) == Scan(v, pre + [stop], cutoff, st)
    decreases |pre|
  {
    if |pre| == 0 {
      assert (pre + [stop] + rest)[0] == stop && (pre + [stop])[0] == stop;
    } else {
      assert (pre + [stop] + rest)[0] == pre[0] && (pre + [stop])[0] == pre[0];
      match StepToken(v, pre[0], cutoff, st)
      case Halt =>
      case Continue(next) =>
        assert (pre + [stop] + rest)[1..] == pre[1..] + [stop] + rest;
        assert (pre + [stop])[1..] == pre[1..] + [stop];
        ScanIgnoresAfterStop(v, pre[1..], stop, rest, cutoff, next);
    }
  }

  /** The offset given to an onset still pending after the scan: the least
      index that is at least the cursor, after the onset, and (with a cutoff)
      at least the cutoff. */
  function ClosingOffset(onset: int, cursor: int, cutoff: Option<int>): (r: int)
    ensures r > onset && r >= cursor
    ensures cutoff.Some? ==> r >= cutoff.value
    ensures r == cursor || r == onset + 1 || (cutoff.Some? && r == cutoff.value)
  {
    var bound := if cutoff.None? then onset + 1 else Max(cutoff.value, onset + 1);
    Max(cursor, bound)
  }

  /** The force-close loop from pitch slot p upwards: one note per pending
      onset, in increasing pitch order, closed at `ClosingOffset`. */
  function ForceClose(v: Vocab, pending: seq<Option<int>>, cursor: int, cutoff: Option<int>, p: nat): (r: seq<NoteEvent>)
    requires p <= |pending|
    ensures forall i :: 0 <= i < |r| ==>
      && p <= r[i].pitch < |pending|
      && pending[r[i].pitch] == Some(r[i].onset)
      && r[i].offset == ClosingOffset(r[i].onset, cursor, cutoff)
      && r[i].velocity == v.defaultVelocity
    ensures forall i, j :: 0 <= i < j < |r| ==> r[i].pitch < r[j].pitch
    decreases |pending| - p
  {
    if p == |pending| then []
    else
      var rest := ForceClose(v, pending, cursor, cutoff, p + 1);
      match pending[p]
      case None => rest
      case Some(onset) =>
        [NoteEvent(onset, ClosingOffset(onset, cursor, cutoff), p, v.defaultVelocity)] + rest
  }

  /** One step of the force-close loop: slot p's note, if any, comes first. */
  lemma ForceCloseStep(v: Vocab, pending: seq<Option<int>>, cursor: int, cutoff: Option<int>, p: nat)
    requires p < |pending|
    ensures pending[p].None? ==> ForceClose(v, pending, cursor, cutoff, p) == ForceClose(v, pending, cursor, cutoff, p + 1)
    ensures pending[p].Some? ==> (ForceClose(v, pending, cursor, cutoff, p)
      == [NoteEvent(pending[p].value, ClosingOffset(pending[p].value, cursor, cutoff), p, v.defaultVelocity)]
         + ForceClose(v, pending, cursor, cutoff, p + 1))
  {
  }

  /** No pending onset is skipped: together with the increasing pitches of
      `ForceClose`, every pending onset is closed exactly once. */
  lemma {:induction false} ForceCloseCovers(v: Vocab, pending: seq<Option<int>>, cursor: int, cutoff: Option<int>, p: nat, q: int)
    requires p <= q < |pending| && pending[q].Some?
    ensures exists i :: 0 <= i < |ForceClose(v, pending, cursor, cutoff, p)| && ForceClose(v, pending, cursor, cutoff, p)[i].pitch == q
    decreases |pending| - p
  {
    if q == p {
      ForceCloseStep(v, pending, cursor, cutoff, p);
      assert ForceClose(v, pending, cursor, cutoff, p)[0].pitch == q;
    } else {
      ForceCloseCovers(v, pending, cursor, cutoff, p + 1, q);
      var i :| 0 <= i < |ForceClose(v, pending, cursor, cutoff, p + 1)| && ForceClose(v, pending, cursor, cutoff, p + 1)[i].pitch == q;
      ForceCloseKeepsLater(v, pending, cursor, cutoff, p, i);
    }
  }

  /** Every note the loop emits from slot p+1 on is also emitted from slot p. */
  lemma ForceCloseKeepsLater(v: Vocab, pending: seq<Option<int>>, cursor: int, cutoff: Option<int>, p: nat, i: int)
    requires p < |pending| && 0 <= i < |ForceClose(v, pending, cursor, cutoff, p + 1)|
    ensures exists j :: (0 <= j < |ForceClose(v, pending, cursor, cutoff, p)|
      && ForceClose(v, pending, cursor, cutoff, p)[j] == ForceClose(v, pending, cursor, cutoff, p + 1)[i])
  {
    ForceCloseStep(v, pending, cursor, cutoff, p);
    if pending[p].Some? {
      assert ForceClose(v, pending, cursor, cutoff, p)[i + 1] == ForceClose(v, pending, cursor, cutoff, p + 1)[i];
    } else {
      assert ForceClose(v, pending, cursor, cutoff, p)[i] == ForceClose(v, pending, cursor, cutoff, p + 1)[i];
    }
  }

  /** With nothing pending, the force-close loop emits nothing. */
  lemma {:induction false} ForceCloseNothingPending(v: Vocab, pending: seq<Option<int>>, cursor: int, cutoff: Option<int>, p: nat)
    requires p <= |pending|
    requires forall q :: p <= q < |pending| ==> pending[q].None?
    ensures ForceClose(v, pending, cursor, cutoff, p) == []
    decreases |pending| - p
  {
    if p < |pending| {
      ForceCloseNothingPending(v, pending, cursor, cutoff, p + 1);
    }
  }

  /** The notes the decoder emits, before sorting: those closed during the
      scan followed by the force-closed ones. A leading id at or above the
      vocabulary size is dropped first. */
  function Emitted(v: Vocab, tokens: seq<int>, start: int, cutoff: Option<int>): (r: Result<seq<NoteEvent>, DecodeError>)
    ensures r.Ok? <==> |tokens| > 0
    ensures r.Ok? ==> forall i :: 0 <= i < |r.value| ==> WellFormed(v, r.value[i])
  {
    if |tokens| == 0 then Err(EmptySegment)
    else
      match Scan(v, ScannedIds(v, tokens), cutoff, InitialState(v, start))
      case Err(e) => Err(e)
      case Ok(st) =>
        var closed := ForceClose(v, st.pending, st.cursor, cutoff, 0);
        assert forall i :: 0 <= i < |closed| ==> closed[i].pitch < v.sizeNote;
        Ok(st.notes + closed)
  }

  /** `relative_tokens_to_notes`: the emitted notes in ascending key order. */
  function DecodeSegment(v: Vocab, tokens: seq<int>, start: int, cutoff: Option<int>): (r: Result<seq<NoteEvent>, DecodeError>)
    ensures r.Ok? <==> |tokens| > 0
    ensures r.Err? ==> r.error == EmptySegment
    ensures r.Ok? ==> multiset(r.value) == multiset(Emitted(v, tokens, start, cutoff).value)
    ensures r.Ok? ==> SortedByKey(r.value)
    ensures r.Ok? ==> forall i :: 0 <= i < |r.value| ==> WellFormed(v, r.value[i])
  {
    var notes :- Emitted(v, tokens, start, cutoff);
    var sorted := if |notes| == 0 then [] else SortByKey(notes);
    assert forall i :: 0 <= i < |sorted| ==> WellFormed(v, sorted[i]) by {
      forall i | 0 <= i < |sorted| ensures WellFormed(v, sorted[i]) {
        assert sorted[i] in multiset(notes);
      }
    }
    Ok(sorted)
  }

  /** The scan's ids: the row without a leading id at or above the vocabulary
      size. */
  function ScannedIds(v: Vocab, tokens: seq<int>): seq<int>
    requires |tokens| > 0
  {
    if tokens[0] >= v.VocabSize() then tokens[1..] else tokens
  }

  lemma EmittedIsScanThenForceClose(v: Vocab, tokens: seq<int>, start: int, cutoff: Option<int>)
    requires |tokens| > 0
    ensures var st := Scan(v, ScannedIds(v, tokens), cutoff, InitialState(v, start)).value;
      Emitted(v, tokens, start, cutoff).value == st.notes + ForceClose(v, st.pending, st.cursor, cutoff, 0)
  {
  }

  /** A force-closed note starts inside the window and ends at most one past
      the cutoff. */
  lemma ForceCloseInWindow(v: Vocab, st: DecoderState, start: int, cutoff: Option<int>, k: int)
    requires cutoff.None? || start <= cutoff.value
    requires Bounded(st, start, cutoff)
    requires 0 <= k < |ForceClose(v, st.pending, st.cursor, cutoff, 0)|
    ensures var n := ForceClose(v, st.pending, st.cursor, cutoff, 0)[k];
      start <= n.onset && (cutoff.Some? ==> n.onset <= cutoff.value && n.offset <= cutoff.value + 1)
  {
    var n := ForceClose(v, st.pending, st.cursor, cutoff, 0)[k];
    assert st.pending[n.pitch] == Some(n.onset);
  }

  /** Window facts for the emitted notes: every onset is at least the start;
      with a cutoff at or after the start, onsets are at most the cutoff and
      offsets at most one past it. */
  lemma EmittedInWindow(v: Vocab, tokens: seq<int>, start: int, cutoff: Option<int>)
    requires |tokens| > 0
    requires cutoff.None? || start <= cutoff.value
    ensures var e := Emitted(v, tokens, start, cutoff).value;
      forall i :: 0 <= i < |e| ==>
        start <= e[i].onset && (cutoff.Some? ==> e[i].onset <= cutoff.value && e[i].offset <= cutoff.value + 1)
  {
    var init := InitialState(v, start);
    var st := Scan(v, ScannedIds(v, tokens), cutoff, init).value;
    ScanBounded(v, ScannedIds(v, tokens), cutoff, init, start);
    EmittedIsScanThenForceClose(v, tokens, start, cutoff);
    FinishInWindow(v, st, start, cutoff);
  }

  /** From a bounded end-of-scan state, the scanned notes followed by the
      force-closed ones all lie in the window. */
  lemma FinishInWindow(v: Vocab, st: DecoderState, start: int, cutoff: Option<int>)
    requires cutoff.None? || start <= cutoff.value
    requires Sound(v, st) && Bounded(st, start, cutoff)
    ensures var e := st.notes + ForceClose(v, st.pending, st.cursor, cutoff, 0);
      forall i :: 0 <= i < |e| ==>
        start <= e[i].onset && (cutoff.Some? ==> e[i].onset <= cutoff.value && e[i].offset <= cutoff.value + 1)
  {
    var closed := ForceClose(v, st.pending, st.cursor, cutoff, 0);
    var e := st.notes + closed;
    forall i | 0 <= i < |e|
      ensures start <= e[i].onset && (cutoff.Some? ==> e[i].onset <= cutoff.value && e[i].offset <= cutoff.value + 1)
    {
      if i < |st.notes| {
        assert e[i] == st.notes[i];
      } else {
        ForceCloseInWindow(v, st, start, cutoff, i - |st.notes|);
        assert e[i] == closed[i - |st.notes|];
      }
    }
  }

  /** `DecodeSegment` inherits the window facts of the emitted notes. */
  lemma DecodeSegmentInWindow(v: Vocab, tokens: seq<int>, start: int, cutoff: Option<int>)
    requires |tokens| > 0
    requires cutoff.None? || start <= cutoff.value
    ensures var r := DecodeSegment(v, tokens, start, cutoff).value;
      forall i :: 0 <= i < |r| ==>
        start <= r[i].onset && (cutoff.Some? ==> r[i].onset <= cutoff.value && r[i].offset <= cutoff.value + 1)
  {
    var r := DecodeSegment(v, tokens, start, cutoff).value;
    var e := Emitted(v, tokens, start, cutoff).value;
    EmittedInWindow(v, tokens, start, cutoff);
    forall i | 0 <= i < |r|
      ensures start <= r[i].onset && (cutoff.Some? ==> r[i].onset <= cutoff.value && r[i].offset <= cutoff.value + 1)
    {
      assert r[i] in multiset(e);
    }
  }

  /** A stop token anywhere in the row ends decoding: what follows it never
      changes the result. */
  lemma StopTokenEndsSegment(v: Vocab, pre: seq<int>, stop: int, rest: seq<int>, start: int, cutoff: Option<int>)
    requires IsStopToken(v, stop)
    requires stop < v.VocabSize()
    ensures DecodeSegment(v, pre + [stop] + rest, start, cutoff) == DecodeSegment(v, pre + [stop], start, cutoff)
  {
    var init := InitialState(v, start);
    var long := pre + [stop] + rest;
    var short := pre + [stop];
    if |pre| == 0 {
      assert long[0] == stop && short[0] == stop;
      ScanIgnoresAfterStop(v, [], stop, rest, cutoff, init);
      assert long == [] + [stop] + rest && short == [] + [stop];
    } else {
      assert long[0] == pre[0] && short[0] == pre[0];
      if pre[0] >= v.VocabSize() {
        assert long[1..] == pre[1..] + [stop] + rest && short[1..] == pre[1..] + [stop];
        ScanIgnoresAfterStop(v, pre[1..], stop, rest, cutoff, init);
      } else {
        ScanIgnoresAfterStop(v, pre, stop, rest, cutoff, init);
      }
    }
    assert Emitted(v, long, start, cutoff) == Emitted(v, short, start, cutoff);
  }

  /** Only the first id is compared with the vocabulary size: a row whose
      leading id is out of range decodes as the rest of the row, whose own
      first id is kept. */
  lemma LeadingOutOfRangeDropped(v: Vocab, tokens: seq<int>, start: int, cutoff: Option<int>)
    requires |tokens| > 1 && tokens[0] >= v.VocabSize() && tokens[1] < v.VocabSize()
    ensures DecodeSegment(v, tokens, start, cutoff) == DecodeSegment(v, tokens[1..], start, cutoff)
  {
    assert ScannedIds(v, tokens) == tokens[1..] == ScannedIds(v, tokens[1..]);
    EmittedIsScanThenForceClose(v, tokens, start, cutoff);
    EmittedIsScanThenForceClose(v, tokens[1..], start, cutoff);
  }

  /** With at least two SPECIAL ids and distinct type codes, id 1 is the stop
      token. */
  lemma OneIsStopToken(v: Vocab)
    requires v.DistinctCodes() && v.sizeSpecial >= 2
    ensures IsStopToken(v, 1) && 1 < v.VocabSize()
  {
    DispatchOfDecoded(v, 1, 0);
  }

  /** A single NOTE token with no cutoff yields one note that lasts one time
      step from the start. */
  lemma SingleNoteSegment(v: Vocab, p: int, start: int)
    requires v.DistinctCodes()
    requires 0 <= p < v.sizeNote
    ensures DecodeSegment(v, [v.NoteBase() + p], start, None) == Ok([NoteEvent(start, start + 1, p, v.defaultVelocity)])
  {
    SingleNoteEmitted(v, p, start);
    DecodeSegmentOfSorted(v, [v.NoteBase() + p], start, None, [NoteEvent(start, start + 1, p, v.defaultVelocity)]);
  }

  lemma SingleNoteEmitted(v: Vocab, p: int, start: int)
    requires v.DistinctCodes()
    requires 0 <= p < v.sizeNote
    ensures Emitted(v, [v.NoteBase() + p], start, None) == Ok([NoteEvent(start, start + 1, p, v.defaultVelocity)])
  {
    var id := v.NoteBase() + p;
    var init := InitialState(v, start);
    DispatchOfDecoded(v, id, 0);
    var st := TokenNoteToNote(v, p, init);
    assert StepToken(v, id, None, init) == Continue(st);
    assert Scan(v, [id], None, init) == Ok(st) by {
      assert [id][1..] == [];
    }
    assert id < v.VocabSize() && ScannedIds(v, [id]) == [id];
    EmittedIsScanThenForceClose(v, [id], start, None);
    var one := [NoteEvent(start, start + 1, p, v.defaultVelocity)];
    SingleForceClose(v, st.pending, start, p);
    assert st.notes == [];
    assert Emitted(v, [id], start, None).Ok?;
    assert Emitted(v, [id], start, None).value == one;
  }

  /** When the keys of the emitted notes already strictly increase, the
      emitted notes are the result. */
  lemma DecodeSegmentOfSorted(v: Vocab, tokens: seq<int>, start: int, cutoff: Option<int>, notes: seq<NoteEvent>)
    requires |tokens| > 0
    requires Emitted(v, tokens, start, cutoff).value == notes
    requires StrictlySortedByKey(notes)
    ensures DecodeSegment(v, tokens, start, cutoff) == Ok(notes)
  {
    SortSortedIsIdentity(notes);
  }

  /** A single pending onset at the cursor closes one step later. */
  lemma SingleForceClose(v: Vocab, pending: seq<Option<int>>, start: int, p: nat)
    requires p < |pending| && pending[p] == Some(start)
    requires forall k :: 0 <= k < |pending| && k != p ==> pending[k].None?
    ensures ForceClose(v, pending, start, None, 0) == [NoteEvent(start, start + 1, p, v.defaultVelocity)]
  {
    ForceClosePrefixEmpty(v, pending, start, None, 0, p);
    ForceCloseNothingPending(v, pending, start, None, p + 1);
  }

  /** Slots below q that hold nothing contribute nothing. */
  lemma {:induction false} ForceClosePrefixEmpty(v: Vocab, pending: seq<Option<int>>, cursor: int, cutoff: Option<int>, p: nat, q: nat)
    requires p <= q < |pending|
    requires forall k :: p <= k < q ==> pending[k].None?
    ensures ForceClose(v, pending, cursor, cutoff, p) == ForceClose(v, pending, cursor, cutoff, q)
    decreases q - p
  {
    if p < q {
      ForceClosePrefixEmpty(v, pending, cursor, cutoff, p + 1, q);
    }
  }

  /** NOTE p, TIME 3, NOTE p from index 0 with velocity 0 yields exactly the
      note (0, 3, p) and leaves nothing pending. */
  lemma StrikeShiftRelease(v: Vocab, p: int)
    requires v.DistinctCodes()
    requires 0 <= p < v.sizeNote
    ensures DecodeSegment(v, [v.NoteBase() + p, v.TimeBase() + 3, v.NoteBase() + p], 0, None)
      == Ok([NoteEvent(0, 3, p, v.defaultVelocity)])
  {
    var ids := [v.NoteBase() + p, v.TimeBase() + 3, v.NoteBase() + p];
    StrikeShiftReleaseEmitted(v, p);
    DecodeSegmentOfSorted(v, ids, 0, None, [NoteEvent(0, 3, p, v.defaultVelocity)]);
  }

  /** The scan of NOTE p, TIME 3, NOTE p from index 0: the note (0, 3, p) is
      closed at the second strike, the velocity being 0 leaves nothing
      pending, and the cursor ends at 3. */
  lemma StrikeShiftReleaseScan(v: Vocab, p: int)
    requires v.DistinctCodes()
    requires 0 <= p < v.sizeNote
    ensures var st := Scan(v, [v.NoteBase() + p, v.TimeBase() + 3, v.NoteBase() + p], None, InitialState(v, 0)).value;
      && st.notes == [NoteEvent(0, 3, p, v.defaultVelocity)]
      && st.cursor == 3
      && forall k :: 0 <= k < |st.pending| ==> st.pending[k].None?
  {
    var note := v.NoteBase() + p;
    var shift := v.TimeBase() + 3;
    var init := InitialState(v, 0);
    DispatchOfDecoded(v, note, 0);
    DispatchOfDecoded(v, shift, 0);
    var s1 := TokenNoteToNote(v, p, init);
    var s2 := s1.(cursor := 3);
    var s3 := TokenNoteToNote(v, p, s2);
    assert StepToken(v, note, None, init) == Continue(s1);
    assert StepToken(v, shift, None, s1) == Continue(s2);
    assert StepToken(v, note, None, s2) == Continue(s3);
    assert Scan(v, [note], None, s2) == Ok(s3) by {
      assert [note][1..] == [];
    }
    assert Scan(v, [shift, note], None, s1) == Ok(s3) by {
      assert [shift, note][1..] == [note];
    }
    assert [note, shift, note][1..] == [shift, note];
  }

  lemma StrikeShiftReleaseEmitted(v: Vocab, p: int)
    requires v.DistinctCodes()
    requires 0 <= p < v.sizeNote
    ensures Emitted(v, [v.NoteBase() + p, v.TimeBase() + 3, v.NoteBase() + p], 0, None)
      == Ok([NoteEvent(0, 3, p, v.defaultVelocity)])
  {
    var ids := [v.NoteBase() + p, v.TimeBase() + 3, v.NoteBase() + p];
    var st := Scan(v, ids, None, InitialState(v, 0)).value;
    StrikeShiftReleaseScan(v, p);
    assert ids[0] < v.VocabSize() && ScannedIds(v, ids) == ids;
    EmittedIsScanThenForceClose(v, ids, 0, None);
    ForceCloseNothingPending(v, st.pending, st.cursor, None, 0);
    assert st.notes + [] == st.notes;
  }
}
