/** The token codec of the Pop2Piano tokenizer. A flat token id is split into
    four contiguous ranges: SPECIAL [0, S), NOTE [S, S+N), VELOCITY [S+N, S+N+V)
    and TIME [S+N+V, ...). Decoding yields the vocabulary's type code for the
    range together with the offset of the id inside it. */
module Codec {
  import opened Outcomes

  /** The four token ranges. */
  datatype TokenType = Special | Note | Velocity | Time

  /** The vocabulary configuration: the four range sizes, the integer codes the
      vocabulary assigns to the four token types, the velocity given to every
      decoded note, and the number of bars per generated row. */
  datatype Vocab = Vocab(
    sizeSpecial: nat,
    sizeNote: nat,
    sizeVelocity: nat,
    sizeTime: nat,
    codeSpecial: int,
    codeNote: int,
    codeVelocity: int,
    codeTime: int,
    defaultVelocity: int,
    numBars: nat)
  {
    function NoteBase(): int { sizeSpecial }

    function VelocityBase(): int { sizeSpecial + sizeNote }

    function TimeBase(): int { sizeSpecial + sizeNote + sizeVelocity }

    /** One past the last TIME id; a leading id at or above it is dropped. */
    function VocabSize(): int { sizeSpecial + sizeNote + sizeVelocity + sizeTime }

    function Code(k: TokenType): int {
      match k
      case Special => codeSpecial
      case Note => codeNote
      case Velocity => codeVelocity
      case Time => codeTime
    }

    predicate DistinctCodes() {
      && codeSpecial != codeNote && codeSpecial != codeVelocity && codeSpecial != codeTime
      && codeNote != codeVelocity && codeNote != codeTime
      && codeVelocity != codeTime
    }

    predicate IsTypeCode(c: int) {
      c == codeSpecial || c == codeNote || c == codeVelocity || c == codeTime
    }
  }

  /** The half-open range of ids belonging to each token type. SPECIAL has no
      lower bound and TIME no upper bound. */
  predicate InRange(v: Vocab, id: int, k: TokenType) {
    match k
    case Special => id < v.NoteBase()
    case Note => v.NoteBase() <= id < v.VelocityBase()
    case Velocity => v.VelocityBase() <= id < v.TimeBase()
    case Time => v.TimeBase() <= id
  }

  /** Values an encoder may be asked to place in each range. */
  predicate ValueFits(v: Vocab, k: TokenType, value: int) {
    match k
    case Special => value < v.sizeSpecial
    case Note => 0 <= value < v.sizeNote
    case Velocity => 0 <= value < v.sizeVelocity
    case Time => 0 <= value
  }

  /** The range an id falls in, comparing against the boundaries from TIME
      downwards: every id lies in exactly one range, an id on a boundary goes
      to the higher range. */
  function RangeOf(v: Vocab, id: int): (k: TokenType)
    ensures InRange(v, id, k)
    ensures forall k' :: InRange(v, id, k') ==> k' == k
  {
    if id >= v.TimeBase() then Time
    else if id >= v.VelocityBase() then Velocity
    else if id >= v.NoteBase() then Note
    else Special
  }

  /** A decoded token: the vocabulary's type code and the value. */
  datatype Word = Word(code: int, value: int)

  /** Id to (type code, value). `timeOffset` is added to TIME values only. */
  function ConvertIdToToken(v: Vocab, id: int, timeOffset: int): (w: Word)
    ensures w.code == v.Code(RangeOf(v, id))
    ensures RangeOf(v, id) == Special ==> w.value == id
    ensures RangeOf(v, id) == Note ==> 0 <= w.value < v.sizeNote
    ensures RangeOf(v, id) == Velocity ==> 0 <= w.value < v.sizeVelocity
    ensures RangeOf(v, id) == Time ==> w.value >= timeOffset
  {
    if id >= v.TimeBase() then Word(v.codeTime, id - v.TimeBase() + timeOffset)
    else if id >= v.VelocityBase() then Word(v.codeVelocity, id - v.VelocityBase())
    else if id >= v.NoteBase() then Word(v.codeNote, id - v.NoteBase())
    else Word(v.codeSpecial, id)
  }

  /** (value, type code) to id; -1 for a code that names no token type. */
  function ConvertTokenToId(v: Vocab, value: int, typeCode: int): (id: int)
    ensures !v.IsTypeCode(typeCode) ==> id == -1
    ensures v.DistinctCodes() && typeCode == v.codeNote && 0 <= value < v.sizeNote ==> InRange(v, id, Note)
    ensures v.DistinctCodes() && typeCode == v.codeVelocity && 0 <= value < v.sizeVelocity ==> InRange(v, id, Velocity)
    ensures typeCode == v.codeTime && 0 <= value ==> InRange(v, id, Time)
    ensures v.DistinctCodes() && typeCode == v.codeSpecial ==> id == value
  {
    if typeCode == v.codeTime then v.TimeBase() + value
    else if typeCode == v.codeVelocity then v.VelocityBase() + value
    else if typeCode == v.codeNote then v.NoteBase() + value
    else if typeCode == v.codeSpecial then value
    else -1
  }

  /** Encoding an in-range value and decoding it again gives back the type
      code and the value, for each of the four types. */
  lemma DecodeEncodeRoundTrip(v: Vocab, k: TokenType, value: int)
    requires v.DistinctCodes()
    requires ValueFits(v, k, value)
    ensures ConvertIdToToken(v, ConvertTokenToId(v, value, v.Code(k)), 0) == Word(v.Code(k), value)
  {
  }

  /** Decoding any id (negative and out-of-vocabulary ids included) and
      encoding the result gives back the id. */
  lemma EncodeDecodeRoundTrip(v: Vocab, id: int)
    requires v.DistinctCodes()
    ensures var w := ConvertIdToToken(v, id, 0); ConvertTokenToId(v, w.value, w.code) == id
  {
  }

  /** The time offset shifts TIME values and leaves every other token alone. */
  lemma TimeOffsetOnlyShiftsTime(v: Vocab, id: int, timeOffset: int)
    ensures RangeOf(v, id) == Time ==>
      ConvertIdToToken(v, id, timeOffset) == Word(v.codeTime, ConvertIdToToken(v, id, 0).value + timeOffset)
    ensures RangeOf(v, id) != Time ==> ConvertIdToToken(v, id, timeOffset) == ConvertIdToToken(v, id, 0)
  {
  }

  /** The decoder's dispatch: compares a code against SPECIAL, TIME, VELOCITY
      and NOTE in that order; None is the "token type not understood" case. */
  function Classify(v: Vocab, code: int): (k: Option<TokenType>)
    ensures k.Some? ==> v.Code(k.value) == code
    ensures k.None? <==> !v.IsTypeCode(code)
  {
    if code == v.codeSpecial then Some(Special)
    else if code == v.codeTime then Some(Time)
    else if code == v.codeVelocity then Some(Velocity)
    else if code == v.codeNote then Some(Note)
    else None
  }

  /** Every decoded token is dispatched somewhere, and with distinct type codes
      it is dispatched to the range its id lies in. */
  lemma DispatchOfDecoded(v: Vocab, id: int, timeOffset: int)
    ensures Classify(v, ConvertIdToToken(v, id, timeOffset).code).Some?
    ensures v.DistinctCodes() ==> Classify(v, ConvertIdToToken(v, id, timeOffset).code) == Some(RangeOf(v, id))
  {
  }

  /** Whatever the codes, a token dispatched as NOTE carries a pitch in
      [0, N) and one dispatched as TIME a non-negative shift (with offset 0). */
  lemma DispatchedValueBounds(v: Vocab, id: int)
    ensures var w := ConvertIdToToken(v, id, 0);
      (Classify(v, w.code) == Some(Note) ==> 0 <= w.value < v.sizeNote)
      && (Classify(v, w.code) == Some(Time) ==> 0 <= w.value)
  {
  }
}
