/** `LaunchpadRouter` of relaunch/launchpad_router.h and .cpp: a 90-entry
    table maps the note codes of the pad grid to pad indices, each pad index
    selects a destination (channel, note, velocity), and `send` forwards Note
    On and Note Off to every output through the pressed pad's destination.
    The `std::function` outputs are modelled as identifiers, and `send` as the
    sequence of calls they receive. */
module Launchpad {
  import opened Optional
  import opened Midi

  const LookupSize: int := 90

  /** Entries of the `destinations` array. */
  const DestinationCount: int := 65

  /** The table value for unmapped codes, as written. */
  const NaAsWritten: int := 65

  /** The value the 65-entry array evidently intends: its last slot, the one
      past the 64 pads. */
  const Na: int := 64

  /** The lookup table, one row of ten per tens digit of the code, with `na`
      for the codes that name no pad. */
  function Table(na: int): (t: seq<int>)
    ensures |t| == LookupSize
  {
    [na, na, na, na, na,  na, na, na, na, na] +  // 00
    [na, 56, 57, 58, 59,  60, 61, 62, 63, na] +  // 10
    [na, 48, 49, 50, 51,  52, 53, 54, 55, na] +  // 20
    [na, 40, 41, 42, 43,  44, 45, 46, 47, na] +  // 30
    [na, 32, 33, 34, 35,  36, 37, 38, 39, na] +  // 40
    [na, 24, 25, 26, 27,  28, 29, 30, 31, na] +  // 50
    [na, 16, 17, 18, 19,  20, 21, 22, 23, na] +  // 60
    [na,  8,  9, 10, 11,  12, 13, 14, 15, na] +  // 70
    [na,  0,  1,  2,  3,   4,  5,  6,  7, na]    // 80
  }

  /** `static_cast<unsigned char>(note)`. */
  function Code(note: Note): (c: int)
    ensures 0 <= c < 256
    ensures note >= 0 ==> c == note
    ensures note < 0 ==> c == note + 256
  {
    if note < 0 then note + 256 else note
  }

  /** Codes on the pad grid: tens digit (row, counted from the bottom) and
      units digit (column, counted from the left) both in 1..8. */
  predicate OnGrid(code: int)
  {
    0 <= code && 1 <= code / 10 <= 8 && 1 <= code % 10 <= 8
  }

  /** The pad index of a grid code: rows are numbered from the top, eight pads
      per row. */
  function GridIndex(code: int): int
  {
    8 * (8 - code / 10) + (code % 10 - 1)
  }

  /** The table holds `GridIndex` at every grid code and `na` everywhere else. */
  lemma {:induction false} TableClosedForm(na: int, code: int)
    requires 0 <= code < LookupSize
    ensures Table(na)[code] == if OnGrid(code) then GridIndex(code) else na
  {
    TableEntries(na, code);
  }

  lemma {:induction false} TableEntries(na: int, code: int)
    requires 0 <= code < 90
    ensures Table(na)[code] == if 1 <= code / 10 <= 8 && 1 <= code % 10 <= 8 then 8 * (8 - code / 10) + (code % 10 - 1) else na
  {
    // the codes one by one, a row of the table at a time, so that each entry
    // is read at a known index
    var t := code / 10;
    if t == 0 {
      assert code == 0 || code == 1 || code == 2 || code == 3 || code == 4 || code == 5 || code == 6 || code == 7 || code == 8 || code == 9;
    } else if t == 1 {
      assert code == 10 || code == 11 || code == 12 || code == 13 || code == 14 || code == 15 || code == 16 || code == 17 || code == 18 || code == 19;
    } else if t == 2 {
      assert code == 20 || code == 21 || code == 22 || code == 23 || code == 24 || code == 25 || code == 26 || code == 27 || code == 28 || code == 29;
    } else if t == 3 {
      assert code == 30 || code == 31 || code == 32 || code == 33 || code == 34 || code == 35 || code == 36 || code == 37 || code == 38 || code == 39;
    } else if t == 4 {
      assert code == 40 || code == 41 || code == 42 || code == 43 || code == 44 || code == 45 || code == 46 || code == 47 || code == 48 || code == 49;
    } else if t == 5 {
      assert code == 50 || code == 51 || code == 52 || code == 53 || code == 54 || code == 55 || code == 56 || code == 57 || code == 58 || code == 59;
    } else if t == 6 {
      assert code == 60 || code == 61 || code == 62 || code == 63 || code == 64 || code == 65 || code == 66 || code == 67 || code == 68 || code == 69;
    } else if t == 7 {
      assert code == 70 || code == 71 || code == 72 || code == 73 || code == 74 || code == 75 || code == 76 || code == 77 || code == 78 || code == 79;
    } else if t == 8 {
      assert code == 80 || code == 81 || code == 82 || code == 83 || code == 84 || code == 85 || code == 86 || code == 87 || code == 88 || code == 89;
    }
  }

  /** `_index(Note)` with the given value for unmapped notes: codes at or past
      the table's end, which include every negative `char`, give `na`. */
  function IndexOf(note: Note, na: int): (i: int)
    ensures OnGrid(Code(note)) ==> i == GridIndex(Code(note)) && 0 <= i < 64
    ensures !OnGrid(Code(note)) ==> i == na
    ensures note < 0 ==> i == na
  {
    var code := Code(note);
    if code >= LookupSize then na
    else
      TableClosedForm(na, code);
      Table(na)[code]
  }

  /** Distinct grid codes name distinct pads. */
  lemma GridInjective(n1: Note, n2: Note)
    requires OnGrid(Code(n1)) && OnGrid(Code(n2))
    requires IndexOf(n1, Na) == IndexOf(n2, Na)
    ensures n1 == n2
  {
    var c1, c2 := Code(n1), Code(n2);
    assert c1 == 10 * (c1 / 10) + c1 % 10 && c2 == 10 * (c2 / 10) + c2 % 10;
    assert 8 * (8 - c1 / 10) + (c1 % 10 - 1) == 8 * (8 - c2 / 10) + (c2 % 10 - 1);
    assert c1 / 10 == c2 / 10;
  }

  /** Every pad has a grid code: the 64 grid codes cover 0..63. */
  lemma GridCovers(pad: int)
    requires 0 <= pad < 64
    ensures var code := 10 * (8 - pad / 8) + pad % 8 + 1;
      -128 <= code < 128 && OnGrid(code) && IndexOf(code, Na) == pad
  {
    var code := 10 * (8 - pad / 8) + pad % 8 + 1;
    assert code / 10 == 8 - pad / 8 && code % 10 == pad % 8 + 1;
  }

  /** `_index(row, column)`: row-major, eight pads per row; the member asserts
      that both lie in 0..7. */
  function PadIndex(row: int, column: int): (i: int)
    requires 0 <= row < 8 && 0 <= column < 8
    ensures 0 <= i < 64
    ensures i / 8 == row && i % 8 == column
  {
    column + 8 * row
  }

  /** Pad (row, column), counted from the top left, and the note code
      `10 * (8 - row) + column + 1` the device sends for it select the same
      destination. */
  lemma PadAndNoteAgree(row: int, column: int)
    requires 0 <= row < 8 && 0 <= column < 8
    ensures var code := 10 * (8 - row) + column + 1;
      -128 <= code < 128 && OnGrid(code) && IndexOf(code, Na) == PadIndex(row, column)
  {
    var code := 10 * (8 - row) + column + 1;
    assert code / 10 == 8 - row && code % 10 == column + 1;
  }

  /** Where a pad's message goes. */
  datatype Destination = Destination(channel: Channel, note: Note, velocity: real)

  /** A default-constructed destination: no channel, middle C, full velocity. */
  function DefaultDestination(): (d: Destination)
    ensures d.channel == ChannelNone && d.note == 60 && d.velocity == 1.0
  {
    Destination(ChannelNone, NoteAt(C, 4), 1.0)
  }

  /** The router: its destination array and its outputs, in order. */
  datatype Router = Router(destinations: seq<Destination>, outputs: seq<nat>)

  /** `destinations` is an array of exactly 65 entries. */
  predicate Valid(r: Router)
  {
    |r.destinations| == DestinationCount
  }

  /** `destination(note)` as written: the table sends unmapped notes to index
      65, one past the end of the array. */
  function DestinationAsWritten(r: Router, note: Note): (d: Behaviour<Destination>)
    requires Valid(r)
    ensures d.Undefined? <==> !OnGrid(Code(note))
    ensures d.Defined? ==> d.value == r.destinations[GridIndex(Code(note))]
  {
    var i := IndexOf(note, NaAsWritten);
    if i < |r.destinations| then Defined(r.destinations[i]) else Undefined
  }

  /** `destination(note)` with unmapped notes sent to the array's spare last slot. */
  function DestinationOf(r: Router, note: Note): (d: Destination)
    requires Valid(r)
    ensures OnGrid(Code(note)) ==> d == r.destinations[GridIndex(Code(note))]
    ensures !OnGrid(Code(note)) ==> d == r.destinations[DestinationCount - 1]
  {
    r.destinations[IndexOf(note, Na)]
  }

  /** `destination(row, column)`: the same slot the note accessor reaches for
      the note code the device sends for that pad. */
  function PadDestination(r: Router, row: int, column: int): (d: Destination)
    requires Valid(r)
    requires 0 <= row < 8 && 0 <= column < 8
    ensures -128 <= 10 * (8 - row) + column + 1 < 128
    ensures d == DestinationOf(r, 10 * (8 - row) + column + 1)
  {
    PadAndNoteAgree(row, column);
    r.destinations[PadIndex(row, column)]
  }

  /** One invocation of an output. */
  datatype Call = Call(output: nat, status: Status, channel: Channel, note: Note, velocity: real)

  /** The calls `send` makes through destination `d`: every output in order,
      with `d`'s channel, note and velocity, unless `d` has no channel. */
  function Forward(outputs: seq<nat>, status: Status, d: Destination): (calls: seq<Call>)
    ensures d.channel == ChannelNone ==> calls == []
    ensures d.channel != ChannelNone ==> |calls| == |outputs|
    ensures forall i :: 0 <= i < |calls| ==>
      calls[i] == Call(outputs[i], status, d.channel, d.note, d.velocity)
  {
    if d.channel == ChannelNone then []
    else seq(|outputs|, i requires 0 <= i < |outputs| => Call(outputs[i], status, d.channel, d.note, d.velocity))
  }

  predicate IsNote(status: Status)
  {
    status == NoteOff || status == NoteOn
  }

  /** `send` as written: for a Note On or Note Off from an unmapped note it
      reads past the end of `destinations`. */
  function SendAsWritten(r: Router, status: Status, note: Note): (calls: Behaviour<seq<Call>>)
    requires Valid(r)
    ensures !IsNote(status) ==> calls == Defined([])
    ensures calls.Undefined? <==> IsNote(status) && !OnGrid(Code(note))
    ensures calls.Defined? && IsNote(status) ==>
      calls.value == Forward(r.outputs, status, r.destinations[GridIndex(Code(note))])
  {
    if !IsNote(status) then Defined([])
    else match DestinationAsWritten(r, note)
      case Defined(d) => Defined(Forward(r.outputs, status, d))
      case Undefined => Undefined
  }

  /** `send` with the spare slot for unmapped notes: only Note On and Note Off
      are forwarded, through the note's destination. */
  function Send(r: Router, status: Status, note: Note): (calls: seq<Call>)
    requires Valid(r)
    ensures !IsNote(status) ==> calls == []
    ensures IsNote(status) ==> calls == Forward(r.outputs, status, DestinationOf(r, note))
  {
    if IsNote(status) then Forward(r.outputs, status, DestinationOf(r, note)) else []
  }

  /** The defect: a Note On from the unmapped note 0 reads destination 65 of a
      65-entry array. */
  lemma UnmappedNoteReadsPastEnd(r: Router)
    requires Valid(r)
    ensures SendAsWritten(r, NoteOn, 0).Undefined?
    ensures SendAsWritten(r, NoteOff, -1).Undefined?
  {
  }

  /** The corrected `send` agrees with the original wherever the original stays
      in bounds, and the original leaves the bounds exactly for Note On and
      Note Off from notes off the grid. */
  lemma SendAgreesOnGrid(r: Router, status: Status, note: Note)
    requires Valid(r)
    ensures SendAsWritten(r, status, note).Defined? ==> SendAsWritten(r, status, note).value == Send(r, status, note)
    ensures SendAsWritten(r, status, note).Undefined? <==> IsNote(status) && !OnGrid(Code(note))
  {
  }

  /** A freshly constructed router forwards nothing: every destination,
      including the spare one unmapped notes reach, has no channel. */
  lemma FreshRouterIsSilent(outputs: seq<nat>, status: Status, note: Note)
    ensures Send(Router(seq(DestinationCount, _ => DefaultDestination()), outputs), status, note) == []
  {
  }

  /** Pressing pad (row, column) sends, to every output in order, the message
      configured for that pad. */
  lemma SendThroughPad(r: Router, status: Status, row: int, column: int)
    requires Valid(r) && IsNote(status)
    requires 0 <= row < 8 && 0 <= column < 8
    requires PadDestination(r, row, column).channel != ChannelNone
    ensures var d := PadDestination(r, row, column);
      var calls := Send(r, status, 10 * (8 - row) + column + 1);
      |calls| == |r.outputs| &&
      forall i :: 0 <= i < |calls| ==> calls[i] == Call(r.outputs[i], status, d.channel, d.note, d.velocity)
  {
    PadAndNoteAgree(row, column);
  }
}
