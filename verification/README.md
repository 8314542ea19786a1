# oui / relaunch core in Dafny

A model of the pure parts of the `oui` immediate-mode GUI layer and the
`relaunch` demo:

- **Layout** — the rectangle algebra: `Point::in` (half-open containment),
  `popLeft` / `popRight` / `popTop` / `popBottom` in their `float` and `Ratio`
  overloads, and both `shrink` overloads. The mutating `pop*` members are pure
  functions returning the popped strip and the remainder. The older copy in
  `relaunch/oui.h` is the same code, line for line, and is modelled by the
  same definitions.
- **Gestures** — the `Pointer` state machine of `oui/include/oui.h`: the events
  `move`, `press`, `longPress` and `release`, the end-of-frame `takeAll`, the
  queries `hovering` and `holding`, and the consuming queries `dragging`,
  `pressed` and `longPressed`. Consuming queries return the answer and the
  next state. Time is an explicit `real` argument in seconds.
- **LegacyGestures** — the older, field-based `Pointer` of `relaunch/oui.h`,
  whose `holding` also requires the current position to be in the area, and
  lemmas comparing it with the newer one.
- **Utf8** — `popCodepoint`, decoding one code point in the bit layout of
  RFC 3629 section 3. `Utf8.DecodeEncode` proves that it inverts an independent
  RFC 3629 encoder, and the decoding loop that feeds the glyph renderer is modelled as a method.
- **Glyphs** — the UTF-16 surrogate split of RFC 2781 section 2.1 and the
  round-up of a glyph width to a multiple of 4 inside `Font::_init_glyph`.
- **Midi** and **Launchpad** — the `midi` channel and note helpers, the
  90-entry note-to-pad table, pad indices, destinations and `send`. The
  outputs are modelled as the sequence of calls they receive.
- **Optional** — `std::optional`, the consuming `pop<T>` helper, and `Behaviour`,
  the outcome of an expression that may be undefined behaviour (a read through
  an empty optional or past the end of an array).

Coordinates, durations and velocities are `real`. Bytes, `char` and `int` are
integers, and their conversions and wrap-around are written out.

The model follows the code as written. In three places the code's text and
its evident intent differ. Each is modelled both ways, as written and
corrected, and listed under "## Findings":

- `shrink(float)` builds a trimmed copy and then returns the receiver unchanged.
- `holding` reads the current position without checking that it exists.
  `dragging`, `pressed` and `longPressed` all start from `holding`, so they
  inherit the unchecked read. The queries the rest of the model uses are built
  on the guarded `holding`. `Gestures.QueriesAgreeWhereDefined` shows that they
  equal the as-written queries wherever those are defined.
- The router's table value for unmapped notes, 65, indexes one past the end
  of its 65-entry destination array.

`shrink(Ratio)` collapses the rectangle to its center at ratio 1/2. At ratio 1
it swaps the corners. The model keeps that behaviour as the code computes it.

## Model

| member | source | states |
|---|---|---|
| Optional.Pop | oui/include/oui.h:170-176 | the slot is left empty and exactly what it held is returned |
| Optional.PopTwiceYieldsNothing | oui/include/oui.h:170-176 | a second pop of the same slot yields nothing and leaves it empty, so a popped value is reported once |
| Optional.ValueOr | oui/include/oui.h:197 | `value_or`: the held value when the optional is engaged, the fallback otherwise |
| Layout.Min | oui/include/oui.h:9 | `oui::min` yields one of its operands, and no operand lies below the result |
| Layout.Max | oui/include/oui.h:11 | `oui::max` yields one of its operands, and no operand lies above the result |
| Layout.Plus | oui/include/oui.h:59 | `Vector + Vector`, componentwise; its algebra is stated by Layout.DisplacementsAdd |
| Layout.Diff | oui/include/oui.h:83 | `Point - Point` is the displacement that carries the second point onto the first |
| Layout.DisplacementsAdd | oui/include/oui.h:83 | zero is neutral, addition commutes, and consecutive displacements add up to the end-to-end one |
| Layout.In | oui/include/oui.h:155-160 | the point is inside exactly when min <= p < max on both axes; the edge behaviour is stated by Layout.InIsHalfOpen |
| Layout.InIsHalfOpen | oui/include/oui.h:155-160 | a non-empty rectangle holds its min corner, never a point on its max edges, and two rectangles meeting along an edge never both hold a point |
| Layout.PopLeft | oui/include/oui.h:97-103 | strip width is min(dx, width); strip and remainder share the inner edge; widths sum to the original; heights unchanged; remainder width never negative |
| Layout.PopRight | oui/include/oui.h:104-110 | the same for the right edge |
| Layout.PopTop | oui/include/oui.h:112-118 | the same on the vertical axis for the top edge |
| Layout.PopBottom | oui/include/oui.h:119-125 | the same for the bottom edge |
| Layout.PopLeftRatio | oui/include/oui.h:127 | popLeft(Ratio) pops width*f through popLeft(float); its exact strip is stated by Layout.PopRatioTakesFraction |
| Layout.PopRightRatio | oui/include/oui.h:128 | popRight(Ratio) pops width*f through popRight(float) |
| Layout.PopTopRatio | oui/include/oui.h:129 | popTop(Ratio) pops height*f through popTop(float) |
| Layout.PopBottomRatio | oui/include/oui.h:130 | popBottom(Ratio) pops height*f through popBottom(float) |
| Layout.PopRatioTakesFraction | oui/include/oui.h:127-130 | for a well-formed rectangle and a ratio in [0,1], the strip is exactly extent*f, the remainder extent*(1-f), and ratio 1/2 gives half the width |
| Layout.PopWholeWidth | oui/include/oui.h:97-103 | popping the whole width returns the original rectangle and leaves a zero-width remainder |
| Layout.PopTiles | relaunch/oui.h:64-92 | for a non-negative amount, every point of the rectangle lies in exactly one of strip and remainder, and no outside point lies in either (same code as oui/include/oui.h:97-125) |
| Layout.PopNegativeGrows | oui/include/oui.h:97-103 | a negative amount is not clamped from below: the strip is inverted and the remainder grows |
| Layout.ShrinkTrimAsWritten | oui/include/oui.h:132-144 | as written, shrink(float) returns the receiver unchanged whatever the trim |
| Layout.ShrinkTrimAsWrittenIgnoresTrim | oui/include/oui.h:132-144 | as written, shrink(float) returns the receiver for every trim; a 10-wide square stays 10 wide where 8 is intended |
| Layout.ShrinkTrim | relaunch/oui.h:99-111 | the intended shrink(float): result well-formed, center kept, extent reduced by 2*trim or collapsed to zero when the insets cross |
| Layout.ClampUnit | oui/include/oui.h:147 | the ratio is clamped into [0,1] and left alone inside it |
| Layout.ShrinkRatio | oui/include/oui.h:145-151 | center kept; each extent becomes extent*(1-2f) for the clamped f |
| Layout.ShrinkRatioPastHalfInverts | relaunch/oui.h:112-118 | ratio 1/2 collapses to the center, ratio 1 or more swaps the corners, and any ratio above 1/2 inverts a rectangle of positive width |
| Gestures.Move | oui/include/oui.h:194-199 | the new position always becomes current; the displacement from the old position is added to the pending delta only when there was one; the button is untouched |
| Gestures.MovesTelescope | oui/include/oui.h:194-199 | from a state with a known position, any sequence of moves adds exactly last minus old position to the pending delta |
| Gestures.MovesFromInitial | oui/include/oui.h:194-199 | from the initial state, moves through p0..pn leave delta pn - p0, and no delta after a single move |
| Gestures.Hovering | oui/include/oui.h:223 | a current position exists and lies in the area; Gestures.HoveringFollowsMove ties it to move |
| Gestures.HoveringFollowsMove | oui/include/oui.h:223 | after a move, hovering holds exactly for the areas containing the new position |
| Gestures.Press | oui/include/oui.h:200-203 | a new still-held cycle replaces any outstanding one; position and delta unchanged |
| Gestures.LongPress | oui/include/oui.h:204-207 | the same, with the press time set one second before now |
| Gestures.Release | oui/include/oui.h:208-212 | with no cycle nothing changes; otherwise the press is kept and the release recorded |
| Gestures.TakeAll | oui/include/oui.h:214-220 | delta always emptied; the button is cleared exactly when it is absent or completed; a held press survives |
| Gestures.TakeAllKeepsHeldPress | oui/include/oui.h:214-220 | the reset is idempotent, a held press still holds and still completes after it, and a completed cycle is gone |
| Gestures.HoldingAsWritten | oui/include/oui.h:224-229 | as written: undefined exactly when the press lies in the area and there is no current position; otherwise engaged exactly when the press lies in the area, with the current position |
| Gestures.PressBeforeMoveIsUndefined | oui/include/oui.h:224-229 | as written, holding after a press with no prior move reads an absent current position |
| Gestures.HoldingAgreesWhereDefined | oui/include/oui.h:224-229 | the guarded holding equals the original wherever the original is defined, and the original is undefined exactly when current is absent and the press is in the area |
| Gestures.Holding | oui/include/oui.h:224-229 | some exactly when a position is known and the press position lies in the area; the value is the current position |
| Gestures.HoldingSurvivesMoves | oui/include/oui.h:224-229 | after a press inside the area, holding reports the latest position however far the pointer moves |
| Gestures.Dragging | oui/include/oui.h:230-235 | while held, returns the pending delta and empties it; otherwise returns nothing and changes nothing |
| Gestures.DraggingConsumesOnce | oui/include/oui.h:230-235 | a second dragging call with no move in between returns nothing |
| Gestures.Duration | oui/include/oui.h:168 | `duration(t0, t1)`: the seconds that, added to the press time, give the release time |
| Gestures.Pressed | oui/include/oui.h:237-248 | fires exactly when held, released, release in the area and duration under 1 s; on success returns the release position and clears the button, otherwise the state is unchanged |
| Gestures.LongPressed | oui/include/oui.h:249-259 | the same conditions with duration of at least 1 s; clears the button on success only |
| Gestures.DraggingAsWritten | oui/include/oui.h:230-235 | dragging as written, on the unchecked holding; related to Gestures.Dragging by Gestures.QueriesAgreeWhereDefined |
| Gestures.PressedAsWritten | oui/include/oui.h:237-248 | pressed as written, on the unchecked holding |
| Gestures.LongPressedAsWritten | oui/include/oui.h:249-259 | longPressed as written, on the unchecked holding |
| Gestures.QueriesAgreeWhereDefined | oui/include/oui.h:230-259 | each as-written query is defined exactly where the unchecked holding is, and there it equals the query built on the guarded holding |
| Gestures.PressedAndLongPressedExclusive | oui/include/oui.h:237-259 | the two never both fire on one state, and after either fires the other (and a repeat) finds nothing |
| Gestures.LongPressIsNeverATap | oui/include/oui.h:204-207 | a long press released at a non-decreasing time is never a tap, and is a long press exactly when a position is known and both ends lie in the area |
| Gestures.PressReleaseCycle | oui/include/oui.h:237-259 | after press and release, pressed returns the release point exactly when both ends are in the area, a position is known and t1 - t0 < 1; longPressed exactly when t1 - t0 >= 1 |
| Gestures.ReleaseWithoutPressIsIgnored | oui/include/oui.h:208-212 | a release with no press changes nothing and leaves no click to report |
| LegacyGestures.Hovering | relaunch/oui.h:153 | a current position exists and lies in the area; it agrees with the newer hovering (LegacyGestures.HoldingIsNewerHoldingWhileHovering) |
| LegacyGestures.Holding | relaunch/oui.h:154-158 | hovering, and the press position lies in the area; related to the newer holding by LegacyGestures.HoldingIsNewerHoldingWhileHovering |
| LegacyGestures.Pressed | relaunch/oui.h:160-170 | fires exactly when the current position, press and release all lie in the area and the duration is under 1 s; clears the button on success, unchanged otherwise |
| LegacyGestures.LongPressed | relaunch/oui.h:171-181 | the same with duration of at least 1 s |
| LegacyGestures.HoldingIsNewerHoldingWhileHovering | relaunch/oui.h:153-158 | the two copies agree on hovering; the older holding is the newer one plus hovering, so it never reads an absent position |
| LegacyGestures.DragOutsideDiffers | relaunch/oui.h:154-158 | a press inside and a current position outside: the older copy is not holding, the newer one is |
| LegacyGestures.ClicksRefineNewer | relaunch/oui.h:160-181 | every click the older queries report, the newer ones report with the same next state; while hovering they agree exactly |
| LegacyGestures.PressedAndLongPressedExclusive | relaunch/oui.h:164-175 | for one cycle the older pressed and longPressed never both fire |
| Utf8.Continue | oui/src/oui_text.cpp:65-73 | the code never goes negative, stays below 2^21 when it starts within the headroom of the remaining bytes, and the rest is a suffix of the input |
| Utf8.PopCodepoint | oui/src/oui_text.cpp:38-75 | empty input gives 0 and consumes nothing; a lead byte below 0x80 is returned and one byte consumed; a lead in 0x80-0xBF throws; every value is below 2^21; at least one byte is consumed |
| Utf8.DecodesWholeSequence | oui/src/oui_text.cpp:45-74 | a lead with its full run of continuation bytes decodes to the lead payload (0xC0-0xDF: 5 bits, 0xE0-0xEF: 4, 0xF0-0xFF: 3) with six bits per continuation, consuming exactly the sequence length |
| Utf8.TruncatedSequenceYieldsZero | oui/src/oui_text.cpp:65-68 | a sequence cut off by the end of input yields 0 and consumes everything |
| Utf8.BrokenSequenceThrows | oui/src/oui_text.cpp:69-71 | a non-continuation byte inside the sequence throws |
| Utf8.DecodeEncode | oui/src/oui_text.cpp:45-74 | decoding the RFC 3629 encoding of any code point up to U+10FFFF returns it and consumes exactly its bytes |
| Utf8.AcceptsOverlong | oui/src/oui_text.cpp:55-59 | the overlong form C0 80 decodes to 0 |
| Utf8.AcceptsSurrogate | oui/src/oui_text.cpp:51-54 | the encoded surrogate ED A0 80 decodes to 0xD800 |
| Utf8.AcceptsLeadBeyondF7 | oui/src/oui_text.cpp:47-50 | FF BF BF BF decodes to 0x1FFFFF |
| Utf8.Codepoints | oui/src/oui_text.cpp:88-89 | the decoding loop stops on 0 or a throw, yields only values in 1..2^21-1, and on the encoding of non-zero code points yields exactly those code points |
| Glyphs.ToWchar | oui/src/oui_text.cpp:139 | conversion to a 16-bit unit yields a value in 0..0xFFFF congruent to the input modulo 2^16, so values below 0x10000 are kept |
| Glyphs.Utf16Units | oui/src/oui_text.cpp:139-145 | one unit below 0x10000, two from 0x10000 up, each a 16-bit value |
| Glyphs.SplitIsSurrogatePair | oui/src/oui_text.cpp:139-145 | for U+10000..U+10FFFF the units are a high and a low surrogate that combine back to the code point; below that, one unit equal to it |
| Glyphs.CombineThenSplit | oui/src/oui_text.cpp:139-145 | every surrogate pair is the split of the code point it combines to |
| Glyphs.BeyondUnicodeIsNotAPair | oui/src/oui_text.cpp:140-143 | above U+10FFFF the first unit is not a high surrogate |
| Glyphs.WidthCeil | oui/src/oui_text.cpp:154 | the result is a multiple of 4 within [width, width + 4) |
| Glyphs.WidthCeilIsLeastMultiple | oui/src/oui_text.cpp:154 | for a non-negative width it is the least multiple of 4 not below it |
| Midi.ToChar | relaunch/launchpad_router.h:32 | conversion to char is the identity on char values and otherwise agrees modulo 256 |
| Midi.ChannelOf | relaunch/launchpad_router.h:23 | channel(i) is i - 1, so for i in 1..16 it lies in 0..15 and is never None |
| Midi.ChannelsDistinct | relaunch/launchpad_router.h:21-23 | distinct channel numbers give distinct channels |
| Midi.NoteAt | relaunch/launchpad_router.h:32 | the note is zero + 12*octave when that fits a char, and otherwise agrees with it modulo 256 |
| Midi.NotesInRange | relaunch/launchpad_router.h:31-37 | the k-th generator at octave 0..8 gives 12 + k + 12*octave, within 12..119 |
| Midi.NotesDistinct | relaunch/launchpad_router.h:31-37 | distinct (generator, octave) pairs in that range give distinct notes |
| Midi.MiddleCAndWrap | relaunch/launchpad_router.h:32-36 | C[4] is 60, and B[9] wraps to a negative char |
| Launchpad.Code | relaunch/launchpad_router.cpp:21 | the unsigned char cast keeps non-negative notes and sends a negative note n to n + 256 |
| Launchpad.Table | relaunch/launchpad_router.cpp:11-19 | the 90-entry lookup table, transcribed row by row; its values are stated by Launchpad.TableClosedForm |
| Launchpad.TableClosedForm | relaunch/launchpad_router.cpp:9-20 | the table holds 8*(8-r)+(c-1) at code 10r+c for r, c in 1..8 and na at every other code |
| Launchpad.IndexOf | relaunch/launchpad_router.cpp:5-23 | grid codes map to their pad index in 0..63; every other code, including those at or past 90 and all negative notes, maps to na |
| Launchpad.GridInjective | relaunch/launchpad_router.cpp:9-22 | distinct grid codes map to distinct pads |
| Launchpad.GridCovers | relaunch/launchpad_router.cpp:9-22 | every pad in 0..63 is the image of a grid code |
| Launchpad.PadIndex | relaunch/launchpad_router.h:43-47 | the pad index lies in 0..63 and recovers row and column, so it is injective |
| Launchpad.PadAndNoteAgree | relaunch/launchpad_router.h:43-47 | pad (row, column) and note code 10*(8-row)+column+1 select the same destination |
| Launchpad.DefaultDestination | relaunch/launchpad_router.h:51-56 | a default destination has no channel, note 60 and velocity 1 |
| Launchpad.DestinationAsWritten | relaunch/launchpad_router.h:61 | as written, destination(note) is out of bounds exactly for notes off the grid, and otherwise reads that pad's entry |
| Launchpad.SendAsWritten | relaunch/launchpad_router.cpp:25-41 | as written: nothing for statuses other than Note On/Off; undefined exactly for Note On/Off off the grid; otherwise forwarded through the pad's entry |
| Launchpad.DestinationOf | relaunch/launchpad_router.h:61-62 | corrected destination(note): a grid note reads its pad's entry, any other note the spare last entry |
| Launchpad.PadDestination | relaunch/launchpad_router.h:63-64 | destination(row, column) is the entry that destination(note) reads for the note code 10*(8-row)+column+1 of that pad |
| Launchpad.Forward | relaunch/launchpad_router.cpp:33-35 | no calls when the destination has no channel; otherwise one call per output, in order, with the destination's channel, note and velocity |
| Launchpad.Send | relaunch/launchpad_router.cpp:25-41 | statuses other than Note On and Note Off produce no calls; those two are forwarded through the note's destination |
| Launchpad.UnmappedNoteReadsPastEnd | relaunch/launchpad_router.cpp:8 | as written, Note On from note 0 and Note Off from note -1 read past the end of the 65-entry array |
| Launchpad.SendAgreesOnGrid | relaunch/launchpad_router.cpp:25-41 | the corrected send agrees with the original wherever the original stays in bounds, and the original leaves the bounds exactly for Note On/Off off the grid |
| Launchpad.FreshRouterIsSilent | relaunch/launchpad_router.h:51-58 | a router with default destinations sends nothing for any status and note |
| Launchpad.SendThroughPad | relaunch/launchpad_router.h:63-64 | pressing pad (row, column) sends that pad's configured message to every output in order |

## Left out

- Win32 windowing and the message pump (`oui/src/oui_window.cpp`, `relaunch/window.cpp`) are platform I/O. They feed the pointer as follows: left button down calls `press`, right button down calls `longPress`, and either button up calls `release` (oui/src/oui_window.cpp:61-76).
- OpenGL and GDI drawing are foreign calls and are not modelled. This covers `fill`, `Font::drawText` except its decoding loop, `_draw_glyph`, and the rasterisation in `_init_glyph`. `_next_offset` is never initialised there. `DrawTextW` is passed a length of 1, so a supplementary character is drawn from its high surrogate alone.
- `Color` arithmetic, vector scaling, `dot`, `cross`, `angle` and DPI are float-only helpers outside the core. Note that `Vector operator-` adds (oui/include/oui.h:60); nothing in the core uses it.
- Float rounding of coordinates and the `high_resolution_clock` / `duration<float>` conversion are not modelled. Times and positions are exact reals, and `now()` is an explicit argument.
- Debug printing (`oui/src/oui_debug.cpp`, `relaunch/debug.cpp`) is I/O.
- `relaunch/oui.cpp` and `relaunch/point.h` are not part of this model. They are stale drawing code, and the headers that only declare are not modelled either.
- `center()` appears only through `Layout.Center` in contracts; `size()` is not modelled, since no operation of the model uses it. `width()` and `height()` are `Layout.Width` and `Layout.Height`.
- Status codes: `Midi.Status` keeps the seven enumerator names but not their numeric values 8..14, and it has no value for a `char` that names no enumerator. `send` treats such a value like every status other than Note On and Note Off and forwards nothing.
- The mutable references that `destination(...)` returns are not modelled. A caller's assignment becomes a new `Router` value.
- Events on the older pointer are not modelled. `relaunch/oui.h` has no event members; its fields are assigned directly.
- `Glyphs.WidthCeil` requires `width + 3` to fit in an `int`, because signed overflow there is undefined behaviour in the source.
- `Midi.ChannelOf` and `Launchpad.PadIndex` turn the source's `assert`s into preconditions.
- `Utf8.PopCodepoint`: after a throw the model returns no remaining view. The source has already consumed the offending byte, but the exception leaves `drawText` anyway.

## Findings

| source | as written | input that shows it | evidently intended | confidence | as-written member | corrected member |
|---|---|---|---|---|---|---|
| oui/include/oui.h:132-144 (also relaunch/oui.h:99-111) | `shrink(float)` builds the trimmed copy `r` and returns `*this` | the square (0,0)-(10,10) with trim 1 stays 10 wide | return `r`: 8 wide, with crossed insets collapsed to the midpoint | high, not executed | Layout.ShrinkTrimAsWritten, shown by Layout.ShrinkTrimAsWrittenIgnoresTrim | Layout.ShrinkTrim |
| oui/include/oui.h:224-229 | `holding` dereferences `_current` without checking it | `press` before any `move`, then `holding` on an area containing the press | also require a current position, as the older copy does through `hovering` | high, not executed | Gestures.HoldingAsWritten, shown by Gestures.PressBeforeMoveIsUndefined and Gestures.QueriesAgreeWhereDefined | Gestures.Holding |
| relaunch/launchpad_router.cpp:8 with relaunch/launchpad_router.h:58-61 | unmapped notes map to `na = 65`, which indexes `destinations[65]` one past its end | `send(NoteOn, note 0)` | `na = 64`, the spare 65th entry, which has no channel by default, so unmapped notes are dropped | medium, not executed | Launchpad.SendAsWritten, shown by Launchpad.UnmappedNoteReadsPastEnd | Launchpad.Send |
