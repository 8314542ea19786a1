/** The `midi` namespace of relaunch/launchpad_router.h: message statuses,
    channels and notes, all stored as a `char` (signed on the target
    compiler), and the note generators `C` to `B` indexed by octave. */
module Midi {

  /** A signed `char`. */
  type SChar = c: int | -128 <= c < 128

  /** Integral conversion of an `int` to `char`: the value modulo 256, read
      back as signed. */
  function ToChar(v: int): (c: SChar)
    ensures -128 <= v < 128 ==> c == v
    ensures (c - v) % 256 == 0
  {
    var m := v % 256;
    if m >= 128 then m - 256 else m
  }

  /** The statuses the router distinguishes; their codes run from 0b1000 up. */
  datatype Status = NoteOff | NoteOn | KeyPressure | ControlChange | ProgramChange | ChannelPressure | PitchBendChange

  type Channel = SChar
  type Note = SChar

  /** `Channel::None`, the value one past the sixteen real channels. */
  const ChannelNone: Channel := 16

  /** `channel(i)`: the one-based channel number `i` as the zero-based value
      on the wire; the function asserts `1 <= i <= 16`. */
  function ChannelOf(i: int): (c: Channel)
    requires 1 <= i <= 16
    ensures c == i - 1
    ensures 0 <= c <= 15 && c != ChannelNone
  {
    i - 1
  }

  /** Distinct channel numbers give distinct channels, none of them `None`. */
  lemma ChannelsDistinct(i: int, j: int)
    requires 1 <= i <= 16 && 1 <= j <= 16 && i != j
    ensures ChannelOf(i) != ChannelOf(j)
    ensures ChannelOf(i) != ChannelNone
  {
  }

  /** `NoteGen`: a note generator holding the note of octave 0. */
  datatype NoteGen = NoteGen(zero: SChar)

  /** `NoteGen::operator[]`: twelve semitones per octave, converted back to `char`. */
  function NoteAt(g: NoteGen, octave: SChar): (n: Note)
    ensures -128 <= g.zero + 12 * octave < 128 ==> n == g.zero + 12 * octave
    ensures (n - (g.zero + 12 * octave)) % 256 == 0
  {
    ToChar(g.zero + 12 * octave)
  }

  const C: NoteGen := NoteGen(12 + 0)
  const Cs: NoteGen := NoteGen(12 + 1)
  const D: NoteGen := NoteGen(12 + 2)
  const Ds: NoteGen := NoteGen(12 + 3)
  const E: NoteGen := NoteGen(12 + 4)
  const F: NoteGen := NoteGen(12 + 5)
  const Fs: NoteGen := NoteGen(12 + 6)
  const G: NoteGen := NoteGen(12 + 7)
  const Gs: NoteGen := NoteGen(12 + 8)
  const A: NoteGen := NoteGen(12 + 9)
  const As: NoteGen := NoteGen(12 + 10)
  const B: NoteGen := NoteGen(12 + 11)

  /** The twelve generators in pitch order. */
  const Scale: seq<NoteGen> := [C, Cs, D, Ds, E, F, Fs, G, Gs, A, As, B]

  /** For octaves 0 to 8 no conversion wraps: the k-th generator's note is
      `12 + k + 12 * octave`, so all such notes lie in 12..119 and distinct
      (generator, octave) pairs give distinct notes. */
  lemma NotesInRange(k: nat, octave: SChar)
    requires k < 12 && 0 <= octave <= 8
    ensures NoteAt(Scale[k], octave) == 12 + k + 12 * octave
    ensures 12 <= NoteAt(Scale[k], octave) <= 119
  {
  }

  lemma NotesDistinct(k1: nat, o1: SChar, k2: nat, o2: SChar)
    requires k1 < 12 && 0 <= o1 <= 8 && k2 < 12 && 0 <= o2 <= 8
    requires NoteAt(Scale[k1], o1) == NoteAt(Scale[k2], o2)
    ensures k1 == k2 && o1 == o2
  {
    NotesInRange(k1, o1);
    NotesInRange(k2, o2);
  }

  /** Middle C is note 60; one octave further, the top of octave 9 wraps to a
      negative `char`. */
  lemma MiddleCAndWrap()
    ensures NoteAt(C, 4) == 60
    ensures NoteAt(B, 9) == 131 - 256
  {
  }
}
