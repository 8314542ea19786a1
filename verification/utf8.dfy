/** `popCodepoint` from oui/src/oui_text.cpp: decodes one code point from the
    front of a byte view, following the bit layout of RFC 3629 section 3
    (lead byte selects the length, each continuation byte adds six bits). It
    checks neither overlong forms nor surrogates, and accepts the lead bytes
    0xF8 to 0xFF as four-byte leads. Bytes are integers in [0, 256); the shifts
    and masks of the original are written as the divisions and remainders
    they compute on such values. The two `std::runtime_error` throws become a
    `Thrown` outcome. */
module Utf8 {

  type Byte = b: int | 0 <= b < 256

  datatype DecodeError =
    | UnexpectedContinuation   // a lead byte of the form 10xxxxxx
    | ContinuationExpected     // a byte inside a sequence not of that form

  /** The decoded value and the view after the bytes consumed. */
  datatype Decoded = Decoded(code: int, rest: seq<Byte>)

  datatype Outcome = Ok(decoded: Decoded) | Thrown(error: DecodeError)

  /** Largest value plus one that four bytes of this layout can carry. */
  const CodeLimit: int := 0x20_0000

  /** Codes below `Headroom(n)` still stay below `CodeLimit` after `n` more
      six-bit groups are shifted in. */
  function Headroom(n: nat): int
  {
    match n
    case 0 => CodeLimit
    case 1 => CodeLimit / 64
    case 2 => CodeLimit / 4096
    case 3 => CodeLimit / 262144
    case _ => 0
  }

  predicate IsContinuation(b: Byte) { 0x80 <= b < 0xC0 }

  /** The loop over the `remaining` continuation bytes: running out of input
      yields 0 with everything consumed; a byte whose top two bits are not 10
      throws; otherwise its low six bits are shifted into the code. */
  function Continue(code: nat, remaining: nat, text: seq<Byte>): (r: Outcome)
    ensures r.Ok? ==> 0 <= r.decoded.code
    ensures r.Ok? && code < Headroom(remaining) ==> r.decoded.code < CodeLimit
    ensures r.Ok? ==> |r.decoded.rest| <= |text| && r.decoded.rest == text[|text| - |r.decoded.rest|..]
    decreases remaining
  {
    if remaining == 0 then Ok(Decoded(code, text))
    else if |text| == 0 then Ok(Decoded(0, []))
    else if text[0] / 64 != 2 then Thrown(ContinuationExpected)
    else
      var next := code * 64 + text[0] % 64;
      HeadroomStep(code, text[0] % 64, remaining);
      var r := Continue(next, remaining - 1, text[1..]);
      if r.Ok? then SuffixOfTail(text, r.decoded.rest); r else r
  }

  /** Shifting six more bits into a code within the headroom for `remaining`
      groups leaves it within the headroom for one group fewer. */
  lemma HeadroomStep(code: nat, bits: int, remaining: nat)
    requires 0 <= bits < 64 && remaining > 0
    ensures code < Headroom(remaining) ==> code * 64 + bits < Headroom(remaining - 1)
  {
  }

  /** A suffix of the tail of a sequence is a suffix of the sequence. */
  lemma SuffixOfTail(text: seq<Byte>, rest: seq<Byte>)
    requires |text| > 0 && |rest| <= |text| - 1
    requires rest == text[1..][|text| - 1 - |rest|..]
    ensures rest == text[|text| - |rest|..]
  {
  }

  /** `popCodepoint`. */
  function PopCodepoint(text: seq<Byte>): (r: Outcome)
    ensures |text| == 0 ==> r == Ok(Decoded(0, []))
    ensures |text| > 0 && text[0] < 0x80 ==> r == Ok(Decoded(text[0], text[1..]))
    ensures |text| > 0 && 0x80 <= text[0] < 0xC0 ==> r == Thrown(UnexpectedContinuation)
    ensures r.Ok? ==> 0 <= r.decoded.code < CodeLimit
    ensures r.Ok? && |text| > 0 ==> |r.decoded.rest| < |text| && r.decoded.rest == text[|text| - |r.decoded.rest|..]
  {
    if |text| == 0 then Ok(Decoded(0, []))
    else
      var x := text[0];
      var tail := text[1..];
      match x / 16
      case 15 => Continue(x % 8, 3, tail)
      case 14 => Continue(x % 16, 2, tail)
      case 13 => Continue(x % 32, 1, tail)
      case 12 => Continue(x % 32, 1, tail)
      case _ => if x >= 0x80 then Thrown(UnexpectedContinuation) else Ok(Decoded(x, tail))
  }

  // ------------------------------------------- reference reading of the layout

  /** How many bytes a sequence with this lead byte spans (0: not a lead). */
  function SequenceLength(lead: Byte): nat
  {
    if lead < 0x80 then 1
    else if lead < 0xC0 then 0
    else if lead < 0xE0 then 2
    else if lead < 0xF0 then 3
    else 4
  }

  /** The payload bits of a multi-byte lead: what is left above its length marker. */
  function LeadPayload(lead: Byte): nat
    requires lead >= 0xC0
  {
    if lead < 0xE0 then lead - 0xC0
    else if lead < 0xF0 then lead - 0xE0
    else (lead - 0xF0) % 8
  }

  /** Six bits per continuation byte, most significant first. */
  function Accumulate(code: int, conts: seq<Byte>): int
    decreases |conts|
  {
    if |conts| == 0 then code
    else Accumulate(code * 64 + (conts[0] as int - 0x80), conts[1..])
  }

  predicate AllContinuation(s: seq<Byte>)
  {
    forall i :: 0 <= i < |s| ==> IsContinuation(s[i])
  }

  /** A continuation byte has 10 as its top two bits and six payload bits. */
  lemma ContinuationBits(b: Byte)
    requires IsContinuation(b)
    ensures b / 64 == 2 && b % 64 == b - 0x80
  {
  }

  lemma {:induction false} ContinueReadsContinuations(code: nat, conts: seq<Byte>, rest: seq<Byte>)
    requires AllContinuation(conts)
    ensures Continue(code, |conts|, conts + rest) == Ok(Decoded(Accumulate(code, conts), rest))
    decreases |conts|
  {
    if |conts| > 0 {
      var text := conts + rest;
      assert text[0] == conts[0] && text[1..] == conts[1..] + rest;
      ContinuationBits(conts[0]);
      assert Continue(code, |conts|, text) == Continue(code * 64 + (conts[0] - 0x80), |conts| - 1, text[1..]);
      ContinueReadsContinuations(code * 64 + (conts[0] - 0x80), conts[1..], rest);
    }
  }

  lemma {:induction false} ContinueTruncated(code: nat, remaining: nat, text: seq<Byte>)
    requires |text| < remaining && AllContinuation(text)
    ensures Continue(code, remaining, text) == Ok(Decoded(0, []))
    decreases remaining
  {
    if |text| > 0 {
      ContinueStep(code, remaining, text);
      ContinuationTail(text);
      ContinueTruncated(code * 64 + text[0] % 64, remaining - 1, text[1..]);
    }
  }

  /** One turn of the continuation loop on a continuation byte. */
  lemma ContinueStep(code: nat, remaining: nat, text: seq<Byte>)
    requires remaining > 0 && |text| > 0 && IsContinuation(text[0])
    ensures Continue(code, remaining, text) == Continue(code * 64 + text[0] % 64, remaining - 1, text[1..])
  {
    ContinuationBits(text[0]);
  }

  lemma ContinuationTail(text: seq<Byte>)
    requires |text| > 0 && AllContinuation(text)
    ensures AllContinuation(text[1..])
  {
    forall i | 0 <= i < |text[1..]| ensures IsContinuation(text[1..][i]) {
      assert text[1..][i] == text[i + 1];
    }
  }

  lemma {:induction false} ContinueRejects(code: nat, remaining: nat, text: seq<Byte>, k: nat)
    requires k < remaining && k < |text|
    requires AllContinuation(text[..k]) && !IsContinuation(text[k])
    ensures Continue(code, remaining, text) == Thrown(ContinuationExpected)
    decreases remaining
  {
    if k > 0 {
      assert IsContinuation(text[..k][0]);
      assert text[1..][..k - 1] == text[..k][1..];
      ContinueRejects(code * 64 + text[0] % 64, remaining - 1, text[1..], k - 1);
    }
  }

  /** A multi-byte lead followed by the continuation bytes its length calls for
      decodes to the lead's payload with six bits per continuation appended,
      and consumes exactly that many bytes. */
  lemma DecodesWholeSequence(text: seq<Byte>)
    requires |text| > 0 && text[0] >= 0xC0
    requires |text| >= SequenceLength(text[0]) && AllContinuation(text[1..SequenceLength(text[0])])
    ensures PopCodepoint(text) ==
      Ok(Decoded(Accumulate(LeadPayload(text[0]), text[1..SequenceLength(text[0])]), text[SequenceLength(text[0])..]))
  {
    var n := SequenceLength(text[0]);
    assert text[1..] == text[1..n] + text[n..];
    MultiByteLead(text);
    ContinueReadsContinuations(LeadPayload(text[0]), text[1..n], text[n..]);
  }

  /** The switch on the top four bits of a lead byte agrees with the length
      table, and its mask leaves the lead's payload. */
  lemma LeadBits(lead: Byte)
    requires lead >= 0xC0
    ensures lead < 0xE0 ==> (lead / 16 == 12 || lead / 16 == 13) && lead % 32 == LeadPayload(lead)
    ensures 0xE0 <= lead < 0xF0 ==> lead / 16 == 14 && lead % 16 == LeadPayload(lead)
    ensures 0xF0 <= lead ==> lead / 16 == 15 && lead % 8 == LeadPayload(lead)
  {
  }

  /** On a multi-byte lead, `popCodepoint` hands the lead's payload and the
      number of continuation bytes its length calls for to the continuation loop. */
  lemma MultiByteLead(text: seq<Byte>)
    requires |text| > 0 && text[0] >= 0xC0
    ensures PopCodepoint(text) == Continue(LeadPayload(text[0]), SequenceLength(text[0]) - 1, text[1..])
  {
    var x := text[0];
    LeadBits(x);
    if x < 0xE0 {
      assert PopCodepoint(text) == Continue(x % 32, 1, text[1..]);
    } else if x < 0xF0 {
      assert PopCodepoint(text) == Continue(x % 16, 2, text[1..]);
    } else {
      assert PopCodepoint(text) == Continue(x % 8, 3, text[1..]);
    }
  }

  /** A lead whose sequence is cut short by the end of input, with only
      continuation bytes after it, yields 0 and consumes everything. */
  lemma TruncatedSequenceYieldsZero(text: seq<Byte>)
    requires |text| > 0 && text[0] >= 0xC0
    requires |text| < SequenceLength(text[0]) && AllContinuation(text[1..])
    ensures PopCodepoint(text) == Ok(Decoded(0, []))
  {
    MultiByteLead(text);
    ContinueTruncated(LeadPayload(text[0]), SequenceLength(text[0]) - 1, text[1..]);
  }

  /** A byte inside the sequence that is not a continuation byte throws,
      provided it comes before the input runs out. */
  lemma BrokenSequenceThrows(text: seq<Byte>, k: nat)
    requires |text| > 0 && text[0] >= 0xC0
    requires 1 <= k < SequenceLength(text[0]) && k < |text|
    requires AllContinuation(text[1..k]) && !IsContinuation(text[k])
    ensures PopCodepoint(text) == Thrown(ContinuationExpected)
  {
    assert text[1..][..k - 1] == text[1..k];
    MultiByteLead(text);
    ContinueRejects(LeadPayload(text[0]), SequenceLength(text[0]) - 1, text[1..], k - 1);
  }

  // ------------------------------------------------------------ round trip

  function Cont(bits: int): Byte
    requires 0 <= bits < 64
  {
    0x80 + bits
  }

  /** The RFC 3629 section 3 encoding of a code point up to U+10FFFF, written
      from the table of that section: the bits are cut into six-bit groups
      from the low end, and the top group goes into the lead byte. */
  function Encode(cp: int): (s: seq<Byte>)
    requires 0 <= cp <= 0x10_FFFF
    ensures 1 <= |s| <= 4
  {
    var c1 := cp / 64;
    var c2 := c1 / 64;
    var c3 := c2 / 64;
    if cp < 0x80 then [cp]
    else if cp < 0x800 then [0xC0 + c1, Cont(cp % 64)]
    else if cp < 0x1_0000 then [0xE0 + c2, Cont(c1 % 64), Cont(cp % 64)]
    else [0xF0 + c3, Cont(c2 % 64), Cont(c1 % 64), Cont(cp % 64)]
  }

  lemma DecodeEncodeTwo(cp: int, rest: seq<Byte>)
    requires 0x80 <= cp < 0x800
    ensures PopCodepoint(Encode(cp) + rest) == Ok(Decoded(cp, rest))
  {
    var text := Encode(cp) + rest;
    var c1 := cp / 64;
    var a := Cont(cp % 64);
    assert text[0] == 0xC0 + c1 && text[1..2] == [a] && text[2..] == rest;
    DecodesWholeSequence(text);
    assert LeadPayload(text[0]) == c1;
    assert Accumulate(c1, [a]) == c1 * 64 + cp % 64;
  }

  lemma DecodeEncodeThree(cp: int, rest: seq<Byte>)
    requires 0x800 <= cp < 0x1_0000
    ensures PopCodepoint(Encode(cp) + rest) == Ok(Decoded(cp, rest))
  {
    var text := Encode(cp) + rest;
    var c1 := cp / 64;
    var c2 := c1 / 64;
    var a, b := Cont(c1 % 64), Cont(cp % 64);
    assert text[0] == 0xE0 + c2 && text[1..3] == [a, b] && text[3..] == rest;
    DecodesWholeSequence(text);
    assert LeadPayload(text[0]) == c2;
    assert Accumulate(c2, [a, b]) == Accumulate(c2 * 64 + c1 % 64, [b]);
    assert c2 * 64 + c1 % 64 == c1;
    assert Accumulate(c1, [b]) == c1 * 64 + cp % 64;
  }

  lemma DecodeEncodeFour(cp: int, rest: seq<Byte>)
    requires 0x1_0000 <= cp <= 0x10_FFFF
    ensures PopCodepoint(Encode(cp) + rest) == Ok(Decoded(cp, rest))
  {
    var c1 := cp / 64;
    var c2 := c1 / 64;
    var a, b, c := Cont(c2 % 64), Cont(c1 % 64), Cont(cp % 64);
    EncodeFour(cp);
    var text := Encode(cp) + rest;
    assert text[1..4] == [a, b, c] && text[4..] == rest;
    assert AllContinuation(text[1..4]);
    DecodesWholeSequence(text);
    AccumulateFour(cp);
  }

  /** The four-byte encoding: a lead carrying the top three bits, which are at
      most 4 for a code point up to U+10FFFF, and three six-bit groups. */
  lemma EncodeFour(cp: int)
    requires 0x1_0000 <= cp <= 0x10_FFFF
    ensures var c1 := cp / 64; var c2 := c1 / 64;
      && c2 / 64 <= 4
      && Encode(cp) == [0xF0 + c2 / 64, Cont(c2 % 64), Cont(c1 % 64), Cont(cp % 64)]
      && LeadPayload(0xF0 + c2 / 64) == c2 / 64
      && SequenceLength(0xF0 + c2 / 64) == 4
  {
  }

  /** The arithmetic half of the four-byte round trip: the three six-bit groups
      below the lead's payload accumulate back to the code point. */
  lemma AccumulateFour(cp: int)
    requires 0x1_0000 <= cp <= 0x10_FFFF
    ensures var c1 := cp / 64; var c2 := c1 / 64;
      Accumulate(c2 / 64, [Cont(c2 % 64), Cont(c1 % 64), Cont(cp % 64)]) == cp
  {
    var c1 := cp / 64;
    var c2 := c1 / 64;
    var c3 := c2 / 64;
    var a, b, c := Cont(c2 % 64), Cont(c1 % 64), Cont(cp % 64);
    assert Accumulate(c3, [a, b, c]) == Accumulate(c3 * 64 + c2 % 64, [b, c]);
    assert c3 * 64 + c2 % 64 == c2;
    assert Accumulate(c2, [b, c]) == Accumulate(c2 * 64 + c1 % 64, [c]);
    assert c2 * 64 + c1 % 64 == c1;
    assert Accumulate(c1, [c]) == c1 * 64 + cp % 64;
  }

  /** Decoding the encoding of any code point returns it and consumes exactly
      the encoded bytes, whatever follows. */
  lemma DecodeEncode(cp: int, rest: seq<Byte>)
    requires 0 <= cp <= 0x10_FFFF
    ensures PopCodepoint(Encode(cp) + rest) == Ok(Decoded(cp, rest))
  {
    if cp < 0x80 {
    } else if cp < 0x800 {
      DecodeEncodeTwo(cp, rest);
    } else if cp < 0x1_0000 {
      DecodeEncodeThree(cp, rest);
    } else {
      DecodeEncodeFour(cp, rest);
    }
  }

  /** Forms RFC 3629 forbids are decoded all the same: an overlong NUL, an
      encoded surrogate, and a lead byte beyond 0xF7. */
  lemma AcceptsOverlong()
    ensures PopCodepoint([0xC0, 0x80]) == Ok(Decoded(0, []))
  {
    DecodesLiteral(0xC0, [0x80]);
    assert Accumulate(0, [0x80]) == 0;
  }

  lemma AcceptsSurrogate()
    ensures PopCodepoint([0xED, 0xA0, 0x80]) == Ok(Decoded(0xD800, []))
  {
    DecodesLiteral(0xED, [0xA0, 0x80]);
    assert Accumulate(0xD, [0xA0, 0x80]) == Accumulate(0x360, [0x80]);
    assert Accumulate(0x360, [0x80]) == Accumulate(0xD800, []);
  }

  lemma AcceptsLeadBeyondF7()
    ensures PopCodepoint([0xFF, 0xBF, 0xBF, 0xBF]) == Ok(Decoded(0x1F_FFFF, []))
  {
    DecodesLiteral(0xFF, [0xBF, 0xBF, 0xBF]);
    assert Accumulate(7, [0xBF, 0xBF, 0xBF]) == Accumulate(0x1FF, [0xBF, 0xBF]);
    assert Accumulate(0x1FF, [0xBF, 0xBF]) == Accumulate(0x7FFF, [0xBF]);
    assert Accumulate(0x7FFF, [0xBF]) == Accumulate(0x1F_FFFF, []);
  }

  /** A lead byte followed by exactly the continuation bytes it calls for, and
      nothing else, decodes to the accumulated payload. */
  lemma DecodesLiteral(lead: Byte, conts: seq<Byte>)
    requires lead >= 0xC0 && |conts| == SequenceLength(lead) - 1 && AllContinuation(conts)
    ensures PopCodepoint([lead] + conts) == Ok(Decoded(Accumulate(LeadPayload(lead), conts), []))
  {
    var text := [lead] + conts;
    assert text[0] == lead && text[1..] == conts + [];
    MultiByteLead(text);
    ContinueReadsContinuations(LeadPayload(lead), conts, []);
  }

  // ------------------------------------------------------ the decoding loop

  /** Code points the loop below can hand out: non-zero scalars up to U+10FFFF. */
  predicate NonZeroCodes(cps: seq<int>)
  {
    forall i :: 0 <= i < |cps| ==> 0 < cps[i] <= 0x10_FFFF
  }

  /** The bytes of a sequence of code points, one after another. */
  function EncodeAll(cps: seq<int>): seq<Byte>
    requires NonZeroCodes(cps)
  {
    if |cps| == 0 then [] else Encode(cps[0]) + EncodeAll(cps[1..])
  }

  /** `text` is the encoding of the non-zero code points `cps`. */
  ghost predicate Encodes(text: seq<Byte>, cps: seq<int>)
  {
    NonZeroCodes(cps) && text == EncodeAll(cps)
  }

  /** One step of the loop against an encoded string: from the encoding of a
      suffix of `cs`, a non-zero decode yields the suffix's first code point and
      leaves the encoding of the rest; the encoding of an empty suffix decodes
      to 0. */
  lemma {:induction false} DecodeNext(cs: seq<int>, k: nat)
    requires NonZeroCodes(cs) && k <= |cs|
    ensures NonZeroCodes(cs[k..])
    ensures k == |cs| ==> PopCodepoint(EncodeAll(cs[k..])) == Ok(Decoded(0, []))
    ensures k < |cs| ==> NonZeroCodes(cs[k + 1..])
    ensures k < |cs| ==> PopCodepoint(EncodeAll(cs[k..])) == Ok(Decoded(cs[k], EncodeAll(cs[k + 1..])))
  {
    assert forall i :: 0 <= i < |cs[k..]| ==> cs[k..][i] == cs[k + i];
    if k < |cs| {
      assert cs[k..][1..] == cs[k + 1..];
      DecodeEncode(cs[k], EncodeAll(cs[k + 1..]));
    }
  }

  /** So far the loop has read a prefix of every code-point sequence `text`
      encodes, and what is left of the view encodes the rest of it. */
  ghost predicate Tracks(text: seq<Byte>, cps: seq<int>, view: seq<Byte>)
  {
    forall cs {:trigger Encodes(text, cs)} :: Encodes(text, cs) ==>
      |cps| <= |cs| && cps == cs[..|cps|] && view == EncodeAll(cs[|cps|..])
  }

  /** A non-zero decode of the view extends the code points read by one and
      leaves the encoding of the rest. */
  lemma TracksStep(text: seq<Byte>, cps: seq<int>, view: seq<Byte>, d: Decoded)
    requires Tracks(text, cps, view)
    requires PopCodepoint(view) == Ok(d) && d.code != 0
    ensures Tracks(text, cps + [d.code], d.rest)
  {
    var next := cps + [d.code];
    forall cs | Encodes(text, cs)
      ensures |next| <= |cs| && next == cs[..|next|] && d.rest == EncodeAll(cs[|next|..])
    {
      TracksOne(cs, |cps|, view, d);
    }
  }

  /** One code-point sequence's share of `TracksStep`: if the view is the
      encoding of `cs` from index `k` on and decodes to a non-zero code, that
      code is `cs[k]` and the rest is the encoding from `k + 1` on. */
  lemma TracksOne(cs: seq<int>, k: nat, view: seq<Byte>, d: Decoded)
    requires NonZeroCodes(cs) && k <= |cs| && view == EncodeAll(cs[k..])
    requires PopCodepoint(view) == Ok(d) && d.code != 0
    ensures k < |cs| && d.code == cs[k] && d.rest == EncodeAll(cs[k + 1..])
    ensures cs[..k + 1] == cs[..k] + [cs[k]]
  {
    DecodeNext(cs, k);
  }

  lemma TracksEnd(text: seq<Byte>, cps: seq<int>, view: seq<Byte>)
    requires Tracks(text, cps, view)
    requires PopCodepoint(view).Ok? ==> PopCodepoint(view).decoded.code == 0
    ensures forall cs {:trigger Encodes(text, cs)} :: Encodes(text, cs) ==> PopCodepoint(view).Ok? && cps == cs
  {
    forall cs | Encodes(text, cs)
      ensures PopCodepoint(view).Ok? && cps == cs
    {
      DecodeNext(cs, |cps|);
    }
  }

  /** The loop `while (int ch = popCodepoint(text))` that feeds a string to the
      glyph renderer: code points are taken until one decodes as 0 (the end of
      the input, a NUL, or a truncated sequence) or the decoder throws. On the
      encoding of non-zero code points it yields exactly those code points. */
  method Codepoints(text: seq<Byte>) returns (r: Outcome, cps: seq<int>)
    ensures r.Ok? ==> r.decoded.code == 0
    ensures forall i :: 0 <= i < |cps| ==> 0 < cps[i] < CodeLimit
    ensures forall cs {:trigger Encodes(text, cs)} :: Encodes(text, cs) ==> r.Ok? && cps == cs
  {
    var view := text;
    cps := [];
    r := PopCodepoint(view);
    while r.Ok? && r.decoded.code != 0
      invariant r == PopCodepoint(view)
      invariant forall i :: 0 <= i < |cps| ==> 0 < cps[i] < CodeLimit
      invariant Tracks(text, cps, view)
      decreases |view|
    {
      TracksStep(text, cps, view, r.decoded);
      cps := cps + [r.decoded.code];
      view := r.decoded.rest;
      r := PopCodepoint(view);
    }
    TracksEnd(text, cps, view);
  }
}
