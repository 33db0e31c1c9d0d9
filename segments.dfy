/** The 7-segment glyph table of the driver and how a buffer byte is built from it. */
module Segments {
  import opened Bytes

  // Indices into the table that the driver names (SEGMENT_EMPTY, SEGMENT_MINUS, ...).
  const Blank: nat := 16
  const Minus: nat := 17
  const TopC: nat := 18
  const Degree: nat := 19

  /** Bit 7 of a buffer byte lights the decimal point. */
  const DotBit: byte := 0x80

  /** Segment patterns for 0-9, A-F, blank, minus, top "c" and degree (bit 6..0 = g..a). */
  const SegmentMap: seq<byte> :=
    [0x3F, 0x06, 0x5B, 0x4F, 0x66, 0x6D, 0x7D, 0x07, 0x7F, 0x6F,
     0x77, 0x7C, 0x39, 0x5E, 0x79, 0x71,
     0x00, 0x40, 0x61, 0x63]

  /** The pattern for symbol `d`; indices past the table show as blank. */
  function Glyph(d: nat): (g: byte)
    ensures d > Degree ==> g == 0x00
  {
    if d > Degree then SegmentMap[Blank] else SegmentMap[d]
  }

  /** No table pattern lights the decimal point. */
  lemma GlyphUndotted(d: nat)
    ensures Glyph(d) & DotBit == 0
  {
  }

  /** The buffer byte for symbol `d`, with the decimal point iff `dot`. */
  function DigitPattern(d: nat, dot: bool): (p: byte)
    ensures p & 0x7F == Glyph(d)
    ensures (p & DotBit != 0) == dot
  {
    GlyphUndotted(d);
    if dot then Glyph(d) | DotBit else Glyph(d)
  }

  /** Read a decimal digit back from a buffer byte, ignoring the decimal point. */
  function DigitOf(p: byte): (r: Option<nat>)
    ensures r.Some? ==> r.value < 10 && Glyph(r.value) == p & 0x7F
    ensures r.None? ==> forall d :: 0 <= d < 10 ==> Glyph(d) != p & 0x7F
  {
    FindDigit(p & 0x7F, 0)
  }

  function FindDigit(g: byte, from: nat): (r: Option<nat>)
    requires from <= 10
    ensures r.Some? ==> from <= r.value < 10 && Glyph(r.value) == g
    ensures r.None? ==> forall d :: from <= d < 10 ==> Glyph(d) != g
    decreases 10 - from
  {
    if from == 10 then None
    else if Glyph(from) == g then Some(from)
    else FindDigit(g, from + 1)
  }

  /** The ten digit patterns are pairwise different, so a digit can be read back. */
  lemma DigitGlyphsDistinct(d: nat, e: nat)
    requires d < 10 && e < 10 && d != e
    ensures Glyph(d) != Glyph(e)
  {
  }

  /** Decoding the byte written for a decimal digit yields that digit, with or without the dot. */
  lemma DigitOfPattern(d: nat, dot: bool)
    requires d < 10
    ensures DigitOf(DigitPattern(d, dot)) == Some(d)
  {
    var r := DigitOf(DigitPattern(d, dot));
    assert Glyph(d) == DigitPattern(d, dot) & 0x7F;
    if r.Some? && r.value != d {
      DigitGlyphsDistinct(d, r.value);
    }
  }

  /** No decimal digit, minus or blank looks like the degree mark. */
  lemma DegreeIsNotADigit(d: nat)
    requires d < 10 || d == Minus || d == Blank
    ensures Glyph(d) != Glyph(Degree)
  {
  }
}
