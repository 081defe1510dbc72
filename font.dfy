/** The constant ASCII-to-segment glyph table of the TM1650 driver.
    Segment bits, from bit 7 down to bit 0, are P C E D A F G B
    (P is the decimal point). */
module Font {

  /** Sentinel for a character without a segment representation. */
  const UnknownChar: bv8 := 0xFF
  /** The decimal-point segment, bit 7. */
  const DotSegment: bv8 := 0x80

  /** First and last character the table covers. */
  const FirstPrintable: char := ' '
  const LastPrintable: char := '~'

  /** A table entry: a real glyph, or one written as the unknown sentinel. */
  datatype Entry = Glyph(segments: bv8) | Unknown {
    /** The byte the entry stores. */
    function Raw(): bv8 {
      match this
      case Glyph(s) => s
      case Unknown => UnknownChar
    }
  }

  /** One entry per code 0x20..0x7E, indexed by the code minus 0x20. */
  const AsciiToRaw: seq<Entry> :=
    [Glyph(0x00), Glyph(0xC1), Glyph(0x05), Unknown, Unknown, Glyph(0x1A), Unknown, Glyph(0x04)] +  // 0x20..0x27
    [Glyph(0x3C), Glyph(0x59), Glyph(0x08), Unknown, Glyph(0x40), Glyph(0x02), Glyph(0x80), Unknown] +  // 0x28..0x2F
    [Glyph(0x7D), Glyph(0x41), Glyph(0x3B), Glyph(0x5B), Glyph(0x47), Glyph(0x5E), Glyph(0x7E), Glyph(0x49)] +  // 0x30..0x37
    [Glyph(0x7F), Glyph(0x5F), Glyph(0x18), Glyph(0x58), Unknown, Unknown, Unknown, Glyph(0x2B)] +  // 0x38..0x3F
    [Glyph(0x3F), Glyph(0x6F), Glyph(0x76), Glyph(0x3C), Glyph(0x73), Glyph(0x3E), Glyph(0x2E), Glyph(0x7C)] +  // 0x40..0x47
    [Glyph(0x67), Glyph(0x41), Glyph(0x71), Unknown, Glyph(0x34), Unknown, Glyph(0x62), Glyph(0x7D)] +  // 0x48..0x4F
    [Glyph(0x2F), Glyph(0xFD), Glyph(0x22), Glyph(0x5E), Glyph(0x26), Glyph(0x75), Glyph(0x75), Glyph(0x77)] +  // 0x50..0x57
    [Unknown, Glyph(0x27), Glyph(0x3B), Glyph(0x3C), Unknown, Glyph(0x59), Unknown, Glyph(0x10)] +  // 0x58..0x5F
    [Glyph(0x01), Glyph(0x6F), Glyph(0x76), Glyph(0x32), Glyph(0x73), Glyph(0x3E), Glyph(0x2E), Glyph(0x7C)] +  // 0x60..0x67
    [Glyph(0x66), Glyph(0x40), Glyph(0x71), Unknown, Glyph(0x34), Unknown, Glyph(0x62), Glyph(0x72)] +  // 0x68..0x6F
    [Glyph(0x2F), Unknown, Glyph(0x22), Glyph(0x5E), Glyph(0x26), Glyph(0x70), Glyph(0x70), Unknown] +  // 0x70..0x77
    [Unknown, Glyph(0x27), Unknown, Glyph(0x43), Glyph(0x24), Glyph(0x26), Glyph(0x0F)]  // 0x78..0x7E

  predicate Printable(c: char) {
    FirstPrintable <= c <= LastPrintable
  }

  /** The glyph `print` starts from for character `c`, before the dot and
      before segment remapping: the table entry when `c` is printable, the
      sentinel otherwise. */
  function Lookup(c: char): bv8 {
    if Printable(c) then AsciiToRaw[c as int - FirstPrintable as int].Raw() else UnknownChar
  }

  /** `print` warns about exactly the characters whose glyph is the
      sentinel: those outside the printable range and those the table
      marks as unknown. Every other character gets its table glyph. */
  lemma LookupMeaning(c: char)
    ensures Lookup(c) == UnknownChar <==> !Printable(c) || AsciiToRaw[c as int - FirstPrintable as int].Unknown?
    ensures Printable(c) && AsciiToRaw[c as int - FirstPrintable as int].Glyph? ==>
              Lookup(c) == AsciiToRaw[c as int - FirstPrintable as int].segments
  {
    if Printable(c) {
      SentinelOnlyAtUnknown(c as int - FirstPrintable as int);
    }
  }

  /** A byte with the meaning `LookupMeaning` gives is the lookup. */
  lemma GlyphIsLookup(c: char, g: bv8)
    requires g == UnknownChar <==> !Printable(c) || AsciiToRaw[c as int - FirstPrintable as int].Unknown?
    requires Printable(c) && AsciiToRaw[c as int - FirstPrintable as int].Glyph? ==>
               g == AsciiToRaw[c as int - FirstPrintable as int].segments
    ensures g == Lookup(c)
  {
  }

  /** The table covers exactly the 95 printable codes. */
  lemma TableCoversPrintable()
    ensures |AsciiToRaw| == LastPrintable as int - FirstPrintable as int + 1 == 95
  {
  }

  /** The sentinel byte occurs only at entries written as unknown: no real
      glyph collides with it. */
  lemma SentinelOnlyAtUnknown(i: int)
    requires 0 <= i < |AsciiToRaw|
    ensures AsciiToRaw[i].Raw() == UnknownChar <==> AsciiToRaw[i].Unknown?
  {
    assert AsciiToRaw[i] in AsciiToRaw;
    NoGlyphIsSentinel();
  }

  lemma NoGlyphIsSentinel()
    ensures Glyph(UnknownChar) !in AsciiToRaw
  {
  }

  /** The period is the bare decimal point and the space is blank. */
  lemma DotAndSpace()
    ensures Lookup('.') == DotSegment
    ensures Lookup(' ') == 0
  {
  }

  /** '8' lights every segment but the point; no digit lights the point. */
  lemma DigitGlyphs()
    ensures Lookup('8') == UnknownChar & !DotSegment
    ensures forall c :: '0' <= c <= '9' ==> Lookup(c) & DotSegment == 0 && Lookup(c) != UnknownChar
  {
  }

  /** Glyphs the table deliberately shares between characters. */
  lemma SharedGlyphs()
    ensures Lookup('O') == Lookup('0')
    ensures Lookup('I') == Lookup('1')
    ensures Lookup('A') == Lookup('a')
  {
  }
}
