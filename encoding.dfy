/** What `print` and `set_segment_map` compute, as functions: the glyph
    cells a string encodes to, and the remapping of a glyph's segment bits
    through the segment map. */
module Encoding {
  import opened Font

  /** Number of segments per digit, the size of the segment map. */
  const MaxSegments: nat := 8

  /** The single-bit masks of the logical segments: entry `s` is `1 << s`. */
  const SegmentMasks: seq<bv8> := [0x01, 0x02, 0x04, 0x08, 0x10, 0x20, 0x40, 0x80]

  lemma SegmentMasksAreShifts()
    ensures |SegmentMasks| == MaxSegments
    ensures forall s :: 0 <= s < MaxSegments ==> SegmentMasks[s] == (1 as bv8) << s
  {
    forall s | 0 <= s < MaxSegments
      ensures SegmentMasks[s] == (1 as bv8) << s
    {
      if s == 0 {} else if s == 1 {} else if s == 2 {} else if s == 3 {}
      else if s == 4 {} else if s == 5 {} else if s == 6 {} else {}
    }
  }

  /** The identity segment map: segment `s` drives bit `s`. */
  const IdentityMap: seq<bv8> := SegmentMasks

  // ---------------------------------------------------------------------
  // Segment remapping

  /** The OR of `m[s]` over the segments `s < n` that are set in `g`. */
  function RemapUpTo(g: bv8, m: seq<bv8>, n: nat): bv8
    requires |m| == MaxSegments && n <= MaxSegments
  {
    if n == 0 then 0
    else RemapUpTo(g, m, n - 1) | (if g & SegmentMasks[n - 1] != 0 then m[n - 1] else 0)
  }

  /** The byte `print` stores for glyph `g` under segment map `m`. */
  function Remap(g: bv8, m: seq<bv8>): bv8
    requires |m| == MaxSegments
  {
    RemapUpTo(g, m, MaxSegments)
  }

  /** One unfolding of RemapUpTo. */
  lemma RemapUpToStep(g: bv8, m: seq<bv8>, n: nat)
    requires |m| == MaxSegments && 0 < n <= MaxSegments
    ensures RemapUpTo(g, m, n) == RemapUpTo(g, m, n - 1) | (if g & SegmentMasks[n - 1] != 0 then m[n - 1] else 0)
  {
  }

  /** Byte `x` lights every segment that the map sends any of the first
      `n` segments set in `g` to. */
  predicate Covers(x: bv8, g: bv8, m: seq<bv8>, n: nat)
    requires |m| == MaxSegments && n <= MaxSegments
  {
    forall s :: 0 <= s < n && g & SegmentMasks[s] != 0 ==> x & m[s] == m[s]
  }

  /** Each segment set in `g` contributes all of its map entry. */
  lemma {:induction false} RemapUpToCoversAt(g: bv8, m: seq<bv8>, n: nat, s: nat)
    requires |m| == MaxSegments && s < n <= MaxSegments
    requires g & SegmentMasks[s] != 0
    ensures RemapUpTo(g, m, n) & m[s] == m[s]
  {
    var added: bv8 := if g & SegmentMasks[n - 1] != 0 then m[n - 1] else 0;
    RemapUpToStep(g, m, n);
    if s < n - 1 {
      RemapUpToCoversAt(g, m, n - 1, s);
    }
    OrCovers(RemapUpTo(g, m, n - 1), added, RemapUpTo(g, m, n), m[s], s < n - 1);
  }

  /** An entry already in `prev`, or the entry just added, stays in the OR. */
  lemma OrCovers(prev: bv8, added: bv8, r: bv8, e: bv8, inPrev: bool)
    requires r == prev | added
    requires inPrev ==> prev & e == e
    requires !inPrev ==> added == e
    ensures r & e == e
  {
  }

  /** Nothing else is lit: any byte covering those entries contains the
      remapped byte. */
  lemma {:induction false} RemapUpToLeast(g: bv8, m: seq<bv8>, n: nat, x: bv8)
    requires |m| == MaxSegments && n <= MaxSegments
    requires Covers(x, g, m, n)
    ensures RemapUpTo(g, m, n) & x == RemapUpTo(g, m, n)
  {
    if n > 0 {
      CoversPrefix(x, g, m, n);
      RemapUpToLeast(g, m, n - 1, x);
      AddedLeast(g, SegmentMasks[n - 1], m[n - 1], RemapUpTo(g, m, n - 1), x);
      RemapUpToStep(g, m, n);
    }
  }

  /** The remapped byte is exactly the union of the map entries of the
      segments set in the glyph: it covers each of them, and any byte that
      covers them all contains it. */
  lemma RemapIsLeast(g: bv8, m: seq<bv8>, x: bv8)
    requires |m| == MaxSegments
    ensures Covers(Remap(g, m), g, m, MaxSegments)
    ensures Covers(x, g, m, MaxSegments) ==> Remap(g, m) & x == Remap(g, m)
  {
    forall s | 0 <= s < MaxSegments && g & SegmentMasks[s] != 0
      ensures Remap(g, m) & m[s] == m[s]
    {
      RemapUpToCoversAt(g, m, MaxSegments, s);
    }
    if Covers(x, g, m, MaxSegments) {
      RemapUpToLeast(g, m, MaxSegments, x);
    }
  }

  /** A cover of the first `n` segments covers the first `n - 1` and the
      last one. */
  lemma CoversPrefix(x: bv8, g: bv8, m: seq<bv8>, n: nat)
    requires |m| == MaxSegments && 0 < n <= MaxSegments
    requires Covers(x, g, m, n)
    ensures Covers(x, g, m, n - 1)
    ensures g & SegmentMasks[n - 1] != 0 ==> x & m[n - 1] == m[n - 1]
  {
  }

  /** One step of RemapUpToLeast, as a fact about bytes. */
  lemma AddedLeast(g: bv8, k: bv8, e: bv8, prev: bv8, x: bv8)
    requires g & k != 0 ==> x & e == e
    requires prev & x == prev
    ensures (prev | (if g & k != 0 then e else 0)) & x == prev | (if g & k != 0 then e else 0)
  {
  }

  /** Remapping distributes over OR: segments are remapped independently. */
  lemma {:induction false} RemapUpToOr(a: bv8, b: bv8, m: seq<bv8>, n: nat)
    requires |m| == MaxSegments && n <= MaxSegments
    ensures RemapUpTo(a | b, m, n) == RemapUpTo(a, m, n) | RemapUpTo(b, m, n)
  {
    if n > 0 {
      RemapUpToOr(a, b, m, n - 1);
      OrStep(RemapUpTo(a, m, n - 1), RemapUpTo(b, m, n - 1), a, b, SegmentMasks[n - 1], m[n - 1]);
    }
  }

  /** One step of RemapUpToOr, as a fact about bytes. */
  lemma OrStep(ra: bv8, rb: bv8, a: bv8, b: bv8, k: bv8, e: bv8)
    ensures (ra | rb) | (if (a | b) & k != 0 then e else 0)
            == (ra | (if a & k != 0 then e else 0)) | (rb | (if b & k != 0 then e else 0))
  {
  }

  lemma RemapOr(a: bv8, b: bv8, m: seq<bv8>)
    requires |m| == MaxSegments
    ensures Remap(a | b, m) == Remap(a, m) | Remap(b, m)
  {
    RemapUpToOr(a, b, m, MaxSegments);
  }

  /** Under the identity map the stored byte is the glyph itself. */
  lemma RemapIdentity(g: bv8)
    ensures Remap(g, IdentityMap) == g
  {
    var m := IdentityMap;
    assert RemapUpTo(g, m, 1) == g & 0x01;
    assert RemapUpTo(g, m, 2) == g & 0x03;
    assert RemapUpTo(g, m, 3) == g & 0x07;
    assert RemapUpTo(g, m, 4) == g & 0x0F;
    assert RemapUpTo(g, m, 5) == g & 0x1F;
    assert RemapUpTo(g, m, 6) == g & 0x3F;
    assert RemapUpTo(g, m, 7) == g & 0x7F;
    assert RemapUpTo(g, m, 8) == g;
  }

  /** The decimal point alone lights whatever the map sends segment 7 to. */
  lemma RemapDot(m: seq<bv8>)
    requires |m| == MaxSegments
    ensures Remap(DotSegment, m) == m[7]
  {
    assert RemapUpTo(DotSegment, m, 1) == 0;
    assert RemapUpTo(DotSegment, m, 2) == 0;
    assert RemapUpTo(DotSegment, m, 3) == 0;
    assert RemapUpTo(DotSegment, m, 4) == 0;
    assert RemapUpTo(DotSegment, m, 5) == 0;
    assert RemapUpTo(DotSegment, m, 6) == 0;
    assert RemapUpTo(DotSegment, m, 7) == 0;
  }

  /** Adding the dot to a glyph adds the dot's map entry to the stored byte. */
  lemma RemapWithDot(g: bv8, m: seq<bv8>)
    requires |m| == MaxSegments
    ensures Remap(g | DotSegment, m) == Remap(g, m) | m[7]
  {
    RemapOr(g, DotSegment, m);
    RemapDot(m);
  }

  // ---------------------------------------------------------------------
  // Text to glyph cells

  /** The glyph cells `print` derives from `s`, before remapping: one cell
      per character, except that a '.' right after a character is folded
      into that character's cell as the decimal point. */
  function Cells(s: string): seq<bv8>
    decreases |s|
  {
    if s == [] then []
    else if |s| >= 2 && s[1] == '.' then [Lookup(s[0]) | DotSegment] + Cells(s[2..])
    else [Lookup(s[0])] + Cells(s[1..])
  }

  /** The bytes `print` stores for `s` under segment map `m`, ignoring the
      display length. */
  function Encode(s: string, m: seq<bv8>): seq<bv8>
    requires |m| == MaxSegments
  {
    seq(|Cells(s)|, k requires 0 <= k < |Cells(s)| => Remap(Cells(s)[k], m))
  }

  /** A cell consumes one or two characters. */
  lemma {:induction false} CellsLength(s: string)
    ensures |s| / 2 <= |Cells(s)| <= |s|
    ensures s != [] ==> |Cells(s)| > 0
    decreases |s|
  {
    if |s| >= 2 && s[1] == '.' {
      CellsLength(s[2..]);
    } else if s != [] {
      CellsLength(s[1..]);
    }
  }

  /** Without a '.' after the first character, there is one cell per
      character, each the plain table glyph (the sentinel for characters
      without one). */
  lemma {:induction false} CellsWithoutDots(s: string)
    requires forall i :: 1 <= i < |s| ==> s[i] != '.'
    ensures |Cells(s)| == |s|
    ensures forall i :: 0 <= i < |s| ==> Cells(s)[i] == Lookup(s[i])
    decreases |s|
  {
    if s != [] {
      CellsWithoutDots(s[1..]);
    }
  }

  /** The encoding of a concatenation is the concatenation of encodings,
      provided the second part does not start with a '.' that would fold
      into the last character of the first. */
  lemma {:induction false} CellsAppend(t: string, u: string)
    requires u == [] || u[0] != '.'
    ensures Cells(t + u) == Cells(t) + Cells(u)
    decreases |t|
  {
    if t == [] {
      assert t + u == u;
    } else if |t| >= 2 && t[1] == '.' {
      assert (t + u)[2..] == t[2..] + u;
      CellsAppend(t[2..], u);
      SnocAssoc([Lookup(t[0]) | DotSegment], Cells(t[2..]), Cells(u));
    } else {
      assert (t + u)[1..] == t[1..] + u;
      CellsAppend(t[1..], u);
      SnocAssoc([Lookup(t[0])], Cells(t[1..]), Cells(u));
    }
  }

  /** Concatenation is associative; stated once so that proofs about
      long concatenations can use it without re-deriving it. */
  lemma SnocAssoc<T>(t: seq<T>, a: seq<T>, b: seq<T>)
    ensures t + a + b == t + (a + b)
  {
  }

  /** The encoding of a concatenation is the concatenation of the
      encodings, unless `u` starts with a '.' that folds into `t`. */
  lemma {:induction false} EncodeAppend(t: string, u: string, m: seq<bv8>)
    requires |m| == MaxSegments
    requires u == [] || u[0] != '.'
    ensures Encode(t + u, m) == Encode(t, m) + Encode(u, m)
  {
    CellsAppend(t, u);
    var ct, cu := Cells(t), Cells(u);
    forall k | 0 <= k < |ct| + |cu|
      ensures Encode(t + u, m)[k] == (Encode(t, m) + Encode(u, m))[k]
    {
      if k < |ct| {
        assert (ct + cu)[k] == ct[k];
      } else {
        assert (ct + cu)[k] == cu[k - |ct|];
      }
    }
  }

  /** "8." is one cell: every segment and the decimal point. Under any map
      it stores the remapped '8' plus whatever the map sends the dot to. */
  lemma EightDot(m: seq<bv8>)
    requires |m| == MaxSegments
    ensures Cells("8.") == [Lookup('8') | DotSegment] == [0xFF]
    ensures Encode("8.", m) == [Remap(Lookup('8'), m) | m[7]]
  {
    DigitGlyphs();
    assert "8."[2..] == [];
    RemapWithDot(Lookup('8'), m);
  }

  /** A character without a glyph encodes to the sentinel and encoding
      goes on with the next character; a '.' right after it is folded
      into the sentinel, which already has the dot bit, and consumed. */
  lemma UnknownContinues(c: char, rest: string)
    requires c != '\0'
    requires !Printable(c) || AsciiToRaw[c as int - FirstPrintable as int].Unknown?
    ensures Cells([c] + rest) == [UnknownChar] + Cells(if rest != [] && rest[0] == '.' then rest[1..] else rest)
  {
    LookupMeaning(c);
    if rest != [] && rest[0] == '.' {
      assert ([c] + rest)[1] == '.';
      assert ([c] + rest)[2..] == rest[1..];
      assert UnknownChar | DotSegment == UnknownChar;
    } else {
      assert ([c] + rest)[1..] == rest;
    }
  }

  /** Under the identity map the stored bytes are the glyph cells. */
  lemma EncodeIdentity(s: string)
    ensures Encode(s, IdentityMap) == Cells(s)
  {
    forall k | 0 <= k < |Cells(s)|
      ensures Encode(s, IdentityMap)[k] == Cells(s)[k]
    {
      RemapIdentity(Cells(s)[k]);
    }
  }

  // ---------------------------------------------------------------------
  // The segment-map string

  /** The map entry a segment-map character stands for: '@'..'G' name
      the single bit 'G' - c ('@' is bit 7, the decimal point's bit),
      anything above 'G' the decimal point. Characters below '@' would
      shift by 8 or more into a byte whose width the driver does not
      declare, and bytes above 0x7F are negative as a `char`; neither is
      given a meaning here. */
  function SegmentBit(c: char): bv8
    requires SegmentChar(c)
  {
    if c <= 'G' then SegmentMasks['G' as int - c as int] else DotSegment
  }

  /** Characters `set_segment_map` is given a meaning for. */
  predicate SegmentChar(c: char) {
    '@' <= c && c as int <= 0x7F
  }

  /** How many characters of the segment-map string are used. */
  function MapLength(spec: string): nat {
    if |spec| > MaxSegments then MaxSegments else |spec|
  }

  /** The characters `set_segment_map` reads, the first min(|spec|, 8),
      all have a meaning; the rest of the string is never read. */
  predicate MapChars(spec: string) {
    forall i :: 0 <= i < MapLength(spec) ==> SegmentChar(spec[i])
  }

  /** The segment map after `set_segment_map(spec)` on map `prev`: entry `i`
      comes from character `spec[len - 1 - i]`, read right to left, for the
      first `len = min(|spec|, 8)` entries; the others keep their value. */
  function ConfiguredMap(prev: seq<bv8>, spec: string): seq<bv8>
    requires |prev| == MaxSegments && MapChars(spec)
  {
    seq(MaxSegments, i requires 0 <= i < MaxSegments =>
      if i < MapLength(spec) then SegmentBit(spec[MapLength(spec) - 1 - i]) else prev[i])
  }

  /** What each character configures: '@'..'G' the single bit
      1 << ('G' - c), everything above 'G' bit 7. */
  lemma SegmentBitMeaning(c: char)
    requires SegmentChar(c)
    ensures c <= 'G' ==> SegmentBit(c) == (1 as bv8) << ('G' as int - c as int)
    ensures c > 'G' ==> SegmentBit(c) == DotSegment
  {
    if c <= 'G' {
      SegmentMasksAreShifts();
    }
  }

  /** "PABCDEFG" names the segments in their own bit order, so it configures
      the identity map whatever the map was before. */
  lemma NaturalOrderIsIdentity(prev: seq<bv8>)
    requires |prev| == MaxSegments
    ensures ConfiguredMap(prev, "PABCDEFG") == IdentityMap
  {
    var spec := "PABCDEFG";
    assert MapChars(spec);
    var m := ConfiguredMap(prev, spec);
    assert MapLength(spec) == 8;
    assert m[0] == SegmentBit('G') == 0x01;
    assert m[1] == SegmentBit('F') == 0x02;
    assert m[2] == SegmentBit('E') == 0x04;
    assert m[3] == SegmentBit('D') == 0x08;
    assert m[4] == SegmentBit('C') == 0x10;
    assert m[5] == SegmentBit('B') == 0x20;
    assert m[6] == SegmentBit('A') == 0x40;
    assert m[7] == SegmentBit('P') == 0x80;
  }

  /** Characters after the eighth are never read: appending anything to
      an eight-character map string configures the same map. */
  lemma UnreadTailIgnored(prev: seq<bv8>, spec: string, tail: string)
    requires |prev| == MaxSegments && |spec| == MaxSegments && MapChars(spec)
    ensures MapChars(spec + tail)
    ensures ConfiguredMap(prev, spec + tail) == ConfiguredMap(prev, spec)
  {
    assert MapLength(spec + tail) == MaxSegments;
    forall i | 0 <= i < MaxSegments
      ensures (spec + tail)[i] == spec[i]
    {
    }
  }

  /** Only the first min(|spec|, 8) entries change. */
  lemma ConfiguredMapKeeps(prev: seq<bv8>, spec: string, i: nat)
    requires |prev| == MaxSegments && MapChars(spec)
    requires MapLength(spec) <= i < MaxSegments
    ensures ConfiguredMap(prev, spec)[i] == prev[i]
  {
  }
}
