/** The TM1650 display component: its state, the text it prints into the
    digit buffer, the segment map, the refresh that sends the buffer to the
    device, and the key sensors. */
module TM1650 {
  import opened Font
  import opened Encoding
  import opened Wire

  /** Number of digit cells in the buffer. */
  const MaxDigits: nat := 16

  datatype ErrorCode = NoError | CommunicationFailed

  datatype Option<T> = None | Some(value: T)

  function Min(a: nat, b: nat): nat {
    if a <= b then a else b
  }

  // ---------------------------------------------------------------------
  // print, as a function of the buffer

  /** How many of `count` cells fit from `start` on a display of `length`
      digits: none when `start` is already past the display. */
  function Fit(start: nat, count: nat, length: nat): nat {
    if start < length then Min(count, length - start) else 0
  }

  /** What print(start, s) returns on a display of `length` digits: the
      number of cells it writes. */
  function PrintCount(start: nat, s: string, length: nat): nat {
    Fit(start, |Cells(s)|, length)
  }

  /** `cells` written into `buf` from `start` on, as many as fit; every
      other cell as it was. */
  function Place(buf: seq<bv8>, start: nat, cells: seq<bv8>, length: nat): seq<bv8> {
    var n := Fit(start, |cells|, length);
    seq(|buf|, k requires 0 <= k < |buf| => if start <= k < start + n then cells[k - start] else buf[k])
  }

  /** The buffer after print(start, s) under segment map `m`: the encoded
      cells of `s` placed from `start` on. */
  function Printed(buf: seq<bv8>, start: nat, s: string, m: seq<bv8>, length: nat): seq<bv8>
    requires |m| == MaxSegments
  {
    Place(buf, start, Encode(s, m), length)
  }

  /** print never writes a cell at or beyond `length`, writes nothing when
      it starts at or beyond `length`, and otherwise writes as many cells
      as fit, stopping early only when the text runs out. */
  lemma PrintStaysInDisplay(buf: seq<bv8>, start: nat, s: string, m: seq<bv8>, length: nat)
    requires |m| == MaxSegments
    ensures |Printed(buf, start, s, m, length)| == |buf|
    ensures forall k :: 0 <= k < |buf| && (k < start || k >= length) ==> Printed(buf, start, s, m, length)[k] == buf[k]
    ensures forall k :: 0 <= k < |buf| && !(start <= k < start + PrintCount(start, s, length)) ==>
              Printed(buf, start, s, m, length)[k] == buf[k]
    ensures start >= length ==> PrintCount(start, s, length) == 0
    ensures start < length ==> start + PrintCount(start, s, length) <= length
    ensures start < length && PrintCount(start, s, length) < length - start ==> PrintCount(start, s, length) == |Cells(s)|
  {
  }

  /** The written cells are the string's encoding, in order. */
  lemma PrintWritesEncoding(buf: seq<bv8>, start: nat, s: string, m: seq<bv8>, length: nat, j: nat)
    requires |m| == MaxSegments && length <= |buf|
    requires j < PrintCount(start, s, length)
    ensures Printed(buf, start, s, m, length)[start + j] == Encode(s, m)[j]
  {
  }

  /** Printing `t` and then `u` right after it gives the same buffer as
      printing `t + u` at once, as long as `u` does not start with a '.'
      that would fold into `t`'s last cell. */
  lemma {:induction false} PrintSplit(buf: seq<bv8>, start: nat, t: string, u: string, m: seq<bv8>, length: nat)
    requires |m| == MaxSegments
    requires u == [] || u[0] != '.'
    ensures Printed(Printed(buf, start, t, m, length), start + |Cells(t)|, u, m, length)
            == Printed(buf, start, t + u, m, length)
  {
    var et, eu := Encode(t, m), Encode(u, m);
    var mid := Printed(buf, start, t, m, length);
    assert |et| == |Cells(t)|;
    assert mid == Place(buf, start, et, length);
    assert Printed(mid, start + |et|, u, m, length) == Place(mid, start + |et|, eu, length);
    EncodeAppend(t, u, m);
    assert Printed(buf, start, t + u, m, length) == Place(buf, start, et + eu, length);
    PlaceSplit(buf, start, et, eu, length);
  }

  /** Under the same conditions, the two counts add up to the count of
      the whole, and all of `t` is written. */
  lemma {:induction false} PrintSplitCount(start: nat, t: string, u: string, length: nat)
    requires u == [] || u[0] != '.'
    requires start + |Cells(t)| <= length
    ensures PrintCount(start, t, length) == |Cells(t)|
    ensures PrintCount(start, t, length) + PrintCount(start + |Cells(t)|, u, length)
            == PrintCount(start, t + u, length)
  {
    CellsAppend(t, u);
    var ct, cu := Cells(t), Cells(u);
    assert |Cells(t + u)| == |ct| + |cu|;
  }

  /** Placing `a` and then `b` right after it is placing `a + b`. */
  lemma {:induction false} PlaceSplit(buf: seq<bv8>, start: nat, a: seq<bv8>, b: seq<bv8>, length: nat)
    ensures Fit(start, |a|, length) + Fit(start + |a|, |b|, length) == Fit(start, |a + b|, length)
    ensures Place(Place(buf, start, a, length), start + |a|, b, length) == Place(buf, start, a + b, length)
  {
    var once := Place(buf, start, a + b, length);
    var twice := Place(Place(buf, start, a, length), start + |a|, b, length);
    assert |twice| == |once|;
    forall k | 0 <= k < |buf|
      ensures twice[k] == once[k]
    {
      if start + |a| <= k < start + |a| + Fit(start + |a|, |b|, length) {
        assert (a + b)[k - start] == b[k - (start + |a|)];
      } else if start <= k < start + |a| {
        assert (a + b)[k - start] == a[k - start];
      }
    }
  }

  /** "8." on a display with at least one digit writes exactly one cell:
      the remapped '8' together with whatever the map sends the dot to. */
  lemma PrintEightDot(buf: seq<bv8>, m: seq<bv8>, length: nat)
    requires |m| == MaxSegments && 1 <= length <= |buf|
    ensures PrintCount(0, "8.", length) == 1
    ensures Printed(buf, 0, "8.", m, length) == [Remap(Lookup('8'), m) | m[7]] + buf[1..]
  {
    EightDot(m);
    var p := Printed(buf, 0, "8.", m, length);
    assert p[0] == Encode("8.", m)[0];
    assert p == [p[0]] + buf[1..];
  }

  // ---------------------------------------------------------------------
  // display and update, as functions of the state

  /** The control byte of the third transaction: the control command plus
      the brightness (intensity & 7) with the display-on bit 0x08, added
      modulo 256 as a uint8_t. */
  function CtrlByte(cmdCtrl: bv8, intensity: bv8): bv8 {
    cmdCtrl + ((intensity & 7) | 8)
  }

  /** The digit bytes of the address transaction: the whole buffer in index
      order, or, when inverted, the first `length` cells from the last one
      down to the first. */
  function Payload(buf: seq<bv8>, inverted: bool, length: nat): seq<bv8>
    requires length <= |buf|
  {
    if inverted then seq(length, k requires 0 <= k < length => buf[length - 1 - k]) else buf
  }

  /** The three transactions display() sends, in order: the data command,
      the address command with the digit bytes, the control byte. */
  function Transactions(buf: seq<bv8>, inverted: bool, length: nat, intensity: bv8,
                        cmdData: bv8, cmdAddr: bv8, cmdCtrl: bv8): (txs: seq<seq<bv8>>)
    requires length <= |buf|
    ensures TotalBytes(txs) == 3 + |Payload(buf, inverted, length)|
  {
    var txs := [[cmdData], [cmdAddr] + Payload(buf, inverted, length), [CtrlByte(cmdCtrl, intensity)]];
    TransactionsTotal(txs);
    txs
  }

  /** The payload holds 16 bytes in index order, or exactly `length` bytes
      in reverse; reversing twice gives the displayed cells back. */
  lemma PayloadOrder(buf: seq<bv8>, inverted: bool, length: nat)
    requires length <= |buf|
    ensures |Payload(buf, inverted, length)| == if inverted then length else |buf|
    ensures !inverted ==> Payload(buf, inverted, length) == buf
    ensures inverted ==> forall k :: 0 <= k < length ==> Payload(buf, inverted, length)[k] == buf[length - 1 - k]
    ensures inverted ==> Payload(Payload(buf, true, length), true, length) == buf[..length]
  {
  }

  /** The brightness sits in the low three bits of the offset from the
      control command, with bit 3 always set; for intensities 0..7 the
      offset is intensity + 8. */
  lemma CtrlByteBrightness(cmdCtrl: bv8, intensity: bv8)
    ensures (CtrlByte(cmdCtrl, intensity) - cmdCtrl) & 7 == intensity & 7
    ensures (CtrlByte(cmdCtrl, intensity) - cmdCtrl) & 0xF8 == 8
    ensures intensity <= 7 ==> CtrlByte(cmdCtrl, intensity) == cmdCtrl + intensity + 8
  {
  }

  /** display() sends three transactions holding 3 bytes plus the payload;
      the device receives exactly them, in order, whatever it answers in
      the acknowledge slots. */
  lemma DisplayDelivers(buf: seq<bv8>, inverted: bool, length: nat, intensity: bv8,
                        cmdData: bv8, cmdAddr: bv8, cmdCtrl: bv8, acks: seq<bool>, s: Lines)
    requires length <= |buf|
    requires |acks| == 3 + |Payload(buf, inverted, length)|
    ensures TotalBytes(Transactions(buf, inverted, length, intensity, cmdData, cmdAddr, cmdCtrl)) == |acks|
    ensures Received(TransactionEvents(Transactions(buf, inverted, length, intensity, cmdData, cmdAddr, cmdCtrl), acks), s)
            == [[cmdData], [cmdAddr] + Payload(buf, inverted, length), [CtrlByte(cmdCtrl, intensity)]]
  {
    var txs := Transactions(buf, inverted, length, intensity, cmdData, cmdAddr, cmdCtrl);
    TransactionsTotal(txs);
    TransactionsDelivered(txs, acks, s);
  }

  lemma TransactionsTotal(txs: seq<seq<bv8>>)
    requires |txs| == 3
    ensures TotalBytes(txs) == |txs[0]| + |txs[1]| + |txs[2]|
  {
    var r1 := txs[1..];
    var r2 := r1[1..];
    assert r1[0] == txs[1] && r2[0] == txs[2] && r2[1..] == [];
    assert TotalBytes(r2) == |txs[2]| + TotalBytes(r2[1..]);
    assert TotalBytes(r1) == |txs[1]| + TotalBytes(r2);
  }

  /** The trace of three framed transactions, one after the other. */
  lemma ThreeFrames(txs: seq<seq<bv8>>, acks: seq<bool>)
    requires |txs| == 3 && |acks| == |txs[0]| + |txs[1]| + |txs[2]|
    ensures TotalBytes(txs) == |acks|
    ensures TransactionEvents(txs, acks)
            == FrameEvents(txs[0], acks[..|txs[0]|])
             + FrameEvents(txs[1], acks[|txs[0]|..|txs[0]| + |txs[1]|])
             + FrameEvents(txs[2], acks[|txs[0]| + |txs[1]|..])
  {
    TransactionsTotal(txs);
    var a, b := |txs[0]|, |txs[1]|;
    var r1, r2 := txs[1..], txs[1..][1..];
    var l1 := acks[a..];
    var l2 := l1[b..];
    assert r1[0] == txs[1] && r2[0] == txs[2] && r2 == [txs[2]];
    assert l1[..b] == acks[a..a + b];
    assert l2 == acks[a + b..];
    LastTransaction(txs[2], l2);
    TransactionEventsCons(r1, l1);
    TransactionEventsCons(txs, acks);
  }

  lemma TransactionEventsCons(txs: seq<seq<bv8>>, acks: seq<bool>)
    requires txs != [] && |acks| == TotalBytes(txs)
    ensures |acks[|txs[0]|..]| == TotalBytes(txs[1..])
    ensures TransactionEvents(txs, acks)
            == FrameEvents(txs[0], acks[..|txs[0]|]) + TransactionEvents(txs[1..], acks[|txs[0]|..])
  {
  }

  lemma LastTransaction(tx: seq<bv8>, acks: seq<bool>)
    requires |acks| == |tx|
    ensures TotalBytes([tx]) == |tx|
    ensures TransactionEvents([tx], acks) == FrameEvents(tx, acks)
  {
    assert [tx][1..] == [];
    assert acks[..|tx|] == acks;
  }

  /** The settings byte update() computes (and does not send): brightness
      in bits 4..6, the mode in bit 3, power in bit 0 (only with a nonzero
      intensity). */
  function Settings(intensity: bv8, mode: bv8, power: bool): bv8 {
    ((intensity & 7) << 4) | ((mode & 1) << 3) | (if power && intensity != 0 then 1 else 0)
  }

  lemma SettingsLayout(intensity: bv8, mode: bv8, power: bool)
    ensures (Settings(intensity, mode, power) >> 4) & 7 == intensity & 7
    ensures (Settings(intensity, mode, power) >> 3) & 1 == mode & 1
    ensures Settings(intensity, mode, power) & 1 == 1 <==> power && intensity != 0
    ensures Settings(intensity, mode, power) & 0x86 == 0
  {
  }

  /** The buffer update() hands to display(): all zero, then transformed
      by the writer when there is one. */
  function Drawn(writer: Option<seq<bv8> -> seq<bv8>>): seq<bv8> {
    var zeros := seq(MaxDigits, _ => 0 as bv8);
    if writer.Some? then writer.value(zeros) else zeros
  }

  // ---------------------------------------------------------------------
  // The component

  class Display {
    var intensity: bv8
    var mode: bv8
    var power: bool
    var length: nat
    var inverted: bool
    var writer: Option<seq<bv8> -> seq<bv8>>
    var errorCode: ErrorCode
    var keys: seq<Key>
    const buffer: array<bv8>
    const segmentMap: array<bv8>
    /** The data, address and control commands display() sends. */
    const cmdData: bv8
    const cmdAddr: bv8
    const cmdCtrl: bv8
    /** Which bus lines the driver currently pulls low. */
    var lines: Lines
    /** Everything the driver has done on the bus so far. */
    var trace: seq<Event>

    ghost predicate Valid()
      reads this
    {
      buffer.Length == MaxDigits && segmentMap.Length == MaxSegments && buffer != segmentMap
      && length <= MaxDigits
    }

    /** A new display: mode 0, powered, no writer, no keys, every cell zero
        and no error; the segment map, inversion, intensity, length, bus
        commands and line state are given. */
    constructor (intensity: bv8, length: nat, initialMap: seq<bv8>, inverted: bool,
                 cmdData: bv8, cmdAddr: bv8, cmdCtrl: bv8, lines: Lines)
      requires length <= MaxDigits && |initialMap| == MaxSegments
      ensures Valid() && fresh(buffer) && fresh(segmentMap)
      ensures this.intensity == intensity && this.length == length && this.inverted == inverted
      ensures mode == 0 && power && writer == None && errorCode == NoError && keys == []
      ensures buffer[..] == seq(MaxDigits, _ => 0) && segmentMap[..] == initialMap
      ensures this.cmdData == cmdData && this.cmdAddr == cmdAddr && this.cmdCtrl == cmdCtrl
      ensures this.lines == lines && trace == []
    {
      this.intensity := intensity;
      this.mode := 0;
      this.power := true;
      this.length := length;
      this.inverted := inverted;
      this.writer := None;
      this.errorCode := NoError;
      this.keys := [];
      this.buffer := new bv8[MaxDigits](_ => 0);
      this.segmentMap := new bv8[MaxSegments](i requires 0 <= i < MaxSegments => initialMap[i]);
      this.cmdData := cmdData;
      this.cmdAddr := cmdAddr;
      this.cmdCtrl := cmdCtrl;
      this.lines := lines;
      this.trace := [];
    }

    method SetWriter(w: seq<bv8> -> seq<bv8>)
      modifies this`writer
      ensures writer == Some(w)
    {
      writer := Some(w);
    }

    method SetIntensity(v: bv8)
      modifies this`intensity
      ensures intensity == v
    {
      intensity := v;
    }

    method SetMode(v: bv8)
      modifies this`mode
      ensures mode == v
    {
      mode := v;
    }

    method SetPower(v: bool)
      modifies this`power
      ensures power == v
    {
      power := v;
    }

    method SetLength(v: nat)
      requires v <= MaxDigits
      modifies this`length
      ensures length == v
    {
      length := v;
    }

    method AddKey(key: Key)
      modifies this`keys
      ensures keys == old(keys) + [key]
    {
      keys := keys + [key];
    }

    /** Configures the segment map from its right-to-left character
        description. */
    method SetSegmentMap(spec: string)
      requires Valid() && MapChars(spec)
      modifies segmentMap
      ensures segmentMap[..] == ConfiguredMap(old(segmentMap[..]), spec)
    {
      var mapLen := |spec|;
      if mapLen > MaxSegments {
        mapLen := MaxSegments;
      }
      var i := 0;
      while i < mapLen
        invariant mapLen == MapLength(spec) && 0 <= i <= mapLen
        invariant forall j :: 0 <= j < MaxSegments ==>
          segmentMap[j] == if j < i then SegmentBit(spec[mapLen - 1 - j]) else old(segmentMap[j])
      {
        var c := spec[mapLen - 1 - i];
        if c <= 'G' {
          segmentMap[i] := SegmentMasks['G' as int - c as int];  // 1 << ('G' - c)
        } else {
          segmentMap[i] := DotSegment;
        }
        i := i + 1;
      }
      assert segmentMap[..] == ConfiguredMap(old(segmentMap[..]), spec);
    }

    /** The byte stored for glyph `g`: the OR of the map entries of its set
        segments. */
    method RemapGlyph(g: bv8) returns (data: bv8)
      requires Valid()
      ensures data == Remap(g, segmentMap[..])
    {
      data := 0;
      var s := 0;
      while s < MaxSegments
        invariant 0 <= s <= MaxSegments
        invariant data == RemapUpTo(g, segmentMap[..], s)
      {
        RemapUpToStep(g, segmentMap[..], s + 1);
        if g & SegmentMasks[s] != 0 {  // g & (1 << s)
          data := data | segmentMap[s];
        } else {
          OrZero(data);
        }
        s := s + 1;
      }
    }

    /** Writes the encoding of `s` into the buffer from cell `start` on,
        up to the display length, and returns how many cells it wrote.
        `s` is the text before the string's terminating NUL. */
    method Print(start: nat, s: string) returns (n: nat)
      requires Valid() && start < 256 && '\0' !in s
      modifies buffer
      ensures n == PrintCount(start, s, length)
      ensures buffer[..] == Printed(old(buffer[..]), start, s, segmentMap[..], length)
    {
      var pos := start;
      var i := 0;
      ghost var done: seq<bv8> := [];
      while i < |s|
        invariant 0 <= i <= |s|
        invariant Cells(s) == done + Cells(s[i..])
        invariant pos == start + |done|
        invariant start < length ==> pos <= length
        invariant start >= length ==> done == []
        invariant forall k :: 0 <= k < MaxDigits ==>
          buffer[k] == if start <= k < pos then Remap(done[k - start], segmentMap[..]) else old(buffer[k])
      {
        var charData, next := ReadCell(s, i);
        var data := RemapGlyph(charData);
        if pos >= length {
          assert done <= Cells(s);
          break;
        }
        buffer[pos] := data;
        SnocAssoc(done, [charData], Cells(s[next..]));
        done := done + [charData];
        pos := pos + 1;
        i := next;
      }
      n := pos - start;
      PrintResult(old(buffer[..]), buffer[..], start, s, segmentMap[..], length, done, n);
    }

    /** The table glyph of `c`, or the sentinel when it has none. */
    method ReadGlyph(c: char) returns (charData: bv8)
      ensures charData == UnknownChar <==> !Printable(c) || AsciiToRaw[c as int - FirstPrintable as int].Unknown?
      ensures Printable(c) && AsciiToRaw[c as int - FirstPrintable as int].Glyph? ==>
                charData == AsciiToRaw[c as int - FirstPrintable as int].segments
    {
      charData := UnknownChar;
      if FirstPrintable <= c <= LastPrintable {
        TableCoversPrintable();
        charData := AsciiToRaw[c as int - FirstPrintable as int].Raw();
        SentinelOnlyAtUnknown(c as int - FirstPrintable as int);
      }
    }

    /** The glyph of the cell starting at character `i`: the table glyph,
        or the sentinel for a character without one, with the decimal point
        added when a '.' follows (which is then consumed). Returns where the
        next cell starts. */
    method ReadCell(s: string, i: nat) returns (charData: bv8, next: nat)
      requires i < |s|
      ensures i < next <= |s|
      ensures Cells(s[i..]) == [charData] + Cells(s[next..])
    {
      var glyph := ReadLookup(s[i]);
      charData := glyph;
      next := i + 1;
      if i + 1 < |s| && s[i + 1] == '.' {
        charData := charData | DotSegment;
        next := i + 2;
      }
      CellStep(s, i, glyph, charData, next);
    }

    /** The table read, as the lookup the encoding is specified by. */
    method ReadLookup(c: char) returns (glyph: bv8)
      ensures glyph == Lookup(c)
    {
      glyph := ReadGlyph(c);
      GlyphIsLookup(c, glyph);
    }

    /** print(s): print from the first cell. */
    method PrintFromStart(s: string) returns (n: nat)
      requires Valid() && '\0' !in s
      modifies buffer
      ensures n == PrintCount(0, s, length)
      ensures buffer[..] == Printed(old(buffer[..]), 0, s, segmentMap[..], length)
    {
      n := Print(0, s);
    }

    /** printf(pos, ...): `ret` is what the formatter returned and `text`
        what it left in the 64-byte buffer; only a positive result is
        printed. */
    method Printf(pos: nat, ret: int, text: string) returns (n: nat)
      requires Valid() && pos < 256 && |text| < 64 && '\0' !in text
      modifies buffer
      ensures ret <= 0 ==> n == 0 && buffer[..] == old(buffer[..])
      ensures ret > 0 ==> n == PrintCount(pos, text, length)
      ensures ret > 0 ==> buffer[..] == Printed(old(buffer[..]), pos, text, segmentMap[..], length)
    {
      if ret > 0 {
        n := Print(pos, text);
      } else {
        n := 0;
      }
    }

    /** strftime(pos, ...): `ret` is what the time formatter returned and
        `text` what it left in the 64-byte buffer; only a nonzero result is
        printed. */
    method Strftime(pos: nat, ret: nat, text: string) returns (n: nat)
      requires Valid() && pos < 256 && |text| < 64 && '\0' !in text
      modifies buffer
      ensures ret == 0 ==> n == 0 && buffer[..] == old(buffer[..])
      ensures ret > 0 ==> n == PrintCount(pos, text, length)
      ensures ret > 0 ==> buffer[..] == Printed(old(buffer[..]), pos, text, segmentMap[..], length)
    {
      if ret > 0 {
        n := Print(pos, text);
      } else {
        n := 0;
      }
    }

    // -------------------------------------------------------------------
    // The bus

    /** One call of bit_delay_. */
    method BitDelay()
      modifies this`trace
      ensures trace == old(trace) + [Delay]
    {
      trace := trace + [Delay];
    }

    /** Sets the clock pin to output (driven low) or input (released). */
    method ClkMode(driven: bool)
      modifies this`trace, this`lines
      ensures trace == old(trace) + [Clk(driven)]
      ensures lines == old(lines).(clkDriven := driven)
    {
      lines := lines.(clkDriven := driven);
      trace := trace + [Clk(driven)];
    }

    /** Sets the data pin to output (driven low) or input (released). */
    method DioMode(driven: bool)
      modifies this`trace, this`lines
      ensures trace == old(trace) + [Dio(driven)]
      ensures lines == old(lines).(dioDriven := driven)
    {
      lines := lines.(dioDriven := driven);
      trace := trace + [Dio(driven)];
    }

    method Start()
      modifies this`trace, this`lines
      ensures trace == old(trace) + StartEvents()
      ensures lines == Lines(old(lines).clkDriven, true)
    {
      DioMode(true);
      BitDelay();
    }

    /** stop_ is declared but its body is not part of this model: it is
        recorded in the trace, and what it leaves on the lines is unknown,
        so the field may hold any state afterwards. `Wire.Step` keeps the
        state on a stop instead; what a transaction delivers does not
        depend on its starting state, so neither choice is relied on. */
    method Stop()
      modifies this`trace, this`lines
      ensures trace == old(trace) + [StopCall]
    {
      trace := trace + [StopCall];
      lines := *;
    }

    /** One data bit: clock low, data released for a 1 and driven low
        for a 0, clock released, with a delay after each step. */
    method SendBit(bit: bool)
      modifies this`trace, this`lines
      ensures trace == old(trace) + BitSlot(bit)
      ensures lines == Lines(false, !bit)
    {
      ClkMode(true);
      BitDelay();
      if bit {
        DioMode(false);
      } else {
        DioMode(true);
      }
      BitDelay();
      ClkMode(false);
      BitDelay();
    }

    /** Clocks out `b` least significant bit first, then runs the
        acknowledge slot in which the device presents `level`, and returns
        that level (low means acknowledged). */
    method SendByte(b: bv8, level: bool) returns (ack: bool)
      modifies this`trace, this`lines
      ensures ack == level
      ensures trace == old(trace) + SendByteEvents(b, level)
      ensures lines == Lines(true, !level)
    {
      SendBits(b);
      ack := SendAck(level);
    }

    /** The eight data bits of `b`, least significant first: the loop
        tests the low bit and shifts `data` right after every slot. */
    method SendBits(b: bv8)
      modifies this`trace, this`lines
      ensures trace == old(trace) + BitSlots(b, 8)
      ensures lines == Lines(false, !Bit(b, 7))
    {
      var data := b;
      var i := 0;
      while i < 8
        invariant 0 <= i <= 8
        invariant data == b >> i
        invariant trace == old(trace) + BitSlots(b, i)
        invariant i > 0 ==> lines == Lines(false, !Bit(b, i - 1))
      {
        assert BitSlots(b, i + 1) == BitSlots(b, i) + BitSlot(Bit(b, i));
        SendBit(data & 0x01 == 1);
        SnocAssoc(old(trace), BitSlots(b, i), BitSlot(Bit(b, i)));
        ShiftStep(b, i);
        data := data >> 1;
        i := i + 1;
      }
    }

    /** The acknowledge slot: data released, clock released, the device's
        `level` sampled and returned, data driven low again only after a
        low sample, and the clock left driven low. */
    method SendAck(level: bool) returns (ack: bool)
      modifies this`trace, this`lines
      ensures ack == level
      ensures trace == old(trace) + AckSlot(level)
      ensures lines == Lines(true, !level)
    {
      ClkMode(true);
      DioMode(false);
      BitDelay();
      ClkMode(false);
      BitDelay();
      ack := level;
      trace := trace + [Sample(ack)];
      if !ack {
        DioMode(true);
      }
      BitDelay();
      ClkMode(true);
      BitDelay();
    }

    /** A one-byte transaction: start_, send_byte_(b), stop_. */
    method SendCommand(b: bv8, level: bool)
      modifies this`trace, this`lines
      ensures trace == old(trace) + FrameEvents([b], [level])
    {
      Start();
      var ack := SendByte(b, level);
      Stop();
      OneByteFrame(b, level);
    }

    /** The address transaction: start_, the address command, the digit
        bytes (the whole buffer in order, or the first `length` cells from
        the last down when inverted), stop_. */
    method SendDigits(levels: seq<bool>)
      requires Valid()
      requires |levels| == 1 + |Payload(buffer[..], inverted, length)|
      modifies this`trace, this`lines
      ensures trace == old(trace) + FrameEvents([cmdAddr] + Payload(buffer[..], inverted, length), levels)
    {
      ghost var payload := Payload(buffer[..], inverted, length);
      PayloadOrder(buffer[..], inverted, length);
      Start();
      var ack := SendByte(cmdAddr, levels[0]);
      if inverted {
        SendReversed(payload, levels[1..]);
      } else {
        SendInOrder(levels[1..]);
      }
      Stop();
      DigitsFrame(cmdAddr, payload, levels);
      AppendAssoc(old(trace), StartEvents(), SendByteEvents(cmdAddr, levels[0]),
                  BytesEvents(payload, levels[1..]), [StopCall]);
    }

    /** All sixteen cells in index order, cell `i` seeing `levels[i]`. */
    method SendInOrder(levels: seq<bool>)
      requires Valid() && |levels| == MaxDigits
      modifies this`trace, this`lines
      ensures trace == old(trace) + BytesEvents(buffer[..], levels)
      ensures lines == Lines(true, !levels[MaxDigits - 1])
    {
      var i := 0;
      while i < MaxDigits
        invariant 0 <= i <= MaxDigits
        invariant trace == old(trace) + BytesEvents(buffer[..i], levels[..i])
        invariant i > 0 ==> lines == Lines(true, !levels[i - 1])
      {
        BytesEventsSnoc(buffer[..], levels, i);
        assert buffer[..][..i] == buffer[..i] && buffer[..][..i + 1] == buffer[..i + 1];
        var ack := SendByte(buffer[i], levels[i]);
        SnocAssoc(old(trace), BytesEvents(buffer[..i], levels[..i]), SendByteEvents(buffer[i], levels[i]));
        i := i + 1;
      }
      assert buffer[..i] == buffer[..] && levels[..i] == levels;
    }

    /** The first `length` cells from the last one down to the first
        (`payload`), the k-th byte sent seeing `levels[k]`. */
    method SendReversed(ghost payload: seq<bv8>, levels: seq<bool>)
      requires Valid() && |payload| == |levels| == length
      requires forall k :: 0 <= k < length ==> payload[k] == buffer[length - 1 - k]
      modifies this`trace, this`lines
      ensures trace == old(trace) + BytesEvents(payload, levels)
      ensures length == 0 ==> lines == old(lines)
      ensures length > 0 ==> lines == Lines(true, !levels[length - 1])
    {
      var n := length;
      var i: int := n - 1;
      ghost var k := 0;
      while i >= 0
        invariant -1 <= i < n && k == n - 1 - i
        invariant trace == old(trace) + BytesEvents(payload[..k], levels[..k])
        invariant k == 0 ==> lines == old(lines)
        invariant k > 0 ==> lines == Lines(true, !levels[k - 1])
      {
        BytesEventsSnoc(payload, levels, k);
        assert payload[k] == buffer[i];
        var ack := SendByte(buffer[i], levels[n - 1 - i]);
        SnocAssoc(old(trace), BytesEvents(payload[..k], levels[..k]), SendByteEvents(payload[k], levels[k]));
        i := i - 1;
        k := k + 1;
      }
      assert payload[..k] == payload && levels[..k] == levels;
    }

    /** display(): sends the whole buffer as three framed transactions;
        byte k of the transfer sees acknowledge level acks[k]. */
    method Show(acks: seq<bool>)
      requires Valid()
      requires |acks| == 3 + |Payload(buffer[..], inverted, length)|
      modifies this`trace, this`lines
      ensures trace == old(trace)
        + TransactionEvents(Transactions(buffer[..], inverted, length, intensity, cmdData, cmdAddr, cmdCtrl), acks)
    {
      ghost var txs := Transactions(buffer[..], inverted, length, intensity, cmdData, cmdAddr, cmdCtrl);
      var p := if inverted then length else MaxDigits;
      PayloadOrder(buffer[..], inverted, length);
      assert txs[0] == [cmdData] && txs[2] == [CtrlByte(cmdCtrl, intensity)];
      assert txs[1] == [cmdAddr] + Payload(buffer[..], inverted, length);
      assert |acks| - 1 == 2 + p;
      SendCommand(cmdData, acks[0]);
      SendDigits(acks[1..2 + p]);
      SendCommand(CtrlByte(cmdCtrl, intensity), acks[2 + p]);
      ShowEvents(old(trace), txs, acks);
    }

    /** Clears the buffer, lets the writer draw, and sends the result. */
    method Update(acks: seq<bool>)
      requires Valid()
      requires writer.Some? ==> |writer.value(seq(MaxDigits, _ => 0 as bv8))| == MaxDigits
      requires |acks| == 3 + (if inverted then length else MaxDigits)
      modifies this`trace, this`lines, buffer
      ensures buffer[..] == Drawn(writer)
      ensures trace == old(trace)
        + TransactionEvents(Transactions(buffer[..], inverted, length, intensity, cmdData, cmdAddr, cmdCtrl), acks)
    {
      var settings := Settings(intensity, mode, power);
      var i := 0;
      while i < MaxDigits
        invariant 0 <= i <= MaxDigits
        invariant forall k :: 0 <= k < i ==> buffer[k] == 0
        invariant trace == old(trace)
      {
        buffer[i] := 0;
        i := i + 1;
      }
      assert buffer[..] == seq(MaxDigits, _ => 0 as bv8);
      if writer.Some? {
        var drawn := writer.value(buffer[..]);
        i := 0;
        while i < MaxDigits
          invariant 0 <= i <= MaxDigits
          invariant forall k :: 0 <= k < i ==> buffer[k] == drawn[k]
          invariant trace == old(trace)
        {
          buffer[i] := drawn[i];
          i := i + 1;
        }
        assert buffer[..] == drawn;
      }
      Show(acks);
    }
  }

  /** A key sensor: publishes whether each scanned key code is its own. */
  class Key {
    var keyCode: bv8
    /** The states published so far, oldest first. */
    var published: seq<bool>

    constructor ()
      ensures keyCode == 0 && published == []
    {
      keyCode := 0;
      published := [];
    }

    method SetKeycode(code: bv8)
      modifies this`keyCode
      ensures keyCode == code
    {
      keyCode := code;
    }

    /** Publishes true iff `data` is exactly this key's code. */
    method Process(data: bv8)
      modifies this`published
      ensures published == old(published) + [data == keyCode]
    {
      published := published + [data == keyCode];
    }
  }

  // ---------------------------------------------------------------------
  // Proof helpers

  lemma OrZero(x: bv8)
    ensures x | 0 == x
  {
  }

  /** Shifting right once more drops the next bit. */
  lemma ShiftStep(b: bv8, i: nat)
    requires i < 8
    ensures (b >> i) >> 1 == b >> (i + 1)
  {
    if i == 0 {} else if i == 1 {} else if i == 2 {} else if i == 3 {}
    else if i == 4 {} else if i == 5 {} else if i == 6 {} else {}
  }

  /** The next cell starting at character `i`. */
  lemma CellsAt(s: string, i: nat)
    requires i < |s|
    ensures i + 1 < |s| && s[i + 1] == '.' ==> Cells(s[i..]) == [Lookup(s[i]) | DotSegment] + Cells(s[i + 2..])
    ensures !(i + 1 < |s| && s[i + 1] == '.') ==> Cells(s[i..]) == [Lookup(s[i])] + Cells(s[i + 1..])
  {
    assert s[i..][0] == s[i];
    if i + 1 < |s| {
      assert s[i..][1] == s[i + 1];
      assert s[i..][2..] == s[i + 2..];
    }
    assert s[i..][1..] == s[i + 1..];
  }

  /** The cell read at character `i`, with or without the folded dot. */
  lemma CellStep(s: string, i: nat, glyph: bv8, g: bv8, next: nat)
    requires i < |s| && glyph == Lookup(s[i])
    requires i + 1 < |s| && s[i + 1] == '.' ==> g == glyph | DotSegment && next == i + 2
    requires !(i + 1 < |s| && s[i + 1] == '.') ==> g == glyph && next == i + 1
    ensures Cells(s[i..]) == [g] + Cells(s[next..])
  {
    CellsAt(s, i);
  }

  /** After the print loop: the count and buffer it leaves are the ones
      PrintCount and Printed describe. */
  lemma PrintResult(before: seq<bv8>, after: seq<bv8>, start: nat, s: string, m: seq<bv8>,
                    length: nat, done: seq<bv8>, n: nat)
    requires |m| == MaxSegments && |before| == |after| == MaxDigits && length <= MaxDigits
    requires n == |done| && done <= Cells(s)
    requires start < length ==> start + n <= length
    requires start >= length ==> done == []
    requires done == Cells(s) || start + n >= length
    requires forall k :: 0 <= k < MaxDigits ==>
      after[k] == if start <= k < start + n then Remap(done[k - start], m) else before[k]
    ensures n == PrintCount(start, s, length)
    ensures after == Printed(before, start, s, m, length)
  {
    var cells := Cells(s);
    var e := Encode(s, m);
    assert n == PrintCount(start, s, length);
    assert Printed(before, start, s, m, length) == Place(before, start, e, length);
    forall k | 0 <= k < MaxDigits
      ensures after[k] == Place(before, start, e, length)[k]
    {
      PlaceAt(before, start, e, length, k);
      if start <= k < start + n {
        assert done[k - start] == cells[k - start];
        assert e[k - start] == Remap(cells[k - start], m);
      }
    }
    PlaceAt(before, start, e, length, 0);
  }

  /** One cell of a placement. */
  lemma PlaceAt(buf: seq<bv8>, start: nat, cells: seq<bv8>, length: nat, k: nat)
    requires k < |buf|
    ensures |Place(buf, start, cells, length)| == |buf|
    ensures Place(buf, start, cells, length)[k]
            == if start <= k < start + Fit(start, |cells|, length) then cells[k - start] else buf[k]
  {
  }

  /** A one-byte transaction. */
  lemma OneByteFrame(b: bv8, level: bool)
    ensures FrameEvents([b], [level]) == StartEvents() + SendByteEvents(b, level) + [StopCall]
  {
    assert [b][..0] == [] && [level][..0] == [];
    assert BytesEvents([b], [level]) == BytesEvents([], []) + SendByteEvents(b, level);
    assert BytesEvents([b], [level]) == SendByteEvents(b, level);
  }

  /** The address transaction: start_, the command byte, the digit bytes,
      stop_. */
  lemma DigitsFrame(cmd: bv8, payload: seq<bv8>, levels: seq<bool>)
    requires |levels| == 1 + |payload|
    ensures FrameEvents([cmd] + payload, levels)
            == StartEvents() + SendByteEvents(cmd, levels[0]) + BytesEvents(payload, levels[1..]) + [StopCall]
  {
    assert [levels[0]] + levels[1..] == levels;
    BytesEventsCons(cmd, payload, levels[0], levels[1..]);
    ConcatAssoc(StartEvents(), SendByteEvents(cmd, levels[0]), BytesEvents(payload, levels[1..]), [StopCall]);
  }

  lemma ConcatAssoc<T>(a: seq<T>, b: seq<T>, c: seq<T>, d: seq<T>)
    ensures a + (b + c) + d == a + b + c + d
  {
  }

  /** The events of display()'s three transactions, frame by frame. */
  lemma ShowEvents(t: seq<Event>, txs: seq<seq<bv8>>, acks: seq<bool>)
    requires |txs| == 3 && |txs[0]| == |txs[2]| == 1 && |acks| == 2 + |txs[1]|
    ensures TotalBytes(txs) == |acks|
    ensures t + TransactionEvents(txs, acks)
            == t + FrameEvents(txs[0], [acks[0]]) + FrameEvents(txs[1], acks[1..|acks| - 1])
               + FrameEvents(txs[2], [acks[|acks| - 1]])
  {
    var n := |acks|;
    ThreeFrames(txs, acks);
    assert acks[..1] == [acks[0]];
    assert acks[n - 1..] == [acks[n - 1]];
    ThreeAssoc(t, FrameEvents(txs[0], [acks[0]]), FrameEvents(txs[1], acks[1..n - 1]),
               FrameEvents(txs[2], [acks[n - 1]]));
  }

  lemma ThreeAssoc<T>(t: seq<T>, a: seq<T>, b: seq<T>, c: seq<T>)
    ensures t + (a + b + c) == t + a + b + c
  {
  }

  lemma AppendAssoc<T>(t: seq<T>, a: seq<T>, b: seq<T>, c: seq<T>, d: seq<T>)
    ensures t + (a + b + c + d) == t + a + b + c + d
  {
  }

  /** A run that starts with `b` is `b`'s byte followed by the rest. */
  lemma {:induction false} BytesEventsCons(b: bv8, bytes: seq<bv8>, level: bool, levels: seq<bool>)
    requires |bytes| == |levels|
    ensures BytesEvents([b] + bytes, [level] + levels)
            == SendByteEvents(b, level) + BytesEvents(bytes, levels)
    decreases |bytes|
  {
    var n := |bytes|;
    if n == 0 {
      assert ([b] + bytes)[..0] == [] && ([level] + levels)[..0] == [];
    } else {
      var bs, ls := [b] + bytes, [level] + levels;
      assert bs[..n] == [b] + bytes[..n - 1] && bs[n] == bytes[n - 1];
      assert ls[..n] == [level] + levels[..n - 1] && ls[n] == levels[n - 1];
      BytesEventsCons(b, bytes[..n - 1], level, levels[..n - 1]);
      SnocAssoc(SendByteEvents(b, level), BytesEvents(bytes[..n - 1], levels[..n - 1]),
                SendByteEvents(bytes[n - 1], levels[n - 1]));
    }
  }

  /** Sending one more byte of a run extends its events. */
  lemma BytesEventsSnoc(bytes: seq<bv8>, levels: seq<bool>, j: nat)
    requires |bytes| == |levels| && j < |bytes|
    ensures BytesEvents(bytes[..j + 1], levels[..j + 1])
            == BytesEvents(bytes[..j], levels[..j]) + SendByteEvents(bytes[j], levels[j])
  {
    assert bytes[..j + 1][..j] == bytes[..j];
    assert levels[..j + 1][..j] == levels[..j];
  }
}
