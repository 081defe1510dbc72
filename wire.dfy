/** The bit-banged two-wire engine of the TM1650 driver, as traces of line
    events. Each line is either driven low (its pin in output mode; the
    output level is set to false once at setup) or released (its pin in
    input mode, so the pull-up lets it float high). */
module Wire {

  /** Which of the two lines the driver currently pulls low. */
  datatype Lines = Lines(clkDriven: bool, dioDriven: bool)

  /** One observable action of the driver on the bus. */
  datatype Event =
    | Clk(driven: bool)    // pin mode of the clock line: output (driven) or input (released)
    | Dio(driven: bool)    // pin mode of the data line
    | Delay                // one call of bit_delay_
    | Sample(level: bool)  // one read of the data line, with the level read
    | StopCall             // a call of stop_, whose body is not part of this model

  /** The line state after one event. A stop call leaves the modelled
      state as it is: its real effect on the lines is unknown here, and
      `Display.Stop` accordingly leaves the field unconstrained. What a
      framed transaction delivers does not depend on the state it starts
      from (`FrameDelivers` holds for every `s`), so the choice made here
      for a stop does not affect what is received. */
  function Step(s: Lines, e: Event): Lines {
    match e
    case Clk(d) => s.(clkDriven := d)
    case Dio(d) => s.(dioDriven := d)
    case _ => s
  }

  /** The line state after a whole trace. */
  function Replay(t: seq<Event>, s: Lines): Lines
    decreases |t|
  {
    if t == [] then s else Replay(t[1..], Step(s, t[0]))
  }

  /** For every clock release in `t`, in order: whether the driver had the
      data line released at that moment, which is what the device latches
      as a 1 bit. */
  function ReleasedAtClockRise(t: seq<Event>, s: Lines): seq<bool>
    decreases |t|
  {
    if t == [] then []
    else (if t[0] == Clk(false) then [!s.dioDriven] else []) + ReleasedAtClockRise(t[1..], Step(s, t[0]))
  }

  /** How often `e` occurs in `t`. */
  function Count(t: seq<Event>, e: Event): nat
    decreases |t|
  {
    if t == [] then 0 else (if t[0] == e then 1 else 0) + Count(t[1..], e)
  }

  /** Bit `k` of `b`, bit 0 being the least significant. */
  function Bit(b: bv8, k: nat): bool
    requires k < 8
  {
    (b >> k) & 1 == 1
  }

  /** The eight bits of `b`, least significant first. */
  function BitsOf(b: bv8): seq<bool> {
    seq(8, k requires 0 <= k < 8 => Bit(b, k))
  }

  /** One data-bit slot of send_byte_: clock low, data set from the bit,
      clock released, with a delay after each of the three steps. */
  function BitSlot(bit: bool): seq<Event> {
    [Clk(true), Delay, Dio(!bit), Delay, Clk(false), Delay]
  }

  /** The slots of the first `n` bits of `b`, least significant first. */
  function BitSlots(b: bv8, n: nat): seq<Event>
    requires n <= 8
  {
    if n == 0 then [] else BitSlots(b, n - 1) + BitSlot(Bit(b, n - 1))
  }

  /** The acknowledge slot: clock low, data released, clock released, data
      sampled (`level` is what the device presents); the data line is
      driven low again only when the sample was low; then the clock ends
      driven low. */
  function AckSlot(level: bool): seq<Event> {
    [Clk(true), Dio(false), Delay, Clk(false), Delay, Sample(level)]
    + (if level then [] else [Dio(true)])
    + [Delay, Clk(true), Delay]
  }

  /** Everything send_byte_(b) does on the bus when the device presents
      `level` in the acknowledge slot. */
  function SendByteEvents(b: bv8, level: bool): seq<Event> {
    BitSlots(b, 8) + AckSlot(level)
  }

  /** start_: data driven low, then one delay; the clock is not touched. */
  function StartEvents(): seq<Event> {
    [Dio(true), Delay]
  }

  /** A sequence of send_byte_ calls, the i-th byte seeing `levels[i]`. */
  function BytesEvents(bytes: seq<bv8>, levels: seq<bool>): seq<Event>
    requires |bytes| == |levels|
  {
    if bytes == [] then []
    else BytesEvents(bytes[..|bytes| - 1], levels[..|levels| - 1])
         + SendByteEvents(bytes[|bytes| - 1], levels[|levels| - 1])
  }

  /** One transaction as display() frames it: start_, the bytes, stop_. */
  function FrameEvents(bytes: seq<bv8>, levels: seq<bool>): seq<Event>
    requires |bytes| == |levels|
  {
    StartEvents() + BytesEvents(bytes, levels) + [StopCall]
  }

  /** The byte a receiver assembles from `bits`, the first bit being the
      least significant. */
  function LsbFirstByte(bits: seq<bool>): bv8
    requires |bits| <= 8
  {
    if bits == [] then 0
    else LsbFirstByte(bits[..|bits| - 1]) | (if bits[|bits| - 1] then (1 as bv8) << (|bits| - 1) else 0)
  }

  /** The bytes a receiver decodes from the data levels at successive clock
      rises: eight data bits and one acknowledge clock per byte. */
  function Unframe(rises: seq<bool>): seq<bv8>
    decreases |rises|
  {
    if |rises| < 9 then [] else [LsbFirstByte(rises[..8])] + Unframe(rises[9..])
  }

  /** The clock rises a receiver sees for `bytes`: each byte's bits, least
      significant first, then the acknowledge clock with data released. */
  function ByteRises(bytes: seq<bv8>): seq<bool> {
    if bytes == [] then [] else ByteRises(bytes[..|bytes| - 1]) + (BitsOf(bytes[|bytes| - 1]) + [true])
  }

  // ---------------------------------------------------------------------
  // Trace algebra

  lemma {:induction false} ReplayAppend(a: seq<Event>, b: seq<Event>, s: Lines)
    ensures Replay(a + b, s) == Replay(b, Replay(a, s))
    decreases |a|
  {
    if a != [] {
      assert (a + b)[0] == a[0];
      assert (a + b)[1..] == a[1..] + b;
      ReplayAppend(a[1..], b, Step(s, a[0]));
    } else {
      assert a + b == b;
    }
  }

  lemma {:induction false} RisesAppend(a: seq<Event>, b: seq<Event>, s: Lines)
    ensures ReleasedAtClockRise(a + b, s) == ReleasedAtClockRise(a, s) + ReleasedAtClockRise(b, Replay(a, s))
    decreases |a|
  {
    if a != [] {
      assert (a + b)[0] == a[0];
      assert (a + b)[1..] == a[1..] + b;
      RisesAppend(a[1..], b, Step(s, a[0]));
    } else {
      assert a + b == b;
    }
  }

  lemma {:induction false} CountAppend(a: seq<Event>, b: seq<Event>, e: Event)
    ensures Count(a + b, e) == Count(a, e) + Count(b, e)
    decreases |a|
  {
    if a != [] {
      assert (a + b)[0] == a[0];
      assert (a + b)[1..] == a[1..] + b;
      CountAppend(a[1..], b, e);
    } else {
      assert a + b == b;
    }
  }

  // ---------------------------------------------------------------------
  // send_byte_

  /** One data slot: a single clock rise, seeing the data line released
      iff `bit`; it leaves the clock released and the data line set from
      the bit. */
  lemma BitSlotLines(bit: bool, s: Lines)
    ensures ReleasedAtClockRise(BitSlot(bit), s) == [bit]
    ensures Replay(BitSlot(bit), s) == Lines(false, !bit)
  {
    var t := BitSlot(bit);
    var s1 := Lines(true, s.dioDriven);
    var s3 := Lines(true, !bit);
    var s5 := Lines(false, !bit);
    assert t[5..] == [Delay];
    assert ReleasedAtClockRise(t[5..], s5) == [] && Replay(t[5..], s5) == s5;
    assert ReleasedAtClockRise(t[4..], s3) == [bit] && Replay(t[4..], s3) == s5;
    assert ReleasedAtClockRise(t[3..], s3) == [bit] && Replay(t[3..], s3) == s5;
    assert ReleasedAtClockRise(t[2..], s1) == [bit] && Replay(t[2..], s1) == s5;
    assert ReleasedAtClockRise(t[1..], s1) == [bit] && Replay(t[1..], s1) == s5;
  }

  /** A data slot holds one clock release, three delays and no read. */
  lemma BitSlotCounts(bit: bool, level: bool)
    ensures Count(BitSlot(bit), Clk(false)) == 1
    ensures Count(BitSlot(bit), Delay) == 3
    ensures Count(BitSlot(bit), Sample(level)) == 0
  {
    var t := BitSlot(bit);
    assert t[5..] == [Delay];
    assert Count(t[5..], Clk(false)) == 0 && Count(t[5..], Delay) == 1 && Count(t[5..], Sample(level)) == 0;
    assert Count(t[4..], Clk(false)) == 1 && Count(t[4..], Delay) == 1 && Count(t[4..], Sample(level)) == 0;
    assert Count(t[3..], Clk(false)) == 1 && Count(t[3..], Delay) == 2 && Count(t[3..], Sample(level)) == 0;
    assert Count(t[2..], Clk(false)) == 1 && Count(t[2..], Delay) == 2 && Count(t[2..], Sample(level)) == 0;
    assert Count(t[1..], Clk(false)) == 1 && Count(t[1..], Delay) == 3 && Count(t[1..], Sample(level)) == 0;
  }

  /** The acknowledge slot: a single clock rise with the data line
      released; it ends with the clock driven low and the data line driven
      low iff the read was low. */
  lemma AckSlotLines(level: bool, s: Lines)
    ensures ReleasedAtClockRise(AckSlot(level), s) == [true]
    ensures Replay(AckSlot(level), s) == Lines(true, !level)
  {
    var t := AckSlot(level);
    var tail := [Delay, Clk(true), Delay];
    var sEnd := Lines(true, !level);
    var sRead := Lines(false, !level);
    assert ReleasedAtClockRise(tail, sRead) == [] && Replay(tail, sRead) == sEnd;
    var k := if level then 6 else 7;
    assert t[k..] == tail;
    var sUp := Lines(false, false);
    if !level {
      assert t[6..] == [Dio(true)] + tail;
      assert ReleasedAtClockRise(t[6..], sUp) == [] && Replay(t[6..], sUp) == sEnd;
    }
    var sLow := Lines(true, false);
    assert ReleasedAtClockRise(t[5..], sUp) == [] && Replay(t[5..], sUp) == sEnd;
    assert ReleasedAtClockRise(t[4..], sUp) == [] && Replay(t[4..], sUp) == sEnd;
    assert ReleasedAtClockRise(t[3..], sLow) == [true] && Replay(t[3..], sLow) == sEnd;
    assert ReleasedAtClockRise(t[2..], sLow) == [true] && Replay(t[2..], sLow) == sEnd;
    var s1 := Lines(true, s.dioDriven);
    assert ReleasedAtClockRise(t[1..], s1) == [true] && Replay(t[1..], s1) == sEnd;
  }

  /** The acknowledge slot holds one clock release, four delays and one
      read. */
  lemma AckSlotCounts(level: bool)
    ensures Count(AckSlot(level), Clk(false)) == 1
    ensures Count(AckSlot(level), Delay) == 4
    ensures Count(AckSlot(level), Sample(level)) == 1
  {
    var head := [Clk(true), Dio(false), Delay, Clk(false), Delay, Sample(level)];
    var mid: seq<Event> := if level then [] else [Dio(true)];
    var tail := [Delay, Clk(true), Delay];
    assert AckSlot(level) == (head + mid) + tail;
    AckHeadCounts(level);
    assert Count(mid, Clk(false)) == 0 && Count(mid, Delay) == 0 && Count(mid, Sample(level)) == 0;
    assert tail[1..] == [Clk(true), Delay] && tail[2..] == [Delay];
    assert Count(tail, Clk(false)) == 0 && Count(tail, Delay) == 2 && Count(tail, Sample(level)) == 0;
    CountAppend(head, mid, Clk(false));
    CountAppend(head, mid, Delay);
    CountAppend(head, mid, Sample(level));
    CountAppend(head + mid, tail, Clk(false));
    CountAppend(head + mid, tail, Delay);
    CountAppend(head + mid, tail, Sample(level));
  }

  lemma AckHeadCounts(level: bool)
    ensures Count([Clk(true), Dio(false), Delay, Clk(false), Delay, Sample(level)], Clk(false)) == 1
    ensures Count([Clk(true), Dio(false), Delay, Clk(false), Delay, Sample(level)], Delay) == 2
    ensures Count([Clk(true), Dio(false), Delay, Clk(false), Delay, Sample(level)], Sample(level)) == 1
  {
    var t := [Clk(true), Dio(false), Delay, Clk(false), Delay, Sample(level)];
    assert t[5..] == [Sample(level)];
    assert Count(t[5..], Delay) == 0 && Count(t[5..], Clk(false)) == 0 && Count(t[5..], Sample(level)) == 1;
    assert Count(t[4..], Delay) == 1 && Count(t[4..], Clk(false)) == 0 && Count(t[4..], Sample(level)) == 1;
    assert Count(t[3..], Delay) == 1 && Count(t[3..], Clk(false)) == 1 && Count(t[3..], Sample(level)) == 1;
    assert Count(t[2..], Delay) == 2 && Count(t[2..], Clk(false)) == 1 && Count(t[2..], Sample(level)) == 1;
    assert Count(t[1..], Delay) == 2 && Count(t[1..], Clk(false)) == 1 && Count(t[1..], Sample(level)) == 1;
  }

  /** In the k-th data slot the data line is released exactly when bit k is
      1, whatever the lines were before. */
  lemma {:induction false} BitSlotsRises(b: bv8, n: nat, s: Lines)
    requires n <= 8
    ensures ReleasedAtClockRise(BitSlots(b, n), s) == BitsOf(b)[..n]
  {
    if n > 0 {
      BitSlotsRises(b, n - 1, s);
      RisesAppend(BitSlots(b, n - 1), BitSlot(Bit(b, n - 1)), s);
      BitSlotLines(Bit(b, n - 1), Replay(BitSlots(b, n - 1), s));
      assert BitsOf(b)[..n] == BitsOf(b)[..n - 1] + [Bit(b, n - 1)];
    }
  }

  /** send_byte_ releases the clock nine times: at the k-th release (k < 8)
      the data line is released iff bit k of `b` is 1 (least significant
      bit first), and at the ninth, the acknowledge clock, data is released. */
  lemma SendByteRises(b: bv8, level: bool, s: Lines)
    ensures ReleasedAtClockRise(SendByteEvents(b, level), s) == BitsOf(b) + [true]
  {
    BitSlotsRises(b, 8, s);
    RisesAppend(BitSlots(b, 8), AckSlot(level), s);
    AckSlotLines(level, Replay(BitSlots(b, 8), s));
    assert BitsOf(b)[..8] == BitsOf(b);
  }

  /** Whatever the lines were, send_byte_ ends with the clock driven low,
      and with the data line driven low iff the acknowledge sample was low. */
  lemma SendByteEndState(b: bv8, level: bool, s: Lines)
    ensures Replay(SendByteEvents(b, level), s) == Lines(true, !level)
  {
    ReplayAppend(BitSlots(b, 8), AckSlot(level), s);
    AckSlotLines(level, Replay(BitSlots(b, 8), s));
  }

  lemma {:induction false} BitSlotsCounts(b: bv8, n: nat, level: bool)
    requires n <= 8
    ensures Count(BitSlots(b, n), Clk(false)) == n
    ensures Count(BitSlots(b, n), Delay) == 3 * n
    ensures Count(BitSlots(b, n), Sample(level)) == 0
  {
    if n > 0 {
      var init, last := BitSlots(b, n - 1), BitSlot(Bit(b, n - 1));
      BitSlotsCounts(b, n - 1, level);
      BitSlotCounts(Bit(b, n - 1), level);
      CountAppend(init, last, Clk(false));
      CountAppend(init, last, Delay);
      CountAppend(init, last, Sample(level));
    }
  }

  /** send_byte_ releases the clock exactly 9 times (8 data, 1 acknowledge),
      calls bit_delay_ exactly 28 times and reads the data line once. */
  lemma SendByteCounts(b: bv8, level: bool)
    ensures Count(SendByteEvents(b, level), Clk(false)) == 9
    ensures Count(SendByteEvents(b, level), Delay) == 28
    ensures Count(SendByteEvents(b, level), Sample(level)) == 1
  {
    BitSlotsCounts(b, 8, level);
    AckSlotCounts(level);
    CountAppend(BitSlots(b, 8), AckSlot(level), Clk(false));
    CountAppend(BitSlots(b, 8), AckSlot(level), Delay);
    CountAppend(BitSlots(b, 8), AckSlot(level), Sample(level));
  }

  /** start_ drives the data line low and leaves the clock as it was. */
  lemma StartEndState(s: Lines)
    ensures Replay(StartEvents(), s) == Lines(s.clkDriven, true)
    ensures ReleasedAtClockRise(StartEvents(), s) == []
  {
  }

  // ---------------------------------------------------------------------
  // What the device receives

  /** Assembling the bits of `b` least significant first gives `b` back:
      after k bits the receiver holds the low k bits of `b`. */
  lemma BitsRoundTrip(b: bv8)
    ensures LsbFirstByte(BitsOf(b)) == b
  {
    var bits := BitsOf(b);
    LowNibbleRoundTrip(b);
    assert bits[..5][..4] == bits[..4];
    assert LsbFirstByte(bits[..5]) == b & 0x1F;
    assert bits[..6][..5] == bits[..5];
    assert LsbFirstByte(bits[..6]) == b & 0x3F;
    assert bits[..7][..6] == bits[..6];
    assert LsbFirstByte(bits[..7]) == b & 0x7F;
    assert bits[..8][..7] == bits[..7];
    assert LsbFirstByte(bits[..8]) == b & 0xFF;
    assert bits[..8] == bits;
  }

  /** The first four bits assemble into the low nibble of `b`. */
  lemma LowNibbleRoundTrip(b: bv8)
    ensures LsbFirstByte(BitsOf(b)[..4]) == b & 0x0F
  {
    var bits := BitsOf(b);
    assert bits[..1][..0] == bits[..0];
    assert LsbFirstByte(bits[..1]) == b & 0x01;
    assert bits[..2][..1] == bits[..1];
    assert LsbFirstByte(bits[..2]) == b & 0x03;
    assert bits[..3][..2] == bits[..2];
    assert LsbFirstByte(bits[..3]) == b & 0x07;
    assert bits[..4][..3] == bits[..3];
  }

  /** The byte the device latches from one send_byte_(b) is `b`. */
  lemma SendByteLatches(b: bv8, level: bool, s: Lines)
    ensures |ReleasedAtClockRise(SendByteEvents(b, level), s)| == 9
    ensures LsbFirstByte(ReleasedAtClockRise(SendByteEvents(b, level), s)[..8]) == b
  {
    SendByteRises(b, level, s);
    assert (BitsOf(b) + [true])[..8] == BitsOf(b);
    BitsRoundTrip(b);
  }

  /** The clock rises of a run of send_byte_ calls do not depend on the
      acknowledge levels or on the starting state. */
  lemma {:induction false} BytesRises(bytes: seq<bv8>, levels: seq<bool>, s: Lines)
    requires |bytes| == |levels|
    ensures ReleasedAtClockRise(BytesEvents(bytes, levels), s) == ByteRises(bytes)
    decreases |bytes|
  {
    if bytes != [] {
      var n := |bytes| - 1;
      BytesRises(bytes[..n], levels[..n], s);
      RisesAppend(BytesEvents(bytes[..n], levels[..n]), SendByteEvents(bytes[n], levels[n]),s);
      SendByteRises(bytes[n], levels[n], Replay(BytesEvents(bytes[..n], levels[..n]), s));
    }
  }

  lemma {:induction false} ByteRisesLength(bytes: seq<bv8>)
    ensures |ByteRises(bytes)| == 9 * |bytes|
    decreases |bytes|
  {
    if bytes != [] {
      ByteRisesLength(bytes[..|bytes| - 1]);
    }
  }

  lemma {:induction false} UnframeAppend(x: seq<bool>, y: seq<bool>)
    requires |x| % 9 == 0
    ensures Unframe(x + y) == Unframe(x) + Unframe(y)
    decreases |x|
  {
    if x != [] {
      assert |x| >= 9;
      assert |x[9..]| % 9 == 0;
      assert (x + y)[..8] == x[..8];
      assert (x + y)[9..] == x[9..] + y;
      UnframeAppend(x[9..], y);
    } else {
      assert x + y == y;
    }
  }

  /** The nine clock rises of one byte decode to that byte. */
  lemma UnframeByte(b: bv8)
    ensures Unframe(BitsOf(b) + [true]) == [b]
  {
    var rises := BitsOf(b) + [true];
    assert rises[..8] == BitsOf(b);
    assert rises[9..] == [];
    BitsRoundTrip(b);
  }

  /** Decoding the clock rises of `bytes` gives `bytes` back. */
  lemma {:induction false} ByteRisesRoundTrip(bytes: seq<bv8>)
    ensures Unframe(ByteRises(bytes)) == bytes
    decreases |bytes|
  {
    if bytes != [] {
      var n := |bytes| - 1;
      assert ByteRises(bytes) == ByteRises(bytes[..n]) + (BitsOf(bytes[n]) + [true]);
      ByteRisesRoundTrip(bytes[..n]);
      ByteRisesLength(bytes[..n]);
      UnframeAppend(ByteRises(bytes[..n]), BitsOf(bytes[n]) + [true]);
      UnframeByte(bytes[n]);
      assert bytes[..n] + [bytes[n]] == bytes;
    }
  }

  /** A framed transaction delivers exactly its bytes, in order, whatever
      the acknowledge levels and the starting line state. */
  lemma FrameDelivers(bytes: seq<bv8>, levels: seq<bool>, s: Lines)
    requires |bytes| == |levels|
    ensures Unframe(ReleasedAtClockRise(FrameEvents(bytes, levels), s)) == bytes
  {
    var t0 := StartEvents();
    var t1 := BytesEvents(bytes, levels);
    RisesAppend(t0 + t1, [StopCall], s);
    RisesAppend(t0, t1, s);
    BytesRises(bytes, levels, Replay(t0, s));
    assert ReleasedAtClockRise(t0, s) == [];
    assert ReleasedAtClockRise([StopCall], Replay(t0 + t1, s)) == [];
    assert ReleasedAtClockRise(FrameEvents(bytes, levels), s) == ByteRises(bytes);
    ByteRisesRoundTrip(bytes);
  }

  // ---------------------------------------------------------------------
  // Transactions

  /** The clock-rise levels of `t`, grouped into transactions: each stop
      call closes the current group, so the last group is the one still
      open at the end of `t`. */
  function Groups(t: seq<Event>, s: Lines): (g: seq<seq<bool>>)
    ensures |g| == Count(t, StopCall) + 1
    decreases |t|
  {
    if t == [] then [[]]
    else
      var rest := Groups(t[1..], Step(s, t[0]));
      if t[0] == StopCall then [[]] + rest
      else if t[0] == Clk(false) then [[!s.dioDriven] + rest[0]] + rest[1..]
      else rest
  }

  /** The bytes of every transaction a receiver sees completed (closed by a
      stop call) in `t`, in order. */
  function Received(t: seq<Event>, s: Lines): seq<seq<bv8>> {
    var g := Groups(t, s);
    seq(|g| - 1, i requires 0 <= i < |g| - 1 => Unframe(g[i]))
  }

  /** Total number of bytes in a list of transactions. */
  function TotalBytes(txs: seq<seq<bv8>>): nat {
    if txs == [] then 0 else |txs[0]| + TotalBytes(txs[1..])
  }

  /** A list of transactions sent one after the other, each framed by
      start_ and stop_, byte `k` overall seeing acknowledge level `acks[k]`. */
  function TransactionEvents(txs: seq<seq<bv8>>, acks: seq<bool>): seq<Event>
    requires |acks| == TotalBytes(txs)
  {
    if txs == [] then []
    else FrameEvents(txs[0], acks[..|txs[0]|]) + TransactionEvents(txs[1..], acks[|txs[0]|..])
  }

  /** A stretch of trace without a stop call adds its rises to the open
      group. */
  lemma {:induction false} GroupsNoStop(a: seq<Event>, b: seq<Event>, s: Lines)
    requires StopCall !in a
    ensures Groups(a + b, s)
            == [ReleasedAtClockRise(a, s) + Groups(b, Replay(a, s))[0]] + Groups(b, Replay(a, s))[1..]
    decreases |a|
  {
    if a != [] {
      assert (a + b)[0] == a[0];
      assert (a + b)[1..] == a[1..] + b;
      var s1 := Step(s, a[0]);
      GroupsNoStop(a[1..], b, s1);
      var g := Groups(b, Replay(a, s));
      var rest := Groups(a[1..] + b, s1);
      assert rest == [ReleasedAtClockRise(a[1..], s1) + g[0]] + g[1..];
      assert rest[0] == ReleasedAtClockRise(a[1..], s1) + g[0];
      assert rest[1..] == g[1..];
      if a[0] == Clk(false) {
        assert ReleasedAtClockRise(a, s) == [!s.dioDriven] + ReleasedAtClockRise(a[1..], s1);
        assert [!s.dioDriven] + rest[0] == ReleasedAtClockRise(a, s) + g[0];
      } else {
        assert ReleasedAtClockRise(a, s) == ReleasedAtClockRise(a[1..], s1);
      }
    } else {
      assert a + b == b;
      var g := Groups(b, s);
      assert [] + g[0] == g[0];
      assert [g[0]] + g[1..] == g;
    }
  }

  lemma {:induction false} NoStopInBitSlots(b: bv8, n: nat)
    requires n <= 8
    ensures StopCall !in BitSlots(b, n)
  {
    if n > 0 {
      NoStopInBitSlots(b, n - 1);
    }
  }

  /** send_byte_ never calls stop_. */
  lemma {:induction false} NoStopInBytes(bytes: seq<bv8>, levels: seq<bool>)
    requires |bytes| == |levels|
    ensures StopCall !in BytesEvents(bytes, levels)
    decreases |bytes|
  {
    if bytes != [] {
      NoStopInBytes(bytes[..|bytes| - 1], levels[..|levels| - 1]);
      NoStopInBitSlots(bytes[|bytes| - 1], 8);
    }
  }

  /** A framed transaction is one complete group holding exactly its bytes'
      clock rises. */
  lemma GroupsFrame(bytes: seq<bv8>, levels: seq<bool>, rest: seq<Event>, s: Lines)
    requires |bytes| == |levels|
    ensures Groups(FrameEvents(bytes, levels) + rest, s)
            == [ByteRises(bytes)] + Groups(rest, Replay(StartEvents() + BytesEvents(bytes, levels), s))
  {
    var body := StartEvents() + BytesEvents(bytes, levels);
    var s1 := Replay(body, s);
    assert FrameEvents(bytes, levels) + rest == body + ([StopCall] + rest);
    NoStopInBytes(bytes, levels);
    GroupsNoStop(body, [StopCall] + rest, s);
    assert ([StopCall] + rest)[0] == StopCall;
    assert ([StopCall] + rest)[1..] == rest;
    assert Groups([StopCall] + rest, s1) == [[]] + Groups(rest, s1);
    RisesAppend(StartEvents(), BytesEvents(bytes, levels), s);
    StartEndState(s);
    BytesRises(bytes, levels, Replay(StartEvents(), s));
    assert ReleasedAtClockRise(body, s) == ByteRises(bytes);
    var g := Groups([StopCall] + rest, s1);
    assert g[0] == [] && g[1..] == Groups(rest, s1);
    assert ReleasedAtClockRise(body, s) + g[0] == ByteRises(bytes);
  }

  /** Framed transactions sent one after the other form one complete
      group each, holding that transaction's clock rises; no group is left
      open. */
  lemma {:induction false} TransactionGroups(txs: seq<seq<bv8>>, acks: seq<bool>, s: Lines)
    requires |acks| == TotalBytes(txs)
    ensures Groups(TransactionEvents(txs, acks), s)
            == seq(|txs|, i requires 0 <= i < |txs| => ByteRises(txs[i])) + [[]]
    decreases |txs|
  {
    if txs != [] {
      var n := |txs[0]|;
      var rest := TransactionEvents(txs[1..], acks[n..]);
      GroupsFrame(txs[0], acks[..n], rest, s);
      TransactionGroups(txs[1..], acks[n..], Replay(StartEvents() + BytesEvents(txs[0], acks[..n]), s));
    }
  }

  /** Sending framed transactions one after the other delivers exactly
      those transactions, in order, whatever the acknowledge levels and
      the starting line state. */
  lemma TransactionsDelivered(txs: seq<seq<bv8>>, acks: seq<bool>, s: Lines)
    requires |acks| == TotalBytes(txs)
    ensures Received(TransactionEvents(txs, acks), s) == txs
  {
    var t := TransactionEvents(txs, acks);
    TransactionGroups(txs, acks, s);
    forall i | 0 <= i < |txs|
      ensures Received(t, s)[i] == txs[i]
    {
      ByteRisesRoundTrip(txs[i]);
    }
  }
}
