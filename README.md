# TM1650 display driver, modelled in Dafny

This project models the core of the ESPHome TM1650 display component, a
bit-banged driver for the TM1650 LED-digit controller. Four pieces are
modelled, and properties are proved about each.

- **Glyph table** (`font.dfy`, module `Font`). The constant
  ASCII-to-segment table holds one entry per code `' '..'~'`. `UNKNOWN` and
  `DOT` are its two constants.
- **Text encoder** (`encoding.dfy`, module `Encoding`; `tm1650.dfy`,
  `Display.Print` and the functions around it). `print` works in four steps:
  1. it looks each character up in the table;
  2. it folds a following `.` into the decimal-point bit;
  3. it remaps the segment bits through the segment map that
     `set_segment_map` configures;
  4. it writes the bytes into the 16-cell digit buffer, up to the display
     length.

  The pure side is specified by `Cells`, `Encode`, `Remap`, `ConfiguredMap`,
  `PrintCount` and `Printed`. The `Display` methods do the same work in
  place on arrays, with loops, and are proved equal to those functions.
- **Bit-level send engine** (`wire.dfy`, module `Wire`; the bus methods of
  `Display`). `start_`, `send_byte_` and the framing in `display()` are
  modelled over two lines, each either driven low or released. Every pin
  mode change, every `bit_delay_`, every sample of the data line and every
  `stop_` call is appended to an event trace. The acknowledge level the
  device presents is an input. A receiver decodes the trace: the data
  level at each clock release, eight bits least significant first plus one
  acknowledge clock per byte, with each `stop_` closing a transaction. The
  lemmas prove that this receiver recovers exactly the transactions
  `display()` sends.
- **Refresh and keys** (`tm1650.dfy`, module `TM1650`).
  - `update` clears the buffer, lets the writer draw, and calls `display`.
  - `display` sends three transactions: the data command; the address
    command with the digit bytes; the control byte carrying the brightness.
  - `TM1650Key::process` publishes whether a scanned key code equals the
    key's own code.
  - The component's fields, defaults and setters are modelled as a class.

The source behaves differently from a generic description of the TM1650
protocol in three places. The model follows the source in each:

- `send_byte_` shifts bits out least significant first (`data & 0x01`, then
  `data >> 1`), not most significant first.
- `start_` only drives the data line low. It does not touch the clock.
- `display()` sends the data command, then the address command followed by
  the digit bytes in one transaction, then the control command plus
  `(intensity & 7) | 0x08`. The settings byte that `update` computes is
  never sent. The digit bytes are all 16 cells in index order, or, when
  the display is inverted, only the first `length` cells, from cell
  `length - 1` down to cell 0.

## Model

| member | source | states |
|---|---|---|
| Font.LookupMeaning | components/tm1650/tm1650.cpp:159-167 | a character gets the sentinel 0xFF exactly when it is outside `' '..'~'` or its table entry is marked unknown; otherwise it gets its table glyph |
| Font.TableCoversPrintable | components/tm1650/tm1650font.h:18-114 | the table has exactly 95 entries, one per code 0x20..0x7E |
| Font.SentinelOnlyAtUnknown | components/tm1650/tm1650font.h:6-114 | an entry's byte is 0xFF if and only if the entry is written as `TM1650_UNKNOWN_CHAR` |
| Font.NoGlyphIsSentinel | components/tm1650/tm1650font.h:18-114 | no real glyph in the table equals the sentinel |
| Font.DotAndSpace | components/tm1650/tm1650font.h:19-33 | `'.'` is exactly the dot segment 0x80 and `' '` is blank |
| Font.DigitGlyphs | components/tm1650/tm1650font.h:35-44 | `'8'` lights every segment but the point (0x7F); no digit has the point bit or the sentinel |
| Font.SharedGlyphs | components/tm1650/tm1650font.h:35-84 | `'O'` shares `'0'`'s glyph, `'I'` shares `'1'`'s, and `'A'` shares `'a'`'s |
| Encoding.SegmentMasksAreShifts | components/tm1650/tm1650.cpp:176-180 | the mask table used for `1 << s` holds exactly `1 << s` for s = 0..7 |
| Encoding.RemapIsLeast | components/tm1650/tm1650.cpp:176-180 | the remapped byte contains the map entry of every segment set in the glyph, and is contained in every byte that contains them all, so it is their OR |
| Encoding.RemapOr | components/tm1650/tm1650.cpp:176-180 | remapping distributes over OR of glyphs |
| Encoding.RemapIdentity | components/tm1650/tm1650.cpp:176-180 | with the identity map (`m[s] == 1 << s`) the stored byte equals the glyph |
| Encoding.RemapDot | components/tm1650/tm1650.cpp:169-180 | the bare dot remaps to map entry 7 |
| Encoding.RemapWithDot | components/tm1650/tm1650.cpp:169-180 | a glyph with the dot folded in remaps to the glyph's remap OR map entry 7 |
| Encoding.CellsLength | components/tm1650/tm1650.cpp:157-173 | each cell consumes one or two characters, and a non-empty string gives at least one cell |
| Encoding.CellsWithoutDots | components/tm1650/tm1650.cpp:157-173 | without a `.` after the first character, there is one cell per character, each the character's glyph |
| Encoding.CellsAppend | components/tm1650/tm1650.cpp:169-173 | the cells of `t + u` are the cells of `t` then those of `u`, unless `u` starts with a `.` that folds into `t` |
| Encoding.EncodeAppend | components/tm1650/tm1650.cpp:157-180 | the same holds for the remapped bytes |
| Encoding.EightDot | components/tm1650/tm1650.cpp:169-173 | `"8."` is one cell, `'8'` with the dot bit, and remaps to the remapped `'8'` OR map entry 7 |
| Encoding.UnknownContinues | components/tm1650/tm1650.cpp:159-173 | a character without a glyph (other than the terminating NUL) encodes to 0xFF and encoding goes on with the rest of the string; a `.` right after it folds into that 0xFF cell and is consumed |
| Encoding.EncodeIdentity | components/tm1650/tm1650.cpp:176-180 | under the identity map the stored bytes are the glyphs |
| Encoding.SegmentBitMeaning | components/tm1650/tm1650.cpp:28-34 | `'@'..'G'` configure the single bit `1 << ('G' - c)`, and any character above `'G'` configures 0x80 |
| Encoding.NaturalOrderIsIdentity | components/tm1650/tm1650.cpp:19-36 | the map string `"PABCDEFG"` configures the identity map |
| Encoding.ConfiguredMapKeeps | components/tm1650/tm1650.cpp:19-36 | entries at or beyond `min(strlen, 8)` keep their old value |
| Encoding.UnreadTailIgnored | components/tm1650/tm1650.cpp:20-27 | characters after the eighth are never read: any tail appended to an eight-character map string, whatever its characters, configures the same map |
| Wire.BitSlotLines | components/tm1650/tm1650.cpp:83-95 | a data slot releases the clock once, with the data line released exactly for a 1 bit, and ends with the clock released |
| Wire.BitSlotCounts | components/tm1650/tm1650.cpp:83-95 | a data slot has one clock release, three delays and no sample |
| Wire.AckSlotLines | components/tm1650/tm1650.cpp:97-115 | the acknowledge clock sees data released; the slot ends with the clock driven low and data driven low only after a low sample |
| Wire.AckSlotCounts | components/tm1650/tm1650.cpp:97-115 | the acknowledge slot has one clock release, four delays and one sample |
| Wire.BitSlotsRises | components/tm1650/tm1650.cpp:81-96 | at the k-th clock release data is released iff bit k of `b` is 1, least significant bit first |
| Wire.BitSlotsCounts | components/tm1650/tm1650.cpp:81-96 | n data slots have n clock releases and 3n delays |
| Wire.SendByteRises | components/tm1650/tm1650.cpp:79-116 | `send_byte_` releases the clock nine times: the eight bits LSB first, then the acknowledge clock with data released |
| Wire.SendByteCounts | components/tm1650/tm1650.cpp:79-116 | `send_byte_` has exactly 9 clock releases, 28 delays and one sample |
| Wire.SendByteEndState | components/tm1650/tm1650.cpp:79-116 | from any line state, `send_byte_` ends with the clock driven low and data driven low exactly when the sample was low |
| Wire.StartEndState | components/tm1650/tm1650.cpp:119-122 | `start_` drives data low and leaves the clock as it was |
| Wire.BitsRoundTrip | components/tm1650/tm1650.cpp:81-96 | assembling the bits LSB first gives the byte back |
| Wire.SendByteLatches | components/tm1650/tm1650.cpp:79-116 | the byte a receiver latches from `send_byte_(b)` is `b` |
| Wire.BytesRises | components/tm1650/tm1650.cpp:62-72 | the clock rises of a run of `send_byte_` calls do not depend on the acknowledge levels |
| Wire.ByteRisesRoundTrip | components/tm1650/tm1650.cpp:62-72 | decoding the clock rises of a run of bytes gives the bytes back |
| Wire.FrameDelivers | components/tm1650/tm1650.cpp:53-56 | one framed transaction delivers exactly its bytes, in order, whatever the acknowledges |
| Wire.TransactionsDelivered | components/tm1650/tm1650.cpp:49-78 | framed transactions sent one after the other are received as exactly those transactions |
| TM1650.PrintStaysInDisplay | components/tm1650/tm1650.cpp:183-193 | print never changes a cell before `start` or at or beyond `length`; it writes nothing when `start >= length`, and otherwise writes as many cells as fit, stopping early only when the text runs out; every cell outside `[start, start + count)` keeps its value |
| TM1650.PrintWritesEncoding | components/tm1650/tm1650.cpp:157-193 | the written cells are the string's remapped encoding, in order |
| TM1650.PrintSplit | components/tm1650/tm1650.cpp:155-194 | printing `t` and then `u` right after it leaves the same buffer as printing `t + u`, whenever `u` does not start with a `.` that would fold into `t`'s last cell |
| TM1650.PrintSplitCount | components/tm1650/tm1650.cpp:155-194 | the two returned counts add up to the count for `t + u`, and all of `t` is written |
| TM1650.PlaceSplit | components/tm1650/tm1650.cpp:183-193 | writing two runs of cells back to back is writing their concatenation |
| TM1650.PrintEightDot | components/tm1650/tm1650.cpp:169-173 | `"8."` writes exactly one cell |
| TM1650.Transactions | components/tm1650/tm1650.cpp:49-78 | `display()`'s three transactions hold 3 bytes plus the digit payload |
| TM1650.PayloadOrder | components/tm1650/tm1650.cpp:61-71 | the payload is all 16 cells in index order, or exactly `length` cells from `length - 1` down to 0 when inverted |
| TM1650.CtrlByteBrightness | components/tm1650/tm1650.cpp:76 | the control byte is the control command plus the brightness in bits 0..2 and bit 3 set; for intensity 0..7 it is the command plus intensity plus 8 |
| TM1650.DisplayDelivers | components/tm1650/tm1650.cpp:49-78 | the device receives exactly `[CMD_DATA]`, `[CMD_ADDR] + payload` and `[CMD_CTRL + ((intensity & 7) \| 8)]`, in that order |
| TM1650.ThreeFrames | components/tm1650/tm1650.cpp:49-78 | three transactions are sent as three frames back to back |
| TM1650.SettingsLayout | components/tm1650/tm1650.cpp:124-126 | the unused settings byte has the intensity in bits 4..6, the mode in bit 3, and bit 0 set iff power is on and intensity is nonzero |
| TM1650.Display.constructor | components/tm1650/tm1650.h:53-65 | mode 0, power on, no writer, no keys, no error and a zeroed 16-cell buffer |
| TM1650.Display.SetWriter | components/tm1650/tm1650.cpp:12 | stores the writer |
| TM1650.Display.SetIntensity | components/tm1650/tm1650.cpp:13 | stores the intensity unchanged |
| TM1650.Display.SetMode | components/tm1650/tm1650.cpp:14 | stores the mode unchanged |
| TM1650.Display.SetPower | components/tm1650/tm1650.cpp:15 | stores the power flag |
| TM1650.Display.SetLength | components/tm1650/tm1650.cpp:16 | stores the length |
| TM1650.Display.AddKey | components/tm1650/tm1650.h:49 | appends the key at the end, keeping earlier registrations in order |
| TM1650.Display.SetSegmentMap | components/tm1650/tm1650.cpp:19-36 | the map array becomes `ConfiguredMap` of the old map and the string: entry i from character `map_len - 1 - i`, the rest unchanged |
| TM1650.Display.RemapGlyph | components/tm1650/tm1650.cpp:175-180 | the loop computes `Remap` of the glyph under the current map |
| TM1650.Display.ReadGlyph | components/tm1650/tm1650.cpp:157-162 | the table read gives the sentinel 0xFF exactly when `c` is outside `' '..'~'` or its entry is marked unknown, and the entry's glyph otherwise |
| TM1650.Display.ReadCell | components/tm1650/tm1650.cpp:157-173 | one cell is read, with a following `.` folded in and consumed; the rest of the string's cells follow |
| TM1650.Display.Print | components/tm1650/tm1650.cpp:155-194 | returns `PrintCount` and leaves the buffer `Printed` from the old buffer |
| TM1650.Display.PrintFromStart | components/tm1650/tm1650.cpp:196-198 | `print(str)` is `print(0, str)` |
| TM1650.Display.Printf | components/tm1650/tm1650.cpp:200-209 | a positive formatter result prints the formatted text; otherwise it returns 0 and changes nothing |
| TM1650.Display.Strftime | components/tm1650/tm1650.cpp:222-228 | a nonzero formatter result prints the formatted text; otherwise it returns 0 and changes nothing |
| TM1650.Display.BitDelay | components/tm1650/tm1650.cpp:118 | records one delay |
| TM1650.Display.ClkMode | components/tm1650/tm1650.cpp:83-92 | setting the clock pin to output drives it low, to input releases it; the change is recorded |
| TM1650.Display.DioMode | components/tm1650/tm1650.cpp:85-90 | the same for the data pin |
| TM1650.Display.Stop | components/tm1650/tm1650.h:63 | records a call of `stop_`; the line state it leaves is unconstrained |
| TM1650.Display.Start | components/tm1650/tm1650.cpp:119-122 | records start_'s events: data driven low, one delay, the clock unchanged |
| TM1650.Display.SendBit | components/tm1650/tm1650.cpp:83-95 | records one data-bit slot and leaves the clock released with data released exactly for a 1 bit |
| TM1650.Display.SendBits | components/tm1650/tm1650.cpp:81-96 | the shifting loop records the eight bit slots LSB first and leaves the clock released with data reflecting bit 7 |
| TM1650.Display.SendAck | components/tm1650/tm1650.cpp:97-115 | records the acknowledge slot, returns the sampled level, and ends with the clock low and data low only after a low sample |
| TM1650.Display.SendByte | components/tm1650/tm1650.cpp:79-116 | records `SendByteEvents(b, level)` and returns the level |
| TM1650.Display.SendCommand | components/tm1650/tm1650.cpp:53-55 | records one framed one-byte transaction |
| TM1650.Display.SendDigits | components/tm1650/tm1650.cpp:57-72 | records the framed address transaction with the payload |
| TM1650.Display.SendInOrder | components/tm1650/tm1650.cpp:67-71 | sends the 16 cells in index order, leaving the clock driven and data driven low exactly when the last byte was acknowledged |
| TM1650.Display.SendReversed | components/tm1650/tm1650.cpp:62-66 | sends cells `length - 1` down to 0, leaving the clock driven and data driven low exactly when the last byte was acknowledged; with `length` 0 it sends nothing and the lines are unchanged |
| TM1650.Display.Show | components/tm1650/tm1650.cpp:49-78 | records exactly the events of `Transactions` of the buffer |
| TM1650.Display.Update | components/tm1650/tm1650.cpp:123-137 | the buffer becomes the writer applied to an all-zero buffer (or stays all zero), and that buffer is sent with `Show` |
| TM1650.Key.constructor | components/tm1650/tm1650.h:82 | the key code starts at 0 |
| TM1650.Key.SetKeycode | components/tm1650/tm1650.h:78 | stores the key code unchanged |
| TM1650.Key.Process | components/tm1650/tm1650.h:79 | publishes true iff the data equals the key code, with no masking |

## Left out

- GPIO and timing. `pin_mode`, `digital_read` and `delayMicroseconds(100)` become trace events. The acknowledge level is an input, and delays are counted, not timed.
- `stop_`, `read_byte_`, `get_keys` and `loop` are declared in tm1650.h but their bodies are not part of this model. A `stop_` call is recorded in the trace, and the line state it leaves is unknown. Key scanning is not modelled beyond `TM1650Key::process`.
- `setup` is not modelled. It calls a `write` that is not part of this model, then sets up the pins.
- Logging (`ESP_LOG*`), `dump_config` and `get_setup_priority` are not modelled. The unknown-character warning is characterised by `Font.LookupMeaning`. `error_code_` is never set to `COMMUNICATION_FAILED` in this code, so there is no failure path.
- TM1650.Display.Printf: `vsnprintf` is not modelled. Its return value and the text it leaves in the 64-byte buffer are parameters. The overload without a position is `Printf` with position 0.
- TM1650.Display.Strftime: `ESPTime::strftime` is not modelled in the same way. The overload without a position is `Strftime` with position 0.
- TM1650.Display.SetSegmentMap: the characters it reads (the first `min(strlen, 8)`) must lie in `'@'..0x7F`; later characters may be anything. Below `'@'` the shift `'G' - c` is 8 or more, and the result no longer fits the 8-bit map entry (the entry's type is not declared in the header). Above 0x7F a signed `char` is negative, so `'G' - c` is a shift by more than the width of `int`.
- TM1650.Display.SetLength: requires a length of at most 16, the buffer size. The source accepts any `uint8_t` and then writes past the buffer. The configuration layer limits the length to 1..6.
- The `TM1637_CMD_DATA`, `TM1637_CMD_ADDR` and `TM1637_CMD_CTRL` constants are not defined in this code. They are constructor parameters.
- `segment_map_` and `inverted_` are not declared in the header. Their initial values are constructor parameters.
- TM1650.Display.Update: the writer callback is a function from the cleared buffer to a 16-cell buffer. Its other effects on the display, such as changing settings, are not modelled.
- TM1650.SettingsLayout: the settings byte is dead code in `update`. Only its bit layout is stated.
- The C `char` type of `print` is a Dafny `char`. Characters at or above 0x80, which would be negative there, fall outside `' '..'~'` either way.
- The pure functions `Lookup`, `Cells`, `Remap`, `ConfiguredMap`, `Payload`, `Drawn` and the event functions of `Wire` carry no contract of their own. What they mean is stated by the lemmas in the table.
