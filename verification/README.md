# LiquidCrystal_PCF8574 in Dafny

A model of the Arduino driver for an HD44780 character LCD behind a PCF8574
I2C port expander (`src/LiquidCrystal_PCF8574.cpp`).  The driver has two
layers, and the model keeps both:

- **Display state.** The class `LiquidCrystalPcf8574.LiquidCrystal` has one
  field per member variable of the C++ object:
  - the I2C address and the backlight level;
  - the entry-mode and display-control registers (`bv8`);
  - the geometry and the cursor column and row.

  It also has a field `rsState` for the function-local static `i2cDataState`
  of `_writePCF`.  Each public operation is a method.  Its frame lists the
  fields it may change.  Its postcondition gives the new value of each of
  those fields and the exact bus traffic it produced.
- **Nibble transport.** `_send`, `_sendNibble` and `_writePCF` become
  `Send`, `SendNibble` and `WritePcf`:
  - a byte is split into a high and a low nibble;
  - each nibble becomes an expander frame with the data in bits 4..7, RS=0x01,
    RW=0x02 (never set), EN=0x04 and backlight=0x08;
  - each frame is strobed as EN high, then EN low;
  - an extra settle frame goes first only when RS differs from the RS level
    written last.

The I2C bus is a ghost log, `Pcf8574Bus.Trace`, of `BusEvent`s:
`Wire.begin`, one `Transmission(address, frames)` per
`beginTransmission`/`endTransmission` pair, and `Delay` markers.  The frames
of the open transmission are kept in the ghost field `txBuffer`.

Each encoding has a partner that it is proved against:

- **What the controller latches.** This is one nibble per strobe, in
  `Strobes`, `DecodeFrames`, `Receive` and `ReceivedLog`.  The round-trip
  lemmas prove that every `_send` delivers exactly its byte with the requested
  register select.  They also prove the same for `_sendNibble` with its half
  byte, for a run of data bytes, for `clear`, for `createChar` and for the
  0x03 escape.
- **The HD44780 instruction decoder** (`Hd44780.Decode`).  Every command byte
  the driver builds is checked against it:
  - clear;
  - function set, with its 2-line flag;
  - entry mode and display control, which re-send the whole register;
  - display shift;
  - Set CGRAM address of glyph slot `location & 7`;
  - Set DDRAM address `row_offsets[row] + col`.

  On displays up to 20 columns wide, and on two-line displays up to 40
  columns wide, distinct cells get distinct DDRAM addresses.
- **Where `write` leaves the cursor** (`CursorAfter`, folded over a string by
  `CursorAfterAll`).  `Write` is proved to leave the cursor exactly there.
- **Where the controller writes next** (`ControllerState.Controller`).  This
  folds the HD44780 address counter (`Hd44780.Execute`) over every byte the
  controller received.  The counter is a memory selection (CGRAM or DDRAM),
  an address and the entry mode's I/D direction.  The predicate
  `LiquidCrystal.InSync` says that the stored `_col`/`_row` is the DDRAM cell
  the counter points at and that the counter moves forward.  This is what
  `setCursor` assumes when it sends nothing.
  - `begin` establishes it.
  - `setCursor`, `home`, `write`, `print`, the display-control and scroll
    commands, `setBacklight` and `leftToRight` preserve it.
  - `autoscroll` and `noAutoscroll` preserve it while the entry mode
    increments.
  - `rightToLeft` breaks it: the counter now moves backwards while `write`
    still advances `_col`.
  - `createChar` breaks it: the counter is left in CGRAM (see Findings).
  - `clear` resets the counter to DDRAM 0 with increment, whatever
    `_entrymode` holds.  The entry-mode command it sends comes before its
    final clear display.

The code is followed literally where it is surprising:

- `cursor()` and `blink()` both set or clear bit 0x01.  `CursorTurnsBlinkOn`
  shows that the controller then blinks and never shows the underline cursor.
- `scrollDisplayLeft` sends 0x18 and `scrollDisplayRight` sends 0x1C.
  `Hd44780.Decode` takes 0x18 as a display shift to the left and 0x1C as one
  to the right (`FixedCommandsDecode`).
- `'\n'` keeps the column.  `begin(16, 2)` followed by printing `"Hi\nthere"`
  therefore ends at row 1, column 7 (`HiThereCursor`, `HiThereScenario`).
- `setCursor` compares its raw arguments against the stored, already wrapped
  position.  A position outside the display is therefore re-sent on every
  call (`SetCursorTwice`).
- The DDRAM command is `0x80 | (row_offsets[row] + col)`.  The sum is
  computed modulo 256, which is what the truncation to `_send`'s byte
  argument does.

Files:

- `hd44780.dfy` is the instruction decoder.
- `commands.dfy` holds the command bytes and their decodings.
- `bus.dfy` holds frames, transmissions, the bus log, the controller's view
  and the round trips.
- `controller.dfy` folds the address counter over the bus log and states
  what each kind of transmission does to it.
- `lcd.dfy` holds the driver class, the `write` cursor specification and the
  controller's view of `clear`, `createChar` and the 0x03 escape.

## Model

| member | source | states |
|---|---|---|
| LcdCommands.SetBits | src/LiquidCrystal_PCF8574.cpp:137 | `reg \|= mask` sets the mask bits and keeps every other bit |
| LcdCommands.ClearBits | src/LiquidCrystal_PCF8574.cpp:129 | `reg &= ~mask` clears the mask bits and keeps every other bit |
| LcdCommands.FixedCommandsDecode | src/LiquidCrystal_PCF8574.cpp:177-190 | 0x01 decodes to Clear display; the scroll commands decode to display shift left (0x18) and right (0x1C); the backlight refresh byte 0x00 is no instruction |
| LcdCommands.FunctionSetDecodes | src/LiquidCrystal_PCF8574.cpp:73-79 | `0x24 \| flags` is function set with the 4-bit interface, 2 lines exactly when `_lines > 1`, and the 0x04 font bit |
| LcdCommands.CgramDecodes | src/LiquidCrystal_PCF8574.cpp:244-248 | `0x40 \| ((location & 7) << 3)` is Set CGRAM address `8 * (location & 7)`, the first row of that glyph slot |
| LcdCommands.CgramSlotsDistinct | src/LiquidCrystal_PCF8574.cpp:246-248 | locations with different low three bits select different CGRAM commands |
| LcdCommands.EntryModeDecodes | src/LiquidCrystal_PCF8574.cpp:196-228 | `0x04 \| _entrymode` is entry mode set with increment and shift exactly as the register's two bits |
| LcdCommands.DisplayControlDecodes | src/LiquidCrystal_PCF8574.cpp:126-173 | `0x08 \| _displaycontrol` is display control with display, cursor and blink exactly as the register's three bits |
| LcdCommands.CursorTurnsBlinkOn | src/LiquidCrystal_PCF8574.cpp:142-148 | after `cursor()` the controller blinks and shows no underline cursor, because the driver sets bit 0x01 |
| LcdCommands.DdramDecodes | src/LiquidCrystal_PCF8574.cpp:117-119 | the cursor command is Set DDRAM address `(row_offsets[row] + col) mod 128` |
| LcdCommands.DdramAddressesDistinct | src/LiquidCrystal_PCF8574.cpp:117-119 | with at most 20 columns, or on two lines with at most 40 columns, two different cells give different DDRAM addresses and different commands |
| LcdCommands.FixedCommandsExecute | src/LiquidCrystal_PCF8574.cpp:177-238 | clear display (0x01) puts the address counter at DDRAM 0 with increment from any state; the display shifts 0x18 and 0x1C and the backlight refresh 0x00 leave it unchanged |
| LcdCommands.FunctionSetExecutes | src/LiquidCrystal_PCF8574.cpp:73-79 | function set leaves the address counter unchanged |
| LcdCommands.EntryModeExecutes | src/LiquidCrystal_PCF8574.cpp:196-228 | `0x04 \| _entrymode` sets the counter's direction to bit 0x02 of the register and changes nothing else |
| LcdCommands.DisplayControlExecutes | src/LiquidCrystal_PCF8574.cpp:126-173 | `0x08 \| _displaycontrol` leaves the address counter unchanged |
| LcdCommands.CgramExecutes | src/LiquidCrystal_PCF8574.cpp:246-248 | the CGRAM command points the counter into CGRAM at `8 * (location & 7)`, keeping the direction |
| LcdCommands.DdramExecutes | src/LiquidCrystal_PCF8574.cpp:117-119 | the cursor command points the counter into DDRAM at the cell's address from any state, CGRAM included, keeping the direction |
| Pcf8574Bus.FrameBits | src/LiquidCrystal_PCF8574.cpp:312-320 | a frame has RS iff data, backlight iff `_backlight > 0`, neither RW nor EN, and the nibble in bits 4..7 |
| Pcf8574Bus.NibbleFrames | src/LiquidCrystal_PCF8574.cpp:326-334 | a nibble is 3 frames when RS differs from the remembered level and 2 otherwise |
| Pcf8574Bus.SendFrames | src/LiquidCrystal_PCF8574.cpp:284-292 | a byte is 5 frames when RS changes and 4 otherwise |
| Pcf8574Bus.NibbleFramesShape | src/LiquidCrystal_PCF8574.cpp:314-334 | every frame of a nibble has the RS, backlight and clear-RW bits and the nibble; the last two are `f \| EN` then `f`; a leading settle frame has EN low |
| Pcf8574Bus.SendFramesShape | src/LiquidCrystal_PCF8574.cpp:284-292 | every frame of `_send` has the same RS and backlight bits and no RW; the last four alternate EN high and low; only the high nibble's settle frame can precede them |
| Pcf8574Bus.NibbleStrobes | src/LiquidCrystal_PCF8574.cpp:331-334 | a nibble's frames strobe that nibble exactly once, with its RS level |
| Pcf8574Bus.NibbleRoundTrip | src/LiquidCrystal_PCF8574.cpp:296-301 | `_sendNibble` reaches the controller as that half byte and register select |
| Pcf8574Bus.SendStrobes | src/LiquidCrystal_PCF8574.cpp:284-292 | `_send` strobes the high nibble, then the low one, both with the requested RS |
| Pcf8574Bus.SendRoundTrip | src/LiquidCrystal_PCF8574.cpp:284-292 | the controller reassembles exactly the sent byte, with the requested RS |
| Pcf8574Bus.NibbleSplit | src/LiquidCrystal_PCF8574.cpp:288-290 | `value >> 4` and `value & 0x0F` are nibbles and `(hi << 4) \| lo` rebuilds the value |
| Pcf8574Bus.ReceivedSend | src/LiquidCrystal_PCF8574.cpp:284-292 | one more `_send` transmission in the log adds exactly its byte to what the controller received |
| Pcf8574Bus.ReceivedNibble | src/LiquidCrystal_PCF8574.cpp:296-301 | one more `_sendNibble` transmission adds exactly its half byte |
| Pcf8574Bus.DataRoundTrip | src/LiquidCrystal_PCF8574.cpp:277-280 | a run of `writeLCD` calls reaches the controller as exactly those bytes, as data, in order |
| Pcf8574Bus.DataEventsShape | src/LiquidCrystal_PCF8574.cpp:311-329 | in a run of data sends only the first can carry the settle frame, and only when RS was last low; every later send is 4 frames |
| ControllerState.Advance | src/LiquidCrystal_PCF8574.cpp:249-250 | a run of data bytes keeps the memory selection and the direction |
| ControllerState.ControllerFollowsReceivedLog | src/LiquidCrystal_PCF8574.cpp:284-301 | the address counter after a bus log is what the received transfers, executed in order from power-on, leave |
| ControllerState.ControllerSend | src/LiquidCrystal_PCF8574.cpp:284-292 | one more `_send` transmission executes exactly its byte, as data or as an instruction |
| ControllerState.ControllerNibble | src/LiquidCrystal_PCF8574.cpp:296-301 | one more `_sendNibble` transmission leaves the address counter unchanged |
| ControllerState.ControllerData | src/LiquidCrystal_PCF8574.cpp:277-280 | a run of `writeLCD` calls moves the address one step per byte in the I/D direction and changes nothing else |
| ControllerState.ControllerDataByte | src/LiquidCrystal_PCF8574.cpp:277-280 | one `writeLCD` moves the address one step in the I/D direction, in whichever memory it points into |
| ControllerState.ControllerDisplayControl | src/LiquidCrystal_PCF8574.cpp:126-173 | a display-control transmission leaves the address counter unchanged |
| ControllerState.ControllerEntryMode | src/LiquidCrystal_PCF8574.cpp:196-228 | an entry-mode transmission sets the direction to the register's I/D bit and keeps the address |
| ControllerState.ControllerClear | src/LiquidCrystal_PCF8574.cpp:83 | a clear-display transmission resets the counter to its power-on state |
| ControllerState.ControllerKeptBy | src/LiquidCrystal_PCF8574.cpp:177-238 | the scroll transmissions and the backlight refresh leave the address counter unchanged |
| ControllerState.ControllerDdram | src/LiquidCrystal_PCF8574.cpp:117-119 | the cursor transmission points the counter at the cell in DDRAM, keeping the direction |
| ControllerState.ControllerCgram | src/LiquidCrystal_PCF8574.cpp:246-248 | the CGRAM transmission points the counter at the first row of the glyph slot, keeping the direction |
| ControllerState.DdramAddressNext | src/LiquidCrystal_PCF8574.cpp:266-269 | in increment mode a glyph written at a DDRAM cell moves the counter to the next column's address |
| LiquidCrystalPcf8574.GlyphRows | src/LiquidCrystal_PCF8574.cpp:249-250 | the glyph rows sent are the low eight bits of `charmap[0..7]` |
| LiquidCrystalPcf8574.LowByte | src/LiquidCrystal_PCF8574.cpp:277 | passing a C `int` to `uint8_t ch` keeps its low eight bits |
| LiquidCrystalPcf8574.ClearSequence | src/LiquidCrystal_PCF8574.cpp:64-87 | `clear` delivers clear, the 4-bit nibble 0x02, function set, the stored entry mode, the stored display control and clear, in that order; each of the five full bytes decodes to the instruction named (the half byte is not decoded) |
| LiquidCrystalPcf8574.ClearReceived | src/LiquidCrystal_PCF8574.cpp:64-87 | the controller receives exactly those six transfers from `clear`, and the delays deliver nothing |
| LiquidCrystalPcf8574.ClearResetsController | src/LiquidCrystal_PCF8574.cpp:64-87 | after `clear` the address counter is at DDRAM 0 with increment, whatever it was before and whatever entry mode was re-sent |
| LiquidCrystalPcf8574.CreateCharReceived | src/LiquidCrystal_PCF8574.cpp:244-252 | `createChar` delivers Set CGRAM address of the slot, then the eight glyph rows as data |
| LiquidCrystalPcf8574.CreateCharController | src/LiquidCrystal_PCF8574.cpp:244-252 | after `createChar` the address counter is in CGRAM, eight steps past the start of slot `location & 7`, with the direction it had |
| LiquidCrystalPcf8574.ClearToEndOfLineReceived | src/LiquidCrystal_PCF8574.cpp:259-263 | `write(0x03)` delivers one space per remaining column as data, then the DDRAM address of the unchanged cursor |
| LiquidCrystalPcf8574.CursorAfter | src/LiquidCrystal_PCF8574.cpp:255-274 | whatever the byte, the cursor `write` leaves is inside the display |
| LiquidCrystalPcf8574.CursorAfterAll | src/LiquidCrystal_PCF8574.cpp:254-255 | the cursor after writing a string byte by byte stays inside the display |
| LiquidCrystalPcf8574.HiThereCursor | src/LiquidCrystal_PCF8574.cpp:264-271 | on a 16x2 display, "Hi\nthere" from (0, 0) ends at column 7, row 1 |
| LiquidCrystalPcf8574.GlyphKeepsSync | src/LiquidCrystal_PCF8574.cpp:266-269 | a glyph written while the counter points at cell (row, col) in increment mode leaves it at (row, col + 1) |
| LiquidCrystalPcf8574.ColumnByteValue | src/LiquidCrystal_PCF8574.cpp:113-119 | the byte added to the row offset for a column below 256 is the column itself |
| LiquidCrystalPcf8574.LiquidCrystal.constructor | src/LiquidCrystal_PCF8574.cpp:24-31 | stores the address; backlight off, entry mode 0x02, display control 0x04; RS level remembered high; empty bus log; geometry and cursor left unset |
| LiquidCrystalPcf8574.LiquidCrystal.WritePcf | src/LiquidCrystal_PCF8574.cpp:308-335 | queues exactly `NibbleFrames` (the settle frame only on an RS change, then the strobe) and remembers the new RS level |
| LiquidCrystalPcf8574.LiquidCrystal.Send | src/LiquidCrystal_PCF8574.cpp:284-292 | exactly one transmission of the byte's frames, high nibble first; RS level becomes `isData` |
| LiquidCrystalPcf8574.LiquidCrystal.SendNibble | src/LiquidCrystal_PCF8574.cpp:296-301 | exactly one transmission of one nibble's frames |
| LiquidCrystalPcf8574.LiquidCrystal.WriteLcd | src/LiquidCrystal_PCF8574.cpp:277-280 | one data send of `ch` |
| LiquidCrystalPcf8574.LiquidCrystal.Begin | src/LiquidCrystal_PCF8574.cpp:34-61 | stores the geometry and resets both registers; the log gets `Wire.begin`, the `clear` sequence, display control, entry mode; ends valid with the cursor at (0, 0) and in sync with the controller |
| LiquidCrystalPcf8574.LiquidCrystal.Clear | src/LiquidCrystal_PCF8574.cpp:64-87 | the eight-event clear sequence; cursor (0, 0); address counter at DDRAM 0 with increment; both registers unchanged, since the frame excludes them |
| LiquidCrystalPcf8574.LiquidCrystal.Init | src/LiquidCrystal_PCF8574.cpp:90-93 | the same as `clear` |
| LiquidCrystalPcf8574.LiquidCrystal.SetCursorLcd | src/LiquidCrystal_PCF8574.cpp:113-122 | stores `col % _cols` and `row % _lines`, sends the one Set DDRAM command for that cell, and leaves the address counter on that cell in DDRAM with its direction kept |
| LiquidCrystalPcf8574.LiquidCrystal.SetCursor | src/LiquidCrystal_PCF8574.cpp:107-110 | arguments equal to the stored position change nothing and send nothing; otherwise behaves as `setCursorLCD`; keeps the cursor in sync |
| LiquidCrystalPcf8574.LiquidCrystal.Home | src/LiquidCrystal_PCF8574.cpp:96-104 | cursor (0, 0); nothing sent when it is already there; otherwise the DDRAM command for (0, 0), not Return home; keeps the cursor in sync |
| LiquidCrystalPcf8574.LiquidCrystal.NoDisplay | src/LiquidCrystal_PCF8574.cpp:126-131 | clears only bit 0x04 of display control and sends `0x08 \| _displaycontrol`; address counter unchanged |
| LiquidCrystalPcf8574.LiquidCrystal.Display | src/LiquidCrystal_PCF8574.cpp:134-139 | sets only bit 0x04 and sends `0x08 \| _displaycontrol`; address counter unchanged |
| LiquidCrystalPcf8574.LiquidCrystal.Cursor | src/LiquidCrystal_PCF8574.cpp:143-148 | sets only bit 0x01 and sends `0x08 \| _displaycontrol`; address counter unchanged |
| LiquidCrystalPcf8574.LiquidCrystal.NoCursor | src/LiquidCrystal_PCF8574.cpp:151-156 | clears only bit 0x01 and sends `0x08 \| _displaycontrol`; address counter unchanged |
| LiquidCrystalPcf8574.LiquidCrystal.Blink | src/LiquidCrystal_PCF8574.cpp:160-165 | sets only bit 0x01 (the same bit as `cursor`) and sends `0x08 \| _displaycontrol`; address counter unchanged |
| LiquidCrystalPcf8574.LiquidCrystal.NoBlink | src/LiquidCrystal_PCF8574.cpp:168-173 | clears only bit 0x01 and sends `0x08 \| _displaycontrol`; address counter unchanged |
| LiquidCrystalPcf8574.LiquidCrystal.ScrollDisplayLeft | src/LiquidCrystal_PCF8574.cpp:177-182 | sends the fixed command 0x18; no display field changes; address counter unchanged |
| LiquidCrystalPcf8574.LiquidCrystal.ScrollDisplayRight | src/LiquidCrystal_PCF8574.cpp:185-190 | sends the fixed command 0x1C; no display field changes; address counter unchanged |
| LiquidCrystalPcf8574.LiquidCrystal.LeftToRight | src/LiquidCrystal_PCF8574.cpp:196-201 | sets only bit 0x02 of the entry mode and sends `0x04 \| _entrymode`; the counter now increments; keeps the cursor in sync |
| LiquidCrystalPcf8574.LiquidCrystal.RightToLeft | src/LiquidCrystal_PCF8574.cpp:205-210 | clears only bit 0x02 and sends `0x04 \| _entrymode`; the counter now decrements, so the stored cursor is no longer in sync |
| LiquidCrystalPcf8574.LiquidCrystal.Autoscroll | src/LiquidCrystal_PCF8574.cpp:214-219 | sets only bit 0x01 and sends `0x04 \| _entrymode`; the counter takes the register's I/D bit; in sync stays in sync while it increments |
| LiquidCrystalPcf8574.LiquidCrystal.NoAutoscroll | src/LiquidCrystal_PCF8574.cpp:223-228 | clears only bit 0x01 and sends `0x04 \| _entrymode`; the counter takes the register's I/D bit; in sync stays in sync while it increments |
| LiquidCrystalPcf8574.LiquidCrystal.SetBacklight | src/LiquidCrystal_PCF8574.cpp:234-239 | stores the level and sends the command 0x00; every frame of that transmission has the backlight bit iff the new level is positive; address counter unchanged |
| LiquidCrystalPcf8574.LiquidCrystal.CreateChar | src/LiquidCrystal_PCF8574.cpp:244-252 | Set CGRAM address of slot `location & 7`, then exactly the eight glyph rows as data sends; cursor and registers unchanged; the counter ends in CGRAM eight rows past the slot start |
| LiquidCrystalPcf8574.LiquidCrystal.Write | src/LiquidCrystal_PCF8574.cpp:255-274 | returns 1; the cursor ends at `CursorAfter`; each case sends exactly its traffic (clear sequence, home, spaces then re-address, CR, LF, glyph with wrap); keeps the cursor in sync |
| LiquidCrystalPcf8574.LiquidCrystal.CarriageReturn | src/LiquidCrystal_PCF8574.cpp:264 | cursor to (0, row), with one DDRAM command; keeps the cursor in sync |
| LiquidCrystalPcf8574.LiquidCrystal.LineFeed | src/LiquidCrystal_PCF8574.cpp:265 | cursor to (col, (row + 1) % lines): the column is kept; keeps the cursor in sync |
| LiquidCrystalPcf8574.LiquidCrystal.WriteGlyph | src/LiquidCrystal_PCF8574.cpp:266-271 | the glyph as data; the column advances, and at the last column wraps to (0, (row + 1) % lines) with one DDRAM command; keeps the cursor in sync |
| LiquidCrystalPcf8574.LiquidCrystal.ClearToEndOfLine | src/LiquidCrystal_PCF8574.cpp:259-263 | `_cols - _col` spaces as data, then the DDRAM command for the unchanged cursor, which the address counter points at again |
| LiquidCrystalPcf8574.LiquidCrystal.FillToEndOfLine | src/LiquidCrystal_PCF8574.cpp:260 | the loop sends exactly `_cols - _col` space data bytes, leaves the cursor fields alone and moves the address counter one step per space |
| LiquidCrystalPcf8574.LiquidCrystal.Print | src/LiquidCrystal_PCF8574.cpp:254-255 | writing a string byte by byte leaves the cursor at `CursorAfterAll` and keeps it in sync |
| LiquidCrystalPcf8574.LiquidCrystal.CreateCharKeepingCursor | src/LiquidCrystal_PCF8574.cpp:244-252 | `createChar` followed by the Set DDRAM command of the stored cursor; the cursor is unchanged and stays in sync |
| LiquidCrystalPcf8574.SetCursorTwice | src/LiquidCrystal_PCF8574.cpp:106-110 | two identical `setCursor` calls inside the display send at most one command; outside it they send two |
| LiquidCrystalPcf8574.CreateCharThenSetCursor | src/LiquidCrystal_PCF8574.cpp:107-110 | from an in-sync cursor, `createChar` then `setCursor` to the same cell sends nothing, and the next glyph is written while the counter is in CGRAM: the cursor is out of sync |
| LiquidCrystalPcf8574.HiThereScenario | src/LiquidCrystal_PCF8574.cpp:34-61 | `begin(16, 2)` then printing "Hi\nthere" leaves the cursor at column 7, row 1 |

## Left out

- `Wire` is not part of this model.  Its calls append to the ghost bus log.
  `delayMicroseconds` only appends a `Delay` marker.  Timing is not
  modelled.
- The RS level `i2cDataState` is a function-local static in the driver, so all
  instances share it.  The model keeps it per object, in `rsState`.
  Interleaving two displays is not modelled.
- The header and the `Print` base class are not part of this model.
  - `_col` and `_row` are taken to be integers.
  - The `setCursor` arguments are taken to be `byte`s.
  - `_send` and `_sendNibble` default to command mode.
  - `Print` is modelled only as a loop of `write` calls.
- LiquidCrystalPcf8574.LiquidCrystal.Begin: requires `0 < cols < 256` and `1 <= lines <= 4`.
  - `setCursorLCD` divides by `_cols` and `_lines` and indexes a four-entry
    row-offset table.
  - The 0x03 fill loop counts with a `byte` and would never end for 256 or
    more columns.
- Every operation other than the constructor, `begin`, `clear` and `init`
  requires a prior `begin`.
  - The constructor never sets `_cols`, `_lines`, `_col` or `_row`.  They
    are zero only for an object with static storage, and indeterminate
    otherwise.  The model leaves them unconstrained.
  - `setCursorLCD` divides by `_cols` and `_lines`.
  - `Wire.begin()` is called only from `begin`.
  - `clear` and `init` are modelled without this requirement, over whatever
    `_lines` holds.
- The C `int` parameters of `createChar` are 32-bit words (`bv32`).  Only
  their low bits reach the bus.  `charmap` must hold at least eight entries,
  as the driver reads eight.
- LiquidCrystalPcf8574.LiquidCrystal.Print: states the final cursor but not
  the bus log, which is the concatenation of the per-byte logs that `Write`
  states.
- How the controller latches nibbles is itself a model: one nibble per frame
  with EN high.  It does not cover the electrical set-up time that the RS
  settle frame exists for.
- LiquidCrystalPcf8574.ClearSequence and LiquidCrystalPcf8574.ClearReceived:
  nibbles are paired afresh in each transmission.  The lone 0x02 nibble of
  `clear` is therefore received as a half byte, and `Controller` ignores it.
  - A controller in 4-bit mode ignores it because it arrives while the
    preceding clear display is still executing.  Timing is not modelled.
  - A controller that fell back to 8-bit mode, after a power loss, executes
    it as Function set with the 4-bit interface.  That is what the nibble is
    for.  The recovery path is not modelled (see `ControllerState.Controller`
    below).
  - Were the nibble latched, it would pair with the next nibble and shift
    the 4-bit pairing.
  - Neither lemma says what the controller does with the half byte.
- ControllerState.Controller: the interface width is not modelled.  The
  controller is assumed to be in 4-bit mode from power-on and pairs nibbles
  from the first transmission.  A real HD44780 resets to the 8-bit interface.
  It reaches 4-bit mode only through a Function set with DL=0, such as the
  0x02 nibble of `clear`.  `Begin`'s proof of `InSync` therefore covers the
  4-bit path only, not the 8-bit recovery.
- The address counter is modelled as wrapping at 7 bits in DDRAM and 6 bits
  in CGRAM.  In two-line mode a real HD44780 jumps from 0x27 to 0x40 and
  from 0x67 to 0x00.  This matters only for data written past the 40th cell
  of a line without re-addressing.
- Display shifts (the scroll commands and the entry mode's S bit) move the
  visible window, not the address counter.  `InSync` is about the address
  written next, not about where it appears on the glass.
- Cursor-shift instructions and Return home are decoded and executed, but
  the driver never sends them.
- Commented-out code is not modelled, because it has no behaviour.  This
  includes the old `begin` initialisation, the Return home and `0x80` sends,
  and the 37 µs delay.

## Findings

| source | as written | input that shows it | evidently intended | confidence | as-written member | corrected member |
|---|---|---|---|---|---|---|
| src/LiquidCrystal_PCF8574.cpp:107-110 | `createChar` (lines 244-252) leaves the controller's address counter in CGRAM but keeps `_col` and `_row`.  `setCursor` then skips the Set DDRAM command because its arguments equal the stored position. | `begin(16, 2)`, `createChar(0, glyph)`, `setCursor(0, 0)` (or `home()`), `write('A')`: `setCursor` sends nothing, and 'A' is stored as row 0 of glyph slot 1 instead of appearing at cell (0, 0) | after `createChar` the next `setCursor` re-addresses the display, so the stored cursor again names the cell written next | medium; not executed | LiquidCrystalPcf8574.CreateCharThenSetCursor | LiquidCrystalPcf8574.LiquidCrystal.CreateCharKeepingCursor |
