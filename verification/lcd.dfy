/**
 * The driver object: display state (entry mode, display control, cursor,
 * geometry, backlight), the remembered RS level of the expander, and the
 * nibble transport that turns every command or character into one I2C
 * transmission.  The I2C bus is a ghost trace of `BusEvent`s.
 */
module LiquidCrystalPcf8574 {
  import opened Pcf8574Bus
  import opened LcdCommands
  import opened ControllerState
  import Hd44780

  /** Arguments declared `byte` in the driver. */
  type byte = x: int | 0 <= x < 256

  const SPACE: bv8 := 0x20
  const CARRIAGE_RETURN: bv8 := 0x0D
  const LINE_FEED: bv8 := 0x0A
  /** `write` escape codes: re-initialise, home, clear to end of line. */
  const ESC_CLEAR: bv8 := 0x01
  const ESC_HOME: bv8 := 0x02
  const ESC_CLEAR_EOL: bv8 := 0x03
  /** The wait after each clear command in `clear`. */
  const CLEAR_DELAY_MICROS: nat := 2000

  /** A byte `write` sends to the display as a glyph. */
  predicate IsGlyph(ch: bv8)
  {
    ch != ESC_CLEAR && ch != ESC_HOME && ch != ESC_CLEAR_EOL && ch != CARRIAGE_RETURN && ch != LINE_FEED
  }

  function Spaces(n: nat): (r: seq<bv8>)
    ensures |r| == n
    ensures forall i :: 0 <= i < n ==> r[i] == SPACE
  {
    seq(n, _ => SPACE)
  }

  lemma SpacesSnoc(n: nat)
    ensures Spaces(n) + [SPACE] == Spaces(n + 1)
  {
  }

  /**
   * The eight glyph rows of `createChar`, each truncated to a byte by
   * `writeLCD`'s `uint8_t` argument: the low eight bits of the C `int`.
   */
  function GlyphRows(charmap: seq<bv32>): (r: seq<bv8>)
    requires |charmap| >= 8
    ensures |r| == 8
    ensures forall i :: 0 <= i < 8 ==> r[i] as bv32 == charmap[i] & 0xFF
  {
    seq(8, i requires 0 <= i < 8 => LowByte(charmap[i]))
  }

  /** The conversion of a C `int` to `uint8_t`: its low eight bits. */
  function LowByte(w: bv32): (b: bv8)
    ensures b as bv32 == w & 0xFF
  {
    (w & 0xFF) as bv8
  }

  /**
   * The log after `clear`, one event per constructor: clear, the 4-bit
   * nibble, a wait, function set, entry mode, display control, clear, a wait.
   * Only the first transmission can carry the RS settle frame.
   */
  function ClearTrace(t: Trace, addr: int, lines: int, entrymode: bv8, displaycontrol: bv8, backlight: int, rsState: bool): Trace
  {
    Then(Then(Then(Then(Then(Then(Then(Then(t,
      SendEvent(addr, CLEAR_DISPLAY, false, backlight, rsState)),
      NibbleEvent(addr, FOUR_BIT_MODE_NIBBLE, false, backlight, false)),
      Delay(CLEAR_DELAY_MICROS)),
      SendEvent(addr, FunctionSetCommand(lines), false, backlight, false)),
      SendEvent(addr, EntryModeCommand(entrymode), false, backlight, false)),
      SendEvent(addr, DisplayControlCommand(displaycontrol), false, backlight, false)),
      SendEvent(addr, CLEAR_DISPLAY, false, backlight, false)),
      Delay(CLEAR_DELAY_MICROS))
  }

  /**
   * What the controller receives from `clear`: clear, the 4-bit nibble,
   * function set, the stored entry mode and display control re-asserted,
   * clear again; together with the instructions these decode to.
   */
  lemma ClearSequence(t: Trace, addr: int, lines: int, entrymode: bv8, displaycontrol: bv8, backlight: int, rsState: bool)
    requires entrymode & !(ENTRY_INCREMENT | ENTRY_SHIFT) == 0
    requires displaycontrol & !0x07 == 0
    ensures ReceivedLog(ClearTrace(t, addr, lines, entrymode, displaycontrol, backlight, rsState))
      == ReceivedLog(t)
         + [Received.Byte(CLEAR_DISPLAY, false)]
         + [Received.HalfByte(FOUR_BIT_MODE_NIBBLE, false)]
         + [Received.Byte(FunctionSetCommand(lines), false)]
         + [Received.Byte(EntryModeCommand(entrymode), false)]
         + [Received.Byte(DisplayControlCommand(displaycontrol), false)]
         + [Received.Byte(CLEAR_DISPLAY, false)]
    ensures Hd44780.Decode(CLEAR_DISPLAY) == Hd44780.ClearDisplay
    ensures Hd44780.Decode(FunctionSetCommand(lines)) == Hd44780.FunctionSet(false, lines > 1, true)
    ensures Hd44780.Decode(EntryModeCommand(entrymode))
      == Hd44780.EntryModeSet(entrymode & ENTRY_INCREMENT != 0, entrymode & ENTRY_SHIFT != 0)
    ensures Hd44780.Decode(DisplayControlCommand(displaycontrol))
      == Hd44780.DisplayControl(displaycontrol & DISPLAY_ON != 0, displaycontrol & 0x02 != 0, displaycontrol & CURSOR_BLINK != 0)
  {
    ClearReceived(t, addr, lines, entrymode, displaycontrol, backlight, rsState);
    FixedCommandsDecode();
    FunctionSetDecodes(lines);
    EntryModeDecodes(entrymode);
    DisplayControlDecodes(displaycontrol);
  }

  lemma ClearReceived(t: Trace, addr: int, lines: int, entrymode: bv8, displaycontrol: bv8, backlight: int, rsState: bool)
    ensures ReceivedLog(ClearTrace(t, addr, lines, entrymode, displaycontrol, backlight, rsState))
      == ReceivedLog(t)
         + [Received.Byte(CLEAR_DISPLAY, false)]
         + [Received.HalfByte(FOUR_BIT_MODE_NIBBLE, false)]
         + [Received.Byte(FunctionSetCommand(lines), false)]
         + [Received.Byte(EntryModeCommand(entrymode), false)]
         + [Received.Byte(DisplayControlCommand(displaycontrol), false)]
         + [Received.Byte(CLEAR_DISPLAY, false)]
  {
    var t1 := Then(t, SendEvent(addr, CLEAR_DISPLAY, false, backlight, rsState));
    ReceivedSend(t, addr, CLEAR_DISPLAY, false, backlight, rsState);
    var t2 := Then(t1, NibbleEvent(addr, FOUR_BIT_MODE_NIBBLE, false, backlight, false));
    ReceivedNibble(t1, addr, FOUR_BIT_MODE_NIBBLE, false, backlight, false);
    var t3 := Then(t2, Delay(CLEAR_DELAY_MICROS));
    var t4 := Then(t3, SendEvent(addr, FunctionSetCommand(lines), false, backlight, false));
    ReceivedSend(t3, addr, FunctionSetCommand(lines), false, backlight, false);
    var t5 := Then(t4, SendEvent(addr, EntryModeCommand(entrymode), false, backlight, false));
    ReceivedSend(t4, addr, EntryModeCommand(entrymode), false, backlight, false);
    var t6 := Then(t5, SendEvent(addr, DisplayControlCommand(displaycontrol), false, backlight, false));
    ReceivedSend(t5, addr, DisplayControlCommand(displaycontrol), false, backlight, false);
    ReceivedSend(t6, addr, CLEAR_DISPLAY, false, backlight, false);
    assert ReceivedLog(t3) == ReceivedLog(t2);
  }

  /** After `clear` the controller's address counter is back at its power-on state. */
  lemma ClearResetsController(t: Trace, addr: int, lines: int, entrymode: bv8, displaycontrol: bv8, backlight: int, rsState: bool)
    ensures Controller(ClearTrace(t, addr, lines, entrymode, displaycontrol, backlight, rsState)) == Hd44780.POWER_ON
  {
    var t7 := Then(Then(Then(Then(Then(Then(t,
      SendEvent(addr, CLEAR_DISPLAY, false, backlight, rsState)),
      NibbleEvent(addr, FOUR_BIT_MODE_NIBBLE, false, backlight, false)),
      Delay(CLEAR_DELAY_MICROS)),
      SendEvent(addr, FunctionSetCommand(lines), false, backlight, false)),
      SendEvent(addr, EntryModeCommand(entrymode), false, backlight, false)),
      SendEvent(addr, DisplayControlCommand(displaycontrol), false, backlight, false));
    ControllerClear(t7, addr, backlight, false);
  }

  /**
   * What the controller receives from `createChar`: Set CGRAM address of the
   * slot, then the eight glyph rows as data, in order.
   */
  lemma CreateCharReceived(t: Trace, addr: int, location: bv32, charmap: seq<bv32>, backlight: int, rsState: bool)
    requires |charmap| >= 8
    ensures ReceivedLog(Extend(Then(t, SendEvent(addr, CgramCommand(location), false, backlight, rsState)),
                               DataEvents(addr, GlyphRows(charmap), backlight, false)))
      == ReceivedLog(t) + [Received.Byte(CgramCommand(location), false)] + AsData(GlyphRows(charmap))
  {
    var t1 := Then(t, SendEvent(addr, CgramCommand(location), false, backlight, rsState));
    ReceivedSend(t, addr, CgramCommand(location), false, backlight, rsState);
    ReceivedLogExtend(t1, DataEvents(addr, GlyphRows(charmap), backlight, false));
    DataRoundTrip(addr, GlyphRows(charmap), backlight, false);
  }

  /**
   * After `createChar` the address counter points into CGRAM, eight rows
   * past the start of the slot, still in the direction it had.
   */
  lemma CreateCharController(t: Trace, addr: int, location: bv32, charmap: seq<bv32>, backlight: int, rsState: bool)
    requires |charmap| >= 8
    ensures Controller(Extend(Then(t, SendEvent(addr, CgramCommand(location), false, backlight, rsState)),
                              DataEvents(addr, GlyphRows(charmap), backlight, false)))
      == Advance(Hd44780.AddressCounter(true, ((location & 0x7) as bv8) * 8, Controller(t).increment), 8)
  {
    ControllerCgram(t, addr, location, backlight, rsState);
    ControllerData(Then(t, SendEvent(addr, CgramCommand(location), false, backlight, rsState)), addr, GlyphRows(charmap), backlight, false);
  }

  /**
   * What the controller receives from `write(0x03)`: one space as data per
   * remaining column, then Set DDRAM address of the unchanged cursor.
   */
  lemma ClearToEndOfLineReceived(t: Trace, addr: int, n: nat, row: nat, col: bv8, backlight: int, rsState: bool)
    requires row < |ROW_OFFSETS|
    ensures ReceivedLog(Then(Extend(t, DataEvents(addr, Spaces(n), backlight, rsState)),
                             SendEvent(addr, DdramCommand(row, col), false, backlight, true)))
      == ReceivedLog(t) + AsData(Spaces(n)) + [Received.Byte(DdramCommand(row, col), false)]
  {
    ReceivedLogExtend(t, DataEvents(addr, Spaces(n), backlight, rsState));
    DataRoundTrip(addr, Spaces(n), backlight, rsState);
    ReceivedSend(Extend(t, DataEvents(addr, Spaces(n), backlight, rsState)), addr, DdramCommand(row, col), false, backlight, true);
  }

  /**
   * Where `write(ch)` leaves the cursor: 0x01 and 0x02 go home, 0x03 puts it
   * back where it was, CR goes to column 0 of the same row, LF moves down a
   * row keeping the column, and a glyph advances the column, wrapping to the
   * start of the next row.  The next row wraps to the top modulo the number
   * of lines, as `setCursorLCD` does.
   */
  function CursorAfter(ch: bv8, col: int, row: int, cols: int, lines: int): (r: (int, int))
    requires 0 <= col < cols && 0 <= row < lines
    ensures 0 <= r.0 < cols && 0 <= r.1 < lines
  {
    if ch == ESC_CLEAR || ch == ESC_HOME then (0, 0)
    else if ch == ESC_CLEAR_EOL then (col, row)
    else if ch == CARRIAGE_RETURN then (0, row)
    else if ch == LINE_FEED then (col, (row + 1) % lines)
    else if col + 1 < cols then (col + 1, row)
    else (0, (row + 1) % lines)
  }

  /** The cursor after `write` of each byte of `s` in turn. */
  function CursorAfterAll(s: seq<bv8>, col: int, row: int, cols: int, lines: int): (r: (int, int))
    requires 0 <= col < cols && 0 <= row < lines
    ensures 0 <= r.0 < cols && 0 <= r.1 < lines
    decreases |s|
  {
    if s == [] then
      (col, row)
    else
      var before := CursorAfterAll(s[..|s| - 1], col, row, cols, lines);
      CursorAfter(s[|s| - 1], before.0, before.1, cols, lines)
  }

  /** "Hi", a line feed, "there". */
  const HI_THERE: seq<bv8> := [0x48, 0x69, 0x0A, 0x74, 0x68, 0x65, 0x72, 0x65]

  /**
   * On a 16x2 display the line feed keeps column 2, so "there" starts at
   * row 1, column 2 and the cursor ends at row 1, column 7 (not at column 5,
   * as a carriage-return-and-line-feed would give).
   */
  lemma HiThereCursor()
    ensures CursorAfterAll(HI_THERE, 0, 0, 16, 2) == (7, 1)
  {
    var s := HI_THERE;
    assert CursorAfterAll(s[..1], 0, 0, 16, 2) == (1, 0) by { assert s[..1][..0] == []; }
    assert CursorAfterAll(s[..2], 0, 0, 16, 2) == (2, 0) by { assert s[..2][..1] == s[..1]; }
    assert CursorAfterAll(s[..3], 0, 0, 16, 2) == (2, 1) by { assert s[..3][..2] == s[..2]; }
    assert CursorAfterAll(s[..4], 0, 0, 16, 2) == (3, 1) by { assert s[..4][..3] == s[..3]; }
    assert CursorAfterAll(s[..5], 0, 0, 16, 2) == (4, 1) by { assert s[..5][..4] == s[..4]; }
    assert CursorAfterAll(s[..6], 0, 0, 16, 2) == (5, 1) by { assert s[..6][..5] == s[..5]; }
    assert CursorAfterAll(s[..7], 0, 0, 16, 2) == (6, 1) by { assert s[..7][..6] == s[..6]; }
    assert s[..8] == s;
  }

  /** Wrapping a coordinate into the display leaves it alone exactly when it is already inside. */
  lemma WrapKeepsIff(x: int, m: int)
    requires 0 <= x && 0 < m
    ensures x % m == x <==> x < m
  {
    if x >= m {
      assert x % m < m;
    }
  }

  /**
   * A glyph written while the address counter points at DDRAM cell
   * (`row`, `col`) in increment mode leaves it pointing at the next column.
   */
  lemma GlyphKeepsSync(t: Trace, addr: int, ch: bv8, backlight: int, rsState: bool, row: nat, col: nat)
    requires row < |ROW_OFFSETS|
    ensures Controller(t) == Hd44780.AddressCounter(false, DdramAddress(row, ColumnByte(col)), true) ==>
      Controller(Then(t, SendEvent(addr, ch, true, backlight, rsState)))
      == Hd44780.AddressCounter(false, DdramAddress(row, ColumnByte(col + 1)), true)
  {
    ControllerDataByte(t, addr, ch, backlight, rsState);
    DdramAddressNext(row, ColumnByte(col));
  }

  /** `NibbleFrames` written one byte at a time after what is already queued. */
  lemma NibbleFramesAppended(queued: seq<bv8>, halfByte: bv8, isData: bool, backlight: int, rsState: bool)
    ensures var f := Frame(halfByte, isData, backlight);
      queued + NibbleFrames(halfByte, isData, backlight, rsState)
      == if rsState != isData then queued + [f] + [f | PCF_EN] + [f] else queued + [f | PCF_EN] + [f]
  {
  }

  class LiquidCrystal {
    var i2cAddr: int
    var backlight: int
    var entrymode: bv8
    var displaycontrol: bv8
    var cols: int
    var lines: int
    var col: int
    var row: int
    /** The RS level last written to the expander (`i2cDataState`, a function-local static in the driver). */
    var rsState: bool

    /** Everything written to the I2C bus so far. */
    ghost var trace: Trace
    /** The bytes queued in the open I2C transmission. */
    ghost var txBuffer: seq<bv8>

    /** Geometry set by `begin` and the only register bits the driver ever sets. */
    predicate Configured()
      reads this
    {
      0 < cols < 256 && 1 <= lines <= |ROW_OFFSETS|
      && entrymode & !(ENTRY_INCREMENT | ENTRY_SHIFT) == 0
      && displaycontrol & !(DISPLAY_ON | CURSOR_BLINK) == 0
    }

    /** The object invariant after `begin`: the cursor is inside the display and no transmission is open. */
    ghost predicate Valid()
      reads this
    {
      Configured() && 0 <= col < cols && 0 <= row < lines && txBuffer == []
    }

    /**
     * The stored cursor is where the controller will put the next glyph:
     * its address counter points at DDRAM cell (`row`, `col`) and moves
     * forward.  `setCursor` relies on this when it sends nothing.
     */
    ghost predicate InSync()
      reads this
    {
      Valid() && Controller(trace) == Hd44780.AddressCounter(false, DdramAddress(row, ColumnByte(col)), true)
    }

    constructor (i2cAddr: int)
      ensures this.i2cAddr == i2cAddr && backlight == 0
      ensures entrymode == INITIAL_ENTRY_MODE && displaycontrol == INITIAL_DISPLAY_CONTROL
      ensures rsState
      ensures trace == Empty && txBuffer == []
    {
      this.i2cAddr := i2cAddr;
      backlight := 0;
      entrymode := INITIAL_ENTRY_MODE;
      displaycontrol := INITIAL_DISPLAY_CONTROL;
      rsState := true;
      trace, txBuffer := Empty, [];
    }

    // -------------------------------------------------------------------
    // The bus collaborator: each call only extends the trace.

    method WireBeginBus()
      modifies this`trace
      ensures trace == Then(old(trace), WireBegin)
    {
      trace := Then(trace, WireBegin);
    }

    method BeginTransmission()
      modifies this`txBuffer
      ensures txBuffer == []
    {
      txBuffer := [];
    }

    method WireWrite(b: bv8)
      modifies this`txBuffer
      ensures txBuffer == old(txBuffer) + [b]
    {
      txBuffer := txBuffer + [b];
    }

    method EndTransmission()
      modifies this`trace, this`txBuffer
      ensures trace == Then(old(trace), Transmission(i2cAddr, old(txBuffer)))
      ensures txBuffer == []
    {
      trace := Then(trace, Transmission(i2cAddr, txBuffer));
      txBuffer := [];
    }

    method DelayMicroseconds(micros: nat)
      modifies this`trace
      ensures trace == Then(old(trace), Delay(micros))
    {
      trace := Then(trace, Delay(micros));
    }

    // -------------------------------------------------------------------
    // Nibble transport.

    /** `_writePCF`: one nibble as expander frames, with the settle frame only on an RS change. */
    method WritePcf(halfByte: bv8, isData: bool)
      modifies this`txBuffer, this`rsState
      ensures rsState == isData
      ensures txBuffer == old(txBuffer) + NibbleFrames(halfByte, isData, backlight, old(rsState))
    {
      var i2cData: bv8 := halfByte << 4;
      if backlight > 0 {
        i2cData := i2cData | PCF_BACKLIGHT;
      }
      if isData {
        i2cData := i2cData | PCF_RS;
      }
      assert i2cData == Frame(halfByte, isData, backlight);
      NibbleFramesAppended(txBuffer, halfByte, isData, backlight, rsState);
      if rsState != isData {
        rsState := isData;
        WireWrite(i2cData);
      }
      WireWrite(i2cData | PCF_EN);
      WireWrite(i2cData);
    }

    /** `_send`: high then low nibble, in one transmission. */
    method Send(value: bv8, isData: bool)
      modifies this`txBuffer, this`rsState, this`trace
      ensures rsState == isData && txBuffer == []
      ensures trace == Then(old(trace), SendEvent(i2cAddr, value, isData, backlight, old(rsState)))
    {
      BeginTransmission();
      WritePcf(value >> 4, isData);
      WritePcf(value & 0x0F, isData);
      assert txBuffer == SendFrames(value, isData, backlight, old(rsState));
      EndTransmission();
    }

    /** `_sendNibble`: a single nibble in its own transmission. */
    method SendNibble(halfByte: bv8, isData: bool)
      modifies this`txBuffer, this`rsState, this`trace
      ensures rsState == isData && txBuffer == []
      ensures trace == Then(old(trace), NibbleEvent(i2cAddr, halfByte, isData, backlight, old(rsState)))
    {
      BeginTransmission();
      WritePcf(halfByte, isData);
      assert txBuffer == NibbleFrames(halfByte, isData, backlight, old(rsState));
      EndTransmission();
    }

    /** `writeLCD`: a byte as display data. */
    method WriteLcd(ch: bv8)
      modifies this`txBuffer, this`rsState, this`trace
      ensures rsState && txBuffer == []
      ensures trace == Then(old(trace), SendEvent(i2cAddr, ch, true, backlight, old(rsState)))
    {
      Send(ch, true);
    }

    // -------------------------------------------------------------------
    // Set-up and re-initialisation.

    method Begin(cols: int, lines: int)
      requires 0 < cols < 256 && 1 <= lines <= |ROW_OFFSETS|
      modifies this`cols, this`lines, this`entrymode, this`displaycontrol
      modifies this`col, this`row, this`rsState, this`trace, this`txBuffer
      ensures Valid()
      ensures this.cols == cols && this.lines == lines
      ensures entrymode == INITIAL_ENTRY_MODE && displaycontrol == INITIAL_DISPLAY_CONTROL
      ensures col == 0 && row == 0 && !rsState && txBuffer == []
      ensures trace == Then(Then(
        ClearTrace(Then(old(trace), WireBegin), i2cAddr, lines, INITIAL_ENTRY_MODE, INITIAL_DISPLAY_CONTROL, backlight, old(rsState)),
        SendEvent(i2cAddr, DisplayControlCommand(INITIAL_DISPLAY_CONTROL), false, backlight, false)),
        SendEvent(i2cAddr, EntryModeCommand(INITIAL_ENTRY_MODE), false, backlight, false))
      ensures InSync()
    {
      this.cols := cols;
      this.lines := lines;
      WireBeginBus();
      displaycontrol := INITIAL_DISPLAY_CONTROL;
      entrymode := INITIAL_ENTRY_MODE;
      Clear();
      Display();
      LeftToRight();
    }

    /** `clear`: the full defensive re-initialisation, ending with the cursor at (0, 0). */
    method Clear()
      modifies this`col, this`row, this`rsState, this`trace, this`txBuffer
      ensures col == 0 && row == 0 && !rsState && txBuffer == []
      ensures trace == ClearTrace(old(trace), i2cAddr, lines, entrymode, displaycontrol, backlight, old(rsState))
      ensures Controller(trace) == Hd44780.POWER_ON
    {
      Send(CLEAR_DISPLAY, false);
      SendNibble(FOUR_BIT_MODE_NIBBLE, false);
      DelayMicroseconds(CLEAR_DELAY_MICROS);
      var functionFlags: bv8 := 0x00;
      if lines > 1 {
        functionFlags := 0x08;
      }
      assert 0x24 | functionFlags == FunctionSetCommand(lines);
      Send(0x24 | functionFlags, false);
      Send(EntryModeCommand(entrymode), false);
      Send(DisplayControlCommand(displaycontrol), false);
      Send(CLEAR_DISPLAY, false);
      DelayMicroseconds(CLEAR_DELAY_MICROS);
      row := 0;
      col := 0;
      ClearResetsController(old(trace), i2cAddr, lines, entrymode, displaycontrol, backlight, old(rsState));
    }

    method Init()
      modifies this`col, this`row, this`rsState, this`trace, this`txBuffer
      ensures col == 0 && row == 0 && !rsState && txBuffer == []
      ensures trace == ClearTrace(old(trace), i2cAddr, lines, entrymode, displaycontrol, backlight, old(rsState))
      ensures Controller(trace) == Hd44780.POWER_ON
    {
      Clear();
    }

    // -------------------------------------------------------------------
    // Cursor addressing.

    /** `setCursorLCD`: wrap both coordinates into the display and send Set DDRAM address. */
    method SetCursorLcd(col: byte, row: byte)
      requires Configured()
      modifies this`col, this`row, this`rsState, this`trace, this`txBuffer
      ensures Valid()
      ensures this.col == col % cols && this.row == row % lines
      ensures !rsState
      ensures trace == Then(old(trace), SendEvent(i2cAddr, DdramCommand(row % lines, ColumnByte(col % cols)), false, backlight, old(rsState)))
      ensures Controller(trace) == Hd44780.AddressCounter(false, DdramAddress(row % lines, ColumnByte(col % cols)), Controller(old(trace)).increment)
    {
      var c := col % cols;
      var r := row % lines;
      Send(DdramCommand(r, ColumnByte(c)), false);
      ControllerDdram(old(trace), i2cAddr, r, ColumnByte(c), backlight, old(rsState));
      this.col := c;
      this.row := r;
    }

    /** `setCursor`: a no-op when the raw arguments equal the stored position. */
    method SetCursor(col: byte, row: byte)
      requires Valid()
      modifies this`col, this`row, this`rsState, this`trace, this`txBuffer
      ensures Valid()
      ensures col == old(this.col) && row == old(this.row) ==>
        this.col == old(this.col) && this.row == old(this.row)
        && rsState == old(rsState) && trace == old(trace)
      ensures col != old(this.col) || row != old(this.row) ==>
        this.col == col % cols && this.row == row % lines
        && !rsState
        && trace == Then(old(trace), SendEvent(i2cAddr, DdramCommand(row % lines, ColumnByte(col % cols)), false, backlight, old(rsState)))
      ensures old(InSync()) ==> InSync()
    {
      if this.col != col || this.row != row {
        SetCursorLcd(col, row);
      }
    }

    /** `home`: `setCursor(0, 0)`, not the controller's slow Return Home instruction. */
    method Home()
      requires Valid()
      modifies this`col, this`row, this`rsState, this`trace, this`txBuffer
      ensures Valid() && col == 0 && row == 0
      ensures old(col) == 0 && old(row) == 0 ==>
        rsState == old(rsState) && trace == old(trace)
      ensures old(col) != 0 || old(row) != 0 ==>
        !rsState
        && trace == Then(old(trace), SendEvent(i2cAddr, DdramCommand(0, 0), false, backlight, old(rsState)))
      ensures old(InSync()) ==> InSync()
    {
      SetCursor(0, 0);
    }

    // -------------------------------------------------------------------
    // Display control: each mutator changes one bit and re-sends the register.

    method NoDisplay()
      requires Valid()
      modifies this`displaycontrol, this`rsState, this`trace, this`txBuffer
      ensures Valid()
      ensures displaycontrol == ClearBits(old(displaycontrol), DISPLAY_ON)
      ensures !rsState
      ensures trace == Then(old(trace), SendEvent(i2cAddr, DisplayControlCommand(displaycontrol), false, backlight, old(rsState)))
      ensures Controller(trace) == Controller(old(trace))
      ensures old(InSync()) ==> InSync()
    {
      displaycontrol := ClearBits(displaycontrol, DISPLAY_ON);
      ControllerDisplayControl(trace, i2cAddr, displaycontrol, backlight, rsState);
      Send(DisplayControlCommand(displaycontrol), false);
    }

    method Display()
      requires Configured()
      modifies this`displaycontrol, this`rsState, this`trace, this`txBuffer
      ensures Configured() && (old(Valid()) ==> Valid())
      ensures displaycontrol == SetBits(old(displaycontrol), DISPLAY_ON)
      ensures !rsState
      ensures trace == Then(old(trace), SendEvent(i2cAddr, DisplayControlCommand(displaycontrol), false, backlight, old(rsState)))
      ensures Controller(trace) == Controller(old(trace))
      ensures old(InSync()) ==> InSync()
    {
      displaycontrol := SetBits(displaycontrol, DISPLAY_ON);
      ControllerDisplayControl(trace, i2cAddr, displaycontrol, backlight, rsState);
      Send(DisplayControlCommand(displaycontrol), false);
    }

    method Cursor()
      requires Valid()
      modifies this`displaycontrol, this`rsState, this`trace, this`txBuffer
      ensures Valid()
      ensures displaycontrol == SetBits(old(displaycontrol), CURSOR_BLINK)
      ensures !rsState
      ensures trace == Then(old(trace), SendEvent(i2cAddr, DisplayControlCommand(displaycontrol), false, backlight, old(rsState)))
      ensures Controller(trace) == Controller(old(trace))
      ensures old(InSync()) ==> InSync()
    {
      displaycontrol := SetBits(displaycontrol, CURSOR_BLINK);
      ControllerDisplayControl(trace, i2cAddr, displaycontrol, backlight, rsState);
      Send(DisplayControlCommand(displaycontrol), false);
    }

    method NoCursor()
      requires Valid()
      modifies this`displaycontrol, this`rsState, this`trace, this`txBuffer
      ensures Valid()
      ensures displaycontrol == ClearBits(old(displaycontrol), CURSOR_BLINK)
      ensures !rsState
      ensures trace == Then(old(trace), SendEvent(i2cAddr, DisplayControlCommand(displaycontrol), false, backlight, old(rsState)))
      ensures Controller(trace) == Controller(old(trace))
      ensures old(InSync()) ==> InSync()
    {
      displaycontrol := ClearBits(displaycontrol, CURSOR_BLINK);
      ControllerDisplayControl(trace, i2cAddr, displaycontrol, backlight, rsState);
      Send(DisplayControlCommand(displaycontrol), false);
    }

    method Blink()
      requires Valid()
      modifies this`displaycontrol, this`rsState, this`trace, this`txBuffer
      ensures Valid()
      ensures displaycontrol == SetBits(old(displaycontrol), CURSOR_BLINK)
      ensures !rsState
      ensures trace == Then(old(trace), SendEvent(i2cAddr, DisplayControlCommand(displaycontrol), false, backlight, old(rsState)))
      ensures Controller(trace) == Controller(old(trace))
      ensures old(InSync()) ==> InSync()
    {
      displaycontrol := SetBits(displaycontrol, CURSOR_BLINK);
      ControllerDisplayControl(trace, i2cAddr, displaycontrol, backlight, rsState);
      Send(DisplayControlCommand(displaycontrol), false);
    }

    method NoBlink()
      requires Valid()
      modifies this`displaycontrol, this`rsState, this`trace, this`txBuffer
      ensures Valid()
      ensures displaycontrol == ClearBits(old(displaycontrol), CURSOR_BLINK)
      ensures !rsState
      ensures trace == Then(old(trace), SendEvent(i2cAddr, DisplayControlCommand(displaycontrol), false, backlight, old(rsState)))
      ensures Controller(trace) == Controller(old(trace))
      ensures old(InSync()) ==> InSync()
    {
      displaycontrol := ClearBits(displaycontrol, CURSOR_BLINK);
      ControllerDisplayControl(trace, i2cAddr, displaycontrol, backlight, rsState);
      Send(DisplayControlCommand(displaycontrol), false);
    }

    // -------------------------------------------------------------------
    // Display shift: fixed commands, no field but the RS level changes.

    method ScrollDisplayLeft()
      requires Valid()
      modifies this`rsState, this`trace, this`txBuffer
      ensures Valid()
      ensures !rsState
      ensures trace == Then(old(trace), SendEvent(i2cAddr, SCROLL_LEFT, false, backlight, old(rsState)))
      ensures Controller(trace) == Controller(old(trace))
      ensures old(InSync()) ==> InSync()
    {
      ControllerKeptBy(trace, i2cAddr, SCROLL_LEFT, backlight, rsState);
      Send(SCROLL_LEFT, false);
    }

    method ScrollDisplayRight()
      requires Valid()
      modifies this`rsState, this`trace, this`txBuffer
      ensures Valid()
      ensures !rsState
      ensures trace == Then(old(trace), SendEvent(i2cAddr, SCROLL_RIGHT, false, backlight, old(rsState)))
      ensures Controller(trace) == Controller(old(trace))
      ensures old(InSync()) ==> InSync()
    {
      ControllerKeptBy(trace, i2cAddr, SCROLL_RIGHT, backlight, rsState);
      Send(SCROLL_RIGHT, false);
    }

    // -------------------------------------------------------------------
    // Entry mode: each mutator changes one bit and re-sends the register.

    method LeftToRight()
      requires Configured()
      modifies this`entrymode, this`rsState, this`trace, this`txBuffer
      ensures Configured() && (old(Valid()) ==> Valid())
      ensures entrymode == SetBits(old(entrymode), ENTRY_INCREMENT)
      ensures !rsState
      ensures trace == Then(old(trace), SendEvent(i2cAddr, EntryModeCommand(entrymode), false, backlight, old(rsState)))
      ensures Controller(trace) == Controller(old(trace)).(increment := entrymode & ENTRY_INCREMENT != 0)
      ensures old(InSync()) ==> InSync()
    {
      entrymode := SetBits(entrymode, ENTRY_INCREMENT);
      ControllerEntryMode(trace, i2cAddr, entrymode, backlight, rsState);
      Send(EntryModeCommand(entrymode), false);
    }

    method RightToLeft()
      requires Valid()
      modifies this`entrymode, this`rsState, this`trace, this`txBuffer
      ensures Valid()
      ensures entrymode == ClearBits(old(entrymode), ENTRY_INCREMENT)
      ensures !rsState
      ensures trace == Then(old(trace), SendEvent(i2cAddr, EntryModeCommand(entrymode), false, backlight, old(rsState)))
      ensures Controller(trace) == Controller(old(trace)).(increment := entrymode & ENTRY_INCREMENT != 0)
      ensures !InSync()
    {
      entrymode := ClearBits(entrymode, ENTRY_INCREMENT);
      ControllerEntryMode(trace, i2cAddr, entrymode, backlight, rsState);
      Send(EntryModeCommand(entrymode), false);
    }

    method Autoscroll()
      requires Valid()
      modifies this`entrymode, this`rsState, this`trace, this`txBuffer
      ensures Valid()
      ensures entrymode == SetBits(old(entrymode), ENTRY_SHIFT)
      ensures !rsState
      ensures trace == Then(old(trace), SendEvent(i2cAddr, EntryModeCommand(entrymode), false, backlight, old(rsState)))
      ensures Controller(trace) == Controller(old(trace)).(increment := entrymode & ENTRY_INCREMENT != 0)
      ensures old(InSync()) && entrymode & ENTRY_INCREMENT != 0 ==> InSync()
    {
      entrymode := SetBits(entrymode, ENTRY_SHIFT);
      ControllerEntryMode(trace, i2cAddr, entrymode, backlight, rsState);
      Send(EntryModeCommand(entrymode), false);
    }

    method NoAutoscroll()
      requires Valid()
      modifies this`entrymode, this`rsState, this`trace, this`txBuffer
      ensures Valid()
      ensures entrymode == ClearBits(old(entrymode), ENTRY_SHIFT)
      ensures !rsState
      ensures trace == Then(old(trace), SendEvent(i2cAddr, EntryModeCommand(entrymode), false, backlight, old(rsState)))
      ensures Controller(trace) == Controller(old(trace)).(increment := entrymode & ENTRY_INCREMENT != 0)
      ensures old(InSync()) && entrymode & ENTRY_INCREMENT != 0 ==> InSync()
    {
      entrymode := ClearBits(entrymode, ENTRY_SHIFT);
      ControllerEntryMode(trace, i2cAddr, entrymode, backlight, rsState);
      Send(EntryModeCommand(entrymode), false);
    }

    // -------------------------------------------------------------------
    // Backlight and custom glyphs.

    /** Store the level and send the content-free command 0x00 so the backlight pin follows at once. */
    method SetBacklight(brightness: int)
      requires Valid()
      modifies this`backlight, this`rsState, this`trace, this`txBuffer
      ensures Valid()
      ensures backlight == brightness
      ensures !rsState
      ensures trace == Then(old(trace), SendEvent(i2cAddr, BACKLIGHT_REFRESH, false, brightness, old(rsState)))
      ensures forall f :: f in trace.last.frames ==> BacklightBit(f) == (brightness > 0)
      ensures Controller(trace) == Controller(old(trace))
      ensures old(InSync()) ==> InSync()
    {
      backlight := brightness;
      ControllerKeptBy(trace, i2cAddr, BACKLIGHT_REFRESH, backlight, rsState);
      Send(BACKLIGHT_REFRESH, false);
      SendFramesShape(BACKLIGHT_REFRESH, false, brightness, old(rsState));
    }

    /** `createChar`: select CGRAM slot `location & 7`, then write the eight glyph rows as data. */
    method CreateChar(location: bv32, charmap: seq<bv32>)
      requires Valid()
      requires |charmap| >= 8
      modifies this`rsState, this`trace, this`txBuffer
      ensures Valid()
      ensures rsState
      ensures trace == Extend(Then(old(trace), SendEvent(i2cAddr, CgramCommand(location), false, backlight, old(rsState))),
        DataEvents(i2cAddr, GlyphRows(charmap), backlight, false))
      ensures Controller(trace)
        == Advance(Hd44780.AddressCounter(true, ((location & 0x7) as bv8) * 8, Controller(old(trace)).increment), 8)
    {
      Send(CgramCommand(location), false);
      ghost var start := trace;
      var rows := GlyphRows(charmap);
      for i := 0 to 8
        invariant rsState == (i > 0)
        invariant txBuffer == []
        invariant trace == Extend(start, DataEvents(i2cAddr, rows[..i], backlight, false))
      {
        ExtendDataSnoc(start, i2cAddr, rows[..i], rows[i], backlight, false);
        assert rows[..i] + [rows[i]] == rows[..i + 1];
        WriteLcd(rows[i]);
      }
      assert rows[..8] == rows;
      CreateCharController(old(trace), i2cAddr, location, charmap, backlight, old(rsState));
    }

    // -------------------------------------------------------------------
    // The character sink.

    /** `write`: escape codes 0x01..0x03, CR and LF move or clear; any other byte is a glyph. */
    method Write(ch: bv8) returns (n: int)
      requires Valid()
      modifies this`col, this`row, this`rsState, this`trace, this`txBuffer
      ensures n == 1
      ensures Valid()
      ensures (col, row) == CursorAfter(ch, old(col), old(row), cols, lines)
      ensures ch == ESC_CLEAR ==>
        !rsState
        && trace == ClearTrace(old(trace), i2cAddr, lines, entrymode, displaycontrol, backlight, old(rsState))
      ensures ch == ESC_HOME && old(col) == 0 && old(row) == 0 ==>
        rsState == old(rsState) && trace == old(trace)
      ensures ch == ESC_HOME && (old(col) != 0 || old(row) != 0) ==>
        !rsState
        && trace == Then(old(trace), SendEvent(i2cAddr, DdramCommand(0, 0), false, backlight, old(rsState)))
      ensures ch == ESC_CLEAR_EOL ==>
        !rsState
        && trace == Then(Extend(old(trace), DataEvents(i2cAddr, Spaces(cols - old(col)), backlight, old(rsState))),
          SendEvent(i2cAddr, DdramCommand(old(row), ColumnByte(old(col))), false, backlight, true))
      ensures ch == CARRIAGE_RETURN ==>
        !rsState
        && trace == Then(old(trace), SendEvent(i2cAddr, DdramCommand(old(row), 0), false, backlight, old(rsState)))
      ensures ch == LINE_FEED ==>
        !rsState
        && trace == Then(old(trace), SendEvent(i2cAddr, DdramCommand((old(row) + 1) % lines, ColumnByte(old(col))), false, backlight, old(rsState)))
      ensures IsGlyph(ch) && old(col) + 1 < cols ==>
        rsState
        && trace == Then(old(trace), SendEvent(i2cAddr, ch, true, backlight, old(rsState)))
      ensures IsGlyph(ch) && old(col) + 1 >= cols ==>
        !rsState
        && trace == Then(Then(old(trace), SendEvent(i2cAddr, ch, true, backlight, old(rsState))),
          SendEvent(i2cAddr, DdramCommand((old(row) + 1) % lines, 0), false, backlight, true))
      ensures old(InSync()) ==> InSync()
    {
      if ch == ESC_CLEAR {
        Clear();
      } else if ch == ESC_HOME {
        Home();
      } else if ch == ESC_CLEAR_EOL {
        ClearToEndOfLine();
      } else if ch == CARRIAGE_RETURN {
        CarriageReturn();
      } else if ch == LINE_FEED {
        LineFeed();
      } else {
        WriteGlyph(ch);
      }
      n := 1;
    }

    /** Case CR of `write`: back to column 0 of the current row. */
    method CarriageReturn()
      requires Valid()
      modifies this`col, this`row, this`rsState, this`trace, this`txBuffer
      ensures Valid() && col == 0 && row == old(row) && !rsState
      ensures trace == Then(old(trace), SendEvent(i2cAddr, DdramCommand(old(row), 0), false, backlight, old(rsState)))
      ensures old(InSync()) ==> InSync()
    {
      WrapKeepsIff(0, cols);
      WrapKeepsIff(row, lines);
      SetCursorLcd(0, row);
    }

    /** Case LF of `write`: down one row, wrapping to the top, in the same column. */
    method LineFeed()
      requires Valid()
      modifies this`col, this`row, this`rsState, this`trace, this`txBuffer
      ensures Valid() && col == old(col) && row == (old(row) + 1) % lines && !rsState
      ensures trace == Then(old(trace), SendEvent(i2cAddr, DdramCommand((old(row) + 1) % lines, ColumnByte(old(col))), false, backlight, old(rsState)))
      ensures old(InSync()) ==> InSync()
    {
      WrapKeepsIff(col, cols);
      SetCursorLcd(col, row + 1);
    }

    /** The default case of `write`: the glyph, then the column advances, wrapping to the next row. */
    method WriteGlyph(ch: bv8)
      requires Valid()
      modifies this`col, this`row, this`rsState, this`trace, this`txBuffer
      ensures Valid()
      ensures old(col) + 1 < cols ==>
        col == old(col) + 1 && row == old(row) && rsState
        && trace == Then(old(trace), SendEvent(i2cAddr, ch, true, backlight, old(rsState)))
      ensures old(col) + 1 >= cols ==>
        col == 0 && row == (old(row) + 1) % lines && !rsState
        && trace == Then(Then(old(trace), SendEvent(i2cAddr, ch, true, backlight, old(rsState))),
          SendEvent(i2cAddr, DdramCommand((old(row) + 1) % lines, 0), false, backlight, true))
      ensures old(InSync()) ==> InSync()
    {
      WriteLcd(ch);
      col := col + 1;
      if col >= cols {
        ControllerDataByte(old(trace), i2cAddr, ch, backlight, old(rsState));
        WrapKeepsIff(0, cols);
        SetCursorLcd(0, row + 1);
      } else {
        GlyphKeepsSync(old(trace), i2cAddr, ch, backlight, old(rsState), row, old(col));
      }
    }

    /** Case 0x03 of `write`: blank the rest of the row, then put the cursor back where it was. */
    method ClearToEndOfLine()
      requires Valid()
      modifies this`col, this`row, this`rsState, this`trace, this`txBuffer
      ensures Valid() && col == old(col) && row == old(row)
      ensures !rsState
      ensures trace == Then(Extend(old(trace), DataEvents(i2cAddr, Spaces(cols - old(col)), backlight, old(rsState))),
          SendEvent(i2cAddr, DdramCommand(old(row), ColumnByte(old(col))), false, backlight, true))
      ensures Controller(trace) == Hd44780.AddressCounter(false, DdramAddress(row, ColumnByte(col)), Controller(old(trace)).increment)
      ensures old(InSync()) ==> InSync()
    {
      FillToEndOfLine();
      WrapKeepsIff(col, cols);
      WrapKeepsIff(row, lines);
      SetCursorLcd(col, row);
    }

    /** The loop of `write(0x03)`: a space for every column from the cursor to the end of the row. */
    method FillToEndOfLine()
      requires Valid()
      modifies this`rsState, this`trace, this`txBuffer
      ensures rsState && txBuffer == []
      ensures trace == Extend(old(trace), DataEvents(i2cAddr, Spaces(cols - col), backlight, old(rsState)))
      ensures Controller(trace) == Advance(Controller(old(trace)), cols - col)
    {
      var n := col;
      while n < cols
        invariant col <= n <= cols
        invariant rsState == if n == col then old(rsState) else true
        invariant txBuffer == []
        invariant trace == Extend(old(trace), DataEvents(i2cAddr, Spaces(n - col), backlight, old(rsState)))
        decreases cols - n
      {
        ExtendDataSnoc(old(trace), i2cAddr, Spaces(n - col), SPACE, backlight, old(rsState));
        SpacesSnoc(n - col);
        WriteLcd(SPACE);
        n := n + 1;
      }
      ControllerData(old(trace), i2cAddr, Spaces(cols - col), backlight, old(rsState));
    }

    /**
     * Printing a string: the `Print` base class calls `write` once per byte,
     * in order.
     */
    method Print(text: seq<bv8>)
      requires Valid()
      modifies this`col, this`row, this`rsState, this`trace, this`txBuffer
      ensures Valid()
      ensures (col, row) == CursorAfterAll(text, old(col), old(row), cols, lines)
      ensures old(InSync()) ==> InSync()
    {
      for i := 0 to |text|
        invariant Valid()
        invariant (col, row) == CursorAfterAll(text[..i], old(col), old(row), cols, lines)
        invariant old(InSync()) ==> InSync()
      {
        assert text[..i + 1][..i] == text[..i];
        var _ := Write(text[i]);
      }
      assert text[..|text|] == text;
    }

    /**
     * `createChar` followed by re-addressing the stored cursor, as the 0x03
     * escape of `write` re-addresses it: the controller is back on the
     * DDRAM cell of the cursor, so the cursor stays in sync.
     */
    method CreateCharKeepingCursor(location: bv32, charmap: seq<bv32>)
      requires Valid()
      requires |charmap| >= 8
      modifies this`col, this`row, this`rsState, this`trace, this`txBuffer
      ensures Valid() && col == old(col) && row == old(row) && !rsState
      ensures trace == Then(Extend(Then(old(trace), SendEvent(i2cAddr, CgramCommand(location), false, backlight, old(rsState))),
          DataEvents(i2cAddr, GlyphRows(charmap), backlight, false)),
        SendEvent(i2cAddr, DdramCommand(old(row), ColumnByte(old(col))), false, backlight, true))
      ensures old(InSync()) ==> InSync()
    {
      CreateChar(location, charmap);
      WrapKeepsIff(col, cols);
      WrapKeepsIff(row, lines);
      SetCursorLcd(col, row);
    }
  }

  /**
   * A cursor column as the byte `setCursorLCD` adds to the row offset,
   * counted up from 0 so that the next column is the next byte;
   * `ColumnByteValue` shows it is the column itself.
   */
  function ColumnByte(col: nat): bv8
  {
    if col == 0 then 0 else ColumnByte(col - 1) + 1
  }

  lemma {:induction false} ColumnByteValue(col: nat)
    requires col < 256
    ensures ColumnByte(col) as int == col
  {
    if col > 0 {
      ColumnByteValue(col - 1);
      NextByteAsInt(ColumnByte(col - 1));
    }
  }

  lemma NextByteAsInt(b: bv8)
    requires b as int < 255
    ensures (b + 1) as int == b as int + 1
  {
  }

  /**
   * Calling `setCursor` twice with the same arguments sends at most one
   * command when the position lies inside the display; outside it, the
   * stored position is the wrapped one, so the second call sends again.
   */
  method SetCursorTwice(lcd: LiquidCrystal, col: byte, row: byte)
    requires lcd.Valid()
    modifies lcd`col, lcd`row, lcd`rsState, lcd`trace, lcd`txBuffer
    ensures lcd.Valid()
    ensures col == old(lcd.col) && row == old(lcd.row) ==> lcd.trace == old(lcd.trace)
    ensures (col != old(lcd.col) || row != old(lcd.row)) && col < lcd.cols && row < lcd.lines ==>
      lcd.trace == Then(old(lcd.trace), SendEvent(lcd.i2cAddr, DdramCommand(row, ColumnByte(col)), false, lcd.backlight, old(lcd.rsState)))
    ensures col >= lcd.cols || row >= lcd.lines ==>
      lcd.trace == Then(Then(old(lcd.trace),
        SendEvent(lcd.i2cAddr, DdramCommand(row % lcd.lines, ColumnByte(col % lcd.cols)), false, lcd.backlight, old(lcd.rsState))),
        SendEvent(lcd.i2cAddr, DdramCommand(row % lcd.lines, ColumnByte(col % lcd.cols)), false, lcd.backlight, false))
  {
    WrapKeepsIff(col, lcd.cols);
    WrapKeepsIff(row, lcd.lines);
    lcd.SetCursor(col, row);
    lcd.SetCursor(col, row);
  }

  /**
   * `createChar` leaves the controller addressing CGRAM while the stored
   * cursor stays put, so a `setCursor` to that same cell sends nothing and
   * the next glyph is written into a glyph pattern instead of the display.
   */
  method CreateCharThenSetCursor(lcd: LiquidCrystal, location: bv32, charmap: seq<bv32>, ch: bv8)
    requires lcd.InSync()
    requires |charmap| >= 8 && IsGlyph(ch) && lcd.col + 1 < lcd.cols
    modifies lcd`col, lcd`row, lcd`rsState, lcd`trace, lcd`txBuffer
    ensures lcd.trace.Then? && lcd.trace.last == SendEvent(lcd.i2cAddr, ch, true, lcd.backlight, true)
    ensures Controller(lcd.trace.before).inCgram
    ensures !lcd.InSync()
  {
    var col: byte, row: byte := lcd.col, lcd.row;
    lcd.CreateChar(location, charmap);
    lcd.SetCursor(col, row);
    var _ := lcd.Write(ch);
  }

  /** `begin(16, 2)` then `print("Hi\nthere")`: the cursor ends at row 1, column 7. */
  method HiThereScenario() returns (col: int, row: int)
    ensures col == 7 && row == 1
  {
    var lcd := new LiquidCrystal(0x27);
    lcd.Begin(16, 2);
    lcd.Print(HI_THERE);
    HiThereCursor();
    col, row := lcd.col, lcd.row;
  }
}
