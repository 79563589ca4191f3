/**
 * The command bytes the driver sends, each checked against the HD44780
 * decoder: the instruction the controller executes and its arguments.
 */
module LcdCommands {
  import opened Hd44780

  const CLEAR_DISPLAY: bv8 := 0x01
  /** Sent as a single nibble during `clear` to force the 4-bit interface. */
  const FOUR_BIT_MODE_NIBBLE: bv8 := 0x02
  /** Cursor-or-display shift (0x10), shift the display (0x08), left (0x00) or right (0x04). */
  const SCROLL_LEFT: bv8 := 0x10 | 0x08 | 0x00
  const SCROLL_RIGHT: bv8 := 0x10 | 0x08 | 0x04
  /** The content-free byte `setBacklight` sends to refresh the backlight pin. */
  const BACKLIGHT_REFRESH: bv8 := 0x00

  /** Display-control register bits the driver touches. */
  const DISPLAY_ON: bv8 := 0x04
  /** `cursor`/`noCursor` and `blink`/`noBlink` all use this bit. */
  const CURSOR_BLINK: bv8 := 0x01

  /** Entry-mode register bits. */
  const ENTRY_INCREMENT: bv8 := 0x02
  const ENTRY_SHIFT: bv8 := 0x01

  /** Register contents after the constructor and after `begin`. */
  const INITIAL_ENTRY_MODE: bv8 := 0x02
  const INITIAL_DISPLAY_CONTROL: bv8 := 0x04

  /** DDRAM base address of rows 0..3: rows 2 and 3 continue rows 0 and 1. */
  const ROW_OFFSETS: seq<bv8> := [0x00, 0x40, 0x14, 0x54]

  /** `reg |= mask`: the mask bits become set, every other bit is kept. */
  function SetBits(reg: bv8, mask: bv8): (r: bv8)
    ensures r & mask == mask
    ensures r & !mask == reg & !mask
  {
    reg | mask
  }

  /** `reg &= ~mask`: the mask bits become clear, every other bit is kept. */
  function ClearBits(reg: bv8, mask: bv8): (r: bv8)
    ensures r & mask == 0
    ensures r & !mask == reg & !mask
  {
    reg & !mask
  }

  /** Function set, with the 2-line flag when there is more than one line. */
  function FunctionSetCommand(lines: int): bv8
  {
    0x24 | (if lines > 1 then 0x08 else 0x00)
  }

  function EntryModeCommand(entryMode: bv8): bv8
  {
    0x04 | entryMode
  }

  function DisplayControlCommand(displayControl: bv8): bv8
  {
    0x08 | displayControl
  }

  /**
   * Set DDRAM address of a row and column; the byte sum wraps, as the sum
   * does when it is truncated to the byte argument of `_send`.
   */
  function DdramCommand(row: nat, col: bv8): bv8
    requires row < |ROW_OFFSETS|
  {
    0x80 | (ROW_OFFSETS[row] + col)
  }

  /** The DDRAM address of a cell: the row offset plus the column, in the controller's 7 address bits. */
  function DdramAddress(row: nat, col: bv8): bv8
    requires row < |ROW_OFFSETS|
  {
    (ROW_OFFSETS[row] + col) & 0x7F
  }

  /**
   * Set CGRAM address of glyph slot `location & 7`.  `location` is a C `int`,
   * here a 32-bit two's complement word: only its low three bits matter.
   */
  function CgramCommand(location: bv32): bv8
  {
    0x40 | (((location & 0x7) as bv8) << 3)
  }

  // ---------------------------------------------------------------------
  // What the controller does with each command.

  lemma FixedCommandsDecode()
    ensures Decode(CLEAR_DISPLAY) == ClearDisplay
    ensures Decode(SCROLL_LEFT) == CursorOrDisplayShift(true, false)
    ensures Decode(SCROLL_RIGHT) == CursorOrDisplayShift(true, true)
    ensures Decode(BACKLIGHT_REFRESH) == NoInstruction
  {
  }

  /** Function set: 4-bit interface, 2 lines exactly when there is more than one, and the 5x10 font bit (0x04). */
  lemma FunctionSetDecodes(lines: int)
    ensures Decode(FunctionSetCommand(lines)) == FunctionSet(false, lines > 1, true)
  {
  }

  /** The CGRAM address of slot `location & 7` is eight rows per slot. */
  lemma CgramDecodes(location: bv32)
    ensures Decode(CgramCommand(location)) == SetCgramAddress(((location & 0x7) as bv8) * 8)
  {
  }

  /** Locations that differ in their low three bits select different glyph slots. */
  lemma CgramSlotsDistinct(location1: bv32, location2: bv32)
    requires location1 & 0x7 != location2 & 0x7
    ensures CgramCommand(location1) != CgramCommand(location2)
  {
  }

  /** An entry-mode command re-sends the whole register: both flags as stored. */
  lemma EntryModeDecodes(entryMode: bv8)
    requires entryMode & !(ENTRY_INCREMENT | ENTRY_SHIFT) == 0
    ensures Decode(EntryModeCommand(entryMode))
      == EntryModeSet(entryMode & ENTRY_INCREMENT != 0, entryMode & ENTRY_SHIFT != 0)
  {
  }

  /** A display-control command re-sends the whole register: all three flags as stored. */
  lemma DisplayControlDecodes(displayControl: bv8)
    requires displayControl & !0x07 == 0
    ensures Decode(DisplayControlCommand(displayControl))
      == DisplayControl(displayControl & DISPLAY_ON != 0, displayControl & 0x02 != 0, displayControl & CURSOR_BLINK != 0)
  {
  }

  /**
   * The driver only ever sets DISPLAY_ON and CURSOR_BLINK, so the controller
   * never shows the underline cursor: `cursor()` turns blinking on.
   */
  lemma CursorTurnsBlinkOn(displayControl: bv8)
    requires displayControl & !(DISPLAY_ON | CURSOR_BLINK) == 0
    ensures Decode(DisplayControlCommand(SetBits(displayControl, CURSOR_BLINK)))
      == DisplayControl(displayControl & DISPLAY_ON != 0, false, true)
  {
  }

  /** The DDRAM address the controller sets is the row offset plus the column, modulo 128. */
  lemma DdramDecodes(row: nat, col: bv8)
    requires row < |ROW_OFFSETS|
    ensures Decode(DdramCommand(row, col)) == SetDdramAddress(DdramAddress(row, col))
  {
  }

  /**
   * On displays up to 20 columns wide, different cells get different DDRAM
   * addresses: the split layout keeps all four rows apart.  Two-line displays
   * keep them apart up to 40 columns.
   */
  lemma DdramAddressesDistinct(row1: nat, col1: bv8, row2: nat, col2: bv8)
    requires row1 < |ROW_OFFSETS| && row2 < |ROW_OFFSETS|
    requires (col1 < 20 && col2 < 20) || (row1 < 2 && row2 < 2 && col1 < 40 && col2 < 40)
    requires row1 != row2 || col1 != col2
    ensures Decode(DdramCommand(row1, col1)) != Decode(DdramCommand(row2, col2))
    ensures DdramCommand(row1, col1) != DdramCommand(row2, col2)
  {
    DdramDecodes(row1, col1);
    DdramDecodes(row2, col2);
    var o1, o2 := ROW_OFFSETS[row1], ROW_OFFSETS[row2];
    assert o1 + col1 < 0x80 && o2 + col2 < 0x80 by {
      assert o1 <= 0x54 && o2 <= 0x54;
    }
    if row1 == row2 {
      assert col1 != col2;
    } else {
      assert o1 != o2 by {
        assert ROW_OFFSETS == [0x00, 0x40, 0x14, 0x54];
      }
      assert o1 + col1 != o2 + col2 by {
        assert ROW_OFFSETS == [0x00, 0x40, 0x14, 0x54];
      }
    }
  }

  // ---------------------------------------------------------------------
  // What each command does to the controller's address counter.

  /** Clear display resets to DDRAM 0 in increment mode; the shifts of the display and 0x00 leave it alone. */
  lemma FixedCommandsExecute(s: AddressCounter)
    ensures Execute(s, CLEAR_DISPLAY, false) == POWER_ON
    ensures Execute(s, SCROLL_LEFT, false) == s
    ensures Execute(s, SCROLL_RIGHT, false) == s
    ensures Execute(s, BACKLIGHT_REFRESH, false) == s
  {
    FixedCommandsDecode();
  }

  lemma FunctionSetExecutes(s: AddressCounter, lines: int)
    ensures Execute(s, FunctionSetCommand(lines), false) == s
  {
    FunctionSetDecodes(lines);
  }

  /** Entry mode set stores the register's I/D bit as the direction of the address counter. */
  lemma EntryModeExecutes(s: AddressCounter, entryMode: bv8)
    requires entryMode & !(ENTRY_INCREMENT | ENTRY_SHIFT) == 0
    ensures Execute(s, EntryModeCommand(entryMode), false) == s.(increment := entryMode & ENTRY_INCREMENT != 0)
  {
    EntryModeDecodes(entryMode);
  }

  lemma DisplayControlExecutes(s: AddressCounter, displayControl: bv8)
    requires displayControl & !0x07 == 0
    ensures Execute(s, DisplayControlCommand(displayControl), false) == s
  {
    DisplayControlDecodes(displayControl);
  }

  /** Set CGRAM address points the counter at the first row of glyph slot `location & 7`. */
  lemma CgramExecutes(s: AddressCounter, location: bv32)
    ensures Execute(s, CgramCommand(location), false) == AddressCounter(true, ((location & 0x7) as bv8) * 8, s.increment)
  {
    CgramDecodes(location);
  }

  /** Set DDRAM address points the counter at the cell, whatever it addressed before. */
  lemma DdramExecutes(s: AddressCounter, row: nat, col: bv8)
    requires row < |ROW_OFFSETS|
    ensures Execute(s, DdramCommand(row, col), false) == AddressCounter(false, DdramAddress(row, col), s.increment)
  {
    DdramDecodes(row, col);
  }
}
