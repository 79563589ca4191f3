/**
 * The HD44780 instruction set, as the controller decodes a byte written
 * with RS low: the highest set bit selects the instruction and the bits
 * below it are its flags or address.  The command bytes the driver builds
 * are checked against this decoder.
 */
module Hd44780 {

  datatype Instruction =
    | NoInstruction
    | ClearDisplay
    | ReturnHome
    | EntryModeSet(increment: bool, shift: bool)
    | DisplayControl(displayOn: bool, cursorOn: bool, blinkOn: bool)
    | CursorOrDisplayShift(displayShift: bool, right: bool)
    | FunctionSet(eightBit: bool, twoLines: bool, font5x10: bool)
    | SetCgramAddress(address: bv8)
    | SetDdramAddress(address: bv8)

  function Decode(b: bv8): Instruction
  {
    if b & 0x80 != 0 then SetDdramAddress(b & 0x7F)
    else if b & 0x40 != 0 then SetCgramAddress(b & 0x3F)
    else if b & 0x20 != 0 then FunctionSet(b & 0x10 != 0, b & 0x08 != 0, b & 0x04 != 0)
    else if b & 0x10 != 0 then CursorOrDisplayShift(b & 0x08 != 0, b & 0x04 != 0)
    else if b & 0x08 != 0 then DisplayControl(b & 0x04 != 0, b & 0x02 != 0, b & 0x01 != 0)
    else if b & 0x04 != 0 then EntryModeSet(b & 0x02 != 0, b & 0x01 != 0)
    else if b & 0x02 != 0 then ReturnHome
    else if b & 0x01 != 0 then ClearDisplay
    else NoInstruction
  }

  /**
   * The part of the controller's state that decides where the next data
   * byte goes: the address counter, whether it points into CGRAM (glyph
   * patterns) or DDRAM (display cells), and the entry mode's I/D direction.
   */
  datatype AddressCounter = AddressCounter(inCgram: bool, address: bv8, increment: bool)

  /** The state after the internal reset at power-on: DDRAM address 0, increment. */
  const POWER_ON: AddressCounter := AddressCounter(false, 0, true)

  /** The address after one step in the I/D direction: 6 bits in CGRAM, 7 in DDRAM. */
  function Step(s: AddressCounter, forward: bool): (r: AddressCounter)
    ensures r.inCgram == s.inCgram && r.increment == s.increment
  {
    var next := if forward then s.address + 1 else s.address - 1;
    s.(address := next & (if s.inCgram then 0x3F else 0x7F))
  }

  /**
   * What one byte does to the address counter.  A data byte is stored at the
   * address and moves it one step.  Clear display and Return home reset it to
   * DDRAM 0 (clear also sets increment), entry mode set stores I/D, a cursor
   * shift moves it, Set CGRAM / DDRAM address loads it, and every other
   * instruction leaves it alone.
   */
  function Execute(s: AddressCounter, b: bv8, isData: bool): AddressCounter
  {
    if isData then Step(s, s.increment)
    else
      match Decode(b)
      case ClearDisplay => AddressCounter(false, 0, true)
      case ReturnHome => s.(inCgram := false, address := 0)
      case EntryModeSet(increment, _) => s.(increment := increment)
      case CursorOrDisplayShift(displayShift, right) => if displayShift then s else Step(s, right)
      case SetCgramAddress(address) => s.(inCgram := true, address := address)
      case SetDdramAddress(address) => s.(inCgram := false, address := address)
      case _ => s
  }
}
