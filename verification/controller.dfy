/**
 * Where the display controller's address counter stands after a bus log:
 * every transmission is decoded into what the controller latches, and each
 * received byte is executed by the HD44780 address-counter model.  This is
 * the reference the driver's stored cursor is compared with.
 */
module ControllerState {
  import opened Hd44780
  import opened LcdCommands
  import opened Pcf8574Bus

  /**
   * What one received transfer does.  A lone half byte is not executed: the
   * only one the driver sends is the nibble 0x02 of `clear`.  A controller in
   * 4-bit mode ignores it while the preceding clear is still running.  One
   * that fell back to 8-bit mode takes it as Function set with the 4-bit
   * interface; this model assumes the 4-bit interface throughout.
   */
  function Latch(s: AddressCounter, r: Received): AddressCounter
  {
    match r
    case Byte(value, isData) => Execute(s, value, isData)
    case _ => s
  }

  /** The address counter after a whole bus log, starting from power-on. */
  function Controller(t: Trace): AddressCounter
  {
    match t
    case Empty => POWER_ON
    case Then(before, last) =>
      if last.Transmission? then Latch(Controller(before), DecodeFrames(last.frames)) else Controller(before)
  }

  /** The received transfers executed one after another. */
  function LatchAll(s: AddressCounter, rs: seq<Received>): AddressCounter
    decreases |rs|
  {
    if rs == [] then s else Latch(LatchAll(s, rs[..|rs| - 1]), rs[|rs| - 1])
  }

  /** `n` data bytes written in a row: the address moves `n` steps in the I/D direction. */
  function Advance(s: AddressCounter, n: nat): (r: AddressCounter)
    ensures r.inCgram == s.inCgram && r.increment == s.increment
  {
    if n == 0 then s else Step(Advance(s, n - 1), s.increment)
  }

  // ---------------------------------------------------------------------
  // Lemmas

  /** The address counter is exactly what the received log, executed in order, leaves. */
  lemma {:induction false} ControllerFollowsReceivedLog(t: Trace)
    ensures Controller(t) == LatchAll(POWER_ON, ReceivedLog(t))
  {
    match t
    case Empty =>
    case Then(before, last) =>
      ControllerFollowsReceivedLog(before);
      var rs := ReceivedLog(before);
      if last.Transmission? {
        assert (rs + Receive(last))[..|rs|] == rs;
      } else {
        assert rs + Receive(last) == rs;
      }
  }

  /** One more `_send` transmission executes exactly its byte. */
  lemma ControllerSend(t: Trace, address: int, value: bv8, isData: bool, backlight: int, rsState: bool)
    ensures Controller(Then(t, SendEvent(address, value, isData, backlight, rsState)))
      == Execute(Controller(t), value, isData)
  {
    SendRoundTrip(value, isData, backlight, rsState);
  }

  /** One more `_sendNibble` transmission leaves the address counter alone. */
  lemma ControllerNibble(t: Trace, address: int, halfByte: bv8, isData: bool, backlight: int, rsState: bool)
    ensures Controller(Then(t, NibbleEvent(address, halfByte, isData, backlight, rsState))) == Controller(t)
  {
    NibbleStrobes(halfByte, isData, backlight, rsState);
  }

  /** A run of data bytes moves the address one step per byte and changes nothing else. */
  lemma {:induction false} ControllerData(t: Trace, address: int, bytes: seq<bv8>, backlight: int, rsState: bool)
    ensures Controller(Extend(t, DataEvents(address, bytes, backlight, rsState))) == Advance(Controller(t), |bytes|)
    decreases |bytes|
  {
    if bytes != [] {
      var init, last := bytes[..|bytes| - 1], bytes[|bytes| - 1];
      assert bytes == init + [last];
      ControllerData(t, address, init, backlight, rsState);
      ExtendDataSnoc(t, address, init, last, backlight, rsState);
      ControllerDataByte(Extend(t, DataEvents(address, init, backlight, rsState)), address, last, backlight,
        if init == [] then rsState else true);
    }
  }

  /** A display-control command leaves the address counter alone. */
  lemma ControllerDisplayControl(t: Trace, address: int, displayControl: bv8, backlight: int, rsState: bool)
    requires displayControl & !0x07 == 0
    ensures Controller(Then(t, SendEvent(address, DisplayControlCommand(displayControl), false, backlight, rsState)))
      == Controller(t)
  {
    ControllerSend(t, address, DisplayControlCommand(displayControl), false, backlight, rsState);
    DisplayControlExecutes(Controller(t), displayControl);
  }

  /** An entry-mode command sets the direction to the register's I/D bit. */
  lemma ControllerEntryMode(t: Trace, address: int, entryMode: bv8, backlight: int, rsState: bool)
    requires entryMode & !(ENTRY_INCREMENT | ENTRY_SHIFT) == 0
    ensures Controller(Then(t, SendEvent(address, EntryModeCommand(entryMode), false, backlight, rsState)))
      == Controller(t).(increment := entryMode & ENTRY_INCREMENT != 0)
  {
    ControllerSend(t, address, EntryModeCommand(entryMode), false, backlight, rsState);
    EntryModeExecutes(Controller(t), entryMode);
  }

  /** Clear display resets the address counter to its power-on state. */
  lemma ControllerClear(t: Trace, address: int, backlight: int, rsState: bool)
    ensures Controller(Then(t, SendEvent(address, CLEAR_DISPLAY, false, backlight, rsState))) == POWER_ON
  {
    ControllerSend(t, address, CLEAR_DISPLAY, false, backlight, rsState);
    FixedCommandsExecute(Controller(t));
  }

  /** Display shifts and the backlight refresh byte leave the address counter alone. */
  lemma ControllerKeptBy(t: Trace, address: int, command: bv8, backlight: int, rsState: bool)
    requires command == SCROLL_LEFT || command == SCROLL_RIGHT || command == BACKLIGHT_REFRESH
    ensures Controller(Then(t, SendEvent(address, command, false, backlight, rsState))) == Controller(t)
  {
    ControllerSend(t, address, command, false, backlight, rsState);
    FixedCommandsExecute(Controller(t));
  }

  /** Set DDRAM address points the counter at the cell, keeping the direction. */
  lemma ControllerDdram(t: Trace, address: int, row: nat, col: bv8, backlight: int, rsState: bool)
    requires row < |ROW_OFFSETS|
    ensures Controller(Then(t, SendEvent(address, DdramCommand(row, col), false, backlight, rsState)))
      == AddressCounter(false, DdramAddress(row, col), Controller(t).increment)
  {
    ControllerSend(t, address, DdramCommand(row, col), false, backlight, rsState);
    DdramExecutes(Controller(t), row, col);
  }

  /** Set CGRAM address points the counter at the first row of the glyph slot, keeping the direction. */
  lemma ControllerCgram(t: Trace, address: int, location: bv32, backlight: int, rsState: bool)
    ensures Controller(Then(t, SendEvent(address, CgramCommand(location), false, backlight, rsState)))
      == AddressCounter(true, ((location & 0x7) as bv8) * 8, Controller(t).increment)
  {
    ControllerSend(t, address, CgramCommand(location), false, backlight, rsState);
    CgramExecutes(Controller(t), location);
  }

  /** A data byte moves the address one step in the I/D direction, in whichever memory it points into. */
  lemma ControllerDataByte(t: Trace, address: int, value: bv8, backlight: int, rsState: bool)
    ensures Controller(Then(t, SendEvent(address, value, true, backlight, rsState)))
      == Step(Controller(t), Controller(t).increment)
  {
    ControllerSend(t, address, value, true, backlight, rsState);
  }

  /** Writing a glyph in increment mode moves the DDRAM address to the next column. */
  lemma DdramAddressNext(row: nat, col: bv8)
    requires row < |ROW_OFFSETS|
    ensures Step(AddressCounter(false, DdramAddress(row, col), true), true)
      == AddressCounter(false, DdramAddress(row, col + 1), true)
  {
  }
}
