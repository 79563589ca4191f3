/**
 * The PCF8574 side of the driver: how one nibble becomes expander frames,
 * how a byte becomes one I2C transmission of such frames, and what the
 * display controller latches from a transmission (its decoding, used as
 * the partner of every encoding below).
 */
module Pcf8574Bus {

  /** Expander pin masks: RS, RW, EN and the backlight on bits 0..3, data on bits 4..7. */
  const PCF_RS: bv8 := 0x01
  const PCF_RW: bv8 := 0x02
  const PCF_EN: bv8 := 0x04
  const PCF_BACKLIGHT: bv8 := 0x08

  /** What the I2C collaborator sees, in order. */
  datatype BusEvent =
    | WireBegin                                      // Wire.begin()
    | Transmission(address: int, frames: seq<bv8>)   // beginTransmission, the writes, endTransmission
    | Delay(micros: nat)                             // delayMicroseconds, kept as a marker only

  predicate RsBit(f: bv8) { f & PCF_RS != 0 }
  predicate RwBit(f: bv8) { f & PCF_RW != 0 }
  predicate EnBit(f: bv8) { f & PCF_EN != 0 }
  predicate BacklightBit(f: bv8) { f & PCF_BACKLIGHT != 0 }

  /** The expander byte for one nibble, enable line low. */
  function Frame(halfByte: bv8, isData: bool, backlight: int): bv8
  {
    (halfByte << 4)
      | (if backlight > 0 then PCF_BACKLIGHT else 0)
      | (if isData then PCF_RS else 0)
  }

  /** A frame carries the nibble in bits 4..7, RS iff data, the backlight bit iff the level is positive, and neither RW nor EN. */
  lemma FrameBits(halfByte: bv8, isData: bool, backlight: int)
    ensures RsBit(Frame(halfByte, isData, backlight)) == isData
    ensures BacklightBit(Frame(halfByte, isData, backlight)) == (backlight > 0)
    ensures !RwBit(Frame(halfByte, isData, backlight)) && !EnBit(Frame(halfByte, isData, backlight))
    ensures Frame(halfByte, isData, backlight) >> 4 == halfByte & 0x0F
  {
  }

  /**
   * The frames `_writePCF` writes for one nibble: a settle frame only when
   * RS changes, then the enable strobe (EN high, then the same frame with EN low).
   */
  function NibbleFrames(halfByte: bv8, isData: bool, backlight: int, rsState: bool): (r: seq<bv8>)
    ensures |r| == if rsState != isData then 3 else 2
  {
    var f := Frame(halfByte, isData, backlight);
    (if rsState != isData then [f] else []) + [f | PCF_EN, f]
  }

  /** The frames of one `_send`: high nibble, then low nibble, in one transmission. */
  function SendFrames(value: bv8, isData: bool, backlight: int, rsState: bool): (r: seq<bv8>)
    ensures |r| == if rsState != isData then 5 else 4
  {
    NibbleFrames(value >> 4, isData, backlight, rsState) + NibbleFrames(value & 0x0F, isData, backlight, isData)
  }

  /**
   * Every frame of a nibble carries RS exactly when it is data, the backlight
   * bit exactly when the level is positive, never RW, and the nibble in bits
   * 4..7; the last two frames are the strobe, differing only in EN; a third,
   * leading frame (EN low) appears only when the remembered RS level differs.
   */
  lemma NibbleFramesShape(halfByte: bv8, isData: bool, backlight: int, rsState: bool)
    ensures var r := NibbleFrames(halfByte, isData, backlight, rsState);
      (forall i :: 0 <= i < |r| ==>
         RsBit(r[i]) == isData && BacklightBit(r[i]) == (backlight > 0) && !RwBit(r[i])
         && r[i] >> 4 == halfByte & 0x0F)
      && r[|r| - 2] == r[|r| - 1] | PCF_EN && EnBit(r[|r| - 2]) && !EnBit(r[|r| - 1])
      && (|r| == 3 ==> !EnBit(r[0]))
  {
    var f := Frame(halfByte, isData, backlight);
    FrameBits(halfByte, isData, backlight);
    assert EnBit(f | PCF_EN) && (f | PCF_EN) >> 4 == f >> 4;
    assert RsBit(f | PCF_EN) == RsBit(f) && BacklightBit(f | PCF_EN) == BacklightBit(f) && !RwBit(f | PCF_EN);
  }

  /**
   * Every frame of a `_send` carries the same RS, backlight and (clear) RW
   * bits; the last four frames are the two strobes, and only a fifth, leading
   * frame, the high nibble's settle frame, can precede them.
   */
  lemma SendFramesShape(value: bv8, isData: bool, backlight: int, rsState: bool)
    ensures var r := SendFrames(value, isData, backlight, rsState);
      (forall i :: 0 <= i < |r| ==>
         RsBit(r[i]) == isData && BacklightBit(r[i]) == (backlight > 0) && !RwBit(r[i]))
      && EnBit(r[|r| - 4]) && !EnBit(r[|r| - 3]) && EnBit(r[|r| - 2]) && !EnBit(r[|r| - 1])
      && (|r| == 5 ==> !EnBit(r[0]))
  {
    var hi := NibbleFrames(value >> 4, isData, backlight, rsState);
    var lo := NibbleFrames(value & 0x0F, isData, backlight, isData);
    NibbleFramesShape(value >> 4, isData, backlight, rsState);
    NibbleFramesShape(value & 0x0F, isData, backlight, isData);
    var r := hi + lo;
    forall i | 0 <= i < |r|
      ensures RsBit(r[i]) == isData && BacklightBit(r[i]) == (backlight > 0) && !RwBit(r[i])
    {
      if i < |hi| {
        assert r[i] == hi[i];
      } else {
        assert r[i] == lo[i - |hi|];
      }
    }
    assert r[|r| - 4] == hi[|hi| - 2] && r[|r| - 3] == hi[|hi| - 1];
  }

  function SendEvent(address: int, value: bv8, isData: bool, backlight: int, rsState: bool): BusEvent
  {
    Transmission(address, SendFrames(value, isData, backlight, rsState))
  }

  function NibbleEvent(address: int, halfByte: bv8, isData: bool, backlight: int, rsState: bool): BusEvent
  {
    Transmission(address, NibbleFrames(halfByte, isData, backlight, rsState))
  }

  /**
   * The bus log kept by the driver object, newest event last.  It is a
   * datatype rather than a sequence so that one more event is one more
   * constructor; `Events` is its sequence view.
   */
  datatype Trace = Empty | Then(before: Trace, last: BusEvent)

  function Events(t: Trace): (r: seq<BusEvent>)
  {
    match t
    case Empty => []
    case Then(before, last) => Events(before) + [last]
  }

  /** The log `t` followed by the events `es`, in order (`ExtendEvents` states it). */
  function Extend(t: Trace, es: seq<BusEvent>): Trace
    decreases |es|
  {
    if |es| == 0 then t else Then(Extend(t, es[..|es| - 1]), es[|es| - 1])
  }

  lemma {:induction false} ExtendEvents(t: Trace, es: seq<BusEvent>)
    ensures Events(Extend(t, es)) == Events(t) + es
    decreases |es|
  {
    if |es| != 0 {
      ExtendEvents(t, es[..|es| - 1]);
      assert es == es[..|es| - 1] + [es[|es| - 1]];
    }
  }

  lemma ExtendSnoc(t: Trace, es: seq<BusEvent>, e: BusEvent)
    ensures Extend(t, es + [e]) == Then(Extend(t, es), e)
  {
    assert (es + [e])[..|es|] == es;
  }

  /**
   * The transmissions of a run of data bytes (one `_send(b, true)` each).
   * Only the first can carry the RS settle frame.
   */
  function DataEvents(address: int, bytes: seq<bv8>, backlight: int, rsState: bool): seq<BusEvent>
    decreases |bytes|
  {
    if bytes == [] then
      []
    else
      [SendEvent(address, bytes[0], true, backlight, rsState)]
      + DataEvents(address, bytes[1..], backlight, true)
  }

  // ---------------------------------------------------------------------
  // What the controller latches: one nibble per falling edge of EN, which
  // in these frame sequences is one per frame with EN high.

  datatype Pulse = Pulse(nibble: bv8, rs: bool)

  /** What the controller assembles from one transmission. */
  datatype Received = Byte(value: bv8, isData: bool) | HalfByte(nibble: bv8, isData: bool) | Garbled

  function Strobes(frames: seq<bv8>): seq<Pulse>
    decreases |frames|
  {
    if frames == [] then
      []
    else
      (if EnBit(frames[0]) then [Pulse(frames[0] >> 4, RsBit(frames[0]))] else [])
      + Strobes(frames[1..])
  }

  function Assemble(hi: bv8, lo: bv8): bv8
  {
    (hi << 4) | (lo & 0x0F)
  }

  function DecodeFrames(frames: seq<bv8>): Received
  {
    var p := Strobes(frames);
    if |p| == 1 then HalfByte(p[0].nibble, p[0].rs)
    else if |p| == 2 && p[0].rs == p[1].rs then Byte(Assemble(p[0].nibble, p[1].nibble), p[0].rs)
    else Garbled
  }

  /** What the controller makes of one bus event: a transmission is decoded, anything else is nothing. */
  function Receive(e: BusEvent): (r: seq<Received>)
    ensures |r| == if e.Transmission? then 1 else 0
  {
    match e
    case Transmission(_, frames) => [DecodeFrames(frames)]
    case _ => []
  }

  /** What the controller receives from a run of events, one entry per transmission. */
  function ReceivedBy(events: seq<BusEvent>): seq<Received>
    decreases |events|
  {
    if events == [] then
      []
    else
      Receive(events[0]) + ReceivedBy(events[1..])
  }

  /** What the controller has received from a whole bus log, oldest first. */
  function ReceivedLog(t: Trace): seq<Received>
  {
    match t
    case Empty => []
    case Then(before, last) => ReceivedLog(before) + Receive(last)
  }

  function AsData(bytes: seq<bv8>): (r: seq<Received>)
    ensures |r| == |bytes|
    ensures forall i :: 0 <= i < |bytes| ==> r[i] == Byte(bytes[i], true)
  {
    seq(|bytes|, i requires 0 <= i < |bytes| => Byte(bytes[i], true))
  }

  // ---------------------------------------------------------------------
  // Lemmas

  lemma {:induction false} StrobesAppend(a: seq<bv8>, b: seq<bv8>)
    ensures Strobes(a + b) == Strobes(a) + Strobes(b)
    decreases |a|
  {
    if a == [] {
      assert a + b == b;
    } else {
      assert (a + b)[1..] == a[1..] + b;
      StrobesAppend(a[1..], b);
    }
  }

  lemma {:induction false} ReceivedByAppend(a: seq<BusEvent>, b: seq<BusEvent>)
    ensures ReceivedBy(a + b) == ReceivedBy(a) + ReceivedBy(b)
    decreases |a|
  {
    if a == [] {
      assert a + b == b;
    } else {
      assert (a + b)[1..] == a[1..] + b;
      ReceivedByAppend(a[1..], b);
    }
  }

  /** A log followed by one `_send` transmission: the controller receives that byte. */
  lemma ReceivedSend(t: Trace, address: int, value: bv8, isData: bool, backlight: int, rsState: bool)
    ensures ReceivedLog(Then(t, SendEvent(address, value, isData, backlight, rsState)))
      == ReceivedLog(t) + [Byte(value, isData)]
  {
    SendRoundTrip(value, isData, backlight, rsState);
  }

  /** A log followed by one `_sendNibble` transmission: the controller receives that half byte. */
  lemma ReceivedNibble(t: Trace, address: int, halfByte: bv8, isData: bool, backlight: int, rsState: bool)
    requires halfByte < 16
    ensures ReceivedLog(Then(t, NibbleEvent(address, halfByte, isData, backlight, rsState)))
      == ReceivedLog(t) + [HalfByte(halfByte, isData)]
  {
    NibbleRoundTrip(halfByte, isData, backlight, rsState);
  }

  /** Extending a log by a run of events adds what that run delivers. */
  lemma {:induction false} ReceivedLogExtend(t: Trace, es: seq<BusEvent>)
    ensures ReceivedLog(Extend(t, es)) == ReceivedLog(t) + ReceivedBy(es)
    decreases |es|
  {
    if es != [] {
      var init, last := es[..|es| - 1], es[|es| - 1];
      assert es == init + [last];
      ReceivedLogExtend(t, init);
      ReceivedByAppend(init, [last]);
      assert ReceivedBy([last]) == Receive(last) by {
        assert [last][1..] == [];
      }
    }
  }

  /** One nibble's frames strobe exactly that nibble, with its RS level, once. */
  lemma NibbleStrobes(halfByte: bv8, isData: bool, backlight: int, rsState: bool)
    ensures Strobes(NibbleFrames(halfByte, isData, backlight, rsState)) == [Pulse(halfByte & 0x0F, isData)]
  {
    var r := NibbleFrames(halfByte, isData, backlight, rsState);
    var n := |r|;
    assert Strobes(r[n - 1..]) == [] by {
      assert Strobes(r[n - 1..][1..]) == [];
    }
    assert r[n - 2..][1..] == r[n - 1..];
    assert Strobes(r[n - 2..]) == [Pulse(halfByte & 0x0F, isData)];
    if n == 3 {
      assert r[1..] == r[n - 2..];
    } else {
      assert r == r[n - 2..];
    }
  }

  /** A nibble sent alone reaches the controller as that half byte. */
  lemma NibbleRoundTrip(halfByte: bv8, isData: bool, backlight: int, rsState: bool)
    requires halfByte < 16
    ensures DecodeFrames(NibbleFrames(halfByte, isData, backlight, rsState)) == HalfByte(halfByte, isData)
  {
    NibbleStrobes(halfByte, isData, backlight, rsState);
  }

  /** The two strobes of `_send`: the high nibble first, then the low one, both with the requested register select. */
  lemma SendStrobes(value: bv8, isData: bool, backlight: int, rsState: bool)
    ensures Strobes(SendFrames(value, isData, backlight, rsState))
      == [Pulse(value >> 4, isData), Pulse(value & 0x0F, isData)]
  {
    var hi := NibbleFrames(value >> 4, isData, backlight, rsState);
    var lo := NibbleFrames(value & 0x0F, isData, backlight, isData);
    StrobesAppend(hi, lo);
    NibbleStrobes(value >> 4, isData, backlight, rsState);
    NibbleStrobes(value & 0x0F, isData, backlight, isData);
    assert (value >> 4) & 0x0F == value >> 4;
  }

  /** Round trip of `_send`: the controller reassembles the byte, with the requested register select. */
  lemma SendRoundTrip(value: bv8, isData: bool, backlight: int, rsState: bool)
    ensures DecodeFrames(SendFrames(value, isData, backlight, rsState)) == Byte(value, isData)
  {
    SendStrobes(value, isData, backlight, rsState);
    NibbleSplit(value);
  }

  /** The high and low nibble of a byte reassemble it. */
  lemma NibbleSplit(value: bv8)
    ensures (value >> 4) & 0x0F == value >> 4
    ensures (value & 0x0F) & 0x0F == value & 0x0F
    ensures Assemble(value >> 4, value & 0x0F) == value
  {
  }

  /** A run of data bytes reaches the controller as exactly those bytes, as data. */
  lemma {:induction false} DataRoundTrip(address: int, bytes: seq<bv8>, backlight: int, rsState: bool)
    ensures ReceivedBy(DataEvents(address, bytes, backlight, rsState)) == AsData(bytes)
    decreases |bytes|
  {
    if bytes != [] {
      var d := DataEvents(address, bytes, backlight, rsState);
      var rest := DataEvents(address, bytes[1..], backlight, true);
      assert d[0] == SendEvent(address, bytes[0], true, backlight, rsState) && d[1..] == rest;
      SendRoundTrip(bytes[0], true, backlight, rsState);
      DataRoundTrip(address, bytes[1..], backlight, true);
      assert AsData(bytes) == [Byte(bytes[0], true)] + AsData(bytes[1..]);
    }
  }

  /**
   * RS coalescing over a run of data bytes: every transmission is a byte send,
   * and only the first one carries the settle frame, and only when the
   * remembered RS level was "command".
   */
  lemma {:induction false} DataEventsShape(address: int, bytes: seq<bv8>, backlight: int, rsState: bool)
    ensures |DataEvents(address, bytes, backlight, rsState)| == |bytes|
    ensures forall i :: 0 <= i < |bytes| ==>
      DataEvents(address, bytes, backlight, rsState)[i]
        == SendEvent(address, bytes[i], true, backlight, if i == 0 then rsState else true)
    ensures forall i :: 0 <= i < |bytes| ==>
      var e := DataEvents(address, bytes, backlight, rsState)[i];
      e.Transmission? && |e.frames| == if i == 0 && !rsState then 5 else 4
    decreases |bytes|
  {
    if bytes != [] {
      DataEventsShape(address, bytes[1..], backlight, true);
      var e := DataEvents(address, bytes, backlight, rsState);
      forall i | 0 <= i < |bytes|
        ensures e[i] == SendEvent(address, bytes[i], true, backlight, if i == 0 then rsState else true)
      {
        if i > 0 {
          assert e[i] == DataEvents(address, bytes[1..], backlight, true)[i - 1];
        }
      }
    }
  }

  /** Appending one data byte to a run appends one transmission. */
  lemma {:induction false} DataEventsSnoc(address: int, bytes: seq<bv8>, b: bv8, backlight: int, rsState: bool)
    ensures DataEvents(address, bytes + [b], backlight, rsState)
      == DataEvents(address, bytes, backlight, rsState)
         + [SendEvent(address, b, true, backlight, if bytes == [] then rsState else true)]
    decreases |bytes|
  {
    if bytes == [] {
      assert [b][1..] == [];
    } else {
      assert (bytes + [b])[1..] == bytes[1..] + [b];
      DataEventsSnoc(address, bytes[1..], b, backlight, true);
    }
  }

  /** A log extended by a run of data bytes and then one more byte ends with that byte's transmission. */
  lemma ExtendDataSnoc(t: Trace, address: int, bytes: seq<bv8>, b: bv8, backlight: int, rsState: bool)
    ensures Extend(t, DataEvents(address, bytes + [b], backlight, rsState))
      == Then(Extend(t, DataEvents(address, bytes, backlight, rsState)),
              SendEvent(address, b, true, backlight, if bytes == [] then rsState else true))
  {
    DataEventsSnoc(address, bytes, b, backlight, rsState);
    ExtendSnoc(t, DataEvents(address, bytes, backlight, rsState),
      SendEvent(address, b, true, backlight, if bytes == [] then rsState else true));
  }
}
