/**
 * What the two bridge firmwares (wio-terminal/src/main.rs and xiao/src/main.rs)
 * share: pin levels, the outcome of one `serial.read`, the one-byte command
 * protocol, and the `static mut` globals that `main` fills in and `poll_usb` reads.
 */
module Bridge {
  import opened Base

  /** The level of a push-pull output pin. */
  datatype Level = Low | High

  function Invert(l: Level): (r: Level)
    ensures r != l
  {
    if l == Low then High else Low
  }

  /** `b'0'` and `b'1'`, the two command bytes the firmware accepts. */
  const AsciiZero: Byte := 0x30
  const AsciiOne: Byte := 0x31

  /**
   * The outcome of `serial.read(&mut buf)`: `Received(data)` is `Ok(count)` with `data`
   * the `count` bytes placed at the front of the buffer; `ReadFailed` is any `Err`
   * (including "would block" when nothing has arrived).
   */
  datatype ReadResult = Received(data: seq<Byte>) | ReadFailed

  /** The two commands of the protocol. */
  datatype Command = Deassert | Assert

  /** The pin level a command asks for. */
  function CommandLevel(c: Command): (l: Level)
    ensures l == High <==> c == Assert
  {
    if c == Assert then High else Low
  }

  /**
   * The guard of `poll_usb`: only a read of exactly one byte counts, and only when that
   * byte is `b'0'` or `b'1'`; everything else is ignored.
   */
  function Decode(r: ReadResult): (c: Option<Command>)
    ensures c == Some(Deassert) <==> r == Received([AsciiZero])
    ensures c == Some(Assert) <==> r == Received([AsciiOne])
    ensures c.Some? ==> r.Received? && |r.data| == 1
  {
    match r
    case ReadFailed => None
    case Received(data) =>
      if |data| != 1 then None
      else
        assert data == [data[0]];
        if data[0] == AsciiZero then Some(Deassert)
      else if data[0] == AsciiOne then Some(Assert)
      else None
  }

  /** A read that is not a command is ignored, whatever its bytes. */
  lemma MalformedReadsIgnored(r: ReadResult)
    requires r.ReadFailed? || |r.data| != 1 || r.data[0] !in {AsciiZero, AsciiOne}
    ensures Decode(r).None?
  {
  }

  /** The last command among `inputs`, if any. */
  function LastCommand(inputs: seq<ReadResult>): (c: Option<Command>)
    ensures c.None? <==> forall i :: 0 <= i < |inputs| ==> Decode(inputs[i]).None?
    ensures c.Some? ==> exists i :: 0 <= i < |inputs| && Decode(inputs[i]) == c &&
                          forall j :: i < j < |inputs| ==> Decode(inputs[j]).None?
  {
    if inputs == [] then None
    else match Decode(inputs[|inputs| - 1])
      case Some(c) => Some(c)
      case None => LastCommand(inputs[..|inputs| - 1])
  }

  /** The handles of the globals, which the model tells apart only by presence. */
  datatype UsbAllocator = UsbAllocator
  datatype UsbDevice = UsbDevice
  datatype SerialPort = SerialPort
  /** An output pin handle, with the level it currently drives. */
  datatype Pin = Pin(level: Level)

  /** The `static mut` globals of either firmware. */
  datatype Globals = Globals(
    usbAllocator: Option<UsbAllocator>,
    usbBus: Option<UsbDevice>,
    usbSerial: Option<SerialPort>,
    d0: Option<Pin>,
    led: Option<Pin>)

  /** The globals' initial values: all `None`. */
  const Unset: Globals := Globals(None, None, None, None, None)

  /** Whether `poll_usb` gets past its two `if let Some(..)` guards. */
  predicate Armed(g: Globals)
  {
    g.usbBus.Some? && g.usbSerial.Some?
  }

  /** How a call of `poll_usb` ends: it returns, or a failed `unwrap` halts the device. */
  datatype Outcome = Returned | Halted

  /** The globals after one `poll_usb` call, and how the call ended. */
  datatype Step = Step(globals: Globals, outcome: Outcome)
}
