/**
 * The wio terminal bridge firmware (wio-terminal/src/main.rs): `poll_usb` drives
 * output D0 and the user LED to the same level on each accepted command, and
 * `main` fills in the globals in a fixed order while the USB interrupts are
 * already unmasked.
 */
module WioTerminal {
  import opened Base
  import opened Bridge

  /** The globals after command `c` on this board: D0 and the LED both at the command's level. */
  function Driven(g: Globals, c: Command): (h: Globals)
    ensures h.d0 == h.led == Some(Pin(CommandLevel(c)))
    ensures h.usbAllocator == g.usbAllocator && h.usbBus == g.usbBus && h.usbSerial == g.usbSerial
  {
    g.(d0 := Some(Pin(CommandLevel(c))), led := Some(Pin(CommandLevel(c))))
  }

  /**
   * One `poll_usb` call that reads `r`. A command unwraps D0 and then the LED; a
   * missing one halts the device (after D0 has been driven, if only the LED is missing).
   */
  function Poll(g: Globals, r: ReadResult): (s: Step)
    ensures s.globals.usbAllocator == g.usbAllocator
    ensures s.globals.usbBus == g.usbBus && s.globals.usbSerial == g.usbSerial
  {
    if !Armed(g) then Step(g, Returned)
    else match Decode(r)
      case None => Step(g, Returned)
      case Some(c) =>
        if g.d0.None? then Step(g, Halted)
        else
          var withD0 := g.(d0 := Some(Pin(CommandLevel(c))));
          if withD0.led.None? then Step(withD0, Halted)
          else Step(withD0.(led := Some(Pin(CommandLevel(c)))), Returned)
  }

  /** The ordering `main` establishes: by the time `USB_BUS` is set, D0 and the LED exist. */
  predicate PinsBeforeBus(g: Globals)
  {
    g.usbBus.Some? ==> g.d0.Some? && g.led.Some?
  }

  /**
   * What `poll_usb` does, once the pins exist before the bus: it never halts, drives
   * both D0 and the LED to the command's level on an accepted command, and otherwise
   * (bus or serial missing, read error, wrong count, other byte) changes nothing.
   */
  lemma PollEffect(g: Globals, r: ReadResult)
    requires PinsBeforeBus(g)
    ensures Poll(g, r).outcome == Returned
    ensures Poll(g, r).globals == if Armed(g) && Decode(r).Some? then Driven(g, Decode(r).value) else g
    ensures PinsBeforeBus(Poll(g, r).globals)
  {
  }

  /** `b'0'` drives D0 and the LED low. */
  lemma ZeroDrivesBothLow(g: Globals)
    requires Armed(g) && PinsBeforeBus(g)
    ensures Poll(g, Received([AsciiZero])) == Step(g.(d0 := Some(Pin(Low)), led := Some(Pin(Low))), Returned)
  {
    PollEffect(g, Received([AsciiZero]));
  }

  /** `b'1'` drives D0 and the LED high. */
  lemma OneDrivesBothHigh(g: Globals)
    requires Armed(g) && PinsBeforeBus(g)
    ensures Poll(g, Received([AsciiOne])) == Step(g.(d0 := Some(Pin(High)), led := Some(Pin(High))), Returned)
  {
    PollEffect(g, Received([AsciiOne]));
  }

  /** Until both `USB_BUS` and `USB_SERIAL` are set, `poll_usb` changes nothing. */
  lemma UnarmedPollIsNoop(g: Globals, r: ReadResult)
    requires !Armed(g)
    ensures Poll(g, r) == Step(g, Returned)
  {
  }

  /** Without the pins in place before the bus, an accepted command would halt the device. */
  lemma MissingPinHalts(g: Globals, r: ReadResult)
    requires Armed(g) && Decode(r).Some? && (g.d0.None? || g.led.None?)
    ensures Poll(g, r).outcome == Halted
  {
  }

  /** After any accepted command, the LED shows the same level as D0. */
  lemma LedFollowsD0(g: Globals, r: ReadResult)
    requires Armed(g) && PinsBeforeBus(g) && Decode(r).Some?
    ensures Poll(g, r).globals.led == Poll(g, r).globals.d0
    ensures Poll(g, r).globals.d0.Some?
  {
    PollEffect(g, r);
  }

  /** Once the LED shows D0's level, every later `poll_usb` keeps it so. */
  lemma LedFollowsD0Preserved(g: Globals, r: ReadResult)
    requires PinsBeforeBus(g) && g.led == g.d0
    ensures Poll(g, r).globals.led == Poll(g, r).globals.d0
  {
    PollEffect(g, r);
  }

  /** Reading the same thing twice has the effect of reading it once, halts included. */
  lemma PollIdempotent(g: Globals, r: ReadResult)
    ensures Poll(Poll(g, r).globals, r) == Poll(g, r)
  {
  }

  /**
   * Consecutive `poll_usb` calls, one per USB interrupt, on the reads `inputs`; a
   * halt ends the sequence. No run of calls touches the USB globals, so a board that
   * is not yet armed ignores them all.
   */
  function PollAll(g: Globals, inputs: seq<ReadResult>): (s: Step)
    ensures s.globals.usbAllocator == g.usbAllocator
    ensures s.globals.usbBus == g.usbBus && s.globals.usbSerial == g.usbSerial
    ensures !Armed(g) ==> s == Step(g, Returned)
  {
    if inputs == [] then Step(g, Returned)
    else
      var before := PollAll(g, inputs[..|inputs| - 1]);
      if before.outcome == Halted then before
      else Poll(before.globals, inputs[|inputs| - 1])
  }

  /**
   * The last accepted command wins: after any sequence of inputs the pins show the
   * level of the last accepted command, or are unchanged if there was none, and the
   * device never halts.
   */
  lemma {:induction false} LastCommandWins(g: Globals, inputs: seq<ReadResult>)
    requires PinsBeforeBus(g)
    ensures PollAll(g, inputs).outcome == Returned
    ensures PollAll(g, inputs).globals ==
      if Armed(g) && LastCommand(inputs).Some? then Driven(g, LastCommand(inputs).value) else g
  {
    if inputs != [] {
      var init := inputs[..|inputs| - 1];
      LastCommandWins(g, init);
      PollEffect(PollAll(g, init).globals, inputs[|inputs| - 1]);
    }
  }

  /** The bridge device: the firmware's `static mut` globals, and whether it has halted. */
  class Board {
    var usbAllocator: Option<UsbAllocator>
    var usbBus: Option<UsbDevice>
    var usbSerial: Option<SerialPort>
    var d0: Option<Pin>
    var led: Option<Pin>
    /** Set once a panic has halted the device (`panic_halt`). */
    var halted: bool

    function Statics(): Globals
      reads this
    {
      Globals(usbAllocator, usbBus, usbSerial, d0, led)
    }

    predicate Valid()
      reads this
    {
      PinsBeforeBus(Statics())
    }

    /** Reset: every global is `None`. */
    constructor ()
      ensures Statics() == Unset && !halted && Valid()
    {
      usbAllocator, usbBus, usbSerial, d0, led := None, None, None, None, None;
      halted := false;
    }

    /** `D0 = Some(d0)`: the pin is configured as an output; `level` is whatever it then drives. */
    method ConfigureD0(level: Level)
      requires Valid()
      modifies this
      ensures Valid() && halted == old(halted)
      ensures Statics() == old(Statics()).(d0 := Some(Pin(level)))
    {
      d0 := Some(Pin(level));
    }

    /** `LED = Some(led)`. */
    method ConfigureLed(level: Level)
      requires Valid()
      modifies this
      ensures Valid() && halted == old(halted)
      ensures Statics() == old(Statics()).(led := Some(Pin(level)))
    {
      led := Some(Pin(level));
    }

    /** `USB_ALLOCATOR = Some(..)`, then `USB_ALLOCATOR.as_ref().unwrap()`, which cannot fail. */
    method InitUsbAllocator()
      requires Valid()
      modifies this
      ensures Valid() && halted == old(halted)
      ensures Statics() == old(Statics()).(usbAllocator := Some(UsbAllocator))
    {
      usbAllocator := Some(UsbAllocator);
    }

    /** `USB_SERIAL = Some(SerialPort::new(bus_allocator))`. */
    method InitUsbSerial()
      requires Valid() && usbAllocator.Some?
      modifies this
      ensures Valid() && halted == old(halted)
      ensures Statics() == old(Statics()).(usbSerial := Some(SerialPort))
    {
      usbSerial := Some(SerialPort);
    }

    /** `USB_BUS = Some(..)`: from here on `poll_usb` reads; D0 and the LED already exist. */
    method InitUsbBus()
      requires Valid() && usbAllocator.Some? && d0.Some? && led.Some?
      modifies this
      ensures Valid() && halted == old(halted)
      ensures Statics() == old(Statics()).(usbBus := Some(UsbDevice))
    {
      usbBus := Some(UsbDevice);
    }

    /**
     * `main`, from configuring D0 to arming the USB bus. The USB interrupts are already
     * unmasked, so `PollUsb` may run between any two of these steps; each step keeps
     * `Valid()`, and so does `PollUsb`.
     */
    method Boot(d0Level: Level, ledLevel: Level)
      requires Statics() == Unset && !halted
      modifies this
      ensures Valid() && !halted
      ensures Statics() == Globals(Some(UsbAllocator), Some(UsbDevice), Some(SerialPort),
                                   Some(Pin(d0Level)), Some(Pin(ledLevel)))
    {
      ConfigureD0(d0Level);
      ConfigureLed(ledLevel);
      InitUsbAllocator();
      InitUsbSerial();
      InitUsbBus();
    }

    /** `poll_usb`, run by each of the three USB interrupt handlers, on the outcome `r` of the read. */
    method PollUsb(r: ReadResult)
      requires !halted
      modifies this
      ensures Statics() == Poll(old(Statics()), r).globals
      ensures halted <==> Poll(old(Statics()), r).outcome == Halted
      ensures old(Valid()) ==> Valid() && !halted
    {
      if usbBus.Some? {
        if usbSerial.Some? {
          match Decode(r) {
            case Some(c) =>
              if d0.None? {
                halted := true;
                return;
              }
              d0 := Some(Pin(CommandLevel(c)));
              if led.None? {
                halted := true;
                return;
              }
              led := Some(Pin(CommandLevel(c)));
            case None =>
          }
        }
      }
      if old(Valid()) {
        PollEffect(old(Statics()), r);
      }
    }
  }
}
