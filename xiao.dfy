/**
 * The xiao bridge firmware (xiao/src/main.rs): `poll_usb` drives output D0 to the
 * commanded level and the LED to the opposite one (the LED is lit when its pin is
 * low); D0 is reached through `map`, so only the LED is unwrapped. `main` drives
 * D0 high and the LED low at boot, before it arms the USB bus.
 */
module Xiao {
  import opened Base
  import opened Bridge

  /** `pin.as_mut().map(|p| p.set_..())`: drives the pin if it exists. */
  function DriveIfPresent(p: Option<Pin>, l: Level): (q: Option<Pin>)
    ensures q.Some? <==> p.Some?
    ensures q.Some? ==> q.value.level == l
  {
    match p
    case None => None
    case Some(_) => Some(Pin(l))
  }

  /** The globals after command `c` on this board: D0 at the command's level, the LED inverted. */
  function Driven(g: Globals, c: Command): (h: Globals)
    ensures h.d0.Some? <==> g.d0.Some?
    ensures h.d0.Some? ==> h.d0.value.level == CommandLevel(c)
    ensures h.led == Some(Pin(Invert(CommandLevel(c))))
    ensures h.usbAllocator == g.usbAllocator && h.usbBus == g.usbBus && h.usbSerial == g.usbSerial
  {
    g.(d0 := DriveIfPresent(g.d0, CommandLevel(c)), led := Some(Pin(Invert(CommandLevel(c)))))
  }

  /**
   * One `poll_usb` call that reads `r`. A command drives D0 if it exists and then
   * unwraps the LED; a missing LED halts the device.
   */
  function Poll(g: Globals, r: ReadResult): (s: Step)
    ensures s.globals.usbAllocator == g.usbAllocator
    ensures s.globals.usbBus == g.usbBus && s.globals.usbSerial == g.usbSerial
  {
    if !Armed(g) then Step(g, Returned)
    else match Decode(r)
      case None => Step(g, Returned)
      case Some(c) =>
        var withD0 := g.(d0 := DriveIfPresent(g.d0, CommandLevel(c)));
        if withD0.led.None? then Step(withD0, Halted)
        else Step(withD0.(led := Some(Pin(Invert(CommandLevel(c))))), Returned)
  }

  /** The ordering `main` establishes: by the time `USB_BUS` is set, the LED exists. */
  predicate LedBeforeBus(g: Globals)
  {
    g.usbBus.Some? ==> g.led.Some?
  }

  /** Both pins exist and the LED shows the opposite level of D0. */
  predicate Inverted(g: Globals)
  {
    g.d0.Some? && g.led.Some? && g.led.value.level == Invert(g.d0.value.level)
  }

  /** The globals at the end of `main`: everything set, D0 high and the LED low. */
  const Booted: Globals :=
    Globals(Some(UsbAllocator), Some(UsbDevice), Some(SerialPort), Some(Pin(High)), Some(Pin(Low)))

  /**
   * What `poll_usb` does, once the LED exists before the bus: it never halts, applies
   * an accepted command, and otherwise (bus or serial missing, read error, wrong
   * count, other byte) changes nothing.
   */
  lemma PollEffect(g: Globals, r: ReadResult)
    requires LedBeforeBus(g)
    ensures Poll(g, r).outcome == Returned
    ensures Poll(g, r).globals == if Armed(g) && Decode(r).Some? then Driven(g, Decode(r).value) else g
    ensures LedBeforeBus(Poll(g, r).globals)
  {
  }

  /** `b'0'` drives D0 low and the LED high. */
  lemma ZeroDrivesD0LowLedHigh(g: Globals)
    requires Armed(g) && g.d0.Some? && g.led.Some?
    ensures Poll(g, Received([AsciiZero])) == Step(g.(d0 := Some(Pin(Low)), led := Some(Pin(High))), Returned)
  {
    PollEffect(g, Received([AsciiZero]));
  }

  /** `b'1'` drives D0 high and the LED low. */
  lemma OneDrivesD0HighLedLow(g: Globals)
    requires Armed(g) && g.d0.Some? && g.led.Some?
    ensures Poll(g, Received([AsciiOne])) == Step(g.(d0 := Some(Pin(High)), led := Some(Pin(Low))), Returned)
  {
    PollEffect(g, Received([AsciiOne]));
  }

  /** Until both `USB_BUS` and `USB_SERIAL` are set, `poll_usb` changes nothing. */
  lemma UnarmedPollIsNoop(g: Globals, r: ReadResult)
    requires !Armed(g)
    ensures Poll(g, r) == Step(g, Returned)
  {
  }

  /** A missing D0 is skipped, but a missing LED halts the device on an accepted command. */
  lemma MissingLedHalts(g: Globals, r: ReadResult)
    requires Armed(g) && Decode(r).Some? && g.led.None?
    ensures Poll(g, r).outcome == Halted
    ensures Poll(g, r).globals.d0.Some? <==> g.d0.Some?
  {
  }

  /** The boot levels are exactly the state an accepted `b'1'` leaves behind. */
  lemma BootLevelsAreAsserted()
    ensures Poll(Booted, Received([AsciiOne])) == Step(Booted, Returned)
    ensures Inverted(Booted)
  {
    OneDrivesD0HighLedLow(Booted);
  }

  /** Every `poll_usb` keeps the LED opposite to D0, and never halts while it holds. */
  lemma InversionPreserved(g: Globals, r: ReadResult)
    requires Inverted(g)
    ensures Poll(g, r).outcome == Returned
    ensures Inverted(Poll(g, r).globals)
  {
    PollEffect(g, r);
  }

  /** Reading the same thing twice has the effect of reading it once, halts included. */
  lemma PollIdempotent(g: Globals, r: ReadResult)
    ensures Poll(Poll(g, r).globals, r) == Poll(g, r)
  {
  }

  /**
   * Consecutive `poll_usb` calls, one per USB interrupt, on the reads `inputs`; a
   * halt ends the sequence. No run of calls touches the USB globals, so a board that
   * is not yet armed ignores them all.
   */
  function PollAll(g: Globals, inputs: seq<ReadResult>): (s: Step)
    ensures s.globals.usbAllocator == g.usbAllocator
    ensures s.globals.usbBus == g.usbBus && s.globals.usbSerial == g.usbSerial
    ensures !Armed(g) ==> s == Step(g, Returned)
  {
    if inputs == [] then Step(g, Returned)
    else
      var before := PollAll(g, inputs[..|inputs| - 1]);
      if before.outcome == Halted then before
      else Poll(before.globals, inputs[|inputs| - 1])
  }

  /**
   * The last accepted command wins: after any sequence of reads the pins show the
   * levels of the last accepted command, or are unchanged if there was none, and the
   * device never halts.
   */
  lemma {:induction false} LastCommandWins(g: Globals, inputs: seq<ReadResult>)
    requires LedBeforeBus(g)
    ensures PollAll(g, inputs).outcome == Returned
    ensures PollAll(g, inputs).globals ==
      if Armed(g) && LastCommand(inputs).Some? then Driven(g, LastCommand(inputs).value) else g
  {
    if inputs != [] {
      var init := inputs[..|inputs| - 1];
      LastCommandWins(g, init);
      PollEffect(PollAll(g, init).globals, inputs[|inputs| - 1]);
      if Armed(g) && LastCommand(init).Some? && LastCommand(inputs).Some? {
        assert Driven(Driven(g, LastCommand(init).value), LastCommand(inputs).value)
            == Driven(g, LastCommand(inputs).value);
      }
    }
  }

  /** The bridge device: the firmware's `static mut` globals, and whether it has halted. */
  class Board {
    var usbAllocator: Option<UsbAllocator>
    var usbBus: Option<UsbDevice>
    var usbSerial: Option<SerialPort>
    var d0: Option<Pin>
    var led: Option<Pin>
    /** Set once a panic has halted the device (`panic_halt`). */
    var halted: bool

    function Statics(): Globals
      reads this
    {
      Globals(usbAllocator, usbBus, usbSerial, d0, led)
    }

    /** Once the bus is armed, both pins exist and the LED is opposite to D0. */
    predicate Valid()
      reads this
    {
      usbBus.Some? ==> Inverted(Statics())
    }

    /** Reset: every global is `None`. */
    constructor ()
      ensures Statics() == Unset && !halted && Valid()
    {
      usbAllocator, usbBus, usbSerial, d0, led := None, None, None, None, None;
      halted := false;
    }

    /** `D0 = Some(d0)`: the pin is configured as an output; `level` is whatever it then drives. */
    method ConfigureD0(level: Level)
      requires Valid() && usbBus.None?
      modifies this
      ensures Valid() && halted == old(halted)
      ensures Statics() == old(Statics()).(d0 := Some(Pin(level)))
    {
      d0 := Some(Pin(level));
    }

    /** `LED = Some(led)`. */
    method ConfigureLed(level: Level)
      requires Valid() && usbBus.None?
      modifies this
      ensures Valid() && halted == old(halted)
      ensures Statics() == old(Statics()).(led := Some(Pin(level)))
    {
      led := Some(Pin(level));
    }

    /** The boot levels: `D0.as_mut().map(|d0| d0.set_high())` and `LED.as_mut().unwrap().set_low()`. */
    method DriveBootLevels()
      requires Valid() && led.Some?
      modifies this
      ensures Valid() && halted == old(halted)
      ensures Statics() == old(Statics()).(d0 := DriveIfPresent(old(d0), High), led := Some(Pin(Low)))
    {
      d0 := DriveIfPresent(d0, High);
      led := Some(Pin(Low));
    }

    /** `USB_ALLOCATOR = Some(..)`, then `USB_ALLOCATOR.as_ref().unwrap()`, which cannot fail. */
    method InitUsbAllocator()
      requires Valid()
      modifies this
      ensures Valid() && halted == old(halted)
      ensures Statics() == old(Statics()).(usbAllocator := Some(UsbAllocator))
    {
      usbAllocator := Some(UsbAllocator);
    }

    /** `USB_SERIAL = Some(SerialPort::new(&bus_allocator))`. */
    method InitUsbSerial()
      requires Valid() && usbAllocator.Some?
      modifies this
      ensures Valid() && halted == old(halted)
      ensures Statics() == old(Statics()).(usbSerial := Some(SerialPort))
    {
      usbSerial := Some(SerialPort);
    }

    /** `USB_BUS = Some(..)`: from here on `poll_usb` reads; the LED is already opposite to D0. */
    method InitUsbBus()
      requires Valid() && usbAllocator.Some? && Inverted(Statics())
      modifies this
      ensures Valid() && halted == old(halted)
      ensures Statics() == old(Statics()).(usbBus := Some(UsbDevice))
    {
      usbBus := Some(UsbDevice);
    }

    /**
     * `main`, from configuring D0 to arming the USB bus. The USB interrupt is already
     * unmasked, so `PollUsb` may run between any two of these steps; each step keeps
     * `Valid()`, and so does `PollUsb`.
     */
    method Boot(d0Level: Level, ledLevel: Level)
      requires Statics() == Unset && !halted
      modifies this
      ensures Valid() && !halted
      ensures Statics() == Booted
    {
      ConfigureD0(d0Level);
      ConfigureLed(ledLevel);
      DriveBootLevels();
      InitUsbAllocator();
      InitUsbSerial();
      InitUsbBus();
    }

    /** `poll_usb`, run by the USB interrupt handler, on the outcome `r` of the read. */
    method PollUsb(r: ReadResult)
      requires !halted
      modifies this
      ensures Statics() == Poll(old(Statics()), r).globals
      ensures halted <==> Poll(old(Statics()), r).outcome == Halted
      ensures old(Valid()) ==> Valid() && !halted
    {
      if usbBus.Some? {
        if usbSerial.Some? {
          match Decode(r) {
            case Some(c) =>
              d0 := DriveIfPresent(d0, CommandLevel(c));
              if led.None? {
                halted := true;
                return;
              }
              led := Some(Pin(Invert(CommandLevel(c))));
            case None =>
          }
        }
      }
      if old(Valid()) && old(usbBus).Some? {
        InversionPreserved(old(Statics()), r);
      }
    }
  }
}
