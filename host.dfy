/**
 * The host side of the trigger system (src/main.rs): the frame counter that picks
 * the stimulus frame once per refresh period, the dispatch on the render result,
 * the serial `Gpio` wrapper that writes one command byte per frame, the
 * zero-area guard of `State::resize`, and the state captured by the event-loop
 * closure.
 */
module Host {
  import opened Base

  /** Rust's `u16` and `u32`. */
  type U16 = x: int | 0 <= x <= 0xFFFF
  type U32 = x: int | 0 <= x <= 0xFFFF_FFFF

  // ---------------------------------------------------------------------------
  // Frame selection and the frame counter
  // ---------------------------------------------------------------------------

  /** The two fill colours, as tags; the floating-point intensities are not modelled. */
  datatype Colour = Background | Stimulus

  /** What one redraw draws, and whether the trigger command that follows it is "high". */
  datatype Frame = Frame(colour: Colour, setHigh: bool)

  /** The `(color, set_high)` pair chosen from `count`. */
  function SelectFrame(count: U16): (f: Frame)
    ensures f.setHigh <==> count == 0
    ensures f.colour == Stimulus <==> f.setHigh
  {
    if count == 0 then Frame(Stimulus, true) else Frame(Background, false)
  }

  /** `count += 1` on a `u16` as a debug build runs it: `None` is the overflow panic. */
  function CheckedIncrement(c: U16): (r: Option<U16>)
    ensures r.Some? <==> c < 0xFFFF
    ensures r.Some? ==> r.value == c + 1
  {
    if c < 0xFFFF then Some(c + 1) else None
  }

  /** `count += 1` on a `u16` as a release build runs it: wraps around. */
  function WrappingIncrement(c: U16): (r: U16)
    ensures c < 0xFFFF ==> r == c + 1
    ensures c == 0xFFFF ==> r == 0
  {
    (c + 1) % 0x1_0000
  }

  /** `count %= refresh_rate` on `u16`s: `None` is the division-by-zero panic. */
  function Remainder(c: U16, rate: U16): (r: Option<U16>)
    ensures r.Some? <==> rate != 0
    ensures r.Some? ==> r.value < rate
    ensures c < rate ==> r == Some(c)
    ensures c == rate && rate != 0 ==> r == Some(0)
  {
    if rate == 0 then None else Some(c % rate)
  }

  /**
   * The counter update of one redraw, `count += 1; count %= refresh_rate;`, as a
   * debug build runs it. `None` means the process panicked: on overflow of the
   * increment, or on the remainder by a refresh rate of 0. While `count` is below
   * the refresh rate the update steps to the next value below the rate, wrapping
   * to 0 after `refresh_rate - 1`.
   */
  function NextCount(count: U16, rate: U16): (r: Option<U16>)
    ensures r.Some? <==> count < 0xFFFF && rate != 0
    ensures r.Some? ==> r.value < rate
    ensures count < rate ==> r == Some(if count + 1 == rate then 0 else count + 1)
  {
    match CheckedIncrement(count)
    case None => None
    case Some(c) => Remainder(c, rate)
  }

  /**
   * Wherever a debug build does not panic on the increment, it computes what a
   * release build's wrapping increment followed by the remainder computes.
   */
  lemma DebugMatchesRelease(count: U16, rate: U16)
    requires count < 0xFFFF
    ensures NextCount(count, rate) == Remainder(WrappingIncrement(count), rate)
  {
  }

  /** The counter after `k` redraws that started at `c`. */
  function CountAfter(c: U16, rate: U16, k: nat): (r: U16)
    requires c < rate
    ensures r < rate
    decreases k
  {
    if k == 0 then c else CountAfter(NextCount(c, rate).value, rate, k - 1)
  }

  /** Counting `k + 1` redraws is counting `k` and then one more. */
  lemma {:induction false} CountAfterStep(c: U16, rate: U16, k: nat)
    requires c < rate
    ensures NextCount(CountAfter(c, rate, k), rate).Some?
    ensures CountAfter(c, rate, k + 1) == NextCount(CountAfter(c, rate, k), rate).value
    decreases k
  {
    if k > 0 {
      CountAfterStep(NextCount(c, rate).value, rate, k - 1);
    }
  }

  /** Within one period the counter simply adds, wrapping once past `rate - 1`. */
  lemma {:induction false} CountAfterWithinPeriod(c: U16, rate: U16, k: nat)
    requires c < rate && k <= rate
    ensures CountAfter(c, rate, k) == if c + k < rate then c + k else c + k - rate
    decreases k
  {
    if k > 0 {
      var next := NextCount(c, rate).value;
      if c + 1 == rate {
        CountAfterWithinPeriod(0, rate, k - 1);
      } else {
        CountAfterWithinPeriod(next, rate, k - 1);
      }
    }
  }

  /** Counting `j` and then `k` redraws is counting `j + k`. */
  lemma {:induction false} CountAfterAdd(c: U16, rate: U16, j: nat, k: nat)
    requires c < rate
    ensures CountAfter(CountAfter(c, rate, j), rate, k) == CountAfter(c, rate, j + k)
    decreases j
  {
    if j > 0 {
      CountAfterAdd(NextCount(c, rate).value, rate, j - 1, k);
    }
  }

  /** The counter has period exactly `refresh_rate`: after `refresh_rate` redraws it is back. */
  lemma CountAfterPeriodic(c: U16, rate: U16, k: nat)
    requires c < rate
    ensures CountAfter(c, rate, k + rate) == CountAfter(c, rate, k)
    ensures forall j :: 0 < j < rate ==> CountAfter(c, rate, j) != c
  {
    CountAfterAdd(c, rate, rate, k);
    CountAfterWithinPeriod(c, rate, rate);
    CountAfterAdd(c, rate, k, rate);
    CountAfterWithinPeriod(CountAfter(c, rate, k), rate, rate);
    forall j | 0 < j < rate
      ensures CountAfter(c, rate, j) != c
    {
      CountAfterWithinPeriod(c, rate, j);
    }
  }

  /** Whether redraw number `i` of a run whose counter started at `c` selects the stimulus. */
  predicate StimulusAt(c: U16, rate: U16, i: nat)
    requires c < rate
  {
    SelectFrame(CountAfter(c, rate, i)).setHigh
  }

  /**
   * Over any `refresh_rate` consecutive redraws, whatever the counter was when they
   * began, exactly one selects the stimulus and `set_high`: the one at offset
   * `rate - c` (or 0 when `c` is 0).
   */
  lemma {:induction false} OneStimulusPerPeriod(c: U16, rate: U16)
    requires c < rate
    ensures (set i: nat | i < rate && StimulusAt(c, rate, i)) == {if c == 0 then 0 else rate - c}
    ensures |set i: nat | i < rate && StimulusAt(c, rate, i)| == 1
  {
    var hit := if c == 0 then 0 else rate - c;
    forall i: nat | i < rate
      ensures StimulusAt(c, rate, i) <==> i == hit
    {
      CountAfterWithinPeriod(c, rate, i);
    }
    var s := set i: nat | i < rate && StimulusAt(c, rate, i);
    assert hit in s;
    assert s == {hit};
  }

  // ---------------------------------------------------------------------------
  // The render-result dispatch
  // ---------------------------------------------------------------------------

  /** `wgpu::SurfaceError`. */
  datatype SurfaceError = Lost | Outdated | Timeout | OutOfMemory

  /** What `State::render` returned; the GPU work itself is not modelled. */
  datatype RenderResult = RenderOk | RenderErr(error: SurfaceError)

  /** What the redraw arm does after `render`. */
  datatype Reaction = WriteTrigger(high: bool) | Continue | Quit

  /**
   * The `match state.render(color)`: only `Ok` leads to a serial write, and it writes
   * the command chosen before rendering; `OutOfMemory` quits; `Lost`, `Outdated`
   * and `Timeout` carry on without writing.
   */
  function Dispatch(r: RenderResult, setHigh: bool): (a: Reaction)
    ensures a.WriteTrigger? <==> r.RenderOk?
    ensures a.WriteTrigger? ==> a.high == setHigh
    ensures a.Quit? <==> r == RenderErr(OutOfMemory)
    ensures a.Continue? <==> r in {RenderErr(Lost), RenderErr(Outdated), RenderErr(Timeout)}
  {
    match r
    case RenderOk => WriteTrigger(setHigh)
    case RenderErr(OutOfMemory) => Quit
    case RenderErr(_) => Continue
  }

  // ---------------------------------------------------------------------------
  // The serial trigger link (`Gpio`)
  // ---------------------------------------------------------------------------

  /** The byte `set_high` writes. */
  const HighByte: Byte := 0x01
  /** The byte `set_low` writes. */
  const LowByte: Byte := 0x00
  /** Every byte the host ever puts on the link. */
  const HostBytes: set<Byte> := {LowByte, HighByte}

  /** The command byte for a frame's `set_high` flag. */
  function TriggerByte(setHigh: bool): (b: Byte)
    ensures b in HostBytes
    ensures b == HighByte <==> setHigh
  {
    if setHigh then HighByte else LowByte
  }

  /** What the port's `write(&[b])` reported: a byte count or an I/O error. */
  datatype WriteResult = Wrote(n: nat) | WriteError
  /** What the port's `flush()` reported. */
  datatype FlushResult = Flushed | FlushError

  /**
   * The result of `set_high`/`set_low`: `Ok(())`, the flush error returned as `Err`,
   * or the `panic!("Error writing to serial port")` of a failed or short write.
   */
  datatype LinkResult = LinkOk | LinkErr | LinkPanic

  /** The bytes one command write puts on the link and what the call results in. */
  datatype LinkWrite = LinkWrite(sent: seq<Byte>, result: LinkResult)

  /**
   * One `set_high`/`set_low` call writing byte `b`: the byte leaves the host exactly
   * when the write reports a count of 1; any other count or an error panics
   * (and the flush is then never attempted); a flush error after a good write is
   * returned as an error.
   */
  function WriteCommand(b: Byte, w: WriteResult, f: FlushResult): (r: LinkWrite)
    ensures r.sent == [b] <==> w == Wrote(1)
    ensures r.sent != [b] ==> r.sent == []
    ensures r.result == LinkPanic <==> w != Wrote(1)
    ensures r.result == LinkOk <==> w == Wrote(1) && f == Flushed
    ensures w != Wrote(1) ==> r == LinkWrite([], LinkPanic)
  {
    if w == Wrote(1) then LinkWrite([b], if f == Flushed then LinkOk else LinkErr)
    else LinkWrite([], LinkPanic)
  }

  /** The `Gpio` wrapper; `port` is every byte that has left through the serial port. */
  class Gpio {
    var port: seq<Byte>

    constructor ()
      ensures port == []
    {
      port := [];
    }

    /** `Gpio::set_high`: writes exactly the byte 0x01. */
    method SetHigh(w: WriteResult, f: FlushResult) returns (r: LinkResult)
      modifies this
      ensures port == old(port) + WriteCommand(HighByte, w, f).sent
      ensures r == WriteCommand(HighByte, w, f).result
    {
      match w {
        case Wrote(n) =>
          if n == 1 {
            port := port + [HighByte];
            if f == FlushError {
              return LinkErr;
            }
          } else {
            return LinkPanic;
          }
        case WriteError =>
          return LinkPanic;
      }
      r := LinkOk;
    }

    /** `Gpio::set_low`: writes exactly the byte 0x00. */
    method SetLow(w: WriteResult, f: FlushResult) returns (r: LinkResult)
      modifies this
      ensures port == old(port) + WriteCommand(LowByte, w, f).sent
      ensures r == WriteCommand(LowByte, w, f).result
    {
      match w {
        case Wrote(n) =>
          if n == 1 {
            port := port + [LowByte];
            if f == FlushError {
              return LinkErr;
            }
          } else {
            return LinkPanic;
          }
        case WriteError =>
          return LinkPanic;
      }
      r := LinkOk;
    }
  }

  // ---------------------------------------------------------------------------
  // The presentation surface configuration (`State`)
  // ---------------------------------------------------------------------------

  /** `wgpu::PresentMode`; the program only ever uses `Fifo`. */
  datatype PresentMode = Fifo

  /** The fields of `wgpu::SurfaceConfiguration` the program sets; the format is an opaque tag. */
  datatype SurfaceConfig = SurfaceConfig(format: nat, width: U32, height: U32, presentMode: PresentMode)

  /** Whether a size has a non-zero area. */
  predicate NonZeroArea(width: U32, height: U32)
  {
    width > 0 && height > 0
  }

  /**
   * The configuration after `resize(new_size)`: a zero-area size is ignored; otherwise
   * width and height are taken over, and format and present mode are never touched.
   */
  function ResizedConfig(c: SurfaceConfig, width: U32, height: U32): (r: SurfaceConfig)
    ensures r.format == c.format && r.presentMode == c.presentMode
    ensures NonZeroArea(width, height) ==> r.width == width && r.height == height
    ensures !NonZeroArea(width, height) ==> r == c
  {
    if NonZeroArea(width, height) then c.(width := width, height := height) else c
  }

  /** Resizing twice to the same size is resizing once. */
  lemma ResizeIdempotent(c: SurfaceConfig, width: U32, height: U32)
    ensures ResizedConfig(ResizedConfig(c, width, height), width, height) == ResizedConfig(c, width, height)
  {
  }

  /** A configuration with non-zero area keeps a non-zero area through every resize. */
  lemma ResizeKeepsNonZeroArea(c: SurfaceConfig, width: U32, height: U32)
    requires NonZeroArea(c.width, c.height)
    ensures NonZeroArea(ResizedConfig(c, width, height).width, ResizedConfig(c, width, height).height)
  {
  }

  /** The part of `State` that the program changes: the surface configuration. */
  class State {
    var config: SurfaceConfig
    /** Every configuration handed to `surface.configure`, in order. */
    var applied: seq<SurfaceConfig>

    /** The configuration `State::new` builds and applies once. */
    constructor (initial: SurfaceConfig)
      ensures config == initial && applied == [initial]
    {
      config := initial;
      applied := [initial];
    }

    /** `State::resize`. */
    method Resize(width: U32, height: U32)
      modifies this
      ensures config == ResizedConfig(old(config), width, height)
      ensures applied == if NonZeroArea(width, height) then old(applied) + [config] else old(applied)
    {
      if width > 0 && height > 0 {
        config := config.(width := width);
        config := config.(height := height);
        applied := applied + [config];
      }
    }
  }

  // ---------------------------------------------------------------------------
  // The event-loop closure
  // ---------------------------------------------------------------------------

  /** winit's `ControlFlow` as the program uses it. */
  datatype ControlFlow = Poll | Exit

  /** Setting the control flow: winit keeps `Exit` once it has been set. */
  function SetControl(current: ControlFlow, requested: ControlFlow): (c: ControlFlow)
    ensures c == Exit <==> current == Exit || requested == Exit
  {
    if current == Exit then Exit else requested
  }

  /**
   * The events the closure distinguishes; events for another window arrive as
   * `Ignored`. A redraw event carries what the GPU and the serial port answer.
   */
  datatype Event =
    | CloseRequested
    | EscapePressed
    | WindowResized(width: U32, height: U32)
    | RedrawRequested(render: RenderResult, write: WriteResult, flush: FlushResult)
    | MainEventsCleared
    | Ignored

  /** What the host does that the outside world can see: a frame presented, a byte written. */
  datatype Observation = Drawn(colour: Colour) | Signalled(byte: Byte)

  /** The bytes of the `Signalled` observations of `t`, in order. */
  function Signals(t: seq<Observation>): seq<Byte>
  {
    if t == [] then []
    else Signals(t[..|t| - 1]) + (if t[|t| - 1].Signalled? then [t[|t| - 1].byte] else [])
  }

  /**
   * The ordering the program keeps: after the startup byte, every byte written is
   * immediately preceded by a presented frame, and it is the byte of that frame's colour.
   */
  predicate DrawThenSignal(t: seq<Observation>)
  {
    forall i :: 0 < i < |t| && t[i].Signalled? ==>
      t[i - 1].Drawn? && t[i].byte == TriggerByte(t[i - 1].colour == Stimulus)
  }

  /** What one redraw adds to the observations, given the frame chosen before rendering. */
  function RedrawObservations(f: Frame, render: RenderResult, w: WriteResult): (t: seq<Observation>)
    ensures t != [] <==> render.RenderOk?
    ensures t != [] ==> t[0] == Drawn(f.colour)
    ensures |t| == 2 <==> render.RenderOk? && w == Wrote(1)
    ensures |t| == 2 ==> t[1] == Signalled(TriggerByte(f.setHigh))
    ensures |t| <= 2
  {
    if render.RenderOk? then
      [Drawn(f.colour)] + (if w == Wrote(1) then [Signalled(TriggerByte(f.setHigh))] else [])
    else []
  }

  /** `Signals` distributes over appending what one redraw observes (at most two observations). */
  lemma SignalsAppend(t: seq<Observation>, u: seq<Observation>)
    requires |u| <= 2
    ensures Signals(t + u) == Signals(t) + Signals(u)
  {
    if |u| == 1 {
      assert (t + u)[..|t + u| - 1] == t;
      assert u[..0] == [];
    } else if |u| == 2 {
      assert (t + u)[..|t + u| - 1] == t + [u[0]];
      assert (t + [u[0]])[..|t|] == t;
      assert u[..1] == [u[0]];
      assert [u[0]][..0] == [];
    } else {
      assert t + u == t;
    }
  }

  /**
   * What the program keeps about its output: the bytes on the port are exactly the
   * signals of the trace, all of them host command bytes, each one right after the
   * frame it announces, and the first one is the startup `set_low` byte.
   */
  predicate TraceMatchesPort(t: seq<Observation>, port: seq<Byte>)
  {
    Signals(t) == port &&
    AllIn(port, HostBytes) &&
    DrawThenSignal(t) &&
    (t != [] ==> t[0] == Signalled(LowByte))
  }

  /**
   * Appending what a redraw observes, with the frame chosen from the counter value
   * `count`, keeps trace and port in step.
   */
  lemma RedrawKeepsTraceMatchingPort(t: seq<Observation>, port: seq<Byte>, count: U16, render: RenderResult, w: WriteResult)
    requires TraceMatchesPort(t, port) && t != []
    ensures TraceMatchesPort(t + RedrawObservations(SelectFrame(count), render, w),
                             port + Signals(RedrawObservations(SelectFrame(count), render, w)))
  {
    var f := SelectFrame(count);
    var u := RedrawObservations(f, render, w);
    SignalsAppend(t, u);
    assert Signals(u) == [] || Signals(u) == [TriggerByte(f.setHigh)] by {
      if |u| == 2 {
        assert u[..1] == [u[0]];
        assert u[..0] == [];
        assert Signals([]) == [];
      } else if |u| == 1 {
        assert u[..0] == [];
        assert Signals([]) == [];
      }
    }
    var t' := t + u;
    forall i | 0 < i < |t'| && t'[i].Signalled?
      ensures t'[i - 1].Drawn? && t'[i].byte == TriggerByte(t'[i - 1].colour == Stimulus)
    {
      if i >= |t| {
        assert |u| == 2 && i == |t| + 1;
      }
    }
  }

  /**
   * Whether handing `e` to a closure that is still running ends the run: close and
   * Escape exit, and a redraw exits on `OutOfMemory` and panics when the refresh
   * rate is 0 or when a write or flush after `Ok` fails.
   */
  predicate Stops(e: Event, rate: U16)
  {
    match e
    case CloseRequested => true
    case EscapePressed => true
    case RedrawRequested(render, w, f) =>
      rate == 0 || render == RenderErr(OutOfMemory) ||
      (render.RenderOk? && !(w == Wrote(1) && f == Flushed))
    case _ => false
  }

  /**
   * How many of `events` a running event loop hands to the closure: all of them, or
   * those up to and including the first one that stops the run.
   */
  function EventsHandled(events: seq<Event>, rate: U16): (n: nat)
    ensures n <= |events|
    ensures events != [] ==> n > 0
    ensures 0 < n < |events| ==> Stops(events[n - 1], rate)
    ensures forall i :: 0 <= i < n - 1 ==> !Stops(events[i], rate)
  {
    if events == [] then 0
    else if Stops(events[0], rate) then 1
    else 1 + EventsHandled(events[1..], rate)
  }

  /** The number of redraw events among `events`. */
  function RedrawsIn(events: seq<Event>): nat
  {
    if events == [] then 0
    else RedrawsIn(events[..|events| - 1]) + if events[|events| - 1].RedrawRequested? then 1 else 0
  }

  /** What handling `e` adds to the observations when the counter stands at `c`. */
  function EventObservations(c: U16, e: Event): (t: seq<Observation>)
    ensures |t| <= 2
  {
    if e.RedrawRequested? then RedrawObservations(SelectFrame(c), e.render, e.write) else []
  }

  /**
   * What a running host observes while the closure handles `events`, starting from
   * the counter value `c`: each redraw adds `RedrawObservations` of the frame chosen
   * from the counter as it stands after the redraws before it; other events add nothing.
   */
  function RunObservations(c: U16, rate: U16, events: seq<Event>): seq<Observation>
    requires c < rate
  {
    if events == [] then []
    else
      var init := events[..|events| - 1];
      RunObservations(c, rate, init) + EventObservations(CountAfter(c, rate, RedrawsIn(init)), events[|events| - 1])
  }

  /** Handling one more event of a run extends the counter, the observations and the bytes by that event's share. */
  lemma RunStep(c: U16, rate: U16, events: seq<Event>, h: nat)
    requires c < rate && h < |events|
    ensures CountAfter(c, rate, RedrawsIn(events[..h + 1])) ==
      if events[h].RedrawRequested? then NextCount(CountAfter(c, rate, RedrawsIn(events[..h])), rate).value
      else CountAfter(c, rate, RedrawsIn(events[..h]))
    ensures RunObservations(c, rate, events[..h + 1]) ==
      RunObservations(c, rate, events[..h]) + EventObservations(CountAfter(c, rate, RedrawsIn(events[..h])), events[h])
    ensures Signals(RunObservations(c, rate, events[..h + 1])) ==
      Signals(RunObservations(c, rate, events[..h])) + Signals(EventObservations(CountAfter(c, rate, RedrawsIn(events[..h])), events[h]))
  {
    assert events[..h + 1][..h] == events[..h];
    CountAfterStep(c, rate, RedrawsIn(events[..h]));
    SignalsAppend(RunObservations(c, rate, events[..h]), EventObservations(CountAfter(c, rate, RedrawsIn(events[..h])), events[h]));
  }

  /**
   * The state the event-loop closure owns: the counter, the control flow it
   * reports, the serial wrapper and the surface; `trace` records, in program order,
   * every frame presented and every byte written, and `redraws` counts redraw events.
   */
  class Scheduler {
    const refreshRate: U16
    const gpio: Gpio
    const surface: State
    var count: U16
    var control: ControlFlow
    /** Whether the process has panicked (a panic aborts the whole program). */
    var panicked: bool
    var trace: seq<Observation>
    ghost var redraws: nat

    ghost predicate Valid()
      reads this, gpio
    {
      (refreshRate == 0 ==> count == 0) &&
      (refreshRate > 0 ==> count == CountAfter(0, refreshRate, redraws)) &&
      TraceMatchesPort(trace, gpio.port) &&
      (!panicked ==> trace != [])
    }

    /**
     * Program start up to the event loop: open the port (not modelled), force the
     * output low with `set_low().expect(..)`, then start counting at 0. A failing
     * `set_low` panics before any frame exists.
     */
    constructor (refreshRate: U16, initial: SurfaceConfig, w: WriteResult, f: FlushResult)
      ensures Valid() && fresh(gpio) && fresh(surface)
      ensures this.refreshRate == refreshRate && count == 0 && control == Poll
      ensures surface.config == initial && surface.applied == [initial]
      ensures panicked <==> WriteCommand(LowByte, w, f).result != LinkOk
      ensures gpio.port == WriteCommand(LowByte, w, f).sent
      ensures trace == if w == Wrote(1) then [Signalled(LowByte)] else []
    {
      var port := new Gpio();
      var r := port.SetLow(w, f);
      this.refreshRate := refreshRate;
      gpio := port;
      surface := new State(initial);
      count := 0;
      control := Poll;
      panicked := r != LinkOk;
      trace := if w == Wrote(1) then [Signalled(LowByte)] else [];
      redraws := 0;
      assert Signals([Signalled(LowByte)]) == Signals([]) + [LowByte];
    }

    /**
     * The `RedrawRequested` arm: choose the frame from the current count, advance the
     * count, render, and write the chosen command only when rendering succeeded;
     * a write that fails in any way ends in a panic.
     */
    method Redraw(render: RenderResult, w: WriteResult, f: FlushResult)
      requires Valid() && !panicked
      modifies this, gpio
      ensures Valid()
      ensures old(trace) <= trace && old(gpio.port) <= gpio.port
      ensures refreshRate == 0 ==>
        panicked && count == old(count) && redraws == old(redraws) &&
        trace == old(trace) && gpio.port == old(gpio.port) && control == old(control)
      ensures refreshRate > 0 ==>
        count == (if old(count) + 1 == refreshRate then 0 else old(count) + 1) &&
        redraws == old(redraws) + 1 &&
        trace == old(trace) + RedrawObservations(SelectFrame(old(count)), render, w) &&
        gpio.port == old(gpio.port) + Signals(RedrawObservations(SelectFrame(old(count)), render, w)) &&
        (panicked <==> render.RenderOk? && WriteCommand(TriggerByte(SelectFrame(old(count)).setHigh), w, f).result != LinkOk) &&
        (control == Exit <==> old(control) == Exit || render == RenderErr(OutOfMemory))
    {
      control := SetControl(control, Poll);
      var frame := SelectFrame(count);
      var next := NextCount(count, refreshRate);
      if next.None? {
        panicked := true;
        return;
      }
      CountAfterStep(0, refreshRate, redraws);
      count := next.value;
      redraws := redraws + 1;
      ghost var oldTrace, oldPort := trace, gpio.port;
      React(frame, render, w, f);
      RedrawKeepsTraceMatchingPort(oldTrace, oldPort, old(count), render, w);
    }

    /**
     * The `match state.render(color)` of a redraw whose frame is `frame`: record the
     * presented frame, then write its command only when rendering succeeded.
     */
    method React(frame: Frame, render: RenderResult, w: WriteResult, f: FlushResult)
      modifies `trace, `panicked, `control, gpio
      ensures trace == old(trace) + RedrawObservations(frame, render, w)
      ensures gpio.port == old(gpio.port) + Signals(RedrawObservations(frame, render, w))
      ensures panicked == if render.RenderOk? then WriteCommand(TriggerByte(frame.setHigh), w, f).result != LinkOk
                          else old(panicked)
      ensures control == if render == RenderErr(OutOfMemory) then Exit else old(control)
    {
      ghost var oldTrace, oldPort := trace, gpio.port;
      ghost var u := RedrawObservations(frame, render, w);
      if render.RenderOk? {
        trace := trace + [Drawn(frame.colour)];
      }
      match Dispatch(render, frame.setHigh) {
        case WriteTrigger(high) =>
          var r;
          if high {
            r := gpio.SetHigh(w, f);
          } else {
            r := gpio.SetLow(w, f);
          }
          if w == Wrote(1) {
            trace := trace + [Signalled(TriggerByte(high))];
          }
          panicked := r != LinkOk;
        case Continue =>
        case Quit =>
          control := SetControl(control, Exit);
      }
      assert trace == oldTrace + u;
      assert Signals(u) == if |u| == 2 then [u[1].byte] else [] by {
        if |u| == 2 {
          assert u[..1] == [u[0]];
          assert u[..0] == [];
          assert Signals([]) == [];
        } else if |u| == 1 {
          assert u[..0] == [];
          assert Signals([]) == [];
        }
      }
    }

    /** One call of the event-loop closure. */
    method OnEvent(e: Event)
      requires Valid() && !panicked
      modifies this, gpio, surface
      ensures Valid()
      ensures old(trace) <= trace && old(gpio.port) <= gpio.port
      ensures !e.RedrawRequested? ==>
        count == old(count) && trace == old(trace) && gpio.port == old(gpio.port) && !panicked
      ensures e.RedrawRequested? && refreshRate == 0 ==>
        panicked && count == old(count) && trace == old(trace) && gpio.port == old(gpio.port) &&
        control == old(control)
      ensures e.RedrawRequested? && refreshRate > 0 ==>
        count == (if old(count) + 1 == refreshRate then 0 else old(count) + 1) &&
        trace == old(trace) + RedrawObservations(SelectFrame(old(count)), e.render, e.write) &&
        gpio.port == old(gpio.port) + Signals(RedrawObservations(SelectFrame(old(count)), e.render, e.write)) &&
        (panicked <==> e.render.RenderOk? &&
                       WriteCommand(TriggerByte(SelectFrame(old(count)).setHigh), e.write, e.flush).result != LinkOk) &&
        (control == Exit <==> old(control) == Exit || e.render == RenderErr(OutOfMemory))
      ensures e.WindowResized? || e.MainEventsCleared? || e.Ignored? ==> control == old(control)
      ensures redraws == old(redraws) + if e.RedrawRequested? && refreshRate > 0 then 1 else 0
      ensures refreshRate > 0 ==>
        count == (if e.RedrawRequested? then NextCount(old(count), refreshRate).value else old(count)) &&
        trace == old(trace) + EventObservations(old(count), e) &&
        gpio.port == old(gpio.port) + Signals(EventObservations(old(count), e))
      ensures surface.applied ==
        if e.WindowResized? && NonZeroArea(e.width, e.height) then old(surface.applied) + [surface.config]
        else old(surface.applied)
      ensures old(control) != Exit ==> (panicked || control == Exit <==> Stops(e, refreshRate))
      ensures e.CloseRequested? || e.EscapePressed? ==> control == Exit
      ensures old(control) == Exit ==> control == Exit
      ensures e.WindowResized? ==> surface.config == ResizedConfig(old(surface.config), e.width, e.height)
      ensures !e.WindowResized? ==> surface.config == old(surface.config)
    {
      control := SetControl(control, Poll);
      match e {
        case CloseRequested =>
          control := SetControl(control, Exit);
        case EscapePressed =>
          control := SetControl(control, Exit);
        case WindowResized(width, height) =>
          surface.Resize(width, height);
        case RedrawRequested(render, w, f) =>
          Redraw(render, w, f);
        case MainEventsCleared =>
        case Ignored =>
      }
    }

    /**
     * The event loop: hand events to the closure until they run out, the process
     * panics, or the closure asks to exit.
     */
    method Run(events: seq<Event>) returns (handled: nat)
      requires Valid() && !panicked
      modifies this, gpio, surface
      ensures Valid()
      ensures handled <= |events|
      ensures handled < |events| ==> panicked || control == Exit
      ensures old(control) == Exit ==> handled == 0
      ensures old(control) != Exit ==> handled == EventsHandled(events, refreshRate)
      ensures refreshRate > 0 ==>
        count == CountAfter(old(count), refreshRate, RedrawsIn(events[..handled])) &&
        trace == old(trace) + RunObservations(old(count), refreshRate, events[..handled]) &&
        gpio.port == old(gpio.port) + Signals(RunObservations(old(count), refreshRate, events[..handled]))
      ensures old(trace) <= trace && old(gpio.port) <= gpio.port
      ensures gpio.port != [] && gpio.port[0] == LowByte
    {
      handled := 0;
      assert events[handled..] == events;
      while handled < |events| && !panicked && control != Exit
        invariant Valid()
        invariant handled <= |events|
        invariant old(trace) <= trace && old(gpio.port) <= gpio.port
        invariant old(control) == Exit ==> handled == 0 && control == Exit
        invariant old(control) != Exit && !panicked && control != Exit ==>
          EventsHandled(events, refreshRate) == handled + EventsHandled(events[handled..], refreshRate)
        invariant old(control) != Exit && (panicked || control == Exit) ==>
          handled == EventsHandled(events, refreshRate)
        invariant refreshRate > 0 ==>
          count == CountAfter(old(count), refreshRate, RedrawsIn(events[..handled])) &&
          trace == old(trace) + RunObservations(old(count), refreshRate, events[..handled]) &&
          gpio.port == old(gpio.port) + Signals(RunObservations(old(count), refreshRate, events[..handled]))
        decreases |events| - handled
      {
        assert events[handled..][1..] == events[handled + 1..];
        ghost var u := EventObservations(count, events[handled]);
        ghost var obs := if refreshRate > 0 then RunObservations(old(count), refreshRate, events[..handled]) else [];
        ghost var t, p := trace, gpio.port;
        OnEvent(events[handled]);
        if refreshRate > 0 {
          RunStep(old(count), refreshRate, events, handled);
          assert trace == t + u;
          AppendAssociative(old(trace), obs, u);
          assert gpio.port == p + Signals(u);
          AppendAssociative(old(gpio.port), Signals(obs), Signals(u));
        }
        handled := handled + 1;
      }
      FirstSignalIsStartup(trace);
    }
  }

  /** The startup byte is the first byte the host ever writes. */
  lemma {:induction false} FirstSignalIsStartup(t: seq<Observation>)
    requires t != [] && t[0] == Signalled(LowByte)
    ensures Signals(t) != [] && Signals(t)[0] == LowByte
  {
    if |t| > 1 {
      FirstSignalIsStartup(t[..|t| - 1]);
    } else {
      assert t[..0] == [];
    }
  }
}
