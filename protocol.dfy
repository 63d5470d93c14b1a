/**
 * Host and firmware together. The host writes the raw bytes 0x01 and 0x00
 * (src/main.rs:148, src/main.rs:157), while both firmwares act only on the ASCII
 * digits `b'1'` (0x31) and `b'0'` (0x30). As written, nothing the host sends ever
 * moves a pin on either board.
 */
module Protocol {
  import opened Base
  import opened Bridge
  import Host
  import WioTerminal
  import Xiao

  /** A read whose bytes could all have come from the host's trigger link. */
  predicate FromHost(r: ReadResult)
  {
    r.ReadFailed? || AllIn(r.data, Host.HostBytes)
  }

  /** The host's command bytes are not the firmware's command bytes. */
  lemma HostBytesAreNotCommands(r: ReadResult)
    requires FromHost(r)
    ensures Host.HighByte != AsciiOne && Host.LowByte != AsciiZero
    ensures Decode(r).None?
  {
    if r.Received? && |r.data| == 1 {
      assert r.data[0] in Host.HostBytes;
    }
  }

  /** Any run of reads of host bytes leaves both boards exactly as they were. */
  lemma {:induction false} HostStreamIgnored(g: Globals, inputs: seq<ReadResult>)
    requires forall i :: 0 <= i < |inputs| ==> FromHost(inputs[i])
    ensures WioTerminal.PollAll(g, inputs) == Step(g, Returned)
    ensures Xiao.PollAll(g, inputs) == Step(g, Returned)
  {
    if inputs != [] {
      HostStreamIgnored(g, inputs[..|inputs| - 1]);
      HostBytesAreNotCommands(inputs[|inputs| - 1]);
    }
  }

  /** The bytes of `bytes` delivered one per read. */
  function OnePerRead(bytes: seq<Byte>): (inputs: seq<ReadResult>)
    ensures |inputs| == |bytes|
    ensures forall i :: 0 <= i < |bytes| ==> inputs[i] == Received([bytes[i]])
  {
    seq(|bytes|, i requires 0 <= i < |bytes| => Received([bytes[i]]))
  }

  /**
   * Everything a running host has put on the link, delivered to either board one
   * byte per read (the only reads the firmware acts on), moves no pin and halts nothing.
   */
  lemma HostOutputMovesNoPin(host: Host.Scheduler, g: Globals)
    requires host.Valid()
    ensures WioTerminal.PollAll(g, OnePerRead(host.gpio.port)) == Step(g, Returned)
    ensures Xiao.PollAll(g, OnePerRead(host.gpio.port)) == Step(g, Returned)
  {
    var inputs := OnePerRead(host.gpio.port);
    forall i | 0 <= i < |inputs|
      ensures FromHost(inputs[i])
    {
      assert host.gpio.port[i] in Host.HostBytes;
      assert inputs[i].data == [host.gpio.port[i]];
    }
    HostStreamIgnored(g, inputs);
  }
}
