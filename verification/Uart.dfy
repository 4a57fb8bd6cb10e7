/** The console UART: its receive queue, its registers and its interrupt line. */
module UartModel {
  import opened Basics

  const RBR: nat := 0
  const IER: nat := 1
  const IIR: nat := 2
  const LCR: nat := 3
  const MCR: nat := 4
  const LSR: nat := 5
  const MSR: nat := 6
  const SCR: nat := 7

  datatype State = State(rx: seq<byte>, ier: byte, fcr: byte, lcr: byte, mcr: byte, scr: byte,
                         divisorLow: byte, divisorHigh: byte) {

    /** Bit 7 of LCR: whether the two lowest offsets address the divisor. */
    predicate Dlab() { lcr / 128 % 2 == 1 }

    predicate RxEnabled() { ier % 2 == 1 }

    predicate ThrEnabled() { ier / 2 % 2 == 1 }

    predicate HasInput() { rx != [] }

    predicate IsInterrupting() { (RxEnabled() && HasInput()) || ThrEnabled() }

    function PushInput(bytes: seq<byte>): State { this.(rx := rx + bytes) }

    function TakeInput(): (Option<byte>, State) {
      if rx == [] then (None, this) else (Some(rx[0]), this.(rx := rx[1..]))
    }

    /** Transmit is always idle; bit 0 says that input waits. */
    function LineStatus(): byte { if HasInput() then 0x61 else 0x60 }

    /** The highest-priority reason for interrupting. Bit 0 set means none. */
    function Identification(): byte {
      if RxEnabled() && HasInput() then 0xC4 else if ThrEnabled() then 0xC2 else 0xC1
    }

    function ReadValue(offset: nat): byte {
      if offset == RBR then if Dlab() then divisorLow else if rx == [] then 0 else rx[0]
      else if offset == IER then if Dlab() then divisorHigh else ier
      else if offset == IIR then Identification()
      else if offset == LCR then lcr
      else if offset == MCR then mcr
      else if offset == LSR then LineStatus()
      else if offset == MSR then 0xB0
      else if offset == SCR then scr
      else 0
    }

    /** Only reading the receive buffer changes anything. */
    function AfterRead(offset: nat): State {
      if offset == RBR && !Dlab() then TakeInput().1 else this
    }

    function AfterWrite(offset: nat, value64: nat): State {
      var value: byte := value64 % 256;
      if offset == RBR then if Dlab() then this.(divisorLow := value) else this
      else if offset == IER then if Dlab() then this.(divisorHigh := value) else this.(ier := value)
      else if offset == IIR then this.(fcr := value)
      else if offset == LCR then this.(lcr := value)
      else if offset == MCR then this.(mcr := value)
      else if offset == SCR then this.(scr := value)
      else this
    }
  }

  const RESET: State := State([], 0, 0, 0, 0, 0, 0, 0)

  /** What can happen to the device: input typed, a register access, or firmware polling the
      console. */
  datatype Event = Typed(bytes: seq<byte>) | Read(offset: nat) | Write(offset: nat, value: nat) | Polled

  function Step(s: State, ev: Event): State {
    match ev
    case Typed(bytes) => s.PushInput(bytes)
    case Read(offset) => s.AfterRead(offset)
    case Write(offset, value) => s.AfterWrite(offset, value)
    case Polled => s.TakeInput().1
  }

  function Run(s: State, evs: seq<Event>): State
    decreases |evs|
  {
    if evs == [] then s else Run(Step(s, evs[0]), evs[1..])
  }

  /** The input byte the event hands to the guest, if it hands one. */
  function Delivered(s: State, ev: Event): seq<byte> {
    match ev
    case Read(offset) => if offset == RBR && !s.Dlab() && s.HasInput() then [s.ReadValue(offset)] else []
    case Polled => (match s.TakeInput().0 case Some(b) => [b] case None => [])
    case _ => []
  }

  function AllDelivered(s: State, evs: seq<Event>): seq<byte>
    decreases |evs|
  {
    if evs == [] then [] else Delivered(s, evs[0]) + AllDelivered(Step(s, evs[0]), evs[1..])
  }

  function AllTyped(evs: seq<Event>): seq<byte>
    decreases |evs|
  {
    if evs == [] then [] else TypedBy(evs[0]) + AllTyped(evs[1..])
  }

  function TypedBy(ev: Event): seq<byte> { if ev.Typed? then ev.bytes else [] }

  lemma StepConserves(s: State, ev: Event)
    ensures Delivered(s, ev) + Step(s, ev).rx == s.rx + TypedBy(ev)
  {
  }

  lemma Regroup(d: seq<byte>, t: seq<byte>, s: seq<byte>, k: seq<byte>, ds: seq<byte>, r: seq<byte>, ks: seq<byte>)
    requires d + t == s + k && ds + r == t + ks
    ensures (d + ds) + r == s + (k + ks)
  {
    assert (d + ds) + r == d + (ds + r);
    assert d + (t + ks) == (d + t) + ks;
  }

  /** No input is lost, repeated or reordered: over any run, what was queued and typed is what has
      been delivered followed by what is still queued. */
  lemma {:induction false} InputConserved(s: State, evs: seq<Event>)
    ensures AllDelivered(s, evs) + Run(s, evs).rx == s.rx + AllTyped(evs)
    decreases |evs|
  {
    hide Step, Delivered, TypedBy;
    if evs != [] {
      var t := Step(s, evs[0]);
      StepConserves(s, evs[0]);
      InputConserved(t, evs[1..]);
      Regroup(Delivered(s, evs[0]), t.rx, s.rx, TypedBy(evs[0]), AllDelivered(t, evs[1..]), Run(t, evs[1..]).rx,
              AllTyped(evs[1..]));
    }
  }

  /** The registers that hold what was written: outside them a write leaves nothing to read back. */
  predicate Holds(s: State, offset: nat) {
    offset == LCR || offset == MCR || offset == SCR || offset == IER || (offset == RBR && s.Dlab())
  }

  /** A written register reads back; the same offset under the other DLAB setting, and every other
      register, keep their values. */
  lemma RegistersReadBack(s: State, offset: nat, value: nat, other: nat)
    requires Holds(s, offset)
    ensures var t := s.AfterWrite(offset, value);
            t.ReadValue(offset) == value % 256 && t.rx == s.rx &&
            (other != offset && Holds(s, other) && offset != LCR ==> t.ReadValue(other) == s.ReadValue(other)) &&
            (offset == IER && s.Dlab() ==> t.ier == s.ier) &&
            (offset == IER && !s.Dlab() ==> t.divisorHigh == s.divisorHigh)
  {
  }

  /** The reads of an interrupt handler that drains the queue: n of the receive buffer. */
  function Reads(n: nat): seq<Event> { seq(n, _ => Read(RBR)) }

  /** Draining: with the divisor latch closed, reading the receive buffer once for every byte queued
      hands the queue over in order and empties it, after which the line is up only for the
      transmitter and the identification register no longer reports received data. One read fewer
      leaves a byte, and with receive interrupts enabled the line stays up. */
  lemma {:induction false} DrainQuiets(s: State)
    requires !s.Dlab()
    ensures var t := Run(s, Reads(|s.rx|));
            AllDelivered(s, Reads(|s.rx|)) == s.rx && t == s.(rx := []) &&
            (t.IsInterrupting() <==> s.ThrEnabled()) && t.ReadValue(IIR) != 0xC4 && t.ReadValue(LSR) == 0x60
    ensures s.rx != [] ==>
              var t := Run(s, Reads(|s.rx| - 1));
              t == s.(rx := s.rx[|s.rx| - 1..]) && (s.RxEnabled() ==> t.IsInterrupting() && t.ReadValue(IIR) == 0xC4)
    decreases |s.rx|
  {
    if s.rx != [] {
      var n, t := |s.rx|, s.(rx := s.rx[1..]);
      assert Reads(n)[1..] == Reads(n - 1);
      DrainQuiets(t);
      assert [s.rx[0]] + s.rx[1..] == s.rx;
      if n > 1 {
        assert Reads(n - 1)[1..] == Reads(n - 2);
        assert s.rx[1..][n - 2..] == s.rx[n - 1..];
      }
    }
  }

  // ---------------------------------------------------------------------------------------

  /** The device itself. */
  class Uart {
    var rx: seq<byte>
    var ier: byte
    var fcr: byte
    var lcr: byte
    var mcr: byte
    var scr: byte
    var divisorLow: byte
    var divisorHigh: byte

    ghost function Model(): State
      reads this
    {
      State(rx, ier, fcr, lcr, mcr, scr, divisorLow, divisorHigh)
    }

    constructor ()
      ensures Model() == RESET
    {
      rx := [];
      ier, fcr, lcr, mcr, scr, divisorLow, divisorHigh := 0, 0, 0, 0, 0, 0, 0;
    }

    method PushInput(bytes: seq<byte>)
      modifies this
      ensures Model() == old(Model()).PushInput(bytes)
    {
      rx := rx + bytes;
    }

    method HasInput() returns (waiting: bool)
      ensures waiting == Model().HasInput()
    {
      waiting := |rx| > 0;
    }

    method TakeInput() returns (b: Option<byte>)
      modifies this
      ensures (b, Model()) == old(Model()).TakeInput()
    {
      b := None;
      if |rx| > 0 {
        b := Some(rx[0]);
        rx := rx[1..];
      }
    }

    method IsInterrupting() returns (active: bool)
      ensures active == Model().IsInterrupting()
    {
      active := (ier % 2 == 1 && |rx| > 0) || ier / 2 % 2 == 1;
    }

    method Iir() returns (id: byte)
      ensures id == Model().Identification()
    {
      if ier % 2 == 1 && |rx| > 0 {
        id := 0xC4;
      } else if ier / 2 % 2 == 1 {
        id := 0xC2;
      } else {
        id := 0xC1;
      }
    }

    method Read(offset: nat) returns (value: byte)
      modifies this
      ensures value == old(Model()).ReadValue(offset) && Model() == old(Model()).AfterRead(offset)
    {
      var dlab := lcr / 128 % 2 == 1;
      value := 0;
      if offset == RBR {
        if dlab {
          value := divisorLow;
        } else {
          var b := TakeInput();
          value := if b.Some? then b.value else 0;
        }
      } else if offset == IER {
        value := if dlab then divisorHigh else ier;
      } else if offset == IIR {
        value := Iir();
      } else if offset == LCR {
        value := lcr;
      } else if offset == MCR {
        value := mcr;
      } else if offset == LSR {
        value := if |rx| > 0 then 0x61 else 0x60;
      } else if offset == MSR {
        value := 0xB0;
      } else if offset == SCR {
        value := scr;
      }
    }

    method Write(offset: nat, value64: nat)
      modifies this
      ensures Model() == old(Model()).AfterWrite(offset, value64)
    {
      var value: byte := value64 % 256;
      var dlab := lcr / 128 % 2 == 1;
      if offset == RBR {
        if dlab {
          divisorLow := value;
        }
      } else if offset == IER {
        if dlab {
          divisorHigh := value;
        } else {
          ier := value;
        }
      } else if offset == IIR {
        fcr := value;
      } else if offset == LCR {
        lcr := value;
      } else if offset == MCR {
        mcr := value;
      } else if offset == SCR {
        scr := value;
      }
    }
  }
}
