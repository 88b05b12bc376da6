/** The fast JTAG UART driver in its own form: a state structure with two arrays, updated in
    place by the interrupt routine and by the read and write calls.  Each assignment is
    accompanied by the step of UartMachine it performs, so every execution of these methods is
    a run of that machine and enjoys what is proved about all runs. */
module UartDriver {
  import opened UartRing
  import opened UartMachine
  import opened UartInvariant
  import opened UartTheorems

  function Last<T>(s: seq<T>): T
    requires s != []
  {
    s[|s| - 1]
  }

  /** The bytes left in a ring that stored u when the routine has acted on a control word. */
  function AfterWord(c: Control, u: nat): nat {
    if c.wi then u - Min(c.wspace, u) else u
  }

  predicate Pending(c: Control) {
    c.ri || c.wi
  }

  /** The routine goes on as long as something is pending, and no longer. */
  predicate AllButLastPending(words: seq<Control>) {
    words != [] && !Pending(Last(words)) && forall k | 0 <= k < |words| - 1 :: Pending(words[k])
  }

  /** Some word announces received bytes. */
  predicate RxAsked(words: seq<Control>) {
    exists k | 0 <= k < |words| :: words[k].ri
  }

  /** The same after several words, oldest first. */
  function Remaining(words: seq<Control>, u: nat): nat {
    if words == [] then u else AfterWord(Last(words), Remaining(words[..|words| - 1], u))
  }

  /** A call either returns or is still waiting after the given number of looks. */
  datatype Outcome = Returned(result: Result) | StillWaiting

  lemma Grown(before: seq<Byte>, after: seq<Byte>, bytes: seq<Byte>)
    requires before <= after && EndsWith(after, |before|, bytes)
    ensures after == before + bytes
  {
    assert after == before + after[|before|..];
  }

  class JtagUart {
    var rxIn: Index
    var rxOut: Index
    var txIn: Index
    var txOut: Index
    const rxBuf: array<Byte>
    const txBuf: array<Byte>
    var irqRe: bool
    var irqWe: bool
    var hostInactive: nat
    const timeout: nat

    // the device
    var hwRe: bool
    var hwWe: bool
    var hwRx: seq<Byte>
    var hwTx: seq<Byte>

    // the machine this object runs, and the steps taken so far
    ghost var sys: Sys
    ghost var trace: seq<Action>

    // what reads of the control register have returned
    ghost var words: seq<Control>

    ghost predicate Coupled()
      reads this, rxBuf, txBuf
    {
      && rxBuf.Length == BUF_LEN
      && txBuf.Length == BUF_LEN
      && rxBuf != txBuf
      && sys.d == Driver(rxIn, rxOut, txIn, txOut, rxBuf[..], txBuf[..], irqRe, irqWe, hostInactive, timeout)
      && sys.h == Hardware(hwRe, hwWe, hwRx, hwTx)
    }

    ghost predicate OnRun()
      reads this`sys, this`trace
    {
      Inv(sys) && IsRun(Init(timeout), trace, sys)
    }

    ghost predicate Valid()
      reads this, rxBuf, txBuf
    {
      Coupled() && OnRun()
    }

    /** Interrupts are enabled and the routine is not running. */
    ghost predicate Quiet()
      reads this`sys
    {
      sys.i.pc == IIdle && !Masked(sys)
    }

    /** What the foreground calls own; the interrupt routine must leave it alone. */
    ghost function Foreground(): (Writer, Reader, Index, Index, seq<Byte>, seq<Byte>)
      reads this
    {
      (sys.w, sys.r, txIn, rxOut, sys.g.accepted, sys.g.delivered)
    }

    constructor (timeout: nat)
      ensures Valid() && Quiet() && trace == [] && sys == Init(timeout)
      ensures fresh(rxBuf) && fresh(txBuf)
    {
      rxIn, rxOut, txIn, txOut := 0, 0, 0, 0;
      rxBuf := new Byte[BUF_LEN](_ => 0);
      txBuf := new Byte[BUF_LEN](_ => 0);
      irqRe, irqWe := true, false;
      hwRe, hwWe := true, false;
      hostInactive := 0;
      this.timeout := timeout;
      hwRx, hwTx := [], [];
      sys := Init(timeout);
      trace := [];
      new;
      InitHolds(timeout);
    }

    /** One step of the machine. */
    ghost method Take(a: Action)
      requires OnRun() && Enabled(sys, a)
      modifies this`sys, this`trace
      ensures OnRun()
      ensures sys == Step(old(sys), a)
      ensures trace == old(trace) + [a]
    {
      hide Inv, Enabled, Step;
      StepKeeps(sys, a);
      RunExtends(Init(timeout), trace, sys, a);
      sys, trace := Step(sys, a), trace + [a];
    }

    ghost method TakeIsr(c: Control)
      requires OnRun() && sys.i.pc != IIdle && (sys.i.pc == ILoad ==> Honest(sys.h, c))
      modifies this`sys, this`trace
      ensures OnRun()
      ensures IsrMoves(old(sys), c) && sys == StepIsr(old(sys), c)
      ensures trace == old(trace) + [IsrStep(c)]
    {
      hide Inv, StepIsr;
      NobodyStuck(sys, c);
      Take(IsrStep(c));
    }

    ghost method IsrEnters()
      requires Valid() && Quiet()
      modifies this`sys, this`trace
      ensures Valid() && trace == old(trace) + [Interrupt]
      ensures sys == old(sys).(i := old(sys.i).(pc := ILoad))
    {
      hide Inv, IsRun, StepWriter, StepReader, StepIsr;
      Take(Interrupt);
    }

    /** The routine looks at the control word it has read. */
    ghost method IsrLoads(c: Control)
      requires Valid() && sys.i.pc == ILoad && Honest(sys.h, c)
      modifies this`sys, this`trace
      ensures Valid() && old(trace) <= trace
      ensures sys == old(sys).(i := sys.i)
      ensures sys.i == if !c.ri && !c.wi then old(sys.i).(pc := IIdle)
                       else old(sys.i).(pc := if c.ri then IRxTest else ITxStart,
                                        wi := c.wi, space := c.wspace, avail := true)
    {
      hide Inv, IsRun;
      TakeIsr(c);
    }

    ghost method IsrTestsRing()
      requires Valid() && sys.i.pc == IRxTest
      modifies this`sys, this`trace
      ensures Valid() && old(trace) <= trace
      ensures sys == old(sys).(i := old(sys.i).(pc := if Full(rxOut, rxIn) then IRxDone else IRxRead))
    {
      hide Inv, IsRun;
      TakeIsr(Control(false, false, 0));
    }

    ghost method IsrStartsSending()
      requires Valid() && sys.i.pc == ITxStart
      modifies this`sys, this`trace
      ensures Valid() && old(trace) <= trace
      ensures sys == old(sys).(i := old(sys.i).(pc := if sys.i.wi then ITxTest else ILoad))
    {
      hide Inv, IsRun;
      TakeIsr(Control(false, false, 0));
    }

    ghost method IsrStopsSending()
      requires Valid() && sys.i.pc == ITxTest && !(sys.i.space > 0 && txOut != txIn)
      modifies this`sys, this`trace
      ensures Valid() && old(trace) <= trace
      ensures sys == old(sys).(i := old(sys.i).(pc := ITxDone))
    {
      hide Inv, IsRun;
      TakeIsr(Control(false, false, 0));
    }

    ghost method TakeWriter()
      requires OnRun() && sys.i.pc == IIdle && sys.r.pc != RShadow && sys.w.pc != WIdle && sys.w.pc != WReturn
      modifies this`sys, this`trace
      ensures OnRun()
      ensures WriterMoves(old(sys)) && sys == StepWriter(old(sys))
      ensures trace == old(trace) + [WriterStep]
    {
      hide Inv, StepWriter;
      NobodyStuck(sys, Control(false, false, 0));
      Take(WriterStep);
    }

    ghost method WriterKicks()
      requires OnRun() && Quiet() && sys.w.pc == WKick
      modifies this`sys, this`trace
      ensures OnRun() && old(trace) <= trace
      ensures sys == old(sys).(d := old(sys.d).(we := true), w := old(sys.w).(pc := WShadow, dirty := false))
    {
      hide Inv, IsRun;
      TakeWriter();
    }

    ghost method WriterSetsControl()
      requires OnRun() && sys.i.pc == IIdle && sys.r.pc != RShadow && sys.w.pc == WShadow
      modifies this`sys, this`trace
      ensures OnRun() && old(trace) <= trace
      ensures sys == old(sys).(h := old(sys.h).(re := sys.d.re, we := sys.d.we), w := old(sys.w).(pc := WAfter))
    {
      hide Inv, IsRun;
      TakeWriter();
    }

    ghost method ReaderReenables()
      requires OnRun() && Quiet() && sys.r.pc == RExit && sys.r.done != 0
      modifies this`sys, this`trace
      ensures OnRun() && old(trace) <= trace
      ensures sys == old(sys).(d := old(sys.d).(re := true), r := old(sys.r).(pc := RShadow))
    {
      hide Inv, IsRun;
      TakeReader();
    }

    ghost method ReaderLeaves()
      requires OnRun() && Quiet() && sys.r.pc == RExit && sys.r.done == 0
      modifies this`sys, this`trace
      ensures OnRun() && old(trace) <= trace
      ensures sys == old(sys).(r := old(sys.r).(pc := RReturn))
    {
      hide Inv, IsRun;
      TakeReader();
    }

    ghost method ReaderSetsControl()
      requires OnRun() && sys.i.pc == IIdle && sys.w.pc != WShadow && sys.r.pc == RShadow
      modifies this`sys, this`trace
      ensures OnRun() && old(trace) <= trace
      ensures sys == old(sys).(h := old(sys.h).(re := sys.d.re, we := sys.d.we), r := old(sys.r).(pc := RReturn))
    {
      hide Inv, IsRun;
      TakeReader();
    }

    ghost method IsrMasks()
      requires OnRun() && ((sys.i.pc == IRxDone && sys.i.avail) || (sys.i.pc == ITxDone && sys.i.space > 0))
      modifies this`sys, this`trace
      ensures OnRun() && old(trace) <= trace
      ensures sys == if old(sys.i.pc) == IRxDone
                     then old(sys).(d := old(sys.d).(re := false), i := old(sys.i).(pc := IRxMask))
                     else old(sys).(d := old(sys.d).(we := false), i := old(sys.i).(pc := ITxMask))
    {
      hide Inv, IsRun;
      TakeIsr(Control(false, false, 0));
    }

    ghost method IsrSkips()
      requires OnRun() && ((sys.i.pc == IRxDone && !sys.i.avail) || (sys.i.pc == ITxDone && sys.i.space == 0))
      modifies this`sys, this`trace
      ensures OnRun() && old(trace) <= trace
      ensures sys == old(sys).(i := old(sys.i).(pc := if old(sys.i.pc) == IRxDone then ITxStart else ILoad))
    {
      hide Inv, IsRun;
      TakeIsr(Control(false, false, 0));
    }

    ghost method IsrSetsControl()
      requires OnRun() && (sys.i.pc == IRxMask || sys.i.pc == ITxMask)
      modifies this`sys, this`trace
      ensures OnRun() && old(trace) <= trace
      ensures sys == old(sys).(h := old(sys.h).(re := sys.d.re, we := sys.d.we),
                               i := old(sys.i).(pc := if old(sys.i.pc) == IRxMask then ITxStart else ILoad))
    {
      hide Inv, IsRun;
      TakeIsr(Control(false, false, 0));
    }

    ghost method TakeReader()
      requires OnRun() && sys.i.pc == IIdle && sys.w.pc != WShadow && sys.r.pc != RIdle && sys.r.pc != RReturn
      modifies this`sys, this`trace
      ensures OnRun()
      ensures ReaderMoves(old(sys)) && sys == StepReader(old(sys))
      ensures trace == old(trace) + [ReaderStep]
    {
      hide Inv, StepReader;
      NobodyStuck(sys, Control(false, false, 0));
      Take(ReaderStep);
    }

    // -------------------------------------------------------------- the environment

    /** The host sends one more byte, if the device has room for it. */
    method HostSendsByte()
      requires Valid()
      modifies this`hwRx, this`sys, this`trace
      ensures Valid() && old(trace) <= trace
      ensures sys == old(sys).(h := sys.h, g := old(sys.g).(arrived := sys.g.arrived))
    {
      hide Inv, IsRun, StepWriter, StepReader, StepIsr;
      if |hwRx| < READ_DEPTH {
        var b: Byte :| true;
        Take(HostSends(b));
        hwRx := hwRx + [b];
      }
    }

    /** The host takes one byte out of the device, if there is one. */
    method HostTakesByte()
      requires Valid()
      modifies this`hwTx, this`sys, this`trace
      ensures Valid() && old(trace) <= trace
      ensures sys == old(sys).(h := sys.h, g := old(sys.g).(received := sys.g.received))
    {
      hide Inv, IsRun, StepWriter, StepReader, StepIsr;
      if hwTx != [] {
        Take(HostTakes);
        hwTx := hwTx[1..];
      }
    }

    /** The host fills and drains the FIFOs for a while. */
    method HostActs()
      requires Valid()
      modifies this`hwRx, this`hwTx, this`sys, this`trace
      ensures Valid() && old(trace) <= trace
      ensures sys.i == old(sys.i) && Foreground() == old(Foreground())
      ensures sys.g.taken == old(sys.g.taken)
    {
      hide Inv, IsRun;
      var n: nat :| true;
      while n > 0
        invariant Valid() && old(trace) <= trace
        invariant sys.i == old(sys.i) && Foreground() == old(Foreground())
        invariant sys.g.taken == old(sys.g.taken)
      {
        if * {
          HostSendsByte();
        } else {
          HostTakesByte();
        }
        n := n - 1;
      }
    }

    /** A read of the control register; a device given no more attention reports nothing pending. */
    method ReadControl(attention: nat) returns (c: Control)
      requires Valid()
      modifies this`words
      ensures words == old(words) + [c]
      ensures Valid() && Honest(sys.h, c)
      ensures attention == 0 ==> !c.ri && !c.wi
    {
      hide TxStream, RxStream, IsRun;
      var ri: bool :| true;
      var wi: bool :| true;
      var space: nat :| space <= WRITE_DEPTH - |hwTx|;
      c := Control(ri && attention > 0, wi && attention > 0, space);
      words := words + [c];
    }

    // -------------------------------------------------------------- the interrupt routine

    /** altera_avalon_jtag_uart_irq: runs until the device reports nothing pending.  Each word read
        before says something is pending and is acted on: the transmit ring loses exactly what
        there was space for in the words that asked for it, and if any word announced received
        bytes, all that had arrived on entry are taken or the receive ring is full. */
    method Irq(attention: nat)
      requires Valid() && Quiet()
      modifies this, rxBuf, txBuf
      ensures Valid() && Quiet() && old(trace) + [Interrupt] <= trace
      ensures Foreground() == old(Foreground()) && hostInactive == old(hostInactive)
      ensures old(words) <= words && AllButLastPending(words[|old(words)|..])
      ensures Used(txOut, txIn) == Remaining(words[|old(words)|..], old(Used(txOut, txIn)))
      ensures RxAsked(words[|old(words)|..]) ==> Full(rxOut, rxIn) || |sys.g.taken| >= |old(sys.g.arrived)|
    {
      ghost var sys0, trace0 := sys, trace;
      assert IsRun(Init(timeout), trace0, sys0) by { ValidRun(); }
      hide Valid, IsRun, Init, Remaining, RxAsked, AllButLastPending;
      IsrEnters();
      ghost var ws := Serve(attention, sys0, trace0);
      assert words[|old(words)|..] == ws;
    }

    /** The outer loop of the routine. */
    method Serve(attention: nat, ghost sys0: Sys, ghost trace0: seq<Action>) returns (ghost ws: seq<Control>)
      requires Valid() && sys.i.pc == ILoad && !Masked(sys)
      requires IsRun(Init(timeout), trace0, sys0) && trace0 <= trace
      modifies this, rxBuf, txBuf
      ensures Valid() && Quiet() && old(trace) <= trace
      ensures Foreground() == old(Foreground()) && hostInactive == old(hostInactive)
      ensures words == old(words) + ws && AllButLastPending(ws)
      ensures Used(txOut, txIn) == Remaining(ws, old(Used(txOut, txIn)))
      ensures RxAsked(ws) ==> Full(rxOut, rxIn) || |sys.g.taken| >= |sys0.g.arrived|
    {
      hide Valid, IsRun, Init, Remaining, AfterWord, RxAsked;
      var left := attention;
      ws := [];
      NoWords(Used(txOut, txIn));
      while true
        invariant Valid() && sys.i.pc == ILoad && !Masked(sys) && old(trace) <= trace
        invariant Foreground() == old(Foreground()) && hostInactive == old(hostInactive)
        invariant words == old(words) + ws && forall k | 0 <= k < |ws| :: Pending(ws[k])
        invariant Used(txOut, txIn) == Remaining(ws, old(Used(txOut, txIn)))
        invariant RxAsked(ws) ==> Full(rxOut, rxIn) || |sys.g.taken| >= |sys0.g.arrived|
        decreases left
      {
        HostActs();
        var control := ReadControl(left);
        OneWordMore(ws, control, old(Used(txOut, txIn)));
        ws := ws + [control];
        var more := Round(control, sys0, trace0);
        if !more {
          break;
        }
        left := left - 1;
      }
    }

    /** What is done about one control word; false if there is nothing to do. */
    method Round(control: Control, ghost sys0: Sys, ghost trace0: seq<Action>) returns (more: bool)
      requires Valid() && sys.i.pc == ILoad && !Masked(sys) && Honest(sys.h, control)
      requires IsRun(Init(timeout), trace0, sys0) && trace0 <= trace
      modifies this, rxBuf, txBuf
      ensures Valid() && !Masked(sys) && old(trace) <= trace && words == old(words)
      ensures more == Pending(control) && sys.i.pc == (if more then ILoad else IIdle)
      ensures Foreground() == old(Foreground()) && hostInactive == old(hostInactive)
      ensures Used(txOut, txIn) == AfterWord(control, old(Used(txOut, txIn)))
      ensures control.ri ==> Full(rxOut, rxIn) || |sys.g.taken| >= |sys0.g.arrived|
      ensures old(Full(rxOut, rxIn)) ==> Full(rxOut, rxIn)
      ensures |sys.g.taken| >= |old(sys.g.taken)|
    {
      hide Valid, StepIsr, IsRun, Init;
      IsrLoads(control);
      if !control.ri && !control.wi {
        return false;
      }
      if control.ri {
        Receive();
        Appends(sys0, trace0);
      }
      IsrStartsSending();
      if control.wi {
        Transmit(control.wspace);
      }
      return true;
    }

    lemma NoWords(u: nat)
      ensures Remaining([], u) == u && !RxAsked([])
    {
    }

    lemma OneWordMore(ws: seq<Control>, c: Control, u: nat)
      ensures Remaining(ws + [c], u) == AfterWord(c, Remaining(ws, u))
      ensures RxAsked(ws + [c]) <==> RxAsked(ws) || c.ri
    {
      assert (ws + [c])[..|ws|] == ws && Last(ws + [c]) == c;
      if RxAsked(ws) {
        var k :| 0 <= k < |ws| && ws[k].ri;
        assert (ws + [c])[k].ri;
      }
    }

    /** The receive part of the routine. */
    method Receive()
      requires Valid() && sys.i.pc == IRxTest && sys.i.avail
      modifies this, rxBuf
      ensures Valid() && sys.i.pc == ITxStart && old(trace) <= trace
      ensures sys.i.wi == old(sys.i.wi) && sys.i.space == old(sys.i.space)
      ensures irqRe == (old(irqRe) && !sys.i.avail) && irqWe == old(irqWe)
      ensures txOut == old(txOut) && words == old(words)
      ensures Full(rxOut, rxIn) || sys.g.taken == sys.g.arrived
      ensures |sys.g.taken| >= |old(sys.g.taken)|
      ensures if Full(rxOut, rxIn) then old(Full(rxOut, rxIn)) ==> sys.i.avail
              else !old(Full(rxOut, rxIn)) && hwRx == [] && !sys.i.avail
      ensures Foreground() == old(Foreground()) && hostInactive == old(hostInactive)
    {
      hide Valid, StepIsr;
      var avail := true;
      while true
        invariant Valid() && sys.i.pc == IRxTest && sys.i.avail == avail && old(trace) <= trace
        invariant sys.i.wi == old(sys.i.wi) && sys.i.space == old(sys.i.space)
        invariant txOut == old(txOut) && words == old(words) && irqWe == old(irqWe)
        invariant |sys.g.taken| >= |old(sys.g.taken)|
        invariant irqRe == old(irqRe) && (old(Full(rxOut, rxIn)) ==> avail && Full(rxOut, rxIn))
        invariant Foreground() == old(Foreground()) && hostInactive == old(hostInactive)
        decreases BUF_LEN - Used(rxOut, rxIn)
      {
        IsrTestsRing();
        var next := Advance(rxIn, 1);
        if next == rxOut {
          break;
        }
        HostActs();
        var valid, byte;
        valid, avail, byte := ReadData();
        if !valid {
          AllTaken();
          break;
        }
        StoreByte(byte);
      }
      DisableReceive(avail);
    }

    lemma AllTaken()
      requires Valid() && hwRx == []
      ensures sys.g.taken == sys.g.arrived
    {
      hide IsRun, TxInv, WakeInv, RxStream, ReaderCount, ReaderSnapshots, ReaderBlock;
    }

    /** A read of the data register. */
    method ReadData() returns (valid: bool, avail: bool, byte: Byte)
      requires Valid() && sys.i.pc == IRxRead
      modifies this`hwRx, this`sys, this`trace
      ensures Valid() && old(trace) <= trace
      ensures valid == (old(hwRx) != [])
      ensures if valid then byte == old(hwRx)[0] && hwRx == old(hwRx)[1..] else hwRx == []
      ensures avail == (|old(hwRx)| > 1)
      ensures sys.i == old(sys.i).(pc := if valid then IRxStore else IRxDone, avail := avail, byte := sys.i.byte)
      ensures valid ==> sys.i.byte == byte
      ensures Foreground() == old(Foreground())
      ensures |sys.g.taken| >= |old(sys.g.taken)|
    {
      hide Inv, IsRun, StepWriter, StepReader;
      TakeIsr(Control(false, false, 0));
      valid, avail, byte := hwRx != [], |hwRx| > 1, 0;
      if valid {
        byte := hwRx[0];
        hwRx := hwRx[1..];
      }
    }

    method StoreByte(byte: Byte)
      requires Valid() && sys.i.pc == IRxStore && sys.i.byte == byte
      modifies rxBuf, this`rxIn, this`sys, this`trace
      ensures Valid() && old(trace) <= trace
      ensures sys.i == old(sys.i).(pc := IRxTest)
      ensures Used(rxOut, rxIn) == Used(rxOut, old(rxIn)) + 1
      ensures Foreground() == old(Foreground())
      ensures sys.g == old(sys.g)
    {
      hide TxInv, WakeInv, IsRun, StepWriter, StepReader, Contents, EndsWith, ReaderBlock, ReaderCount;
      TakeIsr(Control(false, false, 0));
      rxBuf[rxIn] := byte;
      TakeIsr(Control(false, false, 0));
      rxIn := Advance(rxIn, 1);
    }

    method DisableReceive(avail: bool)
      requires Valid() && sys.i.pc == IRxDone && sys.i.avail == avail
      modifies this`irqRe, this`hwRe, this`hwWe, this`sys, this`trace
      ensures Valid() && old(trace) <= trace
      ensures sys.i == old(sys.i).(pc := ITxStart)
      ensures irqRe == (old(irqRe) && !avail)
      ensures sys.g == old(sys.g)
      ensures Foreground() == old(Foreground())
    {
      hide OnRun, StepIsr;
      if avail {
        IsrMasks();
        irqRe := false;
        IsrSetsControl();
        hwRe, hwWe := irqRe, irqWe;
      } else {
        IsrSkips();
      }
    }

    /** The transmit part of the routine. */
    method Transmit(wspace: nat)
      requires Valid() && sys.i.pc == ITxTest && sys.i.space == wspace
      modifies this
      ensures Valid() && sys.i.pc == ILoad && old(trace) <= trace
      ensures Foreground() == old(Foreground()) && hostInactive == old(hostInactive)
      ensures var stored := old(Used(txOut, txIn));
              && Used(txOut, txIn) == (if wspace < stored then stored - wspace else 0)
              && irqWe == (old(irqWe) && wspace <= stored)
      ensures rxIn == old(rxIn) && words == old(words) && irqRe == old(irqRe)
      ensures sys.g.taken == old(sys.g.taken)
    {
      hide Valid, StepIsr;
      var space := wspace;
      while true
        invariant Valid() && sys.i.pc == ITxTest && sys.i.space == space && old(trace) <= trace
        invariant rxIn == old(rxIn) && words == old(words) && irqRe == old(irqRe)
        invariant sys.g.taken == old(sys.g.taken)
        invariant Used(txOut, txIn) - space == old(Used(txOut, txIn)) - wspace && irqWe == old(irqWe)
        invariant Foreground() == old(Foreground()) && hostInactive == old(hostInactive)
        decreases space
      {
        if !(space > 0 && txOut != txIn) {
          break;
        }
        SendByte();
        space := space - 1;
        HostActs();
      }
      IsrStopsSending();
      DisableTransmit(space);
    }

    method SendByte()
      requires Valid() && sys.i.pc == ITxTest && sys.i.space > 0 && txOut != txIn
      modifies this`hwTx, this`txOut, this`sys, this`trace
      ensures Valid() && old(trace) <= trace
      ensures sys.i == old(sys.i).(space := old(sys.i.space) - 1)
      ensures hwTx == old(hwTx) + [txBuf[old(txOut)]] && txOut == Advance(old(txOut), 1)
      ensures Used(txOut, txIn) == Used(old(txOut), txIn) - 1
      ensures Foreground() == old(Foreground())
      ensures sys.g.taken == old(sys.g.taken)
    {
      hide Inv, IsRun, StepWriter, StepReader;
      TakeIsr(Control(false, false, 0));
      hwTx := hwTx + [txBuf[txOut]];
      TakeIsr(Control(false, false, 0));
      txOut := Advance(txOut, 1);
    }

    method DisableTransmit(space: nat)
      requires Valid() && sys.i.pc == ITxDone && sys.i.space == space
      modifies this`irqWe, this`hwRe, this`hwWe, this`sys, this`trace
      ensures Valid() && old(trace) <= trace
      ensures sys.i == old(sys.i).(pc := ILoad)
      ensures irqWe == (old(irqWe) && space == 0)
      ensures Foreground() == old(Foreground())
      ensures sys.g == old(sys.g)
    {
      hide OnRun, StepIsr;
      if space > 0 {
        IsrMasks();
        irqWe := false;
        IsrSetsControl();
        hwRe, hwWe := irqRe, irqWe;
      } else {
        IsrSkips();
      }
    }

    // -------------------------------------------------------------- what interrupts the foreground

    /** altera_avalon_jtag_uart_timeout, with the host's activity bit as input. */
    method Timeout(active: bool)
      requires Valid() && Quiet()
      modifies this`hwRe, this`hwWe, this`hostInactive, this`sys, this`trace
      ensures Valid() && Quiet() && trace == old(trace) + [Alarm(active)]
      ensures Foreground() == old(Foreground())
      ensures hostInactive == if active then 0
                              else if old(hostInactive) < INT_MAX - 2 then old(hostInactive) + 1
                              else old(hostInactive)
    {
      hide Inv, IsRun, StepWriter, StepReader, StepIsr;
      Take(Alarm(active));
      if active {
        hwRe, hwWe := irqRe, irqWe;
        hostInactive := 0;
      } else if hostInactive < INT_MAX - 2 {
        hostInactive := hostInactive + 1;
      }
    }

    /** Anything that may happen between two steps of a foreground call. */
    method Preempt()
      requires Valid() && Quiet()
      modifies this, rxBuf, txBuf
      ensures Valid() && Quiet() && old(trace) <= trace
      ensures Foreground() == old(Foreground())
    {
      hide Inv, IsRun;
      var n: nat :| true;
      while n > 0
        invariant Valid() && Quiet() && old(trace) <= trace
        invariant Foreground() == old(Foreground())
      {
        if * {
          HostActs();
        } else if * {
          var active: bool :| true;
          Timeout(active);
        } else {
          var attention: nat :| true;
          Irq(attention);
        }
        n := n - 1;
      }
    }

    // -------------------------------------------------------------- write

    /** The writer stands at pc in a call for data, with done bytes published. */
    ghost predicate Writing(pc: WriterPc, data: seq<Byte>, nonblock: bool, start: nat, done: nat)
      reads this
    {
      sys.w.pc == pc && sys.w.data == data && sys.w.nonblock == nonblock && sys.w.start == start && sys.w.done == done
    }

    /** What a write leaves alone. */
    ghost function ReadSide(): (Reader, Index, seq<Byte>)
      reads this
    {
      (sys.r, rxOut, sys.g.delivered)
    }

    method CopyInByte(slot: Index, b: Byte)
      requires Valid() && Quiet() && sys.w.pc == WCopy
      requires slot == sys.w.in_ + sys.w.k
      requires sys.w.done + sys.w.k < |sys.w.data| && b == sys.w.data[sys.w.done + sys.w.k]
      modifies txBuf, this`sys, this`trace
      ensures Valid() && Quiet() && old(trace) <= trace
      ensures sys.w == old(sys.w).(pc := if old(sys.w.k) + 1 < sys.w.n then WCopy else WPublish, k := old(sys.w.k) + 1)
      ensures ReadSide() == old(ReadSide())
    {
      hide Inv, IsRun;
      TakeWriter();
      txBuf[slot] := b;
    }

    /** The block copy into the transmit buffer. */
    method CopyIn(data: seq<Byte>, done: nat, in_: Index, n: nat)
      requires Valid() && Quiet() && sys.w.pc == WCopy
      requires sys.w.data == data && sys.w.done == done && sys.w.in_ == in_ && sys.w.n == n && sys.w.k == 0
      requires 0 < n && done + n <= |data| && in_ + n <= BUF_LEN
      modifies this, rxBuf, txBuf
      ensures Valid() && Quiet() && old(trace) <= trace
      ensures sys.w == old(sys.w).(pc := WPublish, k := n)
      ensures ReadSide() == old(ReadSide())
    {
      hide Valid;
      var k := 0;
      while k < n
        invariant Valid() && Quiet() && old(trace) <= trace
        invariant k <= n && sys.w == old(sys.w).(pc := if k < n then WCopy else WPublish, k := k)
        invariant ReadSide() == old(ReadSide())
      {
        CopyInByte(in_ + k, data[done + k]);
        k := k + 1;
        Preempt();
      }
    }

    /** The first of the two snapshots; an interrupt may come before the second. */
    method LoadIn() returns (in_: Index)
      requires Valid() && Quiet() && sys.w.pc == WTest && sys.w.done < |sys.w.data|
      modifies this`sys, this`trace
      ensures Valid() && Quiet() && old(trace) <= trace
      ensures sys.w == old(sys.w).(pc := WLoadOut, in_ := in_) && in_ == txIn
      ensures ReadSide() == old(ReadSide())
    {
      hide Inv, IsRun;
      TakeWriter();
      in_ := txIn;
    }

    method LoadOut() returns (out: Index)
      requires Valid() && Quiet() && sys.w.pc == WLoadOut
      modifies this`sys, this`trace
      ensures Valid() && Quiet() && old(trace) <= trace
      ensures sys.w == old(sys.w).(pc := WRoom, out := out) && out == txOut
      ensures ReadSide() == old(ReadSide())
    {
      hide Inv, IsRun;
      TakeWriter();
      out := txOut;
    }

    /** The size of the next block, zero if the ring is full. */
    method MeasureRoom(in_: Index, out: Index, count: nat) returns (n: nat)
      requires Valid() && Quiet() && sys.w.pc == WRoom && sys.w.in_ == in_ && sys.w.out == out
      requires 0 < count == |sys.w.data| - sys.w.done
      modifies this`sys, this`trace
      ensures Valid() && Quiet() && old(trace) <= trace
      ensures n <= count && in_ + n <= BUF_LEN
      ensures n == 0 ==> Room(in_, out) == 0 && sys.w == old(sys.w).(pc := WKick)
      ensures n > 0 ==> sys.w == old(sys.w).(pc := WCopy, n := n, k := 0)
      ensures ReadSide() == old(ReadSide())
    {
      hide Inv, IsRun;
      TakeWriter();
      n := Min(Room(in_, out), count);
    }

    ghost method LeaveFilling()
      requires Valid() && Quiet() && sys.w.pc == WTest && sys.w.done >= |sys.w.data|
      modifies this`sys, this`trace
      ensures Valid() && Quiet() && old(trace) <= trace
      ensures sys.w == old(sys.w).(pc := WKick)
      ensures ReadSide() == old(ReadSide())
    {
      hide Inv, IsRun;
      TakeWriter();
    }

    /** Is there nothing left to wait for? */
    method Finished(count: nat, nonblock: bool) returns (yes: bool)
      requires Valid() && Quiet() && sys.w.pc == WAfter && sys.w.nonblock == nonblock
      requires count == |sys.w.data| - sys.w.done
      modifies this`sys, this`trace
      ensures Valid() && Quiet() && old(trace) <= trace
      ensures yes == (count == 0 || nonblock)
      ensures sys.w == old(sys.w).(pc := if yes then WReturn else WSpin)
      ensures ReadSide() == old(ReadSide())
    {
      hide Inv, IsRun;
      TakeWriter();
      yes := count == 0 || nonblock;
    }

    /** The copied block becomes visible to the interrupt routine. */
    method PublishBlock(in_: Index, n: nat)
      requires Valid() && Quiet() && sys.w.pc == WPublish && sys.w.in_ == in_ && sys.w.n == n
      modifies this`txIn, this`sys, this`trace
      ensures Valid() && Quiet() && old(trace) <= trace
      ensures sys.w == old(sys.w).(pc := WTest, done := old(sys.w.done) + n, dirty := true)
      ensures ReadSide() == old(ReadSide())
    {
      hide Inv, IsRun;
      TakeWriter();
      txIn := Advance(in_, n);
    }

    /** One block, or nothing if the ring is full. */
    method CopyBlock(data: seq<Byte>, done: nat, in_: Index, out: Index) returns (n: nat)
      requires Valid() && Quiet() && sys.w.pc == WRoom && sys.w.in_ == in_ && sys.w.out == out
      requires sys.w.data == data && sys.w.done == done < |data|
      modifies this, rxBuf, txBuf
      ensures Valid() && Quiet() && old(trace) <= trace
      ensures n <= |data| - done
      ensures n == 0 ==> Room(in_, out) == 0 && txIn == old(txIn)
      ensures sys.w.pc == (if n == 0 then WKick else WTest) && sys.w.done == done + n && sys.w.out == out
      ensures sys.w.data == data && sys.w.nonblock == old(sys.w.nonblock) && sys.w.start == old(sys.w.start)
      ensures ReadSide() == old(ReadSide())
    {
      hide Valid;
      n := MeasureRoom(in_, out, |data| - done);
      if n > 0 {
        Preempt();
        CopyIn(data, done, in_, n);
        Preempt();
        PublishBlock(in_, n);
      }
    }

    /** One turn of the enqueue loop.  No block means that the ring, as last looked at, is full
        of bytes not yet sent when the trace was shorter. */
    method FillTurn(data: seq<Byte>, done: nat, ghost sys0: Sys, ghost trace0: seq<Action>)
      returns (n: nat, out: Index)
      requires Valid() && Quiet() && sys.w.pc == WTest && sys.w.data == data && sys.w.done == done < |data|
      requires IsRun(Init(timeout), trace0, sys0) && trace0 <= trace
      modifies this, rxBuf, txBuf
      ensures Valid() && Quiet() && old(trace) <= trace
      ensures n <= |data| - done
      ensures n == 0 ==> Full(out, txIn) && sys.w.start + done >= BUF_LEN - 1 + |sys0.g.sent|
      ensures sys.w.pc == (if n == 0 then WKick else WTest) && sys.w.done == done + n && sys.w.out == out
      ensures sys.w.data == data && sys.w.nonblock == old(sys.w.nonblock) && sys.w.start == old(sys.w.start)
      ensures ReadSide() == old(ReadSide())
    {
      hide Valid, IsRun, Init;
      var in_ := LoadIn();
      Preempt();
      out := LoadOut();
      RoomSeen(sys0, trace0);
      Preempt();
      n := CopyBlock(data, done, in_, out);
    }

    /** Enqueue as much as the ring takes: all of the data, or as much as there was room for at
        the start. */
    method FillRing(data: seq<Byte>, from: nat, lastOut: Index, ghost sys0: Sys, ghost trace0: seq<Action>)
      returns (done: nat, out: Index)
      requires Valid() && Quiet() && sys.w.pc == WTest
      requires IsRun(Init(timeout), trace0, sys0) && trace0 <= trace
      requires sys.w.data == data && sys.w.done == from <= |data| && sys.w.out == lastOut
      modifies this, rxBuf, txBuf
      ensures Valid() && Quiet() && old(trace) <= trace
      ensures sys.w.pc == WKick && sys.w.done == done <= |data| && sys.w.out == out
      ensures from <= done && (done < |data| ==> Full(out, txIn))
      ensures done < |data| ==> sys.w.start + done >= BUF_LEN - 1 + |sys0.g.sent|
      ensures sys.w.data == data && sys.w.nonblock == old(sys.w.nonblock) && sys.w.start == old(sys.w.start)
      ensures ReadSide() == old(ReadSide())
    {
      hide Valid, IsRun, Init;
      done, out := from, lastOut;
      while done < |data|
        invariant Valid() && Quiet() && old(trace) <= trace
        invariant sys.w.pc == WTest && from <= sys.w.done == done <= |data| && sys.w.out == out
        invariant sys.w.data == data && sys.w.nonblock == old(sys.w.nonblock) && sys.w.start == old(sys.w.start)
        invariant ReadSide() == old(ReadSide())
      {
        var n;
        n, out := FillTurn(data, done, sys0, trace0);
        if n == 0 {
          return;
        }
        done := done + n;
        Preempt();
      }
      LeaveFilling();
    }

    /** The update of the shadow and the register write, interrupts disabled. */
    method EnableTransmit()
      requires Valid() && Quiet() && sys.w.pc == WKick
      modifies this`irqWe, this`hwRe, this`hwWe, this`sys, this`trace
      ensures Valid() && Quiet() && old(trace) <= trace
      ensures sys.w == old(sys.w).(pc := WAfter, dirty := false)
      ensures ReadSide() == old(ReadSide())
      ensures irqWe && hwWe
    {
      hide OnRun, StepWriter;
      WriterKicks();
      irqWe := true;
      WriterSetsControl();
      hwRe, hwWe := irqRe, irqWe;
    }

    /** One look at the condition of the spin: no space freed and a host that is there. */
    method StillFull(out: Index) returns (waiting: bool)
      requires Valid() && Quiet() && sys.w.pc == WSpin && sys.w.out == out
      modifies this`sys, this`trace
      ensures Valid() && Quiet() && old(trace) <= trace
      ensures sys.w == old(sys.w).(pc := if waiting then WSpin else WCheck)
      ensures waiting == (out == txOut && hostInactive < timeout)
      ensures ReadSide() == old(ReadSide())
    {
      hide Inv, IsRun;
      TakeWriter();
      waiting := out == txOut && hostInactive < timeout;
    }

    /** The spin for space, given up after the given number of looks. */
    method AwaitRoom(out: Index, patience: nat) returns (waiting: bool, left: nat)
      requires Valid() && Quiet() && sys.w.pc == WSpin && sys.w.out == out
      modifies this, rxBuf, txBuf
      ensures Valid() && Quiet() && old(trace) <= trace
      ensures sys.w == old(sys.w).(pc := if waiting then WSpin else WCheck)
      ensures waiting ==> out == txOut && hostInactive < timeout
      ensures left <= patience && ReadSide() == old(ReadSide())
    {
      hide Valid;
      left := patience;
      waiting := StillFull(out);
      while waiting && left > 0
        invariant Valid() && Quiet() && old(trace) <= trace
        invariant sys.w == old(sys.w).(pc := if waiting then WSpin else WCheck)
        invariant waiting ==> out == txOut && hostInactive < timeout
        invariant left <= patience && ReadSide() == old(ReadSide())
      {
        left := left - 1;
        Preempt();
        waiting := StillFull(out);
      }
    }

    /** Has the host been inactive when the spin ended? */
    method HostGone() returns (gone: bool)
      requires Valid() && Quiet() && sys.w.pc == WCheck
      modifies this`sys, this`trace
      ensures Valid() && Quiet() && old(trace) <= trace
      ensures sys.w == old(sys.w).(pc := if gone then WReturn else WTest)
      ensures gone == (hostInactive != 0)
      ensures ReadSide() == old(ReadSide())
    {
      hide Inv, IsRun;
      TakeWriter();
      gone := hostInactive != 0;
    }

    lemma ValidRun()
      requires Valid()
      ensures IsRun(Init(timeout), trace, sys)
    {
    }

    /** Everything recorded when the trace was shorter is still recorded. */
    lemma Appends(sys0: Sys, trace0: seq<Action>)
      requires Valid() && IsRun(Init(timeout), trace0, sys0) && trace0 <= trace
      ensures StreamsGrow(sys0.g, sys.g)
      ensures sys0.d.hostInactive == 0 && HostActiveSince(trace, |trace0|) ==> hostInactive == 0
    {
      hide Inv, IsRun, Init, StreamsGrow;
      ghost var rest := trace[|trace0|..];
      assert trace == trace0 + rest;
      RunSplits(Init(timeout), trace0, sys0, rest, sys);
      RunAppends(sys0, rest, sys);
      if sys0.d.hostInactive == 0 && HostActiveSince(trace, |trace0|) {
        assert HostActiveSince(rest, 0);
        HostStaysActive(sys0, rest, sys);
      }
    }

    /** What is stored in each ring is the difference of two streams. */
    lemma Counts()
      requires Valid() && Quiet()
      ensures |sys.g.accepted| == |sys.g.sent| + Used(txOut, txIn)
      ensures |sys.g.taken| == |sys.g.delivered| + Used(rxOut, rxIn)
    {
      hide IsRun, WakeInv, WriterCount, WriterSnapshots, WriterBlock, ReaderCount, ReaderSnapshots, ReaderBlock;
      FullMeansOneSlotLeft(sys.d.txBuf, txOut, txIn);
      FullMeansOneSlotLeft(sys.d.rxBuf, rxOut, rxIn);
      hide Contents;
    }

    /** The ring holds no more than what was not yet sent when the trace was shorter. */
    lemma RoomSeen(sys0: Sys, trace0: seq<Action>)
      requires Valid() && Quiet() && sys.w.pc != WIdle && IsRun(Init(timeout), trace0, sys0) && trace0 <= trace
      ensures |sys0.g.sent| + Used(txOut, txIn) <= sys.w.start + sys.w.done
    {
      Counts();
      WaitingWriter();
      Appends(sys0, trace0);
      hide Valid, IsRun, Init;
    }

    /** The ring holds at least what had arrived in it when the trace was shorter. */
    lemma DataSeen(sys0: Sys, trace0: seq<Action>)
      requires Valid() && Quiet() && sys.r.pc != RIdle && IsRun(Init(timeout), trace0, sys0) && trace0 <= trace
      ensures |sys0.g.taken| <= sys.r.start + sys.r.done + Used(rxOut, rxIn)
    {
      Counts();
      WaitingReader();
      Appends(sys0, trace0);
      hide Valid, IsRun, Init;
    }

    ghost method BeginWrite(data: seq<Byte>, nonblock: bool)
      requires Valid() && Quiet() && sys.w.pc == WIdle
      modifies this`sys, this`trace
      ensures Valid() && Quiet() && trace == old(trace) + [CallWrite(data, nonblock)]
      ensures sys.w == Writer(WTest, data, nonblock, 0, old(sys.w.in_), 0, 0, 0, false, |old(sys.g.accepted)|)
      ensures sys.d == old(sys.d) && sys.g == old(sys.g) && ReadSide() == old(ReadSide())
    {
      hide Inv, IsRun;
      Take(CallWrite(data, nonblock));
    }

    /** The call is over: its bytes, and no others, have been appended to the accepted stream. */
    ghost method EndWrite()
      requires Valid() && Quiet() && sys.w.pc == WReturn
      modifies this`sys, this`trace
      ensures Valid() && Quiet() && old(trace) <= trace
      ensures sys.w == old(sys.w).(pc := WIdle)
      ensures sys.g == old(sys.g) && ReadSide() == old(ReadSide())
      ensures sys.w.done <= |sys.w.data| && sys.w.start + sys.w.done == |sys.g.accepted|
      ensures EndsWith(sys.g.accepted, sys.w.start, sys.w.data[..sys.w.done])
    {
      hide IsRun, TxStream, RxInv, WakeInv;
      Take(WriteReturns);
    }

    /** A writer that waits has accepted what it has published. */
    lemma WaitingWriter()
      requires Valid() && sys.w.pc != WIdle
      ensures sys.w.done <= |sys.w.data| && EndsWith(sys.g.accepted, sys.w.start, sys.w.data[..sys.w.done])
    {
      hide IsRun, TxStream, RxInv, WakeInv;
    }

    /** One turn of the outer loop, up to the decision whether to wait. */
    method Attempt(data: seq<Byte>, nonblock: bool, ghost start: nat, from: nat, lastOut: Index,
                   ghost sys0: Sys, ghost trace0: seq<Action>)
      returns (done: nat, out: Index, finished: bool)
      requires Valid() && Quiet() && Writing(WTest, data, nonblock, start, from)
      requires from <= |data| && sys.w.out == lastOut
      requires IsRun(Init(timeout), trace0, sys0) && trace0 <= trace
      modifies this, rxBuf, txBuf
      ensures Valid() && Quiet() && old(trace) <= trace
      ensures done <= |data| && finished == (done == |data| || nonblock)
      ensures Writing(if finished then WReturn else WSpin, data, nonblock, start, done) && sys.w.out == out
      ensures done == |data| || start + done >= BUF_LEN - 1 + |sys0.g.sent|
      ensures ReadSide() == old(ReadSide())
    {
      hide Valid, IsRun, Init;
      Preempt();
      done, out := FillRing(data, from, lastOut, sys0, trace0);
      Preempt();
      EnableTransmit();
      Preempt();
      finished := Finished(|data| - done, nonblock);
    }

    /** Waits for space and looks whether the host is there; no outcome if out of patience. */
    method WaitForRoom(data: seq<Byte>, ghost start: nat, done: nat, out: Index, patience: nat)
      returns (waiting: bool, gone: bool, left: nat)
      requires Valid() && Quiet() && Writing(WSpin, data, false, start, done) && sys.w.out == out
      modifies this, rxBuf, txBuf
      ensures Valid() && Quiet() && old(trace) <= trace
      ensures sys.w.out == out && ReadSide() == old(ReadSide())
      ensures if waiting then
                && (Writing(WSpin, data, false, start, done) || Writing(WCheck, data, false, start, done))
                && (sys.w.pc == WSpin ==> out == txOut && hostInactive < timeout)
              else
                && left < patience && Writing(if gone then WReturn else WTest, data, false, start, done)
                && gone == (hostInactive != 0)
    {
      hide Valid;
      gone := false;
      waiting, left := AwaitRoom(out, patience);
      if waiting || left == 0 {
        return true, false, 0;
      }
      left := left - 1;
      Preempt();
      gone := HostGone();
    }

    /** The outer loop.  Leaves the writer ready to return, unless it is still waiting.  What there
        was room for at the start has been accepted, and a blocking call that ends with less than
        all has found the host inactive. */
    method WriteAll(data: seq<Byte>, nonblock: bool, ghost start: nat, patience: nat) returns (done: nat, waiting: bool)
      requires Valid() && Quiet() && Writing(WTest, data, nonblock, start, 0) && sys.w.out == 0
      modifies this, rxBuf, txBuf
      ensures Valid() && Quiet() && old(trace) <= trace
      ensures !waiting ==> Writing(WReturn, data, nonblock, start, done)
      ensures waiting ==>
                && !nonblock && done < |data|
                && (Writing(WSpin, data, nonblock, start, done) || Writing(WCheck, data, nonblock, start, done))
                && (sys.w.pc == WSpin ==> sys.w.out == txOut && hostInactive < timeout)
      ensures done == |data| || start + done >= BUF_LEN - 1 + |old(sys.g.sent)|
      ensures !waiting && !nonblock && done < |data| ==> FoundInactive(old(sys), |old(trace)|, trace)
      ensures ReadSide() == old(ReadSide())
    {
      ghost var sys0, trace0 := sys, trace;
      assert IsRun(Init(timeout), trace0, sys0) by { ValidRun(); }
      hide Valid, IsRun, Init, FoundInactive, Writing, ReadSide;
      var out: Index, left := 0, patience;
      done := 0;
      while true
        invariant Valid() && Quiet() && old(trace) <= trace
        invariant Writing(WTest, data, nonblock, start, done) && sys.w.out == out && done <= |data|
        invariant ReadSide() == old(ReadSide())
        decreases left
      {
        var finished, gone;
        done, out, finished := Attempt(data, nonblock, start, done, out, sys0, trace0);
        if finished {
          return done, false;
        }
        waiting, gone, left := WaitForRoom(data, start, done, out, left);
        if waiting {
          return done, true;
        }
        if gone {
          FoundGone(sys0, trace0);
          return done, false;
        }
      }
    }

    lemma FoundGone(sys0: Sys, trace0: seq<Action>)
      requires Valid() && IsRun(Init(timeout), trace0, sys0) && trace0 <= trace && hostInactive != 0
      ensures FoundInactive(sys0, |trace0|, trace)
    {
      Appends(sys0, trace0);
    }

    /** A write up to its return value. */
    method WriteBytes(data: seq<Byte>, nonblock: bool, patience: nat) returns (done: nat, waiting: bool)
      requires Valid() && Quiet() && sys.w.pc == WIdle
      modifies this, rxBuf, txBuf
      ensures Valid() && Quiet() && old(trace) + [CallWrite(data, nonblock)] <= trace
      ensures ReadSide() == old(ReadSide())
      ensures done <= |data| && EndsWith(sys.g.accepted, |old(sys.g.accepted)|, data[..done])
      ensures if waiting then !nonblock && sys.w.done == done < |data| else sys.w.pc == WIdle
      ensures waiting && sys.w.pc == WSpin ==> sys.w.out == txOut && hostInactive < timeout
      ensures done == |data| || |old(sys.g.accepted)| + done >= BUF_LEN - 1 + |old(sys.g.sent)|
      ensures !waiting && !nonblock && done < |data| ==> FoundInactive(old(sys), |old(trace)|, trace)
    {
      hide Valid, FoundInactive, EndsWith;
      BeginWrite(data, nonblock);
      ghost var sys1, start := sys, |trace|;
      done, waiting := WriteAll(data, nonblock, |old(sys.g.accepted)|, patience);
      if waiting {
        WaitingWriter();
      } else {
        ghost var trace1 := trace;
        EndWrite();
        if !nonblock && done < |data| {
          FoundInactiveWidens(old(sys), |old(trace)|, trace, sys1, start, trace1);
        }
      }
    }

    /** altera_avalon_jtag_uart_write.  The bytes reported, and no others, have been accepted: as
        many as there was room for, at least.  A blocking call falls short only if the host is
        found inactive. */
    method Write(data: seq<Byte>, nonblock: bool, patience: nat) returns (outcome: Outcome)
      requires Valid() && Quiet() && sys.w.pc == WIdle
      modifies this, rxBuf, txBuf
      ensures Valid() && Quiet() && old(trace) + [CallWrite(data, nonblock)] <= trace
      ensures ReadSide() == old(ReadSide())
      ensures if outcome.Returned? then sys.w.pc == WIdle
              else !nonblock && sys.w.done < |data| && sys.g.accepted == old(sys.g.accepted) + data[..sys.w.done]
      ensures outcome == Returned(WouldBlock) ==> nonblock && sys.g.accepted == old(sys.g.accepted)
      ensures outcome == Returned(IoError) ==> !nonblock && sys.g.accepted == old(sys.g.accepted)
      ensures outcome.Returned? && outcome.result.Count? ==>
                var n := outcome.result.n;
                0 < n <= |data| && sys.g.accepted == old(sys.g.accepted) + data[..n]
      ensures |sys.g.accepted| >= |old(sys.g.accepted)| + Min(|data|, BUF_LEN - 1 - old(Used(txOut, txIn)))
      ensures outcome.Returned? && !nonblock && data != [] && outcome.result != Count(|data|) ==>
                FoundInactive(old(sys), |old(trace)|, trace)
      ensures outcome == StillWaiting && sys.w.pc == WSpin ==> sys.w.out == txOut && hostInactive < timeout
    {
      ghost var sys0, trace0 := sys, trace;
      assert IsRun(Init(timeout), trace0, sys0) by { ValidRun(); }
      Counts();
      hide Valid, IsRun, Init, FoundInactive, ReadSide, Used;
      var done, waiting := WriteBytes(data, nonblock, patience);
      Appends(sys0, trace0);
      Grown(sys0.g.accepted, sys.g.accepted, data[..done]);
      if waiting {
        outcome := StillWaiting;
      } else if done != 0 {
        outcome := Returned(Count(done));
      } else if nonblock {
        outcome := Returned(WouldBlock);
      } else {
        outcome := Returned(IoError);
      }
    }

    // -------------------------------------------------------------- read

    /** The reader stands at pc in a call that has released done bytes and may take space more. */
    ghost predicate Reading(pc: ReaderPc, nonblock: bool, start: nat, done: nat, space: nat)
      reads this
    {
      sys.r.pc == pc && sys.r.nonblock == nonblock && sys.r.start == start && sys.r.done == done && sys.r.space == space
    }

    /** What a read leaves alone. */
    ghost function WriteSide(): (Writer, Index, seq<Byte>)
      reads this
    {
      (sys.w, txIn, sys.g.accepted)
    }

    method LoadRxIn() returns (in_: Index)
      requires Valid() && Quiet() && sys.r.pc == RLoadIn
      modifies this`sys, this`trace
      ensures Valid() && Quiet() && old(trace) <= trace
      ensures sys.r == old(sys.r).(pc := RLoadOut, in_ := in_) && in_ == rxIn
      ensures WriteSide() == old(WriteSide())
    {
      hide Inv, IsRun;
      TakeReader();
      in_ := rxIn;
    }

    method LoadRxOut() returns (out: Index)
      requires Valid() && Quiet() && sys.r.pc == RLoadOut
      modifies this`sys, this`trace
      ensures Valid() && Quiet() && old(trace) <= trace
      ensures sys.r == old(sys.r).(pc := RAmount, out := out) && out == rxOut
      ensures WriteSide() == old(WriteSide())
    {
      hide Inv, IsRun;
      TakeReader();
      out := rxOut;
    }

    /** The size of the next block, zero if the ring is empty. */
    method MeasureData(in_: Index, out: Index, space: nat) returns (n: nat)
      requires Valid() && Quiet() && sys.r.pc == RAmount && sys.r.in_ == in_ && sys.r.out == out
      requires 0 < space == sys.r.space
      modifies this`sys, this`trace
      ensures Valid() && Quiet() && old(trace) <= trace
      ensures n <= space && out + n <= BUF_LEN
      ensures n == 0 ==> in_ == out && sys.r == old(sys.r).(pc := RAfter)
      ensures n > 0 ==> sys.r == old(sys.r).(pc := RCopy, n := n, k := 0)
      ensures WriteSide() == old(WriteSide())
    {
      hide Inv, IsRun;
      TakeReader();
      n := Min(Available(in_, out), space);
    }

    method CopyOutByte(slot: Index) returns (b: Byte)
      requires Valid() && Quiet() && sys.r.pc == RCopy && slot == sys.r.out + sys.r.k
      modifies this`sys, this`trace
      ensures Valid() && Quiet() && old(trace) <= trace
      ensures sys.r == old(sys.r).(got := old(sys.r.got) + [b], k := old(sys.r.k) + 1,
                                   pc := if old(sys.r.k) + 1 < sys.r.n then RCopy else RRelease)
      ensures WriteSide() == old(WriteSide())
    {
      hide Inv, IsRun;
      TakeReader();
      b := rxBuf[slot];
    }

    /** The block copy out of the receive buffer. */
    method CopyOut(buffer: array<Byte>, done: nat, out: Index, n: nat)
      requires Valid() && Quiet() && sys.r.pc == RCopy
      requires sys.r.out == out && sys.r.n == n && sys.r.k == 0
      requires 0 < n && out + n <= BUF_LEN && done + n <= buffer.Length
      requires buffer != rxBuf && buffer != txBuf && sys.r.got == buffer[..done]
      modifies this, rxBuf, txBuf, buffer
      ensures Valid() && Quiet() && old(trace) <= trace
      ensures sys.r == old(sys.r).(pc := RRelease, k := n, got := buffer[..done + n])
      ensures WriteSide() == old(WriteSide())
    {
      hide Valid;
      var k := 0;
      while k < n
        invariant Valid() && Quiet() && old(trace) <= trace
        invariant k <= n
        invariant sys.r == old(sys.r).(pc := if k < n then RCopy else RRelease, k := k, got := buffer[..done + k])
        invariant WriteSide() == old(WriteSide())
      {
        var b := CopyOutByte(out + k);
        buffer[done + k] := b;
        assert buffer[..done + k + 1] == sys.r.got;
        k := k + 1;
        Preempt();
      }
    }

    /** The slots just copied are given back to the interrupt routine. */
    method ReleaseBlock(out: Index, n: nat)
      requires Valid() && Quiet() && sys.r.pc == RRelease && sys.r.out == out && sys.r.n == n <= sys.r.space
      modifies this`rxOut, this`sys, this`trace
      ensures Valid() && Quiet() && old(trace) <= trace
      ensures sys.r == old(sys.r).(pc := if old(sys.r.space) > n then RLoadIn else RAfter, k := 0,
                                   space := old(sys.r.space) - n, done := old(sys.r.done) + n)
      ensures WriteSide() == old(WriteSide())
    {
      hide Inv, IsRun;
      TakeReader();
      rxOut := Advance(out, n);
    }

    /** The two snapshots; an interrupt may come in between.  They show at least what had been
        received when the trace was shorter. */
    method Snapshot(ghost sys0: Sys, ghost trace0: seq<Action>) returns (in_: Index, out: Index)
      requires Valid() && Quiet() && sys.r.pc == RLoadIn
      requires IsRun(Init(timeout), trace0, sys0) && trace0 <= trace
      modifies this, rxBuf, txBuf
      ensures Valid() && Quiet() && old(trace) <= trace
      ensures sys.r == old(sys.r).(pc := RAmount, in_ := in_, out := out) && out == rxOut
      ensures |sys0.g.taken| <= sys.r.start + sys.r.done + Used(out, in_)
      ensures WriteSide() == old(WriteSide())
    {
      hide Valid, IsRun, Init;
      in_ := LoadRxIn();
      DataSeen(sys0, trace0);
      Preempt();
      out := LoadRxOut();
    }

    /** One block, or nothing if the ring is empty. */
    method TakeBlock(buffer: array<Byte>, done: nat, ghost sys0: Sys, ghost trace0: seq<Action>)
      returns (in_: Index, n: nat)
      requires Valid() && Quiet() && sys.r.pc == RLoadIn && sys.r.done == done
      requires IsRun(Init(timeout), trace0, sys0) && trace0 <= trace
      requires done < buffer.Length && sys.r.space == buffer.Length - done
      requires buffer != rxBuf && buffer != txBuf && sys.r.got == buffer[..done]
      modifies this, rxBuf, txBuf, buffer
      ensures Valid() && Quiet() && old(trace) <= trace
      ensures n <= buffer.Length - done && sys.r.got == buffer[..done + n]
      ensures Reading(if n == 0 || done + n == buffer.Length then RAfter else RLoadIn,
                      old(sys.r.nonblock), old(sys.r.start), done + n, buffer.Length - done - n)
      ensures sys.r.in_ == in_ && (n == 0 ==> in_ == rxOut && sys.r.start + done >= |sys0.g.taken|)
      ensures WriteSide() == old(WriteSide())
    {
      hide Valid, IsRun, Init;
      var out;
      in_, out := Snapshot(sys0, trace0);
      Preempt();
      n := MeasureData(in_, out, buffer.Length - done);
      if n > 0 {
        Preempt();
        CopyOut(buffer, done, out, n);
        Preempt();
        ReleaseBlock(out, n);
      }
    }

    /** Take as much as the ring holds: a full buffer, or all that had been received when the trace
        was shorter. */
    method DrainRing(buffer: array<Byte>, from: nat, ghost sys0: Sys, ghost trace0: seq<Action>)
      returns (done: nat, in_: Index)
      requires Valid() && Quiet() && sys.r.pc == RLoadIn && sys.r.done == from
      requires IsRun(Init(timeout), trace0, sys0) && trace0 <= trace
      requires from < buffer.Length && sys.r.space == buffer.Length - from
      requires buffer != rxBuf && buffer != txBuf && sys.r.got == buffer[..from]
      modifies this, rxBuf, txBuf, buffer
      ensures Valid() && Quiet() && old(trace) <= trace
      ensures done <= buffer.Length && sys.r.got == buffer[..done]
      ensures Reading(RAfter, old(sys.r.nonblock), old(sys.r.start), done, buffer.Length - done)
      ensures sys.r.in_ == in_ && from <= done
      ensures done < buffer.Length ==> in_ == rxOut && sys.r.start + done >= |sys0.g.taken|
      ensures WriteSide() == old(WriteSide())
    {
      hide Valid, IsRun, Init;
      done := from;
      while true
        invariant Valid() && Quiet() && old(trace) <= trace
        invariant from <= done < buffer.Length && sys.r.got == buffer[..done]
        invariant Reading(RLoadIn, old(sys.r.nonblock), old(sys.r.start), done, buffer.Length - done)
        invariant WriteSide() == old(WriteSide())
        decreases buffer.Length - done
      {
        var n;
        in_, n := TakeBlock(buffer, done, sys0, trace0);
        done := done + n;
        if n == 0 || done == buffer.Length {
          return;
        }
        Preempt();
      }
    }

    /** The condition of the outer loop. */
    method WantsMore(space: nat) returns (more: bool)
      requires Valid() && Quiet() && sys.r.pc == RTest && sys.r.space == space
      modifies this`sys, this`trace
      ensures Valid() && Quiet() && old(trace) <= trace
      ensures more == (space > 0) && sys.r == old(sys.r).(pc := if more then RLoadIn else RExit)
      ensures WriteSide() == old(WriteSide())
    {
      hide Inv, IsRun;
      TakeReader();
      more := space > 0;
    }

    /** Is there something to return, or nothing to wait for? */
    method Satisfied(done: nat, nonblock: bool) returns (yes: bool)
      requires Valid() && Quiet() && sys.r.pc == RAfter && sys.r.done == done && sys.r.nonblock == nonblock
      modifies this`sys, this`trace
      ensures Valid() && Quiet() && old(trace) <= trace
      ensures yes == (done != 0 || nonblock) && sys.r == old(sys.r).(pc := if yes then RExit else RSpin)
      ensures WriteSide() == old(WriteSide())
    {
      hide Inv, IsRun;
      TakeReader();
      yes := done != 0 || nonblock;
    }

    /** One look at the condition of the spin: nothing received and a host that is there. */
    method StillEmpty(in_: Index) returns (waiting: bool)
      requires Valid() && Quiet() && sys.r.pc == RSpin && sys.r.in_ == in_
      modifies this`sys, this`trace
      ensures Valid() && Quiet() && old(trace) <= trace
      ensures sys.r == old(sys.r).(pc := if waiting then RSpin else RCheck)
      ensures waiting == (in_ == rxIn && hostInactive < timeout)
      ensures WriteSide() == old(WriteSide())
    {
      hide Inv, IsRun;
      TakeReader();
      waiting := in_ == rxIn && hostInactive < timeout;
    }

    /** The spin for data, given up after the given number of looks. */
    method AwaitData(in_: Index, patience: nat) returns (waiting: bool, left: nat)
      requires Valid() && Quiet() && sys.r.pc == RSpin && sys.r.in_ == in_
      modifies this, rxBuf, txBuf
      ensures Valid() && Quiet() && old(trace) <= trace
      ensures sys.r == old(sys.r).(pc := if waiting then RSpin else RCheck)
      ensures waiting == (in_ == rxIn && hostInactive < timeout) && rxOut == old(rxOut)
      ensures left <= patience && WriteSide() == old(WriteSide())
    {
      hide Valid;
      left := patience;
      waiting := StillEmpty(in_);
      while waiting && left > 0
        invariant Valid() && Quiet() && old(trace) <= trace
        invariant sys.r == old(sys.r).(pc := if waiting then RSpin else RCheck)
        invariant waiting == (in_ == rxIn && hostInactive < timeout) && rxOut == old(rxOut)
        invariant left <= patience && WriteSide() == old(WriteSide())
      {
        left := left - 1;
        Preempt();
        waiting := StillEmpty(in_);
      }
    }

    /** Did the spin end without new data? */
    method NothingNew(in_: Index) returns (none: bool)
      requires Valid() && Quiet() && sys.r.pc == RCheck && sys.r.in_ == in_
      modifies this`sys, this`trace
      ensures Valid() && Quiet() && old(trace) <= trace
      ensures sys.r == old(sys.r).(pc := if none then RExit else RTest)
      ensures none == (in_ == rxIn)
      ensures WriteSide() == old(WriteSide())
    {
      hide Inv, IsRun;
      TakeReader();
      none := in_ == rxIn;
    }

    /** Freed space means that more bytes may come in. */
    method EnableReceive(done: nat)
      requires Valid() && Quiet() && sys.r.pc == RExit && sys.r.done == done
      modifies this`irqRe, this`hwRe, this`hwWe, this`sys, this`trace
      ensures Valid() && Quiet() && old(trace) <= trace
      ensures sys.r == old(sys.r).(pc := RReturn)
      ensures WriteSide() == old(WriteSide())
      ensures if done != 0 then irqRe && hwRe else irqRe == old(irqRe) && hwRe == old(hwRe)
    {
      hide OnRun, StepReader;
      if done != 0 {
        ReaderReenables();
        irqRe := true;
        ReaderSetsControl();
        hwRe, hwWe := irqRe, irqWe;
      } else {
        ReaderLeaves();
      }
    }

    ghost method BeginRead(space: nat, nonblock: bool)
      requires Valid() && Quiet() && sys.r.pc == RIdle
      modifies this`sys, this`trace
      ensures Valid() && Quiet() && trace == old(trace) + [CallRead(space, nonblock)]
      ensures Reading(RTest, nonblock, |old(sys.g.delivered)|, 0, space) && sys.r.got == []
      ensures sys.d == old(sys.d) && sys.g == old(sys.g) && WriteSide() == old(WriteSide())
    {
      hide Inv, IsRun;
      Take(CallRead(space, nonblock));
    }

    /** The call is over: the caller's bytes, and no others, have been appended to the delivered stream. */
    ghost method EndRead()
      requires Valid() && Quiet() && sys.r.pc == RReturn
      modifies this`sys, this`trace
      ensures Valid() && Quiet() && old(trace) <= trace
      ensures sys.r == old(sys.r).(pc := RIdle)
      ensures sys.g == old(sys.g) && WriteSide() == old(WriteSide())
      ensures sys.r.done == |sys.r.got|
      ensures EndsWith(sys.g.delivered, sys.r.start, sys.r.got)
    {
      hide IsRun, RxStream, TxInv, WakeInv;
      assert sys.r.got[..|sys.r.got|] == sys.r.got;
      Take(ReadReturns);
    }

    /** One turn of the outer loop, up to the decision whether to wait. */
    method ReadTurn(buffer: array<Byte>, nonblock: bool, ghost start: nat, ghost sys0: Sys, ghost trace0: seq<Action>)
      returns (done: nat, in_: Index, finished: bool)
      requires Valid() && Quiet() && Reading(RTest, nonblock, start, 0, buffer.Length) && sys.r.got == []
      requires buffer != rxBuf && buffer != txBuf
      requires IsRun(Init(timeout), trace0, sys0) && trace0 <= trace
      modifies this, rxBuf, txBuf, buffer
      ensures Valid() && Quiet() && old(trace) <= trace
      ensures done <= buffer.Length && sys.r.got == buffer[..done] && (!finished ==> done == 0 && !nonblock)
      ensures Reading(if finished then RExit else RSpin, nonblock, start, done, buffer.Length - done)
      ensures !finished ==> sys.r.in_ == in_ == rxOut
      ensures finished ==> nonblock || done > 0 || buffer.Length == 0
      ensures done == buffer.Length || start + done >= |sys0.g.taken|
      ensures WriteSide() == old(WriteSide())
    {
      hide Valid, IsRun, Init;
      Preempt();
      var more := WantsMore(buffer.Length);
      if !more {
        return 0, 0, true;
      }
      Preempt();
      done, in_ := DrainRing(buffer, 0, sys0, trace0);
      finished := Satisfied(done, nonblock);
    }

    /** Waits for data and looks whether there is any; no outcome if out of patience. */
    method WaitForData(ghost start: nat, space: nat, in_: Index, patience: nat,
                       ghost sys0: Sys, ghost trace0: seq<Action>)
      returns (waiting: bool, none: bool, left: nat)
      requires Valid() && Quiet() && Reading(RSpin, false, start, 0, space) && sys.r.got == []
      requires sys.r.in_ == in_ == rxOut && IsRun(Init(timeout), trace0, sys0) && trace0 <= trace
      modifies this, rxBuf, txBuf
      ensures Valid() && Quiet() && old(trace) <= trace
      ensures WriteSide() == old(WriteSide()) && sys.r.got == []
      ensures if waiting then
                Reading(RSpin, false, start, 0, space) || Reading(RCheck, false, start, 0, space)
              else
                left < patience && Reading(if none then RExit else RTest, false, start, 0, space)
      ensures waiting && sys.r.pc == RSpin ==> sys.r.in_ == rxIn && hostInactive < timeout
      ensures !waiting && none && timeout > 0 ==> FoundInactive(sys0, |trace0|, trace)
    {
      hide Valid, IsRun, Init, FoundInactive;
      none := false;
      waiting, left := AwaitData(in_, patience);
      if waiting || left == 0 {
        return true, false, 0;
      }
      left := left - 1;
      ghost var gone, trace1 := hostInactive != 0, trace;
      if gone {
        FoundGone(sys0, trace0);
      }
      KeepData();
      none := NothingNew(in_);
      if gone {
        FoundInactiveWidens(sys0, |trace0|, trace, sys0, |trace0|, trace1);
      }
    }

    /** Interrupts do not empty the receive ring. */
    method KeepData()
      requires Valid() && Quiet()
      modifies this, rxBuf, txBuf
      ensures Valid() && Quiet() && old(trace) <= trace
      ensures Foreground() == old(Foreground())
      ensures old(rxOut != rxIn) ==> rxOut != rxIn
    {
      ghost var sys1, trace1 := sys, trace;
      ValidRun();
      Counts();
      hide Valid, IsRun, Init;
      Preempt();
      Appends(sys1, trace1);
      Counts();
    }

    /** The outer loop.  Leaves the reader ready to return, unless it is still waiting.  What the
        ring held at the start has been taken, and a blocking call that ends with nothing has
        found the host inactive. */
    method ReadAll(buffer: array<Byte>, nonblock: bool, ghost start: nat, patience: nat)
      returns (done: nat, waiting: bool)
      requires Valid() && Quiet() && Reading(RTest, nonblock, start, 0, buffer.Length) && sys.r.got == []
      requires buffer != rxBuf && buffer != txBuf
      modifies this, rxBuf, txBuf, buffer
      ensures Valid() && Quiet() && old(trace) <= trace
      ensures !waiting ==>
                && done <= buffer.Length
                && Reading(RExit, nonblock, start, done, buffer.Length - done)
                && sys.r.got == buffer[..done]
      ensures waiting ==>
                && !nonblock && done == 0 && sys.r.got == []
                && (Reading(RSpin, false, start, 0, buffer.Length) || Reading(RCheck, false, start, 0, buffer.Length))
                && (sys.r.pc == RSpin ==> sys.r.in_ == rxIn && hostInactive < timeout)
      ensures done == buffer.Length || start + done >= |old(sys.g.taken)|
      ensures !waiting && !nonblock && done == 0 && buffer.Length > 0 && timeout > 0 ==>
                FoundInactive(old(sys), |old(trace)|, trace)
      ensures WriteSide() == old(WriteSide())
    {
      ghost var sys0, trace0 := sys, trace;
      assert IsRun(Init(timeout), trace0, sys0) by { ValidRun(); }
      hide Valid, IsRun, Init, FoundInactive, Reading, WriteSide;
      var left := patience;
      while true
        invariant Valid() && Quiet() && old(trace) <= trace
        invariant Reading(RTest, nonblock, start, 0, buffer.Length) && sys.r.got == []
        invariant WriteSide() == old(WriteSide())
        decreases left
      {
        var in_, finished, none;
        done, in_, finished := ReadTurn(buffer, nonblock, start, sys0, trace0);
        if finished {
          return done, false;
        }
        waiting, none, left := WaitForData(start, buffer.Length, in_, left, sys0, trace0);
        if waiting {
          return 0, true;
        }
        if none {
          return 0, false;
        }
      }
    }

    /** A read up to its return value; the buffer holds exactly the bytes newly delivered. */
    method ReadBytes(buffer: array<Byte>, nonblock: bool, patience: nat) returns (done: nat, waiting: bool)
      requires Valid() && Quiet() && sys.r.pc == RIdle
      requires buffer != rxBuf && buffer != txBuf
      modifies this, rxBuf, txBuf, buffer
      ensures Valid() && Quiet() && old(trace) + [CallRead(buffer.Length, nonblock)] <= trace
      ensures WriteSide() == old(WriteSide())
      ensures done <= buffer.Length && (waiting ==> !nonblock && done == 0)
      ensures !waiting ==> sys.r.pc == RIdle
      ensures EndsWith(sys.g.delivered, |old(sys.g.delivered)|, buffer[..done])
      ensures waiting && sys.r.pc == RSpin ==> sys.r.in_ == rxIn && hostInactive < timeout
      ensures done == buffer.Length || |old(sys.g.delivered)| + done >= |old(sys.g.taken)|
      ensures !waiting && !nonblock && done == 0 && buffer.Length > 0 && timeout > 0 ==>
                FoundInactive(old(sys), |old(trace)|, trace)
    {
      hide Valid, EndsWith, FoundInactive;
      BeginRead(buffer.Length, nonblock);
      ghost var sys1, start := sys, |trace|;
      done, waiting := ReadAll(buffer, nonblock, |old(sys.g.delivered)|, patience);
      if !waiting {
        ghost var trace1 := trace;
        Preempt();
        EnableReceive(done);
        Preempt();
        EndRead();
        if !nonblock && done == 0 && buffer.Length > 0 && timeout > 0 {
          FoundInactiveWidens(old(sys), |old(trace)|, trace, sys1, start, trace1);
        }
      } else {
        WaitingReader();
      }
    }

    /** A reader that waits has been given what it has released. */
    lemma WaitingReader()
      requires Valid() && sys.r.pc != RIdle
      ensures sys.r.done <= |sys.r.got| && EndsWith(sys.g.delivered, sys.r.start, sys.r.got[..sys.r.done])
    {
      hide IsRun, RxStream, TxInv, WakeInv;
    }

    /** altera_avalon_jtag_uart_read.  The buffer holds exactly the bytes newly delivered: at least
        what the ring held, as far as it fits.  A blocking call comes back with nothing only if the
        host is found inactive. */
    method Read(buffer: array<Byte>, nonblock: bool, patience: nat) returns (outcome: Outcome)
      requires Valid() && Quiet() && sys.r.pc == RIdle
      requires buffer != rxBuf && buffer != txBuf
      modifies this, rxBuf, txBuf, buffer
      ensures Valid() && Quiet() && old(trace) + [CallRead(buffer.Length, nonblock)] <= trace
      ensures WriteSide() == old(WriteSide())
      ensures if outcome.Returned? then sys.r.pc == RIdle else !nonblock && sys.g.delivered == old(sys.g.delivered)
      ensures outcome == Returned(WouldBlock) ==> nonblock && sys.g.delivered == old(sys.g.delivered)
      ensures outcome == Returned(IoError) ==> !nonblock && sys.g.delivered == old(sys.g.delivered)
      ensures outcome.Returned? && outcome.result.Count? ==>
                var n := outcome.result.n;
                0 < n <= buffer.Length && sys.g.delivered == old(sys.g.delivered) + buffer[..n]
      ensures |sys.g.delivered| >= |old(sys.g.delivered)| + Min(buffer.Length, old(Used(rxOut, rxIn)))
      ensures outcome == Returned(IoError) && buffer.Length > 0 && timeout > 0 ==>
                FoundInactive(old(sys), |old(trace)|, trace)
      ensures outcome == StillWaiting && sys.r.pc == RSpin ==> sys.r.in_ == rxIn && hostInactive < timeout
    {
      ghost var sys0, trace0 := sys, trace;
      assert IsRun(Init(timeout), trace0, sys0) by { ValidRun(); }
      Counts();
      hide Valid, FoundInactive;
      var done, waiting := ReadBytes(buffer, nonblock, patience);
      Appends(sys0, trace0);
      hide IsRun, WriteSide, Used, Init;
      Grown(sys0.g.delivered, sys.g.delivered, buffer[..done]);
      if waiting {
        outcome := StillWaiting;
      } else if done != 0 {
        outcome := Returned(Count(done));
      } else if nonblock {
        outcome := Returned(WouldBlock);
      } else {
        outcome := Returned(IoError);
      }
    }

    // -------------------------------------------------------------- close

    /** altera_avalon_jtag_uart_close: success means that every accepted byte has been handed to
        the device, unless the host went away. */
    method Close(nonblock: bool, patience: nat) returns (outcome: Outcome)
      requires Valid() && Quiet()
      modifies this, rxBuf, txBuf
      ensures Valid() && Quiet() && old(trace) <= trace
      ensures Foreground() == old(Foreground())
      ensures outcome == Returned(Count(0)) ==> sys.g.accepted == sys.g.sent || hostInactive >= timeout
      ensures outcome == Returned(WouldBlock) ==> nonblock && sys.g.accepted != sys.g.sent && hostInactive < timeout
      ensures outcome == StillWaiting ==> !nonblock && sys.g.accepted != sys.g.sent && hostInactive < timeout
      ensures outcome.Returned? ==> outcome.result == Count(0) || outcome.result == WouldBlock
    {
      hide Valid;
      var left := patience;
      while txOut != txIn && hostInactive < timeout
        invariant Valid() && Quiet() && old(trace) <= trace
        invariant Foreground() == old(Foreground())
        decreases left
      {
        if nonblock {
          RingAndStream();
          return Returned(WouldBlock);
        }
        if left == 0 {
          RingAndStream();
          return StillWaiting;
        }
        left := left - 1;
        Preempt();
      }
      RingAndStream();
      return Returned(Count(0));
    }

    lemma RingAndStream()
      requires Valid() && Quiet()
      ensures txOut == txIn <==> sys.g.accepted == sys.g.sent
    {
      FullMeansOneSlotLeft(sys.d.txBuf, txOut, txIn);
    }
  }
}
