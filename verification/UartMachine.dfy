/** The fast JTAG UART driver as a step system.  A writer and a reader run in the
    foreground, the interrupt routine preempts them between any two steps, and the
    host and the hardware act at any time.  Every access to a shared variable,
    down to each byte of a block copy, is a step of its own. */
module UartMachine {
  import opened UartRing

  const WRITE_DEPTH: nat := 64
  const READ_DEPTH: nat := 64
  const INT_MAX: nat := 0x7FFF_FFFF

  /** The fields of altera_avalon_jtag_uart_state; re and we are the two bits of irq_enable. */
  datatype Driver = Driver(rxIn: Index, rxOut: Index, txIn: Index, txOut: Index,
                           rxBuf: Buffer, txBuf: Buffer, re: bool, we: bool,
                           hostInactive: nat, timeout: nat)

  /** The device: its own copy of the enable bits and its two FIFOs. */
  datatype Hardware = Hardware(re: bool, we: bool, rx: seq<Byte>, tx: seq<Byte>)

  /** What a read of the control register returns. */
  datatype Control = Control(ri: bool, wi: bool, wspace: nat)

  datatype WriterPc = WIdle | WTest | WLoadOut | WRoom | WCopy | WPublish | WKick | WShadow | WAfter
                    | WSpin | WCheck | WReturn

  /** done counts the bytes already published; start is where they begin in the accepted stream;
      dirty holds from the first publication until the transmit interrupt has been enabled. */
  datatype Writer = Writer(pc: WriterPc, data: seq<Byte>, nonblock: bool, done: nat,
                           in_: Index, out: Index, n: nat, k: nat, dirty: bool, start: nat)

  datatype ReaderPc = RIdle | RTest | RLoadIn | RLoadOut | RAmount | RCopy | RRelease | RAfter
                    | RSpin | RCheck | RExit | RShadow | RReturn

  /** got is the caller's buffer so far; done of its bytes have been released from the ring. */
  datatype Reader = Reader(pc: ReaderPc, got: seq<Byte>, nonblock: bool, space: nat, done: nat,
                           in_: Index, out: Index, n: nat, k: nat, start: nat)

  datatype IsrPc = IIdle | ILoad | IRxTest | IRxRead | IRxStore | IRxAdvance | IRxDone | IRxMask
                 | ITxStart | ITxTest | ITxAdvance | ITxDone | ITxMask

  datatype Isr = Isr(pc: IsrPc, wi: bool, space: nat, avail: bool, byte: Byte)

  /** The byte streams, each recorded where a byte crosses the named boundary. */
  datatype Streams = Streams(accepted: seq<Byte>, sent: seq<Byte>, received: seq<Byte>,
                             arrived: seq<Byte>, taken: seq<Byte>, delivered: seq<Byte>)

  datatype Sys = Sys(d: Driver, h: Hardware, w: Writer, r: Reader, i: Isr, g: Streams)

  datatype Action =
    | CallWrite(data: seq<Byte>, wNonblock: bool) | WriterStep | WriteReturns
    | CallRead(space: nat, rNonblock: bool) | ReaderStep | ReadReturns
    | Interrupt | IsrStep(control: Control)
    | HostSends(byte: Byte) | HostTakes | Alarm(active: bool)

  /** Result codes of the two calls. */
  datatype Result = Count(n: nat) | WouldBlock | IoError

  // ---------------------------------------------------------------- the writer

  /** Room computed from the two snapshots. */
  function Room(in_: Index, out: Index): nat {
    if in_ < out then out - 1 - in_
    else if out > 0 then BUF_LEN - in_
    else BUF_LEN - 1 - in_
  }

  function Min(a: nat, b: nat): nat {
    if a > b then b else a
  }

  function WriteResult(w: Writer): Result {
    if w.done != 0 then Count(w.done) else if w.nonblock then WouldBlock else IoError
  }

  predicate WriterMoves(s: Sys) {
    && s.i.pc == IIdle
    && s.r.pc != RShadow
    && s.w.pc != WIdle
    && s.w.pc != WReturn
    && WriterInBounds(s.w)
  }

  /** The block copy stays inside both the ring and the caller's data. */
  predicate WriterInBounds(w: Writer) {
    && w.done <= |w.data|
    && (w.pc == WCopy ==> w.in_ + w.k < BUF_LEN && w.done + w.k < |w.data|)
    && (w.pc == WPublish ==> w.done + w.n <= |w.data|)
  }

  function StepWriter(s: Sys): Sys
    requires WriterMoves(s)
  {
    var w, d := s.w, s.d;
    match w.pc
    case WIdle => s
    case WTest =>
      if |w.data| <= w.done then s.(w := w.(pc := WKick))
      else s.(w := w.(pc := WLoadOut, in_ := d.txIn))
    case WLoadOut =>
      s.(w := w.(pc := WRoom, out := d.txOut))
    case WRoom =>
      var room := Room(w.in_, w.out);
      if room == 0 then s.(w := w.(pc := WKick))
      else s.(w := w.(pc := WCopy, n := Min(room, |w.data| - w.done), k := 0))
    case WCopy =>
      s.(d := d.(txBuf := d.txBuf[w.in_ + w.k := w.data[w.done + w.k]]),
         w := w.(k := w.k + 1, pc := if w.k + 1 < w.n then WCopy else WPublish))
    case WPublish =>
      s.(d := d.(txIn := Advance(w.in_, w.n)),
         w := w.(done := w.done + w.n, pc := WTest, dirty := true),
         g := s.g.(accepted := s.g.accepted + w.data[w.done..w.done + w.n]))
    case WKick =>
      s.(d := d.(we := true), w := w.(pc := WShadow, dirty := false))
    case WShadow =>
      s.(h := s.h.(re := d.re, we := d.we), w := w.(pc := WAfter))
    case WAfter =>
      if |w.data| <= w.done || w.nonblock then s.(w := w.(pc := WReturn))
      else s.(w := w.(pc := WSpin))
    case WSpin =>
      if w.out == d.txOut && d.hostInactive < d.timeout then s
      else s.(w := w.(pc := WCheck))
    case WCheck =>
      s.(w := w.(pc := if d.hostInactive != 0 then WReturn else WTest))
    case WReturn => s
  }

  // ---------------------------------------------------------------- the reader

  /** Bytes that can be copied in one block, computed from the two snapshots. */
  function Available(in_: Index, out: Index): nat {
    if in_ >= out then in_ - out else BUF_LEN - out
  }

  function ReadResult(r: Reader): Result {
    if r.done != 0 then Count(r.done) else if r.nonblock then WouldBlock else IoError
  }

  predicate ReaderMoves(s: Sys) {
    && s.i.pc == IIdle
    && s.w.pc != WShadow
    && s.r.pc != RIdle
    && s.r.pc != RReturn
    && ReaderInBounds(s.r)
  }

  /** The block copy stays inside both the ring and the caller's buffer. */
  predicate ReaderInBounds(r: Reader) {
    && (r.pc == RCopy ==> r.out + r.k < BUF_LEN && r.k < r.space)
    && (r.pc == RRelease ==> r.n <= r.space && r.n <= |r.got|)
  }

  function StepReader(s: Sys): Sys
    requires ReaderMoves(s)
  {
    var r, d := s.r, s.d;
    match r.pc
    case RIdle => s
    case RTest => s.(r := r.(pc := if r.space > 0 then RLoadIn else RExit))
    case RLoadIn => s.(r := r.(pc := RLoadOut, in_ := d.rxIn))
    case RLoadOut => s.(r := r.(pc := RAmount, out := d.rxOut))
    case RAmount =>
      var n := Available(r.in_, r.out);
      if n == 0 then s.(r := r.(pc := RAfter))
      else s.(r := r.(pc := RCopy, n := Min(n, r.space), k := 0))
    case RCopy =>
      s.(r := r.(got := r.got + [d.rxBuf[r.out + r.k]], k := r.k + 1,
                 pc := if r.k + 1 < r.n then RCopy else RRelease))
    case RRelease =>
      s.(d := d.(rxOut := Advance(r.out, r.n)),
         r := r.(space := r.space - r.n, done := r.done + r.n, k := 0,
                 pc := if r.space > r.n then RLoadIn else RAfter),
         g := s.g.(delivered := s.g.delivered + r.got[|r.got| - r.n..]))
    case RAfter =>
      s.(r := r.(pc := if r.done != 0 || r.nonblock then RExit else RSpin))
    case RSpin =>
      if r.in_ == d.rxIn && d.hostInactive < d.timeout then s
      else s.(r := r.(pc := RCheck))
    case RCheck =>
      s.(r := r.(pc := if r.in_ == d.rxIn then RExit else RTest))
    case RExit =>
      if r.done != 0 then s.(d := d.(re := true), r := r.(pc := RShadow))
      else s.(r := r.(pc := RReturn))
    case RShadow =>
      s.(h := s.h.(re := d.re, we := d.we), r := r.(pc := RReturn))
    case RReturn => s
  }

  // ---------------------------------------------------------------- the interrupt routine

  /** Interrupts are disabled between the update of irq_enable and the register write. */
  predicate Masked(s: Sys) {
    s.w.pc == WShadow || s.r.pc == RShadow
  }

  /** A control word the device may return: the space reported is really there. */
  predicate Honest(h: Hardware, c: Control) {
    |h.tx| + c.wspace <= WRITE_DEPTH
  }

  predicate IsrMoves(s: Sys, c: Control) {
    && s.i.pc != IIdle
    && (s.i.pc == ILoad ==> Honest(s.h, c))
    && (s.i.pc == ITxAdvance ==> s.i.space > 0)
  }

  function StepIsr(s: Sys, c: Control): Sys
    requires IsrMoves(s, c)
  {
    var i, d, h := s.i, s.d, s.h;
    match i.pc
    case IIdle => s
    case ILoad =>
      if !c.ri && !c.wi then s.(i := i.(pc := IIdle))
      else s.(i := i.(pc := if c.ri then IRxTest else ITxStart, wi := c.wi, space := c.wspace, avail := true))
    case IRxTest =>
      s.(i := i.(pc := if Full(d.rxOut, d.rxIn) then IRxDone else IRxRead))
    case IRxRead =>
      // RVALID clear comes with RAVAIL zero
      if h.rx == [] then s.(i := i.(pc := IRxDone, avail := false))
      else s.(i := i.(pc := IRxStore, byte := h.rx[0], avail := |h.rx| > 1),
              h := h.(rx := h.rx[1..]),
              g := s.g.(taken := s.g.taken + [h.rx[0]]))
    case IRxStore =>
      s.(d := d.(rxBuf := d.rxBuf[d.rxIn := i.byte]), i := i.(pc := IRxAdvance))
    case IRxAdvance =>
      s.(d := d.(rxIn := Advance(d.rxIn, 1)), i := i.(pc := IRxTest))
    case IRxDone =>
      if i.avail then s.(d := d.(re := false), i := i.(pc := IRxMask))
      else s.(i := i.(pc := ITxStart))
    case IRxMask =>
      s.(h := h.(re := d.re, we := d.we), i := i.(pc := ITxStart))
    case ITxStart =>
      s.(i := i.(pc := if i.wi then ITxTest else ILoad))
    case ITxTest =>
      if i.space > 0 && d.txOut != d.txIn then
        s.(h := h.(tx := h.tx + [d.txBuf[d.txOut]]), i := i.(pc := ITxAdvance),
           g := s.g.(sent := s.g.sent + [d.txBuf[d.txOut]]))
      else s.(i := i.(pc := ITxDone))
    case ITxAdvance =>
      s.(d := d.(txOut := Advance(d.txOut, 1)),
         i := i.(pc := ITxTest, space := i.space - 1))
    case ITxDone =>
      if i.space > 0 then s.(d := d.(we := false), i := i.(pc := ITxMask))
      else s.(i := i.(pc := ILoad))
    case ITxMask =>
      s.(h := h.(re := d.re, we := d.we), i := i.(pc := ILoad))
  }

  // ---------------------------------------------------------------- all steps

  predicate Enabled(s: Sys, a: Action) {
    match a
    case CallWrite(_, _) => s.i.pc == IIdle && !Masked(s) && s.w.pc == WIdle
    case WriterStep => WriterMoves(s)
    case WriteReturns => s.i.pc == IIdle && !Masked(s) && s.w.pc == WReturn
    case CallRead(_, _) => s.i.pc == IIdle && !Masked(s) && s.r.pc == RIdle
    case ReaderStep => ReaderMoves(s)
    case ReadReturns => s.i.pc == IIdle && !Masked(s) && s.r.pc == RReturn
    case Interrupt => s.i.pc == IIdle && !Masked(s)
    case IsrStep(c) => IsrMoves(s, c)
    case HostSends(_) => |s.h.rx| < READ_DEPTH
    case HostTakes => s.h.tx != []
    case Alarm(_) => s.i.pc == IIdle && !Masked(s)
  }

  function Step(s: Sys, a: Action): Sys
    requires Enabled(s, a)
  {
    match a
    case CallWrite(data, nonblock) =>
      s.(w := Writer(WTest, data, nonblock, 0, s.w.in_, 0, 0, 0, false, |s.g.accepted|))
    case WriterStep => StepWriter(s)
    case WriteReturns => s.(w := s.w.(pc := WIdle))
    case CallRead(space, nonblock) =>
      s.(r := Reader(RTest, [], nonblock, space, 0, s.r.in_, s.r.out, 0, 0, |s.g.delivered|))
    case ReaderStep => StepReader(s)
    case ReadReturns => s.(r := s.r.(pc := RIdle))
    case Interrupt => s.(i := s.i.(pc := ILoad))
    case IsrStep(c) => StepIsr(s, c)
    case HostSends(b) => s.(h := s.h.(rx := s.h.rx + [b]), g := s.g.(arrived := s.g.arrived + [b]))
    case HostTakes => s.(h := s.h.(tx := s.h.tx[1..]), g := s.g.(received := s.g.received + [s.h.tx[0]]))
    case Alarm(active) =>
      if active then s.(h := s.h.(re := s.d.re, we := s.d.we), d := s.d.(hostInactive := 0))
      else if s.d.hostInactive < INT_MAX - 2 then s.(d := s.d.(hostInactive := s.d.hostInactive + 1))
      else s
  }

  /** The state left by altera_avalon_jtag_uart_init. */
  function Init(timeout: nat): Sys {
    var zeros := seq(BUF_LEN, _ => 0);
    Sys(Driver(0, 0, 0, 0, zeros, zeros, true, false, 0, timeout),
        Hardware(true, false, [], []),
        Writer(WIdle, [], false, 0, 0, 0, 0, 0, false, 0),
        Reader(RIdle, [], false, 0, 0, 0, 0, 0, 0, 0),
        Isr(IIdle, false, 0, false, 0),
        Streams([], [], [], [], [], []))
  }

  ghost predicate IsRun(s: Sys, trace: seq<Action>, t: Sys)
    decreases |trace|
  {
    if trace == [] then s == t
    else Enabled(s, trace[0]) && IsRun(Step(s, trace[0]), trace[1..], t)
  }
}
