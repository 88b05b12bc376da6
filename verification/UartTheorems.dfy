/** What the invariant says to the driver's users, for every run from initialisation. */
module UartTheorems {
  import opened UartRing
  import opened UartMachine
  import opened UartInvariant

  ghost predicate Reachable(timeout: nat, trace: seq<Action>, s: Sys) {
    IsRun(Init(timeout), trace, s)
  }

  lemma ReachableInv(timeout: nat, trace: seq<Action>, s: Sys)
    requires Reachable(timeout, trace, s)
    ensures Inv(s)
  {
    InitHolds(timeout);
    RunKeeps(Init(timeout), trace, s);
  }

  lemma {:induction false} RunExtends(s: Sys, trace: seq<Action>, t: Sys, a: Action)
    requires IsRun(s, trace, t) && Enabled(t, a)
    ensures IsRun(s, trace + [a], Step(t, a))
    decreases |trace|
  {
    hide Enabled, Step;
    if trace == [] {
      assert IsRun(Step(t, a), [a][1..], Step(t, a));
    } else {
      RunExtends(Step(s, trace[0]), trace[1..], t, a);
      assert (trace + [a])[1..] == trace[1..] + [a];
    }
  }

  /** A run that extends another continues from where that one ended. */
  lemma {:induction false} RunSplits(s: Sys, first: seq<Action>, t: Sys, rest: seq<Action>, u: Sys)
    requires IsRun(s, first, t) && IsRun(s, first + rest, u)
    ensures IsRun(t, rest, u)
    decreases |first|
  {
    hide Enabled, Step;
    if first == [] {
      assert first + rest == rest;
    } else {
      assert (first + rest)[1..] == first[1..] + rest;
      RunSplits(Step(s, first[0]), first[1..], t, rest, u);
    }
  }

  predicate StreamsGrow(g: Streams, h: Streams) {
    && g.accepted <= h.accepted && g.sent <= h.sent && g.received <= h.received
    && g.arrived <= h.arrived && g.taken <= h.taken && g.delivered <= h.delivered
  }

  lemma StepAppends(s: Sys, a: Action)
    requires Enabled(s, a)
    ensures StreamsGrow(s.g, Step(s, a).g)
  {
  }

  /** Nothing that has crossed a boundary is ever taken back. */
  lemma {:induction false} RunAppends(s: Sys, trace: seq<Action>, t: Sys)
    requires IsRun(s, trace, t)
    ensures StreamsGrow(s.g, t.g)
    decreases |trace|
  {
    hide Enabled, Step;
    if trace != [] {
      StepAppends(s, trace[0]);
      RunAppends(Step(s, trace[0]), trace[1..], t);
    }
  }

  /** No timeout from step n on has found the host inactive. */
  ghost predicate HostActiveSince(trace: seq<Action>, n: nat) {
    forall k | n <= k < |trace| :: trace[k] != Alarm(false)
  }

  /** The host was inactive in s, or a timeout from step n on has found it so. */
  ghost predicate FoundInactive(s: Sys, n: nat, trace: seq<Action>) {
    s.d.hostInactive != 0 || !HostActiveSince(trace, n)
  }

  lemma FoundInactiveWidens(s: Sys, n: nat, longer: seq<Action>, t: Sys, m: nat, trace: seq<Action>)
    requires FoundInactive(t, m, trace) && s.d == t.d && n <= m && trace <= longer
    ensures FoundInactive(s, n, longer)
  {
    if s.d.hostInactive == 0 {
      var k :| m <= k < |trace| && trace[k] == Alarm(false);
      assert longer[k] == Alarm(false);
    }
  }

  /** The host is taken to be inactive only if a timeout has found it so. */
  lemma {:induction false} HostStaysActive(s: Sys, trace: seq<Action>, t: Sys)
    requires IsRun(s, trace, t) && s.d.hostInactive == 0 && HostActiveSince(trace, 0)
    ensures t.d.hostInactive == 0
    decreases |trace|
  {
    hide Enabled, Step;
    if trace != [] {
      StepStaysActive(s, trace[0]);
      HostStaysActive(Step(s, trace[0]), trace[1..], t);
    }
  }

  lemma StepStaysActive(s: Sys, a: Action)
    requires Enabled(s, a) && s.d.hostInactive == 0 && a != Alarm(false)
    ensures Step(s, a).d.hostInactive == 0
  {
  }

  /** No byte is lost, duplicated or reordered between callers and host, in either direction. */
  lemma StreamsConserved(timeout: nat, trace: seq<Action>, s: Sys)
    requires Reachable(timeout, trace, s)
    ensures s.g.accepted == s.g.received + s.h.tx + Contents(s.d.txBuf, TxHead(s.i.pc, s.d.txOut), s.d.txIn)
    ensures s.g.arrived == s.g.delivered + Contents(s.d.rxBuf, s.d.rxOut, s.d.rxIn) + InFlight(s.i) + s.h.rx
  {
    hide WriterCount, WriterSnapshots, WriterBlock, ReaderCount, ReaderSnapshots, ReaderBlock, Contents, InFlight;
    ReachableInv(timeout, trace, s);
  }

  /** A call that is about to return reports exactly the bytes it moved. */
  lemma CallsReportExactly(timeout: nat, trace: seq<Action>, s: Sys)
    requires Reachable(timeout, trace, s)
    ensures s.w.pc == WReturn ==>
              match WriteResult(s.w)
              case Count(n) => 0 < n <= |s.w.data| && EndsWith(s.g.accepted, s.w.start, s.w.data[..n])
              case WouldBlock => s.w.nonblock && |s.g.accepted| == s.w.start
              case IoError => !s.w.nonblock && |s.g.accepted| == s.w.start
    ensures s.r.pc == RReturn ==>
              match ReadResult(s.r)
              case Count(n) => 0 < n == |s.r.got| && EndsWith(s.g.delivered, s.r.start, s.r.got)
              case WouldBlock => s.r.nonblock && s.r.got == [] && |s.g.delivered| == s.r.start
              case IoError => !s.r.nonblock && s.r.got == [] && |s.g.delivered| == s.r.start
  {
    hide TxStream, RxStream;
    ReachableInv(timeout, trace, s);
    assert s.r.pc == RReturn ==> s.r.got[..s.r.done] == s.r.got;
  }

  /** Both block copies are safe against the interrupt routine: the writer's next slot holds no
      unsent byte, and the slot the routine fills is outside the block the reader is copying. */
  lemma CopiesDoNotRace(timeout: nat, trace: seq<Action>, s: Sys)
    requires Reachable(timeout, trace, s)
    ensures s.w.pc == WCopy ==>
              s.w.in_ + s.w.k < BUF_LEN && Used(s.d.txOut, s.w.in_ + s.w.k) >= Used(s.d.txOut, s.d.txIn)
    ensures s.i.pc == IRxStore && ReaderCopies(s.r) ==>
              s.r.out + s.r.n <= BUF_LEN && !(s.r.out <= s.d.rxIn < s.r.out + s.r.n)
  {
    hide TxStream, EndsWith, Contents;
    ReachableInv(timeout, trace, s);
  }

  /** No party is ever stopped by an out-of-bounds access or an exhausted quota. */
  lemma NobodyStuck(s: Sys, c: Control)
    requires Inv(s)
    ensures s.i.pc == IIdle && s.r.pc != RShadow && s.w.pc != WIdle && s.w.pc != WReturn ==> WriterMoves(s)
    ensures s.i.pc == IIdle && s.w.pc != WShadow && s.r.pc != RIdle && s.r.pc != RReturn ==> ReaderMoves(s)
    ensures s.i.pc != IIdle && (s.i.pc == ILoad ==> Honest(s.h, c)) ==> IsrMoves(s, c)
  {
    hide TxStream, RxStream, EndsWith, Contents;
  }

  /** The hardware transmit FIFO is never written when it is full. */
  lemma FifoNeverOverflows(timeout: nat, trace: seq<Action>, s: Sys)
    requires Reachable(timeout, trace, s)
    ensures |s.h.tx| <= WRITE_DEPTH
    ensures s.i.pc == ITxTest && s.i.space > 0 ==> |s.h.tx| < WRITE_DEPTH
  {
    hide TxStream, RxStream, EndsWith, Contents;
    hide WriterCount, WriterSnapshots, WriterBlock, ReaderCount, ReaderSnapshots, ReaderBlock;
    ReachableInv(timeout, trace, s);
  }

  /** No lost wake-up: when an interrupt could be taken, unsent bytes mean that the device has
      its transmit interrupt enabled, and a disabled receive interrupt means that the ring is
      full, except inside the windows whose end the next two theorems bound. */
  lemma WakeupsNotLost(timeout: nat, trace: seq<Action>, s: Sys)
    requires Reachable(timeout, trace, s)
    requires s.i.pc == IIdle && !Masked(s)
    ensures s.h.re == s.d.re && s.h.we == s.d.we
    ensures s.d.txOut != s.d.txIn && !WriterWindow(s.w) ==> s.h.we
    ensures !Full(s.d.rxOut, s.d.rxIn) && !ReaderWindow(s.r) ==> s.h.re
  {
    hide TxInv, RxInv;
    ReachableInv(timeout, trace, s);
  }

  /** The routine gives up an interrupt exactly when it has nothing left to do for it: transmit
      with quota to spare and the ring drained, receive with more bytes waiting and the ring
      full.  Bytes are left in the ring only if the quota is spent, room only if none wait. */
  lemma InterruptsMaskedExactly(timeout: nat, trace: seq<Action>, s: Sys, c: Control)
    requires Reachable(timeout, trace, s) && Enabled(s, IsrStep(c))
    ensures var t, drained, full := Step(s, IsrStep(c)), s.d.txOut == s.d.txIn, Full(s.d.rxOut, s.d.rxIn);
            && (s.d.we && !t.d.we <==> s.d.we && s.i.pc == ITxDone && drained && s.i.space > 0)
            && (s.d.re && !t.d.re <==> s.d.re && s.i.pc == IRxDone && full && s.i.avail)
            && (s.i.pc == ITxDone && !drained ==> s.i.space == 0)
            && (s.i.pc == IRxDone && !full ==> !s.i.avail)
  {
    hide TxStream, RxStream, EndsWith, Contents;
    ReachableInv(timeout, trace, s);
  }

  /** A run within the transmit loop of the routine; the last state may have left it. */
  ghost predicate Sending(s: Sys, trace: seq<Action>, t: Sys)
    decreases |trace|
  {
    if trace == [] then s == t
    else
      && (s.i.pc == ITxTest || s.i.pc == ITxAdvance)
      && Enabled(s, trace[0])
      && Sending(Step(s, trace[0]), trace[1..], t)
  }

  /** Quota and stored bytes go down together. */
  lemma SendingBalance(s: Sys, a: Action)
    requires Inv(s) && Enabled(s, a) && (s.i.pc == ITxTest || s.i.pc == ITxAdvance)
    ensures var t := Step(s, a);
            && t.i.space - Used(t.d.txOut, t.d.txIn) == s.i.space - Used(s.d.txOut, s.d.txIn)
            && t.d.we == s.d.we && t.g.accepted == s.g.accepted
            && t.i.pc in {ITxTest, ITxAdvance, ITxDone}
  {
    hide RxInv, EndsWith, Contents, WriterCount, WriterSnapshots, WriterBlock, TxWakeup, RxWakeup, ShadowAgrees;
    if s.i.pc == ITxAdvance {
      Release(s.d.txBuf, s.d.txOut, s.d.txIn, 1);
    }
  }

  lemma {:induction false} SendingKeeps(s: Sys, trace: seq<Action>, t: Sys)
    requires Inv(s) && Sending(s, trace, t)
    ensures Inv(t)
    ensures t.i.space - Used(t.d.txOut, t.d.txIn) == s.i.space - Used(s.d.txOut, s.d.txIn)
    ensures t.d.we == s.d.we && t.g.accepted == s.g.accepted
    decreases |trace|
  {
    hide Inv, Enabled, Step;
    if trace != [] {
      StepKeeps(s, trace[0]);
      SendingBalance(s, trace[0]);
      SendingKeeps(Step(s, trace[0]), trace[1..], t);
    }
  }

  /** Whatever the host does meanwhile, the transmit loop sends the smaller of the space reported
      and the bytes stored, and masks the interrupt exactly when there was more space than bytes. */
  lemma TransmitExact(s: Sys, trace: seq<Action>, t: Sys, c: Control)
    requires Inv(s) && s.i.pc == ITxTest && Sending(s, trace, t) && t.i.pc == ITxDone
    ensures var stored := Used(s.d.txOut, s.d.txIn);
            && |t.g.sent| == |s.g.sent| + Min(s.i.space, stored)
            && Used(t.d.txOut, t.d.txIn) == stored - Min(s.i.space, stored)
            && StepIsr(t, c).d.we == (s.d.we && s.i.space <= stored)
  {
    SendingKeeps(s, trace, t);
    FullMeansOneSlotLeft(s.d.txBuf, s.d.txOut, s.d.txIn);
    FullMeansOneSlotLeft(t.d.txBuf, t.d.txOut, t.d.txIn);
    hide Contents, WriterCount, WriterSnapshots, WriterBlock, RxInv, WakeInv, Sending;
  }

  // ---------------------------------------------------------------- the windows close

  function WriterSteps(trace: seq<Action>): nat {
    if trace == [] then 0 else (if trace[0].WriterStep? then 1 else 0) + WriterSteps(trace[1..])
  }

  function ReaderSteps(trace: seq<Action>): nat {
    if trace == [] then 0 else (if trace[0].ReaderStep? then 1 else 0) + ReaderSteps(trace[1..])
  }

  /** Some state of the run has just set the transmit enable bit. */
  ghost predicate Kicks(s: Sys, trace: seq<Action>)
    decreases |trace|
  {
    || (s.w.pc == WShadow && s.d.we)
    || (trace != [] && Enabled(s, trace[0]) && Kicks(Step(s, trace[0]), trace[1..]))
  }

  /** Some state of the run has just set the receive enable bit. */
  ghost predicate Reenables(s: Sys, trace: seq<Action>)
    decreases |trace|
  {
    || (s.r.pc == RShadow && s.d.re)
    || (trace != [] && Enabled(s, trace[0]) && Reenables(Step(s, trace[0]), trace[1..]))
  }

  /** Own steps the writer still needs before it enables the interrupt. */
  function WriterDistance(w: Writer): int {
    var left := 6 * (|w.data| - w.done);
    match w.pc
    case WTest => left + 2
    case WLoadOut => left + 1
    case WRoom => left
    case WCopy => left - 1 - w.k
    case WPublish => left - 1 - w.n
    case WKick => 1
    case _ => 0
  }

  function ReaderDistance(r: Reader): int {
    var left := 6 * r.space;
    match r.pc
    case RLoadIn => left + 2
    case RLoadOut => left + 1
    case RAmount => left
    case RCopy => left - 1 - r.k
    case RRelease => left - 1 - r.n
    case RAfter => 2
    case RExit => 1
    case _ => 0
  }

  lemma WriterApproaches(s: Sys)
    requires TxInv(s) && WriterMoves(s) && WriterWindow(s.w)
    ensures var t := StepWriter(s);
            || (t.w.pc == WShadow && t.d.we)
            || (WriterWindow(t.w) && 0 < WriterDistance(t.w) < WriterDistance(s.w))
  {
    hide TxStream, EndsWith, Contents, FifoSafe;
  }

  lemma ReaderApproaches(s: Sys)
    requires RxInv(s) && ReaderMoves(s) && ReaderWindow(s.r)
    ensures var t := StepReader(s);
            || (t.r.pc == RShadow && t.d.re)
            || (ReaderWindow(t.r) && 0 < ReaderDistance(t.r) < ReaderDistance(s.r))
  {
    hide RxStream, EndsWith, Contents;
  }

  lemma WriterFar(s: Sys)
    requires Inv(s) && WriterWindow(s.w)
    ensures WriterDistance(s.w) > 0
  {
    hide TxStream, RxInv, WakeInv, EndsWith, Contents, FifoSafe;
  }

  lemma ReaderFar(s: Sys)
    requires Inv(s) && ReaderWindow(s.r)
    ensures ReaderDistance(s.r) > 0
  {
    hide RxStream, TxInv, WakeInv, EndsWith, Contents;
  }

  lemma OthersLeaveWriter(s: Sys, a: Action)
    requires Enabled(s, a) && !a.WriterStep? && s.w.pc != WIdle && s.w.pc != WReturn
    ensures Step(s, a).w == s.w
  {
  }

  lemma OthersLeaveReader(s: Sys, a: Action)
    requires Enabled(s, a) && !a.ReaderStep? && s.r.pc != RIdle && s.r.pc != RReturn
    ensures Step(s, a).r == s.r
  {
  }

  /** Whatever else is interleaved, a writer that has published bytes enables the transmit
      interrupt after a bounded number of its own steps; it cannot block on the way. */
  lemma {:induction false} WriterWindowCloses(s: Sys, trace: seq<Action>, t: Sys)
    requires Inv(s) && WriterWindow(s.w) && IsRun(s, trace, t)
    requires WriterSteps(trace) >= WriterDistance(s.w)
    ensures Kicks(s, trace)
    decreases |trace|
  {
    hide Inv, TxInv, RxInv, WakeInv, Enabled, Step, StepWriter, WriterDistance, WriterMoves;
    WriterFar(s);
    var a := trace[0];
    var next := Step(s, a);
    StepKeeps(s, a);
    if a.WriterStep? {
      assert TxInv(s) && WriterMoves(s) && next == StepWriter(s) by { WriterActs(s, a); }
      WriterApproaches(s);
    } else {
      OthersLeaveWriter(s, a);
    }
    if next.w.pc == WShadow && next.d.we {
      assert Kicks(next, trace[1..]);
    } else {
      WriterWindowCloses(next, trace[1..], t);
    }
  }

  lemma WriterActs(s: Sys, a: Action)
    requires Inv(s) && Enabled(s, a) && a.WriterStep?
    ensures TxInv(s) && WriterMoves(s) && Step(s, a) == StepWriter(s)
  {
  }

  lemma ReaderActs(s: Sys, a: Action)
    requires Inv(s) && Enabled(s, a) && a.ReaderStep?
    ensures RxInv(s) && ReaderMoves(s) && Step(s, a) == StepReader(s)
  {
  }

  /** The same for a reader that has freed space: the receive interrupt comes back. */
  lemma {:induction false} ReaderWindowCloses(s: Sys, trace: seq<Action>, t: Sys)
    requires Inv(s) && ReaderWindow(s.r) && IsRun(s, trace, t)
    requires ReaderSteps(trace) >= ReaderDistance(s.r)
    ensures Reenables(s, trace)
    decreases |trace|
  {
    hide Inv, TxInv, RxInv, WakeInv, Enabled, Step, StepReader, ReaderDistance, ReaderMoves;
    ReaderFar(s);
    var a := trace[0];
    var next := Step(s, a);
    StepKeeps(s, a);
    if a.ReaderStep? {
      assert RxInv(s) && ReaderMoves(s) && next == StepReader(s) by { ReaderActs(s, a); }
      ReaderApproaches(s);
    } else {
      OthersLeaveReader(s, a);
    }
    if next.r.pc == RShadow && next.d.re {
      assert Reenables(next, trace[1..]);
    } else {
      ReaderWindowCloses(next, trace[1..], t);
    }
  }
}
