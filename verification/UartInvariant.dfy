/** What holds in every reachable state of the driver, and how it is kept. */
module UartInvariant {
  import opened UartRing
  import opened UartMachine

  // ---------------------------------------------------------------- bytes out

  /** First slot the interrupt routine has not yet handed to the hardware. */
  function TxHead(pc: IsrPc, txOut: Index): Index {
    if pc == ITxAdvance then Advance(txOut, 1) else txOut
  }

  /** Everything accepted from callers has been sent or is still stored, in order. */
  ghost predicate TxStream(pc: IsrPc, txBuf: Buffer, txOut: Index, txIn: Index, accepted: seq<Byte>, sent: seq<Byte>) {
    && (pc == ITxAdvance ==> Used(txOut, txIn) > 0)
    && accepted == sent + Contents(txBuf, TxHead(pc, txOut), txIn)
  }

  predicate WriterCopies(w: Writer) {
    w.pc == WCopy || w.pc == WPublish
  }

  /** The stream from position start on is exactly these bytes. */
  ghost predicate EndsWith(stream: seq<Byte>, start: nat, bytes: seq<Byte>) {
    start + |bytes| == |stream| && stream[start..] == bytes
  }

  ghost predicate WriterCount(w: Writer, accepted: seq<Byte>) {
    && w.done <= |w.data|
    && ((w.pc.WLoadOut? || w.pc.WRoom? || w.pc.WCopy? || w.pc.WPublish? || w.pc.WSpin? || w.pc.WCheck?) ==>
        w.done < |w.data|)
    && (w.pc != WIdle ==>
        EndsWith(accepted, w.start, w.data[..w.done]))
  }

  /** The writer's snapshots are stale only in the harmless direction: the ring is no fuller
      than they say, so the block it fills is free. */
  ghost predicate WriterSnapshots(w: Writer, txOut: Index, txIn: Index) {
    && ((w.pc.WLoadOut? || w.pc.WRoom? || w.pc.WCopy? || w.pc.WPublish?) ==> w.in_ == txIn)
    && ((w.pc.WRoom? || w.pc.WCopy? || w.pc.WPublish?) ==> Used(txOut, txIn) <= Used(w.out, txIn))
    && (WriterCopies(w) ==>
        && 0 < w.n
        && w.done + w.n <= |w.data|
        && w.in_ + w.n <= BUF_LEN
        && Used(w.out, w.in_) + w.n < BUF_LEN)
  }

  /** The part of the block copied so far. */
  ghost predicate WriterBlock(w: Writer, txBuf: Buffer) {
    WriterCopies(w) ==>
      && w.k <= w.n
      && (w.pc == WCopy ==> w.k < w.n)
      && (w.pc == WPublish ==> w.k == w.n)
      && w.done + w.k <= |w.data|
      && w.in_ + w.k <= BUF_LEN
      && txBuf[w.in_..w.in_ + w.k] == w.data[w.done..w.done + w.k]
  }

  /** The transmit FIFO never overflows: the routine's remaining quota is really free. */
  ghost predicate FifoSafe(i: Isr, tx: nat, txOut: Index, txIn: Index) {
    && tx <= WRITE_DEPTH
    && ((|| i.pc.IRxTest? || i.pc.IRxRead? || i.pc.IRxStore? || i.pc.IRxAdvance? || i.pc.IRxDone? || i.pc.IRxMask?
         || i.pc.ITxStart? || i.pc.ITxTest? || i.pc.ITxDone?) ==>
        tx + i.space <= WRITE_DEPTH)
    && (i.pc == ITxAdvance ==> i.space > 0 && tx + i.space - 1 <= WRITE_DEPTH)
    && (i.pc == ITxDone && i.space > 0 ==> txOut == txIn)
  }

  // ---------------------------------------------------------------- bytes in

  function InFlight(i: Isr): seq<Byte> {
    if i.pc == IRxStore || i.pc == IRxAdvance then [i.byte] else []
  }

  /** Every byte taken from the device is delivered, stored or in the routine's hands, in order. */
  ghost predicate RxStream(i: Isr, rxBuf: Buffer, rxOut: Index, rxIn: Index, taken: seq<Byte>, delivered: seq<Byte>) {
    && ((i.pc.IRxRead? || i.pc.IRxStore? || i.pc.IRxAdvance?) ==> Used(rxOut, rxIn) < BUF_LEN - 1)
    && (i.pc == IRxAdvance ==> rxBuf[rxIn] == i.byte)
    && taken == delivered + Contents(rxBuf, rxOut, rxIn) + InFlight(i)
  }

  predicate ReaderCopies(r: Reader) {
    r.pc == RCopy || r.pc == RRelease
  }

  ghost predicate ReaderCount(r: Reader, delivered: seq<Byte>) {
    r.pc != RIdle ==>
      && r.done <= |r.got|
      && EndsWith(delivered, r.start, r.got[..r.done])
  }

  /** The reader's snapshot of rx_in is stale only in the harmless direction: everything it
      says is stored still is, so the block being copied is not written meanwhile. */
  ghost predicate ReaderSnapshots(r: Reader, rxOut: Index, rxIn: Index) {
    && ((r.pc.RLoadIn? || r.pc.RLoadOut? || r.pc.RAmount? || r.pc.RCopy? || r.pc.RRelease?) ==> r.space > 0)
    && ((r.pc.RLoadOut? || r.pc.RAmount? || r.pc.RCopy? || r.pc.RRelease?) ==> Used(rxOut, r.in_) <= Used(rxOut, rxIn))
    && ((r.pc.RAmount? || r.pc.RCopy? || r.pc.RRelease?) ==> r.out == rxOut)
    && (ReaderCopies(r) ==>
        && 0 < r.n <= r.space
        && r.n <= Used(r.out, r.in_)
        && r.out + r.n <= BUF_LEN)
  }

  ghost predicate ReaderBlock(r: Reader, rxBuf: Buffer) {
    && (!ReaderCopies(r) ==> r.done == |r.got|)
    && (ReaderCopies(r) ==>
        && r.k <= r.n
        && (r.pc == RCopy ==> r.k < r.n)
        && (r.pc == RRelease ==> r.k == r.n)
        && r.out + r.k <= BUF_LEN
        && r.done + r.k == |r.got|
        && r.got[r.done..] == rxBuf[r.out..r.out + r.k])
  }

  // ---------------------------------------------------------------- wake-ups

  /** From the first publication of a call until the call has set the enable bit. */
  predicate WriterWindow(w: Writer) {
    w.dirty && (w.pc.WTest? || w.pc.WLoadOut? || w.pc.WRoom? || w.pc.WCopy? || w.pc.WPublish? || w.pc.WKick?)
  }

  /** From the first release of a call until the call has set the enable bit. */
  predicate ReaderWindow(r: Reader) {
    && r.done > 0
    && (|| r.pc.RLoadIn? || r.pc.RLoadOut? || r.pc.RAmount? || r.pc.RCopy? || r.pc.RRelease?
        || r.pc.RAfter? || r.pc.RExit?)
  }

  ghost predicate TxWakeup(we: bool, w: Writer, txOut: Index, txIn: Index) {
    txOut != txIn ==> we || WriterWindow(w)
  }

  ghost predicate RxWakeup(re: bool, r: Reader, i: Isr, rxOut: Index, rxIn: Index) {
    && (!re ==> Full(rxOut, rxIn) || ReaderWindow(r))
    && (i.pc == IRxDone && i.avail ==> Full(rxOut, rxIn))
  }

  /** The shadow equals the hardware bits whenever an interrupt could be taken. */
  ghost predicate ShadowAgrees(s: Sys) {
    !Masked(s) && s.i.pc != IRxMask && s.i.pc != ITxMask ==> s.h.re == s.d.re && s.h.we == s.d.we
  }

  ghost predicate Exclusive(s: Sys) {
    && (s.i.pc != IIdle ==> !Masked(s))
    && !(s.w.pc == WShadow && s.r.pc == RShadow)
  }

  ghost predicate TxInv(s: Sys) {
    && TxStream(s.i.pc, s.d.txBuf, s.d.txOut, s.d.txIn, s.g.accepted, s.g.sent)
    && s.g.sent == s.g.received + s.h.tx
    && WriterCount(s.w, s.g.accepted)
    && WriterSnapshots(s.w, s.d.txOut, s.d.txIn)
    && WriterBlock(s.w, s.d.txBuf)
    && FifoSafe(s.i, |s.h.tx|, s.d.txOut, s.d.txIn)
  }

  ghost predicate RxInv(s: Sys) {
    && RxStream(s.i, s.d.rxBuf, s.d.rxOut, s.d.rxIn, s.g.taken, s.g.delivered)
    && s.g.arrived == s.g.taken + s.h.rx
    && ReaderCount(s.r, s.g.delivered)
    && ReaderSnapshots(s.r, s.d.rxOut, s.d.rxIn)
    && ReaderBlock(s.r, s.d.rxBuf)
  }

  ghost predicate WakeInv(s: Sys) {
    && TxWakeup(s.d.we, s.w, s.d.txOut, s.d.txIn)
    && RxWakeup(s.d.re, s.r, s.i, s.d.rxOut, s.d.rxIn)
    && ShadowAgrees(s)
    && Exclusive(s)
  }

  ghost predicate Inv(s: Sys) {
    TxInv(s) && RxInv(s) && WakeInv(s)
  }

  // ---------------------------------------------------------------- preservation: the writer

  lemma EndsWithMore(stream: seq<Byte>, start: nat, bytes: seq<Byte>, more: seq<Byte>)
    requires EndsWith(stream, start, bytes)
    ensures EndsWith(stream + more, start, bytes + more)
  {
    assert (stream + more)[start..] == stream[start..] + more;
  }

  lemma Associate(a: seq<Byte>, b: seq<Byte>, c: seq<Byte>)
    ensures a + (b + c) == a + b + c
  {
  }

  /** The byte lands in a free slot, although the snapshot of tx_out may be old. */
  lemma WriterStoreFree(s: Sys)
    requires TxInv(s) && WriterMoves(s) && s.w.pc == WCopy
    ensures TxStream(s.i.pc, StepWriter(s).d.txBuf, s.d.txOut, s.d.txIn, s.g.accepted, s.g.sent)
  {
    hide Contents, WriterCount, FifoSafe;
    var w, d := s.w, s.d;
    StoreOutside(d.txBuf, d.txOut, d.txIn, w.in_ + w.k, w.data[w.done + w.k]);
  }

  lemma WriterStoreKeeps(s: Sys)
    requires TxInv(s) && WriterMoves(s) && s.w.pc == WCopy
    ensures TxInv(StepWriter(s))
  {
    hide EndsWith, FifoSafe, Contents, TxStream;
    var w, d := s.w, s.d;
    WriterStoreFree(s);
    SliceGrows(w.data, w.done, w.k);
    StoreExtends(d.txBuf, w.in_, w.k, w.data[w.done + w.k]);
  }

  lemma WriterPublishStream(s: Sys, block: seq<Byte>)
    requires TxInv(s) && WriterMoves(s) && s.w.pc == WPublish
    requires block == s.w.data[s.w.done..s.w.done + s.w.n]
    ensures TxStream(s.i.pc, s.d.txBuf, s.d.txOut, Advance(s.d.txIn, s.w.n), s.g.accepted + block, s.g.sent)
  {
    hide FifoSafe, Contents, WriterCount;
    var w, d := s.w, s.d;
    Publish(d.txBuf, d.txOut, d.txIn, w.n);
    Associate(s.g.sent, Contents(d.txBuf, d.txOut, d.txIn), block);
  }

  lemma WriterPublishCount(s: Sys, block: seq<Byte>)
    requires TxInv(s) && WriterMoves(s) && s.w.pc == WPublish
    requires block == s.w.data[s.w.done..s.w.done + s.w.n]
    ensures EndsWith(s.g.accepted + block, s.w.start, s.w.data[..s.w.done + s.w.n])
  {
    hide FifoSafe, TxStream, EndsWith, WriterBlock;
    var w := s.w;
    EndsWithMore(s.g.accepted, w.start, w.data[..w.done], block);
    assert w.data[..w.done + w.n] == w.data[..w.done] + block;
  }

  lemma WriterPublishKeeps(s: Sys)
    requires TxInv(s) && WriterMoves(s) && s.w.pc == WPublish
    ensures TxInv(StepWriter(s))
  {
    hide EndsWith, Contents, TxStream;
    WriterPublishStream(s, s.w.data[s.w.done..s.w.done + s.w.n]);
    WriterPublishCount(s, s.w.data[s.w.done..s.w.done + s.w.n]);
  }

  lemma WriterMeasuresRoom(s: Sys)
    requires TxInv(s) && WriterMoves(s) && s.w.pc == WRoom
    ensures TxInv(StepWriter(s))
  {
    hide TxStream, EndsWith, FifoSafe, Contents;
  }

  lemma WriterKeepsTx(s: Sys)
    requires TxInv(s) && WriterMoves(s)
    ensures TxInv(StepWriter(s))
  {
    hide TxStream, EndsWith, FifoSafe, Contents;
    if s.w.pc == WCopy {
      WriterStoreKeeps(s);
    } else if s.w.pc == WPublish {
      WriterPublishKeeps(s);
    } else if s.w.pc == WRoom {
      WriterMeasuresRoom(s);
    }
  }

  lemma WriterKeepsWake(s: Sys)
    requires TxInv(s) && WakeInv(s) && WriterMoves(s)
    ensures WakeInv(StepWriter(s))
  {
    hide TxStream, EndsWith, FifoSafe, Contents, WriterBlock;
  }

  lemma WriterKeeps(s: Sys)
    requires Inv(s) && WriterMoves(s)
    ensures Inv(StepWriter(s))
  {
    hide TxInv, RxInv, WakeInv;
    WriterKeepsTx(s);
    WriterKeepsWake(s);
    WriterLeavesRx(s);
  }

  // ---------------------------------------------------------------- preservation: the reader

  lemma ReaderCopyKeeps(s: Sys)
    requires RxInv(s) && ReaderMoves(s) && s.r.pc == RCopy
    ensures RxInv(StepReader(s))
  {
    hide RxStream, EndsWith, Contents;
    var r, d := s.r, s.d;
    var t := StepReader(s);
    assert t.r.got[..r.done] == r.got[..r.done];
    assert t.r.got[r.done..] == r.got[r.done..] + [d.rxBuf[r.out + r.k]];
    SliceGrows(d.rxBuf, r.out, r.k);
  }

  lemma ReaderReleaseStream(s: Sys, block: seq<Byte>)
    requires RxInv(s) && ReaderMoves(s) && s.r.pc == RRelease
    requires block == s.r.got[s.r.done..]
    ensures s.r.got[|s.r.got| - s.r.n..] == block
    ensures RxStream(s.i, s.d.rxBuf, Advance(s.d.rxOut, s.r.n), s.d.rxIn, s.g.taken, s.g.delivered + block)
  {
    hide EndsWith, Contents;
    var r, d := s.r, s.d;
    Release(d.rxBuf, d.rxOut, d.rxIn, r.n);
    Associate(s.g.delivered, block, Contents(d.rxBuf, Advance(r.out, r.n), d.rxIn));
  }

  lemma ReaderReleaseKeeps(s: Sys)
    requires RxInv(s) && ReaderMoves(s) && s.r.pc == RRelease
    ensures RxInv(StepReader(s))
  {
    hide EndsWith, Contents, RxStream;
    var r, d := s.r, s.d;
    var block := r.got[r.done..];
    ReaderReleaseStream(s, block);
    Release(d.rxBuf, d.rxOut, d.rxIn, r.n);
    Release(d.rxBuf, d.rxOut, r.in_, r.n);
    EndsWithMore(s.g.delivered, r.start, r.got[..r.done], block);
    assert r.got[..r.done] + block == r.got == r.got[..|r.got|];
  }

  lemma ReaderLooks(s: Sys)
    requires RxInv(s) && ReaderMoves(s) && (s.r.pc == RLoadIn || s.r.pc == RLoadOut || s.r.pc == RAmount)
    ensures RxInv(StepReader(s))
  {
    hide RxStream, EndsWith, Contents;
  }

  lemma ReaderKeepsRx(s: Sys)
    requires RxInv(s) && ReaderMoves(s)
    ensures RxInv(StepReader(s))
  {
    hide RxStream, EndsWith, Contents;
    if s.r.pc == RCopy {
      ReaderCopyKeeps(s);
    } else if s.r.pc == RRelease {
      ReaderReleaseKeeps(s);
    } else if s.r.pc == RLoadIn || s.r.pc == RLoadOut || s.r.pc == RAmount {
      ReaderLooks(s);
    }
  }

  lemma ReaderKeepsWake(s: Sys)
    requires RxInv(s) && WakeInv(s) && ReaderMoves(s)
    ensures WakeInv(StepReader(s))
  {
    hide RxStream, EndsWith, Contents, ReaderBlock;
  }

  lemma ReaderKeeps(s: Sys)
    requires Inv(s) && ReaderMoves(s)
    ensures Inv(StepReader(s))
  {
    hide TxInv, RxInv, WakeInv;
    ReaderKeepsRx(s);
    ReaderKeepsWake(s);
    ReaderLeavesTx(s);
  }

  lemma ReaderLeavesTx(s: Sys)
    requires TxInv(s) && ReaderMoves(s)
    ensures TxInv(StepReader(s))
  {
    hide TxStream, WriterCount, WriterSnapshots, WriterBlock, FifoSafe;
  }

  lemma WriterLeavesRx(s: Sys)
    requires RxInv(s) && WriterMoves(s)
    ensures RxInv(StepWriter(s))
  {
    hide RxStream, ReaderCount, ReaderSnapshots, ReaderBlock;
  }

  // ---------------------------------------------------------------- preservation: the interrupt routine

  /** A received byte goes to a slot the reader is not copying, although the reader's
      snapshot of rx_in may be old. */
  lemma IsrStoreKeeps(s: Sys, c: Control)
    requires RxInv(s) && IsrMoves(s, c) && s.i.pc == IRxStore
    ensures RxInv(StepIsr(s, c))
  {
    hide EndsWith, Contents;
    var r, d := s.r, s.d;
    var t := StepIsr(s, c);
    StoreOutside(d.rxBuf, d.rxOut, d.rxIn, d.rxIn, s.i.byte);
    if ReaderCopies(r) {
      assert t.d.rxBuf[r.out..r.out + r.k] == d.rxBuf[r.out..r.out + r.k];
    }
  }

  lemma IsrReceiveKeeps(s: Sys, c: Control)
    requires RxInv(s) && IsrMoves(s, c) && s.i.pc == IRxRead
    ensures RxInv(StepIsr(s, c))
  {
    hide EndsWith, Contents;
    if s.h.rx != [] {
      assert s.g.taken + s.h.rx == s.g.taken + [s.h.rx[0]] + s.h.rx[1..];
    }
  }

  lemma IsrAdvanceKeeps(s: Sys, c: Control)
    requires RxInv(s) && IsrMoves(s, c) && s.i.pc == IRxAdvance
    ensures RxInv(StepIsr(s, c))
  {
    hide EndsWith, Contents;
    var d := s.d;
    Publish(d.rxBuf, d.rxOut, d.rxIn, 1);
    assert d.rxBuf[d.rxIn..d.rxIn + 1] == [s.i.byte];
    var stored := Contents(d.rxBuf, d.rxOut, d.rxIn);
    assert s.g.delivered + stored + [s.i.byte] == s.g.delivered + (stored + [s.i.byte]) + [];
  }

  lemma IsrKeepsRx(s: Sys, c: Control)
    requires RxInv(s) && IsrMoves(s, c)
    ensures RxInv(StepIsr(s, c))
  {
    hide EndsWith, Contents, ReaderBlock, ReaderCount;
    match s.i.pc
    case IRxStore => IsrStoreKeeps(s, c);
    case IRxRead => IsrReceiveKeeps(s, c);
    case IRxAdvance => IsrAdvanceKeeps(s, c);
    case _ =>
  }

  lemma IsrSendKeeps(s: Sys, c: Control)
    requires TxInv(s) && IsrMoves(s, c) && s.i.pc == ITxTest
    ensures TxInv(StepIsr(s, c))
  {
    hide EndsWith, Contents, WriterCount, WriterBlock;
    var d := s.d;
    if d.txOut != d.txIn {
      Release(d.txBuf, d.txOut, d.txIn, 1);
      var b := d.txBuf[d.txOut];
      assert d.txBuf[d.txOut..d.txOut + 1] == [b];
      var rest := Contents(d.txBuf, Advance(d.txOut, 1), d.txIn);
      assert s.g.sent + ([b] + rest) == s.g.sent + [b] + rest;
    }
  }

  lemma IsrSentKeeps(s: Sys, c: Control)
    requires TxInv(s) && IsrMoves(s, c) && s.i.pc == ITxAdvance
    ensures TxInv(StepIsr(s, c))
  {
    hide EndsWith, Contents, WriterCount, WriterBlock;
    Release(s.d.txBuf, s.d.txOut, s.d.txIn, 1);
  }

  lemma IsrKeepsTx(s: Sys, c: Control)
    requires TxInv(s) && IsrMoves(s, c)
    ensures TxInv(StepIsr(s, c))
  {
    hide EndsWith, Contents, WriterCount, WriterBlock;
    match s.i.pc
    case ITxTest => IsrSendKeeps(s, c);
    case ITxAdvance => IsrSentKeeps(s, c);
    case _ =>
  }

  lemma IsrKeepsWake(s: Sys, c: Control)
    requires Inv(s) && IsrMoves(s, c)
    ensures WakeInv(StepIsr(s, c))
  {
    hide EndsWith, Contents, InFlight, WriterCount, WriterBlock, ReaderCount, ReaderBlock;
  }

  lemma IsrKeeps(s: Sys, c: Control)
    requires Inv(s) && IsrMoves(s, c)
    ensures Inv(StepIsr(s, c))
  {
    hide TxInv, RxInv, WakeInv;
    IsrKeepsTx(s, c);
    IsrKeepsRx(s, c);
    IsrKeepsWake(s, c);
  }

  // ---------------------------------------------------------------- preservation: everyone

  lemma CallsKeep(s: Sys, a: Action)
    requires Inv(s) && Enabled(s, a)
    requires a.CallWrite? || a.WriteReturns? || a.CallRead? || a.ReadReturns?
    ensures Inv(Step(s, a))
  {
    hide TxStream, RxStream, FifoSafe, Contents;
  }

  lemma DeviceKeeps(s: Sys, a: Action)
    requires Inv(s) && Enabled(s, a)
    requires a.Interrupt? || a.Alarm?
    ensures Inv(Step(s, a))
  {
    hide EndsWith, Contents, WriterCount, WriterSnapshots, WriterBlock, ReaderCount, ReaderSnapshots, ReaderBlock;
  }

  lemma HostKeeps(s: Sys, a: Action)
    requires Inv(s) && Enabled(s, a)
    requires a.HostSends? || a.HostTakes?
    ensures Inv(Step(s, a))
  {
    hide TxStream, RxStream, WriterCount, WriterSnapshots, WriterBlock, ReaderCount, ReaderSnapshots, ReaderBlock;
    if a.HostTakes? {
      assert s.h.tx == [s.h.tx[0]] + s.h.tx[1..];
    }
  }

  /** Every step of every party keeps the invariant. */
  lemma StepKeeps(s: Sys, a: Action)
    requires Inv(s) && Enabled(s, a)
    ensures Inv(Step(s, a))
  {
    hide Inv, StepWriter, StepReader, StepIsr;
    match a
    case WriterStep => WriterKeeps(s);
    case ReaderStep => ReaderKeeps(s);
    case IsrStep(c) => IsrKeeps(s, c);
    case CallWrite(_, _) => CallsKeep(s, a);
    case WriteReturns => CallsKeep(s, a);
    case CallRead(_, _) => CallsKeep(s, a);
    case ReadReturns => CallsKeep(s, a);
    case HostSends(_) => HostKeeps(s, a);
    case HostTakes => HostKeeps(s, a);
    case _ => DeviceKeeps(s, a);
  }

  lemma InitHolds(timeout: nat)
    ensures Inv(Init(timeout))
  {
  }

  /** Safety over whole runs: every interleaving keeps the invariant. */
  lemma {:induction false} RunKeeps(s: Sys, trace: seq<Action>, t: Sys)
    requires Inv(s) && IsRun(s, trace, t)
    ensures Inv(t)
    decreases |trace|
  {
    hide Inv, Enabled, Step;
    if trace != [] {
      StepKeeps(s, trace[0]);
      RunKeeps(Step(s, trace[0]), trace[1..], t);
    }
  }
}
