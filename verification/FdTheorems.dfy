/** What the descriptor table guarantees over any sequence of calls. */
module FdTheorems {
  import opened Common
  import opened FdTable

  /** The table as alt_dev.c initialises it: the three standard streams on one null device. */
  function Initial(nullDev: Dev): Table {
    Table(seq(MAX_FD, i => if i < 3 then Fd(Some(nullDev), 0) else Fd(None, 0)), -1)
  }

  ghost predicate TableOk(t: Table) {
    && -1 <= t.maxFd < MAX_FD
    && (forall i: Slot :: i < 3 ==> t.fds[i].dev.Some?)
    && (forall i: Slot :: 3 <= i && t.fds[i].dev.Some? ==> i <= t.maxFd)
    && (forall i: Slot :: IsDev(t.fds[i]) ==> t.maxFd >= 3 && t.fds[i].dev.Some? && t.fds[i].dev.value.Device?)
    && (forall i: Slot :: Excl(t.fds[i]) ==> IsDev(t.fds[i]))
  }

  /** The descriptors that refer to device d. */
  ghost function Refs(t: Table, d: Dev): set<Slot> {
    set i: Slot | t.fds[i].dev == Some(d)
  }

  ghost function Open(t: Table): set<Slot> {
    set i: Slot | t.fds[i].dev.Some?
  }

  /** Any call on the table.  Closing needs an open descriptor, as the code dereferences its device. */
  datatype Op =
    | OpOpen(found: Option<Dev>, flags: bv32, driver: int)
    | OpClose(i: int, rval: int)
    | OpIoctl(i: int, req: Request, handler: Option<int>)
    | OpFcntl(i: int, cmd: Command, arg: bv32)
    | OpRedirect(target: Slot, found: Option<Dev>, flags: bv32, driver: int)

  predicate Callable(t: Table, op: Op) {
    match op
    case OpOpen(_, _, _) => true
    case OpClose(i, _) => i < MAX_FD && (i >= 0 ==> t.fds[i].dev.Some?)
    case OpIoctl(i, _, _) => i < MAX_FD && (i >= 0 ==> t.fds[i].dev.Some?)
    case OpFcntl(i, _, _) => i < MAX_FD
    case OpRedirect(target, _, _, _) => target < 3
  }

  function Exec(t: Table, op: Op): Table
    requires Callable(t, op)
  {
    match op
    case OpOpen(found, flags, driver) => OpenCall(t, found, flags, driver).0
    case OpClose(i, rval) => CloseCall(t, i, rval).0
    case OpIoctl(i, req, handler) => IoctlCall(t, i, req, handler).0
    case OpFcntl(i, cmd, arg) => FcntlCall(t, i, cmd, arg).0
    case OpRedirect(target, found, flags, driver) => RedirectCall(t, target, found, flags, driver)
  }

  ghost predicate Runs(t: Table, ops: seq<Op>, u: Table)
    decreases |ops|
  {
    if ops == [] then t == u
    else Callable(t, ops[0]) && Runs(Exec(t, ops[0]), ops[1..], u)
  }

  // ---------------------------------------------------------------- flag words

  lemma OpenBits(flags: bv32)
    ensures !HasExcl(OpenFlags(flags)) && !HasDev(OpenFlags(flags))
    ensures !HasExcl(DevFlags(flags)) && HasDev(DevFlags(flags))
  {
  }

  lemma SetBits(flags: bv32)
    ensures HasExcl(SetExcl(flags)) && HasDev(SetExcl(flags)) == HasDev(flags)
  {
    assert SetExcl(flags) & FD_DEV == flags & FD_DEV;
  }

  lemma ClearBits(flags: bv32)
    ensures !HasExcl(ClearExcl(flags)) && HasDev(ClearExcl(flags)) == HasDev(flags)
  {
    assert ClearExcl(flags) & FD_DEV == flags & FD_DEV;
  }

  lemma StatusBits(flags: bv32, arg: bv32)
    ensures HasExcl(SetStatus(flags, arg)) == HasExcl(flags)
    ensures HasDev(SetStatus(flags, arg)) == HasDev(flags)
  {
    assert SetStatus(flags, arg) & FD_EXCL == flags & FD_EXCL;
    assert SetStatus(flags, arg) & FD_DEV == flags & FD_DEV;
  }

  lemma FlagBits(flags: bv32, arg: bv32)
    ensures !HasExcl(0) && !HasDev(0)
    ensures !HasExcl(OpenFlags(flags)) && !HasDev(OpenFlags(flags))
    ensures !HasExcl(DevFlags(flags)) && HasDev(DevFlags(flags))
    ensures HasExcl(SetExcl(flags)) && HasDev(SetExcl(flags)) == HasDev(flags)
    ensures !HasExcl(ClearExcl(flags)) && HasDev(ClearExcl(flags)) == HasDev(flags)
    ensures HasExcl(SetStatus(flags, arg)) == HasExcl(flags) && HasDev(SetStatus(flags, arg)) == HasDev(flags)
  {
    assert !HasExcl(0) && !HasDev(0);
    hide HasExcl, HasDev, OpenFlags, DevFlags, SetExcl, ClearExcl, SetStatus;
    OpenBits(flags);
    SetBits(flags);
    ClearBits(flags);
    StatusBits(flags, arg);
  }

  // ---------------------------------------------------------------- allocation and rollback

  /** The same descriptors are open, and they are unchanged. */
  ghost predicate SameOpen(t: Table, u: Table) {
    && (forall i: Slot :: t.fds[i].dev.Some? ==> u.fds[i] == t.fds[i])
    && (forall i: Slot :: t.fds[i].dev.None? ==> u.fds[i].dev.None?)
  }

  /** Opening hands out the least free index, never one of the first three, and touches no other
      descriptor.  A failed open leaves the open descriptors as they were. */
  lemma OpenAllocates(t: Table, found: Option<Dev>, flags: bv32, driver: int)
    requires TableOk(t)
    ensures var (u, r) := OpenCall(t, found, flags, driver);
            && (r.Value? ==>
                 && 3 <= r.v < MAX_FD
                 && t.fds[r.v].dev.None?
                 && (forall k: Slot :: k < r.v ==> t.fds[k].dev.Some?)
                 && u.fds == t.fds[r.v := u.fds[r.v]] && u.fds[r.v].dev == found
                 && !Excl(u.fds[r.v])
                 && (IsDev(u.fds[r.v]) <==> found.value.Device?)
                 && r.v <= u.maxFd)
            && (r.Fail? ==> SameOpen(t, u) && forall i: Slot :: u.fds[i] == t.fds[i] || u.fds[i] == Fd(None, 0))
            && (u.maxFd == t.maxFd || (t.maxFd < u.maxFd == FirstFree(t.fds, 0)))
  {
    OpenOutcome(t, found, flags, driver);
    var i := FirstFree(t.fds, 0);
    if i < MAX_FD && found.Some? {
      OpenedIsNew(t, i, found.value, flags);
      RolledBack(t, i, found.value, flags);
    }
    hide OpenCall, FirstFree, Opened, Released, TableOk, HasExcl, HasDev;
  }

  /** The three ways an open can go: not begun, rolled back, or done. */
  lemma OpenOutcome(t: Table, found: Option<Dev>, flags: bv32, driver: int)
    ensures var (u, r) := OpenCall(t, found, flags, driver);
            var i := FirstFree(t.fds, 0);
            if found.None? || i == MAX_FD then r.Fail? && u == t
            else if r.Fail? then u == Released(Opened(t, i, found.value, flags), i)
            else r == Value(i) && u == Opened(t, i, found.value, flags)
  {
    hide FirstFree, Opened, Released, Locked;
  }

  lemma OpenedIsNew(t: Table, i: Slot, d: Dev, flags: bv32)
    requires TableOk(t) && t.fds[i].dev.None?
    ensures var u := Opened(t, i, d, flags);
            && 3 <= i <= u.maxFd && u.maxFd == (if i > t.maxFd then i else t.maxFd)
            && u.fds == t.fds[i := u.fds[i]] && u.fds[i].dev == Some(d)
            && !Excl(u.fds[i]) && (IsDev(u.fds[i]) <==> d.Device?)
  {
    FlagBits(flags, 0);
    hide HasExcl, HasDev, OpenFlags, DevFlags, SetExcl, ClearExcl, SetStatus;
  }

  lemma RolledBack(t: Table, i: Slot, d: Dev, flags: bv32)
    requires TableOk(t) && t.fds[i].dev.None?
    ensures var u := Released(Opened(t, i, d, flags), i);
            && u.maxFd == (if i > t.maxFd then i else t.maxFd)
            && u.fds == t.fds[i := Fd(None, 0)]
            && SameOpen(t, u)
  {
    OpenedIsNew(t, i, d, flags);
    hide Opened, HasExcl, HasDev;
  }

  /** Rolling back, or never having begun, keeps the table well formed. */
  lemma SameOpenOk(t: Table, u: Table)
    requires TableOk(t) && SameOpen(t, u) && t.maxFd <= u.maxFd < MAX_FD
    requires forall i: Slot :: u.fds[i] == t.fds[i] || u.fds[i] == Fd(None, 0)
    ensures TableOk(u)
  {
    FlagBits(0, 0);
    hide HasExcl, HasDev;
  }

  lemma OneOpenedOk(t: Table, u: Table, i: Slot)
    requires TableOk(t) && 3 <= i <= u.maxFd < MAX_FD && t.maxFd <= u.maxFd
    requires u.fds == t.fds[i := u.fds[i]] && u.fds[i].dev.Some?
    requires !Excl(u.fds[i]) && (IsDev(u.fds[i]) ==> u.fds[i].dev.value.Device?)
    ensures TableOk(u)
  {
    hide HasExcl, HasDev;
  }

  lemma OpenKeeps(t: Table, found: Option<Dev>, flags: bv32, driver: int)
    requires TableOk(t)
    ensures TableOk(OpenCall(t, found, flags, driver).0)
  {
    OpenAllocates(t, found, flags, driver);
    var (u, r) := OpenCall(t, found, flags, driver);
    hide OpenCall, HasExcl, HasDev;
    if r.Value? {
      OneOpenedOk(t, u, r.v);
    } else {
      SameOpenOk(t, u);
    }
    hide TableOk;
  }

  lemma CloseKeeps(t: Table, i: int, driver: int)
    requires TableOk(t) && i < MAX_FD
    ensures TableOk(CloseCall(t, i, driver).0)
  {
    FlagBits(0, 0);
    hide HasExcl, HasDev, OpenFlags, DevFlags, SetExcl, ClearExcl, SetStatus;
  }

  lemma FlagsKeep(t: Table, i: Slot, flags: bv32)
    requires TableOk(t)
    requires HasDev(flags) == IsDev(t.fds[i])
    requires HasExcl(flags) ==> IsDev(t.fds[i])
    ensures TableOk(WithFlags(t, i, flags))
  {
    hide HasExcl, HasDev;
  }

  lemma IoctlKeeps(t: Table, i: int, req: Request, handler: Option<int>)
    requires TableOk(t) && i < MAX_FD
    ensures TableOk(IoctlCall(t, i, req, handler).0)
  {
    hide HasExcl, HasDev, OpenFlags, DevFlags, SetExcl, ClearExcl, SetStatus;
    hide Refused;
    if i >= 0 && IsDev(t.fds[i]) {
      FlagBits(t.fds[i].flags, 0);
      FlagsKeep(t, i, SetExcl(t.fds[i].flags));
      FlagsKeep(t, i, ClearExcl(t.fds[i].flags));
    }
    hide TableOk;
  }

  lemma FcntlKeeps(t: Table, i: int, cmd: Command, arg: bv32)
    requires TableOk(t) && i < MAX_FD
    ensures TableOk(FcntlCall(t, i, cmd, arg).0)
  {
    hide HasExcl, HasDev, OpenFlags, DevFlags, SetExcl, ClearExcl, SetStatus;
    if i >= 0 {
      FlagBits(t.fds[i].flags, arg);
      FlagsKeep(t, i, SetStatus(t.fds[i].flags, arg));
    }
    hide TableOk;
  }

  /** A standard stream takes over the descriptor just opened, whose slot is freed. */
  lemma HandOverOk(u: Table, target: Slot, i: Slot)
    requires TableOk(u) && target < 3 <= i && u.fds[i].dev.Some?
    ensures TableOk(Released(u.(fds := u.fds[target := u.fds[i]]), i))
  {
    FlagBits(0, 0);
    hide HasExcl, HasDev;
  }

  /** Redirection leaves no extra descriptor behind: all others are as they were. */
  lemma RedirectReplaces(t: Table, target: Slot, found: Option<Dev>, flags: bv32, driver: int)
    requires TableOk(t) && target < 3
    ensures var u := RedirectCall(t, target, found, flags, driver);
            && TableOk(u)
            && (forall k: Slot :: k != target && t.fds[k].dev.Some? ==> u.fds[k] == t.fds[k])
            && (forall k: Slot :: k != target ==> (u.fds[k].dev.Some? <==> t.fds[k].dev.Some?))
            && (if OpenCall(t, found, flags, driver).1.Value?
                then u.fds[target].dev == found && !Excl(u.fds[target])
                else u.fds[target] == t.fds[target])
  {
    OpenAllocates(t, found, flags, driver);
    OpenKeeps(t, found, flags, driver);
    var (o, r) := OpenCall(t, found, flags, driver);
    if r.Value? {
      HandOverOk(o, target, r.v);
    }
    assert t.fds[target].dev.Some?;
    hide OpenCall, HasExcl, HasDev, TableOk;
  }

  /** Every call keeps the table well formed. */
  lemma ExecKeeps(t: Table, op: Op)
    requires TableOk(t) && Callable(t, op)
    ensures TableOk(Exec(t, op))
  {
    hide TableOk, OpenCall, CloseCall, IoctlCall, FcntlCall, RedirectCall;
    match op
    case OpOpen(found, flags, driver) => OpenKeeps(t, found, flags, driver);
    case OpClose(i, rval) => CloseKeeps(t, i, rval);
    case OpIoctl(i, req, handler) => IoctlKeeps(t, i, req, handler);
    case OpFcntl(i, cmd, arg) => FcntlKeeps(t, i, cmd, arg);
    case OpRedirect(target, found, flags, driver) => RedirectReplaces(t, target, found, flags, driver);
  }

  lemma InitialOk(nullDev: Dev)
    ensures TableOk(Initial(nullDev))
  {
  }

  // ---------------------------------------------------------------- exclusive locks

  /** Descriptor h holds the exclusive lock on device d. */
  predicate Holds(t: Table, h: Slot, d: Dev) {
    t.fds[h].dev == Some(d) && Excl(t.fds[h])
  }

  /** The calls that give the lock up: unlocking or closing the holder, or redirecting it. */
  predicate GivesUp(op: Op, h: Slot) {
    match op
    case OpClose(i, _) => i == h
    case OpIoctl(i, req, _) => i == h && req == Tiocnxcl
    case OpRedirect(target, _, _, _) => target == h
    case _ => false
  }

  /** No open of a locked device succeeds. */
  lemma LockedOpensFail(t: Table, h: Slot, d: Dev, flags: bv32, driver: int)
    requires TableOk(t) && Holds(t, h, d)
    ensures OpenCall(t, Some(d), flags, driver).1 in {Fail(Access), Fail(TooMany)}
  {
    hide HasExcl, HasDev, OpenFlags, DevFlags, SetExcl, ClearExcl, SetStatus;
    var i := FirstFree(t.fds, 0);
    if i < MAX_FD {
      FlagBits(flags, 0);
      var a := WithFlags(Allocated(t, i, d), i, DevFlags(flags));
      assert h != i && a.fds[h] == t.fds[h];
      assert Locked(a, i);
    }
  }

  lemma OpenRespectsLock(t: Table, h: Slot, d: Dev, found: Option<Dev>, flags: bv32, driver: int)
    requires TableOk(t) && Holds(t, h, d)
    ensures Holds(OpenCall(t, found, flags, driver).0, h, d)
    ensures Refs(OpenCall(t, found, flags, driver).0, d) <= Refs(t, d)
  {
    hide HasExcl, HasDev, OpenFlags, DevFlags, SetExcl, ClearExcl, SetStatus;
    if found == Some(d) {
      LockedOpensFail(t, h, d, flags, driver);
    }
    OpenAllocates(t, found, flags, driver);
    hide OpenCall, TableOk;
  }

  lemma RedirectRespectsLock(t: Table, h: Slot, d: Dev, target: Slot, found: Option<Dev>, flags: bv32, driver: int)
    requires TableOk(t) && Holds(t, h, d) && target < 3 && target != h
    ensures Holds(RedirectCall(t, target, found, flags, driver), h, d)
    ensures Refs(RedirectCall(t, target, found, flags, driver), d) <= Refs(t, d)
  {
    hide HasExcl, HasDev, OpenFlags, DevFlags, SetExcl, ClearExcl, SetStatus;
    if found == Some(d) {
      LockedOpensFail(t, h, d, flags, driver);
    }
    RedirectReplaces(t, target, found, flags, driver);
    hide OpenCall, RedirectCall, TableOk;
  }

  lemma FlagCallsRespectLock(t: Table, op: Op, h: Slot, d: Dev)
    requires Holds(t, h, d) && Callable(t, op) && !GivesUp(op, h)
    requires op.OpIoctl? || op.OpFcntl? || op.OpClose?
    ensures Holds(Exec(t, op), h, d)
    ensures Refs(Exec(t, op), d) <= Refs(t, d)
  {
    FlagBits(t.fds[h].flags, if op.OpFcntl? then op.arg else 0);
    hide HasExcl, HasDev, OpenFlags, DevFlags, SetExcl, ClearExcl, SetStatus;
    hide Refused;
  }

  /** One call cannot take the lock away, nor add a reference to the locked device. */
  lemma LockSurvives(t: Table, op: Op, h: Slot, d: Dev)
    requires TableOk(t) && Holds(t, h, d) && Callable(t, op) && !GivesUp(op, h)
    ensures Holds(Exec(t, op), h, d)
    ensures Refs(Exec(t, op), d) <= Refs(t, d)
  {
    hide TableOk, Holds, Refs;
    match op
    case OpOpen(found, flags, driver) => OpenRespectsLock(t, h, d, found, flags, driver);
    case OpRedirect(target, found, flags, driver) => RedirectRespectsLock(t, h, d, target, found, flags, driver);
    case _ => FlagCallsRespectLock(t, op, h, d);
  }

  ghost predicate NoneGivesUp(ops: seq<Op>, h: Slot) {
    forall k | 0 <= k < |ops| :: !GivesUp(ops[k], h)
  }

  /** Over any sequence of calls that does not give it up, the lock holds, no reference to the
      device is added, and afterwards it still cannot be opened. */
  lemma {:induction false} LockSafety(t: Table, ops: seq<Op>, u: Table, h: Slot, d: Dev)
    requires TableOk(t) && Holds(t, h, d) && Runs(t, ops, u) && NoneGivesUp(ops, h)
    ensures TableOk(u) && Holds(u, h, d)
    ensures Refs(u, d) <= Refs(t, d)
    ensures forall flags: bv32, driver: int :: OpenCall(u, Some(d), flags, driver).1.Fail?
    decreases |ops|
  {
    hide TableOk, Holds, Exec, Callable, OpenCall, GivesUp, Refs;
    if ops == [] {
      forall flags: bv32, driver: int
        ensures OpenCall(u, Some(d), flags, driver).1.Fail?
      {
        LockedOpensFail(t, h, d, flags, driver);
      }
    } else {
      ExecKeeps(t, ops[0]);
      LockSurvives(t, ops[0], h, d);
      LockSafety(Exec(t, ops[0]), ops[1..], u, h, d);
    }
  }

  /** fcntl can neither read, set nor clear the lock bit. */
  lemma FcntlLeavesLock(t: Table, i: Slot, cmd: Command, arg: bv32)
    ensures var (u, word, _) := FcntlCall(t, i, cmd, arg);
            !HasExcl(word) && !HasDev(word) && Excl(u.fds[i]) == Excl(t.fds[i]) && IsDev(u.fds[i]) == IsDev(t.fds[i])
  {
    hide HasExcl, HasDev, OpenFlags, DevFlags, SetExcl, ClearExcl, SetStatus;
    FlagBits(t.fds[i].flags, arg);
  }

  /** Nobody else refers to the device of descriptor i. */
  ghost predicate Sole(t: Table, i: Slot) {
    forall k: Slot :: k != i ==> t.fds[k].dev != t.fds[i].dev
  }

  /** The scan for other references stops one short of the high-water mark.  A lock request on a
      device descriptor is granted exactly when that is justified, unless the descriptor at the
      mark is the only other reference. */
  lemma LockGrantedIff(t: Table, i: Slot)
    requires TableOk(t) && IsDev(t.fds[i])
    ensures LockCall(t, i).1 == Value(0) <==>
            Sole(t, i) || (t.maxFd != i && t.fds[t.maxFd].dev == t.fds[i].dev
                           && forall k: Slot :: k != i && k != t.maxFd ==> t.fds[k].dev != t.fds[i].dev)
  {
  }

  /** Two opens of one device, then a lock on the first: granted, although there are two users. */
  lemma LockNotExclusive()
    ensures var d := Device(1);
            var (t1, r1) := OpenCall(Initial(Device(0)), Some(d), 0, 0);
            var (t2, r2) := OpenCall(t1, Some(d), 0, 0);
            r1 == Value(3) && r2 == Value(4) && LockCall(t2, 3).1 == Value(0) && !Sole(t2, 3)
  {
    var d, t0 := Device(1), Initial(Device(0));
    InitialOk(Device(0));
    assert FirstFree(t0.fds, 0) == 3;
    FirstOpened(t0, 3, d);
    var t1 := OpenCall(t0, Some(d), 0, 0).0;
    assert FirstFree(t1.fds, 0) == 4;
    FirstOpened(t1, 4, d);
    hide FirstFree, OpenCall, HasExcl, HasDev, Initial;
    var t2 := OpenCall(t1, Some(d), 0, 0).0;
    assert t2.fds[4].dev == t2.fds[3].dev == Some(d) && t2.maxFd == 4;
    assert forall k: Slot :: k < 3 ==> t2.fds[k] == t0.fds[k] && t0.fds[k].dev != Some(d);
  }

  /** Opening an unlocked device at the given free index. */
  lemma FirstOpened(t: Table, i: Slot, d: Dev)
    requires TableOk(t) && FirstFree(t.fds, 0) == i && d.Device? && forall k: Slot :: !Excl(t.fds[k])
    ensures var (u, r) := OpenCall(t, Some(d), 0, 0);
            && r == Value(i) && u.maxFd == (if i > t.maxFd then i else t.maxFd)
            && TableOk(u) && u.fds == t.fds[i := u.fds[i]] && u.fds[i].dev == Some(d)
            && forall k: Slot :: !Excl(u.fds[k])
  {
    OpenedIsNew(t, i, d, 0);
    OpenKeeps(t, Some(d), 0, 0);
    hide FirstFree, Opened, HasExcl, HasDev, TableOk;
  }
}
