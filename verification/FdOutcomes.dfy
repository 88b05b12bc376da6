/** What each call on the descriptor table achieves: exactly when it succeeds, what holds
    afterwards, and what undoes it. */
module FdOutcomes {
  import opened Common
  import opened FdTable
  import opened FdTheorems

  // ---------------------------------------------------------------- open and close

  /** Some descriptor holds the exclusive lock on d. */
  ghost predicate Claimed(t: Table, d: Dev) {
    exists h: Slot :: Holds(t, h, d)
  }

  ghost predicate SomeFree(t: Table) {
    exists i: Slot :: t.fds[i].dev.None?
  }

  lemma FreeIff(t: Table)
    ensures FirstFree(t.fds, 0) < MAX_FD <==> SomeFree(t)
  {
    hide FirstFree;
  }

  /** The scan sees every lock there is. */
  lemma ScanSeesLocks(t: Table, i: Slot, d: Dev, flags: bv32)
    requires TableOk(t) && t.fds[i].dev.None?
    ensures Locked(Opened(t, i, d, flags), i) <==> Claimed(t, d)
  {
    OpenedIsNew(t, i, d, flags);
    var a := Opened(t, i, d, flags);
    hide Opened, HasExcl, HasDev;
    if Claimed(t, d) {
      var h: Slot :| Holds(t, h, d);
      assert h != i && a.fds[h] == t.fds[h] && h <= a.maxFd;
    }
    if Locked(a, i) {
      var k: Slot :| k <= a.maxFd && k != i && a.fds[k].dev == a.fds[i].dev && Excl(a.fds[k]);
      assert Holds(t, k, d);
    }
  }

  /** The outcome of an open, for every table: success exactly if the name is known, a slot is
      free, the device is not locked and the driver agrees; otherwise the first of these that
      fails gives the error. */
  lemma OpenResult(t: Table, found: Option<Dev>, flags: bv32, driver: int)
    requires TableOk(t)
    ensures OpenCall(t, found, flags, driver).1
         == if found.None? then Fail(NoDevice)
            else if !SomeFree(t) then Fail(TooMany)
            else if Claimed(t, found.value) then Fail(Access)
            else if driver < 0 then Fail(Driver(-driver))
            else Value(FirstFree(t.fds, 0))
  {
    FreeIff(t);
    var i := FirstFree(t.fds, 0);
    if found.Some? && i < MAX_FD {
      ScanSeesLocks(t, i, found.value, flags);
      OnlyDevicesClaimed(t, found.value);
    }
    hide FirstFree, Opened, Locked, Claimed, SomeFree, TableOk;
  }

  lemma OnlyDevicesClaimed(t: Table, d: Dev)
    requires TableOk(t)
    ensures Claimed(t, d) ==> d.Device?
  {
    hide HasExcl, HasDev;
  }

  /** A descriptor has the flags it was opened with, and is a device's exactly if a device was
      opened. */
  lemma OpenedFlags(t: Table, found: Option<Dev>, flags: bv32, driver: int)
    requires TableOk(t) && OpenCall(t, found, flags, driver).1.Value?
    ensures var (u, r) := OpenCall(t, found, flags, driver);
            && r.v < MAX_FD && u.fds[r.v].dev == found
            && FcntlCall(u, r.v, GetFl, 0).1 == flags & 0x3FFF_FFFF
  {
    OpenAllocates(t, found, flags, driver);
    OpenOutcome(t, found, flags, driver);
    OpenBitsRead(flags);
    hide OpenCall, FirstFree, TableOk, OpenFlags, DevFlags;
  }

  lemma OpenBitsRead(flags: bv32)
    ensures OpenFlags(OpenFlags(flags)) == OpenFlags(DevFlags(flags)) == flags & 0x3FFF_FFFF
  {
    assert OpenFlags(OpenFlags(flags)) == flags & 0x3FFF_FFFF;
    assert OpenFlags(DevFlags(flags)) == flags & 0x3FFF_FFFF;
  }

  /** Closing frees the descriptor, unless it is a standard stream, whatever the driver says. */
  lemma CloseFrees(t: Table, i: int, driver: int)
    requires TableOk(t) && i < MAX_FD
    ensures var (u, r) := CloseCall(t, i, driver);
            && Open(u) == (if i > 2 then Open(t) - {i} else Open(t))
            && (forall k: Slot :: k != i || i <= 2 ==> u.fds[k] == t.fds[k])
            && u.maxFd == t.maxFd
            && r == (if i < 0 then Fail(BadFd) else if driver < 0 then Fail(Driver(-driver)) else Value(0))
  {
    hide TableOk;
  }

  /** Open followed by close gives back the table, but for the high-water mark and what a free
      slot remembers. */
  lemma CloseUndoesOpen(t: Table, found: Option<Dev>, flags: bv32, driver: int, closing: int)
    requires TableOk(t) && OpenCall(t, found, flags, driver).1.Value?
    ensures var (u, r) := OpenCall(t, found, flags, driver);
            && 2 < r.v < MAX_FD
            && SameOpen(t, CloseCall(u, r.v, closing).0)
            && CloseCall(u, r.v, closing).0.fds[r.v] == Fd(None, 0)
  {
    OpenAllocates(t, found, flags, driver);
    hide OpenCall, TableOk, HasExcl, HasDev;
  }

  /** A redirected stream refers to what was opened, with its flags. */
  lemma RedirectedFlags(t: Table, target: Slot, found: Option<Dev>, flags: bv32, driver: int)
    requires TableOk(t) && target < 3
    ensures var u := RedirectCall(t, target, found, flags, driver);
            if OpenCall(t, found, flags, driver).1.Value?
            then u.fds[target].dev == found && FcntlCall(u, target, GetFl, 0).1 == flags & 0x3FFF_FFFF
            else u.fds[target] == t.fds[target]
  {
    OpenAllocates(t, found, flags, driver);
    if OpenCall(t, found, flags, driver).1.Value? {
      OpenedFlags(t, found, flags, driver);
    }
    assert t.fds[target].dev.Some?;
    hide OpenCall, TableOk, OpenFlags, HasExcl, HasDev;
  }

  // ---------------------------------------------------------------- locks

  /** A lock request changes the table only if it is granted, and then the descriptor holds the
      lock on its device. */
  lemma GrantedLockHeld(t: Table, i: Slot)
    requires TableOk(t) && IsDev(t.fds[i])
    ensures var (u, r) := LockCall(t, i);
            && TableOk(u) && (r == Value(0) || (r == Fail(Access) && u == t))
            && (r == Value(0) ==> Holds(u, i, t.fds[i].dev.value))
            && (forall k: Slot :: k != i ==> u.fds[k] == t.fds[k])
  {
    FlagBits(t.fds[i].flags, 0);
    IoctlKeeps(t, i, Tiocexcl, None);
    hide Refused, HasExcl, HasDev, SetExcl;
  }

  /** From a granted request to the first call that gives the lock up, no open of the device
      succeeds and no reference to it is added. */
  lemma LockSafetyFromGrant(t: Table, i: Slot, handler: Option<int>, ops: seq<Op>, u: Table)
    requires TableOk(t) && IsDev(t.fds[i]) && IoctlCall(t, i, Tiocexcl, handler).1 == Value(0)
    requires Runs(IoctlCall(t, i, Tiocexcl, handler).0, ops, u) && NoneGivesUp(ops, i)
    ensures Holds(u, i, t.fds[i].dev.value)
    ensures Refs(u, t.fds[i].dev.value) <= Refs(t, t.fds[i].dev.value)
    ensures forall flags: bv32, driver: int :: OpenCall(u, t.fds[i].dev, flags, driver).1.Fail?
  {
    GrantedLockHeld(t, i);
    var d := t.fds[i].dev.value;
    var l := LockCall(t, i).0;
    assert l.fds[i].dev == t.fds[i].dev;
    assert Refs(l, d) == Refs(t, d);
    hide LockCall, TableOk, Holds, Refs, Runs, OpenCall;
    LockSafety(l, ops, u, i, d);
  }

  /** Unlocking clears this one lock and changes nothing else. */
  lemma UnlockReleases(t: Table, i: Slot, handler: Option<int>)
    requires TableOk(t) && IsDev(t.fds[i])
    ensures var (u, r) := IoctlCall(t, i, Tiocnxcl, handler);
            && TableOk(u) && r == Value(0) && !Excl(u.fds[i]) && u.fds[i].dev == t.fds[i].dev
            && (forall k: Slot :: k != i ==> u.fds[k] == t.fds[k])
  {
    FlagBits(t.fds[i].flags, 0);
    IoctlKeeps(t, i, Tiocnxcl, handler);
    hide HasExcl, HasDev, ClearExcl;
  }

  lemma NoHolderLeft(t: Table, u: Table, h: Slot, d: Dev)
    requires forall k: Slot :: Holds(t, k, d) ==> k == h
    requires forall k: Slot :: k != h ==> u.fds[k] == t.fds[k]
    requires !Holds(u, h, d)
    ensures !Claimed(u, d)
  {
    hide Excl;
    forall k: Slot
      ensures !Holds(u, k, d)
    {
      if k != h {
        assert Holds(u, k, d) <==> Holds(t, k, d);
      }
    }
  }

  lemma SameFree(t: Table, u: Table, i: Slot)
    requires forall k: Slot :: k != i ==> u.fds[k] == t.fds[k]
    requires u.fds[i].dev == t.fds[i].dev
    ensures SomeFree(u) <==> SomeFree(t)
  {
    if SomeFree(t) {
      var k: Slot :| t.fds[k].dev.None?;
      assert u.fds[k].dev.None?;
    }
    if SomeFree(u) {
      var k: Slot :| u.fds[k].dev.None?;
      assert t.fds[k].dev.None?;
    }
  }

  /** After the only holder has unlocked, the device can be opened exactly if a slot is free. */
  lemma UnlockedCanBeOpened(t: Table, h: Slot, d: Dev, handler: Option<int>, flags: bv32, driver: nat)
    requires TableOk(t) && Holds(t, h, d) && forall k: Slot :: Holds(t, k, d) ==> k == h
    ensures OpenCall(IoctlCall(t, h, Tiocnxcl, handler).0, Some(d), flags, driver).1.Value? <==> SomeFree(t)
  {
    assert IsDev(t.fds[h]);
    UnlockReleases(t, h, handler);
    var u := IoctlCall(t, h, Tiocnxcl, handler).0;
    hide IoctlCall, OpenCall, TableOk, HasExcl, HasDev;
    NoHolderLeft(t, u, h, d);
    SameFree(t, u, h);
    OpenResult(u, Some(d), flags, driver);
  }

  /** After the only holder has been closed the device can be opened, unless the holder is a
      standard stream, which is never released. */
  lemma ClosedCanBeOpened(t: Table, h: Slot, d: Dev, closing: int, flags: bv32, driver: nat)
    requires TableOk(t) && Holds(t, h, d) && forall k: Slot :: Holds(t, k, d) ==> k == h
    ensures OpenCall(CloseCall(t, h, closing).0, Some(d), flags, driver).1.Value? <==> h > 2
  {
    CloseFrees(t, h, closing);
    CloseKeeps(t, h, closing);
    var u := CloseCall(t, h, closing).0;
    hide CloseCall, OpenCall, TableOk, HasExcl, HasDev;
    OpenResult(u, Some(d), flags, driver);
    if h > 2 {
      assert h !in Open(u) && u.fds[h].dev.None?;
      NoHolderLeft(t, u, h, d);
    } else {
      assert Holds(u, h, d);
    }
  }

  /** Everything but lock requests on devices goes to the driver and leaves the table alone. */
  lemma OtherRequests(t: Table, i: Slot, req: Request, handler: Option<int>)
    requires !IsDev(t.fds[i]) || req == Other
    ensures IoctlCall(t, i, req, handler).0 == t
    ensures IoctlCall(t, i, req, handler).1
         == match handler
            case None => Fail(NotTty)
            case Some(code) => if code < 0 then Fail(Driver(-code)) else Value(code)
  {
  }

  // ---------------------------------------------------------------- fcntl

  const STATUS_BITS: bv32 := 0x0000_4008

  /** What F_SETFL sets F_GETFL returns, in the append and non-blocking bits; all other bits read
      as before, and no other descriptor changes. */
  lemma SetThenGet(t: Table, i: Slot, arg: bv32)
    ensures var (u, _, r) := FcntlCall(t, i, SetFl, arg);
            var before, after := FcntlCall(t, i, GetFl, 0).1, FcntlCall(u, i, GetFl, 0).1;
            && r == Value(0)
            && after & STATUS_BITS == arg & STATUS_BITS
            && after & !STATUS_BITS == before & !STATUS_BITS
            && (forall k: Slot :: k != i ==> u.fds[k] == t.fds[k])
            && u.fds[i].dev == t.fds[i].dev && u.maxFd == t.maxFd
  {
    StatusRead(t.fds[i].flags, arg);
    hide OpenFlags, SetStatus;
  }

  lemma StatusRead(flags: bv32, arg: bv32)
    ensures OpenFlags(SetStatus(flags, arg)) & STATUS_BITS == arg & STATUS_BITS
    ensures OpenFlags(SetStatus(flags, arg)) & !STATUS_BITS == OpenFlags(flags) & !STATUS_BITS
  {
  }

  /** Reading and unknown commands change nothing, and a negative descriptor is refused. */
  lemma FcntlOtherwise(t: Table, i: int, cmd: Command, arg: bv32)
    requires i < MAX_FD && (i < 0 || cmd != SetFl)
    ensures FcntlCall(t, i, cmd, arg).0 == t
    ensures FcntlCall(t, i, cmd, arg).2
         == if i < 0 then Fail(BadFd) else if cmd == GetFl then Value(0) else Fail(Invalid)
  {
  }
}
