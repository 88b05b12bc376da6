/** The descriptor pool as the HAL keeps it: an array of descriptors and a high-water mark,
    scanned and updated in place. */
module FdPool {
  import opened Common
  import opened FdTable
  import opened FdTheorems

  // ---------------------------------------------------------------- single assignments

  lemma MarkInRange(t: Table)
    requires TableOk(t)
    ensures -1 <= t.maxFd < MAX_FD
  {
  }

  lemma AllocatedOk(t: Table, i: Slot, d: Dev)
    requires TableOk(t) && t.fds[i].dev.None?
    ensures TableOk(Allocated(t, i, d)) && i >= 3
  {
    var u := Allocated(t, i, d);
    OneOpenedOk(t, u, i);
    hide HasExcl, HasDev;
  }

  lemma ReleasedOk(t: Table, i: int)
    requires TableOk(t) && i < MAX_FD
    ensures TableOk(Released(t, i))
  {
    CloseKeeps(t, i, 0);
    hide TableOk;
  }

  lemma PlainOk(t: Table, i: Slot, flags: bv32)
    requires TableOk(t) && t.fds[i].dev.Some?
    ensures TableOk(WithFlags(t, i, OpenFlags(flags)))
  {
    FlagBits(flags, 0);
    hide HasExcl, HasDev, OpenFlags, DevFlags, SetExcl, ClearExcl, SetStatus;
  }

  lemma MarkedOk(t: Table, i: Slot)
    requires TableOk(t) && 3 <= i && t.fds[i].dev.Some? && t.fds[i].dev.value.Device?
    ensures TableOk(WithFlags(t, i, SetDev(t.fds[i].flags)))
  {
    assert HasDev(SetDev(t.fds[i].flags));
    hide HasExcl, HasDev;
  }

  class Pool32 {
    const fds: array<Fd>
    var maxFd: int

    ghost predicate Shaped()
      reads this
    {
      fds.Length == MAX_FD
    }

    ghost function Value(): Table
      requires Shaped()
      reads this, fds
    {
      Table(fds[..], maxFd)
    }

    /** The table invariant, which every call keeps. */
    ghost predicate Valid()
      reads this, fds
    {
      Shaped() && TableOk(Value())
    }

    constructor (nullDev: Dev)
      ensures Valid() && fresh(fds)
      ensures Value() == Initial(nullDev)
    {
      fds := new Fd[MAX_FD](i => if i < 3 then Fd(Some(nullDev), 0) else Fd(None, 0));
      maxFd := -1;
      new;
      InitialOk(nullDev);
      assert fds[..] == Initial(nullDev).fds;
    }

    /** alt_get_fd: the index, or -1 if the pool is exhausted. */
    method GetFd(d: Dev) returns (rc: int)
      requires Valid()
      modifies this, fds
      ensures Valid()
      ensures var i := FirstFree(old(Value()).fds, 0);
              if i < MAX_FD then rc == i && Value() == Allocated(old(Value()), i, d)
              else rc == -1 && Value() == old(Value())
    {
      hide TableOk;
      rc := -1;
      for i := 0 to MAX_FD
        invariant Valid() && rc == -1 && Value() == old(Value())
        invariant FirstFree(Value().fds, 0) == FirstFree(Value().fds, i)
      {
        if fds[i].dev.None? {
          AllocatedOk(Value(), i, d);
          fds[i] := fds[i].(dev := Some(d));
          if i > maxFd {
            maxFd := i;
          }
          return i;
        }
      }
    }

    /** alt_release_fd. */
    method ReleaseFd(i: int)
      requires Shaped() && i < MAX_FD
      modifies fds
      ensures Value() == Released(old(Value()), i)
      ensures old(Valid()) ==> Valid()
    {
      hide TableOk;
      if Valid() {
        ReleasedOk(Value(), i);
      }
      if i > 2 {
        fds[i] := fds[i].(flags := 0);
        fds[i] := fds[i].(dev := None);
      }
    }

    /** Assigns a flag word. */
    method PutFlags(i: Slot, flags: bv32)
      requires Shaped()
      modifies fds
      ensures Value() == WithFlags(old(Value()), i, flags)
    {
      ghost var t := Value();
      fds[i] := fds[i].(flags := flags);
      assert fds[..] == t.fds[i := t.fds[i].(flags := flags)];
    }

    /** alt_file_locked: marks the descriptor, then scans for a lock up to the high-water mark. */
    method FileLocked(i: Slot) returns (locked: bool)
      requires Valid()
      modifies fds
      ensures Value() == WithFlags(old(Value()), i, SetDev(old(fds[i].flags)))
      ensures 3 <= i && fds[i].dev.Some? && fds[i].dev.value.Device? ==> Valid()
      ensures locked <==> Locked(Value(), i)
    {
      hide TableOk, Excl, SetDev;
      MarkInRange(Value());
      if 3 <= i && fds[i].dev.Some? && fds[i].dev.value.Device? {
        MarkedOk(Value(), i);
      }
      PutFlags(i, SetDev(fds[i].flags));
      ghost var t := Value();
      for k := 0 to maxFd + 1
        invariant Value() == t
        invariant forall j: Slot :: j < k ==> !(j != i && t.fds[j].dev == t.fds[i].dev && Excl(t.fds[j]))
      {
        if fds[k].dev == fds[i].dev && Excl(fds[k]) && k != i {
          return true;
        }
      }
      return false;
    }

    /** alt_fd_lock. */
    method Lock(i: Slot) returns (rc: Return)
      requires Valid()
      modifies fds
      ensures (Value(), rc) == LockCall(old(Value()), i)
      ensures rc == Return.Value(0) ==> Excl(fds[i])
      ensures IsDev(old(fds[i])) ==> Valid()
    {
      hide TableOk, IsDev, SetExcl;
      ghost var t := Value();
      MarkInRange(t);
      for k := 0 to if maxFd < 0 then 0 else maxFd
        invariant Value() == t
        invariant forall j: Slot :: j < k ==> !(j != i && t.fds[j].dev == t.fds[i].dev)
      {
        if k != i && fds[k].dev == fds[i].dev {
          return Fail(Access);
        }
      }
      IoctlKeeps(t, i, Tiocexcl, None);
      assert HasExcl(SetExcl(fds[i].flags)) by { SetBits(fds[i].flags); }
      PutFlags(i, SetExcl(fds[i].flags));
      return Return.Value(0);
    }

    /** ALT_OPEN. */
    method Open(found: Option<Dev>, flags: bv32, driver: int) returns (rc: Return)
      requires Valid()
      modifies this, fds
      ensures Valid() && (Value(), rc) == OpenCall(old(Value()), found, flags, driver)
    {
      hide FirstFree, Locked, Excl, TableOk;
      OpenKeeps(Value(), found, flags, driver);
      if found.None? {
        return Fail(NoDevice);
      }
      var index := GetFd(found.value);
      if index < 0 {
        ReleaseFd(index);
        return Fail(TooMany);
      }
      PlainOk(Value(), index, flags);
      PutFlags(index, OpenFlags(flags));
      var locked := false;
      if found.value.Device? {
        locked := FileLocked(index);
      }
      assert Value() == Opened(old(Value()), index, found.value, flags);
      if locked {
        ReleaseFd(index);
        return Fail(Access);
      }
      if driver < 0 {
        ReleaseFd(index);
        return Fail(Driver(-driver));
      }
      return Return.Value(index);
    }

    /** ALT_CLOSE. */
    method Close(i: int, driver: int) returns (rc: Return)
      requires Valid() && i < MAX_FD
      modifies fds
      ensures Valid() && (Value(), rc) == CloseCall(old(Value()), i, driver)
    {
      hide TableOk;
      if i < 0 {
        return Fail(BadFd);
      }
      ReleaseFd(i);
      return if driver < 0 then Fail(Driver(-driver)) else Return.Value(0);
    }

    /** ALT_IOCTL, with alt_fd_unlock in line. */
    method Ioctl(i: int, req: Request, driver: Option<int>) returns (rc: Return)
      requires Valid() && i < MAX_FD
      modifies fds
      ensures Valid() && (Value(), rc) == IoctlCall(old(Value()), i, req, driver)
    {
      hide Refused, TableOk;
      IoctlKeeps(Value(), i, req, driver);
      if i < 0 {
        return Fail(BadFd);
      }
      if IsDev(fds[i]) {
        if req == Tiocexcl {
          rc := Lock(i);
          return;
        } else if req == Tiocnxcl {
          PutFlags(i, ClearExcl(fds[i].flags));
          return Return.Value(0);
        }
      }
      match driver
      case None => return Fail(NotTty);
      case Some(code) => return if code < 0 then Fail(Driver(-code)) else Return.Value(code);
    }

    /** ALT_FCNTL. */
    method Fcntl(i: int, cmd: Command, arg: bv32) returns (word: bv32, rc: Return)
      requires Valid() && i < MAX_FD
      modifies fds
      ensures Valid() && (Value(), word, rc) == FcntlCall(old(Value()), i, cmd, arg)
    {
      hide TableOk;
      if i < 0 {
        return 0, Fail(BadFd);
      }
      match cmd
      case GetFl => return OpenFlags(fds[i].flags), Return.Value(0);
      case SetFl => SetFlags(i, arg); return 0, Return.Value(0);
      case Unknown => return 0, Fail(Invalid);
    }

    /** The two assignments of F_SETFL. */
    method SetFlags(i: Slot, arg: bv32)
      requires Valid()
      modifies fds
      ensures Valid() && Value() == FcntlCall(old(Value()), i, SetFl, arg).0
    {
      hide TableOk;
      FcntlKeeps(Value(), i, SetFl, arg);
      fds[i] := fds[i].(flags := fds[i].flags & !FCNTL_FLAGS_MASK);
      fds[i] := fds[i].(flags := fds[i].flags | (arg & FCNTL_FLAGS_MASK));
      assert fds[i].flags == SetStatus(old(fds[i].flags), arg);
      hide SetStatus;
      assert fds[..] == old(fds[..])[i := fds[i]];
    }

    /** alt_open_fd. */
    method OpenFd(target: Slot, found: Option<Dev>, flags: bv32, driver: int)
      requires Valid()
      modifies this, fds
      ensures Shaped() && Value() == RedirectCall(old(Value()), target, found, flags, driver)
      ensures target < 3 ==> Valid()
    {
      hide TableOk, OpenCall;
      OpenAllocates(Value(), found, flags, driver);
      if target < 3 {
        RedirectReplaces(Value(), target, found, flags, driver);
      }
      var r := Open(found, flags, driver);
      if r.Value? {
        fds[target] := fds[r.v];
        ReleaseFd(r.v);
      }
    }
  }
}
