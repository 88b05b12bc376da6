/** The file descriptor pool: allocation with a high-water mark, exclusive locks and the
    system calls built on them, as functions of the table. */
module FdTable {
  import opened Common

  const MAX_FD: int := 32

  const FD_EXCL: bv32 := 0x8000_0000
  const FD_DEV: bv32 := 0x4000_0000
  const FD_FLAGS_MASK: bv32 := 0xC000_0000

  /** O_APPEND | O_NONBLOCK. */
  const FCNTL_FLAGS_MASK: bv32 := 0x0000_4008

  /** What a descriptor refers to.  Only devices take part in locking. */
  datatype Dev = Device(id: nat) | FileSystem(id: nat)

  datatype Fd = Fd(dev: Option<Dev>, flags: bv32)

  type Pool = s: seq<Fd> | |s| == MAX_FD witness seq(MAX_FD, _ => Fd(None, 0))
  type Slot = i: int | 0 <= i < MAX_FD

  datatype Table = Table(fds: Pool, maxFd: int)

  datatype Error = Access | TooMany | NoDevice | BadFd | NotTty | Invalid | Driver(code: int)

  /** A non-negative return value, or an error. */
  datatype Return = Value(v: int) | Fail(error: Error)

  predicate HasExcl(flags: bv32) { flags & FD_EXCL != 0 }
  predicate HasDev(flags: bv32) { flags & FD_DEV != 0 }

  predicate Excl(fd: Fd) { HasExcl(fd.flags) }
  predicate IsDev(fd: Fd) { HasDev(fd.flags) }

  /** The caller's open flags without the two internal bits. */
  function OpenFlags(flags: bv32): bv32 { flags & !FD_FLAGS_MASK }
  function SetDev(flags: bv32): bv32 { flags | FD_DEV }
  function DevFlags(flags: bv32): bv32 { SetDev(OpenFlags(flags)) }
  function SetExcl(flags: bv32): bv32 { flags | FD_EXCL }
  function ClearExcl(flags: bv32): bv32 { flags & !FD_EXCL }

  /** F_SETFL changes only the append and non-blocking bits. */
  function SetStatus(flags: bv32, arg: bv32): bv32 {
    (flags & !FCNTL_FLAGS_MASK) | (arg & FCNTL_FLAGS_MASK)
  }

  // ---------------------------------------------------------------- allocation

  /** First free index at or above i, or MAX_FD. */
  function FirstFree(fds: Pool, i: nat): (r: nat)
    requires i <= MAX_FD
    ensures i <= r <= MAX_FD
    ensures forall k | i <= k < r :: fds[k].dev.Some?
    ensures r < MAX_FD ==> fds[r].dev.None?
    decreases MAX_FD - i
  {
    if i == MAX_FD || fds[i].dev.None? then i else FirstFree(fds, i + 1)
  }

  /** alt_get_fd on a table with a free index. */
  function Allocated(t: Table, i: Slot, d: Dev): Table {
    Table(t.fds[i := t.fds[i].(dev := Some(d))], if i > t.maxFd then i else t.maxFd)
  }

  /** alt_release_fd: the first three descriptors are never released. */
  function Released(t: Table, i: int): Table
    requires i < MAX_FD
  {
    if i > 2 then t.(fds := t.fds[i := Fd(None, 0)]) else t
  }

  // ---------------------------------------------------------------- locks

  /** The scan of alt_file_locked, up to and including the high-water mark. */
  predicate Locked(t: Table, i: Slot) {
    exists k: Slot :: k <= t.maxFd && k != i && t.fds[k].dev == t.fds[i].dev && Excl(t.fds[k])
  }

  /** The scan of alt_fd_lock, which stops short of the high-water mark. */
  predicate Refused(t: Table, i: Slot) {
    exists k: Slot :: k < t.maxFd && k != i && t.fds[k].dev == t.fds[i].dev
  }

  function WithFlags(t: Table, i: Slot, flags: bv32): Table {
    t.(fds := t.fds[i := t.fds[i].(flags := flags)])
  }

  function LockCall(t: Table, i: Slot): (Table, Return) {
    if Refused(t, i) then (t, Fail(Access))
    else (WithFlags(t, i, SetExcl(t.fds[i].flags)), Value(0))
  }

  function UnlockCall(t: Table, i: Slot): (Table, Return) {
    (WithFlags(t, i, ClearExcl(t.fds[i].flags)), Value(0))
  }

  // ---------------------------------------------------------------- system calls

  /** The table when the new descriptor has its flags, before locks are looked for. */
  function Opened(t: Table, i: Slot, d: Dev, flags: bv32): Table {
    WithFlags(Allocated(t, i, d), i, if d.Device? then DevFlags(flags) else OpenFlags(flags))
  }

  /** ALT_OPEN.  found is what the name lookup returned, driver what the open callback of the
      device or file system returns, or 0 if there is none. */
  function OpenCall(t: Table, found: Option<Dev>, flags: bv32, driver: int): (Table, Return) {
    if found.None? then (t, Fail(NoDevice))
    else
      var i := FirstFree(t.fds, 0);
      if i == MAX_FD then (t, Fail(TooMany))
      else
        var a := Opened(t, i, found.value, flags);
        if found.value.Device? && Locked(a, i) then (Released(a, i), Fail(Access))
        else if driver < 0 then (Released(a, i), Fail(Driver(-driver)))
        else (a, Value(i))
  }

  /** ALT_CLOSE; driver is the close callback's result, or 0. */
  function CloseCall(t: Table, i: int, driver: int): (Table, Return)
    requires i < MAX_FD
  {
    if i < 0 then (t, Fail(BadFd))
    else (Released(t, i), if driver < 0 then Fail(Driver(-driver)) else Value(0))
  }

  datatype Request = Tiocexcl | Tiocnxcl | Other

  /** ALT_IOCTL; driver is the result of the device's own handler, if it has one. */
  function IoctlCall(t: Table, i: int, req: Request, driver: Option<int>): (Table, Return)
    requires i < MAX_FD
  {
    if i < 0 then (t, Fail(BadFd))
    else if IsDev(t.fds[i]) && req == Tiocexcl then LockCall(t, i)
    else if IsDev(t.fds[i]) && req == Tiocnxcl then UnlockCall(t, i)
    else if driver.None? then (t, Fail(NotTty))
    else (t, if driver.value < 0 then Fail(Driver(-driver.value)) else Value(driver.value))
  }

  datatype Command = GetFl | SetFl | Unknown

  /** ALT_FCNTL; on GetFl the second component is the flag word returned. */
  function FcntlCall(t: Table, i: int, cmd: Command, arg: bv32): (Table, bv32, Return)
    requires i < MAX_FD
  {
    if i < 0 then (t, 0, Fail(BadFd))
    else match cmd
      case GetFl => (t, OpenFlags(t.fds[i].flags), Value(0))
      case SetFl => (WithFlags(t, i, SetStatus(t.fds[i].flags, arg)), 0, Value(0))
      case Unknown => (t, 0, Fail(Invalid))
  }

  /** alt_open_fd: descriptor `target` takes over a freshly opened one. */
  function RedirectCall(t: Table, target: Slot, found: Option<Dev>, flags: bv32, driver: int): Table {
    var (o, r) := OpenCall(t, found, flags, driver);
    if r.Fail? then o
    else Released(o.(fds := o.fds[target := o.fds[r.v]]), r.v)
  }
}
