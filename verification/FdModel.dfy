// The file descriptor pool as a value: slots, the high-water mark, and what each system call
// makes of them.  Device names are already looked up; what a driver's callback answers is a
// parameter.
module FdModel {
  import opened Wrappers

  /** What a slot refers to.  Devices and file systems are on separate lists. */
  datatype Dev = Null | Device(id: nat) | FileSystem(id: nat)

  datatype Fd = Fd(dev: Dev, priv: int, flags: bv32)

  const EXCL: bv32 := 0x8000_0000
  const DEV: bv32 := 0x4000_0000
  const FLAGS_MASK: bv32 := EXCL | DEV
  const FCNTL_MASK: bv32 := 0x0000_4008   // O_APPEND | O_NONBLOCK

  const EACCES := 13
  const ENODEV := 19
  const EINVAL := 22
  const EMFILE := 24
  const ENOTTY := 25
  const EBADFD := 77

  datatype Pool = Pool(fds: seq<Fd>, maxFd: int)

  datatype Request = TIOCEXCL | TIOCNXCL | Other(code: int)
  datatype Command = F_GETFL | F_SETFL(arg: bv32) | Unknown(code: int)

  /** The answer of a driver callback: its status, and what it leaves in the slot's priv field. */
  datatype Answer = Answer(status: int, priv: int)

  predicate HasExcl(flags: bv32) { flags & EXCL != 0 }

  predicate HasDev(flags: bv32) { flags & DEV != 0 }

  function SetExcl(flags: bv32): bv32 { flags | EXCL }

  function ClearExcl(flags: bv32): bv32 { flags & !EXCL }

  function SetDev(flags: bv32): bv32 { flags | DEV }

  /** The flags without the two that the pool keeps for itself. */
  function UserFlags(flags: bv32): bv32 { flags & !FLAGS_MASK }

  /** fcntl's update of the flags it may change. */
  function Updated(flags: bv32, arg: bv32): bv32 { (flags & !FCNTL_MASK) | (arg & FCNTL_MASK) }

  /** The slot holds its device for exclusive use. */
  predicate Locks(f: Fd) { HasExcl(f.flags) }

  predicate IsDev(f: Fd) { HasDev(f.flags) }

  const FREE := Fd(Null, 0, 0)

  // ---------------------------------------------------------------- allocation

  /** The first free slot at or after i, or the number of slots. */
  function FirstFree(fds: seq<Fd>, i: nat): (r: nat)
    requires i <= |fds|
    ensures i <= r <= |fds|
    ensures forall j :: i <= j < r ==> fds[j].dev != Null
    ensures r < |fds| ==> fds[r].dev == Null
    decreases |fds| - i
  {
    if i == |fds| || fds[i].dev == Null then i else FirstFree(fds, i + 1)
  }

  /** alt_get_fd */
  function GetFd(p: Pool, dev: Dev): (Pool, int) {
    var i := FirstFree(p.fds, 0);
    if i == |p.fds| then (p, -EMFILE)
    else (Pool(p.fds[i := p.fds[i].(dev := dev)], if i > p.maxFd then i else p.maxFd), i)
  }

  /** alt_release_fd: the standard descriptors stay. */
  function Release(p: Pool, fd: int): Pool
    requires fd < |p.fds|
  {
    if fd > 2 then p.(fds := p.fds[fd := p.fds[fd].(flags := 0, dev := Null)]) else p
  }

  // ---------------------------------------------------------------- open

  /** Some other slot up to the high-water mark holds a lock on fd's device. */
  predicate LockedElsewhere(p: Pool, fd: nat)
    requires fd < |p.fds| && p.maxFd < |p.fds|
  {
    exists i :: 0 <= i <= p.maxFd && i != fd && p.fds[i].dev == p.fds[fd].dev && Locks(p.fds[i])
  }

  /** The slot that open has just taken is given its flags; a device must not be locked. */
  function Claim(p: Pool, fd: nat, flags: bv32, answer: Answer): (Pool, int)
    requires fd < |p.fds| && p.maxFd < |p.fds|
  {
    var f := p.fds[fd].(flags := UserFlags(flags));
    if f.dev.FileSystem? then (p.(fds := p.fds[fd := f.(priv := answer.priv)]), answer.status)
    else
      var g := f.(flags := SetDev(f.flags));
      var q := p.(fds := p.fds[fd := g]);
      if LockedElsewhere(q, fd) then (q, -EACCES)
      else (q.(fds := q.fds[fd := g.(priv := answer.priv)]), answer.status)
  }

  /** ALT_OPEN of a name that stands for `dev`; the result is a descriptor or a negated error. */
  function Open(p: Pool, dev: Dev, flags: bv32, answer: Answer): (Pool, int)
    requires p.maxFd < |p.fds|
  {
    if dev == Null then (p, -ENODEV)
    else
      var (q, index) := GetFd(p, dev);
      if index < 0 then (q, index)
      else
        var (r, status) := Claim(q, index, flags, answer);
        if status < 0 then (Release(r, index), status) else (r, index)
  }

  // ---------------------------------------------------------------- the other calls

  /** alt_fd_lock: the scan stops short of the high-water mark. */
  predicate HeldBelowMark(p: Pool, fd: nat)
    requires fd < |p.fds| && p.maxFd < |p.fds|
  {
    exists i :: 0 <= i < p.maxFd && i != fd && p.fds[i].dev == p.fds[fd].dev
  }

  function FdLock(p: Pool, fd: nat): (Pool, int)
    requires fd < |p.fds| && p.maxFd < |p.fds|
  {
    if HeldBelowMark(p, fd) then (p, -EACCES)
    else (p.(fds := p.fds[fd := p.fds[fd].(flags := SetExcl(p.fds[fd].flags))]), 0)
  }

  /** alt_fd_unlock */
  function FdUnlock(p: Pool, fd: nat): (Pool, int)
    requires fd < |p.fds|
  {
    (p.(fds := p.fds[fd := p.fds[fd].(flags := ClearExcl(p.fds[fd].flags))]), 0)
  }

  /** A driver's own ioctl, if it has one. */
  function DriverIoctl(p: Pool, fd: nat, driver: Option<Answer>): (Pool, int)
    requires fd < |p.fds|
  {
    match driver
    case None => (p, -ENOTTY)
    case Some(a) => (p.(fds := p.fds[fd := p.fds[fd].(priv := a.priv)]), a.status)
  }

  /** ALT_IOCTL on a descriptor in use. */
  function Ioctl(p: Pool, fd: nat, req: Request, driver: Option<Answer>): (Pool, int)
    requires fd < |p.fds| && p.maxFd < |p.fds|
  {
    if IsDev(p.fds[fd]) && req == TIOCEXCL then FdLock(p, fd)
    else if IsDev(p.fds[fd]) && req == TIOCNXCL then FdUnlock(p, fd)
    else DriverIoctl(p, fd, driver)
  }

  /** ALT_CLOSE on a descriptor in use. */
  function Close(p: Pool, fd: nat, answer: Answer): (Pool, int)
    requires fd < |p.fds|
  {
    var called := p.(fds := p.fds[fd := p.fds[fd].(priv := answer.priv)]);
    (Release(called, fd), if answer.status < 0 then answer.status else 0)
  }

  /** What fcntl returns: flags, or a status. */
  datatype Outcome = Flags(flags: bv32) | Status(status: int)

  /** ALT_FCNTL */
  function Fcntl(p: Pool, fd: nat, cmd: Command): (Pool, Outcome)
    requires fd < |p.fds|
  {
    match cmd
    case F_GETFL => (p, Flags(UserFlags(p.fds[fd].flags)))
    case F_SETFL(arg) =>
      (p.(fds := p.fds[fd := p.fds[fd].(flags := Updated(p.fds[fd].flags, arg))]), Status(0))
    case Unknown(_) => (p, Status(-EINVAL))
  }

  /** alt_open_fd: open, copy into a standard slot, release. */
  function OpenInto(p: Pool, slot: nat, dev: Dev, flags: bv32, answer: Answer): Pool
    requires p.maxFd < |p.fds| && slot < |p.fds|
  {
    var (q, old_) := Open(p, dev, flags, answer);
    if old_ < 0 then q
    else
      var r := q.(fds := q.fds[slot := q.fds[old_]]);
      Release(r, old_)
  }
}
