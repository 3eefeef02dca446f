// What each system call on the descriptor pool does, to the bit: its result, the slot it
// changes, and everything it leaves alone.
module FdExact {
  import opened FdModel
  import opened FdSafety
  import opened Wrappers

  /** Only slot fd is changed, and in it neither device nor driver's field. */
  ghost predicate OnlyFlags(p: Pool, q: Pool, fd: nat) {
    && fd < |p.fds| == |q.fds| && q.maxFd == p.maxFd
    && (forall i :: 0 <= i < |p.fds| && i != fd ==> q.fds[i] == p.fds[i])
    && q.fds[fd].dev == p.fds[fd].dev && q.fds[fd].priv == p.fds[fd].priv
  }

  // ---------------------------------------------------------------- flag words

  /** The pool's own two bits, the caller's, and the two that fcntl may set. */
  function LockBit(f: bv32): bv32 { f & 0x8000_0000 }

  function DeviceBit(f: bv32): bv32 { f & 0x4000_0000 }

  function AllButLock(f: bv32): bv32 { f & 0x7FFF_FFFF }

  function CallersBits(f: bv32): bv32 { f & 0x3FFF_FFFF }

  function FcntlBits(f: bv32): bv32 { f & 0x0000_4008 }

  function AllButFcntl(f: bv32): bv32 { f & 0xFFFF_BFF7 }

  lemma LockIsItsBit(f: bv32)
    ensures HasExcl(f) <==> LockBit(f) != 0
  {
  }

  lemma DeviceIsItsBit(f: bv32)
    ensures HasDev(f) <==> DeviceBit(f) != 0
  {
  }

  lemma UnlockKeepsOthers(f: bv32)
    ensures AllButLock(ClearExcl(f)) == AllButLock(f)
  {
  }

  lemma LockKeepsOthers(f: bv32)
    ensures AllButLock(SetExcl(f)) == AllButLock(f)
  {
  }

  lemma UserFlagsAreCallers(f: bv32)
    ensures UserFlags(f) == CallersBits(f)
  {
  }

  lemma CallersBitsStay(f: bv32)
    ensures CallersBits(UserFlags(f)) == CallersBits(f) == CallersBits(SetDev(UserFlags(f)))
  {
  }

  lemma FcntlSetsItsBits(f: bv32, arg: bv32)
    ensures FcntlBits(Updated(f, arg)) == FcntlBits(arg)
  {
  }

  lemma FcntlKeepsOthers(f: bv32, arg: bv32)
    ensures AllButFcntl(Updated(f, arg)) == AllButFcntl(f)
  {
  }

  lemma FcntlBitsAreCallers(f: bv32)
    ensures FcntlBits(CallersBits(f)) == FcntlBits(f)
  {
  }

  // ---------------------------------------------------------------- locks

  /** A request to unlock a device is granted: the lock bit goes, and nothing else changes. */
  lemma UnlockUnlocks(p: Pool, fd: nat, driver: Option<Answer>)
    requires Inv(p) && fd < |p.fds| && IsDev(p.fds[fd])
    ensures var (q, r) := Ioctl(p, fd, TIOCNXCL, driver);
            && r == 0 && OnlyFlags(p, q, fd)
            && LockBit(q.fds[fd].flags) == 0 && !Locks(q.fds[fd])
            && AllButLock(q.fds[fd].flags) == AllButLock(p.fds[fd].flags)
  {
    hide HasExcl, HasDev, SetExcl, ClearExcl, SetDev, UserFlags, Updated, LockBit, AllButLock, CallersBits;
    var f := p.fds[fd].flags;
    UnlockFlags(f);
    UnlockKeepsOthers(f);
    LockIsItsBit(ClearExcl(f));
  }

  /** A request for exclusive use is granted exactly if no other descriptor below the high-water
      mark is open on the device; then the lock bit is set, and nothing else changes. */
  lemma LockIsGrantedExactlyWhen(p: Pool, fd: nat, driver: Option<Answer>)
    requires Inv(p) && fd < |p.fds| && IsDev(p.fds[fd])
    ensures var (q, r) := Ioctl(p, fd, TIOCEXCL, driver);
            && (r == 0 <==> forall i :: 0 <= i < p.maxFd && i != fd ==> p.fds[i].dev != p.fds[fd].dev)
            && (r == 0 ==>
                  && OnlyFlags(p, q, fd) && LockBit(q.fds[fd].flags) != 0
                  && AllButLock(q.fds[fd].flags) == AllButLock(p.fds[fd].flags))
            && (r != 0 ==> r == -EACCES && q == p)
  {
    hide HasExcl, HasDev, SetExcl, ClearExcl, SetDev, UserFlags, Updated, LockBit, AllButLock, CallersBits;
    LockFlags(p.fds[fd].flags);
    LockKeepsOthers(p.fds[fd].flags);
    LockIsItsBit(SetExcl(p.fds[fd].flags));
  }

  /** Every other request goes to the driver, which sees only its own field. */
  lemma OtherRequestsGoToDriver(p: Pool, fd: nat, req: Request, driver: Option<Answer>)
    requires Inv(p) && fd < |p.fds| && (!IsDev(p.fds[fd]) || req.Other?)
    ensures var (q, r) := Ioctl(p, fd, req, driver);
            match driver
            case None => q == p && r == -ENOTTY
            case Some(a) =>
              && r == a.status && q.fds[fd].priv == a.priv && OnlyFlags(p.(fds := p.fds[fd := q.fds[fd]]), q, fd)
              && q.fds[fd].dev == p.fds[fd].dev && q.fds[fd].flags == p.fds[fd].flags
  {
    hide HasExcl, HasDev, SetExcl, ClearExcl, SetDev, UserFlags, Updated, LockBit, AllButLock, CallersBits;
  }

  // ---------------------------------------------------------------- open

  ghost predicate HasFree(p: Pool) { exists i :: 0 <= i < |p.fds| && p.fds[i].dev == Null }

  /** What open answers: the reasons for a refusal in their order, or the lowest free slot. */
  lemma OpenAnswers(p: Pool, dev: Dev, flags: bv32, answer: Answer)
    requires Inv(p)
    ensures var r := Open(p, dev, flags, answer).1;
            if dev == Null then r == -ENODEV
            else if !HasFree(p) then r == -EMFILE
            else if LockHeld(p.fds, dev) then r == -EACCES
            else if answer.status < 0 then r == answer.status
            else 0 <= r < |p.fds| && p.fds[r].dev == Null && forall j :: 0 <= j < r ==> p.fds[j].dev != Null
  {
    hide HasExcl, HasDev, SetExcl, ClearExcl, SetDev, UserFlags, Updated, LockBit, AllButLock, CallersBits;
    hide GetFd, Claim, LockHeld;
    if dev != Null {
      GetFdEffect(p, dev);
      var (q, i) := GetFd(p, dev);
      if i >= 0 {
        if LockHeld(p.fds, dev) {
          ClaimRefused(p, q, i, dev, flags, answer);
        } else {
          ClaimGranted(p, q, i, dev, flags, answer);
        }
      }
    }
  }

  /** Without a lock on the device the slot gets the driver's answer. */
  lemma ClaimGranted(p: Pool, q: Pool, i: nat, dev: Dev, flags: bv32, answer: Answer)
    requires Inv(p) && Taken(p, q, i, dev) && !LockHeld(p.fds, dev)
    ensures var (r, status) := Claim(q, i, flags, answer);
            status == answer.status && r.fds[i].priv == answer.priv
            && r.fds[i].flags == if dev.Device? then SetDev(UserFlags(flags)) else UserFlags(flags)
  {
    hide HasExcl, HasDev, SetExcl, ClearExcl, SetDev, UserFlags, Updated, LockBit, AllButLock, CallersBits;
    var g := q.fds[i].(flags := SetDev(UserFlags(flags)));
    var t := q.(fds := q.fds[i := g]);
    assert forall j :: 0 <= j < |p.fds| && j != i ==> t.fds[j] == p.fds[j];
    assert !LockedElsewhere(t, i);
  }

  /** The slot that open gives out has the caller's flags, but for the two of the pool's own, and
      the field that the driver left in it; all other slots are as they were. */
  lemma OpenedSlot(p: Pool, dev: Dev, flags: bv32, answer: Answer)
    requires Inv(p)
    ensures var (q, r) := Open(p, dev, flags, answer);
            r >= 0 ==>
              && r < |p.fds| == |q.fds| && q.fds[r].dev == dev && q.fds[r].priv == answer.priv
              && CallersBits(q.fds[r].flags) == CallersBits(flags)
              && LockBit(q.fds[r].flags) == 0 && (DeviceBit(q.fds[r].flags) != 0 <==> dev.Device?)
              && forall i :: 0 <= i < |p.fds| && i != r ==> q.fds[i] == p.fds[i]
  {
    hide HasExcl, HasDev, SetExcl, ClearExcl, SetDev, UserFlags, Updated, LockBit, AllButLock, CallersBits;
    hide GetFd, Claim, LockHeld;
    OpenEffect(p, dev, flags, answer);
    var (q, r) := Open(p, dev, flags, answer);
    if r >= 0 {
      GetFdEffect(p, dev);
      ClaimGranted(p, GetFd(p, dev).0, r, dev, flags, answer);
      CallersBitsStay(flags);
      LockIsItsBit(q.fds[r].flags);
      DeviceIsItsBit(q.fds[r].flags);
    }
  }

  /** After an unlock the next open of the device succeeds, if no other descriptor has it locked,
      a slot is free, and its driver agrees. */
  lemma UnlockedDeviceOpens(p: Pool, fd: nat, driver: Option<Answer>, flags: bv32, answer: Answer)
    requires Inv(p) && fd < |p.fds| && IsDev(p.fds[fd]) && HasFree(p) && answer.status >= 0
    requires forall i :: 0 <= i < |p.fds| && i != fd && p.fds[i].dev == p.fds[fd].dev ==> !Locks(p.fds[i])
    ensures Open(Ioctl(p, fd, TIOCNXCL, driver).0, p.fds[fd].dev, flags, answer).1 >= 0
  {
    hide HasExcl, HasDev, SetExcl, ClearExcl, SetDev, UserFlags, Updated, LockBit, AllButLock, CallersBits, Ioctl, Open;
    var q := Ioctl(p, fd, TIOCNXCL, driver).0;
    UnlockUnlocks(p, fd, driver);
    IoctlKeepsInv(p, fd, TIOCNXCL, driver);
    assert SlotOk(p.fds[fd]);
    var i :| 0 <= i < |p.fds| && p.fds[i].dev == Null;
    assert q.fds[i].dev == Null;
    OpenAnswers(q, p.fds[fd].dev, flags, answer);
  }

  // ---------------------------------------------------------------- close and fcntl

  /** Closing a descriptor above 2 frees its slot, whatever the driver says; the standard ones
      keep device and flags.  The driver's error is reported, and nothing else changes. */
  lemma CloseEffect(p: Pool, fd: nat, answer: Answer)
    requires Inv(p) && fd < |p.fds|
    ensures var (q, r) := Close(p, fd, answer);
            && r == (if answer.status < 0 then answer.status else 0)
            && q.maxFd == p.maxFd && |q.fds| == |p.fds|
            && (forall i :: 0 <= i < |p.fds| && i != fd ==> q.fds[i] == p.fds[i])
            && q.fds[fd] == if fd > 2 then Fd(Null, answer.priv, 0) else Fd(p.fds[fd].dev, answer.priv, p.fds[fd].flags)
  {
  }

  /** F_GETFL shows the flags without the two of the pool's own and changes nothing; F_SETFL sets
      O_APPEND and O_NONBLOCK as asked and changes nothing else; other commands are refused. */
  lemma FcntlEffect(p: Pool, fd: nat, cmd: Command)
    requires fd < |p.fds|
    ensures var (q, r) := Fcntl(p, fd, cmd);
            match cmd
            case F_GETFL => q == p && r == Flags(CallersBits(p.fds[fd].flags))
            case F_SETFL(arg) =>
              && r == Status(0) && OnlyFlags(p, q, fd)
              && FcntlBits(q.fds[fd].flags) == FcntlBits(arg)
              && AllButFcntl(q.fds[fd].flags) == AllButFcntl(p.fds[fd].flags)
            case Unknown(_) => q == p && r == Status(-EINVAL)
  {
    hide HasExcl, HasDev, SetExcl, ClearExcl, SetDev, UserFlags, Updated, LockBit, AllButLock, CallersBits;
    UserFlagsAreCallers(p.fds[fd].flags);
    if cmd.F_SETFL? {
      FcntlSetsItsBits(p.fds[fd].flags, cmd.arg);
      FcntlKeepsOthers(p.fds[fd].flags, cmd.arg);
    }
  }

  /** What F_SETFL sets is what F_GETFL then shows. */
  lemma SetFlagsAreShown(p: Pool, fd: nat, arg: bv32)
    requires fd < |p.fds|
    ensures var q := Fcntl(p, fd, F_SETFL(arg)).0;
            |q.fds| == |p.fds|
            && var r := Fcntl(q, fd, F_GETFL).1;
               r.Flags? && FcntlBits(r.flags) == FcntlBits(arg)
  {
    hide Fcntl, FcntlBits, AllButFcntl, CallersBits;
    var q := Fcntl(p, fd, F_SETFL(arg)).0;
    FcntlEffect(p, fd, F_SETFL(arg));
    FcntlEffect(q, fd, F_GETFL);
    FcntlBitsAreCallers(q.fds[fd].flags);
  }
}
