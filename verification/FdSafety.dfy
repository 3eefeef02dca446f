// What every sequence of system calls keeps about the descriptor pool.
module FdSafety {
  import opened FdModel
  import opened Wrappers

  datatype Call =
    | CallOpen(dev: Dev, flags: bv32, answer: Answer)
    | CallClose(fd: nat, answer: Answer)
    | CallIoctl(fd: nat, req: Request, driver: Option<Answer>)
    | CallFcntl(fd: nat, cmd: Command)
    | CallOpenInto(slot: nat, dev: Dev, flags: bv32, answer: Answer)   // one step of alt_io_redirect

  /** Callers name descriptors that are in use; redirection names a standard one. */
  predicate Proper(p: Pool, c: Call) {
    match c
    case CallOpen(_, _, _) => true
    case CallClose(fd, _) => fd < |p.fds| && p.fds[fd].dev != Null
    case CallIoctl(fd, _, _) => fd < |p.fds| && p.fds[fd].dev != Null
    case CallFcntl(fd, _) => fd < |p.fds| && p.fds[fd].dev != Null
    case CallOpenInto(slot, _, _, _) => slot <= 2
  }

  function Perform(p: Pool, c: Call): Pool
    requires Bounded(p) && Proper(p, c)
  {
    match c
    case CallOpen(dev, flags, answer) => Open(p, dev, flags, answer).0
    case CallClose(fd, answer) => Close(p, fd, answer).0
    case CallIoctl(fd, req, driver) => Ioctl(p, fd, req, driver).0
    case CallFcntl(fd, cmd) => Fcntl(p, fd, cmd).0
    case CallOpenInto(slot, dev, flags, answer) => OpenInto(p, slot, dev, flags, answer)
  }

  predicate Bounded(p: Pool) { 3 <= |p.fds| && -1 <= p.maxFd < |p.fds| }

  /** Free slots carry no flags, and the flag bits mean what they say. */
  predicate SlotOk(f: Fd) {
    && (f.dev == Null ==> f.flags == 0)
    && (Locks(f) ==> IsDev(f))
    && (IsDev(f) ==> f.dev.Device?)
  }

  ghost predicate Inv(p: Pool) {
    && Bounded(p)
    && (forall i :: 0 <= i < |p.fds| ==> SlotOk(p.fds[i]))
    && (forall i :: 0 <= i < 3 ==> p.fds[i].dev != Null)
    && (forall i :: 3 <= i < |p.fds| && p.fds[i].dev != Null ==> i <= p.maxFd)
    && (p.maxFd < 3 ==> forall i :: 0 <= i < |p.fds| ==> !IsDev(p.fds[i]))
  }

  /** The pool as the HAL defines it at reset, with standard streams on the null device. */
  predicate Reset(p: Pool, null_: nat) {
    3 <= |p.fds| && p.maxFd == -1
    && forall i :: 0 <= i < |p.fds| ==> p.fds[i] == if i < 3 then Fd(Device(null_), 0, 0) else FREE
  }

  // ---------------------------------------------------------------- flag bits

  lemma NoFlags()
    ensures !HasExcl(0) && !HasDev(0)
  {
  }

  /** A new slot's flags: not locked, and marked as a device if it is one. */
  lemma ClaimedFlags(flags: bv32)
    ensures var g := UserFlags(flags); !HasExcl(g) && !HasDev(g) && !HasExcl(SetDev(g)) && HasDev(SetDev(g))
  {
  }

  lemma LockFlags(f: bv32)
    ensures HasExcl(SetExcl(f)) && (HasDev(SetExcl(f)) <==> HasDev(f))
  {
  }

  lemma UnlockFlags(f: bv32)
    ensures !HasExcl(ClearExcl(f)) && (HasDev(ClearExcl(f)) <==> HasDev(f))
  {
  }

  lemma FcntlFlags(f: bv32, arg: bv32)
    ensures (HasExcl(Updated(f, arg)) <==> HasExcl(f)) && (HasDev(Updated(f, arg)) <==> HasDev(f))
  {
  }

  /** fcntl changes the two flags it is for and no other, and never shows the lock bits. */
  lemma FcntlLeavesLocks(f: bv32, g: bv32)
    ensures var h := Updated(f, g);
            h & !FCNTL_MASK == f & !FCNTL_MASK && h & FCNTL_MASK == g & FCNTL_MASK
    ensures UserFlags(f) & FLAGS_MASK == 0
  {
  }

  // ---------------------------------------------------------------- open

  /** The same devices and flags in every slot; a driver may have used the priv field. */
  ghost predicate SameSlots(a: seq<Fd>, b: seq<Fd>) {
    |a| == |b| && forall i :: 0 <= i < |a| ==> a[i].dev == b[i].dev && a[i].flags == b[i].flags
  }

  ghost predicate LockHeld(fds: seq<Fd>, dev: Dev) {
    exists i :: 0 <= i < |fds| && fds[i].dev == dev && Locks(fds[i])
  }

  /** The slots other than i are as they were. */
  ghost predicate OnlyAt(a: seq<Fd>, b: seq<Fd>, i: nat) {
    |a| == |b| && i < |a| && b == a[i := b[i]]
  }

  lemma GetFdEffect(p: Pool, dev: Dev)
    requires Inv(p) && dev != Null
    ensures var (q, i) := GetFd(p, dev);
            && (i < 0 ==> q == p && i == -EMFILE && forall j :: 0 <= j < |p.fds| ==> p.fds[j].dev != Null)
            && (i >= 0 ==>
                  && 3 <= i < |p.fds| && p.fds[i].dev == Null && (forall j :: 0 <= j < i ==> p.fds[j].dev != Null)
                  && q.fds == p.fds[i := p.fds[i].(dev := dev)]
                  && q.maxFd == if i > p.maxFd then i else p.maxFd)
  {
    var i := FirstFree(p.fds, 0);
    assert p.fds[0].dev != Null && p.fds[1].dev != Null && p.fds[2].dev != Null;
  }

  /** Slot i of q was free in p and has been given to dev. */
  ghost predicate Taken(p: Pool, q: Pool, i: nat, dev: Dev) {
    && 3 <= i < |p.fds| && p.fds[i].dev == Null && dev != Null
    && q == Pool(p.fds[i := p.fds[i].(dev := dev)], if i > p.maxFd then i else p.maxFd)
  }

  lemma ClaimSlot(p: Pool, q: Pool, i: nat, dev: Dev, flags: bv32, answer: Answer)
    requires Bounded(p) && Taken(p, q, i, dev)
    ensures var (r, status) := Claim(q, i, flags, answer);
            && OnlyAt(p.fds, r.fds, i) && r.maxFd == q.maxFd && r.fds[i].dev == dev
            && !Locks(r.fds[i]) && (IsDev(r.fds[i]) <==> dev.Device?)
  {
    hide HasExcl, HasDev, SetExcl, ClearExcl, SetDev, UserFlags, Updated, LockedElsewhere;
    ClaimedFlags(flags);
  }

  /** A lock on the device, wherever it is, is found. */
  lemma ClaimRefused(p: Pool, q: Pool, i: nat, dev: Dev, flags: bv32, answer: Answer)
    requires Inv(p) && Taken(p, q, i, dev) && LockHeld(p.fds, dev)
    ensures Claim(q, i, flags, answer).1 == -EACCES
  {
    hide HasExcl, HasDev, SetExcl, ClearExcl, SetDev, UserFlags, Updated;
    var j :| 0 <= j < |p.fds| && p.fds[j].dev == dev && Locks(p.fds[j]);
    assert SlotOk(p.fds[j]);
    var g := q.fds[i].(flags := SetDev(UserFlags(flags)));
    var t := q.(fds := q.fds[i := g]);
    assert t.fds[j] == p.fds[j] && j <= t.maxFd && j != i;
    assert LockedElsewhere(t, i);
  }

  /** What open does.  A failure restores every slot's device and flags.  A success takes the
      lowest free descriptor and gives it an unlocked reference to a device nobody has locked;
      running out of descriptors is reported only when all are in use. */
  lemma OpenEffect(p: Pool, dev: Dev, flags: bv32, answer: Answer)
    requires Inv(p)
    ensures var (q, r) := Open(p, dev, flags, answer);
            && (r < 0 ==> SameSlots(p.fds, q.fds) && p.maxFd <= q.maxFd < |p.fds|)
            && (r >= 0 ==>
                  && 3 <= r < |p.fds| && p.fds[r].dev == Null && (forall j :: 0 <= j < r ==> p.fds[j].dev != Null)
                  && OnlyAt(p.fds, q.fds, r) && q.fds[r].dev == dev != Null
                  && !Locks(q.fds[r]) && (IsDev(q.fds[r]) <==> dev.Device?)
                  && q.maxFd == (if r > p.maxFd then r else p.maxFd)
                  && !LockHeld(p.fds, dev))
            && (dev != Null && answer.status != -EMFILE ==>
                  (r == -EMFILE <==> forall j :: 0 <= j < |p.fds| ==> p.fds[j].dev != Null))
  {
    hide HasExcl, HasDev, SetExcl, ClearExcl, SetDev, UserFlags, Updated, GetFd, Claim, LockHeld;
    if dev != Null {
      GetFdEffect(p, dev);
      var (q, i) := GetFd(p, dev);
      if i >= 0 {
        ClaimSlot(p, q, i, dev, flags, answer);
        if LockHeld(p.fds, dev) { ClaimRefused(p, q, i, dev, flags, answer); }
        var (r, status) := Claim(q, i, flags, answer);
        assert SlotOk(p.fds[i]);
        assert status == -EACCES || status == answer.status by { ClaimStatus(q, i, flags, answer); }
      }
    }
  }

  lemma ClaimStatus(p: Pool, fd: nat, flags: bv32, answer: Answer)
    requires fd < |p.fds| && p.maxFd < |p.fds|
    ensures Claim(p, fd, flags, answer).1 in {-EACCES, answer.status}
  {
  }

  // ---------------------------------------------------------------- redirection

  /** Redirection nets out to a changed standard slot, with its temporary slot free again. */
  lemma OpenIntoEffect(p: Pool, slot: nat, dev: Dev, flags: bv32, answer: Answer)
    requires Inv(p) && slot <= 2
    ensures var (o, r) := Open(p, dev, flags, answer);
            var q := OpenInto(p, slot, dev, flags, answer);
            && (r < 0 ==> q == o && SameSlots(p.fds, q.fds))
            && (r >= 0 ==>
                  && q.maxFd == o.maxFd && q.fds[slot] == o.fds[r]
                  && |q.fds| == |p.fds| && q.fds[r].dev == Null && q.fds[r].flags == 0
                  && forall i :: 0 <= i < |p.fds| && i != slot && i != r ==> q.fds[i] == p.fds[i])
  {
    hide Open, HasExcl, HasDev, LockHeld;
    OpenEffect(p, dev, flags, answer);
  }

  // ---------------------------------------------------------------- invariants of every call

  lemma OpenKeepsInv(p: Pool, dev: Dev, flags: bv32, answer: Answer)
    requires Inv(p)
    ensures Inv(Open(p, dev, flags, answer).0)
  {
    hide Open, HasExcl, HasDev, LockHeld;
    OpenEffect(p, dev, flags, answer);
    var (q, r) := Open(p, dev, flags, answer);
    forall i | 0 <= i < |p.fds| ensures SlotOk(q.fds[i]) {
      assert SlotOk(p.fds[i]);
    }
  }

  lemma OpenIntoKeepsInv(p: Pool, slot: nat, dev: Dev, flags: bv32, answer: Answer)
    requires Inv(p) && slot <= 2
    ensures Inv(OpenInto(p, slot, dev, flags, answer))
  {
    hide Open, OpenInto, HasExcl, HasDev, LockHeld;
    OpenEffect(p, dev, flags, answer);
    OpenIntoEffect(p, slot, dev, flags, answer);
    OpenKeepsInv(p, dev, flags, answer);
    NoFlags();
    var (o, r) := Open(p, dev, flags, answer);
    var q := OpenInto(p, slot, dev, flags, answer);
    forall i | 0 <= i < |p.fds| ensures SlotOk(q.fds[i]) {
      assert SlotOk(p.fds[i]);
      if r >= 0 { assert SlotOk(o.fds[r]); }
    }
  }

  /** The calls that change only the flags or the priv field of a slot in use. */
  lemma SlotChangeKeepsInv(p: Pool, fd: nat, f: Fd)
    requires Inv(p) && fd < |p.fds| && SlotOk(f)
    requires f.dev == p.fds[fd].dev && (IsDev(f) <==> IsDev(p.fds[fd]))
    ensures Inv(p.(fds := p.fds[fd := f]))
  {
    hide HasExcl, HasDev, SetExcl, ClearExcl, SetDev, UserFlags, Updated;
    var q := p.(fds := p.fds[fd := f]);
    forall i | 0 <= i < |p.fds| ensures SlotOk(q.fds[i]) && (IsDev(q.fds[i]) <==> IsDev(p.fds[i])) {
      assert SlotOk(p.fds[i]);
    }
  }

  lemma FdLockKeepsInv(p: Pool, fd: nat)
    requires Inv(p) && fd < |p.fds| && IsDev(p.fds[fd])
    ensures Inv(FdLock(p, fd).0)
  {
    hide HasExcl, HasDev, SetExcl, ClearExcl, SetDev, UserFlags, Updated, Inv, HeldBelowMark;
    SlotOfInv(p, fd);
    LockFlags(p.fds[fd].flags);
    SlotChangeKeepsInv(p, fd, p.fds[fd].(flags := SetExcl(p.fds[fd].flags)));
  }

  lemma FdUnlockKeepsInv(p: Pool, fd: nat)
    requires Inv(p) && fd < |p.fds| && IsDev(p.fds[fd])
    ensures Inv(FdUnlock(p, fd).0)
  {
    hide HasExcl, HasDev, SetExcl, ClearExcl, SetDev, UserFlags, Updated, Inv;
    SlotOfInv(p, fd);
    UnlockFlags(p.fds[fd].flags);
    SlotChangeKeepsInv(p, fd, p.fds[fd].(flags := ClearExcl(p.fds[fd].flags)));
  }

  lemma DriverIoctlKeepsInv(p: Pool, fd: nat, driver: Option<Answer>)
    requires Inv(p) && fd < |p.fds|
    ensures Inv(DriverIoctl(p, fd, driver).0)
  {
    hide HasExcl, HasDev, SetExcl, ClearExcl, SetDev, UserFlags, Updated, Inv;
    SlotOfInv(p, fd);
    if driver.Some? { SlotChangeKeepsInv(p, fd, p.fds[fd].(priv := driver.value.priv)); }
  }

  lemma IoctlKeepsInv(p: Pool, fd: nat, req: Request, driver: Option<Answer>)
    requires Inv(p) && fd < |p.fds| && p.fds[fd].dev != Null
    ensures Inv(Ioctl(p, fd, req, driver).0)
  {
    hide HasExcl, HasDev, SetExcl, ClearExcl, SetDev, UserFlags, Updated, Inv, FdLock, FdUnlock, DriverIoctl;
    SlotOfInv(p, fd);
    if IsDev(p.fds[fd]) {
      FdLockKeepsInv(p, fd);
      FdUnlockKeepsInv(p, fd);
    }
    DriverIoctlKeepsInv(p, fd, driver);
  }

  lemma SlotOfInv(p: Pool, fd: nat)
    requires Inv(p) && fd < |p.fds|
    ensures Bounded(p) && SlotOk(p.fds[fd])
  {
  }

  lemma FcntlKeepsInv(p: Pool, fd: nat, cmd: Command)
    requires Inv(p) && fd < |p.fds| && p.fds[fd].dev != Null
    ensures Inv(Fcntl(p, fd, cmd).0)
  {
    hide HasExcl, HasDev, SetExcl, ClearExcl, SetDev, UserFlags, Updated, Inv;
    SlotOfInv(p, fd);
    if cmd.F_SETFL? {
      FcntlFlags(p.fds[fd].flags, cmd.arg);
      SlotChangeKeepsInv(p, fd, Fcntl(p, fd, cmd).0.fds[fd]);
    }
  }

  lemma CloseKeepsInv(p: Pool, fd: nat, answer: Answer)
    requires Inv(p) && fd < |p.fds| && p.fds[fd].dev != Null
    ensures Inv(Close(p, fd, answer).0)
  {
    hide HasExcl, HasDev, SetExcl, ClearExcl, SetDev, UserFlags, Updated;
    NoFlags();
    var q := Close(p, fd, answer).0;
    forall i | 0 <= i < |p.fds| ensures SlotOk(q.fds[i]) && (IsDev(q.fds[i]) ==> IsDev(p.fds[i])) {
      assert SlotOk(p.fds[i]);
    }
  }

  lemma PerformKeepsInv(p: Pool, c: Call)
    requires Inv(p) && Proper(p, c)
    ensures Inv(Perform(p, c))
  {
    hide Open, Close, Ioctl, Fcntl, OpenInto;
    match c
    case CallOpen(dev, flags, answer) => OpenKeepsInv(p, dev, flags, answer);
    case CallClose(fd, answer) => CloseKeepsInv(p, fd, answer);
    case CallIoctl(fd, req, driver) => IoctlKeepsInv(p, fd, req, driver);
    case CallFcntl(fd, cmd) => FcntlKeepsInv(p, fd, cmd);
    case CallOpenInto(slot, dev, flags, answer) => OpenIntoKeepsInv(p, slot, dev, flags, answer);
  }

  // ---------------------------------------------------------------- exclusive use

  ghost function Holders(p: Pool, dev: Dev): set<nat> {
    set i: nat | i < |p.fds| && p.fds[i].dev == dev
  }

  /** While a descriptor holds a lock on a device, no call adds a descriptor for it. */
  lemma LockKeepsOthersOut(p: Pool, c: Call, dev: Dev)
    requires Inv(p) && Proper(p, c) && dev != Null && LockHeld(p.fds, dev)
    ensures Holders(Perform(p, c), dev) <= Holders(p, dev)
  {
    hide Open, HasExcl, HasDev, LockHeld, HeldBelowMark;
    match c
    case CallOpen(d, flags, answer) => OpenEffect(p, d, flags, answer);
    case CallClose(_, _) =>
    case CallIoctl(_, _, _) =>
    case CallFcntl(_, _) =>
    case CallOpenInto(slot, d, flags, answer) =>
      OpenEffect(p, d, flags, answer);
      OpenIntoEffect(p, slot, d, flags, answer);
  }

  /** A request for exclusive use that is granted locks the device ... */
  lemma GrantLocks(p: Pool, fd: nat, driver: Option<Answer>)
    requires Inv(p) && fd < |p.fds| && IsDev(p.fds[fd])
    ensures var (q, r) := Ioctl(p, fd, TIOCEXCL, driver);
            && (r == 0 ==>
                  && Locks(q.fds[fd]) && LockHeld(q.fds, p.fds[fd].dev)
                  && Holders(q, p.fds[fd].dev) == Holders(p, p.fds[fd].dev))
            && (r != 0 ==> r == -EACCES && q == p)
  {
    hide HasExcl, HasDev, SetExcl, ClearExcl, SetDev, UserFlags, Updated, HeldBelowMark;
    LockFlags(p.fds[fd].flags);
    var (q, r) := Ioctl(p, fd, TIOCEXCL, driver);
    assert r == 0 ==> q.fds[fd].dev == p.fds[fd].dev && Locks(q.fds[fd]);
  }

  /** ... but for sole use only if no other descriptor of the device sits at the high-water
      mark, which the scan leaves out: granted, it is sole use exactly under that condition. */
  lemma GrantIsSoleUseExactlyWhen(p: Pool, fd: nat, driver: Option<Answer>)
    requires Inv(p) && fd < |p.fds| && IsDev(p.fds[fd])
    requires Ioctl(p, fd, TIOCEXCL, driver).1 == 0
    ensures var dev := p.fds[fd].dev;
            Holders(Ioctl(p, fd, TIOCEXCL, driver).0, dev) == {fd} <==> (fd == p.maxFd || p.fds[p.maxFd].dev != dev)
  {
    hide HasExcl, HasDev, SetExcl, ClearExcl, SetDev, UserFlags, Updated;
    var dev := p.fds[fd].dev;
    assert SlotOk(p.fds[fd]);
    assert p.maxFd >= 3 && !HeldBelowMark(p, fd);
    GrantLocks(p, fd, driver);
    var h := Holders(p, dev);
    assert fd in h;
    if fd == p.maxFd || p.fds[p.maxFd].dev != dev {
      forall i | i in h ensures i == fd {
        assert i <= p.maxFd;
      }
      assert h == {fd};
    } else {
      assert p.maxFd in h;
    }
  }

  /** Two opens of one device, then a lock on the first: granted, with the second still open. */
  lemma SharedLock(null_: nat, uart: nat)
    requires null_ != uart
    ensures var std, open_ := Fd(Device(null_), 0, 0), Fd(Device(uart), 0, DEV);
            var p := Pool([std, std, std, open_, open_, FREE], 4);
            var (q, r) := Ioctl(p, 3, TIOCEXCL, None);
            Inv(p) && r == 0 && Locks(q.fds[3]) && Holders(q, Device(uart)) == {3, 4}
  {
    hide HasExcl, HasDev, SetExcl, ClearExcl, SetDev, UserFlags, Updated;
    NoFlags();
    OpenFlags();
    var std, open_ := Fd(Device(null_), 0, 0), Fd(Device(uart), 0, DEV);
    var p := Pool([std, std, std, open_, open_, FREE], 4);
    assert SlotOk(std) && SlotOk(open_) && SlotOk(FREE);
    assert Inv(p);
    GrantLocks(p, 3, None);
    assert Holders(p, Device(uart)) == {3, 4};
  }

  /** That state is two opens away from reset. */
  lemma SharedLockIsReachable(null_: nat, uart: nat)
    requires null_ != uart
    ensures var std, open_ := Fd(Device(null_), 0, 0), Fd(Device(uart), 0, DEV);
            var p0 := Pool([std, std, std, FREE, FREE, FREE], -1);
            var (p1, r1) := Open(p0, Device(uart), 0, Answer(0, 0));
            var (p2, r2) := Open(p1, Device(uart), 0, Answer(0, 0));
            Reset(p0, null_) && r1 == 3 && r2 == 4 && p2 == Pool([std, std, std, open_, open_, FREE], 4)
  {
    hide HasExcl, HasDev, SetDev, UserFlags, FirstFree;
    NoFlags();
    OpenFlags();
    var std, open_ := Fd(Device(null_), 0, 0), Fd(Device(uart), 0, DEV);
    var p0 := Pool([std, std, std, FREE, FREE, FREE], -1);
    FirstFreeIs(p0.fds, 3);
    var q1 := GetFd(p0, Device(uart)).0;
    assert q1.fds == [std, std, std, Fd(Device(uart), 0, 0), FREE, FREE];
    var p1 := Open(p0, Device(uart), 0, Answer(0, 0)).0;
    assert p1.fds == [std, std, std, open_, FREE, FREE];
    FirstFreeIs(p1.fds, 4);
    var q2 := GetFd(p1, Device(uart)).0;
    assert q2.fds == [std, std, std, open_, Fd(Device(uart), 0, 0), FREE];
    assert Open(p1, Device(uart), 0, Answer(0, 0)).0.fds == [std, std, std, open_, open_, FREE];
  }

  lemma FirstFreeIs(fds: seq<Fd>, i: nat)
    requires i < |fds| && fds[i].dev == Null && forall j :: 0 <= j < i ==> fds[j].dev != Null
    ensures FirstFree(fds, 0) == i
  {
  }

  lemma OpenFlags()
    ensures !HasExcl(DEV) && HasDev(DEV) && SetDev(UserFlags(0)) == DEV
  {
  }

  // ---------------------------------------------------------------- closing

  /** Closing frees the descriptor and with it the lock, except for the three standard ones,
      which keep device and flags, lock included. */
  lemma CloseUnlocksExactlyWhen(p: Pool, fd: nat, answer: Answer)
    requires Inv(p) && fd < |p.fds| && p.fds[fd].dev != Null && Locks(p.fds[fd])
    ensures var q := Close(p, fd, answer).0;
            && (!Locks(q.fds[fd]) <==> fd > 2)
            && (q.fds[fd].dev == Null <==> fd > 2)
            && forall i :: 0 <= i < |p.fds| && i != fd ==> q.fds[i] == p.fds[i]
  {
    hide HasExcl, HasDev, SetExcl, ClearExcl, SetDev, UserFlags, Updated;
    NoFlags();
  }

  /** An input for it: standard output is redirected to a device, locked and closed, and the
      lock is still there. */
  lemma ClosedStillLocked(null_: nat, uart: nat)
    requires null_ != uart
    ensures var std, out := Fd(Device(null_), 0, 0), Fd(Device(uart), 0, DEV);
            var p0 := Pool([std, std, std, FREE, FREE], -1);
            var p1 := OpenInto(p0, 1, Device(uart), 0, Answer(0, 0));
            var (p2, granted) := Ioctl(p1, 1, TIOCEXCL, None);
            var (p3, closed) := Close(p2, 1, Answer(0, 0));
            && Reset(p0, null_) && Inv(p1) && p1 == Pool([std, out, std, FREE, FREE], 3)
            && granted == 0 && closed == 0 && Locks(p3.fds[1]) && p3.fds[1].dev == Device(uart) && Inv(p3)
  {
    hide HasExcl, HasDev, SetExcl, ClearExcl, SetDev, UserFlags, Updated, FirstFree;
    NoFlags();
    OpenFlags();
    var std, out := Fd(Device(null_), 0, 0), Fd(Device(uart), 0, DEV);
    var p0 := Pool([std, std, std, FREE, FREE], -1);
    FirstFreeIs(p0.fds, 3);
    var q := GetFd(p0, Device(uart)).0;
    assert q.fds == [std, std, std, Fd(Device(uart), 0, 0), FREE];
    var o := Open(p0, Device(uart), 0, Answer(0, 0)).0;
    assert o.fds == [std, std, std, out, FREE];
    var p1 := OpenInto(p0, 1, Device(uart), 0, Answer(0, 0));
    assert p1.fds == [std, out, std, FREE, FREE];
    ResetHolds(p0, null_);
    OpenIntoKeepsInv(p0, 1, Device(uart), 0, Answer(0, 0));
    GrantLocks(p1, 1, None);
    IoctlKeepsInv(p1, 1, TIOCEXCL, None);
    var p2 := Ioctl(p1, 1, TIOCEXCL, None).0;
    LockFlags(DEV);
    CloseUnlocksExactlyWhen(p2, 1, Answer(0, 0));
    CloseKeepsInv(p2, 1, Answer(0, 0));
  }

  /** While a lock on the device is held, opening it is refused, whoever asks and however. */
  lemma LockedOpenIsRefused(p: Pool, dev: Dev, flags: bv32, answer: Answer)
    requires Inv(p) && dev != Null && LockHeld(p.fds, dev)
    ensures Open(p, dev, flags, answer).1 ==
            if exists i :: 0 <= i < |p.fds| && p.fds[i].dev == Null then -EACCES else -EMFILE
  {
    hide HasExcl, HasDev, SetExcl, ClearExcl, SetDev, UserFlags, Updated, GetFd, Claim, LockHeld;
    GetFdEffect(p, dev);
    var (q, i) := GetFd(p, dev);
    if i >= 0 {
      ClaimRefused(p, q, i, dev, flags, answer);
    }
  }

  // ---------------------------------------------------------------- runs

  ghost predicate ProperRun(p: Pool, calls: seq<Call>)
    requires Inv(p)
    decreases |calls|
  {
    calls != [] ==> Proper(p, calls[0]) && (PerformKeepsInv(p, calls[0]); ProperRun(Perform(p, calls[0]), calls[1..]))
  }

  ghost function RunCalls(p: Pool, calls: seq<Call>): Pool
    requires Inv(p) && ProperRun(p, calls)
    decreases |calls|
  {
    if calls == [] then p
    else
      PerformKeepsInv(p, calls[0]);
      RunCalls(Perform(p, calls[0]), calls[1..])
  }

  lemma ResetHolds(p: Pool, null_: nat)
    requires Reset(p, null_)
    ensures Inv(p)
  {
    NoFlags();
    assert forall i :: 0 <= i < |p.fds| ==> p.fds[i] == if i < 3 then Fd(Device(null_), 0, 0) else FREE;
  }

  /** The lock on dev is held in every state of the run. */
  ghost predicate HeldThroughout(p: Pool, calls: seq<Call>, dev: Dev)
    requires Inv(p) && ProperRun(p, calls)
    decreases |calls|
  {
    LockHeld(p.fds, dev)
    && (calls != [] ==> (PerformKeepsInv(p, calls[0]); HeldThroughout(Perform(p, calls[0]), calls[1..], dev)))
  }

  /** Over a whole run of calls with the lock in force, the descriptors of the device can only
      become fewer; a sole owner stays the sole owner. */
  lemma {:induction false} LockedDeviceGainsNoHolder(p: Pool, calls: seq<Call>, dev: Dev)
    requires Inv(p) && ProperRun(p, calls) && dev != Null && HeldThroughout(p, calls, dev)
    ensures Inv(RunCalls(p, calls)) && Holders(RunCalls(p, calls), dev) <= Holders(p, dev)
    decreases |calls|
  {
    if calls != [] {
      hide Inv, Perform, LockHeld, Holders;
      PerformKeepsInv(p, calls[0]);
      LockKeepsOthersOut(p, calls[0], dev);
      LockedDeviceGainsNoHolder(Perform(p, calls[0]), calls[1..], dev);
    }
  }

  /** After any run from reset the standard descriptors are in use, and every other descriptor
      in use is found below the high-water mark. */
  lemma {:induction false} RunsKeepInv(p: Pool, calls: seq<Call>)
    requires Inv(p) && ProperRun(p, calls)
    ensures var q := RunCalls(p, calls);
            && Inv(q)
            && (forall i :: 0 <= i < 3 ==> q.fds[i].dev != Null)
            && (forall i :: 3 <= i < |q.fds| && q.fds[i].dev != Null ==> i <= q.maxFd)
    decreases |calls|
  {
    if calls != [] {
      PerformKeepsInv(p, calls[0]);
      RunsKeepInv(Perform(p, calls[0]), calls[1..]);
    }
  }

  /** So a lock that a closed standard descriptor has kept refuses every later open of the
      device, after any run of calls that leaves the lock in force. */
  lemma KeptLockRefusesOpens(p: Pool, calls: seq<Call>, dev: Dev, flags: bv32, answer: Answer)
    requires Inv(p) && ProperRun(p, calls) && dev != Null && HeldThroughout(p, calls, dev)
    ensures var q := RunCalls(p, calls);
            && Inv(q) && LockHeld(q.fds, dev)
            && Open(q, dev, flags, answer).1 ==
               if exists i :: 0 <= i < |q.fds| && q.fds[i].dev == Null then -EACCES else -EMFILE
  {
    hide Inv, LockHeld, Open;
    StillHeld(p, calls, dev);
    LockedOpenIsRefused(RunCalls(p, calls), dev, flags, answer);
  }

  lemma {:induction false} StillHeld(p: Pool, calls: seq<Call>, dev: Dev)
    requires Inv(p) && ProperRun(p, calls) && HeldThroughout(p, calls, dev)
    ensures Inv(RunCalls(p, calls)) && LockHeld(RunCalls(p, calls).fds, dev)
    decreases |calls|
  {
    hide Perform, LockHeld;
    if calls != [] {
      PerformKeepsInv(p, calls[0]);
      StillHeld(Perform(p, calls[0]), calls[1..], dev);
    }
  }
}
