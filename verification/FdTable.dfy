// The descriptor pool in the form it has: an array of slots and a high-water mark, searched
// and changed in place by the system calls.  Each call is proved to make of the pool what
// the model says.
module FdTable {
  import opened FdModel
  import opened Wrappers
  import opened FdSafety

  class Table {
    const fds: array<Fd>
    var maxFd: int
    var errno: int

    ghost function View(): Pool
      reads this, fds
    {
      Pool(fds[..], maxFd)
    }

    ghost predicate Valid()
      reads this, fds
    {
      Inv(View())
    }

    constructor (size: nat, null_: nat)
      requires 3 <= size
      ensures Valid() && fds.Length == size && maxFd == -1 && fresh(fds)
      ensures forall i :: 0 <= i < size ==> fds[i] == if i < 3 then Fd(Device(null_), 0, 0) else FREE
    {
      fds := new Fd[size](i => if i < 3 then Fd(Device(null_), 0, 0) else FREE);
      maxFd, errno := -1, 0;
      new;
      ResetHolds(View(), null_);
    }

    /** alt_get_fd */
    method GetFd(dev: Dev) returns (rc: int)
      requires maxFd < fds.Length
      modifies this`maxFd, fds
      ensures (View(), rc) == FdModel.GetFd(old(View()), dev)
    {
      var i := 0;
      while i < fds.Length
        invariant i <= fds.Length && FirstFree(fds[..], 0) == FirstFree(fds[..], i)
      {
        if fds[i].dev == Null {
          ghost var before := fds[..];
          fds[i] := fds[i].(dev := dev);
          assert fds[..] == before[i := before[i].(dev := dev)];
          if i > maxFd {
            maxFd := i;
          }
          return i;
        }
        i := i + 1;
      }
      rc := -EMFILE;
    }

    /** alt_release_fd */
    method Release(fd: int)
      requires fd < fds.Length
      modifies fds
      ensures View() == FdModel.Release(old(View()), fd)
    {
      if fd > 2 {
        fds[fd] := fds[fd].(flags := 0);
        fds[fd] := fds[fd].(dev := Null);
      }
    }

    /** alt_file_locked, once there is a high-water mark: marks the slot and looks for a lock. */
    method FileLocked(fd: nat) returns (rc: int)
      requires fd < fds.Length && 0 <= maxFd < fds.Length
      modifies fds
      ensures var p := old(View()); View() == p.(fds := p.fds[fd := p.fds[fd].(flags := SetDev(p.fds[fd].flags))])
      ensures rc == if LockedElsewhere(View(), fd) then -EACCES else 0
    {
      hide SetDev, HasExcl;
      fds[fd] := fds[fd].(flags := SetDev(fds[fd].flags));
      var i := 0;
      while i <= maxFd
        invariant i <= maxFd + 1
        invariant forall j :: 0 <= j < i ==> !(j != fd && fds[j].dev == fds[fd].dev && Locks(fds[j]))
      {
        if fds[i].dev == fds[fd].dev && Locks(fds[i]) && i != fd {
          return -EACCES;
        }
        i := i + 1;
      }
      rc := 0;
    }

    /** The middle of open: the flags, the lock test of a device, and the driver's callback. */
    method Claim(fd: nat, flags: bv32, answer: Answer) returns (status: int)
      requires fd < fds.Length && 0 <= maxFd < fds.Length
      modifies fds
      ensures (View(), status) == FdModel.Claim(old(View()), fd, flags, answer)
    {
      hide SetDev, HasExcl, HasDev, UserFlags, LockedElsewhere;
      ghost var p := fds[..];
      fds[fd] := fds[fd].(flags := UserFlags(flags));
      ghost var f := p[fd].(flags := UserFlags(flags));
      status := 0;
      if !fds[fd].dev.FileSystem? {
        status := FileLocked(fd);
        ghost var g := f.(flags := SetDev(f.flags));
        assert fds[..] == p[fd := g];
        if status < 0 {
          return;
        }
        fds[fd] := fds[fd].(priv := answer.priv);
        assert fds[..] == p[fd := g][fd := g.(priv := answer.priv)];
      } else {
        fds[fd] := fds[fd].(priv := answer.priv);
        assert fds[..] == p[fd := f.(priv := answer.priv)];
      }
      status := answer.status;
    }

    /** ALT_OPEN */
    method Open(dev: Dev, flags: bv32, answer: Answer) returns (rc: int)
      requires Valid()
      modifies this, fds
      ensures Valid()
      ensures View() == FdModel.Open(old(View()), dev, flags, answer).0
      ensures var r := FdModel.Open(old(View()), dev, flags, answer).1;
              if r < 0 then rc == -1 && errno == -r else rc == r && errno == old(errno)
    {
      hide SetDev, HasExcl, HasDev, UserFlags, FdModel.GetFd, FdModel.Claim;
      ghost var p := View();
      OpenKeepsInv(p, dev, flags, answer);
      var index, status := -1, -ENODEV;
      if dev != Null {
        GetFdEffect(p, dev);
        index := GetFd(dev);
        if index < 0 {
          status := index;
        } else {
          status := Claim(index, flags, answer);
        }
      }
      if status < 0 {
        Release(index);
        errno := -status;
        return -1;
      }
      rc := index;
    }

    /** alt_fd_lock */
    method FdLock(fd: nat) returns (rc: int)
      requires fd < fds.Length && maxFd < fds.Length
      modifies fds
      ensures (View(), rc) == FdModel.FdLock(old(View()), fd)
    {
      hide SetExcl;
      var i := 0;
      while i < maxFd
        invariant i == 0 || i <= maxFd
        invariant forall j :: 0 <= j < i ==> !(j != fd && fds[j].dev == fds[fd].dev)
      {
        if i != fd && fds[i].dev == fds[fd].dev {
          return -EACCES;
        }
        i := i + 1;
      }
      ghost var before := fds[..];
      fds[fd] := fds[fd].(flags := SetExcl(fds[fd].flags));
      assert fds[..] == before[fd := before[fd].(flags := SetExcl(before[fd].flags))];
      rc := 0;
    }

    /** alt_fd_unlock */
    method FdUnlock(fd: nat) returns (rc: int)
      requires fd < fds.Length
      modifies fds
      ensures (View(), rc) == FdModel.FdUnlock(old(View()), fd)
    {
      hide ClearExcl;
      fds[fd] := fds[fd].(flags := ClearExcl(fds[fd].flags));
      rc := 0;
    }

    /** ALT_IOCTL */
    method Ioctl(file: int, req: Request, driver: Option<Answer>) returns (rc: int)
      requires Valid() && file < fds.Length && (file >= 0 ==> fds[file].dev != Null)
      modifies this`errno, fds
      ensures Valid()
      ensures file < 0 ==> rc == -EBADFD && View() == old(View())
      ensures file >= 0 ==> (View(), rc) == FdModel.Ioctl(old(View()), file, req, driver)
      ensures errno == if rc < 0 then -rc else old(errno)
    {
      hide HasDev, FdModel.FdLock, FdModel.FdUnlock;
      rc := -EBADFD;
      if file >= 0 {
        IoctlKeepsInv(View(), file, req, driver);
        if IsDev(fds[file]) && req == TIOCEXCL {
          rc := FdLock(file);
        } else if IsDev(fds[file]) && req == TIOCNXCL {
          rc := FdUnlock(file);
        } else if driver.Some? {
          fds[file] := fds[file].(priv := driver.value.priv);
          rc := driver.value.status;
        } else {
          rc := -ENOTTY;
        }
      }
      if rc < 0 {
        errno := -rc;
      }
    }

    /** ALT_CLOSE */
    method Close(fildes: int, answer: Answer) returns (rc: int)
      requires Valid() && fildes < fds.Length && (fildes >= 0 ==> fds[fildes].dev != Null)
      modifies this`errno, fds
      ensures Valid()
      ensures fildes < 0 ==> rc == -1 && errno == EBADFD && View() == old(View())
      ensures fildes >= 0 ==>
                var (q, r) := FdModel.Close(old(View()), fildes, answer);
                View() == q && if r < 0 then rc == -1 && errno == -r else rc == 0 && errno == old(errno)
    {
      if fildes < 0 {
        errno := EBADFD;
        return -1;
      }
      CloseKeepsInv(View(), fildes, answer);
      ghost var before := fds[..];
      fds[fildes] := fds[fildes].(priv := answer.priv);
      assert fds[..] == before[fildes := before[fildes].(priv := answer.priv)];
      Release(fildes);
      if answer.status < 0 {
        errno := -answer.status;
        return -1;
      }
      rc := 0;
    }

    /** ALT_FCNTL */
    method Fcntl(file: int, cmd: Command) returns (rc: Outcome)
      requires Valid() && file < fds.Length && (file >= 0 ==> fds[file].dev != Null)
      modifies this`errno, fds
      ensures Valid()
      ensures file < 0 ==> rc == Status(-1) && errno == EBADFD && View() == old(View())
      ensures file >= 0 ==>
                var (q, r) := FdModel.Fcntl(old(View()), file, cmd);
                && View() == q
                && if cmd.Unknown? then rc == Status(-1) && errno == EINVAL else rc == r && errno == old(errno)
    {
      hide Updated, UserFlags;
      if file < 0 {
        errno := EBADFD;
        return Status(-1);
      }
      FcntlKeepsInv(View(), file, cmd);
      match cmd
      case F_GETFL =>
        rc := Flags(UserFlags(fds[file].flags));
      case F_SETFL(arg) =>
        fds[file] := fds[file].(flags := Updated(fds[file].flags, arg));
        rc := Status(0);
      case Unknown(_) =>
        errno := EINVAL;
        rc := Status(-1);
    }

    /** alt_open_fd, on a standard descriptor. */
    method OpenInto(slot: nat, dev: Dev, flags: bv32, answer: Answer)
      requires Valid() && slot <= 2
      modifies this, fds
      ensures Valid()
      ensures View() == FdModel.OpenInto(old(View()), slot, dev, flags, answer)
    {
      hide FdModel.Open, FdModel.OpenInto;
      ghost var p := View();
      OpenEffect(p, dev, flags, answer);
      OpenIntoKeepsInv(p, slot, dev, flags, answer);
      OpenIntoIs(p, slot, dev, flags, answer);
      var old_ := Open(dev, flags, answer);
      if old_ >= 0 {
        ghost var q := fds[..];
        fds[slot] := fds[slot].(dev := fds[old_].dev);
        fds[slot] := fds[slot].(priv := fds[old_].priv);
        fds[slot] := fds[slot].(flags := fds[old_].flags);
        assert fds[..] == q[slot := q[old_]];
        Release(old_);
      }
    }

    lemma OpenIntoIs(p: Pool, slot: nat, dev: Dev, flags: bv32, answer: Answer)
      requires Inv(p) && slot <= 2
      ensures var (q, r) := FdModel.Open(p, dev, flags, answer);
              && |q.fds| == |p.fds| && r < |p.fds|
              && FdModel.OpenInto(p, slot, dev, flags, answer) ==
                 if r < 0 then q else FdModel.Release(q.(fds := q.fds[slot := q.fds[r]]), r)
    {
      hide FdModel.Open;
      OpenEffect(p, dev, flags, answer);
    }

    /** alt_io_redirect: standard output, input and error, in that order. */
    method Redirect(stdout: Dev, stdin: Dev, stderr: Dev, answers: seq<Answer>)
      requires Valid() && |answers| == 3
      modifies this, fds
      ensures Valid()
      ensures var p0 := old(View());
              var p1 := FdModel.OpenInto(p0, 1, stdout, 1, answers[0]);
              Inv(p1) &&
              var p2 := FdModel.OpenInto(p1, 0, stdin, 0, answers[1]);
              Inv(p2) && View() == FdModel.OpenInto(p2, 2, stderr, 1, answers[2])
    {
      hide FdModel.OpenInto;
      OpenInto(1, stdout, 1, answers[0]);
      OpenInto(0, stdin, 0, answers[1]);
      OpenInto(2, stderr, 1, answers[2]);
    }
  }
}
