/** The file-descriptor calls as the HAL runs them, in place over the descriptor pool. Each is proved to do to the
    table exactly what its specification in FdSpec does. */
module FdTable {
  import opened Options
  import opened FdFlags
  import opened FdSpec

  class Pool {
    const fds: array<Fd>          // alt_fd_list
    var maxFd: int                // alt_max_fd
    var errno: Option<Errno>

    ghost function View(): Table
      reads this, fds
    {
      Table(fds[..], maxFd)
    }

    ghost predicate Valid()
      reads this, fds
    {
      Inv(View())
    }

    /** The static initialisation of the pool. */
    constructor (devNull: nat)
      requires devNull != 0
      ensures Valid() && View() == Initial(devNull) && errno == None && fresh(fds)
    {
      fds := new Fd[MAX_FD](i => if i <= 2 then Fd(devNull, 0, 0) else Fd(0, 0, 0));
      maxFd := -1;
      errno := None;
    }

    /** What a caller sees of a failure: errno is set; a success leaves it alone. */
    twostate predicate Reported(reply: Reply)
      reads this
    {
      errno == if reply.Failed? then Some(reply.errno) else old(errno)
    }

    method Report(reply: Reply)
      modifies `errno
      ensures Reported(reply)
    {
      if reply.Failed? {
        errno := Some(reply.errno);
      }
    }

    /** `alt_get_fd` */
    method GetFd(dev: nat) returns (reply: Reply)
      requires Valid() && dev != 0
      modifies `maxFd, fds
      ensures match FirstFree(old(View()).fds, 0)
              case None => reply == Failed(EMFILE) && View() == old(View())
              case Some(i) => reply == Ok(i) && View() == Claim(old(View()), i, dev)
    {
      reply := Failed(EMFILE);
      var i := 0;
      while i < fds.Length
        invariant 0 <= i <= fds.Length && View() == old(View()) && reply == Failed(EMFILE)
        invariant FirstFree(fds[..], 0) == FirstFree(fds[..], i)
      {
        if fds[i].dev == 0 {
          fds[i] := fds[i].(dev := dev);
          if i > maxFd {
            maxFd := i;
          }
          reply := Ok(i);
          return;
        }
        i := i + 1;
      }
    }

    /** `alt_release_fd` */
    method ReleaseFd(i: int)
      requires fds.Length == MAX_FD && i < fds.Length
      modifies fds
      ensures View() == Release(old(View()), i)
    {
      if i > 2 {
        fds[i] := fds[i].(flags := 0, dev := 0);
      }
    }

    /** `alt_file_locked` */
    method FileLocked(fd: nat) returns (locked: bool)
      requires fds.Length == MAX_FD && fd < fds.Length && 0 <= maxFd < fds.Length
      modifies fds
      ensures View() == SetFlags(old(View()), fd, WithDev(old(fds[fd]).flags))
      ensures locked == LockedByOther(View(), fd)
    {
      hide IsExcl, WithDev;
      fds[fd] := fds[fd].(flags := WithDev(fds[fd].flags));
      var i := 0;
      while i <= maxFd
        invariant 0 <= i <= maxFd + 1
        invariant forall j :: 0 <= j < i && j != fd ==> !(fds[j].dev == fds[fd].dev && IsExcl(fds[j].flags))
      {
        if fds[i].dev == fds[fd].dev && IsExcl(fds[i].flags) && i != fd {
          return true;
        }
        i := i + 1;
      }
      locked := false;
    }

    /** `ALT_OPEN`; `name` is what the device and file-system lists say, `cb` what the driver's open answers. */
    method Open(name: Lookup, flags: bv32, cb: Option<Opened>) returns (reply: Reply)
      requires Valid() && (name.NotFound? || name.dev != 0)
      modifies this, fds
      ensures Valid() && (View(), reply) == FdSpec.Open(old(View()), name, flags, cb) && Reported(reply)
    {
      hide IsExcl, IsDev, UserFlags, WithDev, LockedByOther, InOrder, LocksInOrder, FirstFree;
      OpenKeeps(View(), name, flags, cb);
      ghost var t := View();
      var index := -1;
      if name.NotFound? {
        reply := Failed(ENODEV);
      } else {
        reply := GetFd(name.dev);
        if reply.Ok? {
          index := reply.rc;
          fds[index] := fds[index].(flags := UserFlags(flags));
          var locked := false;
          if name.Device? {
            locked := FileLocked(index);
          }
          assert View() == Marked(t, index, name, flags);
          if locked {
            reply := Failed(EACCES);
          } else if cb.Some? {
            fds[index] := fds[index].(priv := cb.value.priv);
            if cb.value.status.Failed? {
              reply := cb.value.status;
            }
          }
        }
      }
      if reply.Failed? {
        ReleaseFd(index);
      }
      Report(reply);
    }

    /** `alt_fd_lock` */
    method FdLock(fd: nat) returns (reply: Reply)
      requires fds.Length == MAX_FD && fd < fds.Length && maxFd < fds.Length
      modifies fds
      ensures (View(), reply) == FdSpec.Lock(old(View()), fd)
    {
      hide Locked;
      var i := 0;
      while i < maxFd
        invariant 0 <= i && (i <= maxFd || i == 0)
        invariant forall j :: 0 <= j < i && j != fd ==> fds[j].dev != fds[fd].dev
        invariant fds[..] == old(fds[..])
      {
        if i != fd && fds[i].dev == fds[fd].dev {
          return Failed(EACCES);
        }
        i := i + 1;
      }
      fds[fd] := fds[fd].(flags := Locked(fds[fd].flags));
      reply := Ok(0);
    }

    /** `alt_fd_unlock` */
    method FdUnlock(fd: nat) returns (reply: Reply)
      requires fd < fds.Length
      modifies fds
      ensures (View(), reply) == FdSpec.Unlock(old(View()), fd)
    {
      hide Unlocked;
      fds[fd] := fds[fd].(flags := Unlocked(fds[fd].flags));
      reply := Ok(0);
    }

    /** `ALT_IOCTL`; the source follows the device pointer of the descriptor, which must be open. */
    method Ioctl(file: int, req: Request, cb: Option<Reply>) returns (reply: Reply)
      requires Valid() && file < fds.Length && (file >= 0 ==> fds[file].dev != 0)
      modifies this, fds
      ensures Valid() && (View(), reply) == FdSpec.Ioctl(old(View()), file, req, cb) && Reported(reply)
    {
      hide IsExcl, IsDev, Lock, Unlock, InOrder, LocksInOrder;
      IoctlKeeps(View(), file, req, cb);
      if file < 0 {
        reply := Failed(EBADFD);
      } else if IsDev(fds[file].flags) && req.TIOCEXCL? {
        reply := FdLock(file);
      } else if IsDev(fds[file].flags) && req.TIOCNXCL? {
        reply := FdUnlock(file);
      } else if cb.Some? {
        reply := cb.value;
      } else {
        reply := Failed(ENOTTY);
      }
      Report(reply);
    }

    /** `ALT_CLOSE`; again the descriptor must be open. */
    method Close(file: int, cb: Option<Reply>) returns (reply: Reply)
      requires Valid() && file < fds.Length && (file >= 0 ==> fds[file].dev != 0)
      modifies this, fds
      ensures Valid() && (View(), reply) == FdSpec.Close(old(View()), file, cb) && Reported(reply)
    {
      hide IsExcl, IsDev, InOrder, LocksInOrder;
      ReleaseKeeps(View(), file);
      if file < 0 {
        reply := Failed(EBADFD);
      } else {
        ReleaseFd(file);
        reply := if cb.Some? && cb.value.Failed? then cb.value else Ok(0);
      }
      Report(reply);
    }

    /** `ALT_FCNTL` */
    method Fcntl(file: int, cmd: Command) returns (reply: Reply)
      requires Valid() && file < fds.Length
      modifies this, fds
      ensures Valid() && (View(), reply) == FdSpec.Fcntl(old(View()), file, cmd) && Reported(reply)
    {
      hide IsExcl, IsDev, UserFlags, WithSettable, InOrder, LocksInOrder;
      FcntlKeeps(View(), file, cmd);
      if file < 0 {
        reply := Failed(EBADFD);
      } else {
        match cmd
        case F_GETFL =>
          reply := Ok(UserFlags(fds[file].flags) as int);
        case F_SETFL(arg) =>
          fds[file] := fds[file].(flags := WithSettable(fds[file].flags, arg));
          reply := Ok(0);
        case OtherCommand =>
          reply := Failed(EINVAL);
      }
      Report(reply);
    }

    /** `alt_open_fd` */
    method OpenFd(slot: nat, name: Lookup, flags: bv32, cb: Option<Opened>)
      requires Valid() && slot <= 2 && (name.NotFound? || name.dev != 0)
      modifies this, fds
      ensures Valid() && View() == Redirect(old(View()), slot, name, flags, cb)
    {
      hide IsExcl, IsDev, UserFlags, LockedByOther, InOrder, LocksInOrder, FdSpec.Open;
      OpenEffect(View(), name, flags, cb);
      RedirectKeeps(View(), slot, name, flags, cb);
      var reply := Open(name, flags, cb);
      if reply.Ok? {
        fds[slot] := fds[reply.rc];
        ReleaseFd(reply.rc);
      }
    }

    /** `alt_io_redirect`: standard output, input and error, in this order. */
    method IoRedirect(output: Lookup, input: Lookup, error: Lookup, wronly: bv32, rdonly: bv32,
                      cbs: seq<Option<Opened>>)
      requires Valid() && |cbs| == 3
      requires forall name | name in [output, input, error] :: name.NotFound? || name.dev != 0
      modifies this, fds
      ensures Valid()
      ensures var t1 := Redirect(old(View()), 1, output, wronly, cbs[0]);
              && Inv(t1) && Inv(Redirect(t1, 0, input, rdonly, cbs[1]))
              && View() == Redirect(Redirect(t1, 0, input, rdonly, cbs[1]), 2, error, wronly, cbs[2])
    {
      hide Redirect, InOrder, LocksInOrder;
      assert [output, input, error][0] == output && [output, input, error][1] == input && [output, input, error][2] == error;
      OpenFd(1, output, wronly, cbs[0]);
      OpenFd(0, input, rdonly, cbs[1]);
      OpenFd(2, error, wronly, cbs[2]);
    }
  }
}
