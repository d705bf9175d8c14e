/** The file-descriptor table as a value: what open, close, ioctl, fcntl and redirection do to it, and what every
    sequence of them keeps. The drivers' callbacks are parameters; they do not touch the table. */
module FdSpec {
  import opened Options
  import opened FdFlags

  const MAX_FD := 32

  /** An alt_fd; `dev == 0` is the null pointer, and marks a free descriptor. */
  datatype Fd = Fd(dev: nat, priv: nat, flags: bv32)

  datatype Table = Table(fds: seq<Fd>, maxFd: int)

  datatype Errno = ENODEV | EMFILE | EACCES | EBADFD | EINVAL | ENOTTY | DriverError(code: int)

  /** A result: a non-negative value, or an error, which C reports through errno. */
  datatype Reply = Ok(rc: int) | Failed(errno: Errno)

  /** What alt_find_dev and alt_find_file make of a name. */
  datatype Lookup = NotFound | Device(dev: nat) | Filesystem(dev: nat)

  /** The outcome of the driver's open callback: its status, and what it leaves in `priv`. */
  datatype Opened = Opened(status: Reply, priv: nat)

  datatype Request = TIOCEXCL | TIOCNXCL | OtherRequest

  datatype Command = F_GETFL | F_SETFL(arg: bv32) | OtherCommand

  // ----- the operations -----

  /** alt_fd_list and alt_max_fd at reset: three descriptors of /dev/null, the rest free. */
  function Initial(devNull: nat): (t: Table)
    requires devNull != 0
    ensures Inv(t) && |t.fds| == 32 && t.maxFd == -1
    ensures forall i :: 0 <= i < 32 ==> t.fds[i] == if i <= 2 then Fd(devNull, 0, 0) else Fd(0, 0, 0)
  {
    NoFlags();
    Table(seq(MAX_FD, i => if i <= 2 then Fd(devNull, 0, 0) else Fd(0, 0, 0)), -1)
  }

  /** The first free descriptor at or after `from`. */
  function FirstFree(fds: seq<Fd>, from: nat): (r: Option<nat>)
    requires from <= |fds|
    ensures r.Some? ==> from <= r.value < |fds| && fds[r.value].dev == 0 && forall i :: from <= i < r.value ==> fds[i].dev != 0
    ensures r.None? ==> forall i :: from <= i < |fds| ==> fds[i].dev != 0
    decreases |fds| - from
  {
    if from == |fds| then None
    else if fds[from].dev == 0 then Some(from)
    else FirstFree(fds, from + 1)
  }

  function Claim(t: Table, i: nat, dev: nat): (t': Table)
    requires i < |t.fds|
  {
    Table(t.fds[i := t.fds[i].(dev := dev)], if i > t.maxFd then i else t.maxFd)
  }

  function Release(t: Table, i: int): (t': Table)
    requires i < |t.fds|
  {
    if i > 2 then t.(fds := t.fds[i := t.fds[i].(flags := 0, dev := 0)]) else t
  }

  function SetFlags(t: Table, i: nat, flags: bv32): (t': Table)
    requires i < |t.fds|
  {
    t.(fds := t.fds[i := t.fds[i].(flags := flags)])
  }

  function SetPriv(t: Table, i: nat, priv: nat): (t': Table)
    requires i < |t.fds|
  {
    t.(fds := t.fds[i := t.fds[i].(priv := priv)])
  }

  /** Some descriptor up to the high-water mark, other than `i`, holds the lock on the device of `i`. */
  predicate LockedByOther(t: Table, i: nat)
    requires i < |t.fds| && t.maxFd < |t.fds|
  {
    exists j :: 0 <= j <= t.maxFd && j != i && t.fds[j].dev == t.fds[i].dev && IsExcl(t.fds[j].flags)
  }

  /** Some descriptor below the high-water mark, other than `i`, is open on the device of `i`. */
  predicate SharedBelowMark(t: Table, i: nat)
    requires i < |t.fds| && t.maxFd < |t.fds|
  {
    exists j :: 0 <= j < t.maxFd && j != i && t.fds[j].dev == t.fds[i].dev
  }

  /** A descriptor marked as a device's own, before the lock test of open. */
  function Marked(t: Table, i: nat, name: Lookup, flags: bv32): (t': Table)
    requires i < |t.fds| && !name.NotFound?
  {
    var claimed := SetFlags(Claim(t, i, name.dev), i, UserFlags(flags));
    if name.Device? then SetFlags(claimed, i, WithDev(UserFlags(flags))) else claimed
  }

  function Open(t: Table, name: Lookup, flags: bv32, cb: Option<Opened>): (r: (Table, Reply))
    requires |t.fds| == MAX_FD && t.maxFd < MAX_FD
  {
    if name.NotFound? then (t, Failed(ENODEV))
    else
      match FirstFree(t.fds, 0)
      case None => (t, Failed(EMFILE))
      case Some(i) =>
        var marked := Marked(t, i, name, flags);
        if name.Device? && LockedByOther(marked, i) then (Release(marked, i), Failed(EACCES))
        else
          match cb
          case None => (marked, Ok(i))
          case Some(answer) =>
            var done := SetPriv(marked, i, answer.priv);
            if answer.status.Failed? then (Release(done, i), answer.status) else (done, Ok(i))
  }

  function Lock(t: Table, i: nat): (r: (Table, Reply))
    requires i < |t.fds| && t.maxFd < |t.fds|
  {
    if SharedBelowMark(t, i) then (t, Failed(EACCES)) else (SetFlags(t, i, Locked(t.fds[i].flags)), Ok(0))
  }

  function Unlock(t: Table, i: nat): (r: (Table, Reply))
    requires i < |t.fds|
  {
    (SetFlags(t, i, Unlocked(t.fds[i].flags)), Ok(0))
  }

  /** `cb` is the driver's own answer, None if it has no ioctl function. */
  function Ioctl(t: Table, file: int, req: Request, cb: Option<Reply>): (r: (Table, Reply))
    requires file < |t.fds| && t.maxFd < |t.fds|
  {
    if file < 0 then (t, Failed(EBADFD))
    else if IsDev(t.fds[file].flags) && req.TIOCEXCL? then Lock(t, file)
    else if IsDev(t.fds[file].flags) && req.TIOCNXCL? then Unlock(t, file)
    else (t, match cb case None => Failed(ENOTTY) case Some(reply) => reply)
  }

  function Close(t: Table, file: int, cb: Option<Reply>): (r: (Table, Reply))
    requires file < |t.fds|
  {
    if file < 0 then (t, Failed(EBADFD))
    else (Release(t, file), if cb.Some? && cb.value.Failed? then cb.value else Ok(0))
  }

  function Fcntl(t: Table, file: int, cmd: Command): (r: (Table, Reply))
    requires file < |t.fds|
  {
    if file < 0 then (t, Failed(EBADFD))
    else
      match cmd
      case F_GETFL => (t, Ok(UserFlags(t.fds[file].flags) as int))
      case F_SETFL(arg) => (SetFlags(t, file, WithSettable(t.fds[file].flags, arg)), Ok(0))
      case OtherCommand => (t, Failed(EINVAL))
  }

  /** alt_open_fd: open the name, and if that succeeds move the new descriptor to the stdio slot `slot`. */
  function Redirect(t: Table, slot: nat, name: Lookup, flags: bv32, cb: Option<Opened>): (t': Table)
    requires slot <= 2 && |t.fds| == MAX_FD && t.maxFd < MAX_FD
  {
    var (table, reply) := Open(t, name, flags, cb);
    if reply.Failed? || !(0 <= reply.rc < MAX_FD) then table
    else Release(table.(fds := table.fds[slot := table.fds[reply.rc]]), reply.rc)
  }

  // ----- what every operation keeps -----

  predicate InOrder(t: Table) {
    && |t.fds| == MAX_FD && (t.maxFd == -1 || 2 < t.maxFd < MAX_FD)
    && (forall i :: 0 <= i <= 2 ==> t.fds[i].dev != 0)
    && (forall i :: t.maxFd < i < MAX_FD ==> (i > 2 ==> t.fds[i].dev == 0) && !IsDev(t.fds[i].flags))
    && (forall i :: 0 <= i < MAX_FD && t.fds[i].dev == 0 ==> !IsDev(t.fds[i].flags))
    && (forall i :: 0 <= i < MAX_FD && IsExcl(t.fds[i].flags) ==> IsDev(t.fds[i].flags))
  }

  /** If `i` holds the lock on its device and `j` uses that device too, then `j` has the larger index and does not hold
      the lock. */
  predicate PairInOrder(t: Table, i: nat, j: nat)
    requires i < |t.fds| && j < |t.fds|
  {
    Holds(t, i) && Uses(t, j, t.fds[i].dev) ==> i < j && !Holds(t, j)
  }

  predicate LocksInOrder(t: Table)
    requires |t.fds| == MAX_FD
  {
    forall i, j :: 0 <= i < MAX_FD && 0 <= j < MAX_FD && i != j ==> PairInOrder(t, i, j)
  }

  predicate Inv(t: Table) {
    |t.fds| == MAX_FD && t.maxFd < MAX_FD && InOrder(t) && LocksInOrder(t)
  }

  predicate Holds(t: Table, i: nat)
    requires i < |t.fds|
  {
    IsExcl(t.fds[i].flags)
  }

  /** `i` was opened on the device `dev` (not on a file system). */
  predicate Uses(t: Table, i: nat, dev: nat)
    requires i < |t.fds|
  {
    t.fds[i].dev == dev && IsDev(t.fds[i].flags)
  }

  datatype Op =
    | OpOpen(name: Lookup, flags: bv32, answer: Option<Opened>)
    | OpIoctl(file: int, req: Request, reply: Option<Reply>)
    | OpClose(file: int, reply: Option<Reply>)
    | OpFcntl(file: int, cmd: Command)
    | OpRedirect(slot: nat, name: Lookup, flags: bv32, answer: Option<Opened>)

  /** What the callers must respect: a descriptor number is below the size of the table and, for close and ioctl,
      which follow its device pointer, open; a device found by name is not the null pointer. */
  predicate Legal(t: Table, op: Op) {
    match op
    case OpOpen(name, _, _) => name.NotFound? || name.dev != 0
    case OpIoctl(file, _, _) => file < |t.fds| && (file >= 0 ==> t.fds[file].dev != 0)
    case OpClose(file, _) => file < |t.fds| && (file >= 0 ==> t.fds[file].dev != 0)
    case OpFcntl(file, _) => file < |t.fds|
    case OpRedirect(slot, name, _, _) => slot <= 2 && (name.NotFound? || name.dev != 0)
  }

  function Step(t: Table, op: Op): (t': Table)
    requires |t.fds| == MAX_FD && t.maxFd < MAX_FD && Legal(t, op)
  {
    match op
    case OpOpen(name, flags, answer) => Open(t, name, flags, answer).0
    case OpIoctl(file, req, reply) => Ioctl(t, file, req, reply).0
    case OpClose(file, reply) => Close(t, file, reply).0
    case OpFcntl(file, cmd) => Fcntl(t, file, cmd).0
    case OpRedirect(slot, name, flags, answer) => Redirect(t, slot, name, flags, answer)
  }

  lemma MarkedFlags(t: Table, i: nat, name: Lookup, flags: bv32)
    requires i < |t.fds| && !name.NotFound?
    ensures var fd := Marked(t, i, name, flags).fds[i];
            fd.dev == name.dev && !IsExcl(fd.flags) && (IsDev(fd.flags) <==> name.Device?)
  {
    hide IsExcl, IsDev, UserFlags, WithDev;
    UserFlagsClear(flags);
    SetDev(UserFlags(flags));
  }

  /** The lock test of open finds the holder of a lock on the device wherever it is. */
  lemma LockTestIsComplete(t: Table, i: nat, name: Lookup, flags: bv32)
    requires Inv(t) && i < MAX_FD && t.fds[i].dev == 0 && name.Device? && name.dev != 0
    ensures !LockedByOther(Marked(t, i, name, flags), i) ==> NobodyHolds(t, name.dev)
  {
    hide IsExcl, IsDev, UserFlags, WithDev;
    var m := Marked(t, i, name, flags);
    forall j | 0 <= j < MAX_FD && Holds(t, j) && t.fds[j].dev == name.dev
      ensures LockedByOther(m, i)
    {
      assert m.fds[j] == t.fds[j] && j <= t.maxFd <= m.maxFd;
    }
  }

  predicate NobodyHolds(t: Table, dev: nat) {
    forall j :: 0 <= j < |t.fds| && Holds(t, j) ==> t.fds[j].dev != dev
  }

  /** What open does. If it succeeds, one free descriptor above the stdio ones is taken, and nobody holds a lock on the
      device. If it fails, no descriptor gains or loses a device, and at most the flags of the first free one are
      cleared. */
  lemma OpenEffect(t: Table, name: Lookup, flags: bv32, cb: Option<Opened>)
    requires Inv(t) && (name.NotFound? || name.dev != 0)
    ensures var (t', reply) := Open(t, name, flags, cb);
            && t.maxFd <= t'.maxFd < MAX_FD && |t'.fds| == MAX_FD
            && (t'.maxFd == t.maxFd || (2 < t'.maxFd && FirstFree(t.fds, 0) == Some(t'.maxFd)))
            && (reply.Ok? ==> OpenedAs(t, t', reply.rc, name))
            && (reply.Failed? ==> OpenedNot(t, t'))
  {
    hide IsExcl, IsDev, UserFlags, WithDev, LockedByOther, LocksInOrder, NobodyHolds;
    assert FirstFree(t.fds, 0).Some? ==> FirstFree(t.fds, 0).value > 2;
    hide InOrder, FirstFree;
    if !name.NotFound? && FirstFree(t.fds, 0).Some? {
      var i := FirstFree(t.fds, 0).value;
      MarkedFlags(t, i, name, flags);
      if name.Device? {
        LockTestIsComplete(t, i, name, flags);
      }
      ReleaseMarked(t, i, name, flags, if cb.Some? then cb.value.priv else 0);
    }
  }

  /** No descriptor has gained or lost a device, and at most the flags of the first free one were cleared. */
  predicate OpenedNot(t: Table, t': Table) {
    |t.fds| == |t'.fds| == MAX_FD && forall i :: 0 <= i < MAX_FD ==>
      && t'.fds[i].dev == t.fds[i].dev
      && (t'.fds[i].flags == t.fds[i].flags || (FirstFree(t.fds, 0) == Some(i) && t'.fds[i].flags == 0))
  }

  lemma ReleaseMarked(t: Table, i: nat, name: Lookup, flags: bv32, priv: nat)
    requires |t.fds| == MAX_FD && 2 < i < MAX_FD && FirstFree(t.fds, 0) == Some(i) && !name.NotFound?
    ensures OpenedNot(t, Release(Marked(t, i, name, flags), i))
    ensures OpenedNot(t, Release(SetPriv(Marked(t, i, name, flags), i, priv), i))
  {
    hide UserFlags, WithDev;
  }

  predicate OpenedAs(t: Table, t': Table, i: int, name: Lookup)
    requires |t.fds| == |t'.fds| == MAX_FD
  {
    && 2 < i <= t'.maxFd && i < MAX_FD && t.fds[i].dev == 0 && !name.NotFound?
    && t'.fds == t.fds[i := t'.fds[i]]
    && t'.fds[i].dev == name.dev && !IsExcl(t'.fds[i].flags) && (IsDev(t'.fds[i].flags) <==> name.Device?)
    && (name.Device? ==> NobodyHolds(t, name.dev))
  }

  lemma OpenKeeps(t: Table, name: Lookup, flags: bv32, cb: Option<Opened>)
    requires Inv(t) && (name.NotFound? || name.dev != 0)
    ensures Inv(Open(t, name, flags, cb).0)
  {
    hide IsExcl, IsDev, Open;
    OpenEffect(t, name, flags, cb);
    FailedOpenFlags(t, name, flags, cb);
    var t' := Open(t, name, flags, cb).0;
    forall j, k | 0 <= j < MAX_FD && 0 <= k < MAX_FD && j != k
      ensures PairInOrder(t', j, k)
    {
      assert PairInOrder(t, j, k);
    }
  }

  /** A failed open leaves no descriptor with a device mark or a lock that it had not. */
  lemma FailedOpenFlags(t: Table, name: Lookup, flags: bv32, cb: Option<Opened>)
    requires Inv(t) && (name.NotFound? || name.dev != 0)
    ensures var (t', reply) := Open(t, name, flags, cb);
            reply.Failed? ==> |t'.fds| == MAX_FD && forall i :: 0 <= i < MAX_FD ==>
              IsExcl(t'.fds[i].flags) == IsExcl(t.fds[i].flags) && IsDev(t'.fds[i].flags) == IsDev(t.fds[i].flags)
  {
    hide IsExcl, IsDev, Open;
    OpenEffect(t, name, flags, cb);
    NoFlags();
  }

  lemma LockKeeps(t: Table, i: nat)
    requires Inv(t) && i < MAX_FD && IsDev(t.fds[i].flags)
    ensures Inv(Lock(t, i).0)
  {
    hide IsExcl, IsDev, Locked;
    SetExcl(t.fds[i].flags);
    var t' := Lock(t, i).0;
    if !SharedBelowMark(t, i) {
      forall j, k | 0 <= j < MAX_FD && 0 <= k < MAX_FD && j != k
        ensures PairInOrder(t', j, k)
      {
        assert PairInOrder(t, j, k) && PairInOrder(t, k, j);
        if j == i && Uses(t, k, t.fds[i].dev) {
          assert k == t.maxFd;  // the one descriptor that the scan does not look at
        }
      }
    }
  }

  lemma SetFlagsKeeps(t: Table, i: nat, flags: bv32)
    requires Inv(t) && i < MAX_FD && IsDev(flags) == IsDev(t.fds[i].flags)
    requires IsExcl(flags) ==> IsExcl(t.fds[i].flags)
    ensures Inv(SetFlags(t, i, flags))
  {
    hide IsExcl, IsDev;
    var t' := SetFlags(t, i, flags);
    forall j, k | 0 <= j < MAX_FD && 0 <= k < MAX_FD && j != k
      ensures PairInOrder(t', j, k)
    {
      assert PairInOrder(t, j, k);
    }
  }

  lemma ReleaseKeeps(t: Table, i: int)
    requires Inv(t) && i < MAX_FD
    ensures Inv(Release(t, i))
  {
    hide IsExcl, IsDev;
    NoFlags();
    var t' := Release(t, i);
    forall j, k | 0 <= j < MAX_FD && 0 <= k < MAX_FD && j != k
      ensures PairInOrder(t', j, k)
    {
      assert PairInOrder(t, j, k);
    }
  }

  lemma RedirectKeeps(t: Table, slot: nat, name: Lookup, flags: bv32, cb: Option<Opened>)
    requires Inv(t) && slot <= 2 && (name.NotFound? || name.dev != 0)
    ensures Inv(Redirect(t, slot, name, flags, cb))
  {
    hide IsExcl, IsDev, UserFlags, LockedByOther;
    OpenKeeps(t, name, flags, cb);
    OpenEffect(t, name, flags, cb);
    var (t1, reply) := Open(t, name, flags, cb);
    if reply.Ok? {
      var t2 := t1.(fds := t1.fds[slot := t1.fds[reply.rc]]);
      forall j, k | 0 <= j < MAX_FD && 0 <= k < MAX_FD && j != k
        ensures PairInOrder(t2, j, k)
      {
        assert PairInOrder(t, j, k);
      }
      ReleaseKeeps(t2, reply.rc);
    }
  }

  lemma IoctlKeeps(t: Table, file: int, req: Request, cb: Option<Reply>)
    requires Inv(t) && file < |t.fds|
    ensures Inv(Ioctl(t, file, req, cb).0)
  {
    hide LocksInOrder, InOrder, IsExcl, IsDev, Unlocked, Lock;
    if file >= 0 && IsDev(t.fds[file].flags) {
      LockKeeps(t, file);
      ClearExcl(t.fds[file].flags);
      SetFlagsKeeps(t, file, Unlocked(t.fds[file].flags));
    }
  }

  lemma FcntlKeeps(t: Table, file: int, cmd: Command)
    requires Inv(t) && file < |t.fds|
    ensures Inv(Fcntl(t, file, cmd).0)
  {
    hide LocksInOrder, InOrder, IsExcl, IsDev, WithSettable;
    if file >= 0 && cmd.F_SETFL? {
      SettableKeepsLock(t.fds[file].flags, cmd.arg);
      SetFlagsKeeps(t, file, WithSettable(t.fds[file].flags, cmd.arg));
    }
  }

  lemma StepKeeps(t: Table, op: Op)
    requires Inv(t) && Legal(t, op)
    ensures Inv(Step(t, op))
  {
    hide LocksInOrder, InOrder, IsExcl, IsDev, Open, Redirect, Ioctl, Fcntl, Release;
    match op
    case OpOpen(name, flags, answer) => OpenKeeps(t, name, flags, answer);
    case OpIoctl(file, req, reply) => IoctlKeeps(t, file, req, reply);
    case OpClose(file, _) => ReleaseKeeps(t, file);
    case OpFcntl(file, cmd) => FcntlKeeps(t, file, cmd);
    case OpRedirect(slot, name, flags, answer) => RedirectKeeps(t, slot, name, flags, answer);
  }

  // ----- whole runs -----

  predicate LegalRun(t: Table, ops: seq<Op>)
    requires Inv(t)
    decreases |ops|
  {
    ops == [] || (Legal(t, ops[0]) && (StepKeeps(t, ops[0]); LegalRun(Step(t, ops[0]), ops[1..])))
  }

  function Run(t: Table, ops: seq<Op>): (t': Table)
    requires Inv(t) && LegalRun(t, ops)
    ensures Inv(t')
    decreases |ops|
  {
    if ops == [] then t else (StepKeeps(t, ops[0]); Run(Step(t, ops[0]), ops[1..]))
  }

  /** In every run of open, close, ioctl, fcntl and redirection, at most one descriptor of a device holds the lock. */
  lemma AtMostOneHolder(devNull: nat, ops: seq<Op>, i: nat, j: nat)
    requires devNull != 0 && i < MAX_FD && j < MAX_FD
    requires LegalRun(Initial(devNull), ops)
    ensures var t := Run(Initial(devNull), ops);
            Holds(t, i) && Holds(t, j) && t.fds[i].dev == t.fds[j].dev ==> i == j
  {
    hide IsExcl, IsDev, Run;
    var t := Run(Initial(devNull), ops);
    if i != j {
      assert PairInOrder(t, i, j);
    }
  }

  /** The descriptors that were opened on a device. */
  function Users(t: Table, dev: nat): (u: set<nat>) {
    set i: nat | i < |t.fds| && Uses(t, i, dev)
  }

  /** While some descriptor holds the lock, no operation adds a user of its device. */
  lemma LockFreezesUsers(t: Table, op: Op, h: nat)
    requires Inv(t) && Legal(t, op) && h < MAX_FD && Holds(t, h)
    ensures Users(Step(t, op), t.fds[h].dev) <= Users(t, t.fds[h].dev)
  {
    hide IsExcl, IsDev, LocksInOrder, Open, LockedByOther, UserFlags, WithSettable, Locked, Unlocked;
    NoFlags();
    match op
    case OpOpen(name, flags, answer) =>
      OpenEffect(t, name, flags, answer);
      FailedOpenFlags(t, name, flags, answer);
    case OpIoctl(file, _, _) =>
      if file >= 0 {
        SetExcl(t.fds[file].flags);
        ClearExcl(t.fds[file].flags);
      }
    case OpClose(_, _) =>
    case OpFcntl(file, cmd) =>
      if file >= 0 && cmd.F_SETFL? {
        SettableKeepsLock(t.fds[file].flags, cmd.arg);
      }
    case OpRedirect(_, name, flags, answer) =>
      OpenEffect(t, name, flags, answer);
      FailedOpenFlags(t, name, flags, answer);
      assert Open(t, name, flags, answer).1.Ok? && name.Device? ==> name.dev != t.fds[h].dev;
  }

  /** ... so over any run during which the device stays locked, its users at the end were its users at the start. */
  lemma {:induction false} LockFreezesUsersInRun(t: Table, ops: seq<Op>, dev: nat)
    requires Inv(t) && LegalRun(t, ops)
    requires forall k :: 0 <= k < |ops| && LegalRun(t, ops[..k]) ==> LockedIn(Run(t, ops[..k]), dev)
    ensures Users(Run(t, ops), dev) <= Users(t, dev)
    decreases |ops|
  {
    hide InOrder, LocksInOrder, Step, Users;
    if ops != [] {
      assert ops[..0] == [];
      assert LockedIn(Run(t, ops[..0]), dev);
      var h: nat :| h < |t.fds| && Holds(t, h) && t.fds[h].dev == dev;
      LockFreezesUsers(t, ops[0], h);
      StepKeeps(t, ops[0]);
      var t1, rest := Step(t, ops[0]), ops[1..];
      forall k | 0 <= k < |rest| && LegalRun(t1, rest[..k])
        ensures LockedIn(Run(t1, rest[..k]), dev)
      {
        assert ops[..k + 1][0] == ops[0] && ops[..k + 1][1..] == rest[..k];
      }
      LockFreezesUsersInRun(t1, rest, dev);
    }
  }

  predicate LockedIn(t: Table, dev: nat) {
    exists h: nat :: h < |t.fds| && Holds(t, h) && t.fds[h].dev == dev
  }

  // ----- what each call answers, and what it leaves behind -----

  predicate FreeAt(t: Table, i: nat)
    requires i < |t.fds|
  {
    t.fds[i].dev == 0 && forall j :: 0 <= j < i ==> t.fds[j].dev != 0
  }

  /** What open answers, in the order in which it finds out: no such name, no free descriptor, a device that somebody has
      locked, the refusal of the driver; else the lowest free descriptor. */
  lemma OpenAnswers(t: Table, name: Lookup, flags: bv32, cb: Option<Opened>)
    requires Inv(t) && (name.NotFound? || name.dev != 0)
    ensures var full := forall i :: 0 <= i < MAX_FD ==> t.fds[i].dev != 0;
            var reply := Open(t, name, flags, cb).1;
            if name.NotFound? then reply == Failed(ENODEV)
            else if full then reply == Failed(EMFILE)
            else if name.Device? && !NobodyHolds(t, name.dev) then reply == Failed(EACCES)
            else if cb.Some? && cb.value.status.Failed? then reply == cb.value.status
            else reply.Ok? && 0 <= reply.rc < MAX_FD && FreeAt(t, reply.rc)
  {
    hide IsExcl, IsDev, UserFlags, WithDev, InOrder, LocksInOrder, FirstFree, LockedByOther, NobodyHolds;
    if !name.NotFound? && FirstFree(t.fds, 0).Some? {
      var i := FirstFree(t.fds, 0).value;
      MarkedFlags(t, i, name, flags);
      if name.Device? {
        LockTestIsComplete(t, i, name, flags);
        LockTestIsSound(t, i, name, flags);
      }
    }
  }

  /** ... and takes nothing else for one. */
  lemma LockTestIsSound(t: Table, i: nat, name: Lookup, flags: bv32)
    requires Inv(t) && i < MAX_FD && t.fds[i].dev == 0 && name.Device? && name.dev != 0
    ensures LockedByOther(Marked(t, i, name, flags), i) ==> !NobodyHolds(t, name.dev)
  {
    hide IsExcl, IsDev, UserFlags, WithDev;
    var m := Marked(t, i, name, flags);
    if LockedByOther(m, i) {
      var j :| 0 <= j <= m.maxFd && j != i && m.fds[j].dev == m.fds[i].dev && IsExcl(m.fds[j].flags);
      assert m.fds[j] == t.fds[j] && Holds(t, j);
    }
  }

  /** So an open succeeds exactly if there is such a name, a free descriptor, no lock on the device, and no refusal. */
  lemma OpenSucceeds(t: Table, name: Lookup, flags: bv32, cb: Option<Opened>)
    requires Inv(t) && (name.NotFound? || name.dev != 0)
    ensures Open(t, name, flags, cb).1.Ok? <==>
            && !name.NotFound? && (exists i :: 0 <= i < MAX_FD && t.fds[i].dev == 0)
            && (name.Device? ==> NobodyHolds(t, name.dev))
            && (cb.Some? ==> cb.value.status.Ok?)
  {
    hide Open, Inv, NobodyHolds;
    OpenAnswers(t, name, flags, cb);
  }

  /** A new descriptor has the caller's flags, a device mark for a device, no lock, and what the driver put in `priv`. */
  lemma OpenedFields(t: Table, name: Lookup, flags: bv32, cb: Option<Opened>)
    requires Inv(t) && (name.NotFound? || name.dev != 0)
    ensures var (t', reply) := Open(t, name, flags, cb);
            reply.Ok? && 0 <= reply.rc < MAX_FD && |t'.fds| == MAX_FD ==>
              var fd := t'.fds[reply.rc];
              && fd.dev == name.dev
              && fd.priv == (if cb.Some? then cb.value.priv else t.fds[reply.rc].priv)
              && fd.flags == NewFlags(flags, name.Device?)
              && t'.maxFd == if reply.rc > t.maxFd then reply.rc else t.maxFd
  {
    hide IsExcl, IsDev, InOrder, LocksInOrder, FirstFree, LockedByOther, UserFlags, WithDev, NewFlags;
    FlagsOfNew(flags);
  }

  /** The caller's flags without the two uppermost bits, of which the second marks a device. */
  function NewFlags(flags: bv32, device: bool): bv32 {
    (flags & 0x3FFF_FFFF) | (if device then 0x4000_0000 else 0)
  }

  lemma FlagsOfNew(flags: bv32)
    ensures UserFlags(flags) == NewFlags(flags, false) && WithDev(UserFlags(flags)) == NewFlags(flags, true)
  {
  }

  /** Close answers what the driver does, and frees the descriptor either way. */
  lemma CloseAnswers(t: Table, file: int, cb: Option<Reply>)
    requires Inv(t) && file < MAX_FD
    ensures file < 0 ==> Close(t, file, cb) == (t, Failed(EBADFD))
    ensures file >= 0 ==>
              var (t', reply) := Close(t, file, cb);
              && reply == (if cb.Some? && cb.value.Failed? then cb.value else Ok(0))
              && |t'.fds| == MAX_FD && t'.maxFd == t.maxFd
              && (file > 2 ==> t'.fds[file].dev == 0 && t'.fds[file].flags == 0 && t'.fds == t.fds[file := t'.fds[file]])
              && (file <= 2 ==> t' == t)
  {
    hide InOrder, LocksInOrder;
  }

  /** The two requests about locks are for descriptors of devices; all else goes to the driver, and changes nothing. */
  lemma IoctlAnswers(t: Table, file: int, req: Request, cb: Option<Reply>)
    requires Inv(t) && file < MAX_FD
    ensures file < 0 ==> Ioctl(t, file, req, cb) == (t, Failed(EBADFD))
    ensures file >= 0 && (req.OtherRequest? || !IsDev(t.fds[file].flags)) ==>
              Ioctl(t, file, req, cb) == (t, if cb.Some? then cb.value else Failed(ENOTTY))
  {
    hide InOrder, LocksInOrder, IsDev, IsExcl, Lock, Unlock;
  }

  /** TIOCEXCL is refused exactly if another descriptor below the high-water mark is on the device; if it is granted, the
      descriptor holds the lock, and nothing else changes. */
  lemma IoctlLocks(t: Table, file: nat, cb: Option<Reply>)
    requires Inv(t) && file < MAX_FD && IsDev(t.fds[file].flags)
    ensures var (t', reply) := Ioctl(t, file, TIOCEXCL, cb);
            if exists j :: 0 <= j < t.maxFd && j != file && t.fds[j].dev == t.fds[file].dev
            then (t', reply) == (t, Failed(EACCES))
            else
              && reply == Ok(0) && |t'.fds| == MAX_FD && t'.maxFd == t.maxFd && Holds(t', file)
              && t'.fds == t.fds[file := t.fds[file].(flags := t'.fds[file].flags)]
              && IsDev(t'.fds[file].flags) && UserFlags(t'.fds[file].flags) == UserFlags(t.fds[file].flags)
  {
    hide InOrder, LocksInOrder, IsDev, IsExcl, Locked, UserFlags;
    SetExcl(t.fds[file].flags);
    LockedKeepsUserFlags(t.fds[file].flags);
  }

  /** TIOCNXCL always releases the lock, and nothing else changes. */
  lemma IoctlUnlocks(t: Table, file: nat, cb: Option<Reply>)
    requires Inv(t) && file < MAX_FD && IsDev(t.fds[file].flags)
    ensures var (t', reply) := Ioctl(t, file, TIOCNXCL, cb);
            && reply == Ok(0) && |t'.fds| == MAX_FD && t'.maxFd == t.maxFd && !Holds(t', file)
            && t'.fds == t.fds[file := t.fds[file].(flags := t'.fds[file].flags)]
            && IsDev(t'.fds[file].flags) && UserFlags(t'.fds[file].flags) == UserFlags(t.fds[file].flags)
  {
    hide InOrder, LocksInOrder, IsDev, IsExcl, Unlocked, UserFlags;
    ClearExcl(t.fds[file].flags);
    UnlockedKeepsUserFlags(t.fds[file].flags);
  }

  /** A granted TIOCEXCL followed by TIOCNXCL gives back a table in which the descriptor held no lock. */
  lemma RequestsUndo(t: Table, file: nat, cb: Option<Reply>, cb': Option<Reply>)
    requires Inv(t) && file < MAX_FD && IsDev(t.fds[file].flags) && !Holds(t, file) && t.fds[file].dev != 0
    requires Ioctl(t, file, TIOCEXCL, cb).1.Ok?
    ensures var excl, nxcl := OpIoctl(file, TIOCEXCL, cb), OpIoctl(file, TIOCNXCL, cb');
            && Inv(Step(t, excl)) && Legal(Step(t, excl), nxcl) && Step(Step(t, excl), nxcl) == t
  {
    hide InOrder, LocksInOrder, IsDev, IsExcl, Locked, Unlocked, UserFlags;
    StepKeeps(t, OpIoctl(file, TIOCEXCL, cb));
    SetExcl(t.fds[file].flags);
    UnlockedLocked(t.fds[file].flags);
    assert t.fds[file := t.fds[file]] == t.fds;
  }

  lemma FcntlAnswers(t: Table, file: int, cmd: Command)
    requires Inv(t) && file < MAX_FD
    ensures file < 0 ==> Fcntl(t, file, cmd) == (t, Failed(EBADFD))
    ensures file >= 0 && cmd.OtherCommand? ==> Fcntl(t, file, cmd) == (t, Failed(EINVAL))
    ensures file >= 0 && cmd.F_GETFL? ==> Fcntl(t, file, cmd) == (t, Ok((t.fds[file].flags & 0x3FFF_FFFF) as int))
    ensures file >= 0 && cmd.F_SETFL? ==> Fcntl(t, file, cmd).1 == Ok(0)
  {
    hide InOrder, LocksInOrder, WithSettable;
  }

  // ----- what one call does for another -----

  /** A granted lock is held, by this descriptor alone, and unlocking undoes it; unlocking always releases. */
  lemma UnlockUndoesLock(t: Table, i: nat)
    requires Inv(t) && i < MAX_FD && IsDev(t.fds[i].flags)
    ensures !Holds(Unlock(t, i).0, i)
    ensures Lock(t, i).1.Ok? ==>
              && Holds(Lock(t, i).0, i)
              && (forall j :: 0 <= j < MAX_FD && j != i && t.fds[j].dev == t.fds[i].dev ==> !Holds(t, j))
    ensures Lock(t, i).1.Ok? && !Holds(t, i) ==> Unlock(Lock(t, i).0, i).0 == t
  {
    hide IsExcl, IsDev, Locked, Unlocked, LocksInOrder;
    SetExcl(t.fds[i].flags);
    ClearExcl(t.fds[i].flags);
    if Lock(t, i).1.Ok? {
      LockKeeps(t, i);
      var t' := Lock(t, i).0;
      forall j | 0 <= j < MAX_FD && j != i && t.fds[j].dev == t.fds[i].dev && Holds(t, j)
        ensures false
      {
        InOrderPair(t', i, j);
        InOrderPair(t', j, i);
      }
      if !Holds(t, i) {
        UnlockedLocked(t.fds[i].flags);
        assert Unlock(t', i).0.fds == t.fds;
      }
    }
  }

  lemma InOrderPair(t: Table, i: nat, j: nat)
    requires Inv(t) && i < MAX_FD && j < MAX_FD && i != j
    ensures PairInOrder(t, i, j)
  {
  }

  /** Closing a descriptor as soon as it was opened gives the table its devices and flags back, except for stale flags
      of the descriptor it took. */
  lemma CloseUndoesOpen(t: Table, name: Lookup, flags: bv32, cb: Option<Opened>, bye: Option<Reply>)
    requires Inv(t) && (name.NotFound? || name.dev != 0)
    ensures var (t1, reply) := Open(t, name, flags, cb);
            reply.Ok? && 0 <= reply.rc < |t1.fds| ==>
              forall j :: 0 <= j < MAX_FD ==> var fd := Close(t1, reply.rc, bye).0.fds[j];
                && fd.dev == t.fds[j].dev
                && fd.flags == if j == reply.rc then 0 else t.fds[j].flags
  {
    hide IsExcl, IsDev, Open, LocksInOrder;
    OpenEffect(t, name, flags, cb);
  }

  /** Redirection moves the device to the stdio slot, without a lock, and leaves no other descriptor changed but for stale
      flags of the one that it used on the way; if the name cannot be opened, no descriptor changes its device. */
  lemma RedirectEffect(t: Table, slot: nat, name: Lookup, flags: bv32, cb: Option<Opened>)
    requires Inv(t) && slot <= 2 && (name.NotFound? || name.dev != 0)
    ensures var t' := Redirect(t, slot, name, flags, cb);
            && |t'.fds| == MAX_FD
            && (Open(t, name, flags, cb).1.Ok? ==>
                  && t'.fds[slot].dev == name.dev && !Holds(t', slot) && (IsDev(t'.fds[slot].flags) <==> name.Device?)
                  && 0 <= Open(t, name, flags, cb).1.rc < |Open(t, name, flags, cb).0.fds|
                  && t'.fds[slot] == Open(t, name, flags, cb).0.fds[Open(t, name, flags, cb).1.rc])
            && (Open(t, name, flags, cb).1.Failed? ==> t'.fds[slot].dev == t.fds[slot].dev)
            && forall j :: 0 <= j < MAX_FD && j != slot ==>
                 && t'.fds[j].dev == t.fds[j].dev
                 && (t'.fds[j].flags == t.fds[j].flags || (t.fds[j].dev == 0 && t'.fds[j].flags == 0))
  {
    hide IsExcl, IsDev, Open, LocksInOrder;
    OpenEffect(t, name, flags, cb);
  }

  /** What F_SETFL sets, F_GETFL shows, and nothing else changes; the lock and device bits are never shown. */
  lemma FcntlShowsWhatItSet(t: Table, file: nat, arg: bv32)
    requires Inv(t) && file < MAX_FD
    ensures var t' := Fcntl(t, file, F_SETFL(arg)).0;
            && FCNTL_MASK == 0x0000_4008
            && t'.fds == t.fds[file := t'.fds[file]] && t'.maxFd == t.maxFd
            && t'.fds[file].dev == t.fds[file].dev && t'.fds[file].priv == t.fds[file].priv
            && exists shown: bv32 ::
                 && Fcntl(t', file, F_GETFL).1 == Ok(shown as int)
                 && shown & FCNTL_MASK == arg & FCNTL_MASK
                 && shown & !FCNTL_MASK == UserFlags(t.fds[file].flags) & !FCNTL_MASK
                 && !IsExcl(shown) && !IsDev(shown)
  {
    hide InOrder, LocksInOrder, IsExcl, IsDev, UserFlags, WithSettable;
    var flags := t.fds[file].flags;
    SettableShown(flags, arg);
    UserFlagsClear(WithSettable(flags, arg));
    var shown := UserFlags(WithSettable(flags, arg));
    assert Fcntl(Fcntl(t, file, F_SETFL(arg)).0, file, F_GETFL).1 == Ok(shown as int);
  }

  // ----- what the documentation promises, and when the code keeps it -----

  /** `i` is the only descriptor open on its device. */
  predicate Sole(t: Table, i: nat)
    requires i < |t.fds|
  {
    forall j :: 0 <= j < |t.fds| && j != i ==> t.fds[j].dev != t.fds[i].dev
  }

  /** A lock is meant to be granted to the only user of a device. Every only user gets it; but a grant means "only
      user" exactly when the descriptor at the high-water mark, which the scan skips, is not on the same device. */
  lemma GrantMeansSole(t: Table, i: nat)
    requires Inv(t) && i < MAX_FD && Uses(t, i, t.fds[i].dev)
    ensures Sole(t, i) ==> Lock(t, i).1.Ok?
    ensures Lock(t, i).1.Ok? ==> (Sole(t, i) <==> t.maxFd == i || t.fds[t.maxFd].dev != t.fds[i].dev)
  {
    hide IsExcl, IsDev, LocksInOrder;
  }

  /** The table after the device `dev` was opened `n` (up to 2) times, descriptor 3 having `flags3`. */
  function Opens(dev: nat, n: nat, flags3: bv32): (t: Table)
    requires n <= 2
  {
    var fds := Initial(1).fds;
    if n == 0 then Initial(1)
    else if n == 1 then Table(fds[3 := Fd(dev, 0, flags3)], 3)
    else Table(fds[3 := Fd(dev, 0, flags3)][4 := Fd(dev, 0, WithDev(UserFlags(0)))], 4)
  }

  lemma OpensStep(dev: nat, n: nat)
    requires dev > 1 && n <= 1
    ensures var flags := WithDev(UserFlags(0));
            Inv(Opens(dev, n, flags)) ==>
              Open(Opens(dev, n, flags), Device(dev), 0, None) == (Opens(dev, n + 1, flags), Ok(3 + n))
  {
    hide IsExcl, IsDev, UserFlags, WithDev, FirstFree, InOrder, LocksInOrder;
    UserFlagsClear(0);
    SetDev(UserFlags(0));
    NoFlags();
    var t := Opens(dev, n, WithDev(UserFlags(0)));
    FirstFreeAt(t.fds, 0, 3 + n);
    if Inv(t) {
      var (t', reply) := Open(t, Device(dev), 0, None);
      assert t' == Opens(dev, n + 1, WithDev(UserFlags(0)));
      assert reply == Ok(3 + n);
    }
  }

  /** Two opens of the same device, then TIOCEXCL on the first: granted, although the second is open too. */
  lemma GrantToOneOfTwo(dev: nat)
    requires dev > 1
    ensures var ops := [OpOpen(Device(dev), 0, None), OpOpen(Device(dev), 0, None), OpIoctl(3, TIOCEXCL, None)];
            && LegalRun(Initial(1), ops)
            && Holds(Run(Initial(1), ops), 3) && Users(Run(Initial(1), ops), dev) == {3, 4}
  {
    hide IsExcl, IsDev, UserFlags, Locked, WithDev, FirstFree, InOrder, LocksInOrder, Open;
    var open, excl := OpOpen(Device(dev), 0, None), OpIoctl(3, TIOCEXCL, None);
    var flags := WithDev(UserFlags(0));
    UserFlagsClear(0);
    SetDev(UserFlags(0));
    SetExcl(flags);
    NoFlags();
    var t0, t1, t2, t3 := Initial(1), Opens(dev, 1, flags), Opens(dev, 2, flags), Opens(dev, 2, Locked(flags));
    OpensStep(dev, 0);
    StepKeeps(t0, open);
    OpensStep(dev, 1);
    StepKeeps(t1, open);
    assert Step(t2, excl) == t3;
    StepKeeps(t2, excl);
    assert [open, open, excl][1..] == [open, excl] && [open, excl][1..] == [excl] && [excl][1..] == [];
    assert LegalRun(t3, []) && Run(t3, []) == t3;
    assert LegalRun(t2, [excl]) && Run(t2, [excl]) == t3;
    assert LegalRun(t1, [open, excl]) && Run(t1, [open, excl]) == t3;
  }

  lemma {:induction false} FirstFreeAt(fds: seq<Fd>, from: nat, i: nat)
    requires from <= i < |fds| && fds[i].dev == 0 && forall j :: from <= j < i ==> fds[j].dev != 0
    ensures FirstFree(fds, from) == Some(i)
    decreases i - from
  {
    if from < i {
      FirstFreeAt(fds, from + 1, i);
    }
  }

  /** A failing open is meant to leave the table as it was. Devices and flags do stay as they were exactly when no
      descriptor was available to claim, or the claimed one had no stale flags (which only fcntl on a closed
      descriptor can leave). */
  lemma FailedOpenRestores(t: Table, name: Lookup, flags: bv32, cb: Option<Opened>)
    requires Inv(t) && (name.NotFound? || name.dev != 0)
    ensures var (t', reply) := Open(t, name, flags, cb);
            reply.Failed? ==>
              ((forall i :: 0 <= i < MAX_FD ==> t'.fds[i].dev == t.fds[i].dev && t'.fds[i].flags == t.fds[i].flags) <==>
               name.NotFound? || FirstFree(t.fds, 0) == None || t.fds[FirstFree(t.fds, 0).value].flags == 0)
  {
    hide IsExcl, IsDev, LockedByOther;
    OpenEffect(t, name, flags, cb);
  }

  /** close is meant to release the lock of its descriptor; it does exactly for descriptors above the stdio ones. */
  lemma CloseReleasesLock(t: Table, file: nat, cb: Option<Reply>)
    requires Inv(t) && file < MAX_FD && Holds(t, file)
    ensures !Holds(Close(t, file, cb).0, file) <==> file > 2
  {
    hide IsExcl;
    NoFlags();
  }

  // ----- where the table keeps no stale flags -----

  /** Free descriptors have no flags. */
  predicate FreeAreClean(t: Table) {
    forall i :: 0 <= i < |t.fds| && t.fds[i].dev == 0 ==> t.fds[i].flags == 0
  }

  /** F_SETFL is used on open descriptors only. */
  predicate Careful(t: Table, op: Op) {
    op.OpFcntl? && op.cmd.F_SETFL? && 0 <= op.file < |t.fds| ==> t.fds[op.file].dev != 0
  }

  predicate CarefulRun(t: Table, ops: seq<Op>)
    requires Inv(t) && LegalRun(t, ops)
    decreases |ops|
  {
    ops == [] || (Careful(t, ops[0]) && (StepKeeps(t, ops[0]); CarefulRun(Step(t, ops[0]), ops[1..])))
  }

  lemma StepKeepsClean(t: Table, op: Op)
    requires Inv(t) && Legal(t, op) && Careful(t, op) && FreeAreClean(t)
    ensures FreeAreClean(Step(t, op))
  {
    hide IsExcl, IsDev, LocksInOrder, Open, Redirect, LockedByOther, UserFlags, WithSettable, Locked, Unlocked;
    match op
    case OpOpen(name, flags, answer) => OpenEffect(t, name, flags, answer);
    case OpIoctl(_, _, _) =>
    case OpClose(_, _) =>
    case OpFcntl(_, _) =>
    case OpRedirect(slot, name, flags, answer) =>
      OpenEffect(t, name, flags, answer);
      RedirectEffect(t, slot, name, flags, answer);
  }

  lemma {:induction false} RunKeepsClean(t: Table, ops: seq<Op>)
    requires Inv(t) && LegalRun(t, ops) && CarefulRun(t, ops) && FreeAreClean(t)
    ensures FreeAreClean(Run(t, ops))
    decreases |ops|
  {
    hide InOrder, LocksInOrder, Step, FreeAreClean;
    if ops != [] {
      StepKeepsClean(t, ops[0]);
      StepKeeps(t, ops[0]);
      RunKeepsClean(Step(t, ops[0]), ops[1..]);
    }
  }

  /** In every run from the initial pool that uses F_SETFL on open descriptors only, a failing open leaves all devices
      and flags of the table as they were. */
  lemma FailedOpenLeavesTable(devNull: nat, ops: seq<Op>, name: Lookup, flags: bv32, cb: Option<Opened>)
    requires devNull != 0 && LegalRun(Initial(devNull), ops) && CarefulRun(Initial(devNull), ops)
    requires name.NotFound? || name.dev != 0
    ensures var t := Run(Initial(devNull), ops);
            Open(t, name, flags, cb).1.Failed? ==>
              forall i :: 0 <= i < MAX_FD ==>
                var fd := Open(t, name, flags, cb).0.fds[i]; fd.dev == t.fds[i].dev && fd.flags == t.fds[i].flags
  {
    hide InOrder, LocksInOrder, Open, Run;
    RunKeepsClean(Initial(devNull), ops);
    OpenEffect(Run(Initial(devNull), ops), name, flags, cb);
  }

  // ----- runs in which the documented promises fail -----

  /** F_SETFL on the closed descriptor 3, then an open that the driver refuses: the flags of descriptor 3 change. */
  lemma FailedOpenChangesFlags(dev: nat)
    requires dev > 1
    ensures var ops := [OpFcntl(3, F_SETFL(8))];
            && LegalRun(Initial(1), ops)
            && var t := Run(Initial(1), ops);
               var (t', reply) := Open(t, Device(dev), 0, Some(Opened(Failed(DriverError(1)), 0)));
               reply.Failed? && t.fds[3].flags == 8 && |t'.fds| > 3 && t'.fds[3].flags == 0
  {
    hide IsExcl, IsDev, UserFlags, WithDev, InOrder, LocksInOrder, LockedByOther, FirstFree, WithSettable;
    var op := OpFcntl(3, F_SETFL(8));
    var t := Step(Initial(1), op);
    StepKeeps(Initial(1), op);
    assert [op][1..] == [] && LegalRun(t, []) && Run(t, []) == t;
    SettableFromNone(8);
    FirstFreeAt(t.fds, 0, 3);
  }

  lemma SettableFromNone(arg: bv32)
    ensures WithSettable(0, arg) == arg & FCNTL_MASK && 8 & FCNTL_MASK == 8
  {
  }

  /** A lock taken on standard input outlives the close of standard input. */
  lemma StdioLockOutlivesClose(dev: nat)
    requires dev > 1
    ensures var ops := [OpRedirect(0, Device(dev), 0, None), OpIoctl(0, TIOCEXCL, None), OpClose(0, None)];
            LegalRun(Initial(1), ops) && Holds(Run(Initial(1), ops), 0)
  {
    hide IsExcl, IsDev, UserFlags, WithDev, InOrder, LocksInOrder, FirstFree, Locked, Open, SharedBelowMark;
    var redirect, excl, close := OpRedirect(0, Device(dev), 0, None), OpIoctl(0, TIOCEXCL, None), OpClose(0, None);
    var flags := WithDev(UserFlags(0));
    UserFlagsClear(0);
    SetDev(UserFlags(0));
    SetExcl(flags);
    OpensStep(dev, 0);
    var t0 := Initial(1);
    StepKeeps(t0, redirect);
    var t1 := Step(t0, redirect);
    assert t1.fds[0] == Fd(dev, 0, flags) && t1.maxFd == 3;
    assert t1.fds[1].dev == 1 && t1.fds[2].dev == 1;
    NotShared(t1);
    StepKeeps(t1, excl);
    var t2 := Step(t1, excl);
    StepKeeps(t2, close);
    assert Step(t2, close) == t2;
    assert [redirect, excl, close][1..] == [excl, close] && [excl, close][1..] == [close] && [close][1..] == [];
    assert LegalRun(t2, []) && Run(t2, []) == t2;
    assert LegalRun(t2, [close]) && Run(t2, [close]) == t2;
    assert LegalRun(t1, [excl, close]) && Run(t1, [excl, close]) == t2;
  }

  lemma NotShared(t: Table)
    requires |t.fds| == MAX_FD && t.maxFd == 3 && t.fds[1].dev != t.fds[0].dev && t.fds[2].dev != t.fds[0].dev
    ensures !SharedBelowMark(t, 0)
  {
  }
}
