/**
 The pool of file descriptors, as a value, and what each system call makes of it.
 */
module FdTable {
  import opened Arithmetic
  import opened Errno

  const ALT_MAX_FD := 32

  /** A registered device or filesystem, and which of its callbacks exist. */
  datatype Dev = Dev(id: nat, isFilesystem: bool, hasOpen: bool, hasClose: bool, hasIoctl: bool)

  datatype DevRef = Null | Ref(dev: Dev)

  /** The flags word of a descriptor: the two bits the system keeps for itself, and all others. */
  datatype Flags = Flags(excl: bool, device: bool, user: nat)

  const NO_FLAGS := Flags(false, false, 0)

  datatype Table = Table(devs: seq<DevRef>, flags: seq<Flags>, maxFd: int)

  datatype Request = TIOCEXCL | TIOCNXCL | OtherRequest

  /**
   The system calls.  "found" is what the name lookup came up with, "hook" what the callback of the
   device answers if it is called.  Redirect is what startup does for each standard stream.
   */
  datatype Op =
    | Open(found: DevRef, flags: Flags, hook: int)
    | Close(fd: int, hook: int)
    | Ioctl(fd: int, request: Request, hook: int)
    | Redirect(stream: nat, found: DevRef, flags: Flags, hook: int)

  predicate WellFormed(t: Table) {
    |t.devs| == |t.flags| == ALT_MAX_FD && -1 <= t.maxFd < ALT_MAX_FD
  }

  /** The callers' part: descriptors they name are open, and only standard streams are redirected. */
  predicate Callable(t: Table, op: Op)
    requires WellFormed(t)
  {
    match op
    case Open(_, _, _) => true
    case Close(fd, _) => fd < ALT_MAX_FD && (fd >= 0 ==> t.devs[fd].Ref?)
    case Ioctl(fd, _, _) => fd < ALT_MAX_FD && (fd >= 0 ==> t.devs[fd].Ref?)
    case Redirect(stream, _, _, _) => stream <= 2
  }

  // ---------------------------------------------------------------- open

  /** The first free descriptor from i on, or the number of descriptors. */
  function FirstFree(devs: seq<DevRef>, i: nat): (r: nat)
    requires i <= |devs|
    ensures i <= r <= |devs|
    ensures r < |devs| ==> devs[r] == Null
    ensures forall k :: i <= k < r ==> devs[k] != Null
    decreases |devs| - i
  {
    if i == |devs| || devs[i] == Null then i else FirstFree(devs, i + 1)
  }

  /** Another descriptor up to the high-water mark holds the device locked. */
  predicate LockedAgainst(t: Table, fd: nat)
    requires WellFormed(t) && fd < ALT_MAX_FD
  {
    exists i :: 0 <= i <= t.maxFd && t.devs[i] == t.devs[fd] && t.flags[i].excl && i != fd
  }

  /** The table while a descriptor is being set up for the device. */
  function Claimed(t: Table, i: nat, found: DevRef, flags: Flags): Table
    requires WellFormed(t) && i < ALT_MAX_FD && found.Ref?
  {
    Table(t.devs[i := found],
          t.flags[i := Flags(false, !found.dev.isFilesystem, flags.user)],
          Max(t.maxFd, i))
  }

  function Released(t: Table, fd: int): Table
    requires WellFormed(t) && fd < ALT_MAX_FD
  {
    if fd > 2 then t.(devs := t.devs[fd := Null], flags := t.flags[fd := NO_FLAGS]) else t
  }

  /** What open ends with: the status, and the descriptor that was claimed, or -1. */
  function OpenStatus(t: Table, found: DevRef, flags: Flags, hook: int): (int, int)
    requires WellFormed(t)
  {
    var i := FirstFree(t.devs, 0);
    if found == Null then (-ENODEV, -1)
    else if i == ALT_MAX_FD then (-EMFILE, -EMFILE)
    else if !found.dev.isFilesystem && LockedAgainst(Claimed(t, i, found, flags), i) then (-EACCES, i)
    else if found.dev.hasOpen then (hook, i)
    else (0, i)
  }

  function AfterOpen(t: Table, found: DevRef, flags: Flags, hook: int): Table
    requires WellFormed(t)
  {
    var (status, i) := OpenStatus(t, found, flags, hook);
    if i < 0 then t
    else if status < 0 then Released(Claimed(t, i, found, flags), i)
    else Claimed(t, i, found, flags)
  }

  function OpenResult(t: Table, found: DevRef, flags: Flags, hook: int): int
    requires WellFormed(t)
  {
    var (status, i) := OpenStatus(t, found, flags, hook);
    if status < 0 then -1 else i
  }

  // ---------------------------------------------------------------- lock

  /** The scan that a lock request makes: it ends one short of the high-water mark. */
  predicate LockRefused(t: Table, fd: nat)
    requires WellFormed(t) && fd < ALT_MAX_FD
  {
    exists i :: 0 <= i < t.maxFd && i != fd && t.devs[i] == t.devs[fd]
  }

  function IoctlResult(t: Table, fd: int, request: Request, hook: int): int
    requires WellFormed(t) && Callable(t, Ioctl(fd, request, hook))
  {
    if fd < 0 then -EBADFD
    else if t.flags[fd].device && request == TIOCEXCL then
      if LockRefused(t, fd) then -EACCES else 0
    else if t.flags[fd].device && request == TIOCNXCL then 0
    else if t.devs[fd].dev.hasIoctl then hook
    else -ENOTTY
  }

  function AfterIoctl(t: Table, fd: int, request: Request): Table
    requires WellFormed(t) && fd < ALT_MAX_FD
  {
    if fd < 0 || !t.flags[fd].device || request == OtherRequest then t
    else if request == TIOCNXCL then t.(flags := t.flags[fd := t.flags[fd].(excl := false)])
    else if LockRefused(t, fd) then t
    else t.(flags := t.flags[fd := t.flags[fd].(excl := true)])
  }

  // ---------------------------------------------------------------- all calls

  function Result(t: Table, op: Op): int
    requires WellFormed(t) && Callable(t, op)
  {
    match op
    case Open(found, flags, hook) => OpenResult(t, found, flags, hook)
    case Close(fd, hook) => if fd < 0 || (t.devs[fd].dev.hasClose && hook < 0) then -1 else 0
    case Ioctl(fd, request, hook) => IoctlResult(t, fd, request, hook)
    case Redirect(_, found, flags, hook) => OpenResult(t, found, flags, hook)
  }

  function After(t: Table, op: Op): (t': Table)
    requires WellFormed(t) && Callable(t, op)
    ensures WellFormed(t')
  {
    match op
    case Open(found, flags, hook) => AfterOpen(t, found, flags, hook)
    case Close(fd, _) => Released(t, fd)
    case Ioctl(fd, request, _) => AfterIoctl(t, fd, request)
    case Redirect(stream, found, flags, hook) =>
      var t' := AfterOpen(t, found, flags, hook);
      var old_ := OpenResult(t, found, flags, hook);
      if old_ < 0 then t'
      else
        Released(t'.(devs := t'.devs[stream := t'.devs[old_]], flags := t'.flags[stream := t'.flags[old_]]), old_)
  }

  predicate Initial(t: Table) {
    && WellFormed(t) && t.maxFd == -1
    && (forall i :: 0 <= i < ALT_MAX_FD ==> t.flags[i] == NO_FLAGS)
    && (forall i :: 0 <= i < 3 ==> t.devs[i].Ref? && !t.devs[i].dev.isFilesystem)
    && (forall i :: 3 <= i < ALT_MAX_FD ==> t.devs[i] == Null)
  }

  /** The ops can be called one after the other from t, ending in t'. */
  ghost predicate Runs(t: Table, ops: seq<Op>, t': Table)
    requires WellFormed(t)
    decreases |ops|
  {
    if ops == [] then t' == t
    else Callable(t, ops[0]) && Runs(After(t, ops[0]), ops[1..], t')
  }

  // ---------------------------------------------------------------- what every call keeps

  predicate Inv(t: Table) {
    && WellFormed(t)
    // the standard streams stay open
    && (forall i :: 0 <= i < 3 ==> t.devs[i].Ref?)
    // nothing lingers in a free slot
    && (forall i :: 0 <= i < ALT_MAX_FD && t.devs[i] == Null ==> t.flags[i] == NO_FLAGS)
    // the high-water mark is above all that is open
    && (forall i :: 3 <= i < ALT_MAX_FD && t.devs[i].Ref? ==> i <= t.maxFd)
    && (forall i :: 0 <= i < ALT_MAX_FD && t.flags[i].device ==> 3 <= t.maxFd)
    // locks are held on devices only
    && (forall i :: 0 <= i < ALT_MAX_FD && t.flags[i].excl ==> t.flags[i].device)
    && (forall i :: 0 <= i < ALT_MAX_FD && t.flags[i].device ==> t.devs[i].Ref? && !t.devs[i].dev.isFilesystem)
  }

  lemma CallKeepsInv(t: Table, op: Op)
    requires Inv(t) && Callable(t, op)
    ensures Inv(After(t, op))
  {
    match op
    case Open(found, flags, hook) => OpenKeepsInv(t, found, flags, hook);
    case Close(fd, hook) =>
    case Ioctl(fd, request, hook) =>
    case Redirect(stream, found, flags, hook) => OpenKeepsInv(t, found, flags, hook);
  }

  lemma OpenKeepsInv(t: Table, found: DevRef, flags: Flags, hook: int)
    requires Inv(t)
    ensures Inv(AfterOpen(t, found, flags, hook))
    ensures OpenResult(t, found, flags, hook) >= 0 ==> OpenResult(t, found, flags, hook) > 2
  {
  }

  /** The invariant holds after any sequence of calls. */
  lemma {:induction false} EveryRunKeepsInv(t: Table, ops: seq<Op>, t': Table)
    requires Inv(t) && Runs(t, ops, t')
    ensures Inv(t')
    decreases |ops|
  {
    if ops != [] {
      CallKeepsInv(t, ops[0]);
      EveryRunKeepsInv(After(t, ops[0]), ops[1..], t');
    }
  }

  lemma InitialInv(t: Table)
    requires Initial(t)
    ensures Inv(t)
  {
  }

  /** A successful open gives the least free descriptor, above the standard streams, set up for the device. */
  lemma OpenGivesLeastFree(t: Table, found: DevRef, flags: Flags, hook: int)
    requires Inv(t) && OpenResult(t, found, flags, hook) >= 0
    ensures var fd, t' := OpenResult(t, found, flags, hook), AfterOpen(t, found, flags, hook);
            && 2 < fd < ALT_MAX_FD && t.devs[fd] == Null && (forall k :: 0 <= k < fd ==> t.devs[k].Ref?)
            && t'.devs == t.devs[fd := found] && found.Ref?
            && t'.flags == t.flags[fd := Flags(false, !found.dev.isFilesystem, flags.user)]
            && t'.maxFd == Max(t.maxFd, fd)
  {
  }

  /** A failed open leaves every descriptor as it was. */
  lemma FailedOpenRestores(t: Table, found: DevRef, flags: Flags, hook: int)
    requires Inv(t) && OpenResult(t, found, flags, hook) < 0
    ensures var t' := AfterOpen(t, found, flags, hook);
            t'.devs == t.devs && t'.flags == t.flags && t.maxFd <= t'.maxFd
  {
    var i := FirstFree(t.devs, 0);
    if i < ALT_MAX_FD && found.Ref? {
      var t' := AfterOpen(t, found, flags, hook);
      assert t'.devs == t.devs[i := found][i := Null] == t.devs;
      assert t'.flags == t.flags;
    }
  }

  /** Closing frees a descriptor above the standard streams, whatever the device's own close answers. */
  lemma CloseFrees(t: Table, fd: int, hook: int)
    requires Inv(t) && Callable(t, Close(fd, hook))
    ensures var t' := After(t, Close(fd, hook));
            if fd <= 2 then t' == t
            else
              && t'.devs[fd] == Null && t'.flags[fd] == NO_FLAGS && t'.maxFd == t.maxFd
              && (forall i :: 0 <= i < ALT_MAX_FD && i != fd ==> t'.devs[i] == t.devs[i] && t'.flags[i] == t.flags[i])
    ensures Result(t, Close(fd, hook)) in {0, -1}
    ensures Result(t, Close(fd, hook)) == -1 <==> fd < 0 || (t.devs[fd].dev.hasClose && hook < 0)
  {
  }

  /** Closing what was just opened leaves every descriptor as it was before. */
  lemma CloseUndoesOpen(t: Table, found: DevRef, flags: Flags, hook: int, closeHook: int)
    requires Inv(t) && Result(t, Open(found, flags, hook)) >= 0
    ensures var fd, t1 := Result(t, Open(found, flags, hook)), After(t, Open(found, flags, hook));
            Callable(t1, Close(fd, closeHook))
            && var t2 := After(t1, Close(fd, closeHook)); t2.devs == t.devs && t2.flags == t.flags
  {
    OpenGivesLeastFree(t, found, flags, hook);
  }

  /** A redirected stream is the newly opened device; no other descriptor changes, and none if the open fails. */
  lemma RedirectPointsStream(t: Table, stream: nat, found: DevRef, flags: Flags, hook: int)
    requires Inv(t) && stream <= 2
    ensures var op := Redirect(stream, found, flags, hook);
            && Result(t, op) == Result(t, Open(found, flags, hook))
            && (Result(t, op) >= 0 ==>
                  && found.Ref? && After(t, op).devs == t.devs[stream := found]
                  && After(t, op).flags == t.flags[stream := Flags(false, !found.dev.isFilesystem, flags.user)])
            && (Result(t, op) < 0 ==> After(t, op).devs == t.devs && After(t, op).flags == t.flags)
  {
    if OpenResult(t, found, flags, hook) >= 0 {
      OpenGivesLeastFree(t, found, flags, hook);
    } else {
      FailedOpenRestores(t, found, flags, hook);
    }
  }

  // ---------------------------------------------------------------- exclusive access

  /** Descriptor h holds device d locked. */
  predicate Holds(t: Table, h: nat, d: Dev)
    requires WellFormed(t)
  {
    h < ALT_MAX_FD && t.devs[h] == Ref(d) && t.flags[h].excl
  }

  predicate AllTaken(t: Table)
    requires WellFormed(t)
  {
    forall i :: 0 <= i < ALT_MAX_FD ==> t.devs[i].Ref?
  }

  predicate Held(t: Table, d: Dev)
    requires WellFormed(t)
  {
    exists h :: 0 <= h < ALT_MAX_FD && Holds(t, h, d)
  }

  /**
   An open fails exactly when there is no such device, no free descriptor, a descriptor that holds the device,
   or a device whose own open fails, and the first of these is what the status tells.
   */
  lemma OpenFailsExactly(t: Table, found: DevRef, flags: Flags, hook: int)
    requires Inv(t)
    ensures Result(t, Open(found, flags, hook)) < 0 <==>
              found == Null || AllTaken(t) || (!found.dev.isFilesystem && Held(t, found.dev))
              || (found.dev.hasOpen && hook < 0)
    ensures Result(t, Open(found, flags, hook)) < 0 ==> Result(t, Open(found, flags, hook)) == -1
    ensures OpenStatus(t, found, flags, hook).0 == if found == Null then -ENODEV
                                                   else if AllTaken(t) then -EMFILE
                                                   else if !found.dev.isFilesystem && Held(t, found.dev) then -EACCES
                                                   else if found.dev.hasOpen then hook
                                                   else 0
  {
    var i := FirstFree(t.devs, 0);
    if found.Ref? && i < ALT_MAX_FD {
      assert !AllTaken(t);
      LockedMeansHeld(t, i, found, flags);
    }
  }

  /** A descriptor that is being set up meets a lock exactly if another descriptor holds the device. */
  lemma LockedMeansHeld(t: Table, i: nat, found: DevRef, flags: Flags)
    requires Inv(t) && found.Ref? && i < ALT_MAX_FD && t.devs[i] == Null
    ensures LockedAgainst(Claimed(t, i, found, flags), i) <==> Held(t, found.dev)
  {
    var c := Claimed(t, i, found, flags);
    if LockedAgainst(c, i) {
      var h :| 0 <= h <= c.maxFd && c.devs[h] == c.devs[i] && c.flags[h].excl && h != i;
      assert Holds(t, h, found.dev);
    }
    if Held(t, found.dev) {
      var h :| 0 <= h < ALT_MAX_FD && Holds(t, h, found.dev);
      assert h != i && c.devs[h] == c.devs[i] && c.flags[h].excl && h <= c.maxFd;
    }
  }

  /** A lock that is granted makes the descriptor the holder of its device; a lock that is refused changes nothing. */
  lemma LockTakesHold(t: Table, fd: nat, hook: int, d: Dev)
    requires Inv(t) && fd < ALT_MAX_FD && t.devs[fd] == Ref(d) && t.flags[fd].device
    ensures var op := Ioctl(fd, TIOCEXCL, hook);
            && (Result(t, op) == 0 || (Result(t, op) == -EACCES && After(t, op) == t && !SoleOwner(t, fd)))
            && (Result(t, op) == 0 ==> Holds(After(t, op), fd, d) && OnlyLockOf(t, After(t, op), fd))
  {
  }

  /** Unlocking always succeeds and ends the hold. */
  lemma UnlockEndsHold(t: Table, fd: nat, hook: int, d: Dev)
    requires Inv(t) && fd < ALT_MAX_FD && t.devs[fd] == Ref(d) && t.flags[fd].device
    ensures var op := Ioctl(fd, TIOCNXCL, hook);
            Result(t, op) == 0 && !Holds(After(t, op), fd, d) && OnlyLockOf(t, After(t, op), fd)
  {
  }

  /** Nothing but the lock of the descriptor has changed. */
  predicate OnlyLockOf(t: Table, t': Table, fd: nat)
    requires WellFormed(t) && WellFormed(t') && fd < ALT_MAX_FD
  {
    && t'.devs == t.devs && t'.maxFd == t.maxFd
    && t'.flags[fd].device == t.flags[fd].device && t'.flags[fd].user == t.flags[fd].user
    && (forall i :: 0 <= i < ALT_MAX_FD && i != fd ==> t'.flags[i] == t.flags[i])
  }

  /** Any other request, and any request on a descriptor that is not one of a device, is the device's own. */
  lemma OtherRequestsPass(t: Table, fd: int, request: Request, hook: int)
    requires Inv(t) && Callable(t, Ioctl(fd, request, hook))
    requires fd < 0 || !t.flags[fd].device || request == OtherRequest
    ensures After(t, Ioctl(fd, request, hook)) == t
    ensures Result(t, Ioctl(fd, request, hook)) == if fd < 0 then -EBADFD
                                                   else if t.devs[fd].dev.hasIoctl then hook
                                                   else -ENOTTY
  {
  }

  /** While a device is held, every open of it fails and changes no descriptor. */
  lemma HeldDeviceRefusesOpen(t: Table, h: nat, d: Dev, flags: Flags, hook: int)
    requires Inv(t) && Holds(t, h, d)
    ensures OpenResult(t, Ref(d), flags, hook) == -1
    ensures var t' := AfterOpen(t, Ref(d), flags, hook); t'.devs == t.devs && t'.flags == t.flags
  {
    var i := FirstFree(t.devs, 0);
    if i < ALT_MAX_FD {
      var c := Claimed(t, i, Ref(d), flags);
      assert c.devs[h] == c.devs[i] && c.flags[h].excl && h != i && h <= c.maxFd;
      assert LockedAgainst(c, i);
    }
    FailedOpenRestores(t, Ref(d), flags, hook);
  }

  function Naming(t: Table, d: Dev): set<int>
    requires WellFormed(t)
  {
    set i | 0 <= i < ALT_MAX_FD && t.devs[i] == Ref(d)
  }

  /** The calls that can end the hold of descriptor h. */
  predicate Releases(op: Op, h: nat) {
    match op
    case Open(_, _, _) => false
    case Close(fd, _) => fd == h && h > 2
    case Ioctl(fd, request, _) => fd == h && request == TIOCNXCL
    case Redirect(stream, _, _, _) => stream == h
  }

  lemma CallKeepsHold(t: Table, op: Op, h: nat, d: Dev)
    requires Inv(t) && Callable(t, op) && Holds(t, h, d) && !Releases(op, h)
    ensures Holds(After(t, op), h, d) && Naming(After(t, op), d) <= Naming(t, d)
  {
    match op
    case Open(found, flags, hook) => OpenUnderHold(t, found, flags, hook, h, d);
    case Redirect(stream, found, flags, hook) => OpenUnderHold(t, found, flags, hook, h, d);
    case Close(fd, hook) =>
    case Ioctl(fd, request, hook) =>
  }

  lemma OpenUnderHold(t: Table, found: DevRef, flags: Flags, hook: int, h: nat, d: Dev)
    requires Inv(t) && Holds(t, h, d)
    ensures var t' := AfterOpen(t, found, flags, hook);
            Holds(t', h, d) && (forall i :: 0 <= i < ALT_MAX_FD && t'.devs[i] == Ref(d) ==> t.devs[i] == Ref(d))
    ensures OpenResult(t, found, flags, hook) >= 0 ==> found != Ref(d) && OpenResult(t, found, flags, hook) != h
  {
    if found == Ref(d) {
      HeldDeviceRefusesOpen(t, h, d, flags, hook);
    }
    if OpenResult(t, found, flags, hook) < 0 {
      FailedOpenRestores(t, found, flags, hook);
    } else {
      OpenGivesLeastFree(t, found, flags, hook);
    }
  }

  /**
   From the moment a descriptor holds a device, through any sequence of calls none of which ends
   the hold, no descriptor comes to name the device that did not name it before.
   */
  lemma {:induction false} HoldExcludesNewcomers(t: Table, ops: seq<Op>, t': Table, h: nat, d: Dev)
    requires Inv(t) && Runs(t, ops, t') && Holds(t, h, d)
    requires forall i :: 0 <= i < |ops| ==> !Releases(ops[i], h)
    ensures WellFormed(t') && Holds(t', h, d) && Naming(t', d) <= Naming(t, d)
    decreases |ops|
  {
    if ops != [] {
      CallKeepsInv(t, ops[0]);
      CallKeepsHold(t, ops[0], h, d);
      HoldExcludesNewcomers(After(t, ops[0]), ops[1..], t', h, d);
    }
  }

  /**
   From the moment a lock is granted, through any sequence of calls none of which ends the hold: an open of the
   device fails, and no descriptor names the device that did not name it when the lock was granted.
   */
  lemma LockKeepsNewcomersOut(t: Table, fd: nat, hook: int, d: Dev, ops: seq<Op>, t': Table, flags: Flags, answer: int)
    requires Inv(t) && fd < ALT_MAX_FD && t.devs[fd] == Ref(d) && t.flags[fd].device
    requires Result(t, Ioctl(fd, TIOCEXCL, hook)) == 0
    requires Runs(After(t, Ioctl(fd, TIOCEXCL, hook)), ops, t')
    requires forall i :: 0 <= i < |ops| ==> !Releases(ops[i], fd)
    ensures WellFormed(t') && Result(t', Open(Ref(d), flags, answer)) == -1 && Naming(t', d) <= Naming(t, d)
  {
    var op := Ioctl(fd, TIOCEXCL, hook);
    LockTakesHold(t, fd, hook, d);
    CallKeepsInv(t, op);
    HoldExcludesNewcomers(After(t, op), ops, t', fd, d);
    EveryRunKeepsInv(After(t, op), ops, t');
    HeldDeviceRefusesOpen(t', fd, d, flags, answer);
  }

  /** Opened, locked, refused to the next, closed, and open to the next again. */
  lemma LockExample(t: Table, d: Dev)
    requires Initial(t) && !d.isFilesystem && !d.hasOpen
    requires forall i :: 0 <= i < 3 ==> t.devs[i] != Ref(d)
    ensures var open, lock, close := Open(Ref(d), NO_FLAGS, 0), Ioctl(3, TIOCEXCL, 0), Close(3, 0);
            && Result(t, open) == 3
            && var t1 := After(t, open);
               Callable(t1, lock) && Result(t1, lock) == 0
               && var t2 := After(t1, lock);
                  Result(t2, open) == -1
                  && var t3 := After(t2, open);
                     Callable(t3, close) && Result(After(t3, close), open) == 3
  {
    var open, lock, close := Open(Ref(d), NO_FLAGS, 0), Ioctl(3, TIOCEXCL, 0), Close(3, 0);
    assert t.devs[3] == Null && FirstFree(t.devs, 0) == 3;
    var t1 := After(t, open);
    CallKeepsInv(t, open);
    LockTakesHold(t1, 3, 0, d);
    var t2 := After(t1, lock);
    CallKeepsInv(t1, lock);
    HeldDeviceRefusesOpen(t2, 3, d, NO_FLAGS, 0);
    var t4 := After(After(t2, open), close);
    assert t4.devs[3] == Null && FirstFree(t4.devs, 0) == 3;
  }

  // ---------------------------------------------------------------- what a granted lock is worth

  /** No other descriptor names the device of fd. */
  predicate SoleOwner(t: Table, fd: nat)
    requires WellFormed(t) && fd < ALT_MAX_FD
  {
    forall i :: 0 <= i < ALT_MAX_FD && t.devs[i] == t.devs[fd] ==> i == fd
  }

  /**
   A lock is refused to nobody who is alone with the device; it is granted to somebody who is not
   exactly when the only other descriptor that names the device is the one at the high-water mark.
   */
  lemma LockGrantMeans(t: Table, fd: nat)
    requires Inv(t) && fd < ALT_MAX_FD && t.flags[fd].device
    ensures SoleOwner(t, fd) ==> !LockRefused(t, fd)
    ensures !LockRefused(t, fd) ==> (SoleOwner(t, fd) <==> fd == t.maxFd || t.devs[t.maxFd] != t.devs[fd])
  {
    if !LockRefused(t, fd) && (fd == t.maxFd || t.devs[t.maxFd] != t.devs[fd]) {
      forall i | 0 <= i < ALT_MAX_FD && t.devs[i] == t.devs[fd]
        ensures i == fd
      {
        assert i <= t.maxFd;
      }
    }
  }

  /** Two opens and a lock request on the first: granted, with the second still open. */
  lemma LockGrantedBesideAnother(t: Table, d: Dev)
    requires Initial(t) && !d.isFilesystem && !d.hasOpen
    requires forall i :: 0 <= i < 3 ==> t.devs[i] != Ref(d)
    ensures var open := Open(Ref(d), NO_FLAGS, 0);
            && Result(t, open) == 3 && Result(After(t, open), open) == 4
            && var t2 := After(After(t, open), open);
               && Callable(t2, Ioctl(3, TIOCEXCL, 0)) && Result(t2, Ioctl(3, TIOCEXCL, 0)) == 0
               && !SoleOwner(After(t2, Ioctl(3, TIOCEXCL, 0)), 3)
  {
    var open := Open(Ref(d), NO_FLAGS, 0);
    assert t.devs[3] == Null && FirstFree(t.devs, 0) == 3;
    var t1 := After(t, open);
    assert t1.devs[3] == Ref(d) && t1.devs[4] == Null;
    var t2 := After(t1, open);
    assert FirstFree(t1.devs, 0) == 4;
    assert t2.devs[3] == t2.devs[4] == Ref(d) && t2.maxFd == 4;
    assert After(t2, Ioctl(3, TIOCEXCL, 0)).devs[4] == Ref(d);
  }
}
