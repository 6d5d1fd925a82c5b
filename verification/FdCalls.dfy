/**
 The system calls on file descriptors, on the arrays they work on.
 */
module FdCalls {
  import opened Arithmetic
  import opened Errno
  import opened FdTable

  class Descriptors {
    const dev: array<DevRef>
    const flags: array<Flags>
    var maxFd: int
    var errno: int

    ghost predicate Valid()
      reads this, dev, flags
    {
      dev.Length == flags.Length == ALT_MAX_FD && Inv(State())
    }

    /** The pool as a value. */
    ghost function State(): Table
      reads this, dev, flags
    {
      Table(dev[..], flags[..], maxFd)
    }

    /** At reset the standard streams go nowhere and all other descriptors are free. */
    constructor (devNull: Dev)
      requires !devNull.isFilesystem
      ensures Valid() && Initial(State()) && fresh(dev) && fresh(flags)
    {
      dev := new DevRef[ALT_MAX_FD](i => if 0 <= i < 3 then Ref(devNull) else Null);
      flags := new Flags[ALT_MAX_FD](_ => NO_FLAGS);
      maxFd, errno := -1, 0;
    }

    /** Takes the first free descriptor for the device. */
    method GetFd(d: DevRef) returns (rc: int)
      requires Valid() && d.Ref?
      modifies this`maxFd, dev
      ensures var i := FirstFree(old(dev[..]), 0);
              && rc == (if i == ALT_MAX_FD then -EMFILE else i)
              && dev[..] == (if i == ALT_MAX_FD then old(dev[..]) else old(dev[..])[i := d])
              && maxFd == (if i == ALT_MAX_FD then old(maxFd) else Max(old(maxFd), i))
    {
      rc := -EMFILE;
      var i := 0;
      while i < ALT_MAX_FD
        invariant 0 <= i <= ALT_MAX_FD && dev[..] == old(dev[..]) && maxFd == old(maxFd) && rc == -EMFILE
        invariant FirstFree(dev[..], i) == FirstFree(dev[..], 0)
      {
        if dev[i] == Null {
          dev[i] := d;
          if i > maxFd {
            maxFd := i;
          }
          rc := i;
          break;
        }
        i := i + 1;
      }
    }

    method ReleaseFd(fd: int)
      requires dev.Length == flags.Length == ALT_MAX_FD && fd < ALT_MAX_FD
      modifies dev, flags
      ensures WellFormed(old(State())) ==> State() == Released(old(State()), fd)
    {
      if fd > 2 {
        flags[fd] := NO_FLAGS;
        dev[fd] := Null;
      }
    }

    /** Marks the descriptor as one of a device, and looks for another that holds the device locked. */
    method FileLocked(fd: nat) returns (rc: int)
      requires dev.Length == flags.Length == ALT_MAX_FD && fd < ALT_MAX_FD && 0 <= maxFd < ALT_MAX_FD
      modifies flags
      ensures flags[..] == old(flags[..])[fd := old(flags[fd]).(device := true)]
      ensures rc == if LockedAgainst(State(), fd) then -EACCES else 0
    {
      flags[fd] := flags[fd].(device := true);
      var i := 0;
      while i <= maxFd
        invariant 0 <= i <= maxFd + 1
        invariant forall k :: 0 <= k < i ==> !(dev[k] == dev[fd] && flags[k].excl && k != fd)
      {
        if dev[i] == dev[fd] && flags[i].excl && i != fd {
          return -EACCES;
        }
        i := i + 1;
      }
      rc := 0;
    }

    /** "found" is what looking up the name gave, "hook" what the device's own open answers. */
    method Open(found: DevRef, openFlags: Flags, hook: int) returns (rc: int)
      requires Valid()
      modifies this, dev, flags
      ensures Valid() && State() == AfterOpen(old(State()), found, openFlags, hook)
      ensures rc == OpenResult(old(State()), found, openFlags, hook)
      ensures errno == if rc < 0 then -OpenStatus(old(State()), found, openFlags, hook).0 else old(errno)
    {
      ghost var t := State();
      var index, status := -1, -ENODEV;
      if found.Ref? {
        index := GetFd(found);
        if index < 0 {
          status := index;
        } else {
          flags[index] := Flags(false, false, openFlags.user);
          var locked := 0;
          if !found.dev.isFilesystem {
            locked := FileLocked(index);
          }
          assert State() == Claimed(t, index, found, openFlags);
          status := locked;
          if locked >= 0 {
            status := if found.dev.hasOpen then hook else 0;
          }
        }
      }
      OpenKeepsInv(t, found, openFlags, hook);
      if status < 0 {
        ReleaseFd(index);
        errno := -status;
        return -1;
      }
      rc := index;
    }

    /** Grants the lock unless the scan meets another descriptor of the device. */
    method FdLock(fd: nat) returns (rc: int)
      requires Valid() && fd < ALT_MAX_FD
      modifies flags
      ensures rc == if LockRefused(old(State()), fd) then -EACCES else 0
      ensures flags[..] == if rc < 0 then old(flags[..]) else old(flags[..])[fd := old(flags[fd]).(excl := true)]
    {
      var i := 0;
      while i < maxFd
        invariant 0 <= i && (i <= maxFd || maxFd < 0)
        invariant forall k :: 0 <= k < i && k < maxFd ==> !(k != fd && dev[k] == dev[fd])
      {
        if i != fd && dev[i] == dev[fd] {
          return -EACCES;
        }
        i := i + 1;
      }
      flags[fd] := flags[fd].(excl := true);
      rc := 0;
    }

    method FdUnlock(fd: nat) returns (rc: int)
      requires flags.Length == ALT_MAX_FD && fd < ALT_MAX_FD
      modifies flags
      ensures rc == 0 && flags[..] == old(flags[..])[fd := old(flags[fd]).(excl := false)]
    {
      flags[fd] := flags[fd].(excl := false);
      rc := 0;
    }

    method Ioctl(file: int, request: Request, hook: int) returns (rc: int)
      requires Valid() && Callable(State(), Op.Ioctl(file, request, hook))
      modifies this`errno, flags
      ensures Valid() && State() == After(old(State()), Op.Ioctl(file, request, hook))
      ensures rc == Result(old(State()), Op.Ioctl(file, request, hook))
      ensures errno == if rc < 0 then -rc else old(errno)
    {
      CallKeepsInv(State(), Op.Ioctl(file, request, hook));
      if file >= 0 {
        if flags[file].device && request == TIOCEXCL {
          rc := FdLock(file);
        } else if flags[file].device && request == TIOCNXCL {
          rc := FdUnlock(file);
        } else if dev[file].dev.hasIoctl {
          rc := hook;
        } else {
          rc := -ENOTTY;
        }
      } else {
        rc := -EBADFD;
      }
      if rc < 0 {
        errno := -rc;
      }
    }

    method Close(file: int, hook: int) returns (rc: int)
      requires Valid() && Callable(State(), Op.Close(file, hook))
      modifies this`errno, dev, flags
      ensures Valid() && State() == After(old(State()), Op.Close(file, hook))
      ensures rc == Result(old(State()), Op.Close(file, hook))
      ensures errno == if rc == 0 then old(errno) else if file < 0 then EBADFD else -hook
    {
      CallKeepsInv(State(), Op.Close(file, hook));
      if file >= 0 {
        var rval := if dev[file].dev.hasClose then hook else 0;
        ReleaseFd(file);
        if rval < 0 {
          errno := -rval;
          return -1;
        }
        rc := 0;
      } else {
        errno := EBADFD;
        rc := -1;
      }
    }

    /** Points a standard stream at a newly opened device; the stream stays as it is if that fails. */
    method OpenFd(stream: nat, found: DevRef, openFlags: Flags, hook: int)
      requires Valid() && stream <= 2
      modifies this, dev, flags
      ensures Valid() && State() == After(old(State()), Redirect(stream, found, openFlags, hook))
    {
      CallKeepsInv(State(), Redirect(stream, found, openFlags, hook));
      var fd := Open(found, openFlags, hook);
      if fd >= 0 {
        dev[stream] := dev[fd];
        flags[stream] := flags[fd];
        ReleaseFd(fd);
      }
    }
  }
}
