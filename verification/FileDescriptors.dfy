/** The file descriptor table: allocation, exclusive locks and redirection of the standard streams.

    What a file name resolves to, and what the device's own open and close callbacks return, are
    parameters.  Locking is done slot by slot over a table whose upper end is `maxFd`, the highest
    slot ever allocated.
 */
module FileDescriptors {
  import opened Basics

  const EACCES := 13
  const ENODEV := 19
  const EMFILE := 24
  const EBADFD := 81

  /** Devices and filesystems are registered on separate lists. */
  datatype Dev = Device(id: nat) | FileSystem(id: nat)

  const DEV_NULL := Device(0)

  /** A descriptor; the flags word is split into its exclusive bit, its device bit and the rest. */
  datatype Slot = Slot(dev: Option<Dev>, excl: bool, isDev: bool, flags: nat)

  const FREE := Slot(None, false, false, 0)

  predicate Refers(s: Slot, d: Dev) { s.dev == Some(d) }

  /** The scan of alt_fd_lock: no other slot below maxFd has the same device. */
  predicate LockGranted(fds: seq<Slot>, maxFd: int, fd: nat)
    requires maxFd <= |fds| && fd < |fds|
  {
    forall i :: 0 <= i < maxFd && i != fd ==> fds[i].dev != fds[fd].dev
  }

  predicate OnlyReference(fds: seq<Slot>, fd: nat)
    requires fd < |fds|
  {
    forall i :: 0 <= i < |fds| && i != fd ==> fds[i].dev != fds[fd].dev
  }

  predicate Held(fds: seq<Slot>, d: Dev) {
    exists i :: 0 <= i < |fds| && fds[i].excl && Refers(fds[i], d)
  }

  /** The scan of alt_file_locked: no other slot up to maxFd holds the device exclusively. */
  predicate ScanClear(fds: seq<Slot>, maxFd: int, fd: nat)
    requires maxFd < |fds| && fd < |fds|
  {
    forall i :: 0 <= i <= maxFd && i != fd && fds[i].excl ==> fds[i].dev != fds[fd].dev
  }

  /** The table between calls. */
  ghost predicate Consistent(fds: seq<Slot>, maxFd: int) {
    && 3 <= |fds| && -1 <= maxFd < |fds|
    // The standard streams are never free; every other slot in use is at or below maxFd.
    && (forall i :: 0 <= i < 3 ==> fds[i].dev.Some?)
    && (forall i :: 3 <= i < |fds| && i > maxFd ==> fds[i] == FREE)
    && (forall i :: 0 <= i < |fds| && fds[i].dev.None? ==> fds[i] == FREE)
    // Only devices can be locked, and they are all within reach of the scans.
    && (forall i :: 0 <= i < |fds| && fds[i].isDev ==> fds[i].dev.Some? && fds[i].dev.value.Device? && i <= maxFd && 3 <= maxFd)
    && (forall i :: 0 <= i < |fds| && fds[i].excl ==> fds[i].isDev)
  }

  /** At most one descriptor holds a device exclusively, and a holder in the topmost slot is the
      device's only reference. */
  ghost predicate Exclusive(fds: seq<Slot>, maxFd: int) {
    && (forall i, j :: 0 <= i < |fds| && 0 <= j < |fds| && fds[i].excl && fds[j].excl && fds[i].dev == fds[j].dev ==> i == j)
    && (0 <= maxFd < |fds| && fds[maxFd].excl ==> OnlyReference(fds, maxFd))
  }

  /** For a slot that has just been allocated, the scan finds out whether anybody holds the device. */
  lemma ScanFindsHolder(fds: seq<Slot>, maxFd: int, fd: nat, s: Slot)
    requires Consistent(fds, maxFd) && 3 <= fd < |fds| && fds[fd] == FREE && s.dev.Some?
    ensures ScanClear(fds[fd := s], if fd > maxFd then fd else maxFd, fd) <==> !Held(fds, s.dev.value)
  {
    var t, m := fds[fd := s], if fd > maxFd then fd else maxFd;
    if Held(fds, s.dev.value) {
      var i :| 0 <= i < |fds| && fds[i].excl && Refers(fds[i], s.dev.value);
      assert t[i] == fds[i] && i <= m;
    }
  }

  /** Filesystems are never held. */
  lemma FilesystemNotHeld(fds: seq<Slot>, maxFd: int, d: Dev)
    requires Consistent(fds, maxFd) && d.FileSystem?
    ensures !Held(fds, d)
  {
  }

  /** A granted lock makes the descriptor the only reference to its device exactly if the topmost slot,
      which the scan leaves out, is not another one. */
  lemma GrantedIsExclusive(fds: seq<Slot>, maxFd: int, fd: nat)
    requires Consistent(fds, maxFd) && fd < |fds| && fds[fd].isDev
    requires LockGranted(fds, maxFd, fd)
    ensures OnlyReference(fds, fd) <==> fd == maxFd || fds[maxFd].dev != fds[fd].dev
  {
  }

  /** A table in which it is one: the device is open in slots 3 and 4, and slot 3 gets the lock. */
  lemma GrantedWhileShared(d: Dev)
    requires d.Device? && d != DEV_NULL
    ensures var std, open := Slot(Some(DEV_NULL), false, false, 0), Slot(Some(d), false, true, 0);
            var fds := [std, std, std, open, open];
            Consistent(fds, 4) && Exclusive(fds, 4) && LockGranted(fds, 4, 3) && !OnlyReference(fds, 3)
  {
    var std, open := Slot(Some(DEV_NULL), false, false, 0), Slot(Some(d), false, true, 0);
    var fds := [std, std, std, open, open];
    assert fds[4].dev == fds[3].dev;
  }

  /** Even so, locking never makes a second holder. */
  lemma LockKeepsExclusive(fds: seq<Slot>, maxFd: int, fd: nat)
    requires Consistent(fds, maxFd) && Exclusive(fds, maxFd) && fd < |fds| && fds[fd].isDev
    requires LockGranted(fds, maxFd, fd)
    ensures var t := fds[fd := fds[fd].(excl := true)];
            Consistent(t, maxFd) && Exclusive(t, maxFd)
  {
    var t := fds[fd := fds[fd].(excl := true)];
    if fd == maxFd {
      assert forall i :: 0 <= i < |t| && i != fd ==> t[i] == fds[i];
    } else if t[maxFd].excl {
      assert OnlyReference(fds, maxFd);
      assert forall i :: 0 <= i < |t| ==> t[i].dev == fds[i].dev;
    }
  }

  /** Neither does opening a device that nobody holds. */
  lemma OpenKeepsExclusive(fds: seq<Slot>, maxFd: int, fd: nat, d: Dev, isDev: bool, flags: nat)
    requires Consistent(fds, maxFd) && Exclusive(fds, maxFd) && 3 <= fd < |fds| && fds[fd] == FREE
    requires isDev <==> d.Device?
    requires !Held(fds, d)
    ensures var t := fds[fd := Slot(Some(d), false, isDev, flags)];
            var m := if fd > maxFd then fd else maxFd;
            Consistent(t, m) && Exclusive(t, m) && !Held(t, d)
  {
  }

  /** Moving an opened descriptor into a standard slot keeps the table consistent. */
  lemma MoveKeepsExclusive(fds: seq<Slot>, maxFd: int, fd: nat, std: nat)
    requires Consistent(fds, maxFd) && Exclusive(fds, maxFd) && 3 <= fd < |fds| && std < 3
    requires fds[fd].dev.Some? && !Held(fds, fds[fd].dev.value)
    ensures var t := fds[std := fds[fd]][fd := FREE];
            Consistent(t, maxFd) && Exclusive(t, maxFd)
  {
  }

  /** A failed open may still have raised maxFd, to a slot that is free again. */
  lemma RaiseKeepsExclusive(fds: seq<Slot>, maxFd: int, m: nat)
    requires Consistent(fds, maxFd) && Exclusive(fds, maxFd) && 3 <= m < |fds| && fds[m] == FREE
    ensures Consistent(fds, if m > maxFd then m else maxFd) && Exclusive(fds, if m > maxFd then m else maxFd)
  {
  }

  lemma FreeKeepsExclusive(fds: seq<Slot>, maxFd: int, fd: nat)
    requires Consistent(fds, maxFd) && Exclusive(fds, maxFd) && 3 <= fd < |fds|
    ensures Consistent(fds[fd := FREE], maxFd) && Exclusive(fds[fd := FREE], maxFd)
  {
  }

  lemma UnlockKeepsExclusive(fds: seq<Slot>, maxFd: int, fd: nat)
    requires Consistent(fds, maxFd) && Exclusive(fds, maxFd) && fd < |fds|
    ensures var t := fds[fd := fds[fd].(excl := false)];
            Consistent(t, maxFd) && Exclusive(t, maxFd)
  {
  }

  /** Every slot but those in `except` still holds what it held. */
  ghost predicate Kept(before: seq<Slot>, after: seq<Slot>, except: set<nat>) {
    && |before| == |after|
    && forall i :: 0 <= i < |before| && i !in except && before[i].excl ==> after[i].excl && after[i].dev == before[i].dev
  }

  /** What a file name resolves to: a device, a filesystem that owns the path, or nothing. */
  datatype Found = Nothing | Registered(dev: Dev)

  type Stream = s: nat | s < 3

  /** One call; `callback` what the device's own callback returns. */
  datatype Call =
    | Open(found: Found, flags: nat, callback: int)
    | Close(fd: int, callback: int)
    | Lock(fd: int)
    | Unlock(fd: int)
    | OpenFd(std: Stream, found: Found, flags: nat, callback: int)

  /** The calls that may take the lock from a descriptor.  Closing a standard stream does not. */
  predicate Releases(c: Call, fd: nat) {
    match c
    case Close(f, _) => f == fd && fd > 2
    case Unlock(f) => f == fd
    case OpenFd(std, _, _, _) => std == fd
    case _ => false
  }

  predicate Opens(c: Call, d: Dev) { (c.Open? || c.OpenFd?) && c.found == Registered(d) }

  class Table {
    const fds: array<Slot>
    var maxFd: int

    ghost predicate Valid()
      reads this, fds
    {
      Consistent(fds[..], maxFd) && Exclusive(fds[..], maxFd)
    }

    constructor (size: nat)
      requires 3 <= size
      ensures Valid() && fds.Length == size && fresh(fds) && maxFd == -1
      ensures forall i :: 0 <= i < size ==> fds[i] == if i < 3 then Slot(Some(DEV_NULL), false, false, 0) else FREE
    {
      fds := new Slot[size](i => if i < 3 then Slot(Some(DEV_NULL), false, false, 0) else FREE);
      maxFd := -1;
    }

    /** Allocates the lowest free slot, or fails if there is none. */
    method GetFd(dev: Dev) returns (rc: int)
      requires Valid()
      modifies this`maxFd, fds
      ensures rc == -EMFILE || 3 <= rc < fds.Length
      ensures rc == -EMFILE ==> FREE !in old(fds[..]) && fds[..] == old(fds[..]) && maxFd == old(maxFd)
      ensures rc >= 0 ==> old(fds[rc]) == FREE && FREE !in old(fds[..rc])
      ensures rc >= 0 ==> fds[..] == old(fds[..])[rc := FREE.(dev := Some(dev))]
      ensures maxFd == if rc > old(maxFd) then rc else old(maxFd)
      ensures -1 <= maxFd < fds.Length
    {
      for i := 0 to fds.Length
        invariant fds[..] == old(fds[..]) && maxFd == old(maxFd)
        invariant FREE !in fds[..i]
      {
        if fds[i].dev.None? {
          fds[i] := fds[i].(dev := Some(dev));
          if i > maxFd { maxFd := i; }
          return i;
        }
      }
      return -EMFILE;
    }

    /** Marks the descriptor as a device, and looks for another one that holds the device. */
    method FileLocked(fd: nat) returns (rc: int)
      requires fd < fds.Length && 0 <= maxFd < fds.Length
      modifies fds
      ensures fds[..] == old(fds[..])[fd := old(fds[fd]).(isDev := true)]
      ensures rc == 0 || rc == -EACCES
      ensures rc == 0 <==> ScanClear(fds[..], maxFd, fd)
    {
      fds[fd] := fds[fd].(isDev := true);
      for i := 0 to maxFd + 1
        invariant fds[..] == old(fds[..])[fd := old(fds[fd]).(isDev := true)]
        invariant forall j :: 0 <= j < i && j != fd && fds[j].excl ==> fds[j].dev != fds[fd].dev
      {
        if fds[i].dev == fds[fd].dev && fds[i].excl && i != fd {
          return -EACCES;
        }
      }
      return 0;
    }

    /** Frees a slot, except for the standard streams. */
    method ReleaseFd(fd: int)
      requires fd < fds.Length
      modifies fds
      ensures fds[..] == if fd > 2 then old(fds[..])[fd := FREE] else old(fds[..])
    {
      if fd > 2 {
        fds[fd] := FREE;
      }
    }

    lemma HeldMeans(d: Dev)
      ensures Held(fds[..], d) <==> exists i :: 0 <= i < fds.Length && fds[i].excl && fds[i].dev == Some(d)
    {
      if i :| 0 <= i < fds.Length && fds[i].excl && fds[i].dev == Some(d) {
        assert fds[..][i] == fds[i];
      }
    }

    /** Opens what a name resolved to; `callback` is what the device's own open callback returns.  The
        result is the descriptor, or the negated error number. */
    method Open(found: Found, flags: nat, callback: int) returns (rc: int)
      requires Valid()
      modifies this`maxFd, fds
      ensures Valid() && maxFd >= old(maxFd) && rc < fds.Length
      ensures Kept(old(fds[..]), fds[..], {})
      // Success: the lowest free slot, and nothing else, now refers to the device.
      ensures rc >= 0 ==> found.Registered? && old(fds[rc]) == FREE && FREE !in old(fds[..rc])
      ensures rc >= 0 ==> fds[..] == old(fds[..])[rc := Slot(Some(found.dev), false, found.dev.Device?, flags)]
      ensures rc >= 0 ==> maxFd == if rc > old(maxFd) then rc else old(maxFd)
      ensures rc >= 0 ==> 3 <= rc && !Held(fds[..], found.dev)
      // Failure: no slot has changed.
      ensures rc < 0 ==> fds[..] == old(fds[..])
      ensures found.Nothing? ==> rc == -ENODEV
      ensures found.Registered? && FREE !in old(fds[..]) ==> rc == -EMFILE
      // Refused as locked exactly if some descriptor has the same device and the exclusive flag.
      ensures found.Registered? && FREE in old(fds[..]) && callback >= 0 ==>
                (rc == -EACCES <==> exists i :: 0 <= i < fds.Length && old(fds[i]).excl && old(fds[i]).dev == Some(found.dev))
      ensures found.Registered? && FREE in old(fds[..]) && callback >= 0 ==> rc >= 0 || rc == -EACCES
      // A device that some descriptor holds exclusively cannot be opened.
      ensures found.Registered? && FREE in old(fds[..]) && Held(old(fds[..]), found.dev) ==> rc == -EACCES
      ensures found.Registered? && FREE in old(fds[..]) && !Held(old(fds[..]), found.dev) ==> (if callback < 0 then rc == callback else rc >= 0)
    {
      hide Consistent, Exclusive, Held, ScanClear;
      if found.Registered? { HeldMeans(found.dev); }
      if found.Nothing? { return -ENODEV; }
      ghost var before, top := fds[..], maxFd;
      var index := GetFd(found.dev);
      if index < 0 { return index; }
      fds[index] := fds[index].(excl := false, isDev := false, flags := flags);
      ghost var s := Slot(Some(found.dev), false, found.dev.Device?, flags);
      ScanFindsHolder(before, top, index, s);
      var status := 0;
      if found.dev.Device? {
        status := FileLocked(index);
      } else {
        FilesystemNotHeld(before, top, found.dev);
      }
      assert fds[..] == before[index := s];
      if status >= 0 { status := callback; }
      if status < 0 {
        ReleaseFd(index);
        assert fds[..] == before;
        RaiseKeepsExclusive(before, top, index);
        return status;
      }
      OpenKeepsExclusive(before, top, index, found.dev, found.dev.Device?, flags);
      return index;
    }

    method Close(fd: int, callback: int) returns (rc: int)
      requires Valid() && fd < fds.Length && (fd >= 0 ==> fds[fd].dev.Some?)
      modifies fds
      ensures Valid()
      ensures fds[..] == if fd > 2 then old(fds[..])[fd := FREE] else old(fds[..])
      ensures Kept(old(fds[..]), fds[..], if fd > 2 then {fd} else {})
      ensures rc == if fd < 0 then -EBADFD else if callback < 0 then callback else 0
    {
      if fd < 0 { return -EBADFD; }
      if fd > 2 { FreeKeepsExclusive(fds[..], maxFd, fd); }
      ReleaseFd(fd);
      rc := if callback < 0 then callback else 0;
    }

    /** The exclusive-access request of ioctl, which only devices get as far as. */
    method Lock(fd: nat) returns (rc: int)
      requires Valid() && fd < fds.Length && fds[fd].isDev
      modifies fds
      ensures Valid()
      ensures Kept(old(fds[..]), fds[..], {})
      ensures rc == if LockGranted(old(fds[..]), maxFd, fd) then 0 else -EACCES
      // Refused exactly if another slot below the mark has the same device; so never to the only one.
      ensures rc == 0 || rc == -EACCES
      ensures rc == -EACCES <==> exists i :: 0 <= i < maxFd && i != fd && old(fds[i]).dev == old(fds[fd]).dev
      ensures OnlyReference(old(fds[..]), fd) ==> rc == 0
      ensures fds[..] == if rc == 0 then old(fds[..])[fd := old(fds[fd]).(excl := true)] else old(fds[..])
    {
      hide Exclusive;
      for i := 0 to maxFd
        invariant forall j :: 0 <= j < i && j != fd ==> fds[j].dev != fds[fd].dev
      {
        if i != fd && fds[i].dev == fds[fd].dev {
          return -EACCES;
        }
      }
      LockKeepsExclusive(fds[..], maxFd, fd);
      fds[fd] := fds[fd].(excl := true);
      assert fds[..] == old(fds[..])[fd := old(fds[fd]).(excl := true)];
      rc := 0;
    }

    method Unlock(fd: nat)
      requires Valid() && fd < fds.Length && fds[fd].isDev
      modifies fds
      ensures Valid() && Kept(old(fds[..]), fds[..], {fd})
      ensures fds[..] == old(fds[..])[fd := old(fds[fd]).(excl := false)]
    {
      UnlockKeepsExclusive(fds[..], maxFd, fd);
      fds[fd] := fds[fd].(excl := false);
      assert fds[..] == old(fds[..])[fd := old(fds[fd]).(excl := false)];
    }

    /** Points a standard stream at another device; if that cannot be opened, it stays as it was. */
    method OpenFd(std: Stream, found: Found, flags: nat, callback: int) returns (ok: bool)
      requires Valid() && std < 3
      modifies this`maxFd, fds
      ensures Valid() && maxFd >= old(maxFd)
      ensures Kept(old(fds[..]), fds[..], if ok then {std} else {})
      ensures ok <==> found.Registered? && FREE in old(fds[..]) && !Held(old(fds[..]), found.dev) && callback >= 0
      ensures ok <==> found.Registered? && FREE in old(fds[..]) && callback >= 0
                      && forall i :: 0 <= i < fds.Length && old(fds[i]).excl ==> old(fds[i]).dev != Some(found.dev)
      ensures fds[..] == if ok then old(fds[..])[std := Slot(Some(found.dev), false, found.dev.Device?, flags)] else old(fds[..])
    {
      hide Consistent, Exclusive, Held;
      if found.Registered? { HeldMeans(found.dev); }
      ghost var before := fds[..];
      var fd := Open(found, flags, callback);
      ok := fd >= 0;
      if ok {
        MoveKeepsExclusive(fds[..], maxFd, fd, std);
        fds[std] := fds[fd];
        ReleaseFd(fd);
      }
    }
  }

  /** Any run of calls with any arguments, except that calls on a descriptor that is not open, or not a
      device's where it has to be, are not made (their result is 0).  As long as none of them unlocks,
      closes or redirects the descriptor that holds a device, it goes on holding it, and every attempt
      to open the device fails. */
  method HeldThroughoutRun(t: Table, calls: seq<Call>, fd: nat, d: Dev) returns (results: seq<int>)
    requires t.Valid() && fd < t.fds.Length && t.fds[fd].excl && Refers(t.fds[fd], d)
    requires forall k :: 0 <= k < |calls| ==> !Releases(calls[k], fd)
    modifies t`maxFd, t.fds
    ensures t.Valid() && t.fds[fd].excl && Refers(t.fds[fd], d)
    ensures |results| == |calls| && forall k :: 0 <= k < |calls| && Opens(calls[k], d) ==> results[k] < 0
  {
    results := [];
    for k := 0 to |calls|
      invariant t.Valid() && t.fds[fd].excl && Refers(t.fds[fd], d)
      invariant |results| == k && forall j :: 0 <= j < k && Opens(calls[j], d) ==> results[j] < 0
    {
      var rc := Make(t, calls[k], fd, d);
      results := results + [rc];
    }
  }

  method Make(t: Table, call: Call, ghost fd: nat, ghost d: Dev) returns (rc: int)
    requires t.Valid() && fd < t.fds.Length && t.fds[fd].excl && Refers(t.fds[fd], d) && !Releases(call, fd)
    modifies t`maxFd, t.fds
    ensures t.Valid() && t.fds[fd].excl && Refers(t.fds[fd], d)
    ensures Opens(call, d) ==> rc < 0
  {
    hide Consistent, Exclusive;
    assert Held(t.fds[..], d) by { assert t.fds[..][fd] == t.fds[fd]; }
    rc := 0;
    match call
    case Open(found, flags, callback) =>
      rc := t.Open(found, flags, callback);
    case Close(f, callback) =>
      if f < 0 || (f < t.fds.Length && t.fds[f].dev.Some?) { rc := t.Close(f, callback); }
    case Lock(f) =>
      if 0 <= f < t.fds.Length && t.fds[f].isDev { rc := t.Lock(f); }
    case Unlock(f) =>
      if 0 <= f < t.fds.Length && t.fds[f].isDev { t.Unlock(f); }
    case OpenFd(std, found, flags, callback) =>
      var ok := t.OpenFd(std, found, flags, callback);
      rc := if ok then 0 else -1;
  }

  /** The shared lock is reached by two opens of a device and one lock. */
  method LockShared(d: Dev) returns (t: Table, rc: int)
    requires d.Device? && d != DEV_NULL
    ensures fresh(t) && t.Valid() && rc == 0
    ensures t.fds.Length == 5 && t.fds[3].excl && Refers(t.fds[3], d) && Refers(t.fds[4], d)
  {
    hide Consistent, Exclusive, Kept;
    t := new Table(5);
    var std, open := Slot(Some(DEV_NULL), false, false, 0), Slot(Some(d), false, true, 0);
    assert t.fds[..] == [std, std, std, FREE, FREE];
    assert t.fds[..][3] == FREE && !Held(t.fds[..], d);
    var first := t.Open(Registered(d), 0, 0);
    assert first == 3;
    assert t.fds[..] == [std, std, std, open, FREE];
    assert t.fds[..][4] == FREE && !Held(t.fds[..], d);
    var second := t.Open(Registered(d), 0, 0);
    assert second == 4;
    assert t.fds[..] == [std, std, std, open, open];
    assert LockGranted(t.fds[..], 4, 3);
    rc := t.Lock(3);
  }
}
