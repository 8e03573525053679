/** The descriptor-level system calls of kern/syscall/file_syscalls.c:
    descriptor validation, open, close, dup2, lseek and the offset
    bookkeeping of the (user-buffer) read and write paths.

    The global `systemFileTable` is an array of distinct records; the
    current process's `fileTable` is `Proc.fileTable`. `vfs_open`,
    `copyinstr`, `lock_create`, `VOP_STAT` and `VOP_READ`/`VOP_WRITE` are
    parameters holding their outcome; a call to `vfs_close` is reported in
    the `closed` result. Locks and spinlocks are no-ops. */
module FileSyscalls {
  import opened Kern
  import opened Procs

  /** `systemFileTable`: SYSTEM_OPEN_MAX records, each its own object. */
  ghost predicate SystemTableValid(sft: array<OpenFile>)
    reads sft
  {
    sft.Length == SYSTEM_OPEN_MAX &&
    forall i, j :: 0 <= i < j < sft.Length ==> sft[i] != sft[j]
  }

  /** Some entry of the system table is free (its `vn` is NULL). */
  ghost predicate HasFreeEntry(sft: array<OpenFile>)
    reads sft, set i | 0 <= i < sft.Length :: sft[i]
  {
    exists i :: 0 <= i < sft.Length && sft[i].vn.None?
  }

  /** The `sys_close` assertion: every record held by a slot has a
      positive reference count. */
  ghost predicate SlotRefsPositive(p: Proc)
    reads p, p.fileTable, set i | 0 <= i < p.fileTable.Length && p.fileTable[i] != null :: p.fileTable[i]
  {
    forall i :: 0 <= i < p.fileTable.Length && p.fileTable[i] != null ==> p.fileTable[i].refCount >= 1
  }

  /** The record held by slot `fd`, as a frame. */
  ghost function SlotAt(p: Proc, fd: int): set<OpenFile>
    reads p, p.fileTable
  {
    if 0 <= fd < p.fileTable.Length && p.fileTable[fd] != null then {p.fileTable[fd]} else {}
  }

  /** `is_valid_fd`. The range test lets `fd == OPEN_MAX` through and the
      source then reads one slot past the table; that input is excluded. */
  function IsValidFd(p: Proc, fd: int): (ok: bool)
    requires p.Valid() && fd != OPEN_MAX
    reads p, p.fileTable
    ensures fd < 0 || fd > OPEN_MAX ==> !ok
    ensures fd == STDIN_FILENO || fd == STDOUT_FILENO || fd == STDERR_FILENO ==> ok
    ensures STDERR_FILENO < fd < OPEN_MAX ==> (ok <==> p.fileTable[fd] != null)
  {
    if fd < 0 || fd > OPEN_MAX then false
    else if fd == STDIN_FILENO || fd == STDOUT_FILENO || fd == STDERR_FILENO then true
    else p.fileTable[fd] != null
  }

  /** The checks `sys_open` makes before it scans the system table. */
  predicate OpenChecksPass(pathIsNull: bool, openflags: int, copyinResult: int, vfsOpen: Option<Vnode>)
  {
    && !pathIsNull
    && AccMode(openflags) != O_ACCMODE
    && copyinResult == 0
    && vfsOpen.Some?
  }

  /** `sys_open`. `copyinResult` is what `copyinstr` returns, `vfsOpen` the
      vnode `vfs_open` yields (None: it failed), `newLock` what
      `lock_create` returns and `statSize` the size `VOP_STAT` reports
      (None: it failed). `slot` is the system-table entry taken. */
  method Open(sft: array<OpenFile>, p: Proc, pathIsNull: bool, openflags: int,
              copyinResult: int, vfsOpen: Option<Vnode>, newLock: Option<LockId>,
              statSize: Option<int>)
    returns (r: int, err: Option<int>, closed: Option<Vnode>, ghost slot: int)
    requires SystemTableValid(sft) && p.Valid()
    // with the system table full the source dereferences a NULL record
    requires OpenChecksPass(pathIsNull, openflags, copyinResult, vfsOpen) ==> HasFreeEntry(sft)
    modifies p.fileTable, set i | 0 <= i < sft.Length :: sft[i]
    // every occupied slot keeps a positive count: the taken entry starts at 1
    ensures old(SlotRefsPositive(p)) ==> SlotRefsPositive(p)
    // argument errors: nothing changes
    ensures pathIsNull ==> r == -1 && err == Some(EINVAL)
    ensures !pathIsNull && AccMode(openflags) == O_ACCMODE ==> r == -1 && err == Some(EINVAL)
    ensures !pathIsNull && AccMode(openflags) != O_ACCMODE && copyinResult != 0 ==>
              r == copyinResult && err.None?
    ensures !pathIsNull && AccMode(openflags) != O_ACCMODE && copyinResult == 0 && vfsOpen.None? ==>
              r == -1 && err == Some(ENOENT)
    ensures !OpenChecksPass(pathIsNull, openflags, copyinResult, vfsOpen) ==>
              closed.None? && p.fileTable[..] == old(p.fileTable[..]) &&
              forall i :: 0 <= i < sft.Length ==> unchanged(sft[i])
    // the first free system entry is initialised with ref_count 1
    ensures OpenChecksPass(pathIsNull, openflags, copyinResult, vfsOpen) ==>
              && 0 <= slot < SYSTEM_OPEN_MAX
              && old(sft[slot].vn).None?
              && (forall j :: 0 <= j < slot ==> old(sft[j].vn).Some?)
              && (forall j :: 0 <= j < sft.Length && j != slot ==> unchanged(sft[j]))
              && sft[slot].vn == vfsOpen && sft[slot].refCount == 1
              && sft[slot].accmode == AccMode(openflags) && sft[slot].lock == newLock
              && sft[slot].mode == old(sft[slot].mode)
    // no lock: the vnode is closed again
    ensures OpenChecksPass(pathIsNull, openflags, copyinResult, vfsOpen) && newLock.None? ==>
              r == -1 && err == Some(ENOMEM) && closed == vfsOpen &&
              sft[slot].offset == 0 && p.fileTable[..] == old(p.fileTable[..])
    // O_APPEND: the offset starts at the file size
    ensures OpenChecksPass(pathIsNull, openflags, copyinResult, vfsOpen) && newLock.Some? ==>
              sft[slot].offset == (if HasAppend(openflags) && statSize.Some? then statSize.value else 0)
    ensures OpenChecksPass(pathIsNull, openflags, copyinResult, vfsOpen) && newLock.Some? &&
            HasAppend(openflags) && statSize.None? ==>
              r == -1 && err == Some(EINVAL) && closed == vfsOpen && p.fileTable[..] == old(p.fileTable[..])
    // the record goes to the lowest empty descriptor >= 3
    ensures OpenChecksPass(pathIsNull, openflags, copyinResult, vfsOpen) && newLock.Some? &&
            (HasAppend(openflags) ==> statSize.Some?) ==>
              if exists fd :: STDERR_FILENO < fd < OPEN_MAX && old(p.fileTable[fd]) == null then
                && STDERR_FILENO < r < OPEN_MAX && err.None? && closed.None?
                && old(p.fileTable[r]) == null
                && (forall j :: STDERR_FILENO < j < r ==> old(p.fileTable[j]) != null)
                && p.fileTable[..] == old(p.fileTable[..])[r := sft[slot]]
              else
                r == -1 && err == Some(EMFILE) && closed == vfsOpen &&
                p.fileTable[..] == old(p.fileTable[..])
  {
    slot := -1;
    closed := None;
    var accmode := AccMode(openflags);
    if pathIsNull {
      r, err := -1, Some(EINVAL);
    } else if accmode != O_RDONLY && accmode != O_WRONLY && accmode != O_RDWR {
      r, err := -1, Some(EINVAL);
    } else if copyinResult != 0 {
      r, err := copyinResult, None;
    } else if vfsOpen.None? {
      r, err := -1, Some(ENOENT);
    } else {
      r, err, closed, slot := OpenEntry(sft, p, openflags, vfsOpen.value, newLock, statSize);
    }
  }

  /** `sys_open` once the checks have passed and `vfs_open` has yielded
      `v`: the first free system entry is initialised and, unless the lock
      or the size is missing, installed at the lowest free descriptor. */
  method OpenEntry(sft: array<OpenFile>, p: Proc, openflags: int, v: Vnode,
                   newLock: Option<LockId>, statSize: Option<int>)
    returns (r: int, err: Option<int>, closed: Option<Vnode>, ghost slot: int)
    requires SystemTableValid(sft) && p.Valid() && HasFreeEntry(sft)
    modifies p.fileTable, set i | 0 <= i < sft.Length :: sft[i]
    ensures old(SlotRefsPositive(p)) ==> SlotRefsPositive(p)
    ensures && 0 <= slot < SYSTEM_OPEN_MAX
            && old(sft[slot].vn).None?
            && (forall j :: 0 <= j < slot ==> old(sft[j].vn).Some?)
            && (forall j :: 0 <= j < sft.Length && j != slot ==> unchanged(sft[j]))
            && sft[slot].vn == Some(v) && sft[slot].refCount == 1
            && sft[slot].accmode == AccMode(openflags) && sft[slot].lock == newLock
            && sft[slot].mode == old(sft[slot].mode)
    ensures newLock.None? ==>
              r == -1 && err == Some(ENOMEM) && closed == Some(v) &&
              sft[slot].offset == 0 && p.fileTable[..] == old(p.fileTable[..])
    ensures newLock.Some? ==>
              sft[slot].offset == (if HasAppend(openflags) && statSize.Some? then statSize.value else 0)
    ensures newLock.Some? && HasAppend(openflags) && statSize.None? ==>
              r == -1 && err == Some(EINVAL) && closed == Some(v) && p.fileTable[..] == old(p.fileTable[..])
    ensures newLock.Some? && (HasAppend(openflags) ==> statSize.Some?) ==>
              if exists fd :: STDERR_FILENO < fd < OPEN_MAX && old(p.fileTable[fd]) == null then
                && STDERR_FILENO < r < OPEN_MAX && err.None? && closed.None?
                && old(p.fileTable[r]) == null
                && (forall j :: STDERR_FILENO < j < r ==> old(p.fileTable[j]) != null)
                && p.fileTable[..] == old(p.fileTable[..])[r := sft[slot]]
              else
                r == -1 && err == Some(EMFILE) && closed == Some(v) &&
                p.fileTable[..] == old(p.fileTable[..])
  {
    var i := FreeEntry(sft);
    slot := i;
    var of := sft[i];
    of.vn := Some(v);
    of.offset := 0;
    of.accmode := AccMode(openflags);
    of.lock := newLock;
    of.refCount := 1;

    if of.lock.None? {
      r, err, closed := -1, Some(ENOMEM), Some(v);
    } else if HasAppend(openflags) && statSize.None? {
      r, err, closed := -1, Some(EINVAL), Some(v);
    } else {
      if HasAppend(openflags) {
        of.offset := statSize.value;
      }
      var fd := InstallFd(p, of);
      if fd == -1 {
        r, err, closed := -1, Some(EMFILE), Some(v);
      } else {
        r, err, closed := fd, None, None;
      }
    }
  }

  /** The search of `sys_open` for the first system-table entry whose `vn`
      is NULL. */
  method FreeEntry(sft: array<OpenFile>) returns (i: int)
    requires SystemTableValid(sft) && HasFreeEntry(sft)
    ensures 0 <= i < SYSTEM_OPEN_MAX && sft[i].vn.None?
    ensures forall j :: 0 <= j < i ==> sft[j].vn.Some?
  {
    i := 0;
    while i < SYSTEM_OPEN_MAX && sft[i].vn.Some?
      invariant 0 <= i <= SYSTEM_OPEN_MAX
      invariant forall j :: 0 <= j < i ==> sft[j].vn.Some?
    {
      i := i + 1;
    }
    if i == SYSTEM_OPEN_MAX {
      assert false;
    }
  }

  /** The search of `sys_open` for the lowest empty descriptor above
      stderr, which receives `of`; -1 when there is none. */
  method InstallFd(p: Proc, of: OpenFile) returns (fd: int)
    requires p.Valid()
    modifies p.fileTable
    ensures if exists k :: STDERR_FILENO < k < OPEN_MAX && old(p.fileTable[k]) == null then
              && STDERR_FILENO < fd < OPEN_MAX
              && old(p.fileTable[fd]) == null
              && (forall j :: STDERR_FILENO < j < fd ==> old(p.fileTable[j]) != null)
              && p.fileTable[..] == old(p.fileTable[..])[fd := of]
            else
              fd == -1 && p.fileTable[..] == old(p.fileTable[..])
  {
    fd := STDERR_FILENO + 1;
    while fd < OPEN_MAX
      invariant STDERR_FILENO + 1 <= fd <= OPEN_MAX
      invariant forall j :: STDERR_FILENO < j < fd ==> p.fileTable[j] != null
      invariant p.fileTable[..] == old(p.fileTable[..])
    {
      if p.fileTable[fd] == null {
        p.fileTable[fd] := of;
        return fd;
      }
      fd := fd + 1;
    }
    return -1;
  }

  /** `sys_close`. The slot is emptied and the record's `vn` is set to
      NULL before the reference count is looked at, also when other slots
      still share the record. */
  method Close(p: Proc, fd: int) returns (r: int, err: Option<int>, closed: Option<Vnode>)
    requires p.Valid() && fd != OPEN_MAX
    requires SlotRefsPositive(p)
    // of the record, only its vnode and reference count may change
    modifies p.fileTable, SlotAt(p, fd)`vn, SlotAt(p, fd)`refCount
    // the assertion holds again afterwards, for every later close
    ensures SlotRefsPositive(p)
    ensures !old(IsValidFd(p, fd)) || old(p.fileTable[fd]) == null ==>
              r == -1 && err == Some(EBADF) && closed.None? &&
              p.fileTable[..] == old(p.fileTable[..]) && unchanged(SlotAt(p, fd))
    ensures old(IsValidFd(p, fd)) && old(p.fileTable[fd]) != null ==>
              && p.fileTable[..] == old(p.fileTable[..])[fd := null]
              && old(p.fileTable[fd]).vn.None?
              && old(p.fileTable[fd]).offset == old(p.fileTable[fd].offset)
              && old(p.fileTable[fd]).lock == old(p.fileTable[fd].lock)
              && old(p.fileTable[fd]).freed == old(p.fileTable[fd].freed)
    // a record without a vnode: EINVAL, the slot stays emptied
    ensures old(IsValidFd(p, fd)) && old(p.fileTable[fd]) != null && old(p.fileTable[fd].vn).None? ==>
              r == -1 && err == Some(EINVAL) && closed.None? &&
              old(p.fileTable[fd]).refCount == old(p.fileTable[fd].refCount)
    // vfs_close exactly on the last reference, otherwise one reference less
    ensures old(IsValidFd(p, fd)) && old(p.fileTable[fd]) != null && old(p.fileTable[fd].vn).Some? ==>
              && r == 0 && err.None?
              && (closed.Some? <==> old(p.fileTable[fd].refCount) == 1)
              && (closed.Some? ==> closed == old(p.fileTable[fd].vn))
              && old(p.fileTable[fd]).refCount ==
                   if old(p.fileTable[fd].refCount) == 1 then 1 else old(p.fileTable[fd].refCount) - 1
  {
    var ok := IsValidFd(p, fd);
    if !ok {
      return -1, Some(EBADF), None;
    }
    var of := p.fileTable[fd];
    if of == null {
      return -1, Some(EBADF), None;
    }
    p.fileTable[fd] := null;
    var vn := of.vn;
    of.vn := None;
    if vn.None? {
      return -1, Some(EINVAL), None;
    }
    if of.refCount == 1 {
      // last close: vfs_close, then the lock is destroyed
      closed := Some(vn.value);
    } else {
      closed := None;
      of.refCount := of.refCount - 1;
    }
    return 0, None, closed;
  }

  /** `sys_dup2`. `kmallocOk` says whether the new record can be
      allocated. The new descriptor gets a fresh copy of the old record
      (ref_count included), whatever it held before is dropped without a
      close, and it is `old_fd` that is then closed when it is above
      stderr. */
  method Dup2(p: Proc, oldFd: int, newFd: int, kmallocOk: bool) returns (r: int, err: Option<int>)
    requires p.Valid() && oldFd != OPEN_MAX && newFd != OPEN_MAX
    requires SlotRefsPositive(p)
    // the source dereferences the old record, and sys_close asserts its count
    requires IsValidFd(p, oldFd) && IsValidFd(p, newFd) && oldFd != newFd && kmallocOk ==>
               p.fileTable[oldFd] != null && p.fileTable[oldFd].refCount as int < U32 - 1
    // of the old record, only its vnode and reference count may change
    modifies p.fileTable, SlotAt(p, oldFd)`vn, SlotAt(p, oldFd)`refCount
    ensures SlotRefsPositive(p)
    ensures !old(IsValidFd(p, oldFd)) || !old(IsValidFd(p, newFd)) ==>
              r == -1 && err == Some(EBADF) &&
              p.fileTable[..] == old(p.fileTable[..]) && unchanged(SlotAt(p, oldFd))
    ensures old(IsValidFd(p, oldFd)) && old(IsValidFd(p, newFd)) && oldFd == newFd ==>
              r == 0 && err.None? &&
              p.fileTable[..] == old(p.fileTable[..]) && unchanged(SlotAt(p, oldFd))
    ensures old(IsValidFd(p, oldFd)) && old(IsValidFd(p, newFd)) && oldFd != newFd && !kmallocOk ==>
              r == -1 && err == Some(ENOMEM) &&
              p.fileTable[..] == old(p.fileTable[..])[newFd := null] && unchanged(SlotAt(p, oldFd))
    ensures old(IsValidFd(p, oldFd)) && old(IsValidFd(p, newFd)) && oldFd != newFd && kmallocOk ==>
              && p.fileTable[newFd] != null && fresh(p.fileTable[newFd])
              && p.fileTable[newFd].vn == old(p.fileTable[oldFd].vn)
              && p.fileTable[newFd].mode == old(p.fileTable[oldFd].mode)
              && p.fileTable[newFd].offset == old(p.fileTable[oldFd].offset)
              && p.fileTable[newFd].accmode == old(p.fileTable[oldFd].accmode)
              && p.fileTable[newFd].lock == old(p.fileTable[oldFd].lock)
              && p.fileTable[newFd].refCount == old(p.fileTable[oldFd].refCount)
              && (forall j :: 0 <= j < OPEN_MAX && j != newFd && j != oldFd ==> p.fileTable[j] == old(p.fileTable[j]))
    // old_fd among 0..2: it keeps its record, whose count grows by one
    ensures old(IsValidFd(p, oldFd)) && old(IsValidFd(p, newFd)) && oldFd != newFd && kmallocOk &&
            oldFd <= STDERR_FILENO ==>
              && r == 0 && err.None?
              && p.fileTable[oldFd] == old(p.fileTable[oldFd])
              && old(p.fileTable[oldFd]).refCount == old(p.fileTable[oldFd].refCount) + 1
              && old(p.fileTable[oldFd]).vn == old(p.fileTable[oldFd].vn)
    // old_fd above 2: it is closed, which undoes the increment
    ensures old(IsValidFd(p, oldFd)) && old(IsValidFd(p, newFd)) && oldFd != newFd && kmallocOk &&
            oldFd > STDERR_FILENO ==>
              && p.fileTable[oldFd] == null
              && old(p.fileTable[oldFd]).vn.None?
              && (r == 0 <==> old(p.fileTable[oldFd].vn).Some?)
              && (r == 0 ==> err.None? && old(p.fileTable[oldFd]).refCount == old(p.fileTable[oldFd].refCount))
              && (r != 0 ==> r == -1 && err == Some(EINTR) &&
                             old(p.fileTable[oldFd]).refCount == old(p.fileTable[oldFd].refCount) + 1)
  {
    var okOld := IsValidFd(p, oldFd);
    var okNew := IsValidFd(p, newFd);
    if !okOld || !okNew {
      return -1, Some(EBADF);
    }
    if oldFd == newFd {
      return 0, None;
    }
    if !kmallocOk {
      p.fileTable[newFd] := null;
      return -1, Some(ENOMEM);
    }
    var o := p.fileTable[oldFd];
    var n := new OpenFile(o.vn, o.mode, o.offset, o.accmode, o.lock, o.refCount);
    p.fileTable[newFd] := n;
    o.refCount := IncU32(o.refCount);

    if oldFd != STDIN_FILENO && oldFd != STDOUT_FILENO && oldFd != STDERR_FILENO {
      var c, _, _ := Close(p, oldFd);
      if c != 0 {
        return -1, Some(EINTR);
      }
    }
    return 0, None;
  }

  /** The offset `sys_lseek` stores for a non-zero `offset`; `size` is the
      file size `VOP_STAT` reports. */
  function SeekTarget(cur: int, size: int, offset: int, whence: int): (pos: int)
    requires whence == SEEK_SET || whence == SEEK_CUR || whence == SEEK_END
    ensures whence == SEEK_SET ==> pos == offset
    ensures whence == SEEK_CUR ==> pos - cur == offset
    ensures whence == SEEK_END ==> pos - size == offset
  {
    if whence == SEEK_SET then offset
    else if whence == SEEK_CUR then cur + offset
    else size + offset
  }

  /** `sys_lseek`. `statSize` is the `st_size` left by `VOP_STAT`, whose
      result the source does not check. `retVal` is what is written to
      `*ret_val`. A zero offset returns 0 whatever the whence, and a
      negative target is stored as it is. */
  method Lseek(p: Proc, fd: int, offset: int, whence: int, statSize: int)
    returns (r: int, retVal: Option<int>)
    requires p.Valid() && fd != OPEN_MAX
    // the source dereferences the slot's record
    requires (IsValidFd(p, fd) && (whence == SEEK_SET || whence == SEEK_CUR || whence == SEEK_END) &&
              offset != 0) ==> p.fileTable[fd] != null
    // SEEK_END passes the record's vnode to VOP_STAT, which dereferences it
    requires (IsValidFd(p, fd) && whence == SEEK_END && offset != 0) ==> p.fileTable[fd].vn.Some?
    // of the record, only its offset may change
    modifies SlotAt(p, fd)`offset
    ensures !old(IsValidFd(p, fd)) ==> r == -1 && retVal == Some(EBADF) && unchanged(SlotAt(p, fd))
    ensures old(IsValidFd(p, fd)) && whence != SEEK_SET && whence != SEEK_CUR && whence != SEEK_END ==>
              r == -1 && retVal == Some(EINVAL) && unchanged(SlotAt(p, fd))
    ensures old(IsValidFd(p, fd)) && (whence == SEEK_SET || whence == SEEK_CUR || whence == SEEK_END) &&
            offset == 0 ==>
              r == 0 && retVal == Some(0) && unchanged(SlotAt(p, fd))
    ensures old(IsValidFd(p, fd)) && (whence == SEEK_SET || whence == SEEK_CUR || whence == SEEK_END) &&
            offset != 0 ==>
              && retVal.None?
              && p.fileTable[fd].offset == SeekTarget(old(p.fileTable[fd].offset), statSize, offset, whence)
              && r == p.fileTable[fd].offset
              && p.fileTable[fd].vn == old(p.fileTable[fd].vn)
              && p.fileTable[fd].refCount == old(p.fileTable[fd].refCount)
  {
    var ok := IsValidFd(p, fd);
    if fd < 0 || fd > OPEN_MAX || !ok {
      return -1, Some(EBADF);
    }
    if whence != SEEK_CUR && whence != SEEK_SET && whence != SEEK_END {
      return -1, Some(EINVAL);
    }
    if offset == 0 {
      return 0, Some(0);
    }
    var of := p.fileTable[fd];
    var actual := SeekTarget(of.offset, statSize, offset, whence);
    of.offset := actual;
    return actual, None;
  }

  /** The direction of a transfer: `file_read` or `file_write`. */
  datatype IoDir = Read | Write

  /** The offset bookkeeping shared by `file_read` and `file_write` (the
      variant that moves data directly to or from the user buffer).
      `vopResult` is what `VOP_READ`/`VOP_WRITE` returns and `resid` the
      `uio_resid` it leaves, so `size - resid` bytes moved and the uio's
      offset ended that far past the start. */
  method FileIo(p: Proc, dir: IoDir, fd: int, size: nat, vopResult: int, resid: nat)
    returns (r: int, err: Option<int>)
    requires p.Valid() && fd != OPEN_MAX
    requires resid <= size
    // file_read takes the record's lock and file_write asserts the record
    requires IsValidFd(p, fd) ==> p.fileTable[fd] != null
    // of the record, only its offset may change
    modifies SlotAt(p, fd)`offset
    ensures !old(IsValidFd(p, fd)) ==> r == -1 && err == Some(EBADF) && unchanged(SlotAt(p, fd))
    ensures old(IsValidFd(p, fd)) && old(p.fileTable[fd].vn).None? ==>
              r == -1 && err == Some(EINVAL) && unchanged(SlotAt(p, fd))
    ensures old(IsValidFd(p, fd)) && old(p.fileTable[fd].vn).Some? && vopResult != 0 ==>
              r == vopResult && err.None? && unchanged(SlotAt(p, fd))
    ensures old(IsValidFd(p, fd)) && old(p.fileTable[fd].vn).Some? && vopResult == 0 ==>
              && err.None?
              && r == size - resid
              && p.fileTable[fd].offset == old(p.fileTable[fd].offset) + r
              && p.fileTable[fd].vn == old(p.fileTable[fd].vn)
              && p.fileTable[fd].refCount == old(p.fileTable[fd].refCount)
  {
    var ok := IsValidFd(p, fd);
    if !ok {
      return -1, Some(EBADF);
    }
    var of := p.fileTable[fd];
    if of.vn.None? {
      return -1, Some(EINVAL);
    }
    if vopResult != 0 {
      return vopResult, None;
    }
    // the uio ends at the start offset plus the bytes transferred
    var uioOffset := of.offset + (size - resid);
    of.offset := uioOffset;
    return size - resid, None;
  }
}
