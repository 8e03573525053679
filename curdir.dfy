/** The working-directory system calls of kern/syscall/curdir_syscalls.c:
    the path syntax check `dir_parser`, `sys_chdir` and `sys_getcwd`.

    `kmalloc`, `vfs_chdir` and `vfs_getcwd` are parameters holding their
    outcome; the transfer of `vfs_getcwd` is seen only through the residual
    count it leaves in the uio. A path is the content of the user's C
    string, the bytes before its terminating NUL. */
module CurDir {
  import opened Kern
  import opened Procs
  import opened UserMem

  const SLASH: byte := 0x2F

  /** The path holds two consecutive '/' characters. */
  predicate HasDoubleSlash(s: seq<byte>)
  {
    exists k :: 0 <= k < |s| - 1 && s[k] == SLASH && s[k + 1] == SLASH
  }

  /** `dir_parser`: -2 when its buffer cannot be allocated; otherwise 1
      exactly when the path holds "//" and 0 exactly when it does not, so
      the empty path and every one-character path pass. The buffer is
      released only on the path that returns 0: the early return on "//"
      skips the `kfree`. */
  method DirParser(dir: seq<byte>, allocOk: bool) returns (r: int, released: bool)
    requires NulFree(dir)
    ensures !allocOk ==> r == -2
    ensures allocOk ==> (r == 1 <==> HasDoubleSlash(dir)) && (r == 0 <==> !HasDoubleSlash(dir))
    ensures released <==> r == 0
  {
    if !allocOk {
      return -2, false;
    }
    r, released := 0, true;
    var prev: byte := 0;
    var i := 0;
    while i < |dir|
      invariant 0 <= i <= |dir|
      invariant prev == if i == 0 then 0 else dir[i - 1]
      invariant forall k :: 0 <= k && k + 1 < i ==> !(dir[k] == SLASH && dir[k + 1] == SLASH)
      invariant r == 0 && released
    {
      if prev == 0 {
        prev := dir[i];
        i := i + 1;
        continue;
      }
      if dir[i] == SLASH && prev == SLASH {
        r, released := 1, false;
        break;
      }
      prev := dir[i];
      i := i + 1;
    }
  }

  /** `sys_chdir`: -1 without reaching `vfs_chdir` when the parser
      rejects the path or cannot allocate; otherwise whatever `vfs_chdir`
      returns (0 on success). */
  method SysChdir(path: seq<byte>, allocOk: bool, vfsResult: int) returns (r: int, vfsCalled: bool)
    requires NulFree(path)
    ensures vfsCalled <==> allocOk && !HasDoubleSlash(path)
    ensures !vfsCalled ==> r == -1
    ensures vfsCalled ==> r == vfsResult
  {
    var parsed, _ := DirParser(path, allocOk);
    if parsed != 0 {
      return -1, false;
    }
    vfsCalled := true;
    if vfsResult != 0 {
      return vfsResult, vfsCalled;
    }
    r := 0;
  }

  /** What a system call hands back: its return value, which the function
      comments of this file describe as 0 for success and an error code
      for failure, and what it stored in `*return_value` (`None`: not
      written). */
  datatype CallResult = CallResult(ret: int, retval: Option<int>)

  /** The call failed, by the convention above. */
  predicate Failed(c: CallResult)
  {
    c.ret != 0
  }

  /** `sys_getcwd` as written, for a buffer of `size` bytes (positive, as
      asserted) of which `vfs_getcwd` left `resid` untransferred. With no
      cwd vnode it fails with ENOENT and writes nothing; a `vfs_getcwd`
      error is passed on with `*return_value` = -1; otherwise it stores 0
      and returns the number of bytes transferred. */
  function SysGetcwd(p: Proc, size: nat, vfsResult: int, resid: nat): (c: CallResult)
    requires 0 < size && resid <= size
    reads p
    ensures p.cwd.None? ==> c == CallResult(ENOENT, None)
    ensures p.cwd.Some? && vfsResult != 0 ==> c == CallResult(vfsResult, Some(-1))
    ensures p.cwd.Some? && vfsResult == 0 ==> c == CallResult(size - resid, Some(0))
  {
    if p.cwd.None? then CallResult(ENOENT, None)
    else if vfsResult != 0 then CallResult(vfsResult, Some(-1))
    else CallResult(size - resid, Some(0))
  }

  /** `sys_getcwd` as its comments describe it: on success it returns 0
      and `*return_value` holds the number of bytes transferred. */
  function SysGetcwdIntended(p: Proc, size: nat, vfsResult: int, resid: nat): (c: CallResult)
    requires 0 < size && resid <= size
    reads p
    ensures Failed(c) <==> p.cwd.None? || vfsResult != 0
    ensures !Failed(c) ==> c.retval == Some(size - resid)
    ensures p.cwd.Some? && vfsResult != 0 ==> c == CallResult(vfsResult, Some(-1))
  {
    if p.cwd.None? then CallResult(ENOENT, None)
    else if vfsResult != 0 then CallResult(vfsResult, Some(-1))
    else CallResult(0, Some(size - resid))
  }

  /** As written, a successful `sys_getcwd` that transferred any bytes is
      reported as a failure whose error code is the byte count, and the
      count is lost from `*return_value`; the intended version reports
      success with the count. A one-byte transfer into a 16-byte buffer is
      such a call. */
  lemma GetcwdSuccessReportedAsFailure(p: Proc, size: nat, resid: nat)
    requires p.cwd.Some? && resid < size
    ensures Failed(SysGetcwd(p, size, 0, resid))
    ensures SysGetcwd(p, size, 0, resid).retval == Some(0)
    ensures !Failed(SysGetcwdIntended(p, size, 0, resid))
    ensures SysGetcwdIntended(p, size, 0, resid).retval == Some(size - resid)
  {
  }

  /** The two versions differ only on a successful transfer: every error
      is reported alike, and an empty transfer (nothing returned) too. */
  lemma GetcwdVersionsAgreeOnErrors(p: Proc, size: nat, vfsResult: int, resid: nat)
    requires 0 < size && resid <= size
    requires p.cwd.None? || vfsResult != 0 || resid == size
    ensures SysGetcwd(p, size, vfsResult, resid).ret == SysGetcwdIntended(p, size, vfsResult, resid).ret
  {
  }
}
