/** `sys_waitpid` of kern/syscall/waitpid.c: the ordered validation ladder
    over the status pointer, the options, the pid and the looked-up process,
    then either the WNOHANG early return or the wait.

    `proc_search_pid` is a parameter holding what it finds (`None` for a
    pid that names no process); `proc_wait` is a parameter holding the
    status it hands back once the child has exited. */
module WaitPid {
  import opened Kern

  const WNOHANG: int := 1

  /** What the lookup finds: whether the caller is the process's parent
      (`curproc == p->p_parent`) and whether it has already exited. */
  datatype Target = Target(callerIsParent: bool, exited: bool)

  /** The effects of one call: the value returned to the syscall layer,
      what was stored in `*retval` (`None`: not written) and what was
      stored through `statusp` (`None`: not written). */
  datatype WaitOutcome = WaitOutcome(ret: int, retval: Option<int>, stored: Option<int>)

  /** One rung of the ladder: whether it rejects the call, and with which
      error number. */
  datatype Check = Check(rejects: bool, errno: int)

  /** The ladder in the order the source tests it; the rungs that look at
      the target are only consulted once the lookup has found one. */
  function Ladder(pid: int, statusp: u32, options: int, target: Option<Target>, children: nat): (cs: seq<Check>)
    ensures |cs| == 10
  {
    [ Check(statusp % 4 != 0, EFAULT),
      Check(statusp == 0, EINVAL),
      Check(statusp as int >= KERNEL_PTR, EFAULT),
      Check(statusp as int == INVALID_PTR, EINVAL),
      Check(options != 0 && options != WNOHANG, EINVAL),
      Check(pid <= 0, EINVAL),
      Check(target.None?, ESRCH),
      Check(pid > PID_MAX || pid < PID_MIN, EINVAL),
      Check(target.Some? && !target.value.callerIsParent, ECHILD),
      Check(children == 0, ECHILD) ]
  }

  /** The error of the first rung at or after `i` that rejects, if any. */
  function FirstRejection(cs: seq<Check>, i: nat): (e: Option<int>)
    requires i <= |cs|
    decreases |cs| - i
  {
    if i == |cs| then None
    else if cs[i].rejects then Some(cs[i].errno)
    else FirstRejection(cs, i + 1)
  }

  /** `FirstRejection` finds a rejecting rung when there is one, and then
      the first. */
  lemma {:induction false} FirstRejectionSpec(cs: seq<Check>, i: nat)
    requires i <= |cs|
    decreases |cs| - i
    ensures FirstRejection(cs, i).Some? <==> exists k :: i <= k < |cs| && cs[k].rejects
    ensures FirstRejection(cs, i).Some? ==>
              exists k :: && i <= k < |cs| && cs[k].rejects
                          && FirstRejection(cs, i).value == cs[k].errno
                          && forall j :: i <= j < k ==> !cs[j].rejects
  {
    if i < |cs| && !cs[i].rejects {
      FirstRejectionSpec(cs, i + 1);
    }
  }

  /** Rungs that do not reject are passed over. */
  lemma {:induction false} PassRungs(cs: seq<Check>, k: nat)
    requires k <= |cs|
    requires forall j :: 0 <= j < k ==> !cs[j].rejects
    ensures FirstRejection(cs, 0) == FirstRejection(cs, k)
  {
    if k > 0 {
      PassRungs(cs, k - 1);
    }
  }

  /** The validation ladder of `sys_waitpid`: the error of the first check
      that refuses the call, if any. `children` is the number of children
      of the caller. */
  function Refusal(pid: int, statusp: u32, options: int, target: Option<Target>, children: nat): (e: Option<int>)
    ensures e.Some? ==> e.value in {EFAULT, EINVAL, ESRCH, ECHILD}
    ensures e.None? ==> && statusp % 4 == 0 && 0 < statusp as int < KERNEL_PTR
                        && statusp as int != INVALID_PTR && (options == 0 || options == WNOHANG)
                        && PID_MIN <= pid <= PID_MAX
                        && target.Some? && target.value.callerIsParent && children > 0
  {
    if statusp % 4 != 0 then Some(EFAULT)
    else if statusp == 0 then Some(EINVAL)
    else if statusp as int >= KERNEL_PTR then Some(EFAULT)
    else if statusp as int == INVALID_PTR then Some(EINVAL)
    else if options != 0 && options != WNOHANG then Some(EINVAL)
    else if pid <= 0 then Some(EINVAL)
    else if target.None? then Some(ESRCH)
    else if pid > PID_MAX || pid < PID_MIN then Some(EINVAL)
    else if !target.value.callerIsParent then Some(ECHILD)
    else if children == 0 then Some(ECHILD)
    else None
  }

  /** `sys_waitpid`, with `waited` the status `proc_wait` returns. A
      refusal writes -1 to `*retval`, returns its error number and stores
      no status; WNOHANG on a child that has not exited writes 0 to
      `*retval` and returns 0; any other call stores the waited status
      through `statusp` and returns the pid. */
  function SysWaitpid(pid: int, statusp: u32, options: int, target: Option<Target>,
                      children: nat, waited: int): (o: WaitOutcome)
    ensures var e := Refusal(pid, statusp, options, target, children);
            && (o.retval == Some(-1) <==> e.Some?)
            && (e.Some? ==> o.ret == e.value && o.stored.None?)
            && (e.None? && options == WNOHANG && !target.value.exited ==> o == WaitOutcome(0, Some(0), None))
            && (e.None? && !(options == WNOHANG && !target.value.exited) ==> o == WaitOutcome(pid, None, Some(waited)))
  {
    match Refusal(pid, statusp, options, target, children)
    case Some(e) => WaitOutcome(e, Some(-1), None)
    case None =>
      if options == WNOHANG && !target.value.exited then WaitOutcome(0, Some(0), None)
      else WaitOutcome(pid, None, Some(waited))
  }

  /** The ladder agrees with the table of rungs: the call is refused
      exactly when some rung rejects, with the error of the first one. */
  lemma {:induction false} LadderAgrees(pid: int, statusp: u32, options: int, target: Option<Target>,
                                        children: nat)
    ensures Refusal(pid, statusp, options, target, children) ==
            FirstRejection(Ladder(pid, statusp, options, target, children), 0)
  {
    var cs := Ladder(pid, statusp, options, target, children);
    if statusp % 4 != 0 {
    } else if statusp == 0 {
      PassRungs(cs, 1);
    } else if statusp as int >= KERNEL_PTR {
      PassRungs(cs, 2);
    } else if statusp as int == INVALID_PTR {
      PassRungs(cs, 3);
    } else if options != 0 && options != WNOHANG {
      PassRungs(cs, 4);
    } else if pid <= 0 {
      PassRungs(cs, 5);
    } else if target.None? {
      PassRungs(cs, 6);
    } else if pid > PID_MAX || pid < PID_MIN {
      PassRungs(cs, 7);
    } else if !target.value.callerIsParent {
      PassRungs(cs, 8);
    } else if children == 0 {
      PassRungs(cs, 9);
    } else {
      PassRungs(cs, 10);
    }
  }

  /** A pointer that is not word-aligned is refused with EFAULT whatever
      else is wrong with the call: alignment is the first rung. */
  lemma MisalignedFirst(pid: int, statusp: u32, options: int, target: Option<Target>,
                        children: nat, waited: int)
    requires statusp % 4 != 0
    ensures SysWaitpid(pid, statusp, options, target, children, waited) == WaitOutcome(EFAULT, Some(-1), None)
  {
  }

  /** The remaining pointer rungs and the options rung, each reached once
      the earlier ones pass: NULL is EINVAL, a kernel address EFAULT, the
      reserved invalid pointer EINVAL, and options other than 0 and
      WNOHANG EINVAL; none of them depends on the pid or the target. */
  lemma PointerAndOptionRungs(pid: int, statusp: u32, options: int, target: Option<Target>,
                              children: nat, waited: int)
    requires statusp % 4 == 0
    ensures var o := SysWaitpid(pid, statusp, options, target, children, waited);
            && (statusp == 0 ==> o == WaitOutcome(EINVAL, Some(-1), None))
            && (statusp as int >= KERNEL_PTR ==> o == WaitOutcome(EFAULT, Some(-1), None))
            && (statusp as int == INVALID_PTR ==> o == WaitOutcome(EINVAL, Some(-1), None))
            && ((0 < statusp as int < KERNEL_PTR && statusp as int != INVALID_PTR &&
                 options != 0 && options != WNOHANG) ==> o == WaitOutcome(EINVAL, Some(-1), None))
  {
  }

  /** A status is stored only for a found child of the caller with a
      well-formed, aligned user pointer, and only after it has exited or
      when the caller is willing to block. */
  lemma StoredOnlyForChild(pid: int, statusp: u32, options: int, target: Option<Target>,
                           children: nat, waited: int)
    requires SysWaitpid(pid, statusp, options, target, children, waited).stored.Some?
    ensures target.Some? && target.value.callerIsParent && children > 0
    ensures statusp % 4 == 0 && 0 < statusp as int < KERNEL_PTR && statusp as int != INVALID_PTR
    ensures options == 0 || target.value.exited
  {
  }

  /** A pid that names no process is refused with ESRCH, even when it
      could never have been a child of the caller: existence is tested
      before parenthood. */
  lemma UnknownPidIsSrch(pid: int, statusp: u32, options: int, children: nat, waited: int)
    requires statusp % 4 == 0 && 0 < statusp as int < KERNEL_PTR && statusp as int != INVALID_PTR
    requires options == 0 || options == WNOHANG
    requires pid > 0
    ensures SysWaitpid(pid, statusp, options, None, children, waited).ret == ESRCH
  {
  }

  /** The range test comes after the lookup: a found process whose pid
      lies above PID_MAX is refused with EINVAL, not ECHILD. */
  lemma OutOfRangeAfterLookup(pid: int, statusp: u32, options: int, t: Target,
                              children: nat, waited: int)
    requires statusp % 4 == 0 && 0 < statusp as int < KERNEL_PTR && statusp as int != INVALID_PTR
    requires options == 0 || options == WNOHANG
    requires pid > PID_MAX
    ensures SysWaitpid(pid, statusp, options, Some(t), children, waited).ret == EINVAL
  {
  }

  /** When the process list keeps the parent's child count in step with
      its children (a child implies a positive count), the second ECHILD
      rung never fires: every ECHILD answer means "not your child". */
  lemma NoChildrenRungRedundant(pid: int, statusp: u32, options: int, target: Option<Target>,
                                children: nat, waited: int)
    requires target.Some? && target.value.callerIsParent ==> children > 0
    ensures var o := SysWaitpid(pid, statusp, options, target, children, waited);
            o.retval == Some(-1) && o.ret == ECHILD ==> target.Some? && !target.value.callerIsParent
  {
  }
}
