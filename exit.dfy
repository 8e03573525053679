/** Process exit, kern/syscall/exit.c: `close_all_files` closes every
    occupied descriptor of the exiting process with `sys_close`, stopping
    at the first failure, and `sys__exit` panics on such a failure or else
    stores the low byte of the status, marks the process exited and wakes
    its waiters.

    `panic` is reported as a result; `proc_remthread`, `thread_exit` and
    the locks around the status update are left out. */
module Exit {
  import opened Kern
  import opened Procs
  import FileSyscalls
  import opened FileTables

  /** `status & 0xff`: the low byte of the status in two's complement,
      the only part of it a parent can collect. The contract pins that
      byte down: the one value in 0 .. 255 congruent to the status modulo
      256, which is what masking a two's-complement `int` yields, negative
      statuses included. */
  function ExitStatus(status: int): (s: int)
    ensures 0 <= s < 0x100
    ensures (status - s) % 0x100 == 0
  {
    status % 0x100
  }

  /** The count a successful `sys_close` leaves on a record: unchanged
      when it was the last reference (the record is released instead),
      one less otherwise. */
  function AfterClose(c: u32): (c': u32)
    ensures c >= 1 ==> c' >= 1
    ensures c' == c <==> c <= 1
  {
    if c <= 1 then c else c - 1
  }

  /** Closing slot `k` fails: its record has no vnode, either from the
      start or because an earlier slot shared the record and its close
      already cleared the vnode. */
  ghost predicate Fails(src: seq<OpenFile?>, vns: map<OpenFile, Option<Vnode>>, k: nat)
    requires k < |src|
  {
    src[k] != null && (Count(src, k, src[k]) > 0 || (src[k] in vns && vns[src[k]].None?))
  }

  /** The first slot at or after `i` whose close fails. */
  ghost function FirstFailure(src: seq<OpenFile?>, vns: map<OpenFile, Option<Vnode>>, i: nat): (k: Option<nat>)
    requires i <= |src|
    decreases |src| - i
    ensures k.Some? <==> exists j :: i <= j < |src| && Fails(src, vns, j)
    ensures k.Some? ==> i <= k.value < |src| && Fails(src, vns, k.value) &&
                        forall j :: i <= j < k.value ==> !Fails(src, vns, j)
  {
    if i == |src| then None
    else if Fails(src, vns, i) then Some(i)
    else FirstFailure(src, vns, i + 1)
  }

  /** The vnodes `vfs_close` is called on by closing slots 0 .. i-1 in
      turn: those of records met for the first time, still holding a
      vnode, with a single reference. */
  ghost function ClosedVnodes(src: seq<OpenFile?>, vns: map<OpenFile, Option<Vnode>>,
                              rcs: map<OpenFile, u32>, i: nat): (vs: seq<Vnode>)
    requires i <= |src|
    ensures |vs| <= i
  {
    if i == 0 then []
    else
      var o := src[i - 1];
      ClosedVnodes(src, vns, rcs, i - 1) +
        if o != null && o in vns && o in rcs && vns[o].Some? && rcs[o] == 1 && Count(src, i - 1, o) == 0
        then [vns[o].value] else []
  }

  /** Each record after the closes of slots 0 .. i-1: a record held by one
      of them has lost its vnode, and one reference if it still had its
      vnode then; any other record is as it was. */
  ghost predicate ClosedUpTo(src: seq<OpenFile?>, vns: map<OpenFile, Option<Vnode>>,
                             rcs: map<OpenFile, u32>, i: nat)
    requires i <= |src|
    reads vns.Keys
  {
    forall o: OpenFile :: o in vns ==>
      && o in rcs
      && o.vn == (if Count(src, i, o) > 0 then None else vns[o])
      && o.refCount == (if Count(src, i, o) > 0 && vns[o].Some? then AfterClose(rcs[o]) else rcs[o])
  }

  /** What the close loop keeps after slots 0 .. i-1: those slots are
      empty, the others hold their records, and the records are as
      `ClosedUpTo` says. */
  ghost predicate CloseState(p: Proc, src: seq<OpenFile?>, vns: map<OpenFile, Option<Vnode>>,
                             rcs: map<OpenFile, u32>, i: nat)
    reads p, p.fileTable, vns.Keys
  {
    && p.Valid() && |src| == OPEN_MAX && i <= OPEN_MAX
    && (forall j :: 0 <= j < |src| && src[j] != null ==> src[j] in vns)
    && vns.Keys == rcs.Keys
    && (forall o :: o in rcs ==> rcs[o] >= 1)
    && Cleared(p.fileTable[..], src, i)
    && ClosedUpTo(src, vns, rcs, i)
  }

  /** The vnode of every record in the table. */
  ghost function VnodesOf(p: Proc): map<OpenFile, Option<Vnode>>
    reads p, p.fileTable, set o: OpenFile | o in p.fileTable[..]
  {
    map o: OpenFile | o in p.fileTable[..] :: o.vn
  }

  /** The reference count of every record in the table. */
  ghost function RefsOf(p: Proc): map<OpenFile, u32>
    reads p, p.fileTable, set o: OpenFile | o in p.fileTable[..]
  {
    map o: OpenFile | o in p.fileTable[..] :: o.refCount
  }

  /** `close_all_files`: `sys_close` on every occupied slot in ascending
      order; -1 at the first close that fails, else 0. It fails exactly
      when some slot's record has no vnode by the time it is reached,
      which happens in particular to a record shared by two slots, since
      `sys_close` clears the vnode even of a shared record. Slots up to
      the failing one are emptied, the rest are kept; `closed` lists the
      vnodes handed to `vfs_close`. */
  method CloseAllFiles(p: Proc) returns (r: int, ghost closed: seq<Vnode>)
    requires p.Valid() && FileSyscalls.SlotRefsPositive(p)
    modifies p.fileTable, (set o: OpenFile | o in p.fileTable[..])`vn
    modifies (set o: OpenFile | o in p.fileTable[..])`refCount
    ensures p.fileTable == old(p.fileTable)
    ensures var src, vns, rcs := old(p.fileTable[..]), old(VnodesOf(p)), old(RefsOf(p));
            var fail := FirstFailure(src, vns, 0);
            var stop := if fail.Some? then fail.value + 1 else |src|;
            && (r == -1 <==> fail.Some?) && (r == 0 <==> fail.None?)
            && Cleared(p.fileTable[..], src, stop)
            && ClosedUpTo(src, vns, rcs, stop)
            && closed == ClosedVnodes(src, vns, rcs, stop)
  {
    ghost var src := p.fileTable[..];
    ghost var vns := VnodesOf(p);
    ghost var rcs := RefsOf(p);
    StartState(p, src, vns, rcs);
    r, closed := CloseLoop(p, src, vns, rcs);
  }

  /** The loop of `close_all_files` over snapshots of the table (`src`),
      of each record's vnode (`vns`) and of its count (`rcs`). */
  method CloseLoop(p: Proc, ghost src: seq<OpenFile?>, ghost vns: map<OpenFile, Option<Vnode>>,
                   ghost rcs: map<OpenFile, u32>) returns (r: int, ghost closed: seq<Vnode>)
    requires CloseState(p, src, vns, rcs, 0)
    modifies p.fileTable, vns.Keys`vn, vns.Keys`refCount
    ensures p.fileTable == old(p.fileTable)
    ensures var fail := FirstFailure(src, vns, 0);
            var stop := if fail.Some? then fail.value + 1 else |src|;
            && (r == -1 <==> fail.Some?) && (r == 0 <==> fail.None?)
            && CloseState(p, src, vns, rcs, stop)
            && closed == ClosedVnodes(src, vns, rcs, stop)
  {
    r, closed := 0, [];
    var i := 0;
    while i < OPEN_MAX
      invariant p.fileTable == old(p.fileTable)
      invariant i <= OPEN_MAX && CloseState(p, src, vns, rcs, i)
      invariant FirstFailure(src, vns, 0) == FirstFailure(src, vns, i)
      invariant closed == ClosedVnodes(src, vns, rcs, i)
    {
      var failed, c := CloseSlot(p, i, src, vns, rcs);
      closed := closed + c;
      if failed {
        r := -1;
        break;
      }
      i := i + 1;
    }
  }

  /** The snapshots describe the table before any close. */
  lemma StartState(p: Proc, src: seq<OpenFile?>, vns: map<OpenFile, Option<Vnode>>, rcs: map<OpenFile, u32>)
    requires src == p.fileTable[..] && p.Valid()
    requires forall o: OpenFile :: o in vns <==> o in src
    requires forall o: OpenFile :: o in vns ==> vns[o] == o.vn
    requires forall o: OpenFile :: o in rcs <==> o in src
    requires forall o: OpenFile :: o in rcs ==> rcs[o] == o.refCount
    requires FileSyscalls.SlotRefsPositive(p)
    ensures CloseState(p, src, vns, rcs, 0)
  {
    forall o | o in rcs ensures rcs[o] >= 1 {
      var j :| 0 <= j < |src| && src[j] == o;
      assert p.fileTable[j] == o;
    }
  }

  /** One turn of the loop: `sys_close(i)` when slot `i` is occupied.
      `failed` says whether that close failed; `c` is the vnode it handed
      to `vfs_close`, if any. */
  method CloseSlot(p: Proc, i: nat, ghost src: seq<OpenFile?>, ghost vns: map<OpenFile, Option<Vnode>>,
                   ghost rcs: map<OpenFile, u32>) returns (failed: bool, ghost c: seq<Vnode>)
    requires i < OPEN_MAX && CloseState(p, src, vns, rcs, i)
    modifies p.fileTable, vns.Keys`vn, vns.Keys`refCount
    ensures p.fileTable == old(p.fileTable)
    ensures failed == Fails(src, vns, i)
    ensures CloseState(p, src, vns, rcs, i + 1)
    ensures ClosedVnodes(src, vns, rcs, i) + c == ClosedVnodes(src, vns, rcs, i + 1)
  {
    ghost var t := p.fileTable[..];
    if p.fileTable[i] == null {
      failed, c := false, [];
      assert t[i := null] == t;
      ClearedStep(t, src, i);
      ClosedStep(src, vns, rcs, i);
      return;
    }
    ghost var o := p.fileTable[i];
    ghost var vn0, rc0 := o.vn, o.refCount;
    ghost var shared := Count(src, i, o) > 0;
    SlotsPositive(p, src, vns, rcs, i);
    var r, _, closedVn := FileSyscalls.Close(p, i);
    failed := r != 0;
    c := if closedVn.Some? then [closedVn.value] else [];
    ClearedStep(t, src, i);
    CloseStep(src, vns, rcs, i, vn0, rc0);
  }

  /** Before the close of slot `i` every occupied slot's record still has
      a reference, as `sys_close` requires. */
  lemma SlotsPositive(p: Proc, src: seq<OpenFile?>, vns: map<OpenFile, Option<Vnode>>,
                      rcs: map<OpenFile, u32>, i: nat)
    requires i < OPEN_MAX && CloseState(p, src, vns, rcs, i)
    ensures FileSyscalls.SlotRefsPositive(p)
  {
    forall j | 0 <= j < p.fileTable.Length && p.fileTable[j] != null
      ensures p.fileTable[j].refCount >= 1
    {
      var o := p.fileTable[j];
      assert o == src[j];
    }
  }

  /** An empty slot changes nothing: no record, no vnode closed. */
  lemma ClosedStep(src: seq<OpenFile?>, vns: map<OpenFile, Option<Vnode>>, rcs: map<OpenFile, u32>, i: nat)
    requires i < |src| && src[i] == null
    requires ClosedUpTo(src, vns, rcs, i)
    ensures ClosedUpTo(src, vns, rcs, i + 1)
    ensures ClosedVnodes(src, vns, rcs, i + 1) == ClosedVnodes(src, vns, rcs, i)
  {
  }

  /** The close of an occupied slot `i` whose record had vnode `vn0` and
      count `rc0` just before: the record now matches `ClosedUpTo` at
      `i + 1`. */
  lemma CloseStep(src: seq<OpenFile?>, vns: map<OpenFile, Option<Vnode>>, rcs: map<OpenFile, u32>,
                  i: nat, vn0: Option<Vnode>, rc0: u32)
    requires i < |src| && src[i] != null
    requires src[i] in vns && src[i] in rcs
    requires vn0 == (if Count(src, i, src[i]) > 0 then None else vns[src[i]])
    requires rc0 == (if Count(src, i, src[i]) > 0 && vns[src[i]].Some? then AfterClose(rcs[src[i]]) else rcs[src[i]])
    requires forall o: OpenFile :: o in vns && o != src[i] ==>
               && o in rcs
               && o.vn == (if Count(src, i, o) > 0 then None else vns[o])
               && o.refCount == (if Count(src, i, o) > 0 && vns[o].Some? then AfterClose(rcs[o]) else rcs[o])
    requires src[i].vn.None?
    requires src[i].refCount == if vn0.Some? then AfterClose(rc0) else rc0
    ensures ClosedUpTo(src, vns, rcs, i + 1)
  {
  }

  /** `sys__exit`: close every file; a failure panics before anything
      else is stored. Otherwise the low byte of the status is stored, the
      process is marked exited and then its waiters are woken, so every
      wake-up finds `p_exited` set. The file table ends empty and each
      record has given up the reference its slot held. */
  method SysExit(p: Proc, status: int) returns (panicked: bool, ghost closed: seq<Vnode>)
    requires p.Valid() && FileSyscalls.SlotRefsPositive(p)
    modifies p`status, p`exited, p`wakeups, p.fileTable
    modifies (set o: OpenFile | o in p.fileTable[..])`vn, (set o: OpenFile | o in p.fileTable[..])`refCount
    ensures p.fileTable == old(p.fileTable) && p.addrspace == old(p.addrspace) && p.cwd == old(p.cwd)
    ensures var src, vns, rcs := old(p.fileTable[..]), old(VnodesOf(p)), old(RefsOf(p));
            && (panicked <==> FirstFailure(src, vns, 0).Some?)
            && (panicked ==>
                  p.status == old(p.status) && p.exited == old(p.exited) && p.wakeups == old(p.wakeups))
            && (!panicked ==>
                  && (forall i :: 0 <= i < OPEN_MAX ==> p.fileTable[i] == null)
                  && ClosedUpTo(src, vns, rcs, |src|)
                  && closed == ClosedVnodes(src, vns, rcs, |src|)
                  && p.status == ExitStatus(status)
                  && p.exited
                  && p.wakeups == old(p.wakeups) + [true])
  {
    var r;
    r, closed := CloseAllFiles(p);
    if r != 0 {
      // panic("Problem closing open file of curproc.")
      panicked := true;
      return;
    }
    panicked := false;
    p.status := ExitStatus(status);
    p.exited := true;
    p.wakeups := p.wakeups + [p.exited];
  }

  /** Two slots sharing a record make `close_all_files` fail, at the
      second of them at the latest: the first close clears the shared
      vnode and the second then meets none. So a process whose table
      holds one record twice panics in `sys__exit`. */
  lemma SharedRecordFails(src: seq<OpenFile?>, vns: map<OpenFile, Option<Vnode>>, j: nat, k: nat)
    requires j < k < |src| && src[j] != null && src[j] == src[k]
    ensures FirstFailure(src, vns, 0).Some? && FirstFailure(src, vns, 0).value <= k
  {
    CountMono(src, j + 1, k, src[k]);
    assert Fails(src, vns, k);
  }

  /** A table whose occupied slots hold distinct records, each with its
      vnode, is closed without failure. */
  lemma DistinctRecordsClose(src: seq<OpenFile?>, vns: map<OpenFile, Option<Vnode>>)
    requires forall j, k :: 0 <= j < k < |src| && src[k] != null ==> src[j] != src[k]
    requires forall k :: 0 <= k < |src| && src[k] != null ==> src[k] in vns && vns[src[k]].Some?
    ensures FirstFailure(src, vns, 0).None?
  {
    forall k | 0 <= k < |src| && src[k] != null ensures Count(src, k, src[k]) == 0 {
      CountAbsent(src, k, src[k]);
    }
  }

  /** A record held by none of the first `n` slots is counted 0 times. */
  lemma {:induction false} CountAbsent(s: seq<OpenFile?>, n: nat, o: OpenFile)
    requires n <= |s| && forall j :: 0 <= j < n ==> s[j] != o
    ensures Count(s, n, o) == 0
  {
    if n > 0 {
      CountAbsent(s, n - 1, o);
    }
  }
}
