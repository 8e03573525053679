/** `sys_execv` of kern/syscall/execv.c: the argument vector is counted
    and each string measured in the caller's address space, the strings
    are copied onto the new user stack from the last argument down, each
    in a pointer-aligned slot, and a NULL-terminated argv is built just
    below them. Every failure while marshalling reinstalls the old address
    space and destroys the new one; the old one is destroyed only once
    everything has been copied.

    `copyinstr` of the path, `vfs_open`, `as_create`, `load_elf`,
    `as_define_stack` and `kmalloc` are parameters holding their outcome;
    `copyin` and `copyout` work on the address spaces' memory. The list
    stacks of pointers are sequences whose front is element 0. */
module Execv {
  import opened Kern
  import opened Procs
  import opened UserMem

  /** `sizeof(void *)` and `sizeof(userptr_t)` on the 32-bit target. */
  const PTR_SIZE: int := 4

  /** The stack space a string of `len` bytes (NUL included) takes:
      `len` rounded up to a multiple of the pointer size. */
  function Reserve(len: nat): (r: nat)
    ensures r % PTR_SIZE == 0 && len <= r < len + PTR_SIZE
  {
    len / PTR_SIZE * PTR_SIZE + (if len % PTR_SIZE == 0 then 0 else PTR_SIZE)
  }

  /** The argument-counting loop: `copyin` of `args[argc]` until a NULL
      pointer, pushing each pointer on the front of `stack`. It faults
      exactly when the vector is not readable up to its NULL, and
      otherwise counts its pointers, the last one in front. */
  method CountArgs(mem: Mem, args: u32) returns (argc: nat, stack: seq<u32>, fault: bool)
    requires UserMemory(mem)
    ensures fault <==> ArgPtrs(mem, args as int).None?
    ensures !fault ==> argc == |ArgPtrs(mem, args as int).value| == |stack|
    ensures !fault ==> forall j :: 0 <= j < argc ==> stack[j] == ArgPtrs(mem, args as int).value[argc - 1 - j]
  {
    argc, stack, fault := 0, [], false;
    ghost var seen: seq<u32> := [];
    PrependNil(ArgPtrs(mem, args as int));
    while true
      invariant |seen| == argc == |stack|
      invariant forall j :: 0 <= j < argc ==> stack[j] == seen[argc - 1 - j]
      invariant ArgPtrs(mem, args as int) == Prepend(seen, ArgPtrs(mem, args as int + PTR_SIZE * argc))
      decreases USERSPACETOP - (args as int + PTR_SIZE * argc)
    {
      var at := args as int + PTR_SIZE * argc;
      var w := WordAt(mem, at);
      if w.None? {
        fault := true;
        break;
      }
      if w.value == 0 {
        break;
      }
      assert at in mem;
      assert ArgPtrs(mem, at) == Prepend([w.value], ArgPtrs(mem, at + PTR_SIZE));
      PrependTwice(seen, [w.value], ArgPtrs(mem, at + PTR_SIZE));
      seen := seen + [w.value];
      stack := [w.value] + stack;
      argc := argc + 1;
      assert at + PTR_SIZE == args as int + PTR_SIZE * argc;
    }
  }

  /** The measuring loop: `copyin` of one byte at a time until the NUL.
      It faults exactly when the string is not readable up to its NUL, and
      otherwise `len` counts the bytes with the NUL. */
  method MeasureString(mem: Mem, ptr: u32) returns (len: nat, fault: bool)
    requires UserMemory(mem)
    ensures fault <==> CString(mem, ptr as int).None?
    ensures !fault ==> len == |CString(mem, ptr as int).value| + 1
  {
    len := 1;
    ghost var seen: seq<byte> := [];
    PrependNil(CString(mem, ptr as int));
    while true
      invariant len == |seen| + 1
      invariant CString(mem, ptr as int) == Prepend(seen, CString(mem, ptr as int + len - 1))
      decreases USERSPACETOP - (ptr as int + len)
    {
      var at := ptr as int + len - 1;
      if at !in mem {
        return len, true;
      }
      if mem[at] == 0 {
        return len, false;
      }
      PrependTwice(seen, [mem[at]], CString(mem, at + 1));
      seen := seen + [mem[at]];
      len := len + 1;
    }
  }

  /** What marshalling the arguments yields: an error, or the final stack
      pointer, the new address of every string and the new memory. */
  datatype Marshal = Fail(err: int) | Done(sp: u32, addrs: seq<u32>, mem: Mem)

  /** Reference for the string loop: strings `k - 1` down to `0` of the
      vector `ptrs` in `src`, with `left` bytes of budget, the stack
      pointer at `sp`, new memory `dst` and the addresses `placed` of the
      strings already copied (string `k` first). A string costs its length
      with the NUL; it faults when unreadable (EFAULT), overdraws the budget
      (E2BIG), cannot get its kernel buffer (ENOMEM, when its index is in
      `nomem`), or does not fit in mapped memory (EFAULT). */
  function PlaceStrings(src: Mem, ptrs: seq<u32>, k: nat, left: int, sp: u32, dst: Mem,
                        nomem: set<nat>, placed: seq<u32>): Marshal
    requires UserMemory(src) && k <= |ptrs|
    decreases k
  {
    if k == 0 then Done(sp, placed, dst)
    else
      match CString(src, ptrs[k - 1] as int)
      case None => Fail(EFAULT)
      case Some(s) =>
        var len := |s| + 1;
        if left - len < 0 then Fail(E2BIG)
        else if k - 1 in nomem then Fail(ENOMEM)
        else
          var at := SubU32(sp, Reserve(len));
          if !Mapped(dst, at as int, len) then Fail(EFAULT)
          else PlaceStrings(src, ptrs, k - 1, left - len, at, Write(dst, at as int, s + [0]), nomem, [at] + placed)
  }

  /** The string loop of `sys_execv`: for `i` from `argc - 1` down to 0,
      pop the old pointer, measure the string, charge the budget, take a
      kernel buffer, copy it in, move the stack pointer down by the
      rounded length and copy it out, pushing its new address. The
      pointer the string is copied from is `args[i]`, which is the one
      popped. */
  method PlaceArgs(src: Mem, ghost ptrs: seq<u32>, oldStack: seq<u32>, dst: AddrSpace, top: u32, nomem: set<nat>)
    returns (r: Marshal)
    requires UserMemory(src) && |oldStack| == |ptrs|
    requires forall j :: 0 <= j < |ptrs| ==> oldStack[j] == ptrs[|ptrs| - 1 - j]
    modifies dst
    ensures var spec := PlaceStrings(src, ptrs, |ptrs|, ARG_MAX, top, old(dst.mem), nomem, []);
            && (spec.Fail? ==> r == spec)
            && (spec.Done? ==> r == spec && dst.mem == spec.mem)
    ensures dst.destroyed == old(dst.destroyed)
  {
    var stack := oldStack;
    var newStack: seq<u32> := [];
    var left := ARG_MAX;
    var sp := top;
    var i := |oldStack| - 1;
    while i >= 0
      invariant -1 <= i < |ptrs| && |stack| == i + 1
      invariant forall j :: 0 <= j <= i ==> stack[j] == ptrs[i - j]
      invariant dst.destroyed == old(dst.destroyed)
      invariant PlaceStrings(src, ptrs, |ptrs|, ARG_MAX, top, old(dst.mem), nomem, [])
             == PlaceStrings(src, ptrs, i + 1, left, sp, dst.mem, nomem, newStack)
    {
      var oldptr := stack[0];
      stack := stack[1..];
      var len, fault := MeasureString(src, oldptr);
      if fault {
        return Fail(EFAULT);
      }
      left := left - len;
      if left < 0 {
        return Fail(E2BIG);
      }
      if i in nomem {
        return Fail(ENOMEM);
      }
      CStringSpec(src, oldptr as int);
      var kstring := Read(src, oldptr as int, len);
      sp := SubU32(sp, Reserve(len));
      if !Mapped(dst.mem, sp as int, len) {
        return Fail(EFAULT);
      }
      dst.mem := Write(dst.mem, sp as int, kstring);
      newStack := [sp] + newStack;
      i := i - 1;
    }
    return Done(sp, newStack, dst.mem);
  }

  /** `base + off` on 32-bit user pointers. */
  function AddrAt(base: u32, off: nat): (a: int)
    ensures 0 <= a < U32
  {
    (base as int + off) % U32
  }

  /** Reference for the argv loop: pointers `i..` of `addrs` stored at
      `argv + PTR_SIZE * i`; None when a slot is not mapped. */
  function StoreArgv(dst: Mem, argv: u32, addrs: seq<u32>, i: nat): Option<Mem>
    requires i <= |addrs|
    decreases |addrs| - i
  {
    if i == |addrs| then Some(dst)
    else
      var at := AddrAt(argv, PTR_SIZE * i);
      if !Mapped(dst, at, PTR_SIZE) then None
      else StoreArgv(Write(dst, at, EncodeWord(addrs[i])), argv, addrs, i + 1)
  }

  /** The NULL stored after the last pointer. Its `copyout` result is not
      checked, so an unmapped slot is simply left alone. */
  function StoreNull(dst: Mem, argv: u32, argc: nat): Mem
  {
    var at := AddrAt(argv, PTR_SIZE * argc);
    if Mapped(dst, at, PTR_SIZE) then Write(dst, at, EncodeWord(0)) else dst
  }

  /** Reference for the whole marshalling of a non-NULL `args`: count the
      vector in `src`, place the strings on the stack of `dst` below `top`,
      then put argv, `argc + 1` pointers, right below the strings. The
      final stack pointer is argv. */
  function MarshalSpec(src: Mem, args: u32, dst: Mem, top: u32, nomem: set<nat>): Marshal
    requires UserMemory(src)
  {
    match ArgPtrs(src, args as int)
    case None => Fail(EFAULT)
    case Some(ptrs) =>
      match PlaceStrings(src, ptrs, |ptrs|, ARG_MAX, top, dst, nomem, [])
      case Fail(err) => Fail(err)
      case Done(sp, addrs, mem) =>
        var argv := SubU32(sp, PTR_SIZE * (|ptrs| + 1));
        match StoreArgv(mem, argv, addrs, 0)
        case None => Fail(EFAULT)
        case Some(mem') => Done(argv, addrs, StoreNull(mem', argv, |ptrs|))
  }

  /** The argv loop: `copyout` of each new string address, taken from the
      front of `newStack`, into slot `i` of argv. */
  method WriteArgv(dst: AddrSpace, argv: u32, newStack: seq<u32>) returns (ok: bool)
    modifies dst
    ensures var spec := StoreArgv(old(dst.mem), argv, newStack, 0);
            && (ok <==> spec.Some?)
            && (ok ==> dst.mem == spec.value)
    ensures dst.destroyed == old(dst.destroyed)
  {
    var stack := newStack;
    var i := 0;
    while i < |newStack|
      invariant 0 <= i <= |newStack| && stack == newStack[i..]
      invariant dst.destroyed == old(dst.destroyed)
      invariant StoreArgv(old(dst.mem), argv, newStack, 0) == StoreArgv(dst.mem, argv, newStack, i)
    {
      var newstring := stack[0];
      stack := stack[1..];
      var at := AddrAt(argv, PTR_SIZE * i);
      if !Mapped(dst.mem, at, PTR_SIZE) {
        return false;
      }
      dst.mem := Write(dst.mem, at, EncodeWord(newstring));
      i := i + 1;
    }
    return true;
  }

  /** The marshalling part of `sys_execv` for a non-NULL `args`: the
      vector and the strings are read in `oldAs`, the strings and argv are
      written to `newAs`. */
  method MarshalArgs(oldAs: AddrSpace, newAs: AddrSpace, args: u32, top: u32, nomem: set<nat>)
    returns (m: Marshal)
    requires oldAs.Valid() && oldAs != newAs
    modifies newAs
    ensures var spec := MarshalSpec(old(oldAs.mem), args, old(newAs.mem), top, nomem);
            && (spec.Fail? ==> m == spec)
            && (spec.Done? ==> m == spec && newAs.mem == spec.mem)
    ensures newAs.destroyed == old(newAs.destroyed)
  {
    var n, oldStack, fault := CountArgs(oldAs.mem, args);
    if fault {
      return Fail(EFAULT);
    }
    ghost var ptrs := ArgPtrs(oldAs.mem, args as int).value;
    var placed := PlaceArgs(oldAs.mem, ptrs, oldStack, newAs, top, nomem);
    if placed.Fail? {
      return placed;
    }
    var argv := SubU32(placed.sp, PTR_SIZE * (n + 1));
    var ok := WriteArgv(newAs, argv, placed.addrs);
    if !ok {
      return Fail(EFAULT);
    }
    // the NULL after the last pointer; the copyout result is ignored
    var at := AddrAt(argv, PTR_SIZE * n);
    if Mapped(newAs.mem, at, PTR_SIZE) {
      newAs.mem := Write(newAs.mem, at, EncodeWord(0));
    }
    return Done(argv, placed.addrs, newAs.mem);
  }

  /** How `sys_execv` ends: an error returned to the caller, or the jump
      to user mode with `argc`, the argv address, the stack pointer and
      the entry point. */
  datatype Outcome = Error(err: int) | Enter(argc: nat, argv: u32, sp: u32, entry: u32)

  /** `sys_execv`. `pathResult` is what `copyinstr` of the program name
      returns, `openResult` what `vfs_open` returns, `asCreated` whether
      `as_create` succeeds and `image` the memory `load_elf` and
      `as_define_stack` leave in the new address space, `loadResult` and
      `stackResult` their results, `entry` and `top` the entry point and
      stack pointer they yield, and `nomem` the indices whose kernel string
      buffer `kmalloc` cannot supply. `newAs` is the address space created. */
  method ExecV(p: Proc, args: u32, pathResult: int, openResult: int, asCreated: bool, image: Mem,
               loadResult: int, entry: u32, stackResult: int, top: u32, nomem: set<nat>)
    returns (out: Outcome, newAs: AddrSpace?)
    requires p.addrspace != null && p.addrspace.Valid() && UserMemory(image)
    // of the process, only the address-space pointer may change: the
    // file table, the cwd and the exit fields are kept, whatever the outcome
    modifies p`addrspace, p.addrspace
    ensures unchanged(p`fileTable, p.fileTable, p`cwd, p`status, p`exited, p`wakeups)
    // failures before a new address space exists change nothing
    ensures pathResult != 0 ==> out == Error(pathResult) && newAs == null
    ensures pathResult == 0 && openResult != 0 ==> out == Error(openResult) && newAs == null
    ensures pathResult == 0 && openResult == 0 && !asCreated ==> out == Error(ENOMEM) && newAs == null
    ensures newAs == null ==>
              p.addrspace == old(p.addrspace) && unchanged(old(p.addrspace))
    // load_elf and as_define_stack failures leave the new space installed
    ensures pathResult == 0 && openResult == 0 && asCreated ==>
              newAs != null && fresh(newAs)
    ensures newAs != null && loadResult != 0 ==>
              && out == Error(loadResult) && p.addrspace == newAs && newAs.mem == image
              && unchanged(old(p.addrspace))
    ensures newAs != null && loadResult == 0 && stackResult != 0 ==>
              && out == Error(stackResult) && p.addrspace == newAs && newAs.mem == image
              && unchanged(old(p.addrspace))
    // no arguments: straight to user mode
    ensures newAs != null && loadResult == 0 && stackResult == 0 && args == 0 ==>
              && out == Enter(0, 0, top, entry)
              && p.addrspace == newAs && newAs.mem == image && !newAs.destroyed
              && old(p.addrspace).destroyed
    // arguments: roll back on failure, commit on success
    ensures newAs != null && loadResult == 0 && stackResult == 0 && args != 0 ==>
              var m := MarshalSpec(old(p.addrspace.mem), args, image, top, nomem);
              && (m.Fail? ==> && out == Error(m.err)
                              && p.addrspace == old(p.addrspace) && unchanged(old(p.addrspace))
                              && newAs.destroyed)
              && (m.Done? ==> && out == Enter(|m.addrs|, m.sp, m.sp, entry)
                              && p.addrspace == newAs && newAs.mem == m.mem && !newAs.destroyed
                              && old(p.addrspace).destroyed)
  {
    var oldAs := p.addrspace;
    if pathResult != 0 {
      return Error(pathResult), null;
    }
    if openResult != 0 {
      return Error(openResult), null;
    }
    if !asCreated {
      // vfs_close(v)
      return Error(ENOMEM), null;
    }
    newAs := new AddrSpace(image);
    p.addrspace := newAs;
    if loadResult != 0 {
      // vfs_close(v); the old address space is not reinstalled
      return Error(loadResult), newAs;
    }
    if stackResult != 0 {
      return Error(stackResult), newAs;
    }
    var argc: nat := 0;
    var argv: u32 := 0;
    var sp := top;
    if args != 0 {
      var m := MarshalArgs(oldAs, newAs, args, top, nomem);
      if m.Fail? {
        // proc_setas(old_as); as_activate(); as_destroy(new_as)
        p.addrspace := oldAs;
        newAs.destroyed := true;
        return Error(m.err), newAs;
      }
      argc := |m.addrs|;
      argv := m.sp;
      sp := m.sp;
    }
    p.addrspace := newAs;
    oldAs.destroyed := true;
    return Enter(argc, argv, sp, entry), newAs;
  }

  /** The length with NUL of string `i` of the vector, 0 when unreadable. */
  function LenAt(src: Mem, ptrs: seq<u32>, i: nat): nat
    requires UserMemory(src) && i < |ptrs|
  {
    match CString(src, ptrs[i] as int)
    case None => 0
    case Some(s) => |s| + 1
  }

  /** The total length with NULs of strings `0..k` of the vector. */
  function StringsLen(src: Mem, ptrs: seq<u32>, k: nat): (n: nat)
    requires UserMemory(src) && k <= |ptrs|
  {
    if k == 0 then 0 else StringsLen(src, ptrs, k - 1) + LenAt(src, ptrs, k - 1)
  }

  /** A string slot moved down from a stack pointer that lands on mapped
      memory did not wrap around. */
  lemma NoWrap(dst: Mem, sp: u32, len: nat)
    requires UserMemory(dst) && 1 <= len <= ARG_MAX
    requires Mapped(dst, SubU32(sp, Reserve(len)) as int, len)
    ensures SubU32(sp, Reserve(len)) as int == sp as int - Reserve(len)
  {
    assert SubU32(sp, Reserve(len)) as int in dst;
  }

  /** One completed step of the string loop: string `k - 1` is readable
      and fits the budget, and the rest of the loop goes on from the
      slot `at` below `sp` with the memory `dst'` that holds the string;
      in user memory the slot did not wrap around. */
  lemma PlaceStep(src: Mem, ptrs: seq<u32>, k: nat, left: int, sp: u32, dst: Mem,
                  nomem: set<nat>, placed: seq<u32>)
    returns (len: nat, at: u32, dst': Mem)
    requires UserMemory(src) && 0 < k <= |ptrs|
    requires PlaceStrings(src, ptrs, k, left, sp, dst, nomem, placed).Done?
    ensures CString(src, ptrs[k - 1] as int).Some?
    ensures len == LenAt(src, ptrs, k - 1) && 1 <= len <= left && k - 1 !in nomem
    ensures at == SubU32(sp, Reserve(len)) && dst' == Write(dst, at as int, CString(src, ptrs[k - 1] as int).value + [0])
    ensures UserMemory(dst) && left <= ARG_MAX ==>
              at as int == sp as int - Reserve(len) && UserMemory(dst') && dst'.Keys == dst.Keys
    ensures PlaceStrings(src, ptrs, k, left, sp, dst, nomem, placed)
            == PlaceStrings(src, ptrs, k - 1, left - len, at, dst', nomem, [at] + placed)
  {
    var s := CString(src, ptrs[k - 1] as int).value;
    len := |s| + 1;
    at := SubU32(sp, Reserve(len));
    dst' := Write(dst, at as int, s + [0]);
    if UserMemory(dst) && left <= ARG_MAX {
      NoWrap(dst, sp, len);
      WriteKeepsDomain(dst, at as int, s + [0]);
    }
  }

  /** The string loop, when it completes, has pushed one address per
      string and ends with the stack pointer on the first string. */
  lemma {:induction false} PlaceAddrs(src: Mem, ptrs: seq<u32>, k: nat, left: int, sp: u32, dst: Mem,
                                      nomem: set<nat>, placed: seq<u32>)
    requires UserMemory(src) && k <= |ptrs|
    requires PlaceStrings(src, ptrs, k, left, sp, dst, nomem, placed).Done?
    decreases k
    ensures var r := PlaceStrings(src, ptrs, k, left, sp, dst, nomem, placed);
            && |r.addrs| == k + |placed| && r.addrs[k..] == placed
            && r.sp == (if k == 0 then sp else r.addrs[0])
  {
    if k > 0 {
      var len, at, dst' := PlaceStep(src, ptrs, k, left, sp, dst, nomem, placed);
      PlaceAddrs(src, ptrs, k - 1, left - len, at, dst', nomem, [at] + placed);
      var r := PlaceStrings(src, ptrs, k, left, sp, dst, nomem, placed);
      assert r.addrs[k..] == r.addrs[k - 1..][1..];
      if k == 1 {
        assert r.addrs[0] == r.addrs[0..][0] == at;
      }
    }
  }

  /** The string loop, when it completes, has read every string and kept
      within the budget: the strings with their NULs total at most
      `left` bytes. */
  lemma {:induction false} PlaceBudget(src: Mem, ptrs: seq<u32>, k: nat, left: int, sp: u32, dst: Mem,
                                       nomem: set<nat>, placed: seq<u32>)
    requires UserMemory(src) && k <= |ptrs| && 0 <= left
    requires PlaceStrings(src, ptrs, k, left, sp, dst, nomem, placed).Done?
    decreases k
    ensures forall i :: 0 <= i < k ==> CString(src, ptrs[i] as int).Some?
    ensures StringsLen(src, ptrs, k) <= left
  {
    if k > 0 {
      var len, at, dst' := PlaceStep(src, ptrs, k, left, sp, dst, nomem, placed);
      PlaceBudget(src, ptrs, k - 1, left - len, at, dst', nomem, [at] + placed);
    }
  }

  /** The string loop refuses with E2BIG only when the budget is
      overdrawn, and never within it: a vector whose strings are readable
      and total at most `left` bytes is never refused so, and an E2BIG
      refusal means that the strings read so far, `j` to `k - 1`, were
      readable and together exceed `left`. An overdrawn budget need not
      give E2BIG: a failed buffer or copyout before the overdraw comes
      first. */
  lemma {:induction false} PlaceOverdraw(src: Mem, ptrs: seq<u32>, k: nat, left: int, sp: u32, dst: Mem,
                                         nomem: set<nat>, placed: seq<u32>)
    requires UserMemory(src) && k <= |ptrs|
    ensures (forall i :: 0 <= i < k ==> CString(src, ptrs[i] as int).Some?) && StringsLen(src, ptrs, k) <= left ==>
              PlaceStrings(src, ptrs, k, left, sp, dst, nomem, placed) != Fail(E2BIG)
    ensures PlaceStrings(src, ptrs, k, left, sp, dst, nomem, placed) == Fail(E2BIG) ==>
              exists j :: && 0 <= j < k
                          && (forall i :: j <= i < k ==> CString(src, ptrs[i] as int).Some?)
                          && StringsLen(src, ptrs, k) - StringsLen(src, ptrs, j) > left
  {
    PlaceWithin(src, ptrs, k, left, sp, dst, nomem, placed);
    if PlaceStrings(src, ptrs, k, left, sp, dst, nomem, placed) == Fail(E2BIG) {
      PlaceRefused(src, ptrs, k, left, sp, dst, nomem, placed);
    }
  }

  /** Readable strings within the budget are never refused with E2BIG. */
  lemma {:induction false} PlaceWithin(src: Mem, ptrs: seq<u32>, k: nat, left: int, sp: u32, dst: Mem,
                                       nomem: set<nat>, placed: seq<u32>)
    requires UserMemory(src) && k <= |ptrs|
    decreases k
    ensures (forall i :: 0 <= i < k ==> CString(src, ptrs[i] as int).Some?) && StringsLen(src, ptrs, k) <= left ==>
              PlaceStrings(src, ptrs, k, left, sp, dst, nomem, placed) != Fail(E2BIG)
  {
    if k > 0 && CString(src, ptrs[k - 1] as int).Some? {
      var s := CString(src, ptrs[k - 1] as int).value;
      var len := |s| + 1;
      assert LenAt(src, ptrs, k - 1) == len;
      var at := SubU32(sp, Reserve(len));
      if left - len >= 0 && k - 1 !in nomem && Mapped(dst, at as int, len) {
        PlaceWithin(src, ptrs, k - 1, left - len, at, Write(dst, at as int, s + [0]), nomem, [at] + placed);
      }
    }
  }

  /** An E2BIG refusal means some last strings, all readable, overdraw
      the budget. */
  lemma {:induction false} PlaceRefused(src: Mem, ptrs: seq<u32>, k: nat, left: int, sp: u32, dst: Mem,
                                        nomem: set<nat>, placed: seq<u32>)
    requires UserMemory(src) && k <= |ptrs|
    requires PlaceStrings(src, ptrs, k, left, sp, dst, nomem, placed) == Fail(E2BIG)
    decreases k
    ensures exists j :: && 0 <= j < k
                        && (forall i :: j <= i < k ==> CString(src, ptrs[i] as int).Some?)
                        && StringsLen(src, ptrs, k) - StringsLen(src, ptrs, j) > left
  {
    var s := CString(src, ptrs[k - 1] as int).value;
    var len := |s| + 1;
    assert LenAt(src, ptrs, k - 1) == len;
    var at := SubU32(sp, Reserve(len));
    if left - len < 0 {
      assert StringsLen(src, ptrs, k) - StringsLen(src, ptrs, k - 1) > left;
    } else {
      PlaceRefused(src, ptrs, k - 1, left - len, at, Write(dst, at as int, s + [0]), nomem, [at] + placed);
      var j :| && 0 <= j < k - 1
               && (forall i :: j <= i < k - 1 ==> CString(src, ptrs[i] as int).Some?)
               && StringsLen(src, ptrs, k - 1) - StringsLen(src, ptrs, j) > left - len;
      assert forall i :: j <= i < k ==> CString(src, ptrs[i] as int).Some?;
    }
  }

  /** The same for the whole marshalling: E2BIG is returned only when the
      vector is readable and some of its last strings, all readable, total
      more than ARG_MAX bytes; a readable vector of readable strings within
      ARG_MAX is never refused with E2BIG. */
  lemma MarshalBudget(src: Mem, args: u32, dst: Mem, top: u32, nomem: set<nat>)
    requires UserMemory(src)
    ensures var v := ArgPtrs(src, args as int);
            v.Some? && (forall i :: 0 <= i < |v.value| ==> CString(src, v.value[i] as int).Some?) &&
            StringsLen(src, v.value, |v.value|) <= ARG_MAX ==>
              MarshalSpec(src, args, dst, top, nomem) != Fail(E2BIG)
    ensures MarshalSpec(src, args, dst, top, nomem) == Fail(E2BIG) ==>
              && ArgPtrs(src, args as int).Some?
              && var ptrs := ArgPtrs(src, args as int).value;
                 exists j :: && 0 <= j < |ptrs|
                             && (forall i :: j <= i < |ptrs| ==> CString(src, ptrs[i] as int).Some?)
                             && StringsLen(src, ptrs, |ptrs|) - StringsLen(src, ptrs, j) > ARG_MAX
  {
    if ArgPtrs(src, args as int).Some? {
      var ptrs := ArgPtrs(src, args as int).value;
      PlaceOverdraw(src, ptrs, |ptrs|, ARG_MAX, top, dst, nomem, []);
    }
  }

  /** The string loop, when it completes, has put the last string it
      placed in the slot right below `sp`. */
  lemma PlaceLast(src: Mem, ptrs: seq<u32>, k: nat, left: int, sp: u32, dst: Mem,
                  nomem: set<nat>, placed: seq<u32>)
    requires UserMemory(src) && UserMemory(dst) && 0 < k <= |ptrs| && left <= ARG_MAX
    requires PlaceStrings(src, ptrs, k, left, sp, dst, nomem, placed).Done?
    ensures var r := PlaceStrings(src, ptrs, k, left, sp, dst, nomem, placed);
            |r.addrs| == k + |placed| && r.addrs[k - 1] as int + Reserve(LenAt(src, ptrs, k - 1)) == sp as int
  {
    var len, at, dst' := PlaceStep(src, ptrs, k, left, sp, dst, nomem, placed);
    PlaceAddrs(src, ptrs, k - 1, left - len, at, dst', nomem, [at] + placed);
    var r := PlaceStrings(src, ptrs, k, left, sp, dst, nomem, placed);
    assert r.addrs[k - 1] == r.addrs[k - 1..][0];
  }

  /** The string loop, when it completes, has put each string in a slot
      of its rounded length right below the next one. */
  lemma {:induction false} PlaceAdjacent(src: Mem, ptrs: seq<u32>, k: nat, left: int, sp: u32, dst: Mem,
                                         nomem: set<nat>, placed: seq<u32>)
    requires UserMemory(src) && UserMemory(dst) && k <= |ptrs| && left <= ARG_MAX
    requires PlaceStrings(src, ptrs, k, left, sp, dst, nomem, placed).Done?
    decreases k
    ensures var r := PlaceStrings(src, ptrs, k, left, sp, dst, nomem, placed);
            |r.addrs| == k + |placed| &&
            forall i :: 0 <= i < k - 1 ==> r.addrs[i] as int + Reserve(LenAt(src, ptrs, i)) == r.addrs[i + 1] as int
  {
    PlaceAddrs(src, ptrs, k, left, sp, dst, nomem, placed);
    if k > 1 {
      var len, at, dst' := PlaceStep(src, ptrs, k, left, sp, dst, nomem, placed);
      PlaceAdjacent(src, ptrs, k - 1, left - len, at, dst', nomem, [at] + placed);
      PlaceLast(src, ptrs, k - 1, left - len, at, dst', nomem, [at] + placed);
      PlaceLast(src, ptrs, k, left, sp, dst, nomem, placed);
    }
  }

  /** The string loop, when it completes, maps nothing new, leaves memory
      from `sp` up as it was and ends with a stack pointer no higher than
      `sp` and no higher than any string it placed. */
  lemma {:induction false} PlaceFrame(src: Mem, ptrs: seq<u32>, k: nat, left: int, sp: u32, dst: Mem,
                                      nomem: set<nat>, placed: seq<u32>)
    requires UserMemory(src) && UserMemory(dst) && k <= |ptrs| && left <= ARG_MAX
    requires PlaceStrings(src, ptrs, k, left, sp, dst, nomem, placed).Done?
    decreases k
    ensures var r := PlaceStrings(src, ptrs, k, left, sp, dst, nomem, placed);
            && |r.addrs| == k + |placed| && r.sp <= sp
            && r.mem.Keys == dst.Keys
            && (forall x :: x in dst && x >= sp as int ==> r.mem[x] == dst[x])
            && (forall i :: 0 <= i < k ==> r.sp <= r.addrs[i])
  {
    PlaceAddrs(src, ptrs, k, left, sp, dst, nomem, placed);
    if k > 0 {
      var len, at, dst' := PlaceStep(src, ptrs, k, left, sp, dst, nomem, placed);
      PlaceFrame(src, ptrs, k - 1, left - len, at, dst', nomem, [at] + placed);
      PlaceLast(src, ptrs, k, left, sp, dst, nomem, placed);
      var s := CString(src, ptrs[k - 1] as int).value;
      WriteSpec(dst, at as int, s + [0]);
      var r := PlaceStrings(src, ptrs, k, left, sp, dst, nomem, placed);
      assert r.addrs[k - 1] == at;
      forall x | x in dst && x >= sp as int
        ensures r.mem[x] == dst[x]
      {
        assert r.mem[x] == dst'[x];
      }
    }
  }

  /** The string loop, when it completes, has stored string `i` with its
      NUL at its new address. */
  lemma {:induction false} PlaceContent(src: Mem, ptrs: seq<u32>, k: nat, left: int, sp: u32, dst: Mem,
                                        nomem: set<nat>, placed: seq<u32>, i: nat)
    requires UserMemory(src) && UserMemory(dst) && i < k <= |ptrs| && left <= ARG_MAX
    requires PlaceStrings(src, ptrs, k, left, sp, dst, nomem, placed).Done?
    decreases k
    ensures var r := PlaceStrings(src, ptrs, k, left, sp, dst, nomem, placed);
            && |r.addrs| == k + |placed|
            && CString(src, ptrs[i] as int).Some?
            && StringAt(r.mem, r.addrs[i] as int, CString(src, ptrs[i] as int).value)
  {
    PlaceAddrs(src, ptrs, k, left, sp, dst, nomem, placed);
    var len, at, dst' := PlaceStep(src, ptrs, k, left, sp, dst, nomem, placed);
    var r := PlaceStrings(src, ptrs, k, left, sp, dst, nomem, placed);
    if i < k - 1 {
      PlaceContent(src, ptrs, k - 1, left - len, at, dst', nomem, [at] + placed, i);
    } else {
      PlaceFrame(src, ptrs, k - 1, left - len, at, dst', nomem, [at] + placed);
      PlaceLast(src, ptrs, k, left, sp, dst, nomem, placed);
      var s := CString(src, ptrs[k - 1] as int).value;
      WriteString(dst, at as int, s);
      assert r.addrs[k - 1] == at;
      StringAtKept(dst', r.mem, at as int, at as int, s);
    }
  }

  /** Slot `j` of an argv at `argv`. */
  function Slot(argv: u32, j: int): int
  {
    argv as int + PTR_SIZE * j
  }

  /** The argv loop, when every slot is mapped and the slots do not run
      past the top of the address range, maps no new address and changes
      nothing outside slots `i..`. */
  lemma {:induction false} StoreArgvFrame(dst: Mem, argv: u32, addrs: seq<u32>, i: nat)
    requires i <= |addrs| && StoreArgv(dst, argv, addrs, i).Some?
    requires Slot(argv, |addrs|) <= U32
    decreases |addrs| - i
    ensures var m := StoreArgv(dst, argv, addrs, i).value;
            && m.Keys == dst.Keys
            && (forall x :: x in dst && !(Slot(argv, i) <= x < Slot(argv, |addrs|)) ==> m[x] == dst[x])
  {
    if i < |addrs| {
      var at := AddrAt(argv, PTR_SIZE * i);
      assert at == Slot(argv, i);
      var dst1 := Write(dst, at, EncodeWord(addrs[i]));
      WriteSpec(dst, at, EncodeWord(addrs[i]));
      WriteKeepsDomain(dst, at, EncodeWord(addrs[i]));
      StoreArgvFrame(dst1, argv, addrs, i + 1);
      assert Slot(argv, i + 1) == at + 4;
    }
  }

  /** ... and has stored pointer `j` of `addrs` in slot `j`. */
  lemma {:induction false} StoreArgvContent(dst: Mem, argv: u32, addrs: seq<u32>, i: nat)
    requires i <= |addrs| && StoreArgv(dst, argv, addrs, i).Some?
    requires Slot(argv, |addrs|) <= U32
    decreases |addrs| - i
    ensures var m := StoreArgv(dst, argv, addrs, i).value;
            forall j :: i <= j < |addrs| ==> WordAt(m, Slot(argv, j)) == Some(addrs[j])
  {
    if i < |addrs| {
      var at := AddrAt(argv, PTR_SIZE * i);
      assert at == Slot(argv, i);
      var dst1 := Write(dst, at, EncodeWord(addrs[i]));
      WordWrite(dst, at, addrs[i]);
      StoreArgvContent(dst1, argv, addrs, i + 1);
      StoreArgvFrame(dst1, argv, addrs, i + 1);
      var m := StoreArgv(dst, argv, addrs, i).value;
      assert m == StoreArgv(dst1, argv, addrs, i + 1).value;
      assert Slot(argv, i + 1) == at + 4;
      WriteKeepsDomain(dst, at, EncodeWord(addrs[i]));
      assert m[at] == dst1[at] && m[at + 1] == dst1[at + 1] && m[at + 2] == dst1[at + 2] && m[at + 3] == dst1[at + 3];
      assert WordAt(m, at) == WordAt(dst1, at);
    }
  }

  /** From a pointer-aligned `sp`, the string loop places every string at
      a pointer-aligned address. */
  lemma {:induction false} PlaceAligned(src: Mem, ptrs: seq<u32>, k: nat, left: int, sp: u32, dst: Mem,
                                        nomem: set<nat>, placed: seq<u32>)
    requires UserMemory(src) && UserMemory(dst) && k <= |ptrs| && left <= ARG_MAX
    requires PlaceStrings(src, ptrs, k, left, sp, dst, nomem, placed).Done?
    requires sp as int % PTR_SIZE == 0
    decreases k
    ensures var r := PlaceStrings(src, ptrs, k, left, sp, dst, nomem, placed);
            |r.addrs| == k + |placed| && forall i :: 0 <= i < k ==> r.addrs[i] as int % PTR_SIZE == 0
  {
    PlaceAddrs(src, ptrs, k, left, sp, dst, nomem, placed);
    if k > 0 {
      var len, at, dst' := PlaceStep(src, ptrs, k, left, sp, dst, nomem, placed);
      AlignedBelow(sp as int, Reserve(len));
      PlaceAligned(src, ptrs, k - 1, left - len, at, dst', nomem, [at] + placed);
      PlaceLast(src, ptrs, k, left, sp, dst, nomem, placed);
      var r := PlaceStrings(src, ptrs, k, left, sp, dst, nomem, placed);
      assert r.addrs[k - 1] == at;
      forall i | 0 <= i < k
        ensures r.addrs[i] as int % PTR_SIZE == 0
      {
        if i == k - 1 {
          assert r.addrs[i] == at;
        }
      }
    }
  }

  lemma AlignedBelow(a: int, b: int)
    requires a % PTR_SIZE == 0 && b % PTR_SIZE == 0
    ensures (a - b) % PTR_SIZE == 0
  {
    assert a == a / PTR_SIZE * PTR_SIZE && b == b / PTR_SIZE * PTR_SIZE;
    assert a - b == (a / PTR_SIZE - b / PTR_SIZE) * PTR_SIZE;
  }

  /** Readable strings are at least one byte each, with their NULs. */
  lemma {:induction false} StringsLenCount(src: Mem, ptrs: seq<u32>, k: nat)
    requires UserMemory(src) && k <= |ptrs|
    requires forall i :: 0 <= i < k ==> CString(src, ptrs[i] as int).Some?
    decreases k
    ensures StringsLen(src, ptrs, k) >= k
  {
    if k > 0 {
      StringsLenCount(src, ptrs, k - 1);
      assert CString(src, ptrs[k - 1] as int).Some?;
    }
  }

  /** The NULL after the last pointer is there whenever its slot is
      mapped, and nothing else changes. */
  lemma StoreNullContent(dst: Mem, argv: u32, argc: nat)
    requires Slot(argv, argc + 1) <= U32
    ensures var m := StoreNull(dst, argv, argc);
            && m.Keys == dst.Keys
            && (WordMapped(m, Slot(argv, argc)) ==> WordAt(m, Slot(argv, argc)) == Some(0))
            && (forall j :: 0 <= j < argc ==> WordAt(m, Slot(argv, j)) == WordAt(dst, Slot(argv, j)))
            && (forall x :: x in dst && !(Slot(argv, argc) <= x < Slot(argv, argc + 1)) ==> m[x] == dst[x])
  {
    var at := AddrAt(argv, PTR_SIZE * argc);
    assert at == Slot(argv, argc);
    WordMappedIsMapped(dst, at);
    if Mapped(dst, at, PTR_SIZE) {
      WriteSpec(dst, at, EncodeWord(0));
      WriteKeepsDomain(dst, at, EncodeWord(0));
      WordWrite(dst, at, 0);
      var m := StoreNull(dst, argv, argc);
      forall j | 0 <= j < argc
        ensures WordAt(m, Slot(argv, j)) == WordAt(dst, Slot(argv, j))
      {
        var b := Slot(argv, j);
        assert b + 3 < at;
        assert b in m <==> b in dst;
        assert b + 1 in m <==> b + 1 in dst;
        assert b + 2 in m <==> b + 2 in dst;
        assert b + 3 in m <==> b + 3 in dst;
      }
    }
  }

  /** An argv whose first slot is stored is mapped. */
  lemma StoreArgvFirst(dst: Mem, argv: u32, addrs: seq<u32>)
    requires |addrs| > 0 && StoreArgv(dst, argv, addrs, 0).Some?
    ensures argv as int in dst
  {
    assert AddrAt(argv, PTR_SIZE * 0) == argv as int;
  }

  /** Moving down by a bounded amount onto a mapped user address did not
      wrap around. */
  lemma SubNoWrap(mem: Mem, x: u32, n: nat)
    requires UserMemory(mem) && n <= PTR_SIZE * (ARG_MAX + 1) && SubU32(x, n) as int in mem
    ensures SubU32(x, n) as int == x as int - n
  {
  }

  /** A completed marshalling with at least one argument did not wrap:
      argv sits `argc + 1` slots below the first string. */
  lemma ArgvNoWrap(src: Mem, ptrs: seq<u32>, dst: Mem, top: u32, nomem: set<nat>)
    requires UserMemory(src) && UserMemory(dst) && |ptrs| > 0
    requires PlaceStrings(src, ptrs, |ptrs|, ARG_MAX, top, dst, nomem, []).Done?
    requires var r := PlaceStrings(src, ptrs, |ptrs|, ARG_MAX, top, dst, nomem, []);
             StoreArgv(r.mem, SubU32(r.sp, PTR_SIZE * (|ptrs| + 1)), r.addrs, 0).Some?
    ensures var r := PlaceStrings(src, ptrs, |ptrs|, ARG_MAX, top, dst, nomem, []);
            && |r.addrs| == |ptrs| && r.sp == r.addrs[0]
            && SubU32(r.sp, PTR_SIZE * (|ptrs| + 1)) as int == r.sp as int - PTR_SIZE * (|ptrs| + 1)
  {
    var r := PlaceStrings(src, ptrs, |ptrs|, ARG_MAX, top, dst, nomem, []);
    PlaceAddrs(src, ptrs, |ptrs|, ARG_MAX, top, dst, nomem, []);
    PlaceFrame(src, ptrs, |ptrs|, ARG_MAX, top, dst, nomem, []);
    PlaceBudget(src, ptrs, |ptrs|, ARG_MAX, top, dst, nomem, []);
    StringsLenCount(src, ptrs, |ptrs|);
    StoreArgvFirst(r.mem, SubU32(r.sp, PTR_SIZE * (|ptrs| + 1)), r.addrs);
    SubNoWrap(dst, r.sp, PTR_SIZE * (|ptrs| + 1));
  }

  /** A completed marshalling stores argv right below the strings:
      slot `j` holds the new address of string `j`, the slot after the
      last holds NULL whenever it is mapped, and no address is mapped that
      was not mapped before. */
  lemma MarshalArgv(src: Mem, args: u32, dst: Mem, top: u32, nomem: set<nat>)
    requires UserMemory(src) && UserMemory(dst)
    requires MarshalSpec(src, args, dst, top, nomem).Done?
    ensures ArgPtrs(src, args as int).Some?
    ensures var argc := |ArgPtrs(src, args as int).value|;
            var m := MarshalSpec(src, args, dst, top, nomem);
            && |m.addrs| == argc && m.mem.Keys == dst.Keys
            && (argc > 0 ==> Slot(m.sp, argc + 1) == m.addrs[0] as int)
            && (forall j :: 0 <= j < argc ==> WordAt(m.mem, Slot(m.sp, j)) == Some(m.addrs[j]))
            && (WordMapped(m.mem, Slot(m.sp, argc)) ==> WordAt(m.mem, Slot(m.sp, argc)) == Some(0))
  {
    var ptrs := ArgPtrs(src, args as int).value;
    var argc := |ptrs|;
    var r := PlaceStrings(src, ptrs, argc, ARG_MAX, top, dst, nomem, []);
    PlaceFrame(src, ptrs, argc, ARG_MAX, top, dst, nomem, []);
    var argv := SubU32(r.sp, PTR_SIZE * (argc + 1));
    var mem' := StoreArgv(r.mem, argv, r.addrs, 0).value;
    var m := MarshalSpec(src, args, dst, top, nomem);
    assert m == Done(argv, r.addrs, StoreNull(mem', argv, argc));
    if argc > 0 {
      ArgvNoWrap(src, ptrs, dst, top, nomem);
      StoreArgvContent(r.mem, argv, r.addrs, 0);
      StoreArgvFrame(r.mem, argv, r.addrs, 0);
      StoreNullContent(mem', argv, argc);
    } else {
      assert mem' == r.mem;
      if WordMapped(m.mem, Slot(argv, 0)) {
        assert Slot(argv, 0) in dst;
        StoreNullContent(mem', argv, argc);
      } else {
        assert m.mem.Keys == dst.Keys by {
          if Slot(argv, 1) <= U32 {
            StoreNullContent(mem', argv, argc);
          } else {
            assert AddrAt(argv, PTR_SIZE * 0) == argv as int;
            assert argv as int !in mem';
          }
        }
      }
    }
  }

  /** A completed marshalling writes argv only below the final stack
      pointer of the string loop. */
  lemma MarshalFrame(src: Mem, args: u32, dst: Mem, top: u32, nomem: set<nat>)
    requires UserMemory(src) && UserMemory(dst)
    requires MarshalSpec(src, args, dst, top, nomem).Done?
    ensures ArgPtrs(src, args as int).Some?
    ensures var ptrs := ArgPtrs(src, args as int).value;
            var r := PlaceStrings(src, ptrs, |ptrs|, ARG_MAX, top, dst, nomem, []);
            var m := MarshalSpec(src, args, dst, top, nomem);
            && r.Done? && m.addrs == r.addrs && m.mem.Keys == r.mem.Keys
            && (|ptrs| > 0 ==> forall x :: x in r.mem && x >= r.sp as int ==> m.mem[x] == r.mem[x])
  {
    var ptrs := ArgPtrs(src, args as int).value;
    var argc := |ptrs|;
    var r := PlaceStrings(src, ptrs, argc, ARG_MAX, top, dst, nomem, []);
    PlaceFrame(src, ptrs, argc, ARG_MAX, top, dst, nomem, []);
    MarshalArgv(src, args, dst, top, nomem);
    if argc > 0 {
      var argv := SubU32(r.sp, PTR_SIZE * (argc + 1));
      var mem' := StoreArgv(r.mem, argv, r.addrs, 0).value;
      ArgvNoWrap(src, ptrs, dst, top, nomem);
      StoreArgvContent(r.mem, argv, r.addrs, 0);
      StoreArgvFrame(r.mem, argv, r.addrs, 0);
      StoreNullContent(mem', argv, argc);
    }
  }

  /** A completed marshalling has read every string of the vector within
      the `ARG_MAX` budget, and the new process finds each of them, the
      same bytes, at its new address. */
  lemma MarshalStrings(src: Mem, args: u32, dst: Mem, top: u32, nomem: set<nat>)
    requires UserMemory(src) && UserMemory(dst)
    requires MarshalSpec(src, args, dst, top, nomem).Done?
    ensures ArgPtrs(src, args as int).Some?
    ensures var ptrs := ArgPtrs(src, args as int).value;
            var m := MarshalSpec(src, args, dst, top, nomem);
            && |m.addrs| == |ptrs| && UserMemory(m.mem)
            && StringsLen(src, ptrs, |ptrs|) <= ARG_MAX
            && forall i :: 0 <= i < |ptrs| ==>
                 CString(src, ptrs[i] as int).Some? && CString(m.mem, m.addrs[i] as int) == CString(src, ptrs[i] as int)
  {
    var ptrs := ArgPtrs(src, args as int).value;
    var argc := |ptrs|;
    var r := PlaceStrings(src, ptrs, argc, ARG_MAX, top, dst, nomem, []);
    var m := MarshalSpec(src, args, dst, top, nomem);
    PlaceBudget(src, ptrs, argc, ARG_MAX, top, dst, nomem, []);
    PlaceFrame(src, ptrs, argc, ARG_MAX, top, dst, nomem, []);
    MarshalFrame(src, args, dst, top, nomem);
    assert UserMemory(m.mem) by {
      assert forall a :: a in m.mem ==> a in dst;
    }
    forall i | 0 <= i < argc
      ensures CString(m.mem, m.addrs[i] as int) == CString(src, ptrs[i] as int)
    {
      CStringSpec(src, ptrs[i] as int);
      PlaceContent(src, ptrs, argc, ARG_MAX, top, dst, nomem, [], i);
      StringKept(r.mem, m.mem, r.sp as int, r.addrs[i] as int, CString(src, ptrs[i] as int).value);
    }
  }

  /** Moving an aligned 32-bit pointer down by an aligned amount keeps it
      aligned, wrap-around included. */
  lemma SubAligned(x: u32, k: nat)
    requires x as int % PTR_SIZE == 0
    ensures SubU32(x, PTR_SIZE * k) as int % PTR_SIZE == 0
  {
    var a := x as int / PTR_SIZE;
    var d := x as int - PTR_SIZE * k;
    var q := d / U32;
    assert SubU32(x, PTR_SIZE * k) as int == d - q * U32;
    DivUnique(d - q * U32, PTR_SIZE, a - k - q * 0x4000_0000, 0);
  }

  /** The layout of a completed marshalling: string `i` sits in a slot of
      its rounded length right below string `i + 1`, the last string right
      below `top`, and argv right below the first string. */
  lemma MarshalLayout(src: Mem, args: u32, dst: Mem, top: u32, nomem: set<nat>)
    requires UserMemory(src) && UserMemory(dst)
    requires MarshalSpec(src, args, dst, top, nomem).Done?
    ensures ArgPtrs(src, args as int).Some?
    ensures var ptrs := ArgPtrs(src, args as int).value;
            var argc := |ptrs|;
            var m := MarshalSpec(src, args, dst, top, nomem);
            && |m.addrs| == argc
            && (argc > 0 ==> m.addrs[argc - 1] as int + Reserve(LenAt(src, ptrs, argc - 1)) == top as int)
            && (forall i :: 0 <= i < argc - 1 ==>
                  m.addrs[i] as int + Reserve(LenAt(src, ptrs, i)) == m.addrs[i + 1] as int)
            && (argc > 0 ==> Slot(m.sp, argc + 1) == m.addrs[0] as int)
  {
    var ptrs := ArgPtrs(src, args as int).value;
    var argc := |ptrs|;
    MarshalArgv(src, args, dst, top, nomem);
    PlaceAdjacent(src, ptrs, argc, ARG_MAX, top, dst, nomem, []);
    if argc > 0 {
      PlaceLast(src, ptrs, argc, ARG_MAX, top, dst, nomem, []);
    }
  }

  /** From a pointer-aligned `top`, a completed marshalling leaves every
      string address and argv pointer-aligned. */
  lemma MarshalAligned(src: Mem, args: u32, dst: Mem, top: u32, nomem: set<nat>)
    requires UserMemory(src) && UserMemory(dst) && top as int % PTR_SIZE == 0
    requires MarshalSpec(src, args, dst, top, nomem).Done?
    ensures var m := MarshalSpec(src, args, dst, top, nomem);
            && m.sp as int % PTR_SIZE == 0
            && forall i :: 0 <= i < |m.addrs| ==> m.addrs[i] as int % PTR_SIZE == 0
  {
    var sp, addrs := MarshalShape(src, args, dst, top, nomem);
    SubAligned(sp, |addrs| + 1);
  }

  /** A completed marshalling hands on the string addresses of the string
      loop, with argv `argc + 1` slots below the last string placed. */
  lemma MarshalShape(src: Mem, args: u32, dst: Mem, top: u32, nomem: set<nat>) returns (sp: u32, addrs: seq<u32>)
    requires UserMemory(src) && UserMemory(dst) && top as int % PTR_SIZE == 0
    requires MarshalSpec(src, args, dst, top, nomem).Done?
    ensures var m := MarshalSpec(src, args, dst, top, nomem);
            && m.addrs == addrs && m.sp == SubU32(sp, PTR_SIZE * (|addrs| + 1))
    ensures sp as int % PTR_SIZE == 0 && forall i :: 0 <= i < |addrs| ==> addrs[i] as int % PTR_SIZE == 0
  {
    var ptrs := ArgPtrs(src, args as int).value;
    var r := PlaceStrings(src, ptrs, |ptrs|, ARG_MAX, top, dst, nomem, []);
    StringsAligned(src, ptrs, top, dst, nomem);
    PlaceAddrs(src, ptrs, |ptrs|, ARG_MAX, top, dst, nomem, []);
    sp, addrs := r.sp, r.addrs;
  }

  /** From a pointer-aligned `top`, a completed string loop leaves the
      stack pointer and every string address pointer-aligned. */
  lemma StringsAligned(src: Mem, ptrs: seq<u32>, top: u32, dst: Mem, nomem: set<nat>)
    requires UserMemory(src) && UserMemory(dst) && top as int % PTR_SIZE == 0
    requires PlaceStrings(src, ptrs, |ptrs|, ARG_MAX, top, dst, nomem, []).Done?
    ensures var r := PlaceStrings(src, ptrs, |ptrs|, ARG_MAX, top, dst, nomem, []);
            && r.sp as int % PTR_SIZE == 0
            && forall i :: 0 <= i < |r.addrs| ==> r.addrs[i] as int % PTR_SIZE == 0
  {
    var argc := |ptrs|;
    PlaceAddrs(src, ptrs, argc, ARG_MAX, top, dst, nomem, []);
    PlaceAligned(src, ptrs, argc, ARG_MAX, top, dst, nomem, []);
    var r := PlaceStrings(src, ptrs, argc, ARG_MAX, top, dst, nomem, []);
    if argc > 0 {
      assert r.sp == r.addrs[0];
    }
  }
}
