/** kern/syscall/runprogram.c: the older `sys_execv` compiled under
    OPT_EXECV and `runprogram`, which starts the first user program with
    the arguments typed at the kernel menu.

    Both place strings the same way: for argument 0 first, the stack
    pointer moves down by the string's length with its NUL and is then
    rounded down to a multiple of 4, so argument 0 sits highest.

    `sys_execv` reads the caller's vector and strings by dereferencing the
    user pointers directly (`args[argc]`, `strlen(args[i])`), so the model
    requires the vector to be readable user memory and every string pointer
    to name either a readable user string or a kernel address, which
    `strlen` reads and `copyinstr` then refuses. `kmalloc`, `vfs_open`, `as_create`,
    `load_elf` and `as_define_stack` are parameters holding their outcome;
    `copyout` and `copyoutstr` work on the address space's memory. */
module RunProgram {
  import opened Kern
  import opened Procs
  import opened UserMem
  import Execv

  const PTR_SIZE := Execv.PTR_SIZE

  /** `if (stackptr & 0x3) stackptr -= stackptr & 0x3`: round down to a
      multiple of 4. */
  function Down(x: u32): (r: u32)
    ensures r as int % 4 == 0 && x as int - 3 <= r as int <= x as int
    ensures x as int % 4 == 0 ==> r == x
  {
    if x % 4 != 0 then x - x % 4 else x
  }

  /** The stack pointer after strings `0..n` of `strs` have been placed
      from `top`; string `i` is placed at `StackAfter(strs, top, i + 1)`. */
  function StackAfter(strs: seq<seq<byte>>, top: u32, n: nat): u32
    requires n <= |strs|
  {
    if n == 0 then top else Down(SubU32(StackAfter(strs, top, n - 1), |strs[n - 1]| + 1))
  }

  /** The address of every string, argument 0 first. */
  function StringAddrs(strs: seq<seq<byte>>, top: u32): (addrs: seq<u32>)
    ensures |addrs| == |strs|
    ensures forall i :: 0 <= i < |strs| ==> addrs[i] == StackAfter(strs, top, i + 1)
  {
    seq(|strs|, i requires 0 <= i < |strs| => StackAfter(strs, top, i + 1))
  }

  /** `copyoutstr` of `s` and its NUL to `at`: None when it faults. */
  function CopyOutStr(mem: Mem, at: int, s: seq<byte>): (r: Option<Mem>)
    ensures r.Some? <==> Mapped(mem, at, |s| + 1)
  {
    if Mapped(mem, at, |s| + 1) then Some(Write(mem, at, s + [0])) else None
  }

  /** Reference for the string loop of `sys_execv`: strings `0..n` copied
      out in order; None once one copy faults. */
  function PlaceAll(mem: Mem, strs: seq<seq<byte>>, top: u32, n: nat): Option<Mem>
    requires n <= |strs|
  {
    if n == 0 then Some(mem)
    else match PlaceAll(mem, strs, top, n - 1)
      case None => None
      case Some(m) => CopyOutStr(m, StackAfter(strs, top, n) as int, strs[n - 1])
  }

  /** Reference for the string loop of `runprogram`: the same copies, a
      faulting one being skipped because its result is ignored. */
  function PlaceIgnoring(mem: Mem, strs: seq<seq<byte>>, top: u32, n: nat): Mem
    requires n <= |strs|
  {
    if n == 0 then mem
    else
      var m := PlaceIgnoring(mem, strs, top, n - 1);
      match CopyOutStr(m, StackAfter(strs, top, n) as int, strs[n - 1])
      case None => m
      case Some(m') => m'
  }

  /** One more iteration of the string loop. */
  lemma PlaceAllNext(mem: Mem, strs: seq<seq<byte>>, top: u32, i: nat, m: Mem)
    requires i < |strs| && PlaceAll(mem, strs, top, i) == Some(m)
    ensures PlaceAll(mem, strs, top, i + 1) == CopyOutStr(m, StackAfter(strs, top, i + 1) as int, strs[i])
  {
  }

  /** Once a copy faults the string loop has failed, however far it
      would have gone on. */
  lemma {:induction false} PlaceAllStaysFailed(mem: Mem, strs: seq<seq<byte>>, top: u32, n: nat, m: nat)
    requires n <= m <= |strs| && PlaceAll(mem, strs, top, n).None?
    decreases m
    ensures PlaceAll(mem, strs, top, m).None?
  {
    if m > n {
      PlaceAllStaysFailed(mem, strs, top, n, m - 1);
    }
  }

  /** The vector at `args` and every string it points to can be read. */
  predicate VectorReadable(mem: Mem, args: u32)
    requires UserMemory(mem)
  {
    && ArgPtrs(mem, args as int).Some?
    && Readable(mem, ArgPtrs(mem, args as int).value)
  }

  /** Every string the pointers name can be read. */
  predicate Readable(mem: Mem, ptrs: seq<u32>)
    requires UserMemory(mem)
  {
    forall i :: 0 <= i < |ptrs| ==> CString(mem, ptrs[i] as int).Some?
  }

  /** A kernel address, which `copyinstr` refuses with EFAULT. */
  predicate KernelAddr(ptr: u32)
  {
    ptr as int >= USERSPACETOP
  }

  /** What `strlen` can be applied to: a kernel address, or a user
      address holding a readable string. */
  predicate Measurable(mem: Mem, ptr: u32)
    requires UserMemory(mem)
  {
    KernelAddr(ptr) || CString(mem, ptr as int).Some?
  }

  /** The vector at `args` can be read and every string pointer in it can
      be measured. */
  predicate VectorMeasurable(mem: Mem, args: u32)
    requires UserMemory(mem)
  {
    && ArgPtrs(mem, args as int).Some?
    && AllMeasurable(mem, ArgPtrs(mem, args as int).value)
  }

  /** Every pointer can be measured. */
  predicate AllMeasurable(mem: Mem, ptrs: seq<u32>)
    requires UserMemory(mem)
  {
    forall i :: 0 <= i < |ptrs| ==> Measurable(mem, ptrs[i])
  }

  /** The error of the copy-in loop from string `i` on: ENOMEM at the
      first index in `nomem`, -EFAULT at the first kernel address,
      whichever comes first. */
  function StringsError(ptrs: seq<u32>, nomem: set<nat>, i: nat): Option<int>
    requires i <= |ptrs|
    decreases |ptrs| - i
  {
    if i == |ptrs| then None
    else if i in nomem then Some(ENOMEM)
    else if KernelAddr(ptrs[i]) then Some(-EFAULT)
    else StringsError(ptrs, nomem, i + 1)
  }

  /** The copy-in loop fails exactly when some string from `i` on has no
      buffer or is a kernel address, and then with the error of the first
      such string. */
  lemma {:induction false} StringsErrorSpec(ptrs: seq<u32>, nomem: set<nat>, i: nat)
    requires i <= |ptrs|
    decreases |ptrs| - i
    ensures StringsError(ptrs, nomem, i).None? <==>
              forall j :: i <= j < |ptrs| ==> j !in nomem && !KernelAddr(ptrs[j])
    ensures StringsError(ptrs, nomem, i).Some? ==>
              exists k :: && i <= k < |ptrs| && (k in nomem || KernelAddr(ptrs[k]))
                          && (forall j :: i <= j < k ==> j !in nomem && !KernelAddr(ptrs[j]))
                          && StringsError(ptrs, nomem, i) == Some(if k in nomem then ENOMEM else -EFAULT)
  {
    if i < |ptrs| && i !in nomem && !KernelAddr(ptrs[i]) {
      StringsErrorSpec(ptrs, nomem, i + 1);
    }
  }

  /** The kernel copies of the strings of a readable vector. */
  function UserStrings(mem: Mem, args: u32): (strs: seq<seq<byte>>)
    requires UserMemory(mem) && VectorReadable(mem, args)
    ensures |strs| == |ArgPtrs(mem, args as int).value|
    ensures forall i :: 0 <= i < |strs| ==>
              Some(strs[i]) == CString(mem, ArgPtrs(mem, args as int).value[i] as int)
  {
    var ptrs := ArgPtrs(mem, args as int).value;
    seq(|ptrs|, i requires 0 <= i < |ptrs| => CString(mem, ptrs[i] as int).value)
  }

  /** `for (argc = 0; args[argc] != NULL; argc++);` on a readable vector:
      the number of pointers before the NULL. */
  method CountVector(mem: Mem, args: u32) returns (argc: nat)
    requires UserMemory(mem) && ArgPtrs(mem, args as int).Some?
    ensures argc == |ArgPtrs(mem, args as int).value|
  {
    argc := 0;
    ghost var seen: seq<u32> := [];
    PrependNil(ArgPtrs(mem, args as int));
    while WordAt(mem, args as int + 4 * argc).value != 0
      invariant |seen| == argc
      invariant ArgPtrs(mem, args as int) == Prepend(seen, ArgPtrs(mem, args as int + 4 * argc))
      decreases USERSPACETOP - (args as int + 4 * argc)
    {
      var at := args as int + 4 * argc;
      var w := WordAt(mem, at).value;
      assert at in mem;
      assert ArgPtrs(mem, at) == Prepend([w], ArgPtrs(mem, at + 4));
      PrependTwice(seen, [w], ArgPtrs(mem, at + 4));
      seen := seen + [w];
      argc := argc + 1;
      assert at + 4 == args as int + 4 * argc;
    }
    assert ArgPtrs(mem, args as int + 4 * argc) == Some([]);
    assert seen + [] == seen;
  }

  /** The copy-in loop of `sys_execv`: for each argument, `kmalloc` a
      buffer (failing for the indices in `nomem`) and `copyinstr` the
      string, which fails for a kernel address. It fails as
      `StringsError` says, and otherwise every string was a readable user
      string and the loop yields them all. */
  method CopyInStrings(mem: Mem, args: u32, argc: nat, nomem: set<nat>)
    returns (kargs: seq<seq<byte>>, err: Option<int>)
    requires UserMemory(mem) && VectorMeasurable(mem, args) && argc == |ArgPtrs(mem, args as int).value|
    ensures err == StringsError(ArgPtrs(mem, args as int).value, nomem, 0)
    ensures err.None? ==> VectorReadable(mem, args) && kargs == UserStrings(mem, args)
  {
    ghost var ptrs := ArgPtrs(mem, args as int).value;
    kargs := [];
    var i := 0;
    while i < argc
      invariant 0 <= i <= argc && |kargs| == i
      invariant StringsError(ptrs, nomem, 0) == StringsError(ptrs, nomem, i)
      invariant forall j :: 0 <= j < i ==> CString(mem, ptrs[j] as int) == Some(kargs[j])
    {
      if i in nomem {
        return kargs, Some(ENOMEM);
      }
      ArgPtrAt(mem, args as int, i);
      var ptr := WordAt(mem, args as int + 4 * i).value;
      if ptr as int >= USERSPACETOP {
        // copyinstr refuses a kernel address
        return kargs, Some(-EFAULT);
      }
      var s := CString(mem, ptr as int).value;
      kargs := kargs + [s];
      i := i + 1;
    }
    return kargs, None;
  }

  /** The string loop of `sys_execv`: string `i` is copied out at
      `StackAfter(kargs, top, i + 1)` and its address recorded in
      `uargs[i]`; a faulting `copyoutstr` ends the loop. */
  method PlaceKernelStrings(dst: AddrSpace, kargs: seq<seq<byte>>, top: u32)
    returns (ok: bool, sp: u32, uargs: seq<u32>)
    modifies dst
    ensures ok <==> PlaceAll(old(dst.mem), kargs, top, |kargs|).Some?
    ensures ok ==> && dst.mem == PlaceAll(old(dst.mem), kargs, top, |kargs|).value
                   && sp == StackAfter(kargs, top, |kargs|)
                   && uargs == StringAddrs(kargs, top)
    ensures dst.destroyed == old(dst.destroyed)
  {
    ok, sp, uargs := true, top, [];
    var i := 0;
    while i < |kargs|
      invariant 0 <= i <= |kargs| && |uargs| == i
      invariant dst.destroyed == old(dst.destroyed)
      invariant PlaceAll(old(dst.mem), kargs, top, i) == Some(dst.mem)
      invariant sp == StackAfter(kargs, top, i)
      invariant forall j :: 0 <= j < i ==> uargs[j] == StackAfter(kargs, top, j + 1)
    {
      var length := |kargs[i]| + 1;
      sp := SubU32(sp, length);
      if sp % 4 != 0 {
        sp := sp - sp % 4;
      }
      var copied := CopyOutStr(dst.mem, sp as int, kargs[i]);
      PlaceAllNext(old(dst.mem), kargs, top, i, dst.mem);
      if copied.None? {
        PlaceAllStaysFailed(old(dst.mem), kargs, top, i + 1, |kargs|);
        ok := false;
        break;
      }
      dst.mem := copied.value;
      uargs := uargs + [sp];
      i := i + 1;
    }
  }

  /** Room the first `n` strings may take below the top: each its length
      with the NUL and at most 3 bytes of alignment. */
  function Footprint(strs: seq<seq<byte>>, n: nat): (f: nat)
    requires n <= |strs|
    ensures f >= 4 * n
  {
    if n == 0 then 0 else Footprint(strs, n - 1) + |strs[n - 1]| + 4
  }

  /** With room below the top, each string with its NUL ends at or below
      the stack pointer before it, and the stack pointer falls by at most
      the footprint. */
  lemma {:induction false} StackDescends(strs: seq<seq<byte>>, top: u32, n: nat)
    requires n <= |strs| && Footprint(strs, n) <= top as int
    ensures top as int - Footprint(strs, n) <= StackAfter(strs, top, n) as int <= top as int
    ensures forall i :: 0 <= i < n ==> Fits(strs, top, i)
  {
    if n > 0 {
      var f := Footprint(strs, n - 1);
      assert Footprint(strs, n) == f + |strs[n - 1]| + 4;
      StackDescends(strs, top, n - 1);
      assert top as int - f <= StackAfter(strs, top, n - 1) as int;
      StackStep(strs, top, n - 1);
    }
  }

  /** String `i` with its NUL ends at or below the stack pointer before
      it. */
  predicate Fits(strs: seq<seq<byte>>, top: u32, i: nat)
    requires i < |strs|
  {
    StackAfter(strs, top, i + 1) as int + |strs[i]| + 1 <= StackAfter(strs, top, i) as int
  }

  /** One string placed below a stack pointer that has room for it. */
  lemma StackStep(strs: seq<seq<byte>>, top: u32, k: nat)
    requires k < |strs| && |strs[k]| + 1 <= StackAfter(strs, top, k) as int
    ensures StackAfter(strs, top, k) as int - (|strs[k]| + 4) <= StackAfter(strs, top, k + 1) as int
    ensures StackAfter(strs, top, k + 1) as int + |strs[k]| + 1 <= StackAfter(strs, top, k) as int
  {
    var s := StackAfter(strs, top, k);
    assert SubU32(s, |strs[k]| + 1) as int == s as int - (|strs[k]| + 1);
  }

  /** Strings placed later sit lower: the stack pointer never rises. */
  lemma {:induction false} StackBelow(strs: seq<seq<byte>>, top: u32, n: nat, i: nat, j: nat)
    requires i <= j <= n <= |strs| && Footprint(strs, n) <= top as int
    decreases j - i
    ensures StackAfter(strs, top, j) <= StackAfter(strs, top, i)
  {
    if i < j {
      StackDescends(strs, top, n);
      assert Fits(strs, top, i);
      StackBelow(strs, top, n, i + 1, j);
    }
  }

  /** A completed string loop maps nothing new. */
  lemma {:induction false} PlaceAllKeys(mem: Mem, strs: seq<seq<byte>>, top: u32, n: nat)
    requires n <= |strs| && PlaceAll(mem, strs, top, n).Some?
    ensures PlaceAll(mem, strs, top, n).value.Keys == mem.Keys
  {
    if n > 0 {
      PlaceAllKeys(mem, strs, top, n - 1);
      var m := PlaceAll(mem, strs, top, n - 1).value;
      WriteKeepsDomain(m, StackAfter(strs, top, n) as int, strs[n - 1] + [0]);
    }
  }

  /** With room below the top, after the string loop string `i` is stored
      at its recorded address `StackAfter(strs, top, i + 1)`: no later
      string overwrites it. */
  lemma {:induction false} PlaceAllStrings(mem: Mem, strs: seq<seq<byte>>, top: u32, n: nat, i: nat)
    requires i < n <= |strs| && Footprint(strs, n) <= top as int
    requires PlaceAll(mem, strs, top, n).Some?
    ensures StringAt(PlaceAll(mem, strs, top, n).value, StackAfter(strs, top, i + 1) as int, strs[i])
  {
    var m' := PlaceAll(mem, strs, top, n - 1).value;
    var at := StackAfter(strs, top, n) as int;
    var m := Write(m', at, strs[n - 1] + [0]);
    assert PlaceAll(mem, strs, top, n).value == m;
    if i == n - 1 {
      WriteString(m', at, strs[n - 1]);
    } else {
      PlaceAllStrings(mem, strs, top, n - 1, i);
      StackDescends(strs, top, n);
      assert Fits(strs, top, n - 1);
      StackBelow(strs, top, n, i + 1, n - 1);
      WriteSpec(m', at, strs[n - 1] + [0]);
      WriteKeepsDomain(m', at, strs[n - 1] + [0]);
      StringAtKept(m', m, StackAfter(strs, top, n - 1) as int, StackAfter(strs, top, i + 1) as int, strs[i]);
    }
  }

  /** `copyout` of 4 bytes whose source is the user address `from`, read
      through the kernel, to the user address `to`; None when either
      faults. */
  function CopyWord(mem: Mem, from: int, to: int): Option<Mem>
  {
    if WordMapped(mem, from) && WordMapped(mem, to)
    then Some(mem[to := mem[from]][to + 1 := mem[from + 1]][to + 2 := mem[from + 2]][to + 3 := mem[from + 3]])
    else None
  }

  /** Reference for the pointer loop of `sys_execv` as written, from
      iteration `i` on: iteration `i` passes `uargs[argc - (i + 1)]` as the
      SOURCE of a 4-byte `copyout` to the fixed `sp`; None once one
      faults. */
  function PointerCopies(mem: Mem, uargs: seq<u32>, sp: u32, i: nat): Option<Mem>
    requires i <= |uargs|
    decreases |uargs| - i
  {
    if i == |uargs| then Some(mem)
    else match CopyWord(mem, uargs[|uargs| - (i + 1)] as int, sp as int)
      case None => None
      case Some(m) => PointerCopies(m, uargs, sp, i + 1)
  }

  /** The pointer loop of `sys_execv`, as written. */
  method CopyPointers(dst: AddrSpace, uargs: seq<u32>, sp: u32) returns (ok: bool)
    modifies dst
    ensures ok <==> PointerCopies(old(dst.mem), uargs, sp, 0).Some?
    ensures ok ==> dst.mem == PointerCopies(old(dst.mem), uargs, sp, 0).value
    ensures dst.destroyed == old(dst.destroyed)
  {
    var argc := |uargs|;
    var i := 0;
    while i < argc
      invariant 0 <= i <= argc
      invariant dst.destroyed == old(dst.destroyed)
      invariant PointerCopies(old(dst.mem), uargs, sp, 0) == PointerCopies(dst.mem, uargs, sp, i)
    {
      var copied := CopyWord(dst.mem, uargs[argc - (i + 1)] as int, sp as int);
      if copied.None? {
        return false;
      }
      dst.mem := copied.value;
      i := i + 1;
    }
    return true;
  }

  /** A stack image whose only mapped bytes are the four zeros below
      0x1000. */
  function SmallStack(): Mem
  {
    Write(map[], 0xFFC, [0, 0, 0, 0])
  }

  /** The pointer loop as written does not build argv. Executing "a" from
      a stack top of 0x1000, the string lands at 0xFFC, which is also the
      final stack pointer handed to the program as argv; the loop copies
      the string's own first four bytes onto it, so argv[0] reads
      0x61000000 instead of the pointer 0xFFC to "a". */
  lemma PointerLoopLosesArgv()
    ensures var strs := [[0x61 as byte]];
            && StackAfter(strs, 0x1000, 1) == 0xFFC
            && StringAddrs(strs, 0x1000) == [0xFFC]
            && PlaceAll(SmallStack(), strs, 0x1000, 1).Some?
            && var placed := PlaceAll(SmallStack(), strs, 0x1000, 1).value;
               && PointerCopies(placed, [0xFFC], 0xFFC, 0).Some?
               && WordAt(PointerCopies(placed, [0xFFC], 0xFFC, 0).value, 0xFFC) == Some(0x6100_0000)
  {
    var strs := [[0x61 as byte]];
    assert SubU32(0x1000, 2) == 0xFFE;
    assert StackAfter(strs, 0x1000, 1) == 0xFFC;
    var mem := SmallStack();
    WriteSpec(map[], 0xFFC, [0, 0, 0, 0]);
    assert Mapped(mem, 0xFFC, 2);
    var placed := Write(mem, 0xFFC, [0x61, 0]);
    assert PlaceAll(mem, strs, 0x1000, 1) == Some(placed);
    WriteSpec(mem, 0xFFC, [0x61, 0]);
    assert placed[0xFFC] == 0x61 && placed[0xFFD] == 0 && placed[0xFFE] == 0 && placed[0xFFF] == 0;
    assert WordMapped(placed, 0xFFC);
    var fin := CopyWord(placed, 0xFFC, 0xFFC).value;
    assert fin == placed;
    assert PointerCopies(placed, [0xFFC], 0xFFC, 0) == Some(fin);
    assert EncodeWord(0x6100_0000) == [0x61, 0, 0, 0];
    DecodeEncode(0x6100_0000);
  }

  /** The evidently intended pointer loop: argv takes the `argc + 1`
      pointer slots right below the last string, slot `i` holding
      `uargs[i]` and slot `argc` NULL; a faulting `copyout` fails. */
  function PushArgv(mem: Mem, uargs: seq<u32>, sp: u32): Option<Mem>
  {
    var argv := ArgvBelow(sp, |uargs|);
    var at := Execv.AddrAt(argv, PTR_SIZE * |uargs|);
    if !Mapped(mem, at, PTR_SIZE) then None
    else Execv.StoreArgv(Write(mem, at, EncodeWord(0)), argv, uargs, 0)
  }

  /** `argc + 1` pointer slots below `sp`. */
  function ArgvBelow(sp: u32, argc: nat): u32
  {
    SubU32(sp, PTR_SIZE * (argc + 1))
  }

  /** With room below `sp`, a successful intended loop leaves argv at
      `sp - 4 * (argc + 1)` holding every string address in order and the
      NULL after them, maps nothing new and leaves everything from `sp` up,
      the strings included, as it was. */
  lemma PushArgvContent(mem: Mem, uargs: seq<u32>, sp: u32)
    requires PTR_SIZE * (|uargs| + 1) <= sp as int && PushArgv(mem, uargs, sp).Some?
    ensures ArgvBelow(sp, |uargs|) as int == sp as int - PTR_SIZE * (|uargs| + 1)
    ensures var argv := ArgvBelow(sp, |uargs|);
            var m := PushArgv(mem, uargs, sp).value;
            && m.Keys == mem.Keys
            && (forall j :: 0 <= j < |uargs| ==> WordAt(m, Execv.Slot(argv, j)) == Some(uargs[j]))
            && WordAt(m, Execv.Slot(argv, |uargs|)) == Some(0)
            && (forall x :: x in mem && x >= sp as int ==> m[x] == mem[x])
  {
    var argc := |uargs|;
    var argv := ArgvBelow(sp, argc);
    var at := Execv.AddrAt(argv, PTR_SIZE * argc);
    assert at == Execv.Slot(argv, argc);
    var mem1 := Write(mem, at, EncodeWord(0));
    WriteSpec(mem, at, EncodeWord(0));
    WriteKeepsDomain(mem, at, EncodeWord(0));
    WordWrite(mem, at, 0);
    Execv.StoreArgvContent(mem1, argv, uargs, 0);
    Execv.StoreArgvFrame(mem1, argv, uargs, 0);
    var m := PushArgv(mem, uargs, sp).value;
    assert m == Execv.StoreArgv(mem1, argv, uargs, 0).value;
    assert WordAt(m, at) == WordAt(mem1, at) by {
      assert m[at] == mem1[at] && m[at + 1] == mem1[at + 1];
      assert m[at + 2] == mem1[at + 2] && m[at + 3] == mem1[at + 3];
    }
  }

  /** When no copy faults, ignoring the results changes nothing: the
      string loop of `runprogram` leaves the memory the string loop of
      `sys_execv` does. */
  lemma {:induction false} IgnoringAgrees(mem: Mem, strs: seq<seq<byte>>, top: u32, n: nat)
    requires n <= |strs| && PlaceAll(mem, strs, top, n).Some?
    ensures PlaceIgnoring(mem, strs, top, n) == PlaceAll(mem, strs, top, n).value
  {
    if n > 0 {
      IgnoringAgrees(mem, strs, top, n - 1);
    }
  }

  /** The string loop of `runprogram` maps nothing new. */
  lemma {:induction false} PlaceIgnoringKeys(mem: Mem, strs: seq<seq<byte>>, top: u32, n: nat)
    requires n <= |strs|
    ensures PlaceIgnoring(mem, strs, top, n).Keys == mem.Keys
  {
    if n > 0 {
      PlaceIgnoringKeys(mem, strs, top, n - 1);
      var m := PlaceIgnoring(mem, strs, top, n - 1);
      var at := StackAfter(strs, top, n) as int;
      if Mapped(m, at, |strs[n - 1]| + 1) {
        WriteKeepsDomain(m, at, strs[n - 1] + [0]);
      }
    }
  }

  /** The string loop of `runprogram`: for each argument a `kmalloc`
      (failing for the indices in `nomem`, which ends the call with ENOMEM
      and the strings so far on the stack), then the string is copied out
      at `StackAfter(strs, top, i + 1)`, a fault being ignored. */
  method PlaceMenuStrings(dst: AddrSpace, strs: seq<seq<byte>>, top: u32, nomem: set<nat>)
    returns (err: Option<int>, sp: u32, addrs: seq<u32>)
    modifies dst
    ensures err.Some? <==> exists i :: 0 <= i < |strs| && i in nomem
    ensures err.Some? ==> && err.value == ENOMEM
                          && exists k :: && 0 <= k < |strs| && k in nomem
                                         && (forall j :: 0 <= j < k ==> j !in nomem)
                                         && dst.mem == PlaceIgnoring(old(dst.mem), strs, top, k)
    ensures err.None? ==> && dst.mem == PlaceIgnoring(old(dst.mem), strs, top, |strs|)
                          && sp == StackAfter(strs, top, |strs|)
                          && addrs == StringAddrs(strs, top)
    ensures dst.destroyed == old(dst.destroyed)
  {
    err, sp, addrs := None, top, [];
    var i := 0;
    while i < |strs|
      invariant 0 <= i <= |strs| && |addrs| == i
      invariant dst.destroyed == old(dst.destroyed)
      invariant forall j :: 0 <= j < i ==> j !in nomem
      invariant dst.mem == PlaceIgnoring(old(dst.mem), strs, top, i)
      invariant sp == StackAfter(strs, top, i)
      invariant forall j :: 0 <= j < i ==> addrs[j] == StackAfter(strs, top, j + 1)
    {
      if i in nomem {
        err := Some(ENOMEM);
        break;
      }
      var len := |strs[i]| + 1;
      sp := SubU32(sp, len);
      if sp % 4 != 0 {
        sp := sp - sp % 4;
      }
      var copied := CopyOutStr(dst.mem, sp as int, strs[i]);
      if copied.Some? {
        dst.mem := copied.value;
      }
      addrs := addrs + [sp];
      i := i + 1;
    }
  }

  /** The pointers `ws` laid out one word after another. */
  function Words(ws: seq<u32>): (bs: seq<byte>)
    ensures |bs| == PTR_SIZE * |ws|
  {
    if ws == [] then [] else EncodeWord(ws[0]) + Words(ws[1..])
  }

  /** Byte `k` of word `i` of the layout is byte `k` of pointer `i`. */
  lemma {:induction false} WordsIndex(ws: seq<u32>, i: nat, k: nat)
    requires i < |ws| && k < PTR_SIZE
    ensures Words(ws)[PTR_SIZE * i + k] == EncodeWord(ws[i])[k]
  {
    if i > 0 {
      WordsIndex(ws[1..], i - 1, k);
      assert Words(ws) == EncodeWord(ws[0]) + Words(ws[1..]);
      assert PTR_SIZE * i + k == PTR_SIZE + (PTR_SIZE * (i - 1) + k);
    }
  }

  /** After storing the layout of `ws` at `a`, slot `i` above `a` reads
      back as `ws[i]`. */
  lemma WordsAt(mem: Mem, a: u32, ws: seq<u32>, i: nat)
    requires i < |ws|
    ensures WordAt(Write(mem, a as int, Words(ws)), Execv.Slot(a, i)) == Some(ws[i])
  {
    var bs := Words(ws);
    var m := Write(mem, a as int, bs);
    var x := Execv.Slot(a, i);
    WriteSpec(mem, a as int, bs);
    WordsIndex(ws, i, 0);
    WordsIndex(ws, i, 1);
    WordsIndex(ws, i, 2);
    WordsIndex(ws, i, 3);
    assert m[a as int + (PTR_SIZE * i + 0)] == bs[PTR_SIZE * i + 0];
    assert m[a as int + (PTR_SIZE * i + 1)] == bs[PTR_SIZE * i + 1];
    assert m[a as int + (PTR_SIZE * i + 2)] == bs[PTR_SIZE * i + 2];
    assert m[a as int + (PTR_SIZE * i + 3)] == bs[PTR_SIZE * i + 3];
    assert [m[x], m[x + 1], m[x + 2], m[x + 3]] == EncodeWord(ws[i]);
    DecodeEncode(ws[i]);
  }

  /** The error `sys_execv` returns before it opens the program, if any:
      EFAULT for a NULL name or vector, E2BIG for `ARG_MAX` arguments or
      more, ENOMEM when `kmalloc` fails for the vector (`vecNomem`), then,
      string by string, ENOMEM for a failed buffer (`i in nomem`) and
      -EFAULT for a kernel address, then ENOMEM for the program name's
      buffer (`progNomem`) and -EFAULT for a kernel-address name. */
  function CopyInError(mem: Mem, program: u32, args: u32, vecNomem: bool, nomem: set<nat>,
                       progNomem: bool): (r: Option<int>)
    requires UserMemory(mem) && (program != 0 && args != 0 ==> VectorMeasurable(mem, args))
    ensures r.None? <==> && program != 0 && args != 0
                         && |ArgPtrs(mem, args as int).value| < ARG_MAX
                         && !vecNomem && !progNomem && !KernelAddr(program)
                         && forall i :: 0 <= i < |ArgPtrs(mem, args as int).value| ==>
                              i !in nomem && !KernelAddr(ArgPtrs(mem, args as int).value[i])
    ensures r.None? ==> VectorReadable(mem, args)
    ensures r.Some? ==> r.value in {EFAULT, E2BIG, ENOMEM, -EFAULT}
  {
    if program == 0 || args == 0 then Some(EFAULT)
    else
      var ptrs := ArgPtrs(mem, args as int).value;
      StringsErrorSpec(ptrs, nomem, 0);
      if |ptrs| >= ARG_MAX then Some(E2BIG)
      else if vecNomem then Some(ENOMEM)
      else if StringsError(ptrs, nomem, 0).Some? then StringsError(ptrs, nomem, 0)
      else if progNomem then Some(ENOMEM)
      else if KernelAddr(program) then Some(-EFAULT)
      else None
  }

  /** `sys_execv` under OPT_EXECV. `openResult` is what `vfs_open`
      returns, `asCreated` whether `as_create` succeeds, `image` the memory
      `load_elf` and `as_define_stack` leave in the new address space,
      `loadResult` and `stackResult` their results, `entry` and `top` the
      entry point and stack top they yield; `vecNomem`, `nomem`,
      `progNomem` and `uargsNomem` say which `kmalloc` calls fail. The
      caller's vector is dereferenced directly, so it must be readable user
      memory; its strings and the program name are measured by `strlen`, so
      each must be a readable user string or a kernel address, which
      `copyinstr` then refuses with -EFAULT. `newAs` is the address space
      created. */
  method SysExecv(p: Proc, program: u32, args: u32, vecNomem: bool, nomem: set<nat>, progNomem: bool,
                  openResult: int, asCreated: bool, image: Mem, loadResult: int, entry: u32,
                  stackResult: int, top: u32, uargsNomem: bool)
    returns (out: Execv.Outcome, newAs: AddrSpace?)
    requires p.addrspace != null && p.addrspace.Valid() && UserMemory(image)
    requires program != 0 && args != 0 ==>
               VectorMeasurable(p.addrspace.mem, args) && Measurable(p.addrspace.mem, program)
    // of the process, only the address-space pointer may change: the
    // file table, the cwd and the exit fields are kept, whatever the outcome
    modifies p`addrspace, p.addrspace
    ensures unchanged(p`fileTable, p.fileTable, p`cwd, p`status, p`exited, p`wakeups)
    // argument checks and copy-in: nothing changes
    ensures var e := CopyInError(old(p.addrspace.mem), program, args, vecNomem, nomem, progNomem);
            e.Some? ==> && out == Execv.Error(e.value) && newAs == null
                        && p.addrspace == old(p.addrspace) && unchanged(old(p.addrspace))
    // a failing vfs_open destroys the caller's own address space
    ensures CopyInError(old(p.addrspace.mem), program, args, vecNomem, nomem, progNomem).None? ==>
              && (openResult != 0 ==> && out == Execv.Error(-openResult) && newAs == null
                                      && p.addrspace == old(p.addrspace) && p.addrspace.destroyed
                                      && p.addrspace.mem == old(p.addrspace.mem))
              && (openResult == 0 && !asCreated ==> && out == Execv.Error(ENOMEM) && newAs == null
                                                    && p.addrspace == old(p.addrspace)
                                                    && unchanged(old(p.addrspace)))
              && (openResult == 0 && asCreated ==> && newAs != null && fresh(newAs)
                                                   && p.addrspace == newAs)
    // from here on the new space stays installed and the old one intact
    // until the commit
    ensures newAs != null && loadResult != 0 ==>
              && out == Execv.Error(loadResult) && newAs.mem == image && !newAs.destroyed
              && unchanged(old(p.addrspace))
    ensures newAs != null && loadResult == 0 && stackResult != 0 ==>
              && out == Execv.Error(-stackResult) && newAs.mem == image && !newAs.destroyed
              && unchanged(old(p.addrspace))
    ensures newAs != null && loadResult == 0 && stackResult == 0 && uargsNomem ==>
              && out == Execv.Error(ENOMEM) && newAs.mem == image && newAs.destroyed
              && unchanged(old(p.addrspace))
    ensures newAs != null && loadResult == 0 && stackResult == 0 && !uargsNomem ==>
              var strs := UserStrings(old(p.addrspace.mem), args);
              var placed := PlaceAll(image, strs, top, |strs|);
              var sp := StackAfter(strs, top, |strs|);
              && !newAs.destroyed
              && (placed.None? ==> out == Execv.Error(-EFAULT) && unchanged(old(p.addrspace)))
              && (placed.Some? ==>
                    var copied := PointerCopies(placed.value, StringAddrs(strs, top), sp, 0);
                    && (copied.None? ==> out == Execv.Error(-EFAULT) && unchanged(old(p.addrspace)))
                    && (copied.Some? ==> && out == Execv.Enter(|strs|, sp, sp, entry)
                                         && newAs.mem == copied.value
                                         && old(p.addrspace).destroyed))
  {
    var oldAs := p.addrspace;
    if program == 0 || args == 0 {
      return Execv.Error(EFAULT), null;
    }
    var argc := CountVector(oldAs.mem, args);
    if argc >= ARG_MAX {
      return Execv.Error(E2BIG), null;
    }
    if vecNomem {
      return Execv.Error(ENOMEM), null;
    }
    var kargs, err := CopyInStrings(oldAs.mem, args, argc, nomem);
    if err.Some? {
      return Execv.Error(err.value), null;
    }
    if progNomem {
      return Execv.Error(ENOMEM), null;
    }
    // the name was measured by strlen: copyinstr refuses only a kernel address
    if program as int >= USERSPACETOP {
      return Execv.Error(-EFAULT), null;
    }
    if openResult != 0 {
      // as_destroy(curproc->p_addrspace)
      oldAs.destroyed := true;
      return Execv.Error(-openResult), null;
    }
    if !asCreated {
      return Execv.Error(ENOMEM), null;
    }
    newAs := new AddrSpace(image);
    p.addrspace := newAs;
    if loadResult != 0 {
      return Execv.Error(loadResult), newAs;
    }
    if stackResult != 0 {
      return Execv.Error(-stackResult), newAs;
    }
    if uargsNomem {
      // as_destroy(curproc->p_addrspace), which is now the new space
      newAs.destroyed := true;
      return Execv.Error(ENOMEM), newAs;
    }
    var ok, sp, uargs := PlaceKernelStrings(newAs, kargs, top);
    if !ok {
      return Execv.Error(-EFAULT), newAs;
    }
    ok := CopyPointers(newAs, uargs, sp);
    if !ok {
      return Execv.Error(-EFAULT), newAs;
    }
    oldAs.destroyed := true;
    return Execv.Enter(argc, sp, sp, entry), newAs;
  }

  /** A `copyout` whose result is ignored: `bs` stored at `at`, or nothing
      when it would fault. */
  function CopyOutIgnored(mem: Mem, at: int, bs: seq<byte>): (m: Mem)
    ensures Mapped(mem, at, |bs|) ==> m == Write(mem, at, bs)
    ensures !Mapped(mem, at, |bs|) ==> m == mem
  {
    if Mapped(mem, at, |bs|) then Write(mem, at, bs) else mem
  }

  /** Without arguments, `runprogram` copies the program name to `top`
      less its length with the NUL. */
  function NameAt(top: u32, name: seq<byte>): u32
  {
    SubU32(top, |name| + 1)
  }

  /** ... and sets the stack pointer to `top` less that length and a
      pointer, less that value modulo 8 (unsigned 32-bit arithmetic). */
  function NoArgsStack(top: u32, name: seq<byte>): u32
  {
    var t := SubU32(top, |name| + 1 + PTR_SIZE);
    SubU32(t, t as int % 8)
  }

  /** With room below the top, the stack pointer is 8-aligned and sits a
      pointer or more, and less than a pointer and 8 bytes, below the
      name. */
  lemma NoArgsLayout(top: u32, name: seq<byte>)
    requires |name| + 1 + PTR_SIZE <= top as int
    ensures NameAt(top, name) as int == top as int - (|name| + 1)
    ensures var sp := NoArgsStack(top, name) as int;
            && sp % 8 == 0
            && sp + PTR_SIZE <= NameAt(top, name) as int < sp + PTR_SIZE + 8
  {
    var t := SubU32(top, |name| + 1 + PTR_SIZE);
    assert t as int == top as int - (|name| + 1 + PTR_SIZE);
    assert NoArgsStack(top, name) as int == t as int - t as int % 8;
  }

  /** Without arguments, once both copies land the name is stored at its
      address and the word at the stack pointer points to it. */
  lemma NoArgsContent(image: Mem, top: u32, name: seq<byte>)
    requires |name| + 1 + PTR_SIZE <= top as int
    requires Mapped(image, NameAt(top, name) as int, |name| + 1)
    requires Mapped(image, NoArgsStack(top, name) as int, PTR_SIZE)
    ensures var at := NameAt(top, name);
            var sp := NoArgsStack(top, name);
            var m := CopyOutIgnored(CopyOutIgnored(image, at as int, name + [0]), sp as int, EncodeWord(at));
            && StringAt(m, at as int, name)
            && WordAt(m, sp as int) == Some(at)
  {
    var at := NameAt(top, name);
    var sp := NoArgsStack(top, name);
    NoArgsLayout(top, name);
    var m1 := Write(image, at as int, name + [0]);
    WriteString(image, at as int, name);
    WriteKeepsDomain(image, at as int, name + [0]);
    var m := Write(m1, sp as int, EncodeWord(at));
    WriteSpec(m1, sp as int, EncodeWord(at));
    WriteKeepsDomain(m1, sp as int, EncodeWord(at));
    WordWrite(m1, sp as int, at);
    StringAtKept(m1, m, sp as int + PTR_SIZE, at as int, name);
  }

  /** With arguments, `runprogram` puts argv `argc + 1` pointer slots
      below the last string; with room there, those slots end right below
      that string, pointer `j` reads back as the address of string `j`, and
      slot `argc` is left as the string loop left it: its NULL is never
      copied out. */
  lemma MenuArgvSlots(placed: Mem, strs: seq<seq<byte>>, top: u32)
    requires PTR_SIZE * (|strs| + 1) <= StackAfter(strs, top, |strs|) as int
    ensures var last := StackAfter(strs, top, |strs|);
            var argv := ArgvBelow(last, |strs|);
            var m := Write(placed, argv as int, Words(StringAddrs(strs, top)));
            && argv as int + PTR_SIZE * (|strs| + 1) == last as int
            && (forall j :: 0 <= j < |strs| ==> WordAt(m, Execv.Slot(argv, j)) == Some(StringAddrs(strs, top)[j]))
            && WordAt(m, Execv.Slot(argv, |strs|)) == WordAt(placed, Execv.Slot(argv, |strs|))
  {
    var last := StackAfter(strs, top, |strs|);
    var argv := ArgvBelow(last, |strs|);
    var ws := StringAddrs(strs, top);
    var m := Write(placed, argv as int, Words(ws));
    forall j | 0 <= j < |strs|
      ensures WordAt(m, Execv.Slot(argv, j)) == Some(ws[j])
    {
      WordsAt(placed, argv, ws, j);
    }
    WriteSpec(placed, argv as int, Words(ws));
    var x := Execv.Slot(argv, |strs|);
    assert x == argv as int + |Words(ws)|;
  }

  /** With room below the top for the strings and argv, when every string
      copy landed the strings are all still in place after argv is
      written. */
  lemma MenuArgvStrings(image: Mem, strs: seq<seq<byte>>, top: u32, i: nat)
    requires i < |strs| && Footprint(strs, |strs|) + PTR_SIZE * (|strs| + 1) <= top as int
    requires PlaceAll(image, strs, top, |strs|).Some?
    requires var placed := PlaceIgnoring(image, strs, top, |strs|);
             Mapped(placed, ArgvBelow(StackAfter(strs, top, |strs|), |strs|) as int, PTR_SIZE * |strs|)
    ensures var placed := PlaceIgnoring(image, strs, top, |strs|);
            var argv := ArgvBelow(StackAfter(strs, top, |strs|), |strs|);
            var m := Write(placed, argv as int, Words(StringAddrs(strs, top)));
            StringAt(m, StringAddrs(strs, top)[i] as int, strs[i])
  {
    var n := |strs|;
    var last := StackAfter(strs, top, n);
    StackDescends(strs, top, n);
    StackBelow(strs, top, n, i + 1, n);
    IgnoringAgrees(image, strs, top, n);
    PlaceAllStrings(image, strs, top, n, i);
    var placed := PlaceIgnoring(image, strs, top, n);
    var argv := ArgvBelow(last, n);
    var bs := Words(StringAddrs(strs, top));
    WriteSpec(placed, argv as int, bs);
    WriteKeepsDomain(placed, argv as int, bs);
    StringAtKept(placed, Write(placed, argv as int, bs), last as int, StackAfter(strs, top, i + 1) as int, strs[i]);
  }

  /** `runprogram` under OPT_EXECV, for a process without an address
      space. `name` is the contents of the `progname` buffer as `vfs_open`
      leaves it, which may differ from the name opened, since `vfs_open`
      may destroy it; that buffer is what the no-argument path copies out.
      `args` is the kernel's argument strings, None for a NULL vector (argc
      is their number). `openResult`, `asCreated`, `image`, `loadResult`,
      `entry`, `stackResult` and `top` are as for `SysExecv`; `vecNomem`
      and `nomem` say which `kmalloc` calls fail. `space` is the address
      space created. */
  method RunProgram(p: Proc, name: seq<byte>, args: Option<seq<seq<byte>>>, openResult: int,
                    asCreated: bool, image: Mem, loadResult: int, entry: u32, stackResult: int,
                    top: u32, vecNomem: bool, nomem: set<nat>)
    returns (out: Execv.Outcome, space: AddrSpace?)
    requires p.addrspace == null && UserMemory(image)
    // of the process, only the address-space pointer changes
    modifies p`addrspace
    ensures unchanged(p`fileTable, p.fileTable, p`cwd, p`status, p`exited, p`wakeups)
    ensures openResult != 0 ==> out == Execv.Error(openResult) && space == null && p.addrspace == null
    ensures openResult == 0 && !asCreated ==> out == Execv.Error(ENOMEM) && space == null && p.addrspace == null
    ensures openResult == 0 && asCreated ==> && space != null && fresh(space) && p.addrspace == space
                                             && !space.destroyed
    // failures after the switch leave the new space installed
    ensures space != null && loadResult != 0 ==> out == Execv.Error(loadResult) && space.mem == image
    ensures space != null && loadResult == 0 && stackResult != 0 ==>
              out == Execv.Error(stackResult) && space.mem == image
    // with arguments: strings, then argc pointers below them
    ensures space != null && loadResult == 0 && stackResult == 0 && args.Some? ==>
              var strs := args.value;
              var n := |strs|;
              && (vecNomem ==> out == Execv.Error(ENOMEM) && space.mem == image)
              && (!vecNomem && (exists i :: 0 <= i < n && i in nomem) ==> out == Execv.Error(ENOMEM))
              && (!vecNomem && (forall i :: 0 <= i < n ==> i !in nomem) ==>
                    var placed := PlaceIgnoring(image, strs, top, n);
                    var argv := ArgvBelow(StackAfter(strs, top, n), n);
                    && (Mapped(placed, argv as int, PTR_SIZE * n) ==>
                          && out == Execv.Enter(n, argv, argv, entry)
                          && space.mem == Write(placed, argv as int, Words(StringAddrs(strs, top))))
                    && (!Mapped(placed, argv as int, PTR_SIZE * n) ==>
                          out == Execv.Error(EFAULT) && space.mem == placed))
    // without: the name and one pointer to it
    ensures space != null && loadResult == 0 && stackResult == 0 && args.None? ==>
              var at := NameAt(top, name);
              var sp := NoArgsStack(top, name);
              && out == Execv.Enter(1, sp, sp, entry)
              && space.mem == CopyOutIgnored(CopyOutIgnored(image, at as int, name + [0]), sp as int, EncodeWord(at))
  {
    if openResult != 0 {
      return Execv.Error(openResult), null;
    }
    if !asCreated {
      return Execv.Error(ENOMEM), null;
    }
    space := new AddrSpace(image);
    p.addrspace := space;
    if loadResult != 0 {
      return Execv.Error(loadResult), space;
    }
    if stackResult != 0 {
      return Execv.Error(stackResult), space;
    }
    if args.Some? {
      var strs := args.value;
      var argc := |strs|;
      if vecNomem {
        return Execv.Error(ENOMEM), space;
      }
      var err, stackptr, argvptr := PlaceMenuStrings(space, strs, top, nomem);
      if err.Some? {
        return Execv.Error(err.value), space;
      }
      stackptr := SubU32(stackptr, PTR_SIZE * (argc + 1));
      var bs := Words(argvptr);
      if !Mapped(space.mem, stackptr as int, |bs|) {
        return Execv.Error(EFAULT), space;
      }
      space.mem := Write(space.mem, stackptr as int, bs);
      return Execv.Enter(argc, stackptr, stackptr, entry), space;
    } else {
      var len := |name| + 1;
      var uprogname := SubU32(top, len);
      space.mem := CopyOutIgnored(space.mem, uprogname as int, name + [0]);
      len := len + PTR_SIZE;
      var t := SubU32(top, len);
      var stackptr := SubU32(t, t as int % 8);
      space.mem := CopyOutIgnored(space.mem, stackptr as int, EncodeWord(uprogname));
      return Execv.Enter(1, stackptr, stackptr, entry), space;
    }
  }
}
