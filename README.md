# OS/161 lab kernel: descriptor tables, exec marshalling, exit and wait

This project models the bookkeeping layer of an OS/161 teaching kernel. That layer sits above the VFS and the VM system. It is modelled in Dafny, and the properties of that model are proved.

- **Descriptor layer** (`FileSyscalls`, kern/syscall/file_syscalls.c).
  - State:
    - a system-wide array of open-file records;
    - each process's `fileTable[OPEN_MAX]` of pointers to them.
  - Calls: `is_valid_fd`, `sys_open`, `sys_close`, `sys_dup2`, `sys_lseek`, and the offset update of `file_read`/`file_write`.
  - Each call is a method over a `Proc` object and the shared `OpenFile` objects. It states every slot and field it changes.
- **`fileTable` abstract data type** (`FileTables`, kern/proc/filetable.c).
  - A class whose `handles` array is filled by a circular allocator driven by the `last` cursor.
  - Operations: reference-counted removal, get/set, copy and destroy.
  - The loops are proved against recursive reference functions such as `ScanFrom`, `CopyFault` and `Count`.
- **`sys_execv`** (`Execv`, kern/syscall/execv.c).
  - It counts the caller's argument vector and measures each string. It charges the `ARG_MAX` budget.
  - It copies the strings onto the new user stack from the last argument down, each in a pointer-aligned slot. It then writes a NULL-terminated argv below them.
  - On a marshalling failure it rolls back to the old address space. It destroys the old one only at the commit.
  - The loops are proved against the reference functions `PlaceStrings`, `StoreArgv` and `MarshalSpec`. The layout the new program sees is proved about those functions.
- **The `OPT_EXECV` `sys_execv` and `runprogram`** (`RunProgram`, kern/syscall/runprogram.c).
  - Both use 4-byte string alignment, with argument 0 highest.
  - They build argv in different ways: the pointer loop of `sys_execv`, the argv copy of `runprogram`, and its program-name-only layout.
- **`sys_waitpid`** (`WaitPid`, kern/syscall/waitpid.c).
  - An ordered validation ladder, followed by either the WNOHANG early return or the wait.
  - The if-ladder is proved equal to "first rejecting rung" over a table of the ten checks.
- **`close_all_files` and `sys__exit`** (`Exit`, kern/syscall/exit.c).
  - The close loop over the descriptor table, the panic on a failed close, the status mask, and the exited flag set before waiters are woken.
- **The working-directory calls** (`CurDir`, kern/syscall/curdir_syscalls.c).
  - `dir_parser` (the "//" check), `sys_chdir` and `sys_getcwd`.

Shared modules:
- `Kern`: constants, the `u32` and `byte` types, and `Option`.
- `Procs`: the `OpenFile`, `AddrSpace` and `Proc` classes.
- `UserMem`: user memory as a map from address to byte, with C strings, big-endian words and pointer vectors read from it.

Collaborators are parameters holding their outcome:
- `vfs_open`, `vfs_close`, `VOP_STAT`, `VOP_READ`/`VOP_WRITE`, `vfs_chdir`, `vfs_getcwd`;
- `kmalloc`, `lock_create`, `copyinstr` of a path, `as_create`, `load_elf`, `as_define_stack`;
- `proc_search_pid`, `proc_wait`.

`copyin` and `copyout` of argument data work on the address spaces' memory maps. A call to `vfs_close` is reported as a result. Locks, spinlocks and condition variables are no-ops.

Where the code and the interface it mirrors (POSIX `open`, `close`, `dup2`, `lseek`, `execv`, `waitpid`) disagree, the model follows the code:
- `sys_close` clears the vnode of a record that other slots still share.
- `sys_dup2` gives the new descriptor a copy of the record and then closes `old_fd`, not the previous occupant of `new_fd`.
- `sys_waitpid` answers ESRCH for an unknown pid before it checks the pid range or parenthood.
- `sys_lseek` returns 0 for a zero offset without looking at the file.
- `dir_parser` returns -2 when its buffer cannot be allocated, although its comment (kern/syscall/curdir_syscalls.c:125) says 2.

Where the C code has undefined behaviour, the model states a precondition instead; see "Left out".

## Model

| member | source | states |
|---|---|---|
| Kern.AccMode | kern/syscall/file_syscalls.c:322 | `openflags & O_ACCMODE` is the one value in 0..3 congruent to the flags modulo 4, negative flags included |
| Kern.IncU32 | kern/proc/filetable.c:139 | `ref_count++` on an unsigned count wraps to 0 after UINT_MAX and is otherwise one more |
| Kern.DecU32 | kern/proc/filetable.c:156 | `ref_count--` wraps below 0, and incrementing the result gives the count back |
| Kern.SubU32 | kern/syscall/execv.c:189 | moving a `vaddr_t` down wraps modulo 2^32, and is plain subtraction when it does not pass 0 |
| Procs.OpenFile.constructor | kern/include/filetable.h:17-24 | a new record holds exactly the given vnode, mode, offset, access mode, lock and count, and is not freed |
| Procs.AddrSpace.constructor | kern/syscall/execv.c:60 | a created address space maps exactly the given image and is not destroyed |
| UserMem.WriteSpec | kern/syscall/execv.c:193 | a `copyout` stores the bytes at their addresses, maps nothing else and leaves every other address as it was |
| UserMem.ReadWrite | kern/syscall/execv.c:193 | reading back the bytes a `copyout` stored gives them back |
| UserMem.DecodeEncode | kern/syscall/execv.c:220 | a pointer stored as four big-endian bytes decodes to itself |
| UserMem.EncodeDecode | kern/syscall/execv.c:96 | four bytes read as a pointer encode back to the same bytes |
| UserMem.WordWrite | kern/syscall/execv.c:220 | the word at an address after storing a pointer there is that pointer |
| UserMem.CStringSpec | kern/syscall/execv.c:127-144 | a string found at an address has no NUL, and it and its NUL are mapped there |
| UserMem.CStringAt | kern/syscall/execv.c:127-144 | a NUL-free string stored with its NUL is the C string found at that address |
| UserMem.ArgPtrAt | kern/syscall/execv.c:95-115 | pointer `i` of a vector is the word at `args + 4 * i` |
| UserMem.ArgPtrsEnd | kern/syscall/execv.c:109-110 | the word after the last pointer of a vector is NULL |
| FileSyscalls.IsValidFd | kern/syscall/file_syscalls.c:47-55 | false below 0 and above OPEN_MAX; true for 0, 1 and 2 whatever the slots hold; otherwise true exactly when the slot is occupied |
| FileSyscalls.Open | kern/syscall/file_syscalls.c:295-398 | each argument error in source order, with nothing changed; the first free system entry is initialised with count 1; ENOMEM or EINVAL (with `vfs_close`) when the lock or the O_APPEND size is missing; otherwise the lowest empty descriptor at or above 3 gets the record and is returned, else EMFILE after `vfs_close`; offset 0, or the size under O_APPEND; every occupied descriptor still holds a record with a positive count if it did before |
| FileSyscalls.OpenEntry | kern/syscall/file_syscalls.c:344-397 | the part of `sys_open` after `vfs_open`, with the same entry, descriptor and error results, and keeps every occupied descriptor's count positive |
| FileSyscalls.FreeEntry | kern/syscall/file_syscalls.c:345-358 | the index found is the first system entry whose vnode is NULL |
| FileSyscalls.InstallFd | kern/syscall/file_syscalls.c:384-393 | the record goes to the lowest empty descriptor at or above 3, which is returned, and no other slot changes; -1 and no change when there is none |
| FileSyscalls.Close | kern/syscall/file_syscalls.c:399-448 | EBADF and no change on an invalid or empty descriptor; otherwise the slot is emptied and the record's vnode cleared; EINVAL when it had none; else 0, `vfs_close` exactly when the count was 1, else the count drops by one; every remaining occupied descriptor keeps a positive count, so the entry assertion of `sys_close` holds for every later close; of the record only the vnode and the count may change |
| FileSyscalls.Dup2 | kern/syscall/file_syscalls.c:535-606 | EBADF when either descriptor is invalid; 0 with no change when they are equal; ENOMEM leaves `new_fd` empty; otherwise `new_fd` gets a fresh record copying all six fields and the old count rises by one; above stderr `old_fd` is then closed (EINTR when that close fails); every occupied descriptor keeps a positive count afterwards; of the old record only the vnode and the count may change |
| FileSyscalls.SeekTarget | kern/syscall/file_syscalls.c:660-692 | the target is the offset from the start, the current offset or the file size, for SEEK_SET, SEEK_CUR and SEEK_END |
| FileSyscalls.Lseek | kern/syscall/file_syscalls.c:621-698 | EBADF, then EINVAL for an unknown whence, with no change; 0 for a zero offset, with no change; otherwise the target is stored and returned; of the record only the offset may change |
| FileSyscalls.FileIo | kern/syscall/file_syscalls.c:191-289 | EBADF and EINVAL with no change; a VOP error returned with the offset untouched; otherwise `size - resid` returned and the offset advanced by it; of the record only the offset may change |
| FileTables.FileTable.constructor | kern/proc/filetable.c:18-34 | every slot empty and the cursor at 0 |
| FileTables.Circ | kern/proc/filetable.c:129-133 | a circular position is always a slot index |
| FileTables.CircStep | kern/proc/filetable.c:130-132 | one more step is the next slot, wrapping from MAX_FILES - 1 to 0 |
| FileTables.ScanFrom | kern/proc/filetable.c:129-136 | the scan stops within MAX_FILES steps |
| FileTables.ScanFromSpec | kern/proc/filetable.c:129-136 | the scan stops at an empty slot after passing only occupied ones, and finds none only when all slots are occupied |
| FileTables.ScanFindsFreeSlot | kern/proc/filetable.c:128-136 | with any empty slot, the scan from any cursor finds one |
| FileTables.ScanAfterPrefix | kern/proc/filetable.c:211-214 | on a table filled from slot 0 with the cursor on the last record, the next record goes right after it |
| FileTables.AddFile | kern/proc/filetable.c:115-144 | the file goes to the first empty slot circularly from `last`, which becomes the cursor and is returned; no other slot changes; the count rises by one, wrapping, and no other field of the record changes |
| FileTables.RemoveFromFileTable | kern/proc/filetable.c:146-172 | EBADF and no change on an empty slot; otherwise the slot is emptied, the cursor moves down to it when below, the count drops by one, and the record is closed and freed exactly when the count was 1; no other field of the record changes |
| FileTables.GetFileAtIndex | kern/proc/filetable.c:174-187 | returns slot `fd` and changes nothing |
| FileTables.SetFileAtIndex | kern/proc/filetable.c:189-201 | writes exactly slot `fd` and returns 0 |
| FileTables.IncTwice | kern/proc/filetable.c:213-214 | the two increments per copied slot move a count two steps, wrapping |
| FileTables.CopyFault | kern/proc/filetable.c:211-216 | a fault index is an occupied source slot |
| FileTables.CopyFaultSpec | kern/proc/filetable.c:211-216 | the copy dereferences NULL exactly when an occupied slot follows an empty one, and then past an empty slot |
| FileTables.CopySlot | kern/proc/filetable.c:212-215 | an occupied source slot lands in the next destination slot; the increment at source index `i` succeeds exactly when that is slot `i`; each record gains two references per copy |
| FileTables.CopyAll | kern/proc/filetable.c:211-216 | the loop faults where `CopyFault` says; otherwise the destination equals the source and each record gains two references per slot holding it |
| FileTables.CopyFileTable | kern/proc/filetable.c:203-221 | into an empty table: faults where `CopyFault` says; otherwise identical slots, the source's cursor, and two references added per slot holding each record; no other field of any record changes |
| FileTables.RefsStep | kern/proc/filetable.c:213-214 | one copied slot adds two references to its record and none to others |
| FileTables.CopyComplete | kern/proc/filetable.c:211-217 | a finished hole-free scan has copied the table exactly, with counts raised by twice each record's multiplicity |
| FileTables.DestroyFileTable | kern/proc/filetable.c:223-237 | every slot ends empty; each record's count drops by its number of slots, wrapping; exactly the records taken to 0 are freed; no other field of any record changes |
| FileTables.DropAll | kern/proc/filetable.c:229-230 | after removing every index the destroy invariant holds for all slots |
| FileTables.DropSlot | kern/proc/filetable.c:229-230 | removing slot `i` keeps the destroy invariant one slot further |
| FileTables.DropStep | kern/proc/filetable.c:154-161 | over snapshots of the counts and freed marks before and after one removal, which takes one reference off its record, frees it exactly at 0 and touches no other record, the destroy invariant moves one slot on |
| FileTables.DroppedAll | kern/proc/filetable.c:229-230 | after the last removal each record has lost one reference per slot and is freed exactly when its count equalled that number |
| Execv.Reserve | kern/syscall/execv.c:189 | a string's slot is its length rounded up to a multiple of the pointer size |
| Execv.CountArgs | kern/syscall/execv.c:95-115 | faults exactly when the vector is unreadable up to its NULL; otherwise argc counts its pointers and the stack holds them last first |
| Execv.MeasureString | kern/syscall/execv.c:127-144 | faults exactly when the string is unreadable up to its NUL; otherwise the length counts the NUL |
| Execv.PlaceArgs | kern/syscall/execv.c:117-207 | the string loop computes `PlaceStrings` from the last argument down and writes its memory to the new space |
| Execv.AddrAt | kern/syscall/execv.c:220 | a slot address is a 32-bit address |
| Execv.WriteArgv | kern/syscall/execv.c:217-229 | the argv loop succeeds exactly when `StoreArgv` does, with its memory |
| Execv.MarshalArgs | kern/syscall/execv.c:88-235 | marshalling computes `MarshalSpec`: its error, or its memory in the new space |
| Execv.ExecV | kern/syscall/execv.c:15-253 | path and open errors come before any new space; `load_elf`/`as_define_stack` errors leave the new space installed; marshalling failures restore the old space and destroy the new; success destroys the old space and enters with argc, argv and sp = argv; in every case only the process's address-space pointer changes, so the file table, its descriptors, the cwd and the exit fields are kept |
| Execv.NoWrap | kern/syscall/execv.c:189-193 | a string slot landing in user memory did not wrap around |
| Execv.PlaceAddrs | kern/syscall/execv.c:206 | one address is pushed per string, and the loop ends with the stack pointer on the first string |
| Execv.PlaceBudget | kern/syscall/execv.c:145-155 | a completed loop read every string, and their lengths with NULs total at most the budget |
| Execv.PlaceOverdraw | kern/syscall/execv.c:145-155 | readable strings within the budget are never refused with E2BIG, and an E2BIG refusal means the strings read so far, all readable, exceed the budget |
| Execv.PlaceWithin | kern/syscall/execv.c:145-155 | readable strings totalling at most the budget are never refused with E2BIG |
| Execv.PlaceRefused | kern/syscall/execv.c:145-155 | an E2BIG refusal means some last strings, all readable, total more than the budget |
| Execv.MarshalBudget | kern/syscall/execv.c:145-155 | E2BIG from the whole marshalling only when the vector is readable and some of its last strings, all readable, exceed ARG_MAX; a readable vector of readable strings within ARG_MAX never gets E2BIG |
| Execv.PlaceLast | kern/syscall/execv.c:189-190 | the last argument sits right below the starting stack pointer |
| Execv.PlaceAdjacent | kern/syscall/execv.c:189-190 | string `i` sits in a slot of its rounded length right below string `i + 1` |
| Execv.PlaceFrame | kern/syscall/execv.c:189-206 | the loop maps nothing new, leaves memory from the start pointer up unchanged, and ends at or below every string |
| Execv.PlaceContent | kern/syscall/execv.c:171-193 | each string with its NUL is stored at its new address |
| Execv.StoreArgvFrame | kern/syscall/execv.c:217-229 | the argv loop maps nothing new and changes nothing outside its slots |
| Execv.StoreArgvContent | kern/syscall/execv.c:217-229 | slot `j` of argv holds the address of string `j` |
| Execv.PlaceAligned | kern/syscall/execv.c:189-190 | from an aligned start every string address is pointer-aligned |
| Execv.StoreNullContent | kern/syscall/execv.c:230-232 | the NULL after the last pointer is stored when its slot is mapped, and nothing else changes |
| Execv.ArgvNoWrap | kern/syscall/execv.c:213-214 | argv is `argc + 1` slots below the first string without wrapping |
| Execv.MarshalArgv | kern/syscall/execv.c:211-232 | argv ends right below the first string, slot `j` holds string `j`'s address, slot `argc` holds NULL when mapped, and nothing new is mapped |
| Execv.MarshalFrame | kern/syscall/execv.c:211-232 | argv is written only below the strings, which stay as placed |
| Execv.MarshalStrings | kern/syscall/execv.c:117-207 | every string was read within ARG_MAX and is found, the same bytes, at its new address |
| Execv.SubAligned | kern/syscall/execv.c:213 | moving an aligned pointer down by whole slots keeps it aligned |
| Execv.MarshalLayout | kern/syscall/execv.c:117-214 | the last string is right below the stack top, each string right below the next, and argv right below the first |
| Execv.MarshalAligned | kern/syscall/execv.c:189-214 | from an aligned top, argv and every string address are pointer-aligned |
| Execv.MarshalShape | kern/syscall/execv.c:206-214 | argv is `argc + 1` slots below the last string placed, all aligned |
| Execv.StringsAligned | kern/syscall/execv.c:189-190 | from an aligned top the stack pointer and every string address are aligned |
| RunProgram.Down | kern/syscall/runprogram.c:217 | the rounded pointer is a multiple of 4, at most 3 below, and unchanged when already aligned |
| RunProgram.StringAddrs | kern/syscall/runprogram.c:211-226 | the recorded address of string `i` is the stack pointer after placing strings 0..i |
| RunProgram.CopyOutStr | kern/syscall/runprogram.c:218 | `copyoutstr` succeeds exactly when the string and its NUL are mapped |
| RunProgram.PlaceAllNext | kern/syscall/runprogram.c:211-227 | one more iteration copies string `i` to its address |
| RunProgram.PlaceAllStaysFailed | kern/syscall/runprogram.c:219-224 | once a copy fails the loop has failed |
| RunProgram.UserStrings | kern/syscall/runprogram.c:120-136 | the kernel copies are the C strings the vector points to, one per pointer |
| RunProgram.CountVector | kern/syscall/runprogram.c:104-105 | argc is the number of pointers before the NULL |
| RunProgram.CopyInStrings | kern/syscall/runprogram.c:120-136 | fails as `StringsError` says: ENOMEM at a string whose buffer cannot be allocated, -EFAULT at a kernel address, whichever comes first; otherwise every string was a readable user string and the copies are those strings |
| RunProgram.StringsErrorSpec | kern/syscall/runprogram.c:120-136 | the copy-in loop fails exactly when some string lacks a buffer or is a kernel address, and then with the error of the first such string |
| RunProgram.PlaceKernelStrings | kern/syscall/runprogram.c:211-227 | the string loop succeeds exactly when `PlaceAll` does, with its memory, final stack pointer and addresses |
| RunProgram.Footprint | kern/syscall/runprogram.c:215-217 | each string needs at least 4 bytes of stack |
| RunProgram.StackDescends | kern/syscall/runprogram.c:215-217 | with room, each string ends at or below the pointer before it, and the stack falls by at most the footprint |
| RunProgram.StackStep | kern/syscall/runprogram.c:215-217 | one string moves the pointer down by its length and at most 3 bytes of alignment |
| RunProgram.StackBelow | kern/syscall/runprogram.c:215-217 | later strings sit lower |
| RunProgram.PlaceAllKeys | kern/syscall/runprogram.c:218 | the string loop maps nothing new |
| RunProgram.PlaceAllStrings | kern/syscall/runprogram.c:211-227 | with room, every string stays at its recorded address after the loop |
| RunProgram.CopyPointers | kern/syscall/runprogram.c:229-238 | the pointer loop as written computes `PointerCopies`: each string address is used as the source of a 4-byte copy to the same stack pointer |
| RunProgram.PointerLoopLosesArgv | kern/syscall/runprogram.c:229-238 | for `execv("p", ["a"])` from top 0x1000, argv[0] ends up holding the bytes of "a", not its address 0xFFC |
| RunProgram.PushArgvContent | kern/syscall/runprogram.c:229-240 | the corrected loop puts argv right below the strings: slot `j` holds string `j`'s address, slot `argc` holds NULL, and the strings are kept |
| RunProgram.IgnoringAgrees | kern/syscall/runprogram.c:346 | when no copy faults, ignoring the copy results changes nothing |
| RunProgram.PlaceIgnoringKeys | kern/syscall/runprogram.c:346 | the `runprogram` string loop maps nothing new |
| RunProgram.PlaceMenuStrings | kern/syscall/runprogram.c:333-348 | ENOMEM exactly when a buffer cannot be allocated, leaving the strings before it placed; otherwise every string is placed, faults skipped, and the addresses are recorded |
| RunProgram.Words | kern/syscall/runprogram.c:352 | argv's bytes are four per pointer |
| RunProgram.WordsIndex | kern/syscall/runprogram.c:352 | byte `k` of word `i` is byte `k` of pointer `i` |
| RunProgram.WordsAt | kern/syscall/runprogram.c:352 | after the argv copy, slot `i` reads back as pointer `i` |
| RunProgram.CopyInError | kern/syscall/runprogram.c:97-153 | EFAULT for a NULL name or vector, E2BIG for ARG_MAX or more arguments, ENOMEM for a failed allocation, -EFAULT for a string or name in kernel space; none exactly when all checks pass, and then every string is a readable user string |
| RunProgram.SysExecv | kern/syscall/runprogram.c:77-255 | copy-in errors, including -EFAULT for a string or name in kernel space, change nothing; a failed `vfs_open` destroys the caller's own space; later errors keep the new space installed and the old intact; success destroys the old space and enters with sp as argv; in every case only the process's address-space pointer changes, so the file table, its descriptors, the cwd and the exit fields are kept |
| RunProgram.CopyOutIgnored | kern/syscall/runprogram.c:366 | an unchecked copy stores its bytes when they are mapped and otherwise does nothing |
| RunProgram.NoArgsLayout | kern/syscall/runprogram.c:364-369 | the name goes to top minus its length with NUL; the stack pointer is 8-aligned and at least a pointer below it |
| RunProgram.NoArgsContent | kern/syscall/runprogram.c:364-370 | when both copies land, the name is stored and the word at the stack pointer points to it |
| RunProgram.MenuArgvSlots | kern/syscall/runprogram.c:349-352 | argv takes the `argc + 1` slots right below the last string; slot `j` holds string `j`'s address; slot `argc` is never written |
| RunProgram.MenuArgvStrings | kern/syscall/runprogram.c:349-352 | writing argv leaves every placed string intact |
| RunProgram.RunProgram | kern/syscall/runprogram.c:269-386 | open and create errors leave no space; load and stack errors keep it; with arguments ENOMEM or the argv copy's result; without them argc 1 and the name layout; of the process only the address-space pointer changes |
| WaitPid.Ladder | kern/syscall/waitpid.c:27-87 | the ten checks in source order, each with its error number |
| WaitPid.FirstRejectionSpec | kern/syscall/waitpid.c:27-87 | the first rejecting rung is found exactly when one rejects, and its error is returned |
| WaitPid.PassRungs | kern/syscall/waitpid.c:27-87 | rungs that do not reject are passed over |
| WaitPid.Refusal | kern/syscall/waitpid.c:27-87 | a refusal is one of EFAULT, EINVAL, ESRCH, ECHILD; no refusal means an aligned user pointer that is neither NULL nor INVALID_PTR, options 0 or WNOHANG, a pid in range, a found child and a positive child count |
| WaitPid.SysWaitpid | kern/syscall/waitpid.c:18-105 | a refusal writes -1 and returns its error with no status; WNOHANG on a live child writes 0 and returns 0; otherwise the waited status is stored and the pid returned |
| WaitPid.LadderAgrees | kern/syscall/waitpid.c:27-87 | the if-ladder equals the first rejecting rung of the table |
| WaitPid.MisalignedFirst | kern/syscall/waitpid.c:27-31 | a misaligned pointer is EFAULT whatever else is wrong |
| WaitPid.PointerAndOptionRungs | kern/syscall/waitpid.c:33-53 | NULL is EINVAL, a kernel pointer EFAULT, INVALID_PTR EINVAL, bad options EINVAL, independent of pid and target |
| WaitPid.StoredOnlyForChild | kern/syscall/waitpid.c:95-98 | a status is stored only for a found child with a valid pointer, after it exited or without WNOHANG |
| WaitPid.UnknownPidIsSrch | kern/syscall/waitpid.c:61-69 | an unknown positive pid is ESRCH |
| WaitPid.OutOfRangeAfterLookup | kern/syscall/waitpid.c:70-74 | a found pid above PID_MAX is EINVAL |
| WaitPid.NoChildrenRungRedundant | kern/syscall/waitpid.c:77-87 | when the child count keeps up with the children, every ECHILD means "not your child" |
| Exit.ExitStatus | kern/syscall/exit.c:50 | the stored status is the one value in 0..255 congruent to the status modulo 256 |
| Exit.AfterClose | kern/syscall/file_syscalls.c:432-445 | a close keeps the count at 1 for the last reference and otherwise lowers it, never to 0 |
| Exit.FirstFailure | kern/syscall/exit.c:26-32 | the first slot whose close fails, found exactly when one fails |
| Exit.CloseAllFiles | kern/syscall/exit.c:23-35 | -1 exactly when some close fails; slots up to the failing one (else all) emptied and their records closed as `sys_close` does, the rest kept |
| Exit.CloseLoop | kern/syscall/exit.c:26-33 | the loop stops after the first failing slot, with the close state up to there |
| Exit.CloseSlot | kern/syscall/exit.c:28-31 | one iteration fails exactly when the slot's record has no vnode, and extends the close state by one slot |
| Exit.SysExit | kern/syscall/exit.c:36-72 | panics exactly when a close fails, before storing anything; otherwise the table ends empty, the masked status is stored, `exited` is set, and one wake-up is sent that finds it set; the address space, cwd and table array are kept, and of the records only the vnode and count change |
| Exit.SharedRecordFails | kern/syscall/exit.c:26-32 | two slots sharing a record make the close loop fail, at the second of them at the latest |
| Exit.DistinctRecordsClose | kern/syscall/exit.c:26-32 | distinct records that all have vnodes close without failure |
| CurDir.DirParser | kern/syscall/curdir_syscalls.c:127-156 | -2 when allocation fails; otherwise 1 exactly when the path holds "//" and 0 exactly when it does not; the buffer is freed only when 0 is returned |
| CurDir.SysChdir | kern/syscall/curdir_syscalls.c:92-111 | `vfs_chdir` is reached exactly when the parser accepts; otherwise -1, else its result |
| CurDir.SysGetcwd | kern/syscall/curdir_syscalls.c:40-80 | ENOENT without a cwd; a vfs error with -1 stored; otherwise 0 stored and the byte count returned |
| CurDir.SysGetcwdIntended | kern/syscall/curdir_syscalls.c:32-38 | fails exactly without a cwd or on a vfs error; success returns 0 with the byte count stored |
| CurDir.GetcwdSuccessReportedAsFailure | kern/syscall/curdir_syscalls.c:77-79 | as written, a transfer of any bytes is reported as a failure whose code is the count, and the count is lost |
| CurDir.GetcwdVersionsAgreeOnErrors | kern/syscall/curdir_syscalls.c:54-68 | both versions agree on every error and on an empty transfer |

## Left out

- Locks, spinlocks, semaphores and condition variables are no-ops. No concurrency is modelled. The semaphore and condition-variable variants of `sys__exit` (kern/syscall/exit.c:53-60) are modelled alike: the flag is set, then one wake-up is recorded.
- `vfs_open`, `vfs_close`, `VOP_STAT`, `VOP_READ`, `VOP_WRITE`, `vfs_chdir`, `vfs_getcwd`, `load_elf`, `as_create`, `as_define_stack`, `kmalloc`, `lock_create`, `proc_search_pid` and `proc_wait` are parameters holding their outcome. What they do internally is not modelled, and neither is the `*retval` write `proc_search_pid` makes.
- `as_activate`, `as_deactivate`, `proc_setas`, `proc_remthread`, `thread_exit`, `enter_new_process` and `panic` are not modelled as calls. Their effects are results: the installed address space, the `Enter` outcome and the `panicked` flag.
- `kfree`, `kfree_args`, list creation and destruction, and the sizes passed to `kmalloc` are not modelled. Neither are `dir_parser`'s `kmalloc(sizeof(dir))` sizing or `kfree_args`'s nulling before freeing. The one allocation effect kept is which buffer `dir_parser` releases.
- The console paths of `sys_read`/`sys_write` and the `USE_KERNEL_BUFFER` branch of `file_read`/`file_write` are not modelled. `init_fileTable` and its console opens are not modelled either.
- FileTables.GetFileAtIndex: requires slot 0 to be occupied, because the `init_fileTable` branch taken when it is empty is left out.
- FileTables.SetFileAtIndex: requires slot 0 to be occupied, for the same reason.
- FileSyscalls.IsValidFd: requires `fd != OPEN_MAX`, as do `Close`, `Dup2`, `Lseek` and `FileIo`. `is_valid_fd` lets that value through, and the code then reads one slot past the table.
- FileSyscalls.Open: requires a free system-table entry whenever the checks pass. With the table full, `sys_open` dereferences a NULL record.
- FileSyscalls.Close: requires every occupied slot's record to have a positive count, as the assertion in `sys_close` demands.
- FileSyscalls.Dup2: requires the same positive counts. It also requires the old record's count to stay below 2^32 - 1, so that the increment before the close cannot wrap past that assertion.
- FileSyscalls.Dup2: requires the old slot to be occupied for every valid `old_fd`, 0..2 included. For a descriptor 0..2 with an empty slot the code dereferences NULL.
- FileSyscalls.Lseek: requires the slot of a valid descriptor to be occupied where the code dereferences it, as does `FileIo`. A valid descriptor 0..2 with an empty slot is undefined behaviour there.
- FileSyscalls.FileIo: models only the offset and result bookkeeping of `file_read`/`file_write`. The transfer itself is the parameter `resid`. The lock that `file_read` leaves held on a VOP error is not modelled.
- FileSyscalls.Lseek: requires, for a non-zero SEEK_END, that the record still has a vnode. A record whose vnode was cleared by `sys_close` through another slot reaches `VOP_STAT` with NULL, which the model does not capture.
- FileSyscalls.Lseek: uses unbounded offsets. The 64-bit `off_t` and the 32-bit `unsigned int` offset field of `struct openfile` are not modelled.
- FileTables.AddFile: requires a free slot, because `add_file` loops for ever on a full table; that is why the `*err = EMFILE` store is unreachable and not modelled. The `init == 0` branch is not modelled for another reason: every caller passes `init = 1` (kern/proc/filetable.c:67, 85, 104, 213).
- FileTables.RemoveFromFileTable: requires that the record has not been freed, since a freed record would be used after `kfree`.
- FileTables.DestroyFileTable: requires each record's count to be 0 or at least its number of slots, for the same reason.
- FileTables.CopyFileTable: copies into a freshly created table: empty, with the cursor at 0. When an occupied slot follows an empty one, the copy reports the index where the code dereferences NULL instead of crashing.
- The model's `OpenFile` record has the fields used by kern/syscall/file_syscalls.c (`vn`, `mode`, `offset`, `accmode`, `lock`, `ref_count`). The header kern/include/filetable.h:17-24 declares fewer.
- RunProgram.SysExecv: requires the caller's vector to be readable user memory, and each string and the program name to be a readable user string or a kernel address. The code dereferences the user pointers directly (`args[argc]`, `strlen`), which is undefined for unmapped user memory. A vector pointer into kernel space is excluded too: the kernel would read its own memory, whose contents the model does not hold. Strings and names in kernel space are modelled: `copyinstr` refuses them with -EFAULT.
- RunProgram.RunProgram: takes its arguments as kernel strings. The kernel menu that builds them is not part of this model. `name` stands for the `progname` buffer as `vfs_open` leaves it (kern/syscall/runprogram.c:263-264, 366); what `vfs_open` does to that buffer is not modelled.
- Execv.ExecV: treats `copyinstr` of the path as one outcome. The path's bytes are not modelled.
- CurDir.SysChdir: the `copyinstr` into the NULL `kpath` (kern/syscall/curdir_syscalls.c:103) is not modelled. Its result is ignored, and `vfs_chdir`'s outcome is a parameter.
- CurDir.DirParser: reads the path as a byte sequence. The kernel reading the user pointer directly is not modelled.
- Exit.CloseAllFiles: treats a failing close as a clean return of -1. `close_all_files` calls `sys_close(i)` with one argument (kern/syscall/exit.c:30), but `sys_close` takes two (kern/syscall/file_syscalls.c:399). Its failing path stores `*err = EINVAL` (line 428) through a pointer that was never passed, and the model does not capture that store.
- Exit.ExitStatus: takes any integer and does not model the C `int` range of the status.
- Exit.SysExit: `proc_remthread`, `thread_exit` and the as-destroy branch compiled without OPT_WAITPID are not modelled.
- The values of `KERNEL_PTR` (0x80000000) and `INVALID_PTR` (0x40000000) used by `sys_waitpid` (kern/syscall/waitpid.c:38-44) are assumed. No file of this model defines them: the first is the MIPS kernel-segment base, the second a reserved user address.
- The pid table and `sys_fork` are not part of this model. `WaitPid.SysWaitpid` receives the lookup's result and the caller's child count as parameters.

## Findings

| source | as written | input that shows it | evidently intended | confidence | as-written member | corrected member |
|---|---|---|---|---|---|---|
| kern/syscall/runprogram.c:229-238 | the pointer loop passes each string's user address as the SOURCE of a 4-byte `copyout` to the same `stackptr` every time, so no argv array is built and the word at argv holds string bytes | `execv("p", ["a"])` with stack top 0x1000: "a" lands at 0xFFC, and argv (0xFFC) then holds 0x61000000 | argv of `argc + 1` pointer slots below the strings, slot `i` holding string `i`'s address and the last NULL | not executed | RunProgram.PointerLoopLosesArgv | RunProgram.PushArgvContent |
| kern/syscall/curdir_syscalls.c:77-79 | on success `*return_value` is set to 0 and the byte count is returned as if it were an error code | cwd set, `vfs_getcwd` succeeds into a 16-byte buffer leaving 15 bytes: returns 1 (a failure) with `*return_value` 0 | return 0 with `*return_value` holding the byte count, as the comment at lines 32-38 describes | not executed | CurDir.GetcwdSuccessReportedAsFailure | CurDir.SysGetcwdIntended |
