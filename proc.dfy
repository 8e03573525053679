/** The kernel records the core works on: the open-file record
    (`struct openfile`), an address space seen as its user memory, and the
    fields of `struct proc` (kern/include/proc.h) that the core reads and
    writes. Vnodes and locks are opaque identities. */
module Procs {
  import opened Kern

  type Vnode = nat
  type LockId = nat

  /** `struct openfile`: one binding of a vnode with its offset and the
      number of table slots that are meant to share it. `freed` records
      that `kfree` has released the record. */
  class OpenFile {
    var vn: Option<Vnode>
    var mode: int
    var offset: int
    var accmode: int
    var lock: Option<LockId>
    var refCount: u32
    var freed: bool

    constructor (vn: Option<Vnode>, mode: int, offset: int, accmode: int,
                 lock: Option<LockId>, refCount: u32)
      ensures this.vn == vn && this.mode == mode && this.offset == offset
      ensures this.accmode == accmode && this.lock == lock
      ensures this.refCount == refCount && !freed
    {
      this.vn := vn;
      this.mode := mode;
      this.offset := offset;
      this.accmode := accmode;
      this.lock := lock;
      this.refCount := refCount;
      this.freed := false;
    }
  }

  /** An address space, reduced to what the core observes of it: the user
      memory it maps (an address is mapped when it is a key) and whether
      `as_destroy` has been called on it. */
  class AddrSpace {
    var mem: map<int, byte>
    var destroyed: bool

    /** Every mapped address is a user address. */
    ghost predicate Valid()
      reads this
    {
      forall a :: a in mem ==> 0 <= a < USERSPACETOP
    }

    constructor (image: map<int, byte>)
      requires forall a :: a in image ==> 0 <= a < USERSPACETOP
      ensures Valid() && mem == image && !destroyed
    {
      mem := image;
      destroyed := false;
    }
  }

  /** The fields of `struct proc` used by the core. `wakeups` has one
      entry per wake-up sent to the waiters of this process (`V(p_sem)`,
      or `cv_signal(p_cv)` in the condition-variable build), recording
      whether `p_exited` was already set when it was sent. */
  class Proc {
    var fileTable: array<OpenFile?>
    var addrspace: AddrSpace?
    var cwd: Option<Vnode>
    var status: int
    var exited: bool
    var wakeups: seq<bool>

    ghost predicate Valid()
      reads this
    {
      fileTable.Length == OPEN_MAX
    }
  }
}
