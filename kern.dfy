/** Constants, small types and the Option wrapper shared by every module of
    the model. Values follow OS/161's kern/errno.h, kern/limits.h,
    kern/fcntl.h, kern/seek.h, kern/unistd.h and kern/wait.h. */
module Kern {

  datatype Option<+T> = None | Some(value: T)

  /** Unsigned 32-bit integers (`unsigned int`, `vaddr_t`). */
  const U32: int := 0x1_0000_0000
  newtype u32 = x: int | 0 <= x < 0x1_0000_0000

  /** One byte of user memory. */
  newtype byte = x: int | 0 <= x < 256

  /** `x++` on an `unsigned int`: wraps from UINT_MAX to 0. */
  function IncU32(x: u32): (r: u32)
    ensures r as int == (x as int + 1) % U32
    ensures x as int < U32 - 1 ==> r as int == x as int + 1
  {
    if x as int == U32 - 1 then 0 else x + 1
  }

  /** `x--` on an `unsigned int`: wraps from 0 to UINT_MAX. */
  function DecU32(x: u32): (r: u32)
    ensures r as int == (x as int - 1) % U32
    ensures IncU32(r) == x
  {
    if x == 0 then (U32 - 1) as u32 else x - 1
  }

  /** `x - k` on an `unsigned int` (`vaddr_t`): wraps below 0. */
  function SubU32(x: u32, k: nat): (r: u32)
    ensures r as int == (x as int - k) % U32
    ensures k <= x as int ==> r as int == x as int - k
  {
    ((x as int - k) % U32) as u32
  }

  // memory layout (MIPS, 32-bit): user addresses lie below USERSPACETOP;
  // KERNEL_PTR and INVALID_PTR are the bounds `sys_waitpid` compares with
  const USERSPACETOP: int := 0x8000_0000
  const KERNEL_PTR: int := 0x8000_0000
  const INVALID_PTR: int := 0x4000_0000

  // limits
  const OPEN_MAX: int := 128
  const SYSTEM_OPEN_MAX: int := 10 * OPEN_MAX
  const MAX_FILES: int := 50
  const ARG_MAX: int := 64 * 1024
  const PATH_MAX: int := 1024
  const PID_MIN: int := 2
  const PID_MAX: int := 32767

  // standard descriptors
  const STDIN_FILENO: int := 0
  const STDOUT_FILENO: int := 1
  const STDERR_FILENO: int := 2

  // error numbers
  const ENOMEM: int := 3
  const EINTR: int := 5
  const EFAULT: int := 6
  const EINVAL: int := 8
  const E2BIG: int := 14
  const ESRCH: int := 15
  const ECHILD: int := 16
  const ENOENT: int := 19
  const EMFILE: int := 28
  const ENFILE: int := 29
  const EBADF: int := 30

  // open flags
  const O_RDONLY: int := 0
  const O_WRONLY: int := 1
  const O_RDWR: int := 2
  const O_ACCMODE: int := 3
  const O_APPEND: int := 32

  // lseek whence
  const SEEK_SET: int := 0
  const SEEK_CUR: int := 1
  const SEEK_END: int := 2

  // waitpid options
  const WNOHANG: int := 1

  /** `flags & O_ACCMODE` on a two's-complement int: the low two bits,
      which Euclidean remainder gives for negative flags as well. */
  function AccMode(flags: int): (m: int)
    ensures 0 <= m < 4
    ensures (flags - m) % 4 == 0
  {
    flags % 4
  }

  /** `flags & O_APPEND` is non-zero: bit 5 of the two's-complement value. */
  predicate HasAppend(flags: int)
  {
    (flags / O_APPEND) % 2 == 1
  }
}
