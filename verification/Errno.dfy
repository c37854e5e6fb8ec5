/** The error numbers of Linux, negated where a function returns them. */
module Errno {
  const ENOENT: int := 2
  const EAGAIN: int := 11
  const EACCES: int := 13
  const EBUSY: int := 16
  const ENODEV: int := 19
  const EINVAL: int := 22
  const ENOSPC: int := 28
  const ERANGE: int := 34
  const EBADMSG: int := 74
  const EOVERFLOW: int := 75
  const ENOTSUP: int := 95
  const ETIMEDOUT: int := 110
}
