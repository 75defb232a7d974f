/** The error numbers the modelled calls return, negated. */
module Errno {
  const EPERM: int := 1
  const ENOENT: int := 2
  const EIO: int := 5
  const EEXIST: int := 17
  const ENOSPC: int := 28
  const ENOATTR: int := 61
}
