/** The error numbers the drivers return, negated. */
module Errno {
  const EIO := 5
  const ENXIO := 6
  const EAGAIN := 11
  const EBUSY := 16
  const EINVAL := 22
  const EPROTO := 71
  const ETIMEDOUT := 110
}
