/** The error numbers of the C library. */
module Errno {
  const EIO := 5
  const EWOULDBLOCK := 11
  const EACCES := 13
  const ENODEV := 19
  const EINVAL := 22
  const EMFILE := 24
  const ENOTTY := 25
  const EBADFD := 81
  const ENOTSUP := 134
}
