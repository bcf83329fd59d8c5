/** Status codes shared by the modelled files (include/defines.h and errno.h). */
module Errno {
  const STATUS_SUCCESS := 0
  const STATUS_PENDING := 0x10001
  const ENOENT := 2
  const E2BIG := 7
  const EAGAIN := 11
  const ENOMEM := 12
  const EACCES := 13
  const EFAULT := 14
  const EEXIST := 17
  const EINVAL := 22
  const EFBIG := 27
  const ERANGE := 34
  const ENAMETOOLONG := 36
  const EBADMSG := 74
  const EOVERFLOW := 75
  const ENOTSUP := 95
  // negative as gint32
  const ERROR_STATE := 0x80010003 - 0x1_0000_0000
  const ERROR_FALSE := 0x80010007 - 0x1_0000_0000

  type Failure = r: int | r < 0 witness -1
}
