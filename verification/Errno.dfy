/** The kernel's error numbers; calls return them negated. */
module Errno {
  const EIO := 5
  const E2BIG := 7
  const ENOMEM := 12
  const EFAULT := 14
  const EBUSY := 16
  const EINVAL := 22
  const ERESTARTSYS := 512
}
