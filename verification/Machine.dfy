/**
 What the modules share: bytes, pages, 64-bit words, and the result codes.
 */
module Machine {

  type Byte = bv8

  const PAGE_SIZE: nat := 0x1000
  const WORD: nat := 0x1_0000_0000_0000_0000   // addresses and sizes are unsigned 64-bit

  predicate OnPage(a: nat) {
    a % 0x1000 == 0
  }

  const KERN_SUCCESS := 0
  const KERN_INVALID_ADDRESS := 1
  const KERN_INVALID_ARGUMENT := 4
  const KERN_FAILURE := 5
  const KERN_RESOURCE_SHORTAGE := 6
  const KERN_NOT_SUPPORTED := 46

  const ENOMEM := 12
  const EFAULT := 14
  const EEXIST := 17
  const EINVAL := 22
  const ENFILE := 23
  const EWOULDBLOCK := 35
}
