/** The error codes of src/error.h, and what a request to the brick can meet. */
module Errors {
  const ERR_UNK := 0
  const ERR_IO := 2
  const ERR_FTOOBIG := 3
  const ERR_COMM := 5
  const ERR_VM := 6
  const ERR_USBLOOP := 8

  const VM_SYS_RQ := 1
  const VM_OK := 3
  const VM_ERROR := 5

  datatype Answer = WriteFails | ReadFails | Reply(type_: int)
}
