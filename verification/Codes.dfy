/** The numbers the drivers and the escape protocol agree on. */
module Codes {
  /** Error codes of the kernel; functions return their negation. */
  const EIO := 5
  const ENXIO := 6
  const ENOMEM := 12
  const EFAULT := 14
  const EBUSY := 16
  const EINVAL := 22
  const ERESTARTSYS := 512

  /** Whose turn it is on the escape page: FH_TURN_HOST and FH_TURN_GUEST. */
  const TURN_HOST: nat := 1
  const TURN_GUEST: nat := 2

  /** The requests of the escape page, FH_ACTION_*; a handshake names one as its purpose. */
  const ACTION_MMAP: nat := 13
  const ACTION_UNMAP: nat := 16
  const ACTION_DMA: nat := 23
  const ACTION_TRANSFER: nat := 30

  /** action_transfer_escape_data_status_*. */
  const STATUS_OK: nat := 1
  const STATUS_SIZE: nat := 2
  const STATUS_DATA: nat := 3
  const STATUS_ERROR: nat := 4
}
