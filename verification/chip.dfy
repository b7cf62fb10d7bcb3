/** Constants of the QF9700 driver.

    The numeric values of the framing overheads, the multicast limit, the
    shared-register poll budget and the register numbers come from qf9700.h,
    which is not part of this model: they are gathered in `Constants` and every
    operation takes them as a parameter.  The multicast table size is fixed at
    eight bytes by the driver's own comment. */
module Chip {
  import opened Bytes

  /** Linux error numbers used by the driver (returned negated). */
  const EIO: int := 5
  const ENODEV: int := 19
  const EINVAL: int := 22

  /** Size of the multicast hash table in bytes. */
  const MCAST_SIZE: nat := 8

  /** Bytes `dev->data` offers to the driver (the hash table lives at its start). */
  const USBNET_DATA_SIZE: nat := 20

  datatype Constants = Constants(
    rxOverhead: nat,    // QF_RX_OVERHEAD: smallest receive transfer the decoder accepts
    txOverhead: nat,    // QF_TX_OVERHEAD: bytes pushed in front of a transmitted frame
    mcastMax: nat,      // QF_MCAST_MAX: most multicast addresses the hash filter takes
    shareTimeout: nat,  // QF_SHARE_TIMEOUT: polls of EPCR before a shared access gives up
    epar: byte,         // EEPROM/PHY address register
    epcr: byte,         // EEPROM/PHY control register
    epdr: byte,         // EEPROM/PHY data register (two bytes, little-endian)
    mar: byte,          // first multicast address register
    rcr: byte)          // receive control register
  {
    /** The receive header is three bytes and the transmit header two, so the
        overheads are at least that large. */
    predicate Valid() {
      rxOverhead >= 3 && txOverhead >= 2
    }
  }
}
