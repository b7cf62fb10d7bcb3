# QF9700 USB Ethernet driver, modelled in Dafny

A model of the chip-specific core of the Linux `qf9700` usbnet driver
(`qf9700.c`), with proofs about it:

- **Register access.** `qf_read`/`qf_write` with their error normalisation,
  the single-register and asynchronous variants, and the shared-word
  protocol through EPAR/EPCR/EPDR. A shared read selects the word, starts
  the command and polls EPCR until its busy bit clears, then clears EPCR and
  reads EPDR. A shared write loads EPDR first, then selects the word, starts
  the command, polls the same way and clears EPCR. In both, a failing poll
  returns its error and an exhausted poll budget returns `-EIO`, and EPCR is
  then neither cleared nor, for a read, EPDR read.
- **The two users of the shared-word protocol.** The ethtool EEPROM dump,
  16-bit words read in order and stopping at the first failure, and the MII
  bridge to the internal PHY, where only PHY id 0 is reachable.
- **Receive filter.** The eight-byte multicast hash table, in which bit
  `crc >> 26` stands for an address and bit 63 for broadcast, and the receive
  control byte for promiscuous, all-multicast or hashed filtering.
- **Bulk-pipe framing.**
  - Receive: a status byte, a little-endian length that counts the 4-byte
    CRC, the payload and the CRC. A frame with any status bit but bit 6 set is
    dropped. Bits 0, 1, 2, 4, 5 and 7 are counted in the receive error
    statistics; a frame with bit 3 alone is dropped uncounted.
  - Transmit: a 2-byte little-endian length in front of the packet. The
    length is padded until it is even and not a multiple of the endpoint's
    packet size.
- **Link status.** The interrupt endpoint's 8-byte block. While the carrier
  is off, bit 6 of byte 0 turns it on and defers a link reset. The carrier is
  never turned off.

How the model is built:

- **Control transfers.** A control transfer is observed as the `Request` the
  driver issues; the `Usbnet` object keeps them in `log`. The adapter's
  behaviour is a fixed `script` of replies. The k-th request gets
  `Answer(script, k)`, and a request beyond the script fails with `-ENODEV`.
  Every property is stated for every script.
- **State changes.** What the driver changes in place is changed in place:
  - the request log, `dev->data` (an `array`), the carrier flag and the
    receive counters of the network device;
  - the socket buffer, a `SkBuff` object with its headroom and packet bytes.
- **Methods and functions.** Each method is proved against a function of the
  old state, for example `ShareRead` and `Eeprom`. The lemmas are about
  those functions.
- **Bytes and bits.** Bytes are a `byte` newtype. The bit operations the
  driver uses (`|= 1 << i`, `& mask`) are written arithmetically on natural
  numbers and characterised bit by bit. The receive path tests a mask with
  `AnySet` (some bit set in both), which is proved to agree with the
  arithmetic AND being nonzero.
- **Header constants.** The values from `qf9700.h` are fields of a
  `Constants` parameter, because `qf9700.h` is not part of this model. That
  covers the overheads, `QF_MCAST_MAX`, `QF_SHARE_TIMEOUT` and the register
  numbers.

Behaviours of the driver that the proofs bring out:

- A received frame whose status has only bit 3 set is dropped without moving
  any counter (`Framing.RxUncountedRejection`).
- A length field below 4 makes the trim length negative. `skb_trim` takes it
  as a huge unsigned value, so the CRC is not cut off
  (`Framing.RxAcceptedPayload`).
- The carrier latches on (`LinkStatus.CarrierLatches`).
- With an endpoint packet size of 1 or 2, the transmit padding loop never
  ends (`Framing.TxNoLengthOk`).
- EPAR alone does not tell a PHY access from an EEPROM access: EEPROM word
  0x41 writes the same EPAR value as PHY register 1. Only the EPCR command
  differs (`Registers.ParValueSelects`, `EepromMdio.EepromFirstWord`).
- `qf9700_mdio_read` returns its local word whether or not the read
  succeeded, so a failed read returns a stale or partly stale word: one
  whose EPDR read copied a single byte is half new and half stale.

## Model

| member | source | states |
|---|---|---|
| Bytes.Le16 | qf9700.c:399 | the header length is the low byte plus 256 times the high byte, below 2^16, and gives back both bytes |
| Bytes.Le16Bytes | qf9700.c:453-454 | storing `len` and `len >> 8` into two bytes keeps the value modulo 2^16, low byte first |
| Bytes.Le16RoundTrip | qf9700.c:399 | reading a length field and storing it again gives back the same two bytes |
| Bytes.SetBit | qf9700.c:285 | or-ing in `1 << i` sets bit `i` and leaves every other bit as it was |
| Bytes.AndIsAnySet | qf9700.c:401-406 | `status & mask`, computed bit by bit on the numbers, is nonzero exactly when some bit is set in both the status and the mask |
| SkBuffs.SkBuff.Push | qf9700.c:446 | `__skb_push` moves the last `n` headroom bytes to the front of the packet |
| SkBuffs.SkBuff.Pull | qf9700.c:410 | `skb_pull` moves the first `n` packet bytes into the headroom when the packet has them, otherwise changes nothing |
| SkBuffs.SkBuff.Trim | qf9700.c:411 | `skb_trim` cuts the packet to `len` bytes only when it is longer |
| SkBuffs.SkBuff.SetByte | qf9700.c:453-454 | a store into one packet byte changes only that byte |
| SkBuffs.SkBuff.PutZeros | qf9700.c:448-451 | zeroing the tailroom and `__skb_put` append `n` zero bytes |
| Usb.Usbnet.ReadCmd | qf9700.c:33 | a read request is logged and returns the adapter's reply for that position |
| Usb.Usbnet.WriteCmd | qf9700.c:50 | a write request is logged and returns the adapter's reply code |
| Usb.Usbnet.WriteCmdAsync | qf9700.c:69 | an asynchronous write is logged and its outcome never reaches the driver |
| Registers.NormaliseRead | qf9700.c:35-36 | a read succeeds exactly when it moved `length` bytes; any other count is `-EINVAL`; errors pass through |
| Registers.NormaliseWrite | qf9700.c:52-53 | a write succeeds exactly when it moved at least `length` bytes; a short write is `-EINVAL`; errors pass through |
| Registers.NormaliseOverlongTransfer | qf9700.c:31-56 | an overlong transfer is an error for a read but success for a write |
| Registers.ReadCopiesWhole | qf9700.c:33-38 | a read `qf_read` accepts has copied exactly `length` bytes of data, and a read that copied `length` bytes is accepted |
| Registers.QfRead | qf9700.c:31-39 | one read request of `length` registers, normalised result, and the bytes copied |
| Registers.QfReadReg | qf9700.c:42-45 | a one-register read is a `qf_read` of length 1 |
| Registers.QfWrite | qf9700.c:48-56 | one multi-register write request, normalised result |
| Registers.QfWriteReg | qf9700.c:59-63 | one single-register write request with the value in the setup packet, unnormalised result |
| Registers.QfWriteAsync | qf9700.c:65-70 | one asynchronous multi-register write request |
| Registers.WriteRegAsyncDropsValue | qf9700.c:72-77 | every nonzero value is lost as written; the written request equals the intended one for value 0 |
| Registers.QfWriteRegAsync | qf9700.c:72-77 | one asynchronous request, the as-written one |
| Registers.ParValueSelects | qf9700.c:86 | a PHY access ORs 0x40 into EPAR; every other bit is the register number's |
| Registers.Poll | qf9700.c:89-100 | polling ends ready or failed within the budget, with a negative error when it fails |
| Registers.PollAllBusy | qf9700.c:89-106 | if every poll finds EPCR busy, polling times out |
| Registers.PollStopsAt | qf9700.c:89-100 | polling stops at the first poll that fails or finds EPCR idle and reports which |
| Registers.PollReported | qf9700.c:89-100 | what polling reports pins down the replies: all busy before the last poll, and the last poll idle or failed |
| Registers.PollRequestsAppend | qf9700.c:89-93 | each further pass of the poll loop adds one one-byte EPCR read at the end of the requests |
| Registers.ShareReadShape | qf9700.c:80-117 | a shared read first selects the word and starts the command; it succeeds only with a full two-byte EPDR read, after clearing EPCR |
| Registers.ShareReadTimesOut | qf9700.c:102-106 | all polls busy gives `-EIO` after the whole poll budget |
| Registers.ShareReadPollFails | qf9700.c:93-95 | a failing poll aborts the read with its error |
| Registers.ShareReadReady | qf9700.c:98-109 | an idle poll is followed by clearing EPCR and reading EPDR, whose result and bytes are returned |
| Registers.PollEpcr | qf9700.c:89-100 | the poll loop issues exactly the polls `Poll` describes and ends with the matching counter and code |
| Registers.ShareReadWord | qf9700.c:80-117 | the method issues exactly `ShareRead`'s requests and returns its code and bytes |
| Registers.ShareWrite | qf9700.c:120-157 | a shared write loads EPDR first, stops there on failure, and otherwise succeeds only after clearing EPCR, with code 1 |
| Registers.ShareWriteTimesOut | qf9700.c:146-150 | all polls busy after the command gives `-EIO` |
| Registers.ShareWritePollFails | qf9700.c:137-139 | a failing poll aborts the write with its error |
| Registers.ShareWriteReady | qf9700.c:142-152 | an idle poll is followed by clearing EPCR, and the write returns 1 |
| Registers.ShareWriteWord | qf9700.c:120-157 | the method issues exactly `ShareWrite`'s requests and returns its code |
| EepromMdio.DumpLength | qf9700.c:181-184 | for any reader whose words are two bytes on success, a complete dump holds two bytes per word and a failed one fewer |
| EepromMdio.DumpSplit | qf9700.c:181-184 | words are read in order: a dump that succeeds up to word `m` continues with words `m` onwards |
| EepromMdio.EepromReaderReadsWords | qf9700.c:159-162 | an EEPROM word read copies two bytes exactly when it succeeds |
| EepromMdio.EepromLength | qf9700.c:181-184 | a complete EEPROM dump holds two bytes per word; a failed one stops short |
| EepromMdio.EepromFirstWord | qf9700.c:159-183 | every word is an EEPROM access: EPAR gets `offset / 2 + i` modulo 256 as it is and EPCR the EEPROM read command; a word that fails ends the dump |
| EepromMdio.EepromSplit | qf9700.c:181-184 | the EEPROM words are read in order |
| EepromMdio.DumpStep | qf9700.c:181-184 | the current word's read either ends the dump or leads on to the next word |
| EepromMdio.Overlay | qf9700.c:182 | storing a word into the buffer writes its bytes and keeps every other byte |
| EepromMdio.Store | qf9700.c:182 | the copy into the caller's buffer writes exactly the copied bytes |
| EepromMdio.ReadEepromWord | qf9700.c:159-162 | the word read is a shared EEPROM read whose bytes land at the given place in the buffer |
| EepromMdio.DumpNext | qf9700.c:182-183 | one loop iteration keeps the dump invariant for the next word, or ends the dump |
| EepromMdio.DumpWords | qf9700.c:181-184 | the loop issues exactly the dump's requests, reports whether every word was read, and fills the buffer with the dumped bytes |
| EepromMdio.GetEeprom | qf9700.c:171-186 | an odd offset or length returns `-EINVAL` and touches nothing; otherwise the result is 0 exactly when every word was read |
| EepromMdio.MdioWord | qf9700.c:193-206 | a successful read returns the EPDR word; a read that copied nothing returns the stale local word, and one that copied a single byte returns that byte under the stale high byte |
| EepromMdio.MdioRead | qf9700.c:189-207 | a nonzero PHY id reads 0 with no request; PHY 0 is a shared PHY read, and a successful one returns its word |
| EepromMdio.MdioWrite | qf9700.c:210-224 | a nonzero PHY id issues nothing; PHY 0 gets a shared PHY write of the value as a little-endian word |
| Multicast.HashIndex | qf9700.c:284 | the hash of a 32-bit CRC is one of the 64 table bits |
| Multicast.BroadcastOnly | qf9700.c:269-270 | the initial table is eight bytes |
| Multicast.BroadcastOnlyBits | qf9700.c:269-270 | the initial table has the broadcast bit 63 and no other |
| Multicast.SetHashBits | qf9700.c:285 | hashing an address sets its bit and no other |
| Multicast.HashTableBits | qf9700.c:269-287 | the hashed table has exactly the broadcast bit and the bit of every listed address |
| Multicast.BroadcastAlwaysAccepted | qf9700.c:270 | every filter the driver programs accepts broadcast |
| Multicast.ControlBytes | qf9700.c:267-275 | the promiscuous control byte is 0x33 and the all-multicast one is 0x39 |
| Multicast.FilterModes | qf9700.c:267-287 | promiscuous gives 0x33 and all-multicast or an overlong list gives 0x39, both with the broadcast-only table; otherwise 0x31 with the hashed list |
| Multicast.RxControlNeverSent | qf9700.c:290 | every filter's control byte is nonzero, so the request as written never carries it |
| Multicast.SetMulticast | qf9700.c:261-291 | `dev->data` holds the filter's table, the rest of it is unchanged, and the table write then the control write are logged |
| Framing.RxLength | qf9700.c:399 | the payload length is the length field minus 4, between -4 and 2^16 - 5 |
| Framing.TrimLength | qf9700.c:411 | a non-negative length is kept; a negative one becomes a value at least 2^32 - 4 |
| Framing.RxRejectMask | qf9700.c:401 | a frame is accepted exactly when its status is 0 or 0x40 |
| Framing.RxErrorCounters | qf9700.c:402-406 | each counter moves by one exactly when its bits are set: FIFO bit 0, CRC 1, frame 2, missed 5, length 4 or 7 |
| Framing.RxUncountedRejection | qf9700.c:401-407 | some counter moves exactly when a bit other than 3 and 6 is set; status 0x08 is rejected with nothing counted |
| Framing.RxRoundTrip | qf9700.c:385-391 | a frame built around a payload with a clean status, its length plus CRC, and a CRC decodes to that payload |
| Framing.RxAcceptedPayload | qf9700.c:398-413 | an accepted payload is a prefix of the bytes after the header; its length is the field minus 4 when that fits, and no cut happens otherwise |
| Framing.CountErrors | qf9700.c:402-406 | the counters move as the status byte says |
| Framing.RxFixup | qf9700.c:380-414 | returns 1 exactly for an accepted frame, leaving its payload in the buffer; tiny and rejected frames are left alone, and a rejected one is counted |
| Framing.TxNoLengthOk | qf9700.c:433-434 | with a packet size of 1 or 2 no length is acceptable, so the loop cannot end |
| Framing.TxPadWithinThree | qf9700.c:428-434 | with a packet size above 2, one of any four consecutive lengths is acceptable |
| Framing.PaddedLength | qf9700.c:426-434 | the padded length is the least acceptable length from the start on, at most 3 bytes further |
| Framing.PadLength | qf9700.c:426-434 | the padding loop ends at exactly that least acceptable length |
| Framing.PushHeader | qf9700.c:446-454 | the header bytes come from the headroom, `pad` zeros are appended, and the header holds the length little-endian |
| Framing.TxFixup | qf9700.c:416-457 | as written, the transfer is the packet, the header and `pad` bytes, with `pad` never set: with `pad` 0 and an odd packet-plus-header length the transfer is odd, so not an acceptable length, and shorter than the padded length in the header; the header holds the padded length little-endian |
| Framing.PaddedTxFixup | qf9700.c:416-457 | corrected, with `pad` the padding the loop added, the transfer length is even and not a multiple of the packet size, at most 3 bytes past packet plus header; the header value is kept as written, the padded length |
| LinkStatus.StatusTransitions | qf9700.c:475-490 | the carrier comes on exactly when a full block reports link up; a link reset is deferred exactly when the carrier was off; short blocks and blocks seen while the carrier is on change nothing |
| LinkStatus.StatusIdempotent | qf9700.c:481-490 | the same block handled twice has the effect of handling it once |
| LinkStatus.CarrierLatches | qf9700.c:481-490 | over any run of blocks the carrier ends on exactly when it started on or some block reported link up |
| LinkStatus.Status | qf9700.c:459-491 | the carrier and the pending link reset change as a status block prescribes |

## Left out

- The PHY mutex, `udelay` and all logging: the model is sequential, with no time.
- USB I/O itself: a reply script stands in for the adapter, and a request log for what the driver sends.
- `ether_crc`: the multicast list enters as the 32-bit CRCs of its addresses, in list order.
- `is_valid_ether_addr`, `qf9700_set_mac_address`, `qf9700_bind`, `qf9700_link_reset`, `qf9700_ioctl`, `qf9700_get_link`, `get_drvinfo`, `get_eeprom_len` and the ops tables: these are glue to the kernel's framework, not part of the core.
- `qf9700.h` is not part of this model: its constants are fields of `Constants`. `Constants.Valid` assumes what the framing code needs of them: a receive overhead of at least the 3 header bytes and a transmit overhead of at least the 2 header bytes. Every framing member requires it.
- Framing.TxFixup: the branch that reallocates the buffer with `skb_copy_expand` when headroom or tailroom is short is not modelled, so the method requires `txOverhead` bytes of headroom. Tailroom is unbounded in `SkBuff`.
- Framing.TxFixup: `pad` is never assigned in the source, so it is a natural-number parameter. A negative garbage value is not modelled.
- Framing.TxFixup and Framing.PadLength require a packet size above 2, because for 1 or 2 the source loop never ends (`Framing.TxNoLengthOk`).
- Framing.TxFixup: the `int` overflow of `len` for packets near 2^31 bytes is not modelled.
- Framing.CountErrors: the counters are unbounded naturals; the wrap-around of `unsigned long` is not modelled.
- EepromMdio.MdioRead: the uninitialised `res` is a `stale` parameter; the compiler's freedom with an uninitialised read is not modelled.
- EepromMdio.GetEeprom: the buffer is an array of the dump's length; the kernel's check that the range lies inside the EEPROM is outside this driver.

## Findings

| source | as written | input that shows it | evidently intended | confidence | as-written member | corrected member |
|---|---|---|---|---|---|---|
| qf9700.c:72-77 | `qf_write_reg_async` puts 0 in the setup packet and drops `value` | `qf9700_set_multicast` in promiscuous mode writes 0 to RCR instead of 0x33, so neither the enable nor the promiscuous bit is set by it | send `value`, as `qf_write_reg` does at qf9700.c:62 | high, not executed | Registers.WriteRegAsyncRequest | Registers.IntendedWriteRegAsyncRequest |
| qf9700.c:418 | `pad` is declared but never assigned, yet it sizes the zero fill at qf9700.c:448-451 and the tailroom test at qf9700.c:436 | a 61-byte packet on a 64-byte full-speed endpoint: 63 pads to 66 and the header says 66, but with `pad` 0 a 63-byte transfer goes out | `pad` is the padding the loop added, the padded length minus the packet and header | high, not executed | Framing.TxFixup | Framing.PaddedTxFixup |

The as-written halves are backed by `Registers.WriteRegAsyncDropsValue` and
`Multicast.RxControlNeverSent` for the first row, and by
the last two postconditions of `Framing.TxFixup` for the second.
