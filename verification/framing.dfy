/** The bulk-pipe framing.  A received frame is a status byte, a 16-bit
    little-endian length that counts the payload and its 4-byte Ethernet CRC,
    the payload and the CRC.  A transmitted frame is a 16-bit little-endian
    length followed by the packet, padded so that the USB transfer never ends
    on an odd length or on a multiple of the endpoint's packet size. */
module Framing {
  import opened Chip
  import opened Bytes
  import opened Usb
  import opened SkBuffs

  // ---------------------------------------------------------------------
  // Receive

  /** What `qf9700_rx_fixup` makes of one frame. */
  datatype RxVerdict =
    | Tiny                         // shorter than the receive overhead
    | Rejected(status: byte)       // an error bit is set in the status byte
    | Accepted(payload: seq<byte>) // handed up the stack

  /** The length field minus the CRC, as the signed `int` the driver keeps. */
  function RxLength(frame: seq<byte>): (len: int)
    requires |frame| >= 3
    ensures -4 <= len < 0x10000 - 4
  {
    Le16(frame[1], frame[2]) - 4
  }

  /** `skb_trim` takes an `unsigned int`: a negative length becomes a huge one. */
  function TrimLength(len: int): (n: nat)
    requires -4 <= len < 0x10000
    ensures n < 0x1_0000_0000
    ensures len >= 0 ==> n == len
    ensures len < 0 ==> n >= 0x1_0000_0000 - 4
  {
    len % 0x1_0000_0000
  }

  function RxDecode(c: Constants, frame: seq<byte>): RxVerdict
    requires c.Valid()
  {
    if |frame| < c.rxOverhead then Tiny
    else if AnySet(frame[0], 0xbf) then Rejected(frame[0])
    else
      var n := TrimLength(RxLength(frame));
      var body := frame[3..];
      Accepted(if |body| > n then body[..n] else body)
  }

  function Tick(b: bool): nat { if b then 1 else 0 }

  /** The counters a rejected frame with this status byte moves. */
  function CountRxErrors(s: Stats, status: byte): Stats {
    Stats(
      s.rxFifoErrors + Tick(AnySet(status, 0x01)),
      s.rxCrcErrors + Tick(AnySet(status, 0x02)),
      s.rxFrameErrors + Tick(AnySet(status, 0x04)),
      s.rxMissedErrors + Tick(AnySet(status, 0x20)),
      s.rxLengthErrors + Tick(AnySet(status, 0x90)))
  }

  /** Bit 6 is the only status bit that does not reject a frame. */
  lemma RxRejectMask(status: byte)
    ensures !AnySet(status, 0xbf) <==> status == 0 || status == 0x40
  {
    AnySetBits(status, 0xbf);
    if status == 0 {
      ZeroNoneSet(0xbf);
    }
    if !AnySet(status, 0xbf) {
      if Bit(status, 6) {
        forall i: nat | i < 8
          ensures Bit(status, i) <==> Bit(0x40, i)
        {
          assert i == 0 || i == 1 || i == 2 || i == 3 || i == 4 || i == 5 || i == 6 || i == 7;
        }
        SameBits(status, 0x40);
      } else {
        forall i: nat | i < 8
          ensures Bit(status, i) <==> Bit(0, i)
        {
          ZeroBits(i);
          assert i == 0 || i == 1 || i == 2 || i == 3 || i == 4 || i == 5 || i == 6 || i == 7;
        }
        SameBits(status, 0);
      }
    }
  }

  /** Each error counter moves by one exactly when its status bits are set:
      FIFO overflow bit 0, CRC bit 1, alignment bit 2, missed bit 5, and the
      length counter for either bit 4 or bit 7. */
  lemma RxErrorCounters(s: Stats, status: byte)
    ensures var t := CountRxErrors(s, status);
      && t.rxFifoErrors == s.rxFifoErrors + Tick(Bit(status, 0))
      && t.rxCrcErrors == s.rxCrcErrors + Tick(Bit(status, 1))
      && t.rxFrameErrors == s.rxFrameErrors + Tick(Bit(status, 2))
      && t.rxMissedErrors == s.rxMissedErrors + Tick(Bit(status, 5))
      && t.rxLengthErrors == s.rxLengthErrors + Tick(Bit(status, 4) || Bit(status, 7))
  {
    AnySetBits(status, 0x01);
    AnySetBits(status, 0x02);
    AnySetBits(status, 0x04);
    AnySetBits(status, 0x20);
    AnySetBits(status, 0x90);
  }

  /** A frame rejected for bit 3 alone is dropped without a trace: some
      counter moves exactly when a bit other than 3 and 6 is set. */
  lemma RxUncountedRejection(s: Stats, status: byte)
    ensures CountRxErrors(s, status) != s <==> AnySet(status, 0xb7)
    ensures AnySet(0x08, 0xbf) && CountRxErrors(s, 0x08) == s
  {
    RxErrorCounters(s, status);
    AnySetBits(status, 0xb7);
    RxErrorCounters(s, 0x08);
    AnySetBits(0x08, 0xbf);
  }

  /** The frame the adapter builds around a payload decodes to that payload:
      the status byte is clean, the length field counts the CRC, and the CRC
      is cut off again. */
  lemma RxRoundTrip(c: Constants, status: byte, payload: seq<byte>, crc: seq<byte>)
    requires c.Valid() && c.rxOverhead <= |payload| + 7
    requires status == 0 || status == 0x40
    requires |crc| == 4 && |payload| + 4 < 0x10000
    ensures RxDecode(c, [status] + Le16Bytes(|payload| + 4) + payload + crc) == Accepted(payload)
  {
    var header := Le16Bytes(|payload| + 4);
    var frame := [status] + header + payload + crc;
    assert frame[0] == status && frame[1] == header[0] && frame[2] == header[1];
    assert frame[3..] == payload + crc;
    RxRejectMask(status);
    assert RxLength(frame) == |payload|;
    assert (payload + crc)[..|payload|] == payload;
  }

  /** The accepted payload starts at byte 3 and is cut to the length field
      minus the CRC; a length field below 4 cuts nothing. */
  lemma RxAcceptedPayload(c: Constants, frame: seq<byte>)
    requires c.Valid() && RxDecode(c, frame).Accepted?
    requires |frame| < 0x1_0000_0000
    ensures var p := RxDecode(c, frame).payload;
      && frame[0] in {0, 0x40}
      && p <= frame[3..]
      && (RxLength(frame) < 0 ==> p == frame[3..])
      && (0 <= RxLength(frame) <= |frame| - 3 ==> |p| == RxLength(frame))
      && (RxLength(frame) > |frame| - 3 ==> p == frame[3..])
  {
    RxRejectMask(frame[0]);
  }

  /** The counter updates of a rejected frame in `qf9700_rx_fixup`. */
  method CountErrors(net: NetDevice, status: byte)
    modifies net`stats
    ensures net.stats == CountRxErrors(old(net.stats), status)
  {
    if AnySet(status, 0x01) {
      net.stats := net.stats.(rxFifoErrors := net.stats.rxFifoErrors + 1);
    }
    if AnySet(status, 0x02) {
      net.stats := net.stats.(rxCrcErrors := net.stats.rxCrcErrors + 1);
    }
    if AnySet(status, 0x04) {
      net.stats := net.stats.(rxFrameErrors := net.stats.rxFrameErrors + 1);
    }
    if AnySet(status, 0x20) {
      net.stats := net.stats.(rxMissedErrors := net.stats.rxMissedErrors + 1);
    }
    if AnySet(status, 0x90) {
      net.stats := net.stats.(rxLengthErrors := net.stats.rxLengthErrors + 1);
    }
  }

  /** `qf9700_rx_fixup`: returns 1 for a frame to hand up, 0 otherwise. */
  method RxFixup(dev: Usbnet, c: Constants, skb: SkBuff) returns (r: int)
    requires c.Valid()
    modifies skb, dev.net`stats
    ensures var v := RxDecode(c, old(skb.data));
      && (r == 1 <==> v.Accepted?)
      && (r == 0 <==> !v.Accepted?)
      && (v.Accepted? ==> && skb.data == v.payload
                          && skb.head == old(skb.head + skb.data[..3])
                          && dev.net.stats == old(dev.net.stats))
      && (v.Tiny? ==> && skb.data == old(skb.data) && skb.head == old(skb.head)
                      && dev.net.stats == old(dev.net.stats))
      && (v.Rejected? ==> && skb.data == old(skb.data) && skb.head == old(skb.head)
                          && dev.net.stats == CountRxErrors(old(dev.net.stats), v.status))
  {
    ghost var v := RxDecode(c, skb.data);
    if |skb.data| < c.rxOverhead {
      assert v.Tiny?;
      return 0;
    }
    var status := skb.data[0];
    var len := Le16(skb.data[1], skb.data[2]) - 4;

    if AnySet(status, 0xbf) {
      assert v == Rejected(status);
      CountErrors(dev.net, status);
      return 0;
    }

    assert v.Accepted? && len == RxLength(old(skb.data));
    var pulled := skb.Pull(3);
    skb.Trim(TrimLength(len));
    return 1;
  }

  // ---------------------------------------------------------------------
  // Transmit

  /** A transfer length the adapter's FIFO copes with: even, and not a
      multiple of the bulk endpoint's packet size. */
  predicate TxLengthOk(len: int, maxpacket: nat)
    requires maxpacket > 0
  {
    len % 2 == 0 && len % maxpacket != 0
  }

  /** With a packet size of 1 or 2 no length is acceptable. */
  lemma TxNoLengthOk(len: int, maxpacket: nat)
    requires maxpacket == 1 || maxpacket == 2
    ensures !TxLengthOk(len, maxpacket)
  {
  }

  /** Two even lengths 2 apart are not both multiples of a packet size above 2. */
  lemma NextEvenNotMultiple(e: int, maxpacket: nat)
    requires maxpacket > 2 && e % maxpacket == 0
    ensures (e + 2) % maxpacket == 2
  {
    var q := e / maxpacket;
    assert e == q * maxpacket;
    ModUnique(e + 2, maxpacket, q, 2);
  }

  /** Division with remainder is unique. */
  lemma ModUnique(a: int, m: nat, q: int, r: int)
    requires m > 0 && a == q * m + r && 0 <= r < m
    ensures a % m == r
  {
    var k := a / m - q;
    assert a == (a / m) * m + a % m;
    assert k * m == r - a % m;
    if k >= 1 {
      assert k * m == m + (k - 1) * m;
    }
  }

  /** Of any four consecutive lengths one is acceptable once the packet size
      exceeds 2. */
  lemma TxPadWithinThree(start: int, maxpacket: nat)
    requires maxpacket > 2
    ensures || TxLengthOk(start, maxpacket) || TxLengthOk(start + 1, maxpacket)
            || TxLengthOk(start + 2, maxpacket) || TxLengthOk(start + 3, maxpacket)
  {
    var e := if start % 2 == 0 then start else start + 1;
    if e % maxpacket == 0 {
      NextEvenNotMultiple(e, maxpacket);
      assert TxLengthOk(e + 2, maxpacket);
    } else {
      assert TxLengthOk(e, maxpacket);
    }
  }

  /** The length the padding loop settles on: the least acceptable length
      from `start` on, at most 3 bytes further. */
  function PaddedLength(start: int, maxpacket: nat): (len: int)
    requires maxpacket > 2
    ensures start <= len <= start + 3
    ensures TxLengthOk(len, maxpacket)
    ensures forall l :: start <= l < len ==> !TxLengthOk(l, maxpacket)
  {
    TxPadWithinThree(start, maxpacket);
    if TxLengthOk(start, maxpacket) then start
    else if TxLengthOk(start + 1, maxpacket) then start + 1
    else if TxLengthOk(start + 2, maxpacket) then start + 2
    else start + 3
  }

  /** The padding loop of `qf9700_tx_fixup`: one byte at a time until the
      length is acceptable. */
  method PadLength(start: nat, maxpacket: nat) returns (len: nat)
    requires maxpacket > 2
    ensures len == PaddedLength(start, maxpacket)
  {
    len := start;
    while len % 2 == 1 || len % maxpacket == 0
      invariant start <= len <= PaddedLength(start, maxpacket)
      decreases PaddedLength(start, maxpacket) - len
    {
      len := len + 1;
    }
  }

  /** `__skb_push` of the header, `pad` zero bytes behind the packet, and
      `len` stored little-endian in the header. */
  method PushHeader(c: Constants, skb: SkBuff, len: int, pad: nat)
    requires c.Valid() && |skb.head| >= c.txOverhead
    modifies skb
    ensures |skb.data| == old(|skb.data|) + c.txOverhead + pad
    ensures skb.head == old(skb.head[..|skb.head| - c.txOverhead])
    ensures skb.data[..2] == Le16Bytes(len)
    ensures Le16(skb.data[0], skb.data[1]) == len % 0x10000
    ensures skb.data[2..] == old(skb.head[|skb.head| - c.txOverhead + 2..] + skb.data) + Zeros(pad)
  {
    ghost var cut := |skb.head| - c.txOverhead;
    ghost var pushed := old(skb.head[cut..] + skb.data);
    skb.Push(c.txOverhead);
    if pad > 0 {
      skb.PutZeros(pad);
    }
    assert skb.data == pushed + Zeros(pad);
    skb.SetByte(0, U8(len));
    skb.SetByte(1, U8(len / 256));
    assert skb.data[2..] == pushed[2..] + Zeros(pad);
    assert pushed[2..] == old(skb.head[cut + 2..] + skb.data);
  }

  /** `qf9700_tx_fixup` as written, taking the branch where the headroom is
      there: the header carries the padded length, but the number of zero
      bytes appended is `pad`, a variable the driver never assigns. */
  method TxFixup(c: Constants, skb: SkBuff, maxpacket: nat, pad: nat) returns (len: int)
    requires c.Valid() && maxpacket > 2
    requires |skb.head| >= c.txOverhead
    modifies skb
    ensures len == PaddedLength(old(|skb.data|) + c.txOverhead, maxpacket)
    ensures |skb.data| == old(|skb.data|) + c.txOverhead + pad
    ensures skb.head == old(skb.head[..|skb.head| - c.txOverhead])
    ensures skb.data[..2] == Le16Bytes(len)
    ensures Le16(skb.data[0], skb.data[1]) == len % 0x10000
    ensures skb.data[2..] == old(skb.head[|skb.head| - c.txOverhead + 2..] + skb.data) + Zeros(pad)
    ensures |skb.data| == len <==> pad == len - (old(|skb.data|) + c.txOverhead)
    ensures pad == 0 && (old(|skb.data|) + c.txOverhead) % 2 == 1 ==>
              |skb.data| < len && !TxLengthOk(|skb.data|, maxpacket)
  {
    len := PadLength(|skb.data| + c.txOverhead, maxpacket);
    PushHeader(c, skb, len, pad);
  }

  /** `qf9700_tx_fixup` with `pad` set to the padding the loop chose: the
      transfer length is one the adapter's FIFO copes with, even and not a
      multiple of the packet size.  The header keeps the value the driver
      writes, the padded length. */
  method PaddedTxFixup(c: Constants, skb: SkBuff, maxpacket: nat) returns (len: int)
    requires c.Valid() && maxpacket > 2
    requires |skb.head| >= c.txOverhead
    modifies skb
    ensures len == PaddedLength(old(|skb.data|) + c.txOverhead, maxpacket)
    ensures |skb.data| == len && TxLengthOk(|skb.data|, maxpacket)
    ensures len - 3 <= old(|skb.data|) + c.txOverhead <= len
    ensures skb.head == old(skb.head[..|skb.head| - c.txOverhead])
    ensures skb.data[..2] == Le16Bytes(len)
    ensures skb.data[2..] == old(skb.head[|skb.head| - c.txOverhead + 2..] + skb.data)
                             + Zeros(len - old(|skb.data|) - c.txOverhead)
  {
    var start := |skb.data| + c.txOverhead;
    len := PadLength(start, maxpacket);
    PushHeader(c, skb, len, len - start);
  }
}
