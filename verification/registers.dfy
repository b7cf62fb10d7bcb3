/** Register access: single and multi-register reads and writes with their
    error normalisation, and the shared-word protocol through EPAR/EPCR/EPDR
    that reaches the PHY and the EEPROM. */
module Registers {
  import opened Chip
  import opened Bytes
  import opened Usb

  /** `qf_read`'s result: a read that moved anything but exactly `length`
      bytes becomes -EINVAL; negative codes pass through. */
  function NormaliseRead(err: int, length: nat): (r: int)
    ensures r >= 0 <==> err == length
    ensures r >= 0 ==> r == length
    ensures err < 0 ==> r == err
    ensures err >= 0 && err != length ==> r == -EINVAL
  {
    if err != length && err >= 0 then -EINVAL else err
  }

  /** `qf_write`'s result: only a short write becomes -EINVAL; negative codes
      and counts of at least `length` pass through. */
  function NormaliseWrite(err: int, length: nat): (r: int)
    ensures r >= 0 <==> err >= length
    ensures err < 0 || err >= length ==> r == err
    ensures 0 <= err < length ==> r == -EINVAL
  {
    if err >= 0 && err < length then -EINVAL else err
  }

  /** A read that the driver accepts has copied the whole buffer, and one
      that copied the whole buffer is accepted. */
  lemma ReadCopiesWhole(r: Reply, size: nat)
    requires size > 0
    ensures NormaliseRead(r.status, size) >= 0 <==> |Copied(r, size)| == size
    ensures NormaliseRead(r.status, size) >= 0 ==> r.Done? && Copied(r, size) == r.data
  {
  }

  /** The two normalisations differ on a transfer that reports more bytes
      than asked for: the read calls it invalid, the write lets it through. */
  lemma NormaliseOverlongTransfer(err: int, length: nat)
    requires err > length
    ensures NormaliseRead(err, length) == -EINVAL
    ensures NormaliseWrite(err, length) == err
  {
  }

  method QfRead(dev: Usbnet, reg: byte, length: nat) returns (err: int, copied: seq<byte>)
    modifies dev`log
    ensures dev.log == old(dev.log) + [ReadRegs(reg, length)]
    ensures err == NormaliseRead(Answer(dev.script, |old(dev.log)|).status, length)
    ensures copied == Copied(Answer(dev.script, |old(dev.log)|), length)
  {
    err, copied := dev.ReadCmd(reg, length);
    if err != length && err >= 0 {
      err := -EINVAL;
    }
  }

  method QfReadReg(dev: Usbnet, reg: byte) returns (err: int, copied: seq<byte>)
    modifies dev`log
    ensures dev.log == old(dev.log) + [ReadRegs(reg, 1)]
    ensures err == NormaliseRead(Answer(dev.script, |old(dev.log)|).status, 1)
    ensures copied == Copied(Answer(dev.script, |old(dev.log)|), 1)
  {
    err, copied := QfRead(dev, reg, 1);
  }

  method QfWrite(dev: Usbnet, reg: byte, bytes: seq<byte>) returns (err: int)
    modifies dev`log
    ensures dev.log == old(dev.log) + [WriteRegs(reg, bytes)]
    ensures err == NormaliseWrite(Answer(dev.script, |old(dev.log)|).status, |bytes|)
  {
    err := dev.WriteCmd(WriteRegs(reg, bytes));
    if err >= 0 && err < |bytes| {
      err := -EINVAL;
    }
  }

  /** `qf_write_reg` returns the transfer's code unnormalised. */
  method QfWriteReg(dev: Usbnet, reg: byte, value: byte) returns (err: int)
    modifies dev`log
    ensures dev.log == old(dev.log) + [WriteReg(reg, value)]
    ensures err == Answer(dev.script, |old(dev.log)|).status
  {
    err := dev.WriteCmd(WriteReg(reg, value));
  }

  method QfWriteAsync(dev: Usbnet, reg: byte, bytes: seq<byte>)
    modifies dev`log
    ensures dev.log == old(dev.log) + [WriteRegs(reg, bytes)]
  {
    dev.WriteCmdAsync(WriteRegs(reg, bytes));
  }

  /** The request `qf_write_reg_async` issues, as written: the setup packet
      carries 0 whatever `value` the caller passed. */
  function WriteRegAsyncRequest(reg: byte, value: byte): (q: Request)
    ensures q.WriteReg? && q.reg == reg && q.value == 0
  {
    WriteReg(reg, 0)
  }

  /** The request `qf_write_reg_async` was evidently meant to issue, the
      asynchronous twin of `qf_write_reg`. */
  function IntendedWriteRegAsyncRequest(reg: byte, value: byte): (q: Request)
    ensures q.WriteReg? && q.reg == reg && q.value == value
  {
    WriteReg(reg, value)
  }

  /** As written, every nonzero value is lost; the intended request keeps it. */
  lemma WriteRegAsyncDropsValue(reg: byte, value: byte)
    requires value != 0
    ensures WriteRegAsyncRequest(reg, value) != IntendedWriteRegAsyncRequest(reg, value)
    ensures WriteRegAsyncRequest(reg, value) == IntendedWriteRegAsyncRequest(reg, 0)
  {
  }

  method QfWriteRegAsync(dev: Usbnet, reg: byte, value: byte)
    modifies dev`log
    ensures dev.log == old(dev.log) + [WriteRegAsyncRequest(reg, value)]
  {
    dev.WriteCmdAsync(WriteReg(reg, 0));
  }

  // ---------------------------------------------------------------------
  // Shared (PHY / EEPROM) word access

  /** The EPAR value that selects the word: 0x40 is ORed into the register
      number for a PHY access; an EEPROM access writes the word number as it
      is.  The EPCR command (`ReadCommand`, `WriteCommand`) tells the two kinds
      of access apart. */
  function ParValue(phy: bool, reg: byte): byte {
    if phy then SetBit(reg, 6) else reg
  }

  /** EPAR keeps the register number in its other bits. */
  lemma ParValueSelects(phy: bool, reg: byte)
    ensures Bit(ParValue(phy, reg), 6) <==> phy || Bit(reg, 6)
    ensures forall i: nat :: i != 6 ==> (Bit(ParValue(phy, reg), i) <==> Bit(reg, i))
  {
  }

  /** EPCR command that starts a read / a write of the selected word. */
  function ReadCommand(phy: bool): byte { if phy then 0xc else 0x4 }
  function WriteCommand(phy: bool): byte { if phy then 0x1a else 0x12 }

  /** A poll of EPCR that succeeded: the read moved exactly one byte. */
  predicate PollOk(r: Reply) { NormaliseRead(r.status, 1) >= 0 }

  /** A successful poll that found the busy bit (bit 0 of EPCR) still set. */
  predicate Busy(r: Reply) { PollOk(r) && Bit(r.data[0], 0) }

  datatype PollOutcome =
    | Ready(polls: nat)                // the last of `polls` polls found EPCR idle
    | PollFailed(err: int, polls: nat) // the last of `polls` polls failed with `err`
    | TimedOut                         // every poll found EPCR busy

  /** The polling loop, from poll `i` on, when poll j reads reply `Answer(script, k + j)`
      and at most `limit` polls are made. */
  function Poll(script: seq<Reply>, k: nat, i: nat, limit: nat): (o: PollOutcome)
    decreases limit - i
    ensures o.Ready? ==> i < o.polls <= limit
    ensures o.PollFailed? ==> i < o.polls <= limit && o.err < 0
  {
    if i >= limit then TimedOut
    else
      var r := Answer(script, k + i);
      var ret := NormaliseRead(r.status, 1);
      if ret < 0 then PollFailed(ret, i + 1)
      else if !Bit(r.data[0], 0) then Ready(i + 1)
      else Poll(script, k, i + 1, limit)
  }

  /** When every remaining poll finds EPCR busy, polling times out. */
  lemma {:induction false} PollAllBusy(script: seq<Reply>, k: nat, i: nat, limit: nat)
    requires forall m :: k + i <= m < k + limit ==> Busy(Answer(script, m))
    ensures Poll(script, k, i, limit) == TimedOut
    decreases limit - i
  {
    if i < limit {
      assert Busy(Answer(script, k + i));
      PollAllBusy(script, k, i + 1, limit);
    }
  }

  /** Polling stops at the first poll that fails or finds EPCR idle, and
      reports which. */
  lemma {:induction false} PollStopsAt(script: seq<Reply>, k: nat, i: nat, limit: nat, n: nat)
    requires i <= n < limit
    requires forall m :: k + i <= m < k + n ==> Busy(Answer(script, m))
    requires !Busy(Answer(script, k + n))
    ensures Poll(script, k, i, limit) ==
      if PollOk(Answer(script, k + n)) then Ready(n + 1)
      else PollFailed(NormaliseRead(Answer(script, k + n).status, 1), n + 1)
    decreases n - i
  {
    if i < n {
      assert Busy(Answer(script, k + i));
      PollStopsAt(script, k, i + 1, limit, n);
    }
  }

  /** Conversely, what polling reports pins down the polls it saw. */
  lemma {:induction false} PollReported(script: seq<Reply>, k: nat, i: nat, limit: nat)
    ensures var o := Poll(script, k, i, limit);
      && (o.TimedOut? ==> forall m :: k + i <= m < k + limit ==> Busy(Answer(script, m)))
      && (!o.TimedOut? ==> forall m :: k + i <= m < k + o.polls - 1 ==> Busy(Answer(script, m)))
      && (o.Ready? ==> PollOk(Answer(script, k + o.polls - 1)) && !Busy(Answer(script, k + o.polls - 1)))
      && (o.PollFailed? ==> !PollOk(Answer(script, k + o.polls - 1))
                            && o.err == NormaliseRead(Answer(script, k + o.polls - 1).status, 1))
    decreases limit - i
  {
    if i < limit {
      var r := Answer(script, k + i);
      if PollOk(r) && Bit(r.data[0], 0) {
        PollReported(script, k, i + 1, limit);
      }
    }
  }

  function PollRequests(epcr: byte, n: nat): (q: seq<Request>)
    ensures |q| == n && forall j :: 0 <= j < n ==> q[j] == ReadRegs(epcr, 1)
  {
    seq(n, _ => ReadRegs(epcr, 1))
  }

  /** One more poll adds one more EPCR read at the end. */
  lemma PollRequestsAppend(epcr: byte, n: nat)
    ensures PollRequests(epcr, n) + [ReadRegs(epcr, 1)] == PollRequests(epcr, n + 1)
  {
    var q := PollRequests(epcr, n) + [ReadRegs(epcr, 1)];
    assert forall j :: 0 <= j < n + 1 ==> q[j] == ReadRegs(epcr, 1);
  }

  /** Outcome of a shared-word access: the return code, the bytes copied into
      the caller's word, and the requests issued in order. */
  datatype ShareOutcome = ShareOutcome(ret: int, copied: seq<byte>, requests: seq<Request>)

  /** `qf_share_read_word` when its first request is the k-th of the device. */
  function ShareRead(c: Constants, script: seq<Reply>, k: nat, phy: bool, reg: byte): ShareOutcome
  {
    var start := [WriteReg(c.epar, ParValue(phy, reg)), WriteReg(c.epcr, ReadCommand(phy))];
    match Poll(script, k + 2, 0, c.shareTimeout)
    case TimedOut =>
      ShareOutcome(-EIO, [], start + PollRequests(c.epcr, c.shareTimeout))
    case PollFailed(err, n) =>
      ShareOutcome(err, [], start + PollRequests(c.epcr, n))
    case Ready(n) =>
      var r := Answer(script, k + 2 + n + 1);
      ShareOutcome(NormaliseRead(r.status, 2), Copied(r, 2),
                   start + PollRequests(c.epcr, n) + [WriteReg(c.epcr, 0), ReadRegs(c.epdr, 2)])
  }

  /** Every shared read first selects the word and starts the command; it
      succeeds only with a full two-byte EPDR read after clearing EPCR. */
  lemma ShareReadShape(c: Constants, script: seq<Reply>, k: nat, phy: bool, reg: byte)
    ensures var o := ShareRead(c, script, k, phy, reg);
      && |o.requests| >= 2
      && o.requests[0] == WriteReg(c.epar, ParValue(phy, reg))
      && o.requests[1] == WriteReg(c.epcr, ReadCommand(phy))
      && |o.copied| <= 2 && (|o.copied| == 2 <==> o.ret >= 0)
      && (o.ret >= 0 ==> && o.ret == 2
                         && |o.requests| >= 4
                         && o.requests[|o.requests| - 2..] == [WriteReg(c.epcr, 0), ReadRegs(c.epdr, 2)]
                         && o.copied == Copied(Answer(script, k + |o.requests| - 1), 2))
  {
  }

  /** The three ways a shared read can go, by what the EPCR polls return:
      every poll busy gives -EIO; a failing poll aborts with its error; an
      idle poll clears EPCR and reads EPDR. */
  lemma ShareReadTimesOut(c: Constants, script: seq<Reply>, k: nat, phy: bool, reg: byte)
    requires forall m :: k + 2 <= m < k + 2 + c.shareTimeout ==> Busy(Answer(script, m))
    ensures var o := ShareRead(c, script, k, phy, reg);
      && o.ret == -EIO
      && o.requests == [WriteReg(c.epar, ParValue(phy, reg)), WriteReg(c.epcr, ReadCommand(phy))]
                       + PollRequests(c.epcr, c.shareTimeout)
  {
    PollAllBusy(script, k + 2, 0, c.shareTimeout);
  }

  lemma ShareReadPollFails(c: Constants, script: seq<Reply>, k: nat, phy: bool, reg: byte, n: nat)
    requires n < c.shareTimeout
    requires forall m :: k + 2 <= m < k + 2 + n ==> Busy(Answer(script, m))
    requires !PollOk(Answer(script, k + 2 + n))
    ensures var o := ShareRead(c, script, k, phy, reg);
      && o.ret == NormaliseRead(Answer(script, k + 2 + n).status, 1) && o.ret < 0
      && o.requests == [WriteReg(c.epar, ParValue(phy, reg)), WriteReg(c.epcr, ReadCommand(phy))]
                       + PollRequests(c.epcr, n + 1)
  {
    PollStopsAt(script, k + 2, 0, c.shareTimeout, n);
  }

  lemma ShareReadReady(c: Constants, script: seq<Reply>, k: nat, phy: bool, reg: byte, n: nat)
    requires n < c.shareTimeout
    requires forall m :: k + 2 <= m < k + 2 + n ==> Busy(Answer(script, m))
    requires PollOk(Answer(script, k + 2 + n)) && !Busy(Answer(script, k + 2 + n))
    ensures var o := ShareRead(c, script, k, phy, reg);
      && o.ret == NormaliseRead(Answer(script, k + 4 + n).status, 2)
      && o.copied == Copied(Answer(script, k + 4 + n), 2)
      && o.requests == [WriteReg(c.epar, ParValue(phy, reg)), WriteReg(c.epcr, ReadCommand(phy))]
                       + PollRequests(c.epcr, n + 1) + [WriteReg(c.epcr, 0), ReadRegs(c.epdr, 2)]
  {
    PollStopsAt(script, k + 2, 0, c.shareTimeout, n);
  }

  /** The EPCR polling loop shared by both word accesses: `i` is the loop
      counter when the loop ends and `ret` the last poll's result. */
  method PollEpcr(dev: Usbnet, c: Constants) returns (ret: int, i: nat)
    modifies dev`log
    ensures var o := Poll(dev.script, old(|dev.log|), 0, c.shareTimeout);
      && (o.TimedOut? <==> i >= c.shareTimeout)
      && (o.TimedOut? ==> i == c.shareTimeout
                          && dev.log == old(dev.log) + PollRequests(c.epcr, c.shareTimeout))
      && (!o.TimedOut? ==> i == o.polls - 1 && dev.log == old(dev.log) + PollRequests(c.epcr, o.polls))
      && (o.PollFailed? ==> ret == o.err)
      && (o.Ready? ==> ret == 1)
      && (o.TimedOut? ==> ret >= 0)
  {
    ghost var k := |dev.log|;
    ret := 0;
    i := 0;
    while i < c.shareTimeout
      invariant i <= c.shareTimeout
      invariant dev.log == old(dev.log) + PollRequests(c.epcr, i)
      invariant Poll(dev.script, k, 0, c.shareTimeout) == Poll(dev.script, k, i, c.shareTimeout)
    {
      var tmp;
      ret, tmp := QfReadReg(dev, c.epcr);
      assert ret >= 0 ==> ret == 1;
      PollRequestsAppend(c.epcr, i);
      if ret < 0 {
        return;
      }
      if !Bit(tmp[0], 0) {
        break;
      }
      i := i + 1;
    }
  }

  method ShareReadWord(dev: Usbnet, c: Constants, phy: bool, reg: byte) returns (ret: int, copied: seq<byte>)
    modifies dev`log
    ensures var o := ShareRead(c, dev.script, old(|dev.log|), phy, reg);
      ret == o.ret && copied == o.copied && dev.log == old(dev.log) + o.requests
  {
    ghost var k := |dev.log|;
    ghost var start := [WriteReg(c.epar, ParValue(phy, reg)), WriteReg(c.epcr, ReadCommand(phy))];
    var _ := QfWriteReg(dev, c.epar, ParValue(phy, reg));
    var _ := QfWriteReg(dev, c.epcr, if phy then 0xc else 0x4);
    assert dev.log == old(dev.log) + start;
    ghost var po := Poll(dev.script, k + 2, 0, c.shareTimeout);
    copied := [];
    var i;
    ret, i := PollEpcr(dev, c);
    if ret < 0 {
      assert po.PollFailed?;
      return;
    }
    if i >= c.shareTimeout {
      assert po.TimedOut?;
      ret := -EIO;
      return;
    }
    assert po.Ready?;
    assert |dev.log| == k + 2 + po.polls;
    var _ := QfWriteReg(dev, c.epcr, 0x0);
    ret, copied := QfRead(dev, c.epdr, 2);
    assert dev.log == old(dev.log) + (start + PollRequests(c.epcr, po.polls) + [WriteReg(c.epcr, 0), ReadRegs(c.epdr, 2)]);
  }

  datatype WriteOutcome = WriteOutcome(ret: int, requests: seq<Request>)

  /** `qf_share_write_word` when its first request is the k-th of the device;
      `value` is the little-endian word as it lies in memory. */
  function ShareWrite(c: Constants, script: seq<Reply>, k: nat, phy: bool, reg: byte, value: seq<byte>): (o: WriteOutcome)
    requires |value| == 2
    ensures |o.requests| >= 1 && o.requests[0] == WriteRegs(c.epdr, value)
    ensures NormaliseWrite(Answer(script, k).status, 2) < 0 ==>
              o.ret == NormaliseWrite(Answer(script, k).status, 2) && |o.requests| == 1
    ensures o.ret >= 0 ==> && o.ret == 1
                           && |o.requests| >= 4
                           && o.requests[1] == WriteReg(c.epar, ParValue(phy, reg))
                           && o.requests[2] == WriteReg(c.epcr, WriteCommand(phy))
                           && o.requests[|o.requests| - 1] == WriteReg(c.epcr, 0)
  {
    var data := WriteRegs(c.epdr, value);
    var ret := NormaliseWrite(Answer(script, k).status, 2);
    if ret < 0 then WriteOutcome(ret, [data])
    else
      var start := [data, WriteReg(c.epar, ParValue(phy, reg)), WriteReg(c.epcr, WriteCommand(phy))];
      match Poll(script, k + 3, 0, c.shareTimeout)
      case TimedOut => WriteOutcome(-EIO, start + PollRequests(c.epcr, c.shareTimeout))
      case PollFailed(err, n) => WriteOutcome(err, start + PollRequests(c.epcr, n))
      case Ready(n) => WriteOutcome(1, start + PollRequests(c.epcr, n) + [WriteReg(c.epcr, 0)])
  }

  /** Once EPDR is loaded, a shared write polls like a read: every poll busy
      gives -EIO, a failing poll aborts with its error, and an idle poll is
      followed by clearing EPCR. */
  lemma ShareWriteTimesOut(c: Constants, script: seq<Reply>, k: nat, phy: bool, reg: byte, value: seq<byte>)
    requires |value| == 2
    requires NormaliseWrite(Answer(script, k).status, 2) >= 0
    requires forall m :: k + 3 <= m < k + 3 + c.shareTimeout ==> Busy(Answer(script, m))
    ensures var o := ShareWrite(c, script, k, phy, reg, value);
      && o.ret == -EIO
      && o.requests == [WriteRegs(c.epdr, value), WriteReg(c.epar, ParValue(phy, reg)),
                        WriteReg(c.epcr, WriteCommand(phy))] + PollRequests(c.epcr, c.shareTimeout)
  {
    PollAllBusy(script, k + 3, 0, c.shareTimeout);
  }

  lemma ShareWritePollFails(c: Constants, script: seq<Reply>, k: nat, phy: bool, reg: byte, value: seq<byte>, n: nat)
    requires |value| == 2
    requires NormaliseWrite(Answer(script, k).status, 2) >= 0
    requires n < c.shareTimeout
    requires forall m :: k + 3 <= m < k + 3 + n ==> Busy(Answer(script, m))
    requires !PollOk(Answer(script, k + 3 + n))
    ensures var o := ShareWrite(c, script, k, phy, reg, value);
      && o.ret == NormaliseRead(Answer(script, k + 3 + n).status, 1) && o.ret < 0
      && o.requests == [WriteRegs(c.epdr, value), WriteReg(c.epar, ParValue(phy, reg)),
                        WriteReg(c.epcr, WriteCommand(phy))] + PollRequests(c.epcr, n + 1)
  {
    PollStopsAt(script, k + 3, 0, c.shareTimeout, n);
  }

  lemma ShareWriteReady(c: Constants, script: seq<Reply>, k: nat, phy: bool, reg: byte, value: seq<byte>, n: nat)
    requires |value| == 2
    requires NormaliseWrite(Answer(script, k).status, 2) >= 0
    requires n < c.shareTimeout
    requires forall m :: k + 3 <= m < k + 3 + n ==> Busy(Answer(script, m))
    requires PollOk(Answer(script, k + 3 + n)) && !Busy(Answer(script, k + 3 + n))
    ensures var o := ShareWrite(c, script, k, phy, reg, value);
      && o.ret == 1
      && o.requests == [WriteRegs(c.epdr, value), WriteReg(c.epar, ParValue(phy, reg)),
                        WriteReg(c.epcr, WriteCommand(phy))] + PollRequests(c.epcr, n + 1)
                       + [WriteReg(c.epcr, 0)]
  {
    PollStopsAt(script, k + 3, 0, c.shareTimeout, n);
  }

  method ShareWriteWord(dev: Usbnet, c: Constants, phy: bool, reg: byte, value: seq<byte>) returns (ret: int)
    requires |value| == 2
    modifies dev`log
    ensures var o := ShareWrite(c, dev.script, old(|dev.log|), phy, reg, value);
      ret == o.ret && dev.log == old(dev.log) + o.requests
  {
    ghost var k := |dev.log|;
    ret := QfWrite(dev, c.epdr, value);
    if ret < 0 {
      return;
    }
    ghost var start := [WriteRegs(c.epdr, value), WriteReg(c.epar, ParValue(phy, reg)),
                        WriteReg(c.epcr, WriteCommand(phy))];
    var _ := QfWriteReg(dev, c.epar, ParValue(phy, reg));
    var _ := QfWriteReg(dev, c.epcr, if phy then 0x1a else 0x12);
    assert dev.log == old(dev.log) + start;
    ghost var po := Poll(dev.script, k + 3, 0, c.shareTimeout);
    var i;
    ret, i := PollEpcr(dev, c);
    if ret < 0 {
      assert po.PollFailed?;
      return;
    }
    if i >= c.shareTimeout {
      assert po.TimedOut?;
      ret := -EIO;
      return;
    }
    assert po.Ready?;
    var _ := QfWriteReg(dev, c.epcr, 0x0);
  }
}
