/** The two users of the shared-word protocol: the ethtool EEPROM dump,
    which reads consecutive EEPROM words, and the MII bridge, which reads and
    writes registers of the internal PHY. */
module EepromMdio {
  import opened Chip
  import opened Bytes
  import opened Usb
  import opened Registers

  /** What a dump does: whether every word was read, the bytes stored into
      the caller's buffer (the words read, then whatever the failing read
      copied), and the requests issued, in order. */
  datatype EepromOutcome = EepromOutcome(ok: bool, bytes: seq<byte>, requests: seq<Request>)

  /** A dump that first stored `bytes` and issued `requests`, then went on
      as `rest`. */
  function After(bytes: seq<byte>, requests: seq<Request>, rest: EepromOutcome): EepromOutcome {
    EepromOutcome(rest.ok, bytes + rest.bytes, requests + rest.requests)
  }

  /** The word loop of a dump, for any way of reading a word: `read(k, j)`
      is what reading word `j` does when its first request is the device's
      k-th.  Words `i` to `total - 1` are read in turn, and the first read
      that fails ends the dump. */
  function Dump(read: (nat, nat) -> ShareOutcome, k: nat, i: nat, total: nat): EepromOutcome
    decreases total - i
  {
    if i >= total then EepromOutcome(true, [], [])
    else
      var s := read(k, i);
      if s.ret < 0 then EepromOutcome(false, s.copied, s.requests)
      else After(s.copied, s.requests, Dump(read, k + |s.requests|, i + 1, total))
  }

  /** A word read copies the whole word exactly when it succeeds. */
  ghost predicate WordReads(read: (nat, nat) -> ShareOutcome) {
    forall k: nat, j: nat :: |read(k, j).copied| <= 2 && (|read(k, j).copied| == 2 <==> read(k, j).ret >= 0)
  }

  /** A complete dump holds two bytes per word; a failed one stops short. */
  lemma {:induction false} DumpLength(read: (nat, nat) -> ShareOutcome, k: nat, i: nat, total: nat)
    requires WordReads(read) && i <= total
    ensures var o := Dump(read, k, i, total);
      && (o.ok ==> |o.bytes| == 2 * (total - i))
      && (!o.ok ==> |o.bytes| < 2 * (total - i))
    decreases total - i
  {
    if i < total {
      var s := read(k, i);
      if s.ret >= 0 {
        DumpLength(read, k + |s.requests|, i + 1, total);
      }
    }
  }

  /** The words are read in order: a dump of words `i` to `total - 1` whose
      first part `p`, words `i` to `m - 1`, succeeds goes on with words `m`
      to `total - 1`. */
  lemma {:induction false} DumpSplit(read: (nat, nat) -> ShareOutcome, k: nat, i: nat, m: nat, total: nat, p: EepromOutcome)
    requires i <= m <= total
    requires p == Dump(read, k, i, m) && p.ok
    ensures Dump(read, k, i, total) == After(p.bytes, p.requests, Dump(read, k + |p.requests|, m, total))
    decreases m - i
  {
    if i < m {
      var s := read(k, i);
      var k' := k + |s.requests|;
      var p' := Dump(read, k', i + 1, m);
      DumpSplit(read, k', i + 1, m, total, p');
      var rest := Dump(read, k' + |p'.requests|, m, total);
      Regroup(s.copied, s.requests, p', p, rest);
      assert k + |p.requests| == k' + |p'.requests|;
    } else {
      Regroup([], [], p, p, Dump(read, k, m, total));
    }
  }

  /** A prefix `p` made of a first part and the rest `p'` can be applied
      part by part. */
  lemma Regroup(bytes: seq<byte>, requests: seq<Request>, p': EepromOutcome, p: EepromOutcome, rest: EepromOutcome)
    requires p == After(bytes, requests, p')
    ensures |p.requests| == |requests| + |p'.requests|
    ensures After(p.bytes, p.requests, rest) == After(bytes, requests, After(p'.bytes, p'.requests, rest))
  {
    AfterAfter(bytes, requests, p'.bytes, p'.requests, rest);
  }

  /** Word `j` of an EEPROM dump from word `base`: a shared EEPROM read of
      word number `base + j`, passed through `qf_read_eeprom_word`'s `u8`
      parameter. */
  function EepromReader(c: Constants, script: seq<Reply>, base: nat): (nat, nat) -> ShareOutcome {
    (k: nat, j: nat) => ShareRead(c, script, k, false, U8(base + j))
  }

  lemma EepromReaderReadsWords(c: Constants, script: seq<Reply>, base: nat)
    ensures WordReads(EepromReader(c, script, base))
  {
    forall k: nat, j: nat
      ensures var s := EepromReader(c, script, base)(k, j);
        |s.copied| <= 2 && (|s.copied| == 2 <==> s.ret >= 0)
    {
      ShareReadShape(c, script, k, false, U8(base + j));
    }
  }

  /** Words `i` to `total - 1` of the EEPROM dump from word `base`, the first
      request being the k-th of the device. */
  function Eeprom(c: Constants, script: seq<Reply>, k: nat, base: nat, i: nat, total: nat): EepromOutcome {
    Dump(EepromReader(c, script, base), k, i, total)
  }

  /** A complete EEPROM dump holds two bytes per word; a failed one stops short. */
  lemma EepromLength(c: Constants, script: seq<Reply>, k: nat, base: nat, i: nat, total: nat)
    requires i <= total
    ensures var o := Eeprom(c, script, k, base, i, total);
      && (o.ok ==> |o.bytes| == 2 * (total - i))
      && (!o.ok ==> |o.bytes| < 2 * (total - i))
  {
    EepromReaderReadsWords(c, script, base);
    DumpLength(EepromReader(c, script, base), k, i, total);
  }

  /** Every word of a dump is an EEPROM access: the dump starts by writing
      word number `base + i` modulo 256 to EPAR as it is, then the EEPROM read
      command to EPCR; a word that fails ends it. */
  lemma EepromFirstWord(c: Constants, script: seq<Reply>, k: nat, base: nat, i: nat, total: nat)
    requires i < total
    ensures var o := Eeprom(c, script, k, base, i, total);
      var s := ShareRead(c, script, k, false, U8(base + i));
      && |o.requests| >= 2 && o.requests[0] == WriteReg(c.epar, U8(base + i))
      && o.requests[1] == WriteReg(c.epcr, ReadCommand(false))
      && (s.ret < 0 ==> !o.ok && o.requests == s.requests)
  {
    ShareReadShape(c, script, k, false, U8(base + i));
  }

  /** The EEPROM words are read in order. */
  lemma EepromSplit(c: Constants, script: seq<Reply>, k: nat, base: nat, i: nat, m: nat, total: nat, p: EepromOutcome)
    requires i <= m <= total
    requires p == Eeprom(c, script, k, base, i, m) && p.ok
    ensures Eeprom(c, script, k, base, i, total) == After(p.bytes, p.requests, Eeprom(c, script, k + |p.requests|, base, m, total))
  {
    DumpSplit(EepromReader(c, script, base), k, i, m, total, p);
  }

  /** The dump as seen from word `i` on, after `bytes` were stored and
      `requests` issued: word `i`'s read ends it or leads to the rest. */
  lemma DumpStep(c: Constants, script: seq<Reply>, k: nat, base: nat, i: nat, total: nat,
                 whole: EepromOutcome, bytes: seq<byte>, requests: seq<Request>)
    requires i < total
    requires whole == After(bytes, requests, Eeprom(c, script, k, base, i, total))
    ensures var s := ShareRead(c, script, k, false, U8(base + i));
      && |s.requests| >= 2 && |s.copied| <= 2 && (|s.copied| == 2 <==> s.ret >= 0)
      && (s.ret < 0 ==> whole == EepromOutcome(false, bytes + s.copied, requests + s.requests))
      && (s.ret >= 0 ==> whole == After(bytes + s.copied, requests + s.requests,
                                         Eeprom(c, script, k + |s.requests|, base, i + 1, total)))
  {
    var s := ShareRead(c, script, k, false, U8(base + i));
    ShareReadShape(c, script, k, false, U8(base + i));
    if s.ret >= 0 {
      AfterAfter(bytes, requests, s.copied, s.requests, Eeprom(c, script, k + |s.requests|, base, i + 1, total));
    }
  }

  /** Appending is associative. */
  lemma AfterAfter(b1: seq<byte>, r1: seq<Request>, b2: seq<byte>, r2: seq<Request>, rest: EepromOutcome)
    ensures After(b1, r1, After(b2, r2, rest)) == After(b1 + b2, r1 + r2, rest)
  {
    assert b1 + (b2 + rest.bytes) == (b1 + b2) + rest.bytes;
    assert r1 + (r2 + rest.requests) == (r1 + r2) + rest.requests;
  }

  lemma AppendAssoc<T>(a: seq<T>, b: seq<T>, c: seq<T>)
    ensures (a + b) + c == a + (b + c)
  {
  }

  /** The bytes of `buf` with `w` written over them from position `at` on. */
  function Overlay(buf: seq<byte>, at: nat, w: seq<byte>): (r: seq<byte>)
    requires at + |w| <= |buf|
    ensures |r| == |buf| && r[at..at + |w|] == w
    ensures forall j :: 0 <= j < |buf| && !(at <= j < at + |w|) ==> r[j] == buf[j]
  {
    buf[..at] + w + buf[at + |w|..]
  }

  /** Writing the next word after the `|b|` bytes already dumped extends the
      dump and leaves the rest of the buffer as it was. */
  lemma OverlayExtends(b: seq<byte>, w: seq<byte>, before: seq<byte>)
    requires |b| + |w| <= |before|
    ensures Overlay(b + before[|b|..], |b|, w) == (b + w) + before[|b| + |w|..]
  {
    var buf := b + before[|b|..];
    assert buf[..|b|] == b;
    assert buf[|b| + |w|..] == before[|b| + |w|..];
  }

  /** The kernel's copy of a read's data stage into the caller's buffer. */
  method Store(data: array<byte>, at: nat, copied: seq<byte>)
    requires at + |copied| <= data.Length
    modifies data
    ensures data[..] == Overlay(old(data[..]), at, copied)
  {
    var j := 0;
    while j < |copied|
      invariant j <= |copied|
      invariant data[..] == Overlay(old(data[..]), at, copied[..j])
    {
      data[at + j] := copied[j];
      j := j + 1;
    }
  }

  /** `qf_read_eeprom_word`: a shared EEPROM read of word `reg` into the
      caller's buffer at byte `at`. */
  method ReadEepromWord(dev: Usbnet, c: Constants, reg: byte, data: array<byte>, at: nat) returns (ret: int)
    requires at + 2 <= data.Length
    modifies dev`log, data
    ensures var s := ShareRead(c, dev.script, old(|dev.log|), false, reg);
      && ret == s.ret
      && dev.log == old(dev.log) + s.requests
      && data[..] == Overlay(old(data[..]), at, s.copied)
  {
    ShareReadShape(c, dev.script, |dev.log|, false, reg);
    var copied;
    ret, copied := ShareReadWord(dev, c, false, reg);
    Store(data, at, copied);
  }

  /** One iteration of the dump loop: word `i` read into the buffer at
      byte `2 * i`.  On success the loop's account of the dump moves on to
      word `i + 1`; on failure the dump is over. */
  method DumpNext(dev: Usbnet, c: Constants, base: nat, i: nat, total: nat, data: array<byte>,
                  ghost whole: EepromOutcome, ghost log: seq<Request>, ghost before: seq<byte>,
                  ghost bytes: seq<byte>, ghost requests: seq<Request>)
    returns (ret: int, ghost bytes': seq<byte>, ghost requests': seq<Request>)
    requires i < total && |bytes| == 2 * i && 2 * total <= data.Length && |before| == data.Length
    requires dev.log == log + requests && data[..] == bytes + before[2 * i..]
    requires whole == After(bytes, requests, Eeprom(c, dev.script, |dev.log|, base, i, total))
    modifies dev`log, data
    ensures dev.log == log + requests'
    ensures ret < 0 ==> && whole == EepromOutcome(false, bytes', requests')
                        && |bytes'| <= 2 * total && data[..] == bytes' + before[|bytes'|..]
    ensures ret >= 0 ==> && |bytes'| == 2 * (i + 1) && data[..] == bytes' + before[2 * (i + 1)..]
                         && whole == After(bytes', requests', Eeprom(c, dev.script, |dev.log|, base, i + 1, total))
  {
    ghost var k := |dev.log|;
    ghost var s := ShareRead(c, dev.script, k, false, U8(base + i));
    DumpStep(c, dev.script, k, base, i, total, whole, bytes, requests);
    ret := ReadEepromWord(dev, c, U8(base + i), data, 2 * i);
    OverlayExtends(bytes, s.copied, before);
    AppendAssoc(log, requests, s.requests);
    bytes', requests' := bytes + s.copied, requests + s.requests;
  }

  /** The word loop of `qf9700_get_eeprom`: words `base` to
      `base + total - 1` into the first `2 * total` bytes of `data`, stopping
      at the first word that cannot be read. */
  method DumpWords(dev: Usbnet, c: Constants, base: nat, total: nat, data: array<byte>) returns (ok: bool)
    requires 2 * total <= data.Length
    modifies dev`log, data
    ensures var o := Eeprom(c, dev.script, old(|dev.log|), base, 0, total);
      && ok == o.ok
      && dev.log == old(dev.log) + o.requests
      && |o.bytes| <= 2 * total && data[..] == o.bytes + old(data[..])[|o.bytes|..]
  {
    ghost var whole := Eeprom(c, dev.script, |dev.log|, base, 0, total);
    ghost var log, before := dev.log, data[..];
    ghost var bytes: seq<byte>, requests: seq<Request> := [], [];
    assert whole == After(bytes, requests, whole);
    EepromLength(c, dev.script, |dev.log|, base, 0, total);
    var i := 0;
    while i < total
      invariant 0 <= i <= total && |bytes| == 2 * i
      invariant dev.log == log + requests && data[..] == bytes + before[2 * i..]
      invariant whole == After(bytes, requests, Eeprom(c, dev.script, |dev.log|, base, i, total))
    {
      var ret;
      ret, bytes, requests := DumpNext(dev, c, base, i, total, data, whole, log, before, bytes, requests);
      if ret < 0 {
        return false;
      }
      i := i + 1;
    }
    assert bytes + [] == bytes && requests + [] == requests;
    return true;
  }

  /** `qf9700_get_eeprom`: `data` is the caller's buffer of `len` bytes. */
  method GetEeprom(dev: Usbnet, c: Constants, offset: nat, len: nat, data: array<byte>) returns (r: int)
    requires data.Length == len
    modifies dev`log, data
    ensures offset % 2 != 0 || len % 2 != 0 ==>
              r == -EINVAL && dev.log == old(dev.log) && data[..] == old(data[..])
    ensures offset % 2 == 0 && len % 2 == 0 ==>
              var o := Eeprom(c, dev.script, old(|dev.log|), offset / 2, 0, len / 2);
              && r == (if o.ok then 0 else -EINVAL)
              && dev.log == old(dev.log) + o.requests
              && |o.bytes| <= len && data[..] == o.bytes + old(data[..])[|o.bytes|..]
  {
    if offset % 2 != 0 || len % 2 != 0 {
      return -EINVAL;
    }
    var ok := DumpWords(dev, c, offset / 2, len / 2, data);
    r := if ok then 0 else -EINVAL;
  }

  /** The word `qf9700_mdio_read` returns: its local `res` starts as
      `stale` (it is never initialised) and receives whatever the shared read
      copied over it. */
  function MdioWord(copied: seq<byte>, stale: seq<byte>): (w: nat)
    requires |copied| <= 2 && |stale| == 2
    ensures w < 0x1_0000
    ensures |copied| == 2 ==> w == Le16(copied[0], copied[1])
    ensures copied == [] ==> w == Le16(stale[0], stale[1])
    ensures |copied| == 1 ==> w == Le16(copied[0], stale[1])
  {
    var res := copied + stale[|copied|..];
    Le16(res[0], res[1])
  }

  /** `qf9700_mdio_read`: only PHY 0 (the internal one) is reachable; any
      other id reads as 0 without touching the adapter. */
  method MdioRead(dev: Usbnet, c: Constants, phyId: int, loc: int, stale: seq<byte>) returns (r: int)
    requires |stale| == 2
    modifies dev`log
    ensures phyId != 0 ==> r == 0 && dev.log == old(dev.log)
    ensures phyId == 0 ==>
              var o := ShareRead(c, dev.script, old(|dev.log|), true, U8(loc));
              && dev.log == old(dev.log) + o.requests
              && r == MdioWord(o.copied, stale)
              && (o.ret >= 0 ==> r == Le16(o.copied[0], o.copied[1]))
  {
    if phyId != 0 {
      return 0;
    }
    ShareReadShape(c, dev.script, |dev.log|, true, U8(loc));
    var ret, copied := ShareReadWord(dev, c, true, U8(loc));
    var res := copied + stale[|copied|..];
    r := Le16(res[0], res[1]);
  }

  /** `qf9700_mdio_write`: the value is stored as a little-endian 16-bit word
      and written to PHY 0 only. */
  method MdioWrite(dev: Usbnet, c: Constants, phyId: int, loc: int, val: int)
    modifies dev`log
    ensures phyId != 0 ==> dev.log == old(dev.log)
    ensures phyId == 0 ==>
              dev.log == old(dev.log) + ShareWrite(c, dev.script, old(|dev.log|), true, U8(loc), Le16Bytes(val)).requests
  {
    if phyId != 0 {
      return;
    }
    var res := Le16Bytes(val);
    var _ := ShareWriteWord(dev, c, true, U8(loc), res);
  }
}
