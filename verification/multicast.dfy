/** The receive filter: an eight-byte multicast hash table in which bit
    `crc >> 26` stands for every address with that Ethernet CRC, the top bit
    of the last byte standing for the broadcast address, and the receive
    control byte that selects promiscuous, all-multicast or hashed filtering.

    The CRC itself (`ether_crc`) is not part of this model: the multicast list
    enters as the sequence of the 32-bit CRCs of its addresses, in list order. */
module Multicast {
  import opened Chip
  import opened Bytes
  import opened Usb
  import opened Registers

  predicate IsCrc(crc: nat) { crc < 0x1_0000_0000 }

  predicate AllCrcs(crcs: seq<nat>) {
    forall j :: 0 <= j < |crcs| ==> IsCrc(crcs[j])
  }

  /** `crc >> 26`: the table bit an address hashes to. */
  function HashIndex(crc: nat): (h: nat)
    requires IsCrc(crc)
    ensures h < 64
  {
    crc / 0x400_0000
  }

  /** Bit `h` of the table: bit `h & 7` of byte `h >> 3`. */
  predicate TableBit(table: seq<byte>, h: nat)
    requires |table| == MCAST_SIZE && h < 64
  {
    Bit(table[h / 8], h % 8)
  }

  /** The table after `memset(hashes, 0, 8)` and `hashes[7] |= 0x80`. */
  function BroadcastOnly(): (t: seq<byte>)
    ensures |t| == MCAST_SIZE
  {
    Zeros(MCAST_SIZE - 1) + [SetBit(0, 7)]
  }

  /** `hashes[h >> 3] |= 1 << (h & 7)`. */
  function SetHash(table: seq<byte>, h: nat): (t: seq<byte>)
    requires |table| == MCAST_SIZE && h < 64
    ensures |t| == MCAST_SIZE
  {
    table[h / 8 := SetBit(table[h / 8], h % 8)]
  }

  /** The table after hashing every address of the list, in order. */
  function HashTable(crcs: seq<nat>): (t: seq<byte>)
    requires AllCrcs(crcs)
    ensures |t| == MCAST_SIZE
  {
    if crcs == [] then BroadcastOnly()
    else SetHash(HashTable(crcs[..|crcs| - 1]), HashIndex(crcs[|crcs| - 1]))
  }

  /** What the driver programs: the receive control byte and the table. */
  datatype Filter = Filter(rxCtl: byte, table: seq<byte>)

  /** `qf9700_set_multicast`'s choice: starting from 0x31 (enable, drop long
      and bad-CRC frames), promiscuous mode adds bit 1; all-multicast, or more
      addresses than the table is meant for, adds bit 3; otherwise the
      addresses are hashed. */
  function FilterFor(promisc: bool, allmulti: bool, crcs: seq<nat>, mcastMax: nat): Filter
    requires AllCrcs(crcs)
  {
    if promisc then Filter(SetBit(0x31, 1), BroadcastOnly())
    else if allmulti || |crcs| > mcastMax then Filter(SetBit(0x31, 3), BroadcastOnly())
    else if crcs != [] then Filter(0x31, HashTable(crcs))
    else Filter(0x31, BroadcastOnly())
  }

  /** Only the broadcast bit is set in the initial table. */
  lemma BroadcastOnlyBits(h: nat)
    requires h < 64
    ensures TableBit(BroadcastOnly(), h) <==> h == 63
  {
    if h / 8 < 7 {
      ZeroBits(h % 8);
      assert BroadcastOnly()[h / 8] == 0;
    }
  }

  /** Hashing an address sets its bit and no other. */
  lemma SetHashBits(table: seq<byte>, hi: nat, h: nat)
    requires |table| == MCAST_SIZE && hi < 64 && h < 64
    ensures TableBit(SetHash(table, hi), h) <==> TableBit(table, h) || h == hi
  {
    if h / 8 == hi / 8 {
      assert h == hi <==> h % 8 == hi % 8;
    }
  }

  /** The hashed table has exactly the broadcast bit and the bit of every
      address in the list. */
  lemma {:induction false} HashTableBits(crcs: seq<nat>, h: nat)
    requires AllCrcs(crcs) && h < 64
    ensures TableBit(HashTable(crcs), h) <==> h == 63 || exists j :: 0 <= j < |crcs| && HashIndex(crcs[j]) == h
  {
    if crcs == [] {
      BroadcastOnlyBits(h);
    } else {
      var init := crcs[..|crcs| - 1];
      HashTableBits(init, h);
      SetHashBits(HashTable(init), HashIndex(crcs[|crcs| - 1]), h);
      if exists j :: 0 <= j < |init| && HashIndex(init[j]) == h {
        var j :| 0 <= j < |init| && HashIndex(init[j]) == h;
        assert crcs[j] == init[j];
      }
      if exists j :: 0 <= j < |crcs| && HashIndex(crcs[j]) == h {
        var j :| 0 <= j < |crcs| && HashIndex(crcs[j]) == h;
        if j < |init| {
          assert init[j] == crcs[j];
        }
      }
    }
  }

  /** The broadcast bit is set in every filter the driver programs. */
  lemma BroadcastAlwaysAccepted(promisc: bool, allmulti: bool, crcs: seq<nat>, mcastMax: nat)
    requires AllCrcs(crcs)
    ensures TableBit(FilterFor(promisc, allmulti, crcs, mcastMax).table, 63)
  {
    BroadcastOnlyBits(63);
    HashTableBits(crcs, 63);
  }

  /** The two control bytes the driver builds from the base value 0x31. */
  lemma ControlBytes()
    ensures SetBit(0x31, 1) == 0x33 && SetBit(0x31, 3) == 0x39
  {
    assert SetBitN(0x18, 0) == 0x19;
    assert SetBitN(6, 0) == 7;
  }

  /** The three modes: promiscuous gives 0x33 and allmulti or an overlong list
      0x39, each with only the broadcast bit in the table; otherwise 0x31 with
      the hashes of the list. */
  lemma FilterModes(promisc: bool, allmulti: bool, crcs: seq<nat>, mcastMax: nat)
    requires AllCrcs(crcs)
    ensures var f := FilterFor(promisc, allmulti, crcs, mcastMax);
      && (promisc ==> f.rxCtl == 0x33 && f.table == BroadcastOnly())
      && (!promisc && (allmulti || |crcs| > mcastMax) ==> f.rxCtl == 0x39 && f.table == BroadcastOnly())
      && (!promisc && !allmulti && |crcs| <= mcastMax ==> f.rxCtl == 0x31 && f.table == HashTable(crcs))
  {
    ControlBytes();
  }

  /** As written, the receive control byte never reaches the adapter: every
      filter's control byte is nonzero, and the register write carries 0. */
  lemma RxControlNeverSent(c: Constants, promisc: bool, allmulti: bool, crcs: seq<nat>, mcastMax: nat)
    requires AllCrcs(crcs)
    ensures var f := FilterFor(promisc, allmulti, crcs, mcastMax);
      && f.rxCtl != 0
      && WriteRegAsyncRequest(c.rcr, f.rxCtl) != IntendedWriteRegAsyncRequest(c.rcr, f.rxCtl)
  {
    FilterModes(promisc, allmulti, crcs, mcastMax);
  }

  /** `qf9700_set_multicast`: the table is built in `dev->data` and written
      to the multicast address registers, then the control byte to RCR, both
      asynchronously. */
  method SetMulticast(dev: Usbnet, c: Constants, promisc: bool, allmulti: bool, crcs: seq<nat>)
    requires AllCrcs(crcs)
    requires dev.data.Length >= MCAST_SIZE
    modifies dev`log, dev.data
    ensures var f := FilterFor(promisc, allmulti, crcs, c.mcastMax);
      && dev.data[..MCAST_SIZE] == f.table
      && dev.data[MCAST_SIZE..] == old(dev.data[MCAST_SIZE..])
      && dev.log == old(dev.log) + [WriteRegs(c.mar, f.table), WriteRegAsyncRequest(c.rcr, f.rxCtl)]
  {
    var hashes := dev.data;
    var rxCtl: byte := 0x31;
    var j := 0;
    while j < MCAST_SIZE
      modifies hashes
      invariant j <= MCAST_SIZE
      invariant hashes[..j] == Zeros(j)
      invariant hashes[MCAST_SIZE..] == old(hashes[MCAST_SIZE..])
    {
      hashes[j] := 0;
      j := j + 1;
    }
    hashes[MCAST_SIZE - 1] := SetBit(hashes[MCAST_SIZE - 1], 7);
    assert hashes[..MCAST_SIZE] == BroadcastOnly();

    if promisc {
      rxCtl := SetBit(rxCtl, 1);
    } else if allmulti || |crcs| > c.mcastMax {
      rxCtl := SetBit(rxCtl, 3);
    } else if |crcs| != 0 {
      var n := 0;
      while n < |crcs|
        modifies hashes
        invariant n <= |crcs|
        invariant hashes[..MCAST_SIZE] == HashTable(crcs[..n])
        invariant hashes[MCAST_SIZE..] == old(hashes[MCAST_SIZE..])
      {
        var h := crcs[n] / 0x400_0000;
        hashes[h / 8] := SetBit(hashes[h / 8], h % 8);
        assert crcs[..n + 1][..n] == crcs[..n];
        n := n + 1;
      }
      assert crcs[..n] == crcs;
    }
    ghost var f := FilterFor(promisc, allmulti, crcs, c.mcastMax);
    assert hashes[..MCAST_SIZE] == f.table && rxCtl == f.rxCtl;

    QfWriteAsync(dev, c.mar, hashes[..MCAST_SIZE]);
    QfWriteRegAsync(dev, c.rcr, rxCtl);
  }
}
