/** The part of the kernel's socket buffer the driver touches: the bytes in
    front of the packet (headroom) and the packet itself.  Tailroom is
    unbounded in this model. */
module SkBuffs {
  import opened Bytes

  class SkBuff {
    var head: seq<byte>  // headroom, the bytes just before `data`
    var data: seq<byte>  // the packet, `skb->data` for `skb->len` bytes

    constructor (head: seq<byte>, data: seq<byte>)
      ensures this.head == head && this.data == data
    {
      this.head := head;
      this.data := data;
    }

    /** `__skb_push`: the last `n` bytes of headroom become the start of the
        packet.  The unchecked kernel variant needs the headroom to be there. */
    method Push(n: nat)
      requires n <= |head|
      modifies this
      ensures head == old(head[..|head| - n])
      ensures data == old(head[|head| - n..] + data)
    {
      var cut := |head| - n;
      data := head[cut..] + data;
      head := head[..cut];
    }

    /** `skb_pull`: drops `n` bytes from the front of the packet into the
        headroom; a request for more than the packet holds changes nothing. */
    method Pull(n: nat) returns (ok: bool)
      modifies this
      ensures ok <==> n <= old(|data|)
      ensures ok ==> head == old(head + data[..n]) && data == old(data[n..])
      ensures !ok ==> head == old(head) && data == old(data)
    {
      ok := n <= |data|;
      if ok {
        head := head + data[..n];
        data := data[n..];
      }
    }

    /** `skb_trim`: cuts the packet down to `len` bytes when it is longer. */
    method Trim(len: nat)
      modifies this
      ensures head == old(head)
      ensures data == if old(|data|) > len then old(data[..len]) else old(data)
    {
      if |data| > len {
        data := data[..len];
      }
    }

    /** A store into byte `i` of the packet. */
    method SetByte(i: nat, b: byte)
      requires i < |data|
      modifies this
      ensures head == old(head)
      ensures data == old(data)[i := b]
    {
      data := data[i := b];
    }

    /** `memset` of the tailroom followed by `__skb_put`: appends `n` zero bytes. */
    method PutZeros(n: nat)
      modifies this
      ensures head == old(head)
      ensures data == old(data) + Zeros(n)
    {
      data := data + Zeros(n);
    }
  }
}
