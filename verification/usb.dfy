/** The kernel objects the driver is handed: the network device (carrier flag
    and receive error statistics) and the usbnet device, which here stands for
    the adapter on the other end of the USB control pipe.

    A control transfer is observable as the request the driver issues; the
    device keeps them in `log`, oldest first.  What the adapter answers to the
    k-th request is `Answer(script, k)`, fixed when the device is created: the model
    is deterministic once the adapter's behaviour is fixed, and every
    statement about an operation is a statement for every such behaviour. */
module Usb {
  import opened Chip
  import opened Bytes

  /** The three vendor requests of the register protocol. */
  datatype Request =
    | ReadRegs(reg: byte, length: nat)        // read `length` registers from `reg`
    | WriteRegs(reg: byte, bytes: seq<byte>)   // write consecutive registers from `reg`
    | WriteReg(reg: byte, value: byte)         // write one register, value in the setup packet

  /** What the USB core reports for one control transfer: a failure with an
      error number, or the bytes of the data stage actually transferred.  The
      transfer's return code is the negated error, or the number of bytes. */
  datatype Reply = Failed(errno: nat) | Done(data: seq<byte>)
  {
    const status: int := if Failed? then -(errno as int) else |data|
  }

  /** The adapter's reply to the k-th request. */
  function Answer(script: seq<Reply>, k: nat): Reply {
    if k < |script| then script[k] else Failed(ENODEV)
  }

  /** The bytes a read of `size` bytes copies into the caller's buffer: the
      data stage, when its length is positive and fits the buffer. */
  function Copied(r: Reply, size: nat): (c: seq<byte>)
    ensures |c| <= size
    ensures c != [] <==> 0 < r.status <= size
    ensures c != [] ==> r.Done? && c == r.data
  {
    if 0 < r.status <= size then r.data else []
  }

  /** Receive error counters of `struct net_device_stats` the driver updates. */
  datatype Stats = Stats(
    rxFifoErrors: nat,
    rxCrcErrors: nat,
    rxFrameErrors: nat,
    rxMissedErrors: nat,
    rxLengthErrors: nat)

  class NetDevice {
    var carrier: bool
    var stats: Stats

    constructor (carrier: bool, stats: Stats)
      ensures this.carrier == carrier && this.stats == stats
    {
      this.carrier := carrier;
      this.stats := stats;
    }
  }

  class Usbnet {
    const net: NetDevice
    const data: array<byte>        // `dev->data`, driver-private scratch space
    const script: seq<Reply>      // the adapter's replies, in order
    var log: seq<Request>         // requests issued so far
    var linkResetPending: bool    // EVENT_LINK_RESET deferred to the usbnet worker

    constructor (net: NetDevice, script: seq<Reply>)
      ensures this.net == net && this.script == script
      ensures fresh(data) && data.Length == USBNET_DATA_SIZE
      ensures log == [] && !linkResetPending
    {
      this.net := net;
      this.script := script;
      data := new byte[USBNET_DATA_SIZE];
      log := [];
      linkResetPending := false;
    }

    /** `usbnet_read_cmd`: returns the transfer's code and the bytes it copied. */
    method ReadCmd(reg: byte, size: nat) returns (status: int, copied: seq<byte>)
      modifies this`log
      ensures log == old(log) + [ReadRegs(reg, size)]
      ensures status == Answer(script, |old(log)|).status
      ensures copied == Copied(Answer(script, |old(log)|), size)
    {
      var r := Answer(script, |log|);
      log := log + [ReadRegs(reg, size)];
      status := r.status;
      copied := Copied(r, size);
    }

    /** `usbnet_write_cmd`: returns the transfer's code. */
    method WriteCmd(req: Request) returns (status: int)
      requires !req.ReadRegs?
      modifies this`log
      ensures log == old(log) + [req]
      ensures status == Answer(script, |old(log)|).status
    {
      status := Answer(script, |log|).status;
      log := log + [req];
    }

    /** `usbnet_write_cmd_async`: the request is queued; its outcome is never
        reported back to the driver. */
    method WriteCmdAsync(req: Request)
      requires !req.ReadRegs?
      modifies this`log
      ensures log == old(log) + [req]
    {
      log := log + [req];
    }
  }
}
