/** The interrupt endpoint's 8-byte status block and what the driver does
    with it: bit 6 of the first byte is the link, and the carrier follows it
    only upwards.  A link that comes up turns the carrier on and leaves a
    link reset for the usbnet worker; a link that goes down is only noticed. */
module LinkStatus {
  import opened Bytes
  import opened Usb

  /** The part of the device state a status block can change. */
  datatype LinkState = LinkState(carrier: bool, linkResetPending: bool)

  /** The link bit of a status block. */
  predicate LinkUp(urb: seq<byte>)
    requires |urb| >= 8
  {
    Bit(urb[0], 6)
  }

  /** `qf9700_status` on the device state. */
  function StatusEffect(s: LinkState, urb: seq<byte>): LinkState {
    if |urb| < 8 then s
    else if s.carrier != LinkUp(urb) then
      (if LinkUp(urb) then LinkState(true, true) else s)
    else s
  }

  /** A complete status block reporting the link up. */
  predicate ReportsUp(urb: seq<byte>) {
    |urb| >= 8 && LinkUp(urb)
  }

  /** The carrier comes on exactly when a complete block reports the link up;
      a link reset is deferred exactly when it was off before; a short block,
      and any block while the carrier is on (the link going down included),
      changes nothing. */
  lemma StatusTransitions(s: LinkState, urb: seq<byte>)
    ensures var t := StatusEffect(s, urb);
      && (t.carrier <==> s.carrier || ReportsUp(urb))
      && (t.linkResetPending <==> s.linkResetPending || (!s.carrier && ReportsUp(urb)))
      && (|urb| < 8 ==> t == s)
      && (s.carrier ==> t == s)
  {
  }

  /** Handing the driver the same block twice has the effect of once. */
  lemma StatusIdempotent(s: LinkState, urb: seq<byte>)
    ensures StatusEffect(StatusEffect(s, urb), urb) == StatusEffect(s, urb)
  {
  }

  /** The state after a run of status blocks, oldest first. */
  function StatusRun(s: LinkState, urbs: seq<seq<byte>>): LinkState {
    if urbs == [] then s
    else StatusEffect(StatusRun(s, urbs[..|urbs| - 1]), urbs[|urbs| - 1])
  }

  /** Over any run of blocks the carrier ends up on exactly when it started on
      or some block reported the link up: once on, nothing turns it off. */
  lemma {:induction false} CarrierLatches(s: LinkState, urbs: seq<seq<byte>>)
    ensures StatusRun(s, urbs).carrier <==> s.carrier || exists j :: 0 <= j < |urbs| && ReportsUp(urbs[j])
    ensures s.carrier ==> StatusRun(s, urbs) == s
  {
    if urbs != [] {
      var init := urbs[..|urbs| - 1];
      CarrierLatches(s, init);
      StatusTransitions(StatusRun(s, init), urbs[|urbs| - 1]);
      if exists j :: 0 <= j < |init| && ReportsUp(init[j]) {
        var j :| 0 <= j < |init| && ReportsUp(init[j]);
        assert urbs[j] == init[j];
      }
      if exists j :: 0 <= j < |urbs| && ReportsUp(urbs[j]) {
        var j :| 0 <= j < |urbs| && ReportsUp(urbs[j]);
        if j < |init| {
          assert init[j] == urbs[j];
        }
      }
    }
  }

  /** `qf9700_status`: `urb` holds the `actual_length` bytes of the block. */
  method Status(dev: Usbnet, urb: seq<byte>)
    modifies dev.net`carrier, dev`linkResetPending
    ensures LinkState(dev.net.carrier, dev.linkResetPending)
         == StatusEffect(old(LinkState(dev.net.carrier, dev.linkResetPending)), urb)
  {
    if |urb| < 8 {
      return;
    }
    var link := Bit(urb[0], 6);
    if dev.net.carrier != link {
      if link {
        dev.net.carrier := true;
        dev.linkResetPending := true;
      }
    }
  }
}
