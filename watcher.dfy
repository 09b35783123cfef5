/**
 * The ARP watcher of watcher/watcher.go. Every captured ARP frame becomes a
 * sighting of its sender's protocol and hardware address, except the ARP
 * requests the host sent itself. The pcap handle is replaced by a handle whose
 * captured frames and filter failure are given up front, and the stop signal
 * by the number of frames read before it is seen.
 */
module Watcher {
  import opened Base
  import opened Net

  /** layers.ARPRequest, the Operation value of an ARP request. */
  const ArpRequest: nat := 1

  /** The fields of a decoded ARP layer the watcher looks at. */
  datatype Arp = Arp(operation: nat, sourceHwAddress: HardwareAddr, sourceProtAddress: seq<uint8>)

  /** A captured frame: its ARP layer, when it has one. */
  datatype Packet = Packet(arp: Option<Arp>)

  /** The watcher of one interface: its name and hardware address. */
  datatype Watcher = Watcher(iface: string, hardwareAddr: HardwareAddr)

  // ---------------------------------------------------------------------------
  // The per-frame decision of loop

  /** An ARP request carrying the interface's own hardware address: sent by this host. */
  predicate SentByUs(hw: HardwareAddr, a: Arp) {
    a.operation == ArpRequest && a.sourceHwAddress == hw
  }

  /**
   * What loop does with one frame: nothing without an ARP layer or for a
   * request this host sent; otherwise the sender's addresses are reported.
   */
  function Classify(hw: HardwareAddr, packet: Packet): (s: Option<Sighting>)
    ensures s.None? <==> packet.arp.None? || SentByUs(hw, packet.arp.value)
    ensures s.Some? ==>
      && s.value.mac.Some?
      && s.value.ip == packet.arp.value.sourceProtAddress
      && s.value.mac.value == packet.arp.value.sourceHwAddress
  {
    match packet.arp
    case None => None
    case Some(a) =>
      if a.operation == ArpRequest && a.sourceHwAddress == hw then None
      else Some(Sighting(a.sourceProtAddress, Some(a.sourceHwAddress)))
  }

  /** The sightings reported for a run of frames, in capture order. */
  function Accepted(hw: HardwareAddr, packets: seq<Packet>): (ss: seq<Sighting>)
    ensures |ss| <= |packets|
    ensures forall k :: 0 <= k < |ss| ==> ss[k].mac.Some?
  {
    if packets == [] then []
    else
      var rest := Accepted(hw, packets[..|packets| - 1]);
      match Classify(hw, packets[|packets| - 1])
      case None => rest
      case Some(s) => rest + [s]
  }

  /** Capture order: the frames of a later batch are reported after an earlier one's. */
  lemma {:induction false} AcceptedAppend(hw: HardwareAddr, a: seq<Packet>, b: seq<Packet>)
    ensures Accepted(hw, a + b) == Accepted(hw, a) + Accepted(hw, b)
    decreases |b|
  {
    if b == [] {
      assert a + b == a;
    } else {
      var b' := b[..|b| - 1];
      assert (a + b)[..|a + b| - 1] == a + b';
      assert (a + b)[|a + b| - 1] == b[|b| - 1];
      AcceptedAppend(hw, a, b');
    }
  }

  /** One frame is reported exactly when it is an ARP frame this host did not send. */
  lemma AcceptedSingle(hw: HardwareAddr, p: Packet)
    ensures Accepted(hw, [p]) == if p.arp.None? || SentByUs(hw, p.arp.value) then [] else
      [Sighting(p.arp.value.sourceProtAddress, Some(p.arp.value.sourceHwAddress))]
  {
    assert [p][..0] == [];
  }

  /**
   * Every reported sighting comes from a frame of the run, and every frame
   * that is reported appears among the sightings.
   */
  lemma {:induction false} AcceptedFrom(hw: HardwareAddr, packets: seq<Packet>, s: Sighting)
    ensures s in Accepted(hw, packets) <==> exists i :: 0 <= i < |packets| && Classify(hw, packets[i]) == Some(s)
    decreases |packets|
  {
    if packets != [] {
      var init := packets[..|packets| - 1];
      var last := packets[|packets| - 1];
      AcceptedFrom(hw, init, s);
      if s in Accepted(hw, packets) && Classify(hw, last) != Some(s) {
        var i :| 0 <= i < |init| && Classify(hw, init[i]) == Some(s);
        assert packets[i] == init[i];
      }
      if exists i :: 0 <= i < |packets| && Classify(hw, packets[i]) == Some(s) {
        var i :| 0 <= i < |packets| && Classify(hw, packets[i]) == Some(s);
        if i < |init| {
          assert init[i] == packets[i];
        }
      }
    }
  }

  /**
   * Only the host's own requests are dropped: a reply from the interface's
   * own hardware address is still reported.
   */
  lemma OwnReplyReported(hw: HardwareAddr, a: Arp)
    requires a.operation != ArpRequest && a.sourceHwAddress == hw
    ensures Accepted(hw, [Packet(Some(a))]) == [Sighting(a.sourceProtAddress, Some(hw))]
  {
    AcceptedSingle(hw, Packet(Some(a)));
  }

  /** A run of the host's own requests and of non-ARP frames reports nothing. */
  lemma {:induction false} NothingFromOwnRequests(hw: HardwareAddr, packets: seq<Packet>)
    requires forall i :: 0 <= i < |packets| ==> packets[i].arp.None? || SentByUs(hw, packets[i].arp.value)
    ensures Accepted(hw, packets) == []
    decreases |packets|
  {
    if packets != [] {
      NothingFromOwnRequests(hw, packets[..|packets| - 1]);
    }
  }

  // ---------------------------------------------------------------------------
  // The capture handle

  /** A pcap handle: the frames it captures and whether SetBPFFilter fails. */
  class Handle {
    var closed: bool
    var filter: string
    const packets: seq<Packet>
    const filterFailure: Option<Error>

    constructor (packets: seq<Packet>, filterFailure: Option<Error>)
      ensures !closed && filter == [] && this.packets == packets && this.filterFailure == filterFailure
    {
      closed := false;
      filter := [];
      this.packets := packets;
      this.filterFailure := filterFailure;
    }

    /** SetBPFFilter: installs the filter unless the scripted failure occurs. */
    method SetBPFFilter(expr: string) returns (err: Option<Error>)
      modifies this
      ensures closed == old(closed)
      ensures err == filterFailure
      ensures filter == if filterFailure.None? then expr else old(filter)
    {
      if filterFailure.Some? {
        return filterFailure;
      }
      filter := expr;
      return None;
    }

    method Close()
      modifies this
      ensures closed && filter == old(filter)
    {
      closed := true;
    }
  }

  // ---------------------------------------------------------------------------
  // loop and Start

  /**
   * loop: read the captured frames in order and report each accepted one,
   * until the stop signal is seen after stopAfter frames; when the frames
   * run out first, the loop keeps waiting (stopped is false).
   */
  method Loop(w: Watcher, packets: seq<Packet>, stopAfter: nat) returns (stopped: bool, sightings: seq<Sighting>)
    ensures stopped <==> stopAfter <= |packets|
    ensures sightings == Accepted(w.hardwareAddr, packets[..if stopped then stopAfter else |packets|])
  {
    sightings := [];
    var i := 0;
    while i < |packets|
      invariant 0 <= i <= |packets| && i <= stopAfter
      invariant sightings == Accepted(w.hardwareAddr, packets[..i])
    {
      if i == stopAfter {
        return true, sightings;
      }
      var packet := packets[i];
      assert packets[..i + 1][..i] == packets[..i];
      var arp := packet.arp;
      if arp.None? {
        i := i + 1;
        continue;
      }
      var a := arp.value;
      if a.operation == ArpRequest && w.hardwareAddr == a.sourceHwAddress {
        i := i + 1;
        continue;
      }
      sightings := sightings + [Sighting(a.sourceProtAddress, Some(a.sourceHwAddress))];
      i := i + 1;
    }
    assert packets[..i] == packets;
    return stopAfter == |packets|, sightings;
  }

  /** What Start ends in: an error, or the started loop's run. */
  datatype Started = Failed(err: Error) | Watching(stopped: bool, sightings: seq<Sighting>)

  /**
   * Start: an OpenLive failure is returned as it is; a filter failure closes
   * the handle and is returned; otherwise the "arp" filter is installed and
   * the loop runs, closing the handle once it has seen the stop signal.
   */
  method Start(w: Watcher, openFailure: Option<Error>, handle: Handle, stopAfter: nat) returns (r: Started)
    modifies handle
    ensures openFailure.Some? ==> r == Failed(openFailure.value) && unchanged(handle)
    ensures openFailure.None? && handle.filterFailure.Some? ==>
      r == Failed(handle.filterFailure.value) && handle.closed
    ensures openFailure.None? && handle.filterFailure.None? ==>
      && handle.filter == "arp"
      && r.Watching?
      && (r.stopped <==> stopAfter <= |handle.packets|)
      && r.sightings == Accepted(w.hardwareAddr, handle.packets[..if r.stopped then stopAfter else |handle.packets|])
      && handle.closed == (old(handle.closed) || r.stopped)
  {
    if openFailure.Some? {
      return Failed(openFailure.value);
    }
    var err := handle.SetBPFFilter("arp");
    if err.Some? {
      handle.Close();
      return Failed(err.value);
    }
    var stopped, sightings := Loop(w, handle.packets, stopAfter);
    if stopped {
      handle.Close();
    }
    return Watching(stopped, sightings);
  }
}
