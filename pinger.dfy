/**
 * The ICMP prober of pinger/pinger.go. The sender writes one echo request to
 * every address of the network per sweep and sleeps between sweeps; the
 * receiver turns echo replies into sightings; Run combines their results.
 * The socket is replaced by a connection whose failures are given up front,
 * the clock by the measured duration of each sweep, and the stop signal by
 * the number of sleeps after which it is seen.
 */
module Pinger {
  import opened Base
  import opened Net
  import Utils

  const Millisecond: int := 1_000_000

  /** ICMP message types of ipv4.ICMPTypeEchoReply and ipv4.ICMPTypeEcho. */
  const TypeEchoReply: nat := 0
  const TypeEcho: nat := 8

  /** An ICMP echo message: type, code and the echo body. */
  datatype Echo = Echo(typ: nat, code: nat, id: nat, sequence: nat, data: seq<uint8>)

  /** The prober of one interface and its network. */
  datatype Pinger = Pinger(iface: string, network: IPNet)

  // ---------------------------------------------------------------------------
  // The echo request

  lemma Pow2Of16()
    ensures Pow2(16) == 0x1_0000
  {
    assert Pow2(4) == 16;
    Pow2Add(4, 4);
    Pow2Add(8, 8);
  }

  /** The remainder is the one r in 0..m-1 with a = m * q + r. */
  lemma ModUnique(a: nat, m: nat, q: nat, r: nat)
    requires 0 <= r < m && a == m * q + r
    ensures a % m == r && a / m == q
  {
    var q2, r2 := a / m, a % m;
    assert m * q2 + r2 == m * q + r;
    if q2 > q {
      assert m * (q2 - q) == r - r2;
      MulAtLeast(m, q2 - q);
    } else if q2 < q {
      assert m * (q - q2) == r2 - r;
      MulAtLeast(m, q - q2);
    }
  }

  lemma MulAtLeast(m: nat, d: nat)
    requires d >= 1
    ensures m * d >= m
  {
  }

  lemma ModOfDouble(a: nat, p: nat)
    requires p > 0
    ensures a % (2 * p) == 2 * ((a / 2) % p) + a % 2
  {
    var h := a / 2;
    var q := h / p;
    var r := 2 * (h % p) + a % 2;
    assert h == p * q + h % p;
    assert a == 2 * h + a % 2;
    assert a == (2 * p) * q + r by {
      calc {
        a;
        2 * h + a % 2;
        2 * (p * q + h % p) + a % 2;
        (2 * p) * q + r;
      }
    }
    ModUnique(a, 2 * p, q, r);
  }

  /** AND with w one-bits keeps the value modulo 2^w. */
  lemma {:induction false} LowMaskIsMod(a: nat, w: nat)
    ensures BitAnd(a, Pow2(w) - 1) == a % Pow2(w)
    decreases w
  {
    if w != 0 && a != 0 {
      LowMaskIsMod(a / 2, w - 1);
      LowMaskStep(a, Pow2(w - 1));
    }
  }

  /** One more mask bit: the inductive step of LowMaskIsMod. */
  lemma LowMaskStep(a: nat, half: nat)
    requires half >= 1 && a != 0
    requires BitAnd(a / 2, half - 1) == (a / 2) % half
    ensures BitAnd(a, 2 * half - 1) == a % (2 * half)
  {
    BitAndOddMask(a, half);
    ModOfDouble(a, half);
  }

  /** AND with an odd mask keeps the lowest bit and ANDs the rest with the halved mask. */
  lemma BitAndOddMask(a: nat, half: nat)
    requires half >= 1 && a != 0
    ensures BitAnd(a, 2 * half - 1) == 2 * BitAnd(a / 2, half - 1) + a % 2
  {
    var m := 2 * half - 1;
    ModUnique(m, 2, half - 1, 1);
    var low := if a % 2 == 1 then 1 else 0;
    assert BitAnd(a, m) == 2 * BitAnd(a / 2, m / 2) + low;
  }

  /**
   * The request the sender sends: an echo (type 8, code 0) carrying the low 16
   * bits of the process id, sequence number 1 and no payload.
   */
  function EchoRequest(pid: nat): (m: Echo)
    ensures m.typ == TypeEcho && m.code == 0 && m.sequence == 1 && m.data == []
    ensures m.id == pid % 0x1_0000 && m.id < 0x1_0000
  {
    Pow2Of16();
    LowMaskIsMod(pid, 16);
    Echo(TypeEcho, 0, BitAnd(pid, 0xffff), 1, [])
  }

  // ---------------------------------------------------------------------------
  // The sleep between sweeps

  /**
   * The wait after a sweep that took elapsed: the rest of the interval, or
   * 100ms when the sweep overran the interval.
   */
  function SleepFor(interval: int, elapsed: int): (sleep: int)
    ensures sleep >= 0
  {
    var sleep := interval - elapsed;
    if sleep < 0 then 100 * Millisecond else sleep
  }

  /**
   * Consecutive sweeps start an interval apart when a sweep fits in the
   * interval, and 100ms after the end of an overrunning sweep otherwise; so
   * never earlier than an interval apart.
   */
  lemma SweepSpacing(interval: int, elapsed: int)
    ensures elapsed <= interval ==> elapsed + SleepFor(interval, elapsed) == interval
    ensures elapsed > interval ==> elapsed + SleepFor(interval, elapsed) == elapsed + 100 * Millisecond
    ensures elapsed + SleepFor(interval, elapsed) >= interval
  {
  }

  // ---------------------------------------------------------------------------
  // The connection

  /**
   * Stand-in for the ICMP packet connection: the writes it accepted, whether
   * it is closed, and the index of the write that fails (if any) with the
   * error it fails with.
   */
  class PacketConn {
    var closed: bool
    var writes: seq<(seq<uint8>, IP)>
    const failAt: Option<nat>
    const failure: Error

    constructor (failAt: Option<nat>, failure: Error)
      ensures !closed && writes == [] && this.failAt == failAt && this.failure == failure
    {
      closed := false;
      writes := [];
      this.failAt := failAt;
      this.failure := failure;
    }

    /** WriteTo: fails on a closed connection and at the scripted write. */
    method WriteTo(b: seq<uint8>, addr: IP) returns (err: Option<Error>)
      modifies this
      ensures closed == old(closed)
      ensures old(closed) ==> err == Some(ErrClosed) && writes == old(writes)
      ensures !old(closed) && failAt == Some(|old(writes)|) ==> err == Some(failure) && writes == old(writes)
      ensures !old(closed) && failAt != Some(|old(writes)|) ==> err == None && writes == old(writes) + [(b, addr)]
    {
      if closed {
        return Some(ErrClosed);
      }
      if failAt == Some(|writes|) {
        return Some(failure);
      }
      writes := writes + [(b, addr)];
      return None;
    }

    method Close()
      modifies this
      ensures closed && writes == old(writes)
    {
      closed := true;
    }
  }

  // ---------------------------------------------------------------------------
  // The sender

  /** The addresses one sweep probes, as EnumerateIPs lists them. */
  function Targets(network: IPNet): (ips: seq<IP>)
    requires |network.ip| >= 4 && |network.mask| >= 4
    ensures |ips| == |Utils.Enumeration(network)|
  {
    var vs := Utils.Enumeration(network);
    seq(|vs|, i requires 0 <= i < |vs| => PutUint32(vs[i]))
  }

  /** What EnumerateIPs returns is the target list. */
  lemma EnumeratedTargets(network: IPNet, addrs: seq<IP>)
    requires |network.ip| >= 4 && |network.mask| >= 4
    requires |addrs| == |Utils.Enumeration(network)|
    requires forall i :: 0 <= i < |addrs| ==> addrs[i] == PutUint32(Utils.Enumeration(network)[i])
    ensures addrs == Targets(network)
  {
  }

  /** One sweep: the request bytes to every target in order. */
  function Requests(wb: seq<uint8>, targets: seq<IP>): (ws: seq<(seq<uint8>, IP)>)
    ensures |ws| == |targets|
  {
    seq(|targets|, i requires 0 <= i < |targets| => (wb, targets[i]))
  }

  /** n sweeps in a row. */
  function Sweeps(wb: seq<uint8>, targets: seq<IP>, n: nat): (ws: seq<(seq<uint8>, IP)>)
    ensures |ws| == n * |targets|
  {
    if n == 0 then [] else Sweeps(wb, targets, n - 1) + Requests(wb, targets)
  }

  lemma MulStep(k: nat, n: nat, t: nat, i: nat)
    requires k < n && i <= t
    ensures k * t + i <= n * t
    ensures i < t ==> k * t + i < n * t
  {
    assert (k + 1) * t <= n * t;
  }

  /** The writes of k whole sweeps and i more requests are how n > k sweeps begin. */
  lemma {:induction false} SweepsPrefix(wb: seq<uint8>, targets: seq<IP>, n: nat, k: nat, i: nat)
    requires k < n && i <= |targets|
    ensures k * |targets| + i <= |Sweeps(wb, targets, n)|
    ensures Sweeps(wb, targets, n)[..k * |targets| + i] == Sweeps(wb, targets, k) + Requests(wb, targets[..i])
    decreases n
  {
    MulStep(k, n, |targets|, i);
    var f := k * |targets| + i;
    if k == n - 1 {
      assert Requests(wb, targets)[..i] == Requests(wb, targets[..i]);
    } else {
      SweepsPrefix(wb, targets, n - 1, k, i);
      MulStep(k, n - 1, |targets|, i);
    }
  }

  /**
   * How many writes, counted from now, succeed before the first failing one:
   * none on a closed connection, up to the scripted failure otherwise.
   */
  function FirstFailure(closed: bool, failAt: Option<nat>, written: nat): Option<nat> {
    if closed then Some(0)
    else if failAt.Some? && failAt.value >= written then Some(failAt.value - written)
    else None
  }

  /**
   * What sender returns: the marshal error; the error of the first failing
   * write among the planned ones; nil when every planned write succeeds.
   */
  function SenderResult(marshalled: Result<seq<uint8>, Error>, planned: nat, closed: bool, failAt: Option<nat>, written: nat, failure: Error): (r: Option<Error>)
    ensures marshalled.Err? ==> r == Some(marshalled.error)
    ensures marshalled.Ok? && closed ==> r == if planned == 0 then None else Some(ErrClosed)
    ensures marshalled.Ok? && !closed ==>
      r == if failAt.Some? && written <= failAt.value < written + planned then Some(failure) else None
  {
    if marshalled.Err? then Some(marshalled.error)
    else WriteResult(closed, failAt, written, failure, planned)
  }

  /** The error of the first failing write among planned ones, if any fails. */
  function WriteResult(closed: bool, failAt: Option<nat>, written: nat, failure: Error, planned: nat): Option<Error> {
    var ff := FirstFailure(closed, failAt, written);
    if ff.Some? && ff.value < planned then Some(if closed then ErrClosed else failure)
    else None
  }

  /** The planned writes that happen: those before the first failing one. */
  function Sent<T>(ff: Option<nat>, planned: seq<T>): (ws: seq<T>)
    ensures ws <= planned
    ensures ff.None? || ff.value >= |planned| ==> ws == planned
    ensures ff.Some? && ff.value < |planned| ==> |ws| == ff.value
  {
    if ff.Some? && ff.value < |planned| then planned[..ff.value] else planned
  }

  /**
   * sender: marshal the echo request; then sweep, and after each sweep either
   * see the stop signal (close the connection, return nil) or sleep. The stop
   * signal wins the wait after stopAfter sleeps, so stopAfter + 1 sweeps are
   * planned. The first failing write ends the sender with its error and leaves
   * the connection as it was; a marshal failure closes the connection.
   */
  method Sender(p: Pinger, conn: PacketConn, pid: nat, marshal: Echo -> Result<seq<uint8>, Error>,
                interval: int, elapsed: nat -> int, stopAfter: nat)
    returns (err: Option<Error>, sleeps: seq<int>)
    requires |p.network.ip| >= 4 && |p.network.mask| >= 4
    modifies conn
    ensures err == SenderResult(marshal(EchoRequest(pid)), |Planned(marshal(EchoRequest(pid)), p.network, stopAfter)|,
                                old(conn.closed), conn.failAt, |old(conn.writes)|, conn.failure)
    ensures marshal(EchoRequest(pid)).Err? ==> conn.closed && conn.writes == old(conn.writes) && sleeps == []
    ensures marshal(EchoRequest(pid)).Ok? && err.Some? ==>
      && conn.closed == old(conn.closed)
      && FirstFailure(old(conn.closed), conn.failAt, |old(conn.writes)|).Some?
      && FirstFailure(old(conn.closed), conn.failAt, |old(conn.writes)|).value < |Planned(marshal(EchoRequest(pid)), p.network, stopAfter)|
      && conn.writes == old(conn.writes) + Planned(marshal(EchoRequest(pid)), p.network, stopAfter)
                         [..FirstFailure(old(conn.closed), conn.failAt, |old(conn.writes)|).value]
    ensures marshal(EchoRequest(pid)).Ok? && err.None? ==>
      conn.closed && conn.writes == old(conn.writes) + Planned(marshal(EchoRequest(pid)), p.network, stopAfter)
    ensures conn.closed == (old(conn.closed) || marshal(EchoRequest(pid)).Err? || err.None?)
    ensures conn.writes == old(conn.writes) + Sent(FirstFailure(old(conn.closed), conn.failAt, |old(conn.writes)|),
                                                   Planned(marshal(EchoRequest(pid)), p.network, stopAfter))
    ensures err.None? ==> |sleeps| == stopAfter
    ensures |sleeps| <= stopAfter
    ensures forall k :: 0 <= k < |sleeps| ==> sleeps[k] == SleepFor(interval, elapsed(k))
  {
    var wm := EchoRequest(pid);
    var marshalled := marshal(wm);
    if marshalled.Err? {
      conn.Close();
      return Some(marshalled.error), [];
    }
    err, sleeps := SweepLoop(p, conn, marshalled.value, interval, elapsed, stopAfter);
  }

  /**
   * The loop of sender once the request is marshalled: sweep, then stop after
   * stopAfter sleeps or sleep and sweep again; a failing write ends it.
   */
  method SweepLoop(p: Pinger, conn: PacketConn, wb: seq<uint8>, interval: int, elapsed: nat -> int, stopAfter: nat)
    returns (err: Option<Error>, sleeps: seq<int>)
    requires |p.network.ip| >= 4 && |p.network.mask| >= 4
    modifies conn
    ensures err == WriteResult(old(conn.closed), conn.failAt, |old(conn.writes)|, conn.failure,
                               |Sweeps(wb, Targets(p.network), stopAfter + 1)|)
    ensures conn.closed == (old(conn.closed) || err.None?)
    ensures conn.writes == old(conn.writes) +
      Sent(FirstFailure(old(conn.closed), conn.failAt, |old(conn.writes)|), Sweeps(wb, Targets(p.network), stopAfter + 1))
    ensures err.None? ==> |sleeps| == stopAfter
    ensures |sleeps| <= stopAfter
    ensures sleeps == Waits(interval, elapsed, |sleeps|)
  {
    ghost var targets := Targets(p.network);
    ghost var planned := Sweeps(wb, targets, stopAfter + 1);
    ghost var before := conn.writes;
    ghost var closed0 := conn.closed;
    ghost var ff := FirstFailure(closed0, conn.failAt, |before|);
    sleeps := [];
    var sweep := 0;
    while true
      invariant 0 <= sweep <= stopAfter
      invariant conn.closed == closed0
      invariant conn.writes == before + Sweeps(wb, targets, sweep)
      invariant ff.None? || ff.value >= |Sweeps(wb, targets, sweep)|
      invariant |sleeps| == sweep
      invariant sleeps == Waits(interval, elapsed, sweep)
      decreases stopAfter - sweep
    {
      var e := NextSweep(p, conn, wb, before, sweep, stopAfter);
      if e.Some? {
        return e, sleeps;
      }
      if sweep == stopAfter {
        assert Sent(ff, planned) == planned;
        conn.Close();
        return None, sleeps;
      }
      sleeps := sleeps + [SleepFor(interval, elapsed(sweep))];
      sweep := sweep + 1;
    }
  }

  /**
   * The next sweep of the loop, after sweep whole sweeps: it either fails,
   * ending the planned writes at the first failure, or adds one more sweep.
   */
  method NextSweep(p: Pinger, conn: PacketConn, wb: seq<uint8>, ghost before: seq<(seq<uint8>, IP)>,
                   ghost sweep: nat, ghost stopAfter: nat)
    returns (err: Option<Error>)
    requires |p.network.ip| >= 4 && |p.network.mask| >= 4 && sweep <= stopAfter
    requires conn.writes == before + Sweeps(wb, Targets(p.network), sweep)
    requires var ff := FirstFailure(conn.closed, conn.failAt, |before|);
      ff.None? || ff.value >= |Sweeps(wb, Targets(p.network), sweep)|
    modifies conn
    ensures conn.closed == old(conn.closed)
    ensures var ff := FirstFailure(conn.closed, conn.failAt, |before|);
      err.Some? ==>
        && ff.Some? && ff.value < |Sweeps(wb, Targets(p.network), stopAfter + 1)|
        && err == Some(if conn.closed then ErrClosed else conn.failure)
        && conn.writes == before + Sent(ff, Sweeps(wb, Targets(p.network), stopAfter + 1))
    ensures var ff := FirstFailure(conn.closed, conn.failAt, |before|);
      err.None? ==>
        && conn.writes == before + Sweeps(wb, Targets(p.network), sweep + 1)
        && (ff.None? || ff.value >= |Sweeps(wb, Targets(p.network), sweep + 1)|)
  {
    ghost var targets := Targets(p.network);
    err := SweepNetwork(conn, wb, p.network);
    NextSweepStep(wb, targets, before, sweep, stopAfter, conn.closed, conn.failAt, conn.failure, conn.writes, err);
  }

  /** What one more sweep, given what it wrote and returned, means for the planned writes. */
  lemma NextSweepStep(wb: seq<uint8>, targets: seq<IP>, before: seq<(seq<uint8>, IP)>, sweep: nat, stopAfter: nat,
                      closed: bool, failAt: Option<nat>, failure: Error, writes: seq<(seq<uint8>, IP)>, err: Option<Error>)
    requires sweep <= stopAfter
    requires var ff := FirstFailure(closed, failAt, |before|);
      ff.None? || ff.value >= |Sweeps(wb, targets, sweep)|
    requires var w := FirstFailure(closed, failAt, |before + Sweeps(wb, targets, sweep)|);
      if w.Some? && w.value < |targets| then
        err == Some(if closed then ErrClosed else failure)
        && writes == before + Sweeps(wb, targets, sweep) + Requests(wb, targets)[..w.value]
      else
        err == None && writes == before + Sweeps(wb, targets, sweep) + Requests(wb, targets)
    ensures var ff := FirstFailure(closed, failAt, |before|);
      err.Some? ==>
        && ff.Some? && ff.value < |Sweeps(wb, targets, stopAfter + 1)|
        && err == Some(if closed then ErrClosed else failure)
        && writes == before + Sent(ff, Sweeps(wb, targets, stopAfter + 1))
    ensures var ff := FirstFailure(closed, failAt, |before|);
      err.None? ==>
        && writes == before + Sweeps(wb, targets, sweep + 1)
        && (ff.None? || ff.value >= |Sweeps(wb, targets, sweep + 1)|)
  {
    var ff := FirstFailure(closed, failAt, |before|);
    FirstFailureShift(closed, failAt, |before|, |Sweeps(wb, targets, sweep)|);
    if err.Some? {
      SweepFailed(wb, targets, stopAfter + 1, sweep, ff, before, writes);
    } else {
      assert before + Sweeps(wb, targets, sweep) + Requests(wb, targets) == before + Sweeps(wb, targets, sweep + 1);
      SweepPassed(wb, targets, sweep, stopAfter, ff);
    }
  }

  /** The waits after the first n sweeps. */
  function Waits(interval: int, elapsed: nat -> int, n: nat): (ws: seq<int>)
    ensures |ws| == n
    ensures forall k :: 0 <= k < n ==> ws[k] == SleepFor(interval, elapsed(k))
  {
    if n == 0 then [] else Waits(interval, elapsed, n - 1) + [SleepFor(interval, elapsed(n - 1))]
  }

  /** The writes the sender plans: stopAfter + 1 sweeps, none when marshalling failed. */
  function Planned(marshalled: Result<seq<uint8>, Error>, network: IPNet, stopAfter: nat): (ws: seq<(seq<uint8>, IP)>)
    requires |network.ip| >= 4 && |network.mask| >= 4
    ensures marshalled.Err? ==> ws == []
    ensures marshalled.Ok? ==> |ws| == (stopAfter + 1) * |Utils.Enumeration(network)|
  {
    if marshalled.Ok? then Sweeps(marshalled.value, Targets(network), stopAfter + 1) else []
  }

  /** A write failing i requests into sweep k ends the planned writes there. */
  lemma SweepFailed(wb: seq<uint8>, targets: seq<IP>, n: nat, k: nat, ff: Option<nat>,
                    before: seq<(seq<uint8>, IP)>, writes: seq<(seq<uint8>, IP)>)
    requires k < n && ff.Some?
    requires |Sweeps(wb, targets, k)| <= ff.value < |Sweeps(wb, targets, k)| + |targets|
    requires writes == before + Sweeps(wb, targets, k) + Requests(wb, targets)[..ff.value - |Sweeps(wb, targets, k)|]
    ensures ff.value < |Sweeps(wb, targets, n)|
    ensures writes == before + Sent(ff, Sweeps(wb, targets, n))
  {
    var i := ff.value - |Sweeps(wb, targets, k)|;
    SweepsPrefix(wb, targets, n, k, i);
    MulStep(k, n, |targets|, i);
    assert Requests(wb, targets)[..i] == Requests(wb, targets[..i]);
  }


  /** No failure within sweep k leaves none before sweep k + 1, nor within the last planned sweep. */
  lemma SweepPassed(wb: seq<uint8>, targets: seq<IP>, k: nat, stopAfter: nat, ff: Option<nat>)
    requires k <= stopAfter
    requires ff.None? || (ff.value >= |Sweeps(wb, targets, k)| && ff.value - |Sweeps(wb, targets, k)| >= |targets|)
    ensures ff.None? || ff.value >= |Sweeps(wb, targets, k + 1)|
    ensures k == stopAfter ==> ff.None? || ff.value >= |Sweeps(wb, targets, stopAfter + 1)|
  {
  }


  /** Counting failures from d writes later. */
  lemma FirstFailureShift(closed: bool, failAt: Option<nat>, written: nat, d: nat)
    requires FirstFailure(closed, failAt, written).None? || FirstFailure(closed, failAt, written).value >= d
    ensures FirstFailure(closed, failAt, written + d) ==
      if FirstFailure(closed, failAt, written).Some? then Some(FirstFailure(closed, failAt, written).value - d) else None
  {
  }

  /** One sweep over the addresses EnumerateIPs lists for the network. */
  method SweepNetwork(conn: PacketConn, wb: seq<uint8>, network: IPNet) returns (err: Option<Error>)
    requires |network.ip| >= 4 && |network.mask| >= 4
    modifies conn
    ensures conn.closed == old(conn.closed)
    ensures var ff := FirstFailure(old(conn.closed), conn.failAt, |old(conn.writes)|);
      if ff.Some? && ff.value < |Targets(network)| then
        err == Some(if old(conn.closed) then ErrClosed else conn.failure)
        && conn.writes == old(conn.writes) + Requests(wb, Targets(network))[..ff.value]
      else
        err == None && conn.writes == old(conn.writes) + Requests(wb, Targets(network))
  {
    var addrs := Utils.EnumerateIPs(network);
    EnumeratedTargets(network, addrs);
    err := SendSweep(conn, wb, addrs);
  }

  /**
   * One sweep: the request to every address in order; the first failing write
   * ends the sweep with its error.
   */
  method SendSweep(conn: PacketConn, wb: seq<uint8>, addrs: seq<IP>) returns (err: Option<Error>)
    modifies conn
    ensures conn.closed == old(conn.closed)
    ensures var ff := FirstFailure(old(conn.closed), conn.failAt, |old(conn.writes)|);
      if ff.Some? && ff.value < |addrs| then
        err == Some(if old(conn.closed) then ErrClosed else conn.failure)
        && conn.writes == old(conn.writes) + Requests(wb, addrs)[..ff.value]
      else
        err == None && conn.writes == old(conn.writes) + Requests(wb, addrs)
  {
    ghost var ff := FirstFailure(conn.closed, conn.failAt, |conn.writes|);
    var i := 0;
    while i < |addrs|
      invariant 0 <= i <= |addrs|
      invariant conn.closed == old(conn.closed)
      invariant conn.writes == old(conn.writes) + Requests(wb, addrs)[..i]
      invariant ff.None? || ff.value >= i
    {
      var e := conn.WriteTo(wb, addrs[i]);
      if e.Some? {
        return e;
      }
      assert Requests(wb, addrs)[..i + 1] == Requests(wb, addrs)[..i] + [(wb, addrs[i])];
      i := i + 1;
    }
    assert Requests(wb, addrs)[..i] == Requests(wb, addrs);
    return None;
  }

  /**
   * A sender that is not disturbed sends every planned request, sweep after
   * sweep, each sweep to every enumerated address in ascending order.
   */
  lemma {:induction false} SweepsInOrder(wb: seq<uint8>, targets: seq<IP>, n: nat, k: nat, i: nat)
    requires k < n && i < |targets|
    ensures k * |targets| + i < |Sweeps(wb, targets, n)|
    ensures Sweeps(wb, targets, n)[k * |targets| + i] == (wb, targets[i])
  {
    SweepsPrefix(wb, targets, n, k, i + 1);
    MulStep(k, n, |targets|, i);
    var f := k * |targets| + i;
    assert Sweeps(wb, targets, n)[..f + 1][f] == (Sweeps(wb, targets, k) + Requests(wb, targets[..i + 1]))[f];
  }

  // ---------------------------------------------------------------------------
  // The receiver

  /** icmp.ParseMessage: the type of the message, or why it could not be parsed. */
  datatype Parsed = Parsed(typ: nat) | Unparsable(err: Error)

  /** One ReadFrom: a message and the peer it came from, or a read error. */
  datatype Read = Received(message: Parsed, peer: IP) | ReadFailed(err: Error)

  /**
   * How the receiver ends: still waiting for a read, stopped because the
   * connection was closed, failed with a read error, or crashed on the nil
   * message a parse failure leaves behind.
   */
  datatype ReceiverOutcome = Blocked | Stopped | Failed(err: Error) | Panicked

  /**
   * The receiver over a sequence of reads: the way it ends and the sightings
   * it reported before (only echo replies, by peer address, without hardware
   * address).
   */
  function Receive(inbox: seq<Read>): (r: (ReceiverOutcome, seq<Sighting>))
    ensures |r.1| <= |inbox|
    ensures forall i :: 0 <= i < |r.1| ==> r.1[i].mac.None?
  {
    if inbox == [] then (Blocked, [])
    else match inbox[0]
      case ReadFailed(e) => (if e == ErrClosed then Stopped else Failed(e), [])
      case Received(m, peer) =>
        if m.Unparsable? then (Panicked, [])
        else
          var rest := Receive(inbox[1..]);
          (rest.0, if m.typ == TypeEchoReply then [Sighting(peer, None)] + rest.1 else rest.1)
  }

  /** A read the receiver continues after: a parsed message. */
  predicate Continues(r: Read) {
    r.Received? && r.message.Parsed?
  }

  /** How the receiver ends on a read it does not continue after. */
  function EndOn(r: Read): ReceiverOutcome {
    if r.Received? then Panicked
    else if r.err == ErrClosed then Stopped
    else Failed(r.err)
  }

  /** inbox[i] is the first read the receiver does not continue after. */
  predicate FirstEnd(inbox: seq<Read>, i: int) {
    0 <= i < |inbox| && !Continues(inbox[i]) && forall j :: 0 <= j < i ==> Continues(inbox[j])
  }

  /** The receiver keeps waiting exactly when it continues after every read. */
  lemma {:induction false} ReceiveBlocked(inbox: seq<Read>)
    ensures Receive(inbox).0 == Blocked <==> forall i :: 0 <= i < |inbox| ==> Continues(inbox[i])
    decreases |inbox|
  {
    if inbox != [] && Continues(inbox[0]) {
      ReceiveBlocked(inbox[1..]);
      assert forall i :: 1 <= i < |inbox| ==> inbox[i] == inbox[1..][i - 1];
    }
  }

  /**
   * Otherwise it ends at the first read it does not continue after: a closed
   * connection stops it cleanly, another read error fails it with that error,
   * a parse failure crashes it.
   */
  lemma {:induction false} ReceiveEnds(inbox: seq<Read>)
    ensures Receive(inbox).0 != Blocked ==>
      exists i :: FirstEnd(inbox, i) && Receive(inbox).0 == EndOn(inbox[i])
    decreases |inbox|
  {
    if inbox != [] && Continues(inbox[0]) {
      var tail := inbox[1..];
      ReceiveEnds(tail);
      if Receive(inbox).0 != Blocked {
        var i :| FirstEnd(tail, i) && Receive(tail).0 == EndOn(tail[i]);
        assert inbox[i + 1] == tail[i];
        assert forall j :: 1 <= j < i + 1 ==> inbox[j] == tail[j - 1];
        assert FirstEnd(inbox, i + 1);
      }
    } else if inbox != [] {
      assert FirstEnd(inbox, 0);
    }
  }

  /** Every sighting comes from an echo reply read at or after its own position. */
  lemma {:induction false} ReceiveOnlyEchoReplies(inbox: seq<Read>, k: nat)
    requires k < |Receive(inbox).1|
    ensures exists i :: k <= i < |inbox| && inbox[i] == Received(Parsed(TypeEchoReply), Receive(inbox).1[k].ip)
    decreases |inbox|
  {
    var m := inbox[0].message;
    var rest := Receive(inbox[1..]);
    if m.typ == TypeEchoReply && k == 0 {
      assert inbox[0] == Received(Parsed(TypeEchoReply), Receive(inbox).1[0].ip);
    } else {
      var k' := if m.typ == TypeEchoReply then k - 1 else k;
      assert Receive(inbox).1[k] == rest.1[k'];
      ReceiveOnlyEchoReplies(inbox[1..], k');
      var i :| k' <= i < |inbox[1..]| && inbox[1..][i] == Received(Parsed(TypeEchoReply), rest.1[k'].ip);
      assert inbox[i + 1] == inbox[1..][i];
    }
  }

  /**
   * Reads the receiver continues after pass their sightings on in order,
   * ahead of whatever the later reads give.
   */
  lemma {:induction false} ReceiveAppend(a: seq<Read>, b: seq<Read>)
    requires forall i :: 0 <= i < |a| ==> Continues(a[i])
    ensures Receive(a + b) == (Receive(b).0, Receive(a).1 + Receive(b).1)
    decreases |a|
  {
    if a == [] {
      assert a + b == b;
      assert Receive(a).1 + Receive(b).1 == Receive(b).1;
    } else {
      assert (a + b)[0] == a[0] && Continues(a[0]);
      assert (a + b)[1..] == a[1..] + b;
      ReceiveAppend(a[1..], b);
      var head := if a[0].message.typ == TypeEchoReply then [Sighting(a[0].peer, None)] else [];
      assert Receive(a).1 == head + Receive(a[1..]).1;
      assert Receive(a + b).0 == Receive(a[1..] + b).0;
      assert Receive(a + b).1 == head + Receive(a[1..] + b).1;
      assert Receive(a + b).1 == head + (Receive(a[1..]).1 + Receive(b).1);
      assert Receive(a + b).1 == Receive(a).1 + Receive(b).1;
    }
  }

  /** One read the receiver continues after: an echo reply reports its peer, anything else nothing. */
  lemma ReceiveSingle(r: Read)
    requires Continues(r)
    ensures Receive([r]) == (Blocked, if r.message.typ == TypeEchoReply then [Sighting(r.peer, None)] else [])
  {
    assert [r][1..] == [];
    assert [Sighting(r.peer, None)] + [] == [Sighting(r.peer, None)];
  }

  /** Every echo reply read before the receiver ends is reported. */
  lemma ReceiveReportsReply(inbox: seq<Read>, i: nat)
    requires i < |inbox| && forall j :: 0 <= j <= i ==> Continues(inbox[j])
    requires Continues(inbox[i]) && inbox[i].message.typ == TypeEchoReply
    ensures Sighting(inbox[i].peer, None) in Receive(inbox).1
  {
    assert inbox == inbox[..i] + inbox[i..];
    ReceiveAppend(inbox[..i], inbox[i..]);
    assert inbox[i..] == [inbox[i]] + inbox[i + 1..];
    ReceiveAppend([inbox[i]], inbox[i + 1..]);
    ReceiveSingle(inbox[i]);
    assert Receive(inbox[i..]).1[0] == Sighting(inbox[i].peer, None);
  }

  /**
   * A single unparsable message crashes the receiver although it was only
   * meant to be logged: the parse failure leaves no message whose type could
   * be read.
   */
  lemma ParseFailureCrashes(e: Error, peer: IP, later: seq<Read>)
    ensures Receive([Received(Unparsable(e), peer)] + later) == (Panicked, [])
  {
    assert ([Received(Unparsable(e), peer)] + later)[0] == Received(Unparsable(e), peer);
  }

  /** The receiver as intended: an unparsable message is logged and skipped. */
  function ReceiveSkipping(inbox: seq<Read>): (r: (ReceiverOutcome, seq<Sighting>))
    ensures |r.1| <= |inbox|
  {
    if inbox == [] then (Blocked, [])
    else match inbox[0]
      case ReadFailed(e) => (if e == ErrClosed then Stopped else Failed(e), [])
      case Received(m, peer) =>
        var rest := ReceiveSkipping(inbox[1..]);
        (rest.0, if m.Parsed? && m.typ == TypeEchoReply then [Sighting(peer, None)] + rest.1 else rest.1)
  }

  /** The intended receiver never crashes and ends only on a read error. */
  lemma {:induction false} SkippingNeverCrashes(inbox: seq<Read>)
    ensures ReceiveSkipping(inbox).0 != Panicked
    ensures ReceiveSkipping(inbox).0 == Blocked <==> forall i :: 0 <= i < |inbox| ==> inbox[i].Received?
    decreases |inbox|
  {
    if inbox != [] && inbox[0].Received? {
      SkippingNeverCrashes(inbox[1..]);
      assert forall i :: 1 <= i < |inbox| ==> inbox[i] == inbox[1..][i - 1];
    }
  }

  /** Where no message fails to parse, the intended receiver is the receiver as written. */
  lemma {:induction false} SkippingAgrees(inbox: seq<Read>)
    requires forall i :: 0 <= i < |inbox| ==> inbox[i].Received? ==> inbox[i].message.Parsed?
    ensures ReceiveSkipping(inbox) == Receive(inbox)
    decreases |inbox|
  {
    if inbox != [] && inbox[0].Received? {
      assert forall i :: 0 <= i < |inbox[1..]| ==> inbox[1..][i] == inbox[i + 1];
      SkippingAgrees(inbox[1..]);
    }
  }

  /**
   * receiver: read until a read error or a crash, reporting the peer of every
   * echo reply.
   */
  method Receiver(inbox: seq<Read>) returns (outcome: ReceiverOutcome, sightings: seq<Sighting>)
    ensures (outcome, sightings) == Receive(inbox)
  {
    sightings := [];
    var i := 0;
    while i < |inbox|
      invariant 0 <= i <= |inbox|
      invariant Receive(inbox).0 == Receive(inbox[i..]).0
      invariant Receive(inbox).1 == sightings + Receive(inbox[i..]).1
    {
      assert inbox[i..][1..] == inbox[i + 1..];
      assert inbox[i..][0] == inbox[i];
      assert sightings + [] == sightings;
      match inbox[i]
      case ReadFailed(e) =>
        assert Receive(inbox[i..]) == (if e == ErrClosed then Stopped else Failed(e), []);
        if e == ErrClosed {
          return Stopped, sightings;
        }
        return Failed(e), sightings;
      case Received(m, peer) =>
        if m.Unparsable? {
          assert Receive(inbox[i..]) == (Panicked, []);
          return Panicked, sightings;
        }
        if m.typ == TypeEchoReply {
          assert Receive(inbox[i..]).1 == [Sighting(peer, None)] + Receive(inbox[i + 1..]).1;
          sightings := sightings + [Sighting(peer, None)];
        }
        i := i + 1;
    }
    assert inbox[i..] == [];
    assert Receive(inbox[i..]) == (Blocked, []);
    assert sightings + [] == sightings;
    return Blocked, sightings;
  }

  // ---------------------------------------------------------------------------
  // Run

  /** How Run ends: it is still running, it returned, or the process crashed. */
  datatype RunOutcome = Running | Returned(err: Option<Error>) | Crashed

  /**
   * Run's result from the receiver's and the sender's: a receiver error wins
   * over whatever the sender returns; after a clean stop the sender's result
   * is returned.
   */
  function Combine(receiver: ReceiverOutcome, sender: Option<Error>): (r: RunOutcome)
    ensures receiver.Failed? ==> r == Returned(Some(receiver.err))
    ensures receiver == Stopped ==> r == Returned(sender)
    ensures r == Crashed <==> receiver == Panicked
    ensures r == Running <==> receiver == Blocked
  {
    match receiver
    case Blocked => Running
    case Stopped => Returned(sender)
    case Failed(e) => Returned(Some(e))
    case Panicked => Crashed
  }

  /**
   * The reads the receiver sees: the messages and read errors that arrive,
   * then, once the connection is closed, the ErrClosed every later read gets.
   */
  function Reads(arrivals: seq<Read>, closed: bool): (rs: seq<Read>)
    ensures arrivals <= rs
    ensures closed ==> |rs| == |arrivals| + 1 && rs[|arrivals|] == ReadFailed(ErrClosed)
    ensures !closed ==> rs == arrivals
  {
    if closed then arrivals + [ReadFailed(ErrClosed)] else arrivals
  }

  /** Only closing the connection makes a read fail with ErrClosed. */
  predicate NoCloseSignal(arrivals: seq<Read>) {
    forall i :: 0 <= i < |arrivals| ==> arrivals[i] != ReadFailed(ErrClosed)
  }

  /**
   * On a closed connection the receiver always ends: after the arrivals it
   * continues past, the closed connection stops it; otherwise a read error
   * that arrived fails it, or a parse failure crashes it.
   */
  lemma ClosedConnectionEnds(arrivals: seq<Read>, sent: Option<Error>)
    requires NoCloseSignal(arrivals)
    ensures Receive(Reads(arrivals, true)).0 != Blocked
    ensures Combine(Receive(Reads(arrivals, true)).0, sent) != Running
    ensures (forall i :: 0 <= i < |arrivals| ==> Continues(arrivals[i])) ==>
      Combine(Receive(Reads(arrivals, true)).0, sent) == Returned(sent)
    ensures Receive(Reads(arrivals, true)).0.Failed? ==>
      exists i :: 0 <= i < |arrivals| && arrivals[i] == ReadFailed(Receive(Reads(arrivals, true)).0.err)
  {
    var rs := Reads(arrivals, true);
    ReceiveBlocked(rs);
    assert !Continues(rs[|arrivals|]);
    ReceiveEnds(rs);
    var i :| FirstEnd(rs, i) && Receive(rs).0 == EndOn(rs[i]);
    if i < |arrivals| {
      assert rs[i] == arrivals[i];
    }
  }

  /**
   * On a connection left open the receiver never stops cleanly, so the
   * sender's error is never what Run returns: it keeps running while the
   * arrivals are messages, and returns only a read error of its own.
   */
  lemma WriteFailureHangs(arrivals: seq<Read>, e: Error)
    requires NoCloseSignal(arrivals)
    ensures Receive(Reads(arrivals, false)).0 != Stopped
    ensures Combine(Receive(Reads(arrivals, false)).0, Some(e)) == Returned(Some(e)) ==>
      Receive(Reads(arrivals, false)).0 == Failed(e)
    ensures (forall i :: 0 <= i < |arrivals| ==> Continues(arrivals[i])) ==>
      Combine(Receive(Reads(arrivals, false)).0, Some(e)) == Running
  {
    ReceiveBlocked(arrivals);
    ReceiveEnds(arrivals);
  }

  /**
   * Run, with the sender's whole run taken before the receiver's reads: a
   * listen error is returned at once; a receiver failure closes the
   * connection and is returned; a clean receiver stop, which needs the
   * connection closed, returns the sender's result. A write failure leaves
   * the connection open, so Run then keeps running.
   */
  method Run(p: Pinger, listen: Option<Error>, conn: PacketConn, pid: nat, marshal: Echo -> Result<seq<uint8>, Error>,
             interval: int, elapsed: nat -> int, stopAfter: nat, arrivals: seq<Read>)
    returns (outcome: RunOutcome, sightings: seq<Sighting>)
    requires |p.network.ip| >= 4 && |p.network.mask| >= 4
    requires NoCloseSignal(arrivals)
    modifies conn
    ensures listen.Some? ==> outcome == Returned(listen) && sightings == [] && unchanged(conn)
    ensures listen.None? ==>
      var marshalled := marshal(EchoRequest(pid));
      var sent := SenderResult(marshalled, |Planned(marshalled, p.network, stopAfter)|,
                               old(conn.closed), conn.failAt, |old(conn.writes)|, conn.failure);
      var closed := old(conn.closed) || marshalled.Err? || sent.None?;
      && outcome == Combine(Receive(Reads(arrivals, closed)).0, sent)
      && sightings == Receive(Reads(arrivals, closed)).1
      && conn.writes == old(conn.writes) + Sent(FirstFailure(old(conn.closed), conn.failAt, |old(conn.writes)|),
                                                Planned(marshalled, p.network, stopAfter))
      && conn.closed == (closed || Receive(Reads(arrivals, closed)).0.Failed?)
      && (closed ==> outcome != Running)
      && (!closed ==> outcome != Returned(sent) || Receive(Reads(arrivals, closed)).0 == Failed(sent.value))
  {
    if listen.Some? {
      return Returned(listen), [];
    }
    var sent, _ := Sender(p, conn, pid, marshal, interval, elapsed, stopAfter);
    if conn.closed {
      ClosedConnectionEnds(arrivals, sent);
    } else {
      WriteFailureHangs(arrivals, sent.value);
    }
    var received;
    received, sightings := Receiver(Reads(arrivals, conn.closed));
    if received.Failed? {
      conn.Close();
      return Returned(Some(received.err)), sightings;
    }
    match received
    case Stopped => outcome := Returned(sent);
    case Panicked => outcome := Crashed;
    case Blocked => outcome := Running;
  }

  /** The sender as intended: a write failure closes the connection too. */
  method ClosingSender(p: Pinger, conn: PacketConn, pid: nat, marshal: Echo -> Result<seq<uint8>, Error>,
                       interval: int, elapsed: nat -> int, stopAfter: nat)
    returns (err: Option<Error>)
    requires |p.network.ip| >= 4 && |p.network.mask| >= 4
    modifies conn
    ensures err == SenderResult(marshal(EchoRequest(pid)), |Planned(marshal(EchoRequest(pid)), p.network, stopAfter)|,
                                old(conn.closed), conn.failAt, |old(conn.writes)|, conn.failure)
    ensures conn.closed
    ensures conn.writes == old(conn.writes) + Sent(FirstFailure(old(conn.closed), conn.failAt, |old(conn.writes)|),
                                                   Planned(marshal(EchoRequest(pid)), p.network, stopAfter))
  {
    var sleeps;
    err, sleeps := Sender(p, conn, pid, marshal, interval, elapsed, stopAfter);
    if !conn.closed {
      conn.Close();
    }
  }

  /**
   * Run over the intended sender: the connection is always closed once the
   * sender ends, so Run always returns or crashes, and returns the write
   * error when the receiver got only messages.
   */
  method RunClosing(p: Pinger, listen: Option<Error>, conn: PacketConn, pid: nat, marshal: Echo -> Result<seq<uint8>, Error>,
                    interval: int, elapsed: nat -> int, stopAfter: nat, arrivals: seq<Read>)
    returns (outcome: RunOutcome, sightings: seq<Sighting>)
    requires |p.network.ip| >= 4 && |p.network.mask| >= 4
    requires NoCloseSignal(arrivals)
    modifies conn
    ensures listen.Some? ==> outcome == Returned(listen) && sightings == [] && unchanged(conn)
    ensures listen.None? ==>
      var marshalled := marshal(EchoRequest(pid));
      var sent := SenderResult(marshalled, |Planned(marshalled, p.network, stopAfter)|,
                               old(conn.closed), conn.failAt, |old(conn.writes)|, conn.failure);
      && outcome == Combine(Receive(Reads(arrivals, true)).0, sent)
      && sightings == Receive(Reads(arrivals, true)).1
      && conn.closed
      && outcome != Running
      && ((forall i :: 0 <= i < |arrivals| ==> Continues(arrivals[i])) ==> outcome == Returned(sent))
  {
    if listen.Some? {
      return Returned(listen), [];
    }
    var sent := ClosingSender(p, conn, pid, marshal, interval, elapsed, stopAfter);
    ClosedConnectionEnds(arrivals, sent);
    var received;
    received, sightings := Receiver(Reads(arrivals, true));
    if received.Failed? {
      conn.Close();
      return Returned(Some(received.err)), sightings;
    }
    match received
    case Stopped => outcome := Returned(sent);
    case Panicked => outcome := Crashed;
  }
}
