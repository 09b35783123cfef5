/**
 * The liveness aggregator of reporter/reporter.go: a table of hosts keyed by
 * the text of their IP address, refreshed by every sighting and classified
 * as online or offline on every tick of the report timer. Time is an integer
 * count of nanoseconds; the clock reading of each event is part of the event.
 */
module Reporter {
  import opened Base
  import opened Text
  import opened Net

  /** STATE_NEW, STATE_ONLINE, STATE_OFFLINE. */
  datatype State = New | Online | Offline

  /** hostInfo: the last known hardware address, when it was last seen, and its state. */
  datatype HostInfo = HostInfo(mac: Option<HardwareAddr>, seen: int, state: State)

  /**
   * What one tick publishes for a host with a known hardware address: the
   * host_up gauge (1 when online) and the storage point (online or not), both
   * labelled with the IP text and the hardware address text.
   */
  datatype Export = Export(ip: string, mac: string, online: bool)

  /** What one tick produces: the known-hosts gauge and the exports. */
  datatype TickReport = TickReport(known: nat, exports: set<Export>)

  /**
   * What the run loop receives: a sighting with the clock reading at which it
   * is processed, a timer tick with its clock reading, or the closing of the
   * sighting channel.
   */
  datatype Event = Ping(sighting: Sighting, now: int) | Tick(now: int) | Closed

  type Table = map<string, HostInfo>

  /**
   * The table key of a sighting: the text form of its IP, dotted decimal for
   * an IPv4 address in either of its forms (Net.IpStringSameAddress: two
   * sightings share a key exactly when they denote the same address).
   */
  function Key(p: Sighting): (k: string)
    ensures To4(p.ip).Some? ==> k == Dotted(To4(p.ip).value)
  {
    IpString(p.ip)
  }

  // ---------------------------------------------------------------------------
  // process

  /**
   * The table after process(p) at time now. A new address gets a NEW record
   * with the sighting's hardware address (possibly none); a known address
   * keeps its state, takes the sighting's hardware address when it carries
   * one and keeps its own otherwise, and is marked seen now. No other record
   * changes and no key disappears.
   */
  function Processed(hosts: Table, p: Sighting, now: int): (r: Table)
    ensures r.Keys == hosts.Keys + {Key(p)}
    ensures forall k :: k in hosts && k != Key(p) ==> r[k] == hosts[k]
    ensures r[Key(p)].seen == now
    ensures Key(p) !in hosts ==> r[Key(p)] == HostInfo(p.mac, now, New)
    ensures Key(p) in hosts ==> r[Key(p)].state == hosts[Key(p)].state
    ensures Key(p) in hosts && p.mac.Some? ==> r[Key(p)].mac == p.mac
    ensures Key(p) in hosts && p.mac.None? ==> r[Key(p)].mac == hosts[Key(p)].mac
  {
    var ip := Key(p);
    if ip in hosts then
      var info := hosts[ip];
      hosts[ip := HostInfo(if p.mac.Some? then p.mac else info.mac, now, info.state)]
    else
      hosts[ip := HostInfo(p.mac, now, New)]
  }

  /** The condition under which process logs "changed from ... to ...". */
  predicate MacChanged(hosts: Table, p: Sighting)
    ensures forall now :: MacChanged(hosts, p) <==>
      Key(p) in hosts && hosts[Key(p)].mac.Some? && Processed(hosts, p, now)[Key(p)].mac != hosts[Key(p)].mac
  {
    Key(p) in hosts && p.mac.Some? && hosts[Key(p)].mac.Some? && hosts[Key(p)].mac != p.mac
  }

  /** With the clock standing still, a sighting processed twice has the effect of once. */
  lemma ProcessIdempotent(hosts: Table, p: Sighting, now: int)
    ensures Processed(Processed(hosts, p, now), p, now) == Processed(hosts, p, now)
  {
  }

  // ---------------------------------------------------------------------------
  // report

  /**
   * The record after one tick at time now: NEW is promoted to ONLINE, and the
   * host is OFFLINE exactly when it has not been seen for interval +
   * offlineLag, ONLINE otherwise. Address and last-seen time are kept.
   */
  function Transition(info: HostInfo, now: int, interval: int, offlineLag: int): (r: HostInfo)
    ensures r.mac == info.mac && r.seen == info.seen
    ensures r.state != New
    ensures r.state == Offline <==> now - info.seen >= interval + offlineLag
  {
    var promoted := if info.state == New then Online else info.state;
    if now - info.seen >= interval + offlineLag then info.(state := Offline)
    else if promoted == Offline then info.(state := Online)
    else info.(state := promoted)
  }

  /**
   * The table after report at time now: every record transitioned. No host
   * is NEW any more, keys, addresses and last-seen times are as before, and
   * a host is OFFLINE exactly when it has been silent for at least
   * interval + offlineLag.
   */
  function Swept(hosts: Table, now: int, interval: int, offlineLag: int): (r: Table)
    ensures r.Keys == hosts.Keys
    ensures forall k :: k in hosts ==>
      && r[k].mac == hosts[k].mac && r[k].seen == hosts[k].seen
      && r[k].state != New
      && (r[k].state == Offline <==> now - hosts[k].seen >= interval + offlineLag)
  {
    map k | k in hosts :: Transition(hosts[k], now, interval, offlineLag)
  }

  /** A table whose every record is the transitioned one is the swept table. */
  lemma SweptFromRecords(hosts: Table, t: Table, now: int, interval: int, offlineLag: int)
    requires t.Keys == hosts.Keys
    requires forall k :: k in hosts ==> t[k] == Transition(hosts[k], now, interval, offlineLag)
    ensures t == Swept(hosts, now, interval, offlineLag)
  {
  }

  /** The export of a record whose hardware address is known. */
  function ExportOf(ip: string, info: HostInfo): (e: Export)
    requires info.mac.Some?
    ensures e.ip == ip && (e.online <==> info.state == Online)
  {
    Export(ip, MacString(info.mac.value), info.state == Online)
  }

  /** The exports of a whole table. */
  function ExportsOf(hosts: Table): (es: set<Export>)
    ensures forall e :: e in es ==> e.ip in hosts && hosts[e.ip].mac.Some?
  {
    ExportsAmong(hosts, hosts.Keys)
  }

  /** The exports of the records with keys in ks. */
  function ExportsAmong(hosts: Table, ks: set<string>): set<Export> {
    set k | k in ks && k in hosts && hosts[k].mac.Some? :: ExportOf(k, hosts[k])
  }

  /** Visiting one more record adds its export, if it has one. */
  lemma ExportsAmongAdd(hosts: Table, ks: set<string>, ip: string, info: HostInfo)
    requires ip !in ks
    ensures info.mac.Some? ==> ExportsAmong(hosts[ip := info], ks + {ip}) == ExportsAmong(hosts, ks) + {ExportOf(ip, info)}
    ensures info.mac.None? ==> ExportsAmong(hosts[ip := info], ks + {ip}) == ExportsAmong(hosts, ks)
  {
    var t := hosts[ip := info];
    forall k | k in ks
      ensures k in hosts ==> t[k] == hosts[k]
    {
    }
  }

  /**
   * A tick exports exactly the hosts with a known hardware address, each once
   * and with the state it has after the tick; a host known only from ICMP
   * sightings is never exported.
   */
  lemma ExportsExactlyKnownMacs(hosts: Table, e: Export)
    ensures e in ExportsOf(hosts) <==>
      && e.ip in hosts && hosts[e.ip].mac.Some?
      && e == Export(e.ip, MacString(hosts[e.ip].mac.value), hosts[e.ip].state == Online)
  {
    if e.ip in hosts && hosts[e.ip].mac.Some? && e == ExportOf(e.ip, hosts[e.ip]) {
      assert e.ip in hosts.Keys;
    }
  }

  // ---------------------------------------------------------------------------
  // run

  /** The events run handles: everything before the channel is closed. */
  function UntilClosed(events: seq<Event>): (r: seq<Event>)
    ensures |r| <= |events| && r == events[..|r|]
    ensures forall i :: 0 <= i < |r| ==> !r[i].Closed?
    ensures |r| < |events| ==> events[|r|].Closed?
  {
    if events == [] || events[0].Closed? then []
    else [events[0]] + UntilClosed(events[1..])
  }

  /**
   * One event of the run loop: a sighting is processed, a tick sweeps the
   * table and yields its report, the close changes nothing.
   */
  function Step(hosts: Table, e: Event, interval: int, offlineLag: int): (r: (Table, seq<TickReport>))
    ensures r.0.Keys == if e.Ping? then hosts.Keys + {Key(e.sighting)} else hosts.Keys
    ensures |r.1| == if e.Tick? then 1 else 0
    ensures e.Tick? ==> r.1[0].known == |hosts|
    ensures e.Closed? ==> r.0 == hosts
  {
    match e
    case Ping(p, now) => (Processed(hosts, p, now), [])
    case Tick(now) =>
      var swept := Swept(hosts, now, interval, offlineLag);
      (swept, [TickReport(|hosts|, ExportsOf(swept))])
    case Closed => (hosts, [])
  }

  /** The table and the tick reports after handling events in order. */
  function Replay(hosts: Table, events: seq<Event>, interval: int, offlineLag: int): (r: (Table, seq<TickReport>))
    ensures hosts.Keys <= r.0.Keys
    ensures |r.1| <= |events|
    decreases |events|
  {
    if events == [] then (hosts, [])
    else
      var (t, out) := Replay(hosts, events[..|events| - 1], interval, offlineLag);
      var (t', r) := Step(t, events[|events| - 1], interval, offlineLag);
      (t', out + r)
  }

  /** How many of the events are ticks. */
  function TickCount(events: seq<Event>): (n: nat)
    ensures n <= |events|
  {
    if events == [] then 0
    else TickCount(events[..|events| - 1]) + if events[|events| - 1].Tick? then 1 else 0
  }

  /** One tick report per tick: pings and the close produce none. */
  lemma {:induction false} ReplayReportsPerTick(hosts: Table, events: seq<Event>, interval: int, offlineLag: int)
    ensures |Replay(hosts, events, interval, offlineLag).1| == TickCount(events)
    decreases |events|
  {
    if events != [] {
      ReplayReportsPerTick(hosts, events[..|events| - 1], interval, offlineLag);
    }
  }

  /** Some event is a sighting of key k. */
  predicate Pinged(events: seq<Event>, k: string) {
    exists i :: 0 <= i < |events| && events[i].Ping? && Key(events[i].sighting) == k
  }

  lemma PingedSnoc(events: seq<Event>, k: string)
    requires events != []
    ensures Pinged(events, k) <==>
      Pinged(events[..|events| - 1], k) || (events[|events| - 1].Ping? && Key(events[|events| - 1].sighting) == k)
  {
    var n := |events| - 1;
    if Pinged(events, k) {
      var i :| 0 <= i < |events| && events[i].Ping? && Key(events[i].sighting) == k;
      if i < n {
        assert events[..n][i] == events[i];
      }
    }
    if Pinged(events[..n], k) {
      var i :| 0 <= i < n && events[..n][i].Ping? && Key(events[..n][i].sighting) == k;
      assert events[i] == events[..n][i];
    }
  }

  /**
   * The table holds exactly the keys it started with and those of every
   * sighting handled; no key is ever removed.
   */
  lemma {:induction false} ReplayKeys(hosts: Table, events: seq<Event>, interval: int, offlineLag: int, k: string)
    ensures k in Replay(hosts, events, interval, offlineLag).0 <==> k in hosts || Pinged(events, k)
    decreases |events|
  {
    if events != [] {
      ReplayKeys(hosts, events[..|events| - 1], interval, offlineLag, k);
      PingedSnoc(events, k);
    }
  }

  /** A host that has been through a tick never becomes NEW again. */
  lemma {:induction false} NeverNewAgain(hosts: Table, events: seq<Event>, interval: int, offlineLag: int, k: string)
    requires k in hosts && hosts[k].state != New
    ensures k in Replay(hosts, events, interval, offlineLag).0
    ensures Replay(hosts, events, interval, offlineLag).0[k].state != New
    decreases |events|
  {
    if events != [] {
      NeverNewAgain(hosts, events[..|events| - 1], interval, offlineLag, k);
    }
  }

  /**
   * A host seen only by the ICMP prober (every sighting of it lacks a hardware
   * address) never gets an address and is never exported.
   */
  lemma {:induction false} IcmpOnlyNeverExported(hosts: Table, events: seq<Event>, interval: int, offlineLag: int, k: string)
    requires k in hosts ==> hosts[k].mac.None?
    requires forall i :: 0 <= i < |events| && events[i].Ping? && Key(events[i].sighting) == k ==> events[i].sighting.mac.None?
    ensures var t := Replay(hosts, events, interval, offlineLag).0; k in t ==> t[k].mac.None?
    ensures forall r, e :: r in Replay(hosts, events, interval, offlineLag).1 && e in r.exports ==> e.ip != k
    decreases |events|
  {
    if events != [] {
      var n := |events| - 1;
      IcmpOnlyNeverExported(hosts, events[..n], interval, offlineLag, k);
      var (t, out) := Replay(hosts, events[..n], interval, offlineLag);
      if events[n].Tick? {
        var swept := Swept(t, events[n].now, interval, offlineLag);
        forall e | e in ExportsOf(swept)
          ensures e.ip != k
        {
          ExportsExactlyKnownMacs(swept, e);
        }
      }
    }
  }

  // ---------------------------------------------------------------------------
  // Sightings with a frozen clock

  /** The table after a sequence of sightings all processed at time now. */
  function ProcessAll(hosts: Table, ps: seq<Sighting>, now: int): Table
    decreases |ps|
  {
    if ps == [] then hosts else Processed(ProcessAll(hosts, ps[..|ps| - 1], now), ps[|ps| - 1], now)
  }

  /** Some sighting of ps has key k. */
  predicate Touched(ps: seq<Sighting>, k: string) {
    exists i :: 0 <= i < |ps| && Key(ps[i]) == k
  }

  lemma TouchedSnoc(ps: seq<Sighting>, k: string)
    requires ps != []
    ensures Touched(ps, k) <==> Touched(ps[..|ps| - 1], k) || Key(ps[|ps| - 1]) == k
  {
    var n := |ps| - 1;
    if Touched(ps, k) {
      var i :| 0 <= i < |ps| && Key(ps[i]) == k;
      if i < n {
        assert ps[..n][i] == ps[i];
      }
    }
    if Touched(ps[..n], k) {
      var i :| 0 <= i < n && Key(ps[..n][i]) == k;
      assert ps[i] == ps[..n][i];
    }
  }

  /** The hardware address of the last sighting of ps with key k that carries one. */
  function LastMac(ps: seq<Sighting>, k: string): Option<HardwareAddr>
    decreases |ps|
  {
    if ps == [] then None
    else if Key(ps[|ps| - 1]) == k && ps[|ps| - 1].mac.Some? then ps[|ps| - 1].mac
    else LastMac(ps[..|ps| - 1], k)
  }

  /**
   * The record of key k after sightings at one instant: an untouched record is
   * as before (or absent); a touched one is seen now, keeps its state (NEW when
   * it is new) and has the last hardware address the sightings carried, or its
   * earlier one when none carried any.
   */
  lemma {:induction false} ProcessAllAt(hosts: Table, ps: seq<Sighting>, now: int, k: string)
    ensures k in ProcessAll(hosts, ps, now) <==> k in hosts || Touched(ps, k)
    ensures k in hosts && !Touched(ps, k) ==> ProcessAll(hosts, ps, now)[k] == hosts[k]
    ensures Touched(ps, k) ==>
      ProcessAll(hosts, ps, now)[k] == HostInfo(
        if LastMac(ps, k).Some? then LastMac(ps, k) else if k in hosts then hosts[k].mac else None,
        now,
        if k in hosts then hosts[k].state else New)
    decreases |ps|
  {
    if ps != [] {
      var n := |ps| - 1;
      ProcessAllAt(hosts, ps[..n], now, k);
      TouchedSnoc(ps, k);
      if Key(ps[n]) == k && !Touched(ps[..n], k) {
        LastMacUntouched(ps[..n], k);
      }
    }
  }

  lemma {:induction false} LastMacUntouched(ps: seq<Sighting>, k: string)
    requires !Touched(ps, k)
    ensures LastMac(ps, k) == None
    decreases |ps|
  {
    if ps != [] {
      TouchedSnoc(ps, k);
      LastMacUntouched(ps[..|ps| - 1], k);
    }
  }

  /**
   * Replaying the same sightings a second time with the clock frozen leaves
   * the table as one pass left it; so does a tick after each.
   */
  lemma ReplayTwiceSameAsOnce(hosts: Table, ps: seq<Sighting>, now: int, tick: int, interval: int, offlineLag: int)
    ensures ProcessAll(ProcessAll(hosts, ps, now), ps, now) == ProcessAll(hosts, ps, now)
    ensures Swept(ProcessAll(ProcessAll(hosts, ps, now), ps, now), tick, interval, offlineLag)
      == Swept(ProcessAll(hosts, ps, now), tick, interval, offlineLag)
  {
    var once := ProcessAll(hosts, ps, now);
    var twice := ProcessAll(once, ps, now);
    forall k
      ensures k in twice <==> k in once
      ensures k in once ==> twice[k] == once[k]
    {
      ProcessAllAt(hosts, ps, now, k);
      ProcessAllAt(once, ps, now, k);
    }
  }

  // ---------------------------------------------------------------------------
  // The aggregator

  /** The aggregator: its host table and its two durations. */
  class Reporter {
    var hosts: Table
    const interval: int
    const offlineLag: int

    constructor (interval: int, offlineLag: int)
      ensures hosts == map[] && this.interval == interval && this.offlineLag == offlineLag
    {
      this.interval := interval;
      this.offlineLag := offlineLag;
      hosts := map[];
    }

    /**
     * process: refresh or create the record of the sighting's address. Also
     * says whether the sighting changed a known hardware address, which
     * process logs.
     */
    method Process(p: Sighting, now: int) returns (changed: bool)
      modifies this
      ensures hosts == Processed(old(hosts), p, now)
      ensures changed == MacChanged(old(hosts), p)
    {
      var ip := IpString(p.ip);
      changed := false;
      if ip in hosts {
        var info := hosts[ip];
        if p.mac.Some? {
          if info.mac.Some? && info.mac.value != p.mac.value {
            changed := true;
          }
          info := info.(mac := p.mac);
        }
        info := info.(seen := now);
        hosts := hosts[ip := info];
      } else {
        hosts := hosts[ip := HostInfo(p.mac, now, New)];
      }
    }

    /**
     * report: visit every record in an arbitrary order, transition it and
     * export it when its hardware address is known.
     */
    method Report(now: int) returns (r: TickReport)
      modifies this
      ensures hosts == Swept(old(hosts), now, interval, offlineLag)
      ensures r == TickReport(|old(hosts)|, ExportsOf(hosts))
    {
      var before := hosts;
      var table, exports := VisitAll(before, now);
      SweptFromRecords(before, table, now, interval, offlineLag);
      hosts := table;
      return TickReport(|before|, exports);
    }

    /** The loop of report over a snapshot of the table: every record visited once. */
    method VisitAll(before: Table, now: int) returns (table: Table, exports: set<Export>)
      ensures table.Keys == before.Keys
      ensures forall k :: k in before ==> table[k] == Transition(before[k], now, interval, offlineLag)
      ensures exports == ExportsAmong(table, table.Keys)
    {
      table := before;
      exports := {};
      var pending := table.Keys;
      ghost var done: set<string> := {};
      while pending != {}
        invariant pending + done == before.Keys && pending !! done
        invariant table.Keys == before.Keys
        invariant forall k :: k in pending ==> table[k] == before[k]
        invariant forall k :: k in done ==> table[k] == Transition(before[k], now, interval, offlineLag)
        invariant exports == ExportsAmong(table, done)
        decreases pending
      {
        var ip :| ip in pending;
        var info := Visit(table[ip], now);
        ExportsAmongAdd(table, done, ip, info);
        table := table[ip := info];
        if info.mac.Some? {
          exports := exports + {ExportOf(ip, info)};
        }
        pending := pending - {ip};
        done := done + {ip};
      }
    }

    /** The state change report makes to one record. */
    method Visit(info: HostInfo, now: int) returns (r: HostInfo)
      ensures r == Transition(info, now, interval, offlineLag)
    {
      r := info;
      if r.state == New {
        r := r.(state := Online);
      }
      if now - r.seen >= interval + offlineLag {
        r := r.(state := Offline);
      } else if r.state == Offline {
        r := r.(state := Online);
      }
    }

    /**
     * run: handle the events in order until the channel is closed; every tick
     * yields its report.
     */
    method Run(events: seq<Event>) returns (reports: seq<TickReport>)
      modifies this
      ensures (hosts, reports) == Replay(old(hosts), UntilClosed(events), interval, offlineLag)
    {
      ghost var start := hosts;
      reports := [];
      var i := 0;
      while i < |events| && !events[i].Closed?
        invariant 0 <= i <= |events|
        invariant forall j :: 0 <= j < i ==> !events[j].Closed?
        invariant (hosts, reports) == Replay(start, events[..i], interval, offlineLag)
        decreases |events| - i
      {
        assert forall j :: 0 <= j < i + 1 ==> !events[j].Closed?;
        ghost var before := hosts;
        var out := Handle(events[i]);
        ReplayExtends(start, events, i, interval, offlineLag, before, reports, hosts, out);
        reports := reports + out;
        i := i + 1;
      }
      UntilClosedPrefix(events, i);
    }

    /** One iteration of run: process a sighting or report on a tick. */
    method Handle(e: Event) returns (out: seq<TickReport>)
      requires !e.Closed?
      modifies this
      ensures (hosts, out) == Step(old(hosts), e, interval, offlineLag)
    {
      if e.Ping? {
        var _ := Process(e.sighting, e.now);
        out := [];
      } else {
        var r := Report(e.now);
        out := [r];
      }
    }
  }

  /** Handling one more event. */
  lemma ReplayStep(hosts: Table, events: seq<Event>, i: nat, interval: int, offlineLag: int)
    requires i < |events|
    ensures Replay(hosts, events[..i + 1], interval, offlineLag) ==
      var (t, out) := Replay(hosts, events[..i], interval, offlineLag);
      var (t', r) := Step(t, events[i], interval, offlineLag);
      (t', out + r)
  {
    assert events[..i + 1][..i] == events[..i];
  }

  /** The same, for a state and output already known to be the replay's. */
  lemma ReplayExtends(hosts: Table, events: seq<Event>, i: nat, interval: int, offlineLag: int,
                   t: Table, out: seq<TickReport>, t': Table, r: seq<TickReport>)
    requires i < |events|
    requires (t, out) == Replay(hosts, events[..i], interval, offlineLag)
    requires (t', r) == Step(t, events[i], interval, offlineLag)
    ensures (t', out + r) == Replay(hosts, events[..i + 1], interval, offlineLag)
  {
    assert events[..i + 1][..i] == events[..i];
  }

  lemma {:induction false} UntilClosedPrefix(events: seq<Event>, i: nat)
    requires i <= |events|
    requires forall j :: 0 <= j < i ==> !events[j].Closed?
    requires i == |events| || events[i].Closed?
    ensures UntilClosed(events) == events[..i]
    decreases i
  {
    if i > 0 {
      UntilClosedPrefix(events[1..], i - 1);
      assert events[..i] == [events[0]] + events[1..][..i - 1];
    }
  }

  // ---------------------------------------------------------------------------
  // Scenarios

  const Second: int := 1_000_000_000

  /**
   * A host seen once at time 0 without a hardware address (192.168.1.10, say),
   * with ticks one and two intervals later and an offline lag shorter than an
   * interval (30s against the default 60s): ONLINE after the first tick,
   * OFFLINE after the second, and never exported.
   */
  lemma SilentHostGoesOffline(host: Sighting, interval: int, offlineLag: int)
    requires host.mac.None?
    requires 0 < offlineLag <= interval
    ensures var events := [Ping(host, 0), Tick(interval), Tick(2 * interval)];
      var after1 := Replay(map[], events[..2], interval, offlineLag);
      var after2 := Replay(map[], events, interval, offlineLag);
      && Key(host) in after1.0 && after1.0[Key(host)].state == Online
      && Key(host) in after2.0 && after2.0[Key(host)].state == Offline
      && after2.1 == [TickReport(1, {}), TickReport(1, {})]
  {
    var events := [Ping(host, 0), Tick(interval), Tick(2 * interval)];
    var k := Key(host);
    var t0 := map[k := HostInfo(None, 0, New)];
    var t1 := map[k := HostInfo(None, 0, Online)];
    var t2 := map[k := HostInfo(None, 0, Offline)];
    assert events[..0] == [] && events[..3] == events;
    assert Step(map[], events[0], interval, offlineLag) == (t0, []);
    ReplayStep(map[], events, 0, interval, offlineLag);
    SingleHostTick(k, HostInfo(None, 0, New), interval, interval, offlineLag);
    assert Step(t0, events[1], interval, offlineLag) == (t1, [TickReport(1, {})]);
    ReplayStep(map[], events, 1, interval, offlineLag);
    SingleHostTick(k, HostInfo(None, 0, Online), 2 * interval, interval, offlineLag);
    assert Step(t1, events[2], interval, offlineLag) == (t2, [TickReport(1, {})]);
    ReplayStep(map[], events, 2, interval, offlineLag);
  }

  /** A tick over a table of one record without a hardware address. */
  lemma SingleHostTick(k: string, info: HostInfo, now: int, interval: int, offlineLag: int)
    requires info.mac.None?
    ensures Step(map[k := info], Tick(now), interval, offlineLag) ==
      (map[k := Transition(info, now, interval, offlineLag)], [TickReport(1, {})])
  {
    var t := map[k := info];
    assert |t| == 1;
    assert Swept(t, now, interval, offlineLag) == map[k := Transition(info, now, interval, offlineLag)];
    NoMacNoExports(Swept(t, now, interval, offlineLag));
  }

  /** A table without hardware addresses exports nothing. */
  lemma NoMacNoExports(t: Table)
    requires forall k :: k in t ==> t[k].mac.None?
    ensures ExportsOf(t) == {}
  {
    forall e | e in ExportsOf(t)
      ensures false
    {
      ExportsExactlyKnownMacs(t, e);
    }
  }

  /**
   * A host at 192.168.1.20 seen at aa:bb:cc:dd:ee:ff and, after a tick, at
   * 11:22:33:44:55:66: the change is reported and the later address is kept.
   */
  lemma MacChangeOverwrites()
    ensures var first := Sighting([192, 168, 1, 20], Some([0xaa, 0xbb, 0xcc, 0xdd, 0xee, 0xff]));
      var second := Sighting([192, 168, 1, 20], Some([0x11, 0x22, 0x33, 0x44, 0x55, 0x66]));
      var t := Swept(Processed(map[], first, 0), 60 * Second, 60 * Second, 30 * Second);
      && MacChanged(t, second)
      && Processed(t, second, 70 * Second)[Key(second)] == HostInfo(second.mac, 70 * Second, Online)
  {
  }
}
