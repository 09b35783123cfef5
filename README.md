# arpwatch, modelled in Dafny

arpwatch watches IPv4 networks and records which hosts on them are alive. Every
selected network interface runs two producers:

- **the pinger**: sends an ICMP echo request to every address of the interface's
  network once per ping interval, and reports the sender of each echo reply;
- **the watcher**: captures ARP frames and reports each sender's IP and hardware
  address, except for the ARP requests the host sent itself.

Both producers feed **sightings** into the **reporter**. The reporter keeps a
table of hosts, keyed by the text of their IP address. On every report tick it
promotes NEW hosts to ONLINE, marks a host OFFLINE once it has been silent for
report-interval + offline-lag, and publishes each host whose hardware address
is known. Before any of this starts, `findInterfaces` matches the interface
names given with the `-iface` flag against the system's interfaces. It then
checks that each selected interface has a usable IPv4 network.

The modules follow the program's packages:

| module | file | models |
|---|---|---|
| `Base` | base.dfy | Option, Result, the error values, fixed-width unsigned types |
| `Text` | text.dfy | strconv.Itoa and Atoi, strings.TrimSpace and Join, hexadecimal digits |
| `Net` | net.dfy | net.IP and net.IPNet, IP.To4, IP.String, HardwareAddr.String, big-endian words, uint32 bit operators, the Sighting |
| `Utils` | utils.dfy | utils/utils.go: FirstIPv4Network, EnumerateIPs |
| `Flags` | flags.dfy | utils/flags.go: the string-slice flag and the port flag |
| `Reporter` | reporter.dfy | reporter/reporter.go: process, report, run and the NEW/ONLINE/OFFLINE states |
| `Pinger` | pinger.dfy | pinger/pinger.go: the echo request, sender, receiver and Run |
| `Watcher` | watcher.dfy | watcher/watcher.go: Start and the per-frame decision of loop |
| `Discovery` | discovery.dfy | main.go: findInterfaces |

The model works as follows:

- **Time.** Time is an integer count of nanoseconds, and every clock reading is
  an argument.
- **Reporter.** The reporter is a class whose `hosts` field is a map. It is
  specified by the pure functions `Processed`, `Swept` and `Replay`.
- **Event loops.** Each endless loop (`run`, the sender, the receiver, the
  watcher's `loop`) becomes a finite run over a given sequence of inputs:
  - the reporter receives a sequence of sighting, tick and close events;
  - the sender sees the stop signal after a given number of sleeps;
  - the receiver reads a given sequence of read results;
  - the watcher sees the stop signal after a given number of frames.
- **Stand-ins.** The ICMP socket becomes the `PacketConn` class and the pcap
  handle the `Handle` class. Their failures are scripted: a write at a given
  index fails, or setting the filter fails.
- **How a run ends.** The ways the modelled code ends are explicit outcomes
  (the one exception, a closed packet channel in the watcher, is under
  "Left out"):
  - returning an error;
  - `log.Fatalf`, modelled as `Fatal`;
  - a nil dereference in the receiver, modelled as `Panicked`;
  - a receiver that never returns, modelled as `Running`.
- **The receiver's reads follow the connection.** The reads are the datagrams
  and read errors that arrive (never ErrClosed, which only closing produces),
  followed by ErrClosed exactly when the connection is closed once the sender
  is done (`Pinger.Reads`).

## Model

| member | source | states |
|---|---|---|
| Reporter.Processed | reporter/reporter.go:83-108 | a new key gets a NEW record with the sighting's (possibly absent) hardware address; a known key keeps its state, is seen now, takes the sighting's hardware address only when it carries one; every other record and every key is kept |
| Reporter.ProcessIdempotent | reporter/reporter.go:90-107 | processing the same sighting twice at the same instant leaves the table as processing it once |
| Reporter.Reporter.Process | reporter/reporter.go:83-108 | the new table is `Processed` of the old one; `changed` holds exactly when a known different hardware address is overwritten (the "changed from" log condition) |
| Reporter.Transition | reporter/reporter.go:116-128 | address and last-seen time kept; never NEW afterwards; OFFLINE exactly when now - seen >= interval + offlineLag |
| Reporter.Key | reporter/reporter.go:90 | the key of an IPv4 address, in its 4- or 16-byte form, is its dotted-decimal text |
| Reporter.MacChanged | reporter/reporter.go:91-95 | a change is logged exactly when the known record has a hardware address and processing the sighting replaces it by a different one |
| Reporter.Swept | reporter/reporter.go:115-128 | after a tick the keys are unchanged, no host is NEW, addresses and last-seen times are kept, and each host is OFFLINE exactly when silent for interval + offlineLag |
| Reporter.ExportOf | reporter/reporter.go:130-138 | the export carries the host's key and is online exactly when the host is ONLINE |
| Reporter.ExportsOf | reporter/reporter.go:130-138 | only hosts with a known hardware address are exported |
| Reporter.Step | reporter/reporter.go:69-80 | a sighting adds its key and nothing else, a tick keeps the keys and yields one report counting the hosts before it, the close changes nothing |
| Reporter.Replay | reporter/reporter.go:65-81 | a run never removes a key and yields at most one report per event |
| Reporter.ExportsExactlyKnownMacs | reporter/reporter.go:130-138 | a tick exports exactly the hosts with a known hardware address, with their IP text, hardware address text and whether they are ONLINE |
| Reporter.Reporter.Visit | reporter/reporter.go:116-128 | the record after the loop body is the `Transition` of the record |
| Reporter.Reporter.VisitAll | reporter/reporter.go:115-140 | visiting the records in any order transitions every record exactly once and collects the export of every one with a hardware address |
| Reporter.Reporter.Report | reporter/reporter.go:110-141 | the new table is the swept old one; the report carries the number of known hosts before the sweep and the exports of the swept table |
| Reporter.UntilClosed | reporter/reporter.go:71-74 | the events handled are the longest prefix before the channel is closed |
| Reporter.Reporter.Handle | reporter/reporter.go:70-79 | a sighting updates the table as process does and reports nothing; a tick sweeps it and yields one report |
| Reporter.Reporter.Run | reporter/reporter.go:65-81 | the final table and the reports are the replay of the events before the close, one `Step` per event |
| Reporter.ReplayReportsPerTick | reporter/reporter.go:69-80 | run yields exactly one report per tick |
| Reporter.ReplayKeys | reporter/reporter.go:65-108 | a key is in the table after a run exactly when it was there before or some handled sighting has it; no key is ever removed |
| Reporter.NeverNewAgain | reporter/reporter.go:110-128 | a host that went through a tick stays in the table and never becomes NEW again |
| Reporter.IcmpOnlyNeverExported | reporter/reporter.go:92-138 | a host whose sightings never carry a hardware address never gets one and is never exported |
| Reporter.ProcessAllAt | reporter/reporter.go:83-108 | after sightings at one instant, a touched record is seen now, keeps its state (NEW if new) and holds the last hardware address the sightings carried, else its earlier one; untouched records are unchanged |
| Reporter.ReplayTwiceSameAsOnce | reporter/reporter.go:83-128 | replaying the same sightings at the same instant is idempotent, before and after a tick |
| Reporter.SilentHostGoesOffline | reporter/reporter.go:116-128 | a host seen once without a hardware address is ONLINE after the next tick, OFFLINE after a tick two intervals later, and is never exported |
| Reporter.SingleHostTick | reporter/reporter.go:110-141 | a tick over one record without a hardware address transitions it and reports one known host and no exports |
| Reporter.NoMacNoExports | reporter/reporter.go:130-138 | a table without hardware addresses exports nothing |
| Reporter.MacChangeOverwrites | reporter/reporter.go:91-97 | a different hardware address for 192.168.1.20 after a tick is logged as a change and replaces the earlier one |
| Utils.CutToIPv4 | utils/utils.go:20-23 | the returned network has a 4-byte IP and the last 4 bytes of the mask |
| Utils.FirstIPv4 | utils/utils.go:13-31 | a listing error is passed on; a failed search gives the "no IPv4 network" error; a network found has a 4-byte IP and a 4-byte mask |
| Utils.FirstIPv4Network | utils/utils.go:13-31 | a listing error is returned as it is; otherwise the first entry that is an IPNet with a 4-byte form wins; with none, the "no IPv4 network" error |
| Utils.Increment | utils/utils.go:38 | uint32 ++: adds one, and 0xFFFFFFFF wraps around to 0 |
| Utils.EnumerateIPs | utils/utils.go:33-44 | the output is the big-endian encoding of every value of `Enumeration`, in order |
| Utils.EnumerationAscending | utils/utils.go:38-42 | the listed addresses are strictly ascending |
| Utils.NetworkOf | utils/utils.go:34-36 | the network address is at most the IP and at most the mask |
| Utils.BroadcastOf | utils/utils.go:36-37 | broadcast = network + ^mask, so network <= broadcast |
| Utils.Enumeration | utils/utils.go:38-42 | a non-empty list starts at the successor of the network address and ends just below the broadcast address |
| Utils.EnumerationStrictlyBetween | utils/utils.go:33-44 | unless the network address is 255.255.255.255, the list is exactly the addresses strictly between network and broadcast, broadcast - network - 1 of them |
| Utils.EnumerationCount | utils/utils.go:33-44 | the count depends on the mask alone: 2^32 - 2 - mask |
| Utils.PrefixCount | utils/utils.go:33-44 | a /p network with p <= 31 yields 2^(32-p) - 2 addresses |
| Utils.HostBitsIrrelevant | utils/utils.go:34-36 | enumerating from any IP of a network gives the same list as from the network address |
| Utils.TopAddressWraps | utils/utils.go:36-38 | the network address is 255.255.255.255 only for that IP with the /32 mask; then the counter wraps and 0.0.0.0 to 255.255.255.254 are listed |
| Net.PutUint32 | utils/utils.go:39-40 | the 4 bytes read back big-endian as the same word |
| Net.PutUint32Injective | utils/utils.go:39-41 | distinct words give distinct addresses |
| Net.And | utils/utils.go:36 | masking never increases a word |
| Net.AndIdempotent | utils/utils.go:36 | masking twice with the same mask is masking once |
| Net.OrComplementOfMasked | utils/utils.go:37 | OR-ing the complement of the mask into a masked word is addition |
| Net.To4 | utils/utils.go:19 | a 4-byte form exists exactly for a 4-byte address or an IPv4-in-IPv6 address, and is its last 4 bytes |
| Net.Uint32 | utils/utils.go:34-35 | big-endian: the first byte is the top 8 bits of the word and the fourth byte the lowest 8 |
| Net.IpString | reporter/reporter.go:90 | the table key is never empty, and its first character tells a nil address, an IPv4 address and any other address apart |
| Net.MacString | reporter/reporter.go:135-137 | the hardware address text has two digits per byte and one ':' between bytes, 3n - 1 characters |
| Net.IpStringSameAddress | reporter/reporter.go:90 | two sightings share a table key exactly when they denote the same address (the 4- and 16-byte forms of an IPv4 address share one) |
| Text.Decimal | utils/flags.go:31-33 | Itoa of a non-negative number is a non-empty digit string without a leading zero (unless it is 0) |
| Text.DecimalValue | utils/flags.go:31-33 | reading back the digits Itoa wrote gives the number |
| Text.Atoi | utils/flags.go:36 | success exactly for an optional sign followed by digits whose value fits an int64, with that value; otherwise a NumError naming Atoi and the input |
| Text.AtoiDecimal | utils/flags.go:31-36 | Atoi reads back what Itoa wrote |
| Text.TrimSpace | utils/flags.go:19 | the result is a contiguous piece of the input that neither starts nor ends with white space, and everything cut off is white space |
| Text.TrimSpaceIdempotent | utils/flags.go:19 | trimming twice is trimming once |
| Text.Join | utils/flags.go:15 | no elements give "", one element is shown as it is |
| Text.JoinSnoc | utils/flags.go:14-20 | appending an element to a non-empty list appends the separator and the element |
| Flags.StringSliceFlag.String | utils/flags.go:14-16 | no values give "", one value is shown as it is |
| Flags.StringSliceFlag.Set | utils/flags.go:18-21 | never fails; appends the trimmed value and keeps the earlier ones, so the text grows by "," and the trimmed value |
| Flags.ParsePort | utils/flags.go:35-47 | the Atoi error is passed on; an integer outside 1..65535 gives the range error; otherwise the port |
| Flags.ParsePortAccepts | utils/flags.go:35-47 | exactly the texts of an optional '+' and digits with a value in 1..65535 are accepted, with that value; '-' never is |
| Flags.PortRoundTrip | utils/flags.go:31-47 | String of every port is accepted by Set as that port |
| Flags.PortFlag.String | utils/flags.go:31-33 | a digit string whose value is the port |
| Flags.PortFlag.Set | utils/flags.go:35-47 | on success the value becomes the port; on any error that error is returned and the value is kept |
| Discovery.RemoveFirst | main.go:99-104 | an unrequested name leaves the list as it is; a requested one shortens it by exactly one |
| Discovery.RemoveFirstMultiset | main.go:99-104 | a match splices out exactly one copy of the requested name |
| Discovery.RemoveFirstAt | main.go:99-104 | splicing at the first index holding the name removes its first occurrence |
| Discovery.Interfaces.TakeName | main.go:98-105 | found exactly when the name was requested; the requested names lose its first occurrence |
| Discovery.Interfaces.MatchNames | main.go:97-112 | ifaces gains `Selection`'s interfaces and the requested names become the leftover ones |
| Discovery.Selection | main.go:97-112 | every selected interface consumes one requested name: selected plus leftover names is the number requested; no more interfaces are selected than the system has |
| Discovery.NotFound | main.go:114-116 | the error reads "Interfaces not found: " followed by the leftover names, a single name as it is |
| Discovery.SelectionInOrder | main.go:97-112 | the selected interfaces keep the system's order |
| Discovery.SelectionConsumes | main.go:97-112 | each requested name is consumed by exactly one selected interface or left over; every selected interface was requested |
| Discovery.DuplicateRequestLeftOver | main.go:97-116 | with distinct system names, a name requested twice is left over, so findInterfaces fails |
| Discovery.SelectionLeftOver | main.go:97-116 | a name requested c times and carried by a system interfaces is left over exactly max(0, c - a) times |
| Discovery.SelectionComplete | main.go:97-116 | nothing is left over (so no "Interfaces not found" error) if and only if the system carries every requested name at least as often as it is requested |
| Discovery.SelectionFinds | main.go:97-112 | a requested name that some system interface carries is selected |
| Discovery.AcceptableNetwork | main.go:126-130 | a network is accepted if and only if it is not 127.x.x.x and its mask is at least 255.255.0.0 |
| Discovery.AcceptedScopeSize | main.go:126-130 | a sweep of an accepted network probes at most 65534 addresses, unless its network address is 255.255.255.255 |
| Discovery.ScopeOf | main.go:123-130 | the interface is accepted if and only if its first IPv4 network exists and is acceptable, and then that network is the result; otherwise the reason names the interface and is the missing network (carrying the lookup error), the 127.x.x.x network, or a mask wider than /16 (carrying the network), in that order |
| Discovery.Interfaces.ValidateAll | main.go:118-134 | Done exactly when every selected interface has an acceptable network, each stored at its index; otherwise Fatal with the first failing interface's reason |
| Discovery.Interfaces.FindInterfaces | main.go:84-137 | no requested names or a listing error is returned with nothing changed; leftover names give "Interfaces not found", which happens exactly when the system does not carry every requested name as often as requested; otherwise the result of the validation |
| Pinger.EchoRequest | pinger/pinger.go:64-70 | an echo request with code 0, the process id modulo 2^16, sequence 1 and no payload |
| Pinger.LowMaskIsMod | pinger/pinger.go:67 | AND with w one-bits is the remainder modulo 2^w |
| Pinger.SleepFor | pinger/pinger.go:88-92 | the wait is never negative |
| Pinger.SweepSpacing | pinger/pinger.go:88-98 | sweeps start an interval apart when a sweep fits in the interval, 100ms after an overrunning sweep otherwise |
| Pinger.PacketConn.WriteTo | pinger/pinger.go:80-82 | a closed connection fails with ErrClosed; the scripted write fails with its error; any other write is recorded |
| Pinger.SendSweep | pinger/pinger.go:79-83 | the request goes to every address in order; the first failing write ends the sweep with its error |
| Pinger.Targets | pinger/pinger.go:79 | one target per value `Utils.Enumeration` lists |
| Pinger.SenderResult | pinger/pinger.go:71-97 | a marshal error is returned; on a closed connection any planned write fails with ErrClosed; otherwise the scripted failure is returned exactly when it falls among the planned writes |
| Pinger.SweepNetwork | pinger/pinger.go:79-83 | one sweep over the addresses EnumerateIPs lists |
| Pinger.NextSweep | pinger/pinger.go:78-83 | the next sweep either ends the planned writes at the first failure or adds one whole sweep |
| Pinger.SweepLoop | pinger/pinger.go:77-100 | after stopAfter sleeps the connection is closed and nil returned; otherwise the first failing write's error is returned with the connection left open; the writes are the planned ones up to the failure |
| Pinger.Sender | pinger/pinger.go:63-101 | a marshal failure closes the connection and is returned; otherwise as SweepLoop over the marshalled request |
| Pinger.SweepsInOrder | pinger/pinger.go:77-83 | an undisturbed sender probes every enumerated address in ascending order, sweep after sweep |
| Pinger.Receive | pinger/pinger.go:106-126 | at most one sighting per read, none with a hardware address |
| Pinger.ReceiveBlocked | pinger/pinger.go:106-126 | the receiver keeps reading exactly while every read is a parsed message |
| Pinger.ReceiveEnds | pinger/pinger.go:107-119 | otherwise it ends at the first other read: a closed connection returns nil, another read error returns that error, a parse failure crashes |
| Pinger.ReceiveOnlyEchoReplies | pinger/pinger.go:119-125 | every reported sighting is the peer of an echo reply read at or after its position |
| Pinger.ReceiveAppend | pinger/pinger.go:106-126 | reads the receiver continues after report their sightings in read order, ahead of those of later reads, and leave the outcome to the later reads |
| Pinger.ReceiveSingle | pinger/pinger.go:119-125 | one parsed echo reply reports its peer without hardware address; any other parsed message reports nothing |
| Pinger.ReceiveReportsReply | pinger/pinger.go:106-125 | every echo reply read before the receiver ends is reported |
| Pinger.Receiver | pinger/pinger.go:103-127 | the outcome and the sightings are those of `Receive` over the reads |
| Pinger.ParseFailureCrashes | pinger/pinger.go:115-119 | as written, one unparsable datagram crashes the receiver |
| Pinger.ReceiveSkipping | pinger/pinger.go:115-125 | the intended receiver, which skips unparsable datagrams, reports at most one sighting per read |
| Pinger.SkippingNeverCrashes | pinger/pinger.go:106-126 | the intended receiver never crashes, and keeps reading exactly while no read fails |
| Pinger.SkippingAgrees | pinger/pinger.go:106-126 | without parse failures the intended receiver behaves as the one written |
| Pinger.Combine | pinger/pinger.go:52-60 | a receiver error is returned whatever the sender returns; after a clean stop the sender's result is returned |
| Pinger.Reads | pinger/pinger.go:96-110 | the reads are the arrivals, then ErrClosed exactly when the connection is closed |
| Pinger.ClosedConnectionEnds | pinger/pinger.go:52-60 | on a closed connection Run always returns or crashes; with only messages arriving it returns the sender's result; a receiver error is one that arrived |
| Pinger.WriteFailureHangs | pinger/pinger.go:80-82 | on a connection left open the receiver never stops cleanly, so Run never returns the sender's error, and keeps running while only messages arrive |
| Pinger.Run | pinger/pinger.go:38-61 | a listen error is returned at once; otherwise the writes and the closed flag are the sender's, the receiver reads until the connection is closed, a receiver error closes the connection and is returned, a clean stop returns the sender's result; whenever the sender closed the connection Run does not keep running |
| Pinger.ClosingSender | pinger/pinger.go:63-101 | the intended sender: the same writes and result as the sender, and the connection always closed when it ends |
| Pinger.RunClosing | pinger/pinger.go:38-61 | Run over the intended sender never keeps running, and returns the sender's result (the write error included) when only messages arrive |
| Watcher.Classify | watcher/watcher.go:54-67 | a frame is dropped exactly when it has no ARP layer or is an ARP request from the interface's own hardware address; otherwise its sender's addresses are reported |
| Watcher.Accepted | watcher/watcher.go:48-67 | at most one sighting per frame, each with a hardware address |
| Watcher.AcceptedAppend | watcher/watcher.go:48-69 | sightings come out in capture order |
| Watcher.AcceptedSingle | watcher/watcher.go:54-67 | one frame is reported exactly when it is an ARP frame this host did not request |
| Watcher.AcceptedFrom | watcher/watcher.go:53-67 | a sighting is reported exactly when some captured frame classifies to it |
| Watcher.OwnReplyReported | watcher/watcher.go:59-62 | only requests are filtered: a reply from the own hardware address is still reported |
| Watcher.NothingFromOwnRequests | watcher/watcher.go:54-62 | frames that are the host's own requests or not ARP at all report nothing |
| Watcher.Handle.SetBPFFilter | watcher/watcher.go:31 | the filter is installed unless the scripted failure occurs, which is returned |
| Watcher.Loop | watcher/watcher.go:45-70 | the loop stops exactly when the stop signal comes within the captured frames, and reports the accepted frames read before it |
| Watcher.Start | watcher/watcher.go:23-43 | an open error is returned with the handle untouched; a filter error closes the handle and is returned; otherwise the "arp" filter is installed, the loop runs, and the handle is closed once it stops |

## Left out

- Concurrency. The goroutines, channels and `select` statements are replaced
  by sequences of events, reads and frames, one run at a time.
- Pinger.Run: the sender runs to completion before the receiver reads.
  A receiver failure therefore closes the connection after the sender has
  finished, so the ErrClosed write that would end a concurrent sender is not
  captured.
- Watcher.Start: the loop, which the source runs in a goroutine, runs before
  Start returns. The sightings are returned as a sequence rather than sent on
  a channel.
- Timing: `time.Now`, the ticker and `time.After` are not modelled. Clock
  readings are arguments, and the sender's elapsed times are a given function
  of the sweep number.
- Reporter.Transition: `now - seen` is computed on unbounded integers. Go's
  `time.Sub` saturates at the int64 Duration bounds, and the default durations
  never come near them.
- Pinger.SweepLoop: the wait computed after the final sweep is not recorded,
  since the stop signal wins that wait.
- ICMP: marshalling and parsing are not modelled. Marshalling is a given
  function of the echo message, and each read arrives already parsed (or
  unparsable).
- Pinger.PacketConn and Watcher.Handle: sockets and pcap are scripted
  stand-ins. At most one write fails, at a given index.
- Pinger.Run: `icmp.ListenPacket` is represented by its error alone.
- Watcher.Start: `pcap.OpenLive` is represented by its error alone.
- Logging, the Prometheus metrics and `storage.WritePoint`: not modelled as
  calls. What a tick would publish (the known-hosts count, and the host_up and
  storage labels and values) is the `TickReport` each tick returns.
- The presence package is not part of this model; its only use in the
  reporter is commented out.
- Text.Atoi: a digit string that overflows and then contains a non-digit gets
  a syntax error here. Go's parser reports the range error it meets first.
- Net.IpString: an address that is neither nil nor IPv4 is rendered as "?"
  followed by hexadecimal digits, not in IPv6 notation. The keys stay
  injective, which is all the reporter relies on.
- Utils.FirstIPv4Network: it requires the mask of the first IPv4 entry (the one
  the search cuts) to have at least 4 bytes. With a shorter mask the Go slice
  expression panics, and that panic is not modelled.
- Utils.EnumerateIPs: it requires an IP and a mask of at least 4 bytes. With
  shorter ones `binary.BigEndian.Uint32` panics, and that panic is not
  modelled.
- Watcher.Loop: running out of captured frames is modelled as waiting for more.
  When the packet source closes its channel, `<-in` yields a nil packet and
  `packet.Layer` panics; that end is not modelled.
- Pinger.Targets: its contract states the length only. That each target is
  the big-endian form of the listed value is stated by Pinger.EnumeratedTargets
  and Net.PutUint32.
- main.go outside findInterfaces is not part of this model: flag parsing,
  starting the pinger and watcher goroutines, and the wait group.
- `ReadFirstLine` in utils/utils.go and the registration of flags with the
  flag package are not part of this model.
- Type mismatches in the source:
  - watcher/watcher.go uses `reporter.Ping` (a function) as a channel element
    type;
  - main.go:75 calls `watcher.New` with two arguments instead of three.

  The model takes the evident intent: the watcher reports its sightings to the
  reporter.

## Findings

| source | as written | input that shows it | evidently intended | confidence | as-written member | corrected member |
|---|---|---|---|---|---|---|
| pinger/pinger.go:80-82 | a failing write returns its error from the sender but leaves the connection open, so the receiver keeps blocking in ReadFrom and Run never returns the error | a connection whose first write fails (for example an unreachable network) while replies or nothing arrive | close the connection on a write failure too, so the receiver stops and Run returns the write error | medium; not executed | Pinger.WriteFailureHangs | Pinger.RunClosing |
| pinger/pinger.go:115-119 | after logging a parse failure, the receiver reads `rm.Type` from the nil message, which panics and ends the process | any datagram `icmp.ParseMessage` rejects, such as one shorter than 4 bytes | log the failure, skip the datagram and keep reading | high; not executed | Pinger.ParseFailureCrashes | Pinger.SkippingNeverCrashes |

`Pinger.Receiver` and `Pinger.Run` keep the behaviour as written.
`Pinger.ReceiveSkipping` is the corrected receiver. `Pinger.SkippingAgrees`
shows the two agree on every run without parse failures.
`Pinger.ClosingSender` is the corrected sender and `Pinger.RunClosing` runs
over it; `Pinger.ClosedConnectionEnds` is the property both rely on.
