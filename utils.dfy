/**
 * Address arithmetic of utils/utils.go: the IPv4 network of an interface
 * and the list of addresses one sweep of the pinger probes.
 */
module Utils {
  import opened Base
  import opened Net

  // ---------------------------------------------------------------------------
  // FirstIPv4Network

  /**
   * One entry of the list net.Interface.Addrs returns: either a *net.IPNet
   * or an address of another kind.
   */
  datatype Addr = IPNetAddr(net: IPNet) | OtherAddr(ip: IP)

  /** An entry the search accepts: an IPNet whose IP has a 4-byte form. */
  predicate IsIPv4Net(a: Addr) {
    a.IPNetAddr? && To4(a.net.ip).Some?
  }

  /**
   * The network the search returns for an accepted entry: the 4-byte form of
   * the IP with the last four bytes of the mask.
   */
  function CutToIPv4(a: Addr): (n: IPNet)
    requires IsIPv4Net(a) && |a.net.mask| >= 4
    ensures |n.ip| == 4 && |n.mask| == 4
  {
    IPNet(To4(a.net.ip).value, a.net.mask[|a.net.mask| - 4..])
  }

  const NoIPv4Network := Message("interface has no IPv4 network")

  /**
   * The first IPv4 entry of the list, if there is one, has a mask of at least
   * four bytes (the search cuts the last four out of it).
   */
  predicate FirstMaskFits(addrs: seq<Addr>)
    decreases |addrs|
  {
    addrs != [] ==> if IsIPv4Net(addrs[0]) then |addrs[0].net.mask| >= 4 else FirstMaskFits(addrs[1..])
  }

  /**
   * What FirstIPv4Network returns, as a recursive definition over the address
   * list; the method below computes it with an early-return loop.
   */
  function FirstIPv4(listed: Result<seq<Addr>, Error>): (r: Result<IPNet, Error>)
    requires listed.Ok? ==> FirstMaskFits(listed.value)
    ensures listed.Err? ==> r == Err(listed.error)
    ensures listed.Ok? && r.Err? ==> r.error == NoIPv4Network
    ensures r.Ok? ==> |r.value.ip| == 4 && |r.value.mask| == 4
    decreases if listed.Ok? then |listed.value| else 0
  {
    match listed
    case Err(e) => Err(e)
    case Ok(addrs) =>
      if addrs == [] then Err(NoIPv4Network)
      else if IsIPv4Net(addrs[0]) then Ok(CutToIPv4(addrs[0]))
      else FirstIPv4(Ok(addrs[1..]))
  }

  /**
   * FirstIPv4Network, with iface.Addrs() replaced by its result: a failure to
   * list the addresses is passed on; otherwise the first IPv4 IPNet in the
   * list wins, and when there is none the result is the "no IPv4 network"
   * error.
   */
  method FirstIPv4Network(listed: Result<seq<Addr>, Error>) returns (r: Result<IPNet, Error>)
    requires listed.Ok? ==> FirstMaskFits(listed.value)
    ensures r == FirstIPv4(listed)
    ensures listed.Err? ==> r == Err(listed.error)
    ensures listed.Ok? && r.Err? ==>
      r.error == NoIPv4Network && forall i :: 0 <= i < |listed.value| ==> !IsIPv4Net(listed.value[i])
    ensures r.Ok? ==>
      && listed.Ok?
      && exists i ::
        && 0 <= i < |listed.value| && IsIPv4Net(listed.value[i])
        && (forall j :: 0 <= j < i ==> !IsIPv4Net(listed.value[j]))
        && |listed.value[i].net.mask| >= 4
        && r.value == CutToIPv4(listed.value[i])
  {
    if listed.Err? {
      return Err(listed.error);
    }
    var addrs := listed.value;
    var i := 0;
    while i < |addrs|
      invariant 0 <= i <= |addrs|
      invariant forall j :: 0 <= j < i ==> !IsIPv4Net(addrs[j])
      invariant FirstMaskFits(addrs[i..])
      invariant FirstIPv4(listed) == FirstIPv4(Ok(addrs[i..]))
    {
      var a := addrs[i];
      assert addrs[i..][0] == a;
      if a.IPNetAddr? {
        var ip4 := To4(a.net.ip);
        if ip4.Some? {
          return Ok(IPNet(ip4.value, a.net.mask[|a.net.mask| - 4..]));
        }
      }
      assert addrs[i..][1..] == addrs[i + 1..];
      i := i + 1;
    }
    return Err(NoIPv4Network);
  }

  // ---------------------------------------------------------------------------
  // EnumerateIPs

  /** The network address: the IP with its host bits cleared. */
  function NetworkOf(n: IPNet): (r: uint32)
    requires |n.ip| >= 4 && |n.mask| >= 4
    ensures r <= Uint32(n.ip) && r <= Uint32(n.mask)
  {
    And(Uint32(n.ip), Uint32(n.mask))
  }

  /**
   * The broadcast address: the network address with every host bit set,
   * which is the network address plus the complement of the mask.
   */
  function BroadcastOf(n: IPNet): (r: uint32)
    requires |n.ip| >= 4 && |n.mask| >= 4
    ensures r as int == NetworkOf(n) as int + Complement(Uint32(n.mask)) as int
    ensures NetworkOf(n) <= r
  {
    OrComplementOfMasked(Uint32(n.ip), Uint32(n.mask));
    Or(NetworkOf(n), Complement(Uint32(n.mask)))
  }

  /** Go's ++ on a uint32: 0xFFFFFFFF wraps around to 0. */
  function Increment(x: uint32): (r: uint32)
    ensures x < MaxUint32 ==> r as int == x as int + 1
    ensures x == MaxUint32 ==> r == 0
  {
    ((x as int + 1) % 0x1_0000_0000) as uint32
  }

  /**
   * The 32-bit values EnumerateIPs lists: counting up from the successor of
   * the network address (taken with wrap-around) while below the broadcast
   * address.
   */
  function Enumeration(n: IPNet): (vs: seq<uint32>)
    requires |n.ip| >= 4 && |n.mask| >= 4
    ensures vs != [] ==> vs[0] == Increment(NetworkOf(n)) && vs[|vs| - 1] as int == BroadcastOf(n) as int - 1
  {
    var first := Increment(NetworkOf(n));
    var last := BroadcastOf(n);
    if first < last then seq(last as int - first as int, i requires 0 <= i < last as int - first as int => (first as int + i) as uint32)
    else []
  }

  /**
   * EnumerateIPs: the loop advances a uint32 from the network address and
   * emits the big-endian bytes of every value it visits below the broadcast
   * address.
   */
  method EnumerateIPs(n: IPNet) returns (out: seq<IP>)
    requires |n.ip| >= 4 && |n.mask| >= 4
    ensures |out| == |Enumeration(n)|
    ensures forall i :: 0 <= i < |out| ==> out[i] == PutUint32(Enumeration(n)[i])
  {
    var num := Uint32(n.ip);
    var mask := Uint32(n.mask);
    var network := And(num, mask);
    var broadcast := Or(network, Complement(mask));
    network := Increment(network);
    ghost var first := network;
    out := [];
    while network < broadcast
      invariant first < broadcast ==> first <= network <= broadcast
      invariant first >= broadcast ==> network == first
      invariant |out| == network as int - first as int
      invariant forall i :: 0 <= i < |out| ==> out[i] == PutUint32((first as int + i) as uint32)
      decreases broadcast as int - network as int
    {
      out := out + [PutUint32(network)];
      network := Increment(network);
    }
  }

  /** The enumeration is strictly ascending. */
  lemma EnumerationAscending(n: IPNet, i: nat, j: nat)
    requires |n.ip| >= 4 && |n.mask| >= 4
    requires i < j < |Enumeration(n)|
    ensures Enumeration(n)[i] < Enumeration(n)[j]
  {
  }

  /**
   * Unless the network address is 255.255.255.255, the enumeration is exactly
   * the addresses strictly between the network and the broadcast address, in
   * ascending order, and so holds broadcast - network - 1 of them (none when
   * the two coincide).
   */
  lemma EnumerationStrictlyBetween(n: IPNet)
    requires |n.ip| >= 4 && |n.mask| >= 4
    requires NetworkOf(n) != MaxUint32
    ensures forall x: uint32 :: x in Enumeration(n) <==> NetworkOf(n) < x < BroadcastOf(n)
    ensures |Enumeration(n)| == if NetworkOf(n) == BroadcastOf(n) then 0 else BroadcastOf(n) as int - NetworkOf(n) as int - 1
  {
    var vs := Enumeration(n);
    var first := Increment(NetworkOf(n));
    forall x: uint32 | NetworkOf(n) < x < BroadcastOf(n)
      ensures x in vs
    {
      assert vs[x as int - first as int] == x;
    }
  }

  /**
   * The count depends on the mask alone: 2^32 - 2 - mask addresses for every
   * mask other than 255.255.255.255. For a mask of prefix length p <= 31 this
   * is 2^(32-p) - 2: 254 for a /24, none for a /31.
   */
  lemma EnumerationCount(n: IPNet)
    requires |n.ip| >= 4 && |n.mask| >= 4
    requires Uint32(n.mask) != MaxUint32
    ensures |Enumeration(n)| == 0xFFFF_FFFE - Uint32(n.mask) as int
  {
    EnumerationStrictlyBetween(n);
  }

  /** The mask of a prefix of p one-bits followed by 32 - p zero-bits. */
  function PrefixMask(p: nat): (m: uint32)
    requires p <= 32
    ensures m as int == 0x1_0000_0000 - Pow2(32 - p)
  {
    Pow2Of32();
    Pow2Below(32 - p, 32);
    (0x1_0000_0000 - Pow2(32 - p)) as uint32
  }

  lemma {:induction false} Pow2Below(a: nat, b: nat)
    requires a <= b
    ensures Pow2(a) <= Pow2(b)
    decreases b
  {
    if a < b {
      Pow2Below(a, b - 1);
    }
  }

  /** A network of prefix length p <= 31 yields 2^(32-p) - 2 addresses. */
  lemma PrefixCount(n: IPNet, p: nat)
    requires |n.ip| >= 4 && |n.mask| >= 4
    requires p <= 31 && Uint32(n.mask) == PrefixMask(p)
    ensures |Enumeration(n)| == Pow2(32 - p) - 2
  {
    assert Pow2(32 - p) >= 2;
    EnumerationCount(n);
  }

  /**
   * Only the host part of the IP is ignored: enumerating from the network
   * address itself gives the same list as enumerating from any IP in it.
   */
  lemma HostBitsIrrelevant(n: IPNet)
    requires |n.ip| >= 4 && |n.mask| >= 4
    ensures var base := IPNet(PutUint32(NetworkOf(n)), n.mask);
      Enumeration(base) == Enumeration(n)
  {
    AndIdempotent(Uint32(n.ip), Uint32(n.mask));
  }

  /**
   * The network address can only be 255.255.255.255 for that very IP with the
   * /32 mask. Then the counter wraps to 0 and the list runs from 0.0.0.0 up to
   * 255.255.255.254: 2^32 - 1 addresses, none of them strictly between the
   * network and the broadcast address.
   */
  lemma TopAddressWraps(n: IPNet)
    requires |n.ip| >= 4 && |n.mask| >= 4
    ensures NetworkOf(n) == MaxUint32 <==> Uint32(n.ip) == MaxUint32 && Uint32(n.mask) == MaxUint32
    ensures NetworkOf(n) == MaxUint32 ==>
      |Enumeration(n)| == 0xFFFF_FFFF && forall i :: 0 <= i < |Enumeration(n)| ==> Enumeration(n)[i] as int == i
  {
    if Uint32(n.ip) == MaxUint32 && Uint32(n.mask) == MaxUint32 {
      BitAndSelf(MaxUint32 as nat);
    }
  }
}
