/**
 * Interface discovery and scope validation of main.go (findInterfaces): the
 * requested interface names are matched against the system's interfaces,
 * each match consuming one requested name, and every selected interface
 * must have an IPv4 network that is neither loopback nor wider than a /16.
 */
module Discovery {
  import opened Base
  import opened Text
  import opened Net
  import Utils

  /**
   * A system network interface (net.Interface) together with the result its
   * Addrs() call gives.
   */
  datatype Interface = Interface(name: string, hardwareAddr: HardwareAddr, addrs: Result<seq<Utils.Addr>, Error>)

  /** Why the process stops with log.Fatalf while checking the selected interfaces. */
  datatype FatalReason =
    | NoNetwork(iface: string, cause: Error)
    | LoopbackNetwork(iface: string)
    | NetworkTooLarge(iface: string, network: IPNet)

  /** findInterfaces either returns (nil or an error) or never returns (log.Fatalf). */
  datatype Outcome = Done | Failed(err: Error) | Fatal(reason: FatalReason)

  const NoInterfaceRequested := Message("At least one interface is required")

  /** The error naming the requested interfaces no system interface matched. */
  function NotFound(names: seq<string>): (e: Error)
    ensures e.Message? && "Interfaces not found: " <= e.text
    ensures |names| == 1 ==> e.text == "Interfaces not found: " + names[0]
  {
    Message("Interfaces not found: " + Join(names, ", "))
  }

  /** The first IPv4 entry of the interface's address list carries a mask of at least 4 bytes. */
  predicate MasksWellFormed(iface: Interface) {
    iface.addrs.Ok? ==> Utils.FirstMaskFits(iface.addrs.value)
  }

  // ---------------------------------------------------------------------------
  // Matching requested names

  /** names with the first occurrence of x taken out. */
  function RemoveFirst(names: seq<string>, x: string): (r: seq<string>)
    ensures x !in names ==> r == names
    ensures x in names ==> |r| == |names| - 1
  {
    if names == [] then []
    else if names[0] == x then names[1..]
    else [names[0]] + RemoveFirst(names[1..], x)
  }

  /** Removing a requested name takes exactly one copy of it out. */
  lemma {:induction false} RemoveFirstMultiset(names: seq<string>, x: string)
    requires x in names
    ensures multiset(RemoveFirst(names, x)) + multiset{x} == multiset(names)
  {
    assert names == [names[0]] + names[1..];
    if names[0] != x {
      RemoveFirstMultiset(names[1..], x);
    }
  }

  /** Splicing out the element at the first index holding x removes the first x. */
  lemma {:induction false} RemoveFirstAt(names: seq<string>, x: string, j: nat)
    requires j < |names| && names[j] == x
    requires forall k :: 0 <= k < j ==> names[k] != x
    ensures RemoveFirst(names, x) == names[..j] + names[j + 1..]
    decreases j
  {
    if j == 0 {
      assert names[..0] + names[1..] == names[1..];
    } else {
      var rest := names[1..];
      assert forall k :: 0 <= k < j - 1 ==> rest[k] == names[k + 1];
      RemoveFirstAt(rest, x, j - 1);
      assert RemoveFirst(names, x) == [names[0]] + RemoveFirst(rest, x);
      assert rest[..j - 1] == names[1..j] && rest[j..] == names[j + 1..];
      assert [names[0]] + names[1..j] == names[..j];
    }
  }

  /**
   * The first loop of findInterfaces: the system interfaces, in order, whose
   * name is still among the requested names (each match removes that name
   * once), and the requested names left over.
   */
  function Selection(all: seq<Interface>, names: seq<string>): (r: (seq<Interface>, seq<string>))
    ensures |r.0| + |r.1| == |names|
    ensures |r.0| <= |all|
  {
    if all == [] then ([], names)
    else if all[0].name in names then
      var rest := Selection(all[1..], RemoveFirst(names, all[0].name));
      ([all[0]] + rest.0, rest.1)
    else Selection(all[1..], names)
  }

  function Names(ifaces: seq<Interface>): (r: seq<string>)
    ensures |r| == |ifaces| && forall i :: 0 <= i < |ifaces| ==> r[i] == ifaces[i].name
  {
    seq(|ifaces|, i requires 0 <= i < |ifaces| => ifaces[i].name)
  }

  /** a is obtained from b by deleting elements. */
  predicate IsSubsequence<T(==)>(a: seq<T>, b: seq<T>)
    decreases |b|
  {
    || a == []
    || (&& b != []
        && ((a[0] == b[0] && IsSubsequence(a[1..], b[1..])) || IsSubsequence(a, b[1..])))
  }

  /** The selected interfaces keep the system's order. */
  lemma {:induction false} SelectionInOrder(all: seq<Interface>, names: seq<string>)
    ensures IsSubsequence(Selection(all, names).0, all)
    decreases |all|
  {
    if all != [] {
      var x := all[0].name;
      if x in names {
        SelectionInOrder(all[1..], RemoveFirst(names, x));
        var sel := Selection(all, names).0;
        assert sel[0] == all[0] && sel[1..] == Selection(all[1..], RemoveFirst(names, x)).0;
      } else {
        SelectionInOrder(all[1..], names);
      }
    }
  }

  /**
   * Every requested name is either consumed by exactly one selected interface
   * or left over; so every selected interface was requested.
   */
  lemma {:induction false} SelectionConsumes(all: seq<Interface>, names: seq<string>)
    ensures multiset(Names(Selection(all, names).0)) + multiset(Selection(all, names).1) == multiset(names)
    ensures forall i :: 0 <= i < |Selection(all, names).0| ==> Selection(all, names).0[i].name in names
    decreases |all|
  {
    if all != [] {
      var x := all[0].name;
      if x in names {
        var left := RemoveFirst(names, x);
        RemoveFirstMultiset(names, x);
        SelectionConsumes(all[1..], left);
        var rest := Selection(all[1..], left);
        var sel := [all[0]] + rest.0;
        assert Names(sel) == [x] + Names(rest.0);
        assert multiset(Names(sel)) == multiset{x} + multiset(Names(rest.0));
        forall i | 0 <= i < |sel|
          ensures sel[i].name in names
        {
          if i > 0 {
            assert sel[i] == rest.0[i - 1];
            assert Names(rest.0)[i - 1] == sel[i].name;
            assert sel[i].name in multiset(Names(rest.0));
            assert sel[i].name in multiset(left);
            assert sel[i].name in multiset(names);
          }
        }
      } else {
        SelectionConsumes(all[1..], names);
      }
    }
  }

  /**
   * The requested names left over are those no system interface could take:
   * a name requested c times and carried by a system interfaces is left over
   * max(0, c - a) times.
   */
  lemma {:induction false} SelectionLeftOver(all: seq<Interface>, names: seq<string>, x: string)
    ensures multiset(Selection(all, names).1)[x] ==
      if multiset(names)[x] <= multiset(Names(all))[x] then 0
      else multiset(names)[x] - multiset(Names(all))[x]
    decreases |all|
  {
    if all != [] {
      var y := all[0].name;
      NamesCons(all);
      if y in names {
        RemoveFirstMultiset(names, y);
        SelectionLeftOver(all[1..], RemoveFirst(names, y), x);
      } else {
        SelectionLeftOver(all[1..], names, x);
      }
    }
  }

  /**
   * Matching leaves no requested name over exactly when the system has every
   * requested name at least as often as it is requested.
   */
  lemma SelectionComplete(all: seq<Interface>, names: seq<string>)
    ensures Selection(all, names).1 == [] <==> multiset(names) <= multiset(Names(all))
  {
    var left := Selection(all, names).1;
    if multiset(names) <= multiset(Names(all)) {
      forall x | x in multiset(left)
        ensures false
      {
        SelectionLeftOver(all, names, x);
      }
      assert multiset(left) == multiset{};
    } else {
      var x :| multiset(names)[x] > multiset(Names(all))[x];
      SelectionLeftOver(all, names, x);
      assert x in multiset(left);
    }
  }

  /** A requested name that some system interface carries is selected. */
  lemma SelectionFinds(all: seq<Interface>, names: seq<string>, x: string)
    requires x in names && x in Names(all)
    ensures x in Names(Selection(all, names).0)
  {
    SelectionLeftOver(all, names, x);
    SelectionConsumes(all, names);
    assert multiset(Selection(all, names).1)[x] < multiset(names)[x];
  }

  /** A subsequence holds no name more often than the sequence it comes from. */
  lemma {:induction false} SubsequenceNames(a: seq<Interface>, b: seq<Interface>)
    requires IsSubsequence(a, b)
    ensures multiset(Names(a)) <= multiset(Names(b))
    decreases |b|
  {
    if a != [] {
      NamesCons(b);
      if a[0] == b[0] && IsSubsequence(a[1..], b[1..]) {
        SubsequenceNames(a[1..], b[1..]);
        NamesCons(a);
      } else {
        SubsequenceNames(a, b[1..]);
      }
    }
  }

  lemma NamesCons(b: seq<Interface>)
    requires b != []
    ensures multiset(Names(b)) == multiset{b[0].name} + multiset(Names(b[1..]))
  {
    assert Names(b) == [b[0].name] + Names(b[1..]);
  }

  /** No two system interfaces share a name. */
  predicate DistinctNames(all: seq<Interface>) {
    forall i, j :: 0 <= i < j < |all| ==> all[i].name != all[j].name
  }

  lemma {:induction false} DistinctNamesOnce(all: seq<Interface>, x: string)
    requires DistinctNames(all)
    ensures multiset(Names(all))[x] <= 1
    decreases |all|
  {
    if all != [] {
      assert Names(all) == [all[0].name] + Names(all[1..]);
      DistinctNamesOnce(all[1..], x);
      if all[0].name == x {
        assert x !in Names(all[1..]);
      }
    }
  }

  lemma RepeatedCount(s: seq<string>, i: nat, j: nat)
    requires i < j < |s| && s[i] == s[j]
    ensures multiset(s)[s[i]] >= 2
  {
    assert s == s[..j] + s[j..];
    assert s[..j][i] == s[i];
    assert s[j..][0] == s[i];
    assert multiset(s) == multiset(s[..j]) + multiset(s[j..]);
  }

  /**
   * With distinct system interface names, a name requested twice cannot be
   * consumed twice, so something is left over and findInterfaces fails.
   */
  lemma DuplicateRequestLeftOver(all: seq<Interface>, names: seq<string>, i: nat, j: nat)
    requires DistinctNames(all)
    requires i < j < |names| && names[i] == names[j]
    ensures Selection(all, names).1 != []
  {
    var x := names[i];
    var (sel, left) := Selection(all, names);
    SelectionInOrder(all, names);
    SelectionConsumes(all, names);
    SubsequenceNames(sel, all);
    DistinctNamesOnce(all, x);
    var used := multiset(Names(sel));
    assert used[x] <= 1;
    RepeatedCount(names, i, j);
    assert used[x] + multiset(left)[x] == multiset(names)[x];
    assert x in multiset(left);
  }

  // ---------------------------------------------------------------------------
  // Validating the networks

  /** The accepted scope: not the 127.x.x.x network and at least a /16 mask. */
  predicate AcceptableNetwork(n: IPNet)
    requires |n.ip| == 4 && |n.mask| == 4
    ensures AcceptableNetwork(n) <==> n.ip[0] != 127 && Uint32(n.mask) >= 0xFFFF_0000
  {
    n.ip[0] != 127 && n.mask[0] == 0xff && n.mask[1] == 0xff
  }

  /**
   * An accepted network is swept over at most 65534 addresses, unless its
   * network address is 255.255.255.255, where the enumeration wraps around.
   */
  lemma AcceptedScopeSize(n: IPNet)
    requires |n.ip| == 4 && |n.mask| == 4 && AcceptableNetwork(n)
    requires Utils.NetworkOf(n) != MaxUint32
    ensures |Utils.Enumeration(n)| <= 0xFFFE
  {
    if Uint32(n.mask) != MaxUint32 {
      Utils.EnumerationCount(n);
    }
  }

  /**
   * The check of the second loop for one interface: its first IPv4 network,
   * or the reason the process is stopped.
   */
  function ScopeOf(iface: Interface): (r: Result<IPNet, FatalReason>)
    requires MasksWellFormed(iface)
    ensures r.Ok? ==> |r.value.ip| == 4 && |r.value.mask| == 4 && AcceptableNetwork(r.value)
    ensures r.Ok? ==> Utils.FirstIPv4(iface.addrs) == Ok(r.value)
    ensures r.Err? ==> r.error.iface == iface.name
    ensures r.Ok? <==> Utils.FirstIPv4(iface.addrs).Ok? && AcceptableNetwork(Utils.FirstIPv4(iface.addrs).value)
    ensures Utils.FirstIPv4(iface.addrs).Err? ==> r == Err(NoNetwork(iface.name, Utils.FirstIPv4(iface.addrs).error))
    ensures Utils.FirstIPv4(iface.addrs).Ok? && Utils.FirstIPv4(iface.addrs).value.ip[0] == 127 ==>
      r == Err(LoopbackNetwork(iface.name))
    ensures (&& Utils.FirstIPv4(iface.addrs).Ok?
             && Utils.FirstIPv4(iface.addrs).value.ip[0] != 127
             && Uint32(Utils.FirstIPv4(iface.addrs).value.mask) < 0xFFFF_0000) ==>
      r == Err(NetworkTooLarge(iface.name, Utils.FirstIPv4(iface.addrs).value))
  {
    match Utils.FirstIPv4(iface.addrs)
    case Err(e) => Err(NoNetwork(iface.name, e))
    case Ok(network) =>
      if network.ip[0] == 127 then Err(LoopbackNetwork(iface.name))
      else if network.mask[0] != 0xff || network.mask[1] != 0xff then Err(NetworkTooLarge(iface.name, network))
      else Ok(network)
  }

  /** The process-wide selection state main.go keeps in globals. */
  class Interfaces {
    /** The -iface flag's values; findInterfaces splices matched names out of it. */
    var ifaceNames: seq<string>
    var ifaces: seq<Interface>
    var networks: seq<IPNet>

    constructor (requested: seq<string>)
      ensures ifaceNames == requested && ifaces == [] && networks == []
    {
      ifaceNames := requested;
      ifaces := [];
      networks := [];
    }

    /**
     * findInterfaces, given the result of net.Interfaces(). On success the
     * selected interfaces are appended to ifaces in system order and networks
     * holds each one's validated network at the same index.
     */
    method FindInterfaces(system: Result<seq<Interface>, Error>) returns (r: Outcome)
      requires forall k :: 0 <= k < |ifaces| ==> MasksWellFormed(ifaces[k])
      requires system.Ok? ==> forall k :: 0 <= k < |system.value| ==> MasksWellFormed(system.value[k])
      modifies this
      ensures forall k :: 0 <= k < |ifaces| ==> MasksWellFormed(ifaces[k])
      ensures old(ifaceNames) == [] ==> r == Failed(NoInterfaceRequested) && unchanged(this)
      ensures old(ifaceNames) != [] && system.Err? ==> r == Failed(system.error) && unchanged(this)
      ensures old(ifaceNames) != [] && system.Ok? ==>
        var (selected, left) := Selection(system.value, old(ifaceNames));
        && ifaceNames == left
        && ifaces == old(ifaces) + selected
        && (left != [] ==> r == Failed(NotFound(left)))
        && (left == [] ==> !r.Failed? && (r == Done <==> forall k :: 0 <= k < |ifaces| ==> ScopeOf(ifaces[k]).Ok?))
      ensures old(ifaceNames) != [] && system.Ok? ==>
        (r.Failed? <==> !(multiset(old(ifaceNames)) <= multiset(Names(system.value))))
      ensures r == Done ==>
        && |networks| == |ifaces|
        && forall k :: 0 <= k < |ifaces| ==> ScopeOf(ifaces[k]) == Ok(networks[k])
      ensures r.Fatal? ==>
        exists k :: 0 <= k < |ifaces| && ScopeOf(ifaces[k]) == Err(r.reason)
          && forall k' :: 0 <= k' < k ==> ScopeOf(ifaces[k']).Ok?
    {
      if |ifaceNames| == 0 {
        return Failed(NoInterfaceRequested);
      }
      if system.Err? {
        return Failed(system.error);
      }
      SelectionComplete(system.value, ifaceNames);
      MatchNames(system.value);
      if |ifaceNames| != 0 {
        return Failed(NotFound(ifaceNames));
      }
      r := ValidateAll();
    }

    /**
     * The first loop of findInterfaces: every system interface whose name is
     * still requested is selected and its name consumed.
     */
    method MatchNames(all: seq<Interface>)
      requires forall k :: 0 <= k < |ifaces| ==> MasksWellFormed(ifaces[k])
      requires forall k :: 0 <= k < |all| ==> MasksWellFormed(all[k])
      modifies this
      ensures forall k :: 0 <= k < |ifaces| ==> MasksWellFormed(ifaces[k])
      ensures ifaceNames == Selection(all, old(ifaceNames)).1
      ensures ifaces == old(ifaces) + Selection(all, old(ifaceNames)).0
      ensures networks == old(networks)
    {
      ghost var names0 := ifaceNames;
      ghost var ifaces0 := ifaces;
      ghost var selected: seq<Interface> := [];
      var i := 0;
      assert all[0..] == all;
      while i < |all|
        invariant 0 <= i <= |all|
        invariant ifaces == ifaces0 + selected && networks == old(networks)
        invariant forall k :: 0 <= k < |ifaces| ==> MasksWellFormed(ifaces[k])
        invariant Selection(all, names0).0 == selected + Selection(all[i..], ifaceNames).0
        invariant Selection(all, names0).1 == Selection(all[i..], ifaceNames).1
      {
        var iface := all[i];
        SelectionStep(all, i, ifaceNames);
        var found := TakeName(iface.name);
        if found {
          ifaces := ifaces + [iface];
          selected := selected + [iface];
        }
        i := i + 1;
      }
      assert all[i..] == [];
    }

    /** The selection from position i on, after deciding about all[i]. */
    static lemma SelectionStep(all: seq<Interface>, i: nat, names: seq<string>)
      requires i < |all|
      ensures var x := all[i].name;
        Selection(all[i..], names) ==
          if x in names then
            ([all[i]] + Selection(all[i + 1..], RemoveFirst(names, x)).0, Selection(all[i + 1..], RemoveFirst(names, x)).1)
          else Selection(all[i + 1..], names)
    {
      assert all[i..][0] == all[i] && all[i..][1..] == all[i + 1..];
    }

    /** The check of one interface, once its first IPv4 network is known. */
    static lemma ScopeDecided(iface: Interface, network: Result<IPNet, Error>)
      requires MasksWellFormed(iface) && network == Utils.FirstIPv4(iface.addrs)
      ensures ScopeOf(iface) ==
        if network.Err? then Err(NoNetwork(iface.name, network.error))
        else if network.value.ip[0] == 127 then Err(LoopbackNetwork(iface.name))
        else if network.value.mask[0] != 0xff || network.value.mask[1] != 0xff then Err(NetworkTooLarge(iface.name, network.value))
        else Ok(network.value)
    {
    }

    /** The inner loop: splice the first occurrence of name out of ifaceNames. */
    method TakeName(name: string) returns (found: bool)
      modifies this
      ensures found <==> name in old(ifaceNames)
      ensures ifaceNames == RemoveFirst(old(ifaceNames), name)
      ensures ifaces == old(ifaces) && networks == old(networks)
    {
      var j := 0;
      found := false;
      while j < |ifaceNames|
        invariant 0 <= j <= |ifaceNames|
        invariant !found ==> forall k :: 0 <= k < j ==> ifaceNames[k] != name
        invariant !found ==> ifaceNames == old(ifaceNames)
        invariant found ==> ifaceNames == RemoveFirst(old(ifaceNames), name) && name in old(ifaceNames)
        invariant ifaces == old(ifaces) && networks == old(networks)
      {
        if name == ifaceNames[j] {
          RemoveFirstAt(ifaceNames, name, j);
          ifaceNames := ifaceNames[..j] + ifaceNames[j + 1..];
          found := true;
          break;
        }
        j := j + 1;
      }
    }

    /**
     * The second loop of findInterfaces: every selected interface must have
     * an acceptable IPv4 network; the first that has none stops the process.
     */
    method ValidateAll() returns (r: Outcome)
      requires forall k :: 0 <= k < |ifaces| ==> MasksWellFormed(ifaces[k])
      modifies this
      ensures ifaces == old(ifaces) && ifaceNames == old(ifaceNames)
      ensures r == Done || r.Fatal?
      ensures r == Done <==> forall k :: 0 <= k < |ifaces| ==> ScopeOf(ifaces[k]).Ok?
      ensures r == Done ==>
        && |networks| == |ifaces|
        && forall k :: 0 <= k < |ifaces| ==> ScopeOf(ifaces[k]) == Ok(networks[k])
      ensures r.Fatal? ==>
        exists k :: 0 <= k < |ifaces| && ScopeOf(ifaces[k]) == Err(r.reason)
          && forall k' :: 0 <= k' < k ==> ScopeOf(ifaces[k']).Ok?
    {
      networks := seq(|ifaces|, _ => IPNet([], []));
      var k := 0;
      while k < |ifaces|
        invariant ifaces == old(ifaces) && ifaceNames == old(ifaceNames)
        invariant 0 <= k <= |ifaces| && |networks| == |ifaces|
        invariant forall k' :: 0 <= k' < k ==> ScopeOf(ifaces[k']) == Ok(networks[k'])
      {
        var iface := ifaces[k];
        var network := Utils.FirstIPv4Network(iface.addrs);
        ScopeDecided(iface, network);
        if network.Err? {
          return Fatal(NoNetwork(iface.name, network.error));
        } else if network.value.ip[0] == 127 {
          return Fatal(LoopbackNetwork(iface.name));
        } else if network.value.mask[0] != 0xff || network.value.mask[1] != 0xff {
          return Fatal(NetworkTooLarge(iface.name, network.value));
        }
        networks := networks[k := network.value];
        k := k + 1;
      }
      return Done;
    }
  }
}
