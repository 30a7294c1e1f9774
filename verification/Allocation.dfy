/** Free-address search for peers and free-network search for interfaces. */
module Allocation {
  import opened Options
  import opened Bits
  import opened Cidrs

  /** What GetUsedIpsPerSubnet files an address under: the first subnet containing it, if any. */
  function SubnetOf(subnets: seq<Cidr>, ip: Cidr): (s: Cidr)
    requires ip.Parses() && forall c <- subnets :: c.Valid()
    ensures s != NoCidr ==> s in subnets && s.Contains(ip)
    ensures s == NoCidr ==> forall c <- subnets :: !c.Contains(ip)
  {
    if subnets == [] then NoCidr
    else if subnets[0].Contains(ip) then subnets[0]
    else SubnetOf(subnets[1..], ip)
  }

  predicate AllParse(ips: seq<Cidr>) {
    forall ip <- ips :: ip.Parses()
  }

  predicate AllValid(ips: seq<Cidr>) {
    forall ip <- ips :: ip.Valid()
  }

  /** The addresses filed under a subnet, in the order they were read. */
  ghost function FiledUnder(subnets: seq<Cidr>, ips: seq<Cidr>, s: Cidr): seq<Cidr>
    requires AllParse(ips) && AllValid(subnets)
  {
    if ips == [] then []
    else FiledUnder(subnets, ips[..|ips| - 1], s) +
         if SubnetOf(subnets, ips[|ips| - 1]) == s then [ips[|ips| - 1]] else []
  }

  function Lookup(m: map<Cidr, seq<Cidr>>, s: Cidr): seq<Cidr> {
    if s in m then m[s] else []
  }

  method FirstSubnet(subnets: seq<Cidr>, ip: Cidr) returns (subnet: Cidr)
    requires ip.Parses() && AllValid(subnets)
    ensures subnet == SubnetOf(subnets, ip)
  {
    for j := 0 to |subnets|
      invariant SubnetOf(subnets, ip) == SubnetOf(subnets[j..], ip)
    {
      if subnets[j].Contains(ip) {
        return subnets[j];
      }
    }
    return NoCidr;
  }

  /** m holds, subnet by subnet, what GetUsedIpsPerSubnet has filed of ips. */
  ghost predicate Grouped(m: map<Cidr, seq<Cidr>>, subnets: seq<Cidr>, ips: seq<Cidr>)
    requires AllParse(ips) && AllValid(subnets)
  {
    forall s :: Lookup(m, s) == FiledUnder(subnets, ips, s)
  }

  method GroupBySubnet(m: map<Cidr, seq<Cidr>>, ghost done: seq<Cidr>, subnets: seq<Cidr>, ips: seq<Cidr>)
    returns (r: map<Cidr, seq<Cidr>>)
    requires AllParse(done) && AllParse(ips) && AllValid(subnets) && Grouped(m, subnets, done)
    ensures Grouped(r, subnets, done + ips)
  {
    hide Grouped, Lookup, SubnetOf;
    r := m;
    assert done + ips[..0] == done;
    for i := 0 to |ips|
      invariant Grouped(r, subnets, done + ips[..i])
    {
      var subnet := FirstSubnet(subnets, ips[i]);
      GroupedStep(r, subnets, done + ips[..i], ips[i]);
      assert done + ips[..i] + [ips[i]] == done + ips[..i + 1];
      r := r[subnet := Lookup(r, subnet) + [ips[i]]];
    }
    assert done + ips[..|ips|] == done + ips;
  }

  lemma GroupedStep(m: map<Cidr, seq<Cidr>>, subnets: seq<Cidr>, ips: seq<Cidr>, ip: Cidr)
    requires AllParse(ips) && ip.Parses() && AllValid(subnets) && Grouped(m, subnets, ips)
    ensures Grouped(m[SubnetOf(subnets, ip) := Lookup(m, SubnetOf(subnets, ip)) + [ip]], subnets, ips + [ip])
  {
    FiledOneMore(subnets, ips, ip);
  }

  lemma FiledOneMore(subnets: seq<Cidr>, ips: seq<Cidr>, ip: Cidr)
    requires AllParse(ips) && ip.Parses() && AllValid(subnets)
    ensures AllParse(ips + [ip])
    ensures forall s :: FiledUnder(subnets, ips + [ip], s) ==
                        FiledUnder(subnets, ips, s) + if SubnetOf(subnets, ip) == s then [ip] else []
  {
    var more := ips + [ip];
    assert more[..|more| - 1] == ips;
  }

  /** Groups every interface and peer address by the first requested subnet that contains it. */
  method GetUsedIpsPerSubnet(subnets: seq<Cidr>, interfaceIps: seq<Cidr>, peerIps: seq<Cidr>)
    returns (r: map<Cidr, seq<Cidr>>)
    requires AllParse(interfaceIps) && AllParse(peerIps) && AllValid(subnets)
    ensures Grouped(r, subnets, interfaceIps + peerIps)
  {
    r := GroupBySubnet(map[], [], subnets, interfaceIps);
    assert [] + interfaceIps == interfaceIps;
    r := GroupBySubnet(r, interfaceIps, subnets, peerIps);
  }

  lemma {:induction false} FiledUnderMembers(subnets: seq<Cidr>, ips: seq<Cidr>, s: Cidr, ip: Cidr)
    requires AllParse(ips) && AllValid(subnets)
    ensures ip in FiledUnder(subnets, ips, s) <==> ip in ips && SubnetOf(subnets, ip) == s
  {
    if ips != [] {
      FiledUnderMembers(subnets, ips[..|ips| - 1], s, ip);
      assert ip in ips <==> ip in ips[..|ips| - 1] || ip == ips[|ips| - 1];
    }
  }

  /** Two addresses have the same text when family and number agree; the length is not part of it. */
  predicate SameAddr(a: Cidr, b: Cidr) {
    a.Cidr? && b.Cidr? && a.v4 == b.v4 && a.addr == b.addr
  }

  predicate AddrUsed(used: seq<Cidr>, v4: bool, addr: nat) {
    exists u <- used :: u.Cidr? && u.v4 == v4 && u.addr == addr
  }

  /** ip is the host form of the least address above the network's own address that is not used. */
  ghost predicate LeastFree(network: Cidr, used: seq<Cidr>, ip: Cidr)
    requires network.Valid()
  {
    && ip.Parses() && ip == ip.HostAddr() && ip.v4 == network.v4
    && network.addr < ip.addr && !AddrUsed(used, network.v4, ip.addr)
    && forall a :: network.addr < a < ip.addr ==> AddrUsed(used, network.v4, a)
  }

  /** One address: a prefix of the full width of its family. */
  predicate IsSingle(ip: Cidr) {
    ip.Cidr? && ip.len == if ip.v4 then 32 else 128
  }

  ghost predicate AllUsedAbove(network: Cidr, used: seq<Cidr>)
    requires network.Valid()
  {
    forall a :: network.addr < a < Pow2(network.Width()) ==> AddrUsed(used, network.v4, a)
  }

  /** The search for one network. None is the panic on parsing an address past the end of the
      family, which the source meets before its "exhausted" error can be returned. */
  method FreshPeerIp(network: Cidr, used: seq<Cidr>) returns (r: Option<Cidr>)
    requires network.Valid()
    ensures r.Some? ==> LeastFree(network, used, r.value) && IsSingle(r.value)
    ensures r.None? ==> AllUsedAbove(network, used)
  {
    var ip := network.NextAddr();
    while ip != NoCidr
      invariant ip != NoCidr ==> ip.Parses() && ip.v4 == network.v4 && network.addr < ip.addr
      invariant ip != NoCidr ==> forall a :: network.addr < a < ip.addr ==> AddrUsed(used, network.v4, a)
      invariant ip == NoCidr ==> AllUsedAbove(network, used)
      decreases if ip == NoCidr then -1 else Pow2(network.Width()) - ip.addr
    {
      var ipConflict := false;
      for i := 0 to |used|
        invariant !ipConflict && forall u <- used[..i] :: !SameAddr(u, ip)
      {
        if SameAddr(used[i], ip) {
          ipConflict := true;
          break;
        }
      }
      if !ipConflict {
        assert used[..|used|] == used;
        return Some(ip.HostAddr());
      }
      ip := ip.NextAddr();
    }
    return None;
  }

  ghost predicate Disjoint(networks: seq<Cidr>)
    requires AllValid(networks)
  {
    forall i, j, ip: Cidr :: 0 <= i < j < |networks| && ip.Parses() ==>
      !(networks[i].Contains(ip) && networks[j].Contains(ip))
  }

  /** Suggests one address per default network of an interface. */
  method GetFreshPeerIpConfig(networks: seq<Cidr>, interfaceIps: seq<Cidr>, peerIps: seq<Cidr>)
    returns (r: Option<seq<Cidr>>)
    requires AllParse(interfaceIps) && AllParse(peerIps) && AllValid(networks)
    ensures r.Some? ==> |r.value| == |networks|
    ensures r.Some? ==> forall i :: 0 <= i < |networks| ==>
      && LeastFree(networks[i], FiledUnder(networks, interfaceIps + peerIps, networks[i]), r.value[i])
      && IsSingle(r.value[i])
    ensures r.None? ==> exists n <- networks :: AllUsedAbove(n, FiledUnder(networks, interfaceIps + peerIps, n))
  {
    hide LeastFree, AllUsedAbove, IsSingle, FiledUnder, Lookup;
    var existingIps := GetUsedIpsPerSubnet(networks, interfaceIps, peerIps);
    var ips := [];
    for n := 0 to |networks|
      invariant |ips| == n
      invariant forall i :: 0 <= i < n ==>
        && LeastFree(networks[i], FiledUnder(networks, interfaceIps + peerIps, networks[i]), ips[i])
        && IsSingle(ips[i])
    {
      var ip := FreshPeerIp(networks[n], Lookup(existingIps, networks[n]));
      if ip.None? {
        return None;
      }
      ips := ips + [ip.value];
    }
    return Some(ips);
  }

  /** The search stays inside its subnet exactly when some address between the network's own
      address and its broadcast address is unused; otherwise it silently leaves the subnet. */
  lemma StaysInSubnet(network: Cidr, used: seq<Cidr>, ip: Cidr)
    requires network.Valid() && LeastFree(network, used, ip)
    ensures network.Contains(ip) <==>
            exists a :: network.addr < a <= network.Broadcast().addr && !AddrUsed(used, network.v4, a)
  {
    ContainsIsRange(network, ip);
    NetworkValue(network);
  }

  /** With disjoint networks, a suggestion inside its subnet collides with no peer or interface
      address at all, and suggestions inside different subnets differ. */
  lemma SuggestionsAreFresh(networks: seq<Cidr>, ips: seq<Cidr>, i: nat, j: nat, x: Cidr, y: Cidr)
    requires AllValid(networks) && AllParse(ips) && Disjoint(networks) && i < |networks| && j < |networks|
    requires LeastFree(networks[i], FiledUnder(networks, ips, networks[i]), x) && networks[i].Contains(x)
    requires LeastFree(networks[j], FiledUnder(networks, ips, networks[j]), y) && networks[j].Contains(y)
    ensures !AddrUsed(ips, x.v4, x.addr)
    ensures i != j ==> !SameAddr(x, y)
  {
    forall u | u in ips
      ensures !SameAddr(u, x)
    {
      FiledUnderMembers(networks, ips, networks[i], u);
      if networks[i].Contains(u) {
        FiledUnderContainer(networks, i, u);
      }
    }
  }

  lemma FiledUnderContainer(networks: seq<Cidr>, i: nat, u: Cidr)
    requires AllValid(networks) && Disjoint(networks) && i < |networks| && u.Parses() && networks[i].Contains(u)
    ensures SubnetOf(networks, u) == networks[i]
  {
    var s := SubnetOf(networks, u);
    var k :| 0 <= k < |networks| && networks[k] == s;
    assert networks[k].Contains(u);
  }

  // ---------- a fresh network per family for a new interface ----------

  predicate InUse(net: Cidr, used: seq<Cidr>)
    requires AllValid(used)
  {
    exists u <- used :: u.NetworkAddr() == net
  }

  /** The k-th network after net, or NoCidr once the family is exhausted. */
  ghost function NthSubnet(net: Cidr, k: nat): (r: Cidr)
    requires net.Valid()
    ensures r != NoCidr ==> r.Valid() && r.v4 == net.v4
  {
    if k == 0 then net
    else
      var p := NthSubnet(net, k - 1);
      if p == NoCidr then NoCidr else NextSubnetValue(p); p.NextSubnet()
  }

  /** The search from net passes k used networks and stops at n, or runs out of networks there. */
  ghost predicate Passes(net: Cidr, used: seq<Cidr>, k: nat, n: Cidr)
    requires net.Valid() && AllValid(used)
  {
    && NthSubnet(net, k) == n
    && forall j :: 0 <= j < k ==> NthSubnet(net, j) != NoCidr && InUse(NthSubnet(net, j), used)
  }

  /** The result of one search on its own: the first unused network, or NoCidr for the panic. */
  ghost predicate SearchEnds(net: Cidr, used: seq<Cidr>, n: Cidr)
    requires net.Valid() && AllValid(used)
  {
    (n == NoCidr || !InUse(n, used)) && exists k: nat :: Passes(net, used, k, n)
  }

  /** Where the search starts: the network of the first address after the configured network. */
  function StartNet(start: Cidr): (net: Cidr)
    requires start.Valid()
    ensures net != NoCidr ==> net.Valid()
  {
    if start.FirstAddr() == NoCidr then NoCidr else start.FirstAddr().NetworkAddr()
  }

  /** The search starts in the network of the configured address, or, when that is a single address, at
      the next one. */
  lemma StartNetValue(start: Cidr)
    requires start.Valid() && StartNet(start) != NoCidr
    ensures start.len < start.Width() ==> StartNet(start) == start.NetworkAddr()
    ensures start.len == start.Width() ==> StartNet(start) == Cidr(start.v4, start.addr + 1, start.len)
  {
    hide BitsOf, Val, Fill;
    NetworkValue(start);
    var d, first := Pow2(start.HostBits()), start.FirstAddr();
    NetworkValue(first);
    if start.len < start.Width() {
      assert d == 2 * Pow2(start.HostBits() - 1);
      DivModUnique(first.addr, d, start.addr / d, 1);
    }
  }

  method HasConflict(net: Cidr, used: seq<Cidr>) returns (conflict: bool)
    requires AllValid(used)
    ensures conflict == InUse(net, used)
  {
    conflict := false;
    for i := 0 to |used|
      invariant conflict == InUse(net, used[..i])
    {
      if used[i].NetworkAddr() == net {
        conflict := true;
      }
      assert used[..i + 1] == used[..i] + [used[i]];
    }
    assert used[..|used|] == used;
  }

  /** The joint search over both families. Each family moves only on its own conflict, so the result
      is that of two separate searches; the IPv6 network stays put when IPv6 is disabled. None is
      the panic on an address past the end of a family. */
  method GetFreshInterfaceIpConfig(startV4: Cidr, startV6: Cidr, useV6: bool, used: seq<Cidr>)
    returns (r: Option<(Cidr, Cidr)>, ghost netV4: Cidr, ghost netV6: Cidr)
    requires startV4.Valid() && startV6.Valid() && AllValid(used)
    ensures StartNet(startV4) == NoCidr || StartNet(startV6) == NoCidr ==> r.None?
    ensures r.Some? ==> netV4.Valid() && netV6.Valid() && r.value == (netV4.NextAddr(), netV6.NextAddr())
    ensures r.Some? && StartNet(startV4) != NoCidr ==> SearchEnds(StartNet(startV4), used, netV4)
    ensures r.Some? && StartNet(startV6) != NoCidr ==>
              if useV6 then SearchEnds(StartNet(startV6), used, netV6) else netV6 == StartNet(startV6)
    ensures StartNet(startV4) != NoCidr && StartNet(startV6) != NoCidr && r.None? ==>
              SearchEnds(StartNet(startV4), used, NoCidr) || (useV6 && SearchEnds(StartNet(startV6), used, NoCidr))
  {
    hide Pow2, InUse, Passes, Cidr.NextSubnet;
    netV4, netV6 := NoCidr, NoCidr;
    if startV4.FirstAddr() == NoCidr || startV6.FirstAddr() == NoCidr {
      return None, netV4, netV6;
    }
    ghost var s4, s6 := StartNet(startV4), StartNet(startV6);
    var v4, v6 := startV4.FirstAddr().NetworkAddr(), startV6.FirstAddr().NetworkAddr();
    ghost var k4: nat, k6: nat := 0, 0;
    StartsPassing(s4, used);
    StartsPassing(s6, used);
    while true
      invariant v4.Valid() && v6.Valid()
      invariant Passes(s4, used, k4, v4) && Passes(s6, used, k6, v6)
      invariant !useV6 ==> v6 == s6
      decreases Pow2(v4.Width()) - v4.addr + Pow2(v6.Width()) - v6.addr
    {
      var v4Conflict := HasConflict(v4, used);
      var v6Conflict := HasConflict(v6, used);
      if !v4Conflict && (!useV6 || !v6Conflict) {
        return Some((v4.NextAddr(), v6.NextAddr())), v4, v6;
      }
      if v4Conflict {
        PassOne(s4, used, k4, v4);
        v4 := v4.NextSubnet();
        k4 := k4 + 1;
      }
      if v6Conflict && useV6 {
        PassOne(s6, used, k6, v6);
        v6 := v6.NextSubnet();
        k6 := k6 + 1;
      }
      if v4 == NoCidr || (useV6 && v6 == NoCidr) {
        return None, NoCidr, NoCidr;
      }
    }
  }

  lemma StartsPassing(net: Cidr, used: seq<Cidr>)
    requires net.Valid() && AllValid(used)
    ensures Passes(net, used, 0, net)
  {
  }

  lemma PassOne(net: Cidr, used: seq<Cidr>, k: nat, n: Cidr)
    requires net.Valid() && AllValid(used) && n.Valid() && Passes(net, used, k, n) && InUse(n, used)
    ensures Passes(net, used, k + 1, n.NextSubnet())
    ensures n.NextSubnet() != NoCidr ==>
              n.NextSubnet().Valid() && n.NextSubnet().v4 == n.v4 && n.addr < n.NextSubnet().addr
  {
    NextSubnetValue(n);
    NetworkValue(n);
    assert n.addr % Pow2(n.HostBits()) < Pow2(n.HostBits());
  }

  /** A search has one result: success and exhaustion exclude each other. */
  lemma SearchDetermined(net: Cidr, used: seq<Cidr>, a: Cidr, b: Cidr)
    requires net.Valid() && AllValid(used)
    requires SearchEnds(net, used, a) && SearchEnds(net, used, b)
    ensures a == b
  {
    var i: nat :| Passes(net, used, i, a);
    var j: nat :| Passes(net, used, j, b);
    if i < j {
    } else if j < i {
    }
  }

  lemma Distribute(k: nat, d: nat)
    requires k > 0
    ensures k * d == (k - 1) * d + d
  {
  }

  /** From a network address, the networks visited are the equally long blocks laid end to end. */
  lemma {:induction false} NthSubnetValue(net: Cidr, k: nat)
    requires net.Valid() && net.NetworkAddr() == net && NthSubnet(net, k) != NoCidr
    ensures NthSubnet(net, k) == Cidr(net.v4, net.addr + k * Pow2(net.HostBits()), net.len)
    ensures NthSubnet(net, k).Valid() && NthSubnet(net, k).NetworkAddr() == NthSubnet(net, k)
  {
    if k > 0 {
      NthSubnetValue(net, k - 1);
      var p := NthSubnet(net, k - 1);
      NextSubnetValue(p);
      assert p.HostBits() == net.HostBits();
      Distribute(k, Pow2(net.HostBits()));
    }
  }
}
