/** The dynamic scan of DISCOVER against its reference: the first free address
    of the pool, written out as one list. */
module DynamicScan {
  import opened Prelude
  import opened DhcpPackets
  import opened Models
  import opened Database
  import opened Engine

  // ------------------------------------------------------------------
  // The pool, in (subnet, range, ascending address) order

  function AddressesFrom(lo: int, hi: u32): seq<u32>
    requires 0 <= lo
    decreases hi + 1 - lo
  {
    if lo > hi then [] else [lo] + AddressesFrom(lo + 1, hi)
  }

  function RangeAddresses(ranges: seq<DynamicRange>): seq<u32> {
    if ranges == [] then []
    else (if ranges[0].enabled then AddressesFrom(ranges[0].rangeStart, ranges[0].rangeEnd) else []) + RangeAddresses(ranges[1..])
  }

  function SubnetAddresses(subnet: Subnet, ranges: seq<DynamicRange>, ifaceIps: seq<u32>): seq<u32> {
    if IfaceInSubnet(ifaceIps, subnet) && subnet.id.Some? then RangeAddresses(Filter(RangeOfSubnet(subnet.id.value), ranges))
    else []
  }

  function Tagged(addresses: seq<u32>, subnet: Subnet): seq<(u32, Subnet)> {
    if addresses == [] then [] else [(addresses[0], subnet)] + Tagged(addresses[1..], subnet)
  }

  function Pool(subnets: seq<Subnet>, ranges: seq<DynamicRange>, ifaceIps: seq<u32>): seq<(u32, Subnet)> {
    if subnets == [] then []
    else Tagged(SubnetAddresses(subnets[0], ranges, ifaceIps), subnets[0]) + Pool(subnets[1..], ranges, ifaceIps)
  }

  function NotLeased(leased: set<u32>): u32 -> bool {
    (ip: u32) => ip !in leased
  }

  function FreeCandidate(leased: set<u32>): ((u32, Subnet)) -> bool {
    (c: (u32, Subnet)) => c.0 !in leased
  }

  // ------------------------------------------------------------------
  // The scan is first fit

  lemma {:induction false} ScanAddressesIsFind(lo: int, hi: u32, leased: set<u32>)
    requires 0 <= lo
    ensures ScanAddresses(lo, hi, leased) == Find(NotLeased(leased), AddressesFrom(lo, hi))
    decreases hi + 1 - lo
  {
    if lo <= hi {
      ScanAddressesIsFind(lo + 1, hi, leased);
    }
  }

  lemma {:induction false} ScanRangesIsFind(ranges: seq<DynamicRange>, leased: set<u32>)
    ensures ScanRanges(ranges, leased) == Find(NotLeased(leased), RangeAddresses(ranges))
  {
    if ranges != [] {
      var r := ranges[0];
      ScanRangesIsFind(ranges[1..], leased);
      ScanAddressesIsFind(r.rangeStart, r.rangeEnd, leased);
      FindAppend(NotLeased(leased), if r.enabled then AddressesFrom(r.rangeStart, r.rangeEnd) else [], RangeAddresses(ranges[1..]));
    }
  }

  lemma {:induction false} FindTagged(addresses: seq<u32>, subnet: Subnet, leased: set<u32>)
    ensures var ip := Find(NotLeased(leased), addresses);
            Find(FreeCandidate(leased), Tagged(addresses, subnet)) == if ip.Some? then Some((ip.value, subnet)) else None
  {
    if addresses != [] {
      FindTagged(addresses[1..], subnet, leased);
    }
  }

  /** The loops offer the first address of the pool that is not leased. */
  lemma {:induction false} ScanIsFirstFit(subnets: seq<Subnet>, ranges: seq<DynamicRange>, leased: set<u32>, ifaceIps: seq<u32>)
    ensures ScanSubnets(subnets, ranges, leased, ifaceIps) == Find(FreeCandidate(leased), Pool(subnets, ranges, ifaceIps))
  {
    if subnets != [] {
      var subnet := subnets[0];
      var addresses := SubnetAddresses(subnet, ranges, ifaceIps);
      ScanIsFirstFit(subnets[1..], ranges, leased, ifaceIps);
      if subnet.id.Some? {
        ScanRangesIsFind(Filter(RangeOfSubnet(subnet.id.value), ranges), leased);
      }
      assert ScanSubnet(subnet, ranges, leased, ifaceIps) == Find(NotLeased(leased), addresses);
      FindTagged(addresses, subnet, leased);
      FindAppend(FreeCandidate(leased), Tagged(addresses, subnet), Pool(subnets[1..], ranges, ifaceIps));
    }
  }

  // ------------------------------------------------------------------
  // What the pool contains

  lemma {:induction false} AddressesFromMembers(lo: int, hi: u32)
    requires 0 <= lo
    ensures forall ip: u32 :: ip in AddressesFrom(lo, hi) <==> lo <= ip <= hi
    decreases hi + 1 - lo
  {
    if lo <= hi {
      AddressesFromMembers(lo + 1, hi);
    }
  }

  ghost predicate InSomeRange(ranges: seq<DynamicRange>, ip: u32) {
    exists r :: r in ranges && r.enabled && r.rangeStart <= ip <= r.rangeEnd
  }

  lemma {:induction false} RangeAddressesMembers(ranges: seq<DynamicRange>, ip: u32)
    ensures ip in RangeAddresses(ranges) <==> InSomeRange(ranges, ip)
  {
    if ranges != [] {
      var r := ranges[0];
      RangeAddressesMembers(ranges[1..], ip);
      AddressesFromMembers(r.rangeStart, r.rangeEnd);
      assert ranges == [r] + ranges[1..];
      if r.enabled && r.rangeStart <= ip <= r.rangeEnd {
        assert r in ranges;
      }
    }
  }

  lemma {:induction false} TaggedMembers(addresses: seq<u32>, subnet: Subnet, c: (u32, Subnet))
    ensures c in Tagged(addresses, subnet) <==> c.0 in addresses && c.1 == subnet
  {
    if addresses != [] {
      TaggedMembers(addresses[1..], subnet, c);
      assert addresses == [addresses[0]] + addresses[1..];
    }
  }

  /** The address lies in an enabled range of the given subnet, which the interface reaches. */
  ghost predicate Offerable(subnet: Subnet, ranges: seq<DynamicRange>, ifaceIps: seq<u32>, ip: u32) {
    IfaceInSubnet(ifaceIps, subnet) && subnet.id.Some?
    && exists r :: r in ranges && r.subnetId == subnet.id.value && r.enabled && r.rangeStart <= ip <= r.rangeEnd
  }

  lemma SubnetAddressesMembers(subnet: Subnet, ranges: seq<DynamicRange>, ifaceIps: seq<u32>, ip: u32)
    ensures ip in SubnetAddresses(subnet, ranges, ifaceIps) <==> Offerable(subnet, ranges, ifaceIps, ip)
  {
    if subnet.id.Some? {
      FilterMembers(RangeOfSubnet(subnet.id.value), ranges);
      RangeAddressesMembers(Filter(RangeOfSubnet(subnet.id.value), ranges), ip);
    }
  }

  lemma {:induction false} PoolMembers(subnets: seq<Subnet>, ranges: seq<DynamicRange>, ifaceIps: seq<u32>, c: (u32, Subnet))
    ensures c in Pool(subnets, ranges, ifaceIps) <==> c.1 in subnets && Offerable(c.1, ranges, ifaceIps, c.0)
  {
    if subnets != [] {
      PoolMembers(subnets[1..], ranges, ifaceIps, c);
      TaggedMembers(SubnetAddresses(subnets[0], ranges, ifaceIps), subnets[0], c);
      SubnetAddressesMembers(subnets[0], ranges, ifaceIps, c.0);
      assert subnets == [subnets[0]] + subnets[1..];
    }
  }

  // ------------------------------------------------------------------
  // Completeness

  ghost predicate ActivelyLeased(leases: seq<Lease>, ip: u32, now: int) {
    exists l :: l in leases && l.ipAddress == ip && l.leaseEnd > now
  }

  lemma LeasedIpsMembers(leases: seq<Lease>, now: int, ip: u32)
    ensures ip in LeasedIps(leases, now) <==> ActivelyLeased(leases, ip, now)
  {
    FilterMembers(ActiveAt(now), leases);
    if ActivelyLeased(leases, ip, now) {
      var l :| l in leases && l.ipAddress == ip && l.leaseEnd > now;
      assert l in ActiveLeases(leases, now);
    }
  }

  /** What the scan offers is a free address of an enabled range of a reachable
      subnet; it offers nothing exactly when every such address is leased. */
  lemma ScanIsComplete(net: Net, leases: seq<Lease>, packet: DhcpPacket, ifaceIps: seq<u32>, d: LeaseSeconds, now: int)
    ensures var found := ScanSubnets(net.subnets, net.ranges, LeasedIps(leases, now), ifaceIps);
            && (Scan(net, leases, packet, ifaceIps, d, now).Some? <==> found.Some?)
            && (found.Some? ==> found.value.1 in net.subnets && Offerable(found.value.1, net.ranges, ifaceIps, found.value.0)
                                && !ActivelyLeased(leases, found.value.0, now)
                                && Scan(net, leases, packet, ifaceIps, d, now) == Some(CreateOffer(packet, found.value.0, found.value.1, d)))
    ensures Scan(net, leases, packet, ifaceIps, d, now).None?
       <==> forall s, ip: u32 :: s in net.subnets && Offerable(s, net.ranges, ifaceIps, ip) ==> ActivelyLeased(leases, ip, now)
  {
    var leased := LeasedIps(leases, now);
    var pool := Pool(net.subnets, net.ranges, ifaceIps);
    var found := Find(FreeCandidate(leased), pool);
    ScanIsFirstFit(net.subnets, net.ranges, leased, ifaceIps);
    FindSpec(FreeCandidate(leased), pool);
    if found.Some? {
      PoolMembers(net.subnets, net.ranges, ifaceIps, found.value);
      LeasedIpsMembers(leases, now, found.value.0);
    } else {
      forall s, ip: u32 | s in net.subnets && Offerable(s, net.ranges, ifaceIps, ip) ensures ActivelyLeased(leases, ip, now) {
        PoolMembers(net.subnets, net.ranges, ifaceIps, (ip, s));
        assert !FreeCandidate(leased)((ip, s));
        LeasedIpsMembers(leases, now, ip);
      }
    }
  }

  // ------------------------------------------------------------------
  // Counting

  function Interval(lo: int, n: nat): (r: set<int>)
    ensures |r| == n && forall x :: x in r <==> lo <= x < lo + n
  {
    if n == 0 then {} else Interval(lo, n - 1) + {lo + n - 1}
  }

  lemma SubsetSize<T>(a: set<T>, b: set<T>)
    requires a <= b
    ensures |a| <= |b|
  {
    assert b == a + (b - a) && a !! (b - a);
  }

  lemma {:induction false} LeasedBelow(lo: int, hi: u32, leased: set<u32>)
    requires 0 <= lo
    ensures var r := ScanAddresses(lo, hi, leased);
            && (r.Some? ==> lo <= r.value <= hi && r.value !in leased && forall x: u32 :: lo <= x < r.value ==> x in leased)
            && (r.None? ==> forall x: u32 :: lo <= x <= hi ==> x in leased)
    decreases hi + 1 - lo
  {
    if lo <= hi && lo in leased {
      LeasedBelow(lo + 1, hi, leased);
    }
  }

  /** The scan of one range looks at no more addresses than there are leased ones, plus one. */
  lemma ScanIsShort(lo: u32, hi: u32, leased: set<u32>)
    ensures var r := ScanAddresses(lo, hi, leased);
            (if r.Some? then r.value - lo else hi + 1 - lo) <= |leased|
  {
    LeasedBelow(lo, hi, leased);
    var r := ScanAddresses(lo, hi, leased);
    var n: int := if r.Some? then r.value - lo else hi + 1 - lo;
    if n > 0 {
      var seen := Interval(lo, n);
      forall x | x in seen ensures x in leased {
        var y: u32 := x;
      }
      SubsetSize(seen, leased);
    }
  }

  lemma {:induction false} ImageSize(leases: seq<Lease>)
    ensures |set l | l in leases :: l.ipAddress| <= |leases|
  {
    if leases != [] {
      ImageSize(leases[1..]);
      var ips, rest := set l | l in leases :: l.ipAddress, set l | l in leases[1..] :: l.ipAddress;
      assert leases == [leases[0]] + leases[1..];
      assert ips == rest + {leases[0].ipAddress};
    }
  }

  /** With fewer active leases than distinct addresses in the pool, there is always an offer. */
  lemma EnoughAddressesMeansOffer(net: Net, leases: seq<Lease>, packet: DhcpPacket, ifaceIps: seq<u32>, d: LeaseSeconds, now: int)
    requires |ActiveLeases(leases, now)| < |set c | c in Pool(net.subnets, net.ranges, ifaceIps) :: c.0|
    ensures Scan(net, leases, packet, ifaceIps, d, now).Some?
  {
    var pool, leased := Pool(net.subnets, net.ranges, ifaceIps), LeasedIps(leases, now);
    ScanIsFirstFit(net.subnets, net.ranges, leased, ifaceIps);
    FindSpec(FreeCandidate(leased), pool);
    if Find(FreeCandidate(leased), pool).None? {
      forall c | c in pool ensures c.0 in leased {
        assert !FreeCandidate(leased)(c);
      }
      SubsetSize(set c | c in pool :: c.0, leased);
      ImageSize(ActiveLeases(leases, now));
    }
  }
}
