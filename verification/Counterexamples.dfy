/** Inputs at which the server does not do what one might expect: an offer that
    is not honoured, and a purge that turns a refusal into a grant. */
module Counterexamples {
  import opened Prelude
  import opened MacAddress
  import opened DhcpOptions
  import opened DhcpPackets
  import opened Bits
  import opened Cidr
  import opened Models
  import opened Database
  import opened Engine
  import opened Invariant
  import opened Exclusivity
  import opened PurgeInvisible
  import opened Promises
  import opened Offers
  import opened Answers

  function HostSubnet(id: int, ip: u32): Subnet {
    Subnet(Some(id), ip, 32, ip, [], None)
  }

  /** Two subnets of one address each; the address of the first can be leased. */
  function SmallNet(near: u32, far: u32, staticIps: seq<StaticIp>): Net {
    Net([HostSubnet(1, near), HostSubnet(2, far)], [DynamicRange(Some(1), 1, near, near, true)], staticIps)
  }

  function FreshServer(net: Net): State {
    State(net, LeaseTable([], 1), Idle, 0)
  }

  lemma HostBlock(ip: u32, prefix: u8)
    requires prefix == 32
    ensures Network(ip, prefix) == LastAddress(ip, prefix) == ip
  {
    BlockBounds(ip, prefix);
    assert HostBits(prefix) == 0 && Pow2(0) == 1;
  }

  /** A subnet of one address is reached by an interface with that address only. */
  lemma HostReached(id: int, ip: u32, ifaceIp: u32)
    ensures IfaceInSubnet([ifaceIp], HostSubnet(id, ip)) <==> ifaceIp == ip
  {
    var subnet := HostSubnet(id, ip);
    HostBlock(ip, subnet.netmask);
    MatchesIffInBlock(ifaceIp, ip, subnet.netmask);
    assert [ifaceIp][0] == ifaceIp;
  }

  lemma HostsApart(near: u32, far: u32)
    requires near != far
    ensures Subnets.Apart(HostSubnet(1, near), HostSubnet(2, far))
  {
    var a, b := HostSubnet(1, near), HostSubnet(2, far);
    HostBlock(near, a.netmask);
    HostBlock(far, b.netmask);
  }

  lemma SmallNetSubnets(near: u32, far: u32, staticIps: seq<StaticIp>)
    requires near != far
    ensures var net := SmallNet(near, far, staticIps);
            && Pairwise(Subnets.Apart, net.subnets) && RegisteredIds(net)
            && GetSubnet(net, 1) == Some(HostSubnet(1, near)) && GetSubnet(net, 2) == Some(HostSubnet(2, far))
            && Reachable(net, 1, [near]) && !Reachable(net, 2, [near])
  {
    HostsApart(near, far);
    HostReached(1, near, near);
    HostReached(2, far, near);
    var subnets := [HostSubnet(1, near), HostSubnet(2, far)];
    assert subnets[1..] == [HostSubnet(2, far)];
    assert Find(SubnetHasId(2), subnets) == Find(SubnetHasId(2), subnets[1..]) == Some(HostSubnet(2, far));
  }

  lemma SmallNetScan(near: u32, far: u32, staticIps: seq<StaticIp>)
    ensures var net := SmallNet(near, far, staticIps);
            ScanSubnets(net.subnets, net.ranges, {}, [near]) == Some((near, HostSubnet(1, near)))
  {
    var ranges := SmallNet(near, far, staticIps).ranges;
    HostReached(1, near, near);
    assert Filter(RangeOfSubnet(1), ranges) == ranges;
    assert ScanSubnet(HostSubnet(1, near), ranges, {}, [near]) == Some(near);
  }

  // ------------------------------------------------------------------
  // An offer that is not honoured

  function DiscoverOf(client: Mac): DhcpPacket {
    NewPacket().(chaddr := client, options := [MessageTypeOption(MessageType.Discover)])
  }

  /** A fresh server offers the first address of the pool to a client whose
      reservation is out of reach, and then refuses it, with nothing in between. */
  lemma RemoteReservationBreaksOffer(net: Net, d: LeaseSeconds, client: Mac, ifaceIps: seq<u32>)
    requires var own := GetStaticIp(net, MacToString(client));
             own.Some? && GetSubnet(net, own.value.subnetId).Some? && !Reachable(net, own.value.subnetId, ifaceIps)
    requires ScanSubnets(net.subnets, net.ranges, {}, ifaceIps).Some?
    ensures var s, at0 := FreshServer(net), Pause([], 0);
            var (ip, subnet) := ScanSubnets(net.subnets, net.ranges, {}, ifaceIps).value;
            var (t, offer) := Serve(s, DiscoverOf(client), ifaceIps, 0, at0, at0, d);
            && Run(s, ServeEvents(s, DiscoverOf(client), ifaceIps, 0, at0, at0, d), d)
            && t.table == s.table && offer == Some(CreateOffer(DiscoverOf(client), ip, subnet, d))
            && IsRequestFor(RequestFor(client, ip), MacToString(client), ip)
            && Serve(t, RequestFor(client, ip), ifaceIps, 0, at0, at0, d).1 == None
  {
    var s, at0, discover := FreshServer(net), Pause([], 0), DiscoverOf(client);
    var ip := ScanSubnets(net.subnets, net.ranges, {}, ifaceIps).value.0;
    assert OnDiscover(net, [], discover, ifaceIps, d, 0) == Outcome(Scanning(discover, ifaceIps), None);
    assert LeasedIps([], 0) == {};
    ServedDiscover(s, discover, ifaceIps, 0, at0, at0, d);
    ServingRuns(s, discover, ifaceIps, 0, at0, at0, d);
    ReadRequest(client, ip);
    RemoteReservationRefused(Serve(s, discover, ifaceIps, 0, at0, at0, d).0, RequestFor(client, ip), ifaceIps, 0, at0, at0, d);
  }

  /** Such a configuration exists: the client's reservation is out of reach, the near address is offered and refused. */
  lemma OfferIsRefused(d: LeaseSeconds, client: Mac, near: u32, far: u32)
    requires near != far
    ensures var net := SmallNet(near, far, [StaticIp(2, MacToString(client), far, None)]);
            var s, at0 := FreshServer(net), Pause([], 0);
            var (t, offer) := Serve(s, DiscoverOf(client), [near], 0, at0, at0, d);
            && Initial(s) && Inv(s, d) && Fits(s) && RegisteredIds(net) && Pairwise(Subnets.Apart, net.subnets)
            && offer == Some(CreateOffer(DiscoverOf(client), near, HostSubnet(1, near), d))
            && Serve(t, RequestFor(client, near), [near], 0, at0, at0, d).1 == None
  {
    var net := SmallNet(near, far, [StaticIp(2, MacToString(client), far, None)]);
    SmallNetSubnets(near, far, net.staticIps);
    SmallNetScan(near, far, net.staticIps);
    assert ReservedFor(MacToString(client))(net.staticIps[0]);
    RemoteReservationBreaksOffer(net, d, client, [near]);
  }

  // ------------------------------------------------------------------
  // A purge that is seen

  /** The state when the first client's lease has been written. */
  lemma FirstClientHolds(net: Net, d: LeaseSeconds, a: Mac, ip: u32, ifaceIps: seq<u32>) returns (t: State)
    requires Unreserved(net, MacToString(a)) && FindServingRange(net, ip, ifaceIps).Some?
    ensures var s, arrival := FreshServer(net), Receive(RequestFor(a, ip), ifaceIps, 0);
            && Enabled(s, arrival) && Enabled(Step(s, arrival, d).0, Resume(0))
            && t == Step(Step(s, arrival, d).0, Resume(0), d).0
    ensures t.net == net && t.task.Idle? && t.clock == 0 && |t.table.leases| == 1
    ensures var l := t.table.leases[0]; l.macAddress == MacToString(a) && l.ipAddress == ip && l.leaseEnd == d
  {
    RequestOnEmptyTable(net, d, a, ip, ifaceIps, 0);
    t := Step(Step(FreshServer(net), Receive(RequestFor(a, ip), ifaceIps, 0), d).0, Resume(0), d).0;
  }

  /** While the lease is in the table and active, the second client is refused at once. */
  lemma SecondClientRefused(t: State, d: LeaseSeconds, b: Mac, ip: u32, ifaceIps: seq<u32>, now: int)
    requires |t.table.leases| == 1 && Unreserved(t.net, MacToString(b))
    requires var l := t.table.leases[0]; l.ipAddress == ip && l.macAddress != MacToString(b) && now < l.leaseEnd
    ensures Dispatch(t.net, t.table.leases, RequestFor(b, ip), ifaceIps, d, now) == Done(None)
  {
    MacTextIsLower(b);
    ReadRequest(b, ip);
    assert ActiveLeases(t.table.leases, now) == t.table.leases;
  }

  lemma RepliesFirst(s: State, e: Event, rest: seq<Event>, d: LeaseSeconds)
    ensures Run(s, [e] + rest, d) <==> Enabled(s, e) && Run(Step(s, e, d).0, rest, d)
    ensures NoEarlyPurge(s, [e] + rest, d) <==> !PurgesEarly(s, [e] + rest) && NoEarlyPurge(Step(s, e, d).0, rest, d)
    ensures Replies(s, [e] + rest, d)
         == (if e.PurgeRun? then [] else [Step(s, e, d).1]) + Replies(Step(s, e, d).0, rest, d)
  {
    assert ([e] + rest)[1..] == rest;
  }

  /** A REQUEST that reads the clock at `d - 1`; before it reads the leases a purge
      comes in between, which reads `d + 1`, as does the rest of the REQUEST. */
  function SlippedPurge(d: LeaseSeconds, b: Mac, ip: u32, ifaceIps: seq<u32>): seq<Event> {
    [PurgeRun(d + 1)] + ([Receive(RequestFor(b, ip), ifaceIps, d - 1)] + ([Resume(d + 1)] + []))
  }

  lemma SlippedPurgeIsCausal(d: LeaseSeconds, b: Mac, ip: u32, ifaceIps: seq<u32>)
    ensures CausalPurges(SlippedPurge(d, b, ip, ifaceIps))
  {
    var es := SlippedPurge(d, b, ip, ifaceIps);
    assert es[0 + 1..] == [es[1], es[2]] && es[0 + 1..][1..] == [es[2]];
    assert ReadingsFrom([es[2]], d + 1);
    assert ReadingsAfterNext(es[0 + 1..], d + 1);
    forall k | 0 <= k < |es| && es[k].PurgeRun? ensures ReadingsAfterNext(es[k + 1..], es[k].now) {
      assert k == 0;
    }
  }

  /** With no lease in the table the request is granted. */
  lemma RequestGranted(t: State, d: LeaseSeconds, b: Mac, ip: u32, ifaceIps: seq<u32>)
    requires t.task.Idle? && t.clock <= d - 1 && t.table.leases == []
    requires Unreserved(t.net, MacToString(b)) && FindServingRange(t.net, ip, ifaceIps).Some?
    ensures var es := [Receive(RequestFor(b, ip), ifaceIps, d - 1)] + ([Resume(d + 1)] + []);
            Run(t, es, d) && exists subnet :: Replies(t, es, d) == [None, Some(CreateAck(RequestFor(b, ip), ip, subnet, d))]
  {
    var arrival, grant := Receive(RequestFor(b, ip), ifaceIps, d - 1), Resume(d + 1);
    RequestOnEmptyTable(t.net, d, b, ip, ifaceIps, d - 1);
    var asked := Step(t, arrival, d).0;
    RepliesFirst(t, arrival, [grant] + [], d);
    RepliesFirst(asked, grant, [], d);
    assert Step(asked, grant, d).1 == Some(CreateAck(RequestFor(b, ip), ip, asked.task.grant.subnet, d));
  }

  lemma PurgeThenRequest(t: State, d: LeaseSeconds, b: Mac, ip: u32, ifaceIps: seq<u32>)
    requires d > 0 && t.task.Idle? && t.clock == 0 && |t.table.leases| == 1 && t.table.leases[0].leaseEnd == d
    requires Unreserved(t.net, MacToString(b)) && FindServingRange(t.net, ip, ifaceIps).Some?
    ensures var es := SlippedPurge(d, b, ip, ifaceIps);
            && Run(t, es, d) && !NoEarlyPurge(t, es, d)
            && exists subnet :: Replies(t, es, d) == [None, Some(CreateAck(RequestFor(b, ip), ip, subnet, d))]
  {
    var purge := PurgeRun(d + 1);
    var rest := [Receive(RequestFor(b, ip), ifaceIps, d - 1)] + ([Resume(d + 1)] + []);
    var purged := Step(t, purge, d).0;
    assert purged.table.leases == [];
    RequestGranted(purged, d, b, ip, ifaceIps);
    RepliesFirst(t, purge, rest, d);
    assert t.table.leases[0] in t.table.leases && ([purge] + rest)[1..] == rest;
  }

  /** When a purge slips between the handler's reading of the clock and its reading
      of the leases, a second client is acknowledged an address that it is refused
      without the purge: at the handler's first reading the first lease still runs.
      The new lease starts only after the first one's end. */
  lemma EarlyPurgeChangesAnswer(net: Net, d: LeaseSeconds, a: Mac, b: Mac, ip: u32, ifaceIps: seq<u32>)
    returns (t: State, es: seq<Event>)
    requires a != b && d > 0 && Unreserved(net, MacToString(a)) && Unreserved(net, MacToString(b))
    requires FindServingRange(net, ip, ifaceIps).Some?
    ensures t == After(FreshServer(net), [Receive(RequestFor(a, ip), ifaceIps, 0), Resume(0)], d)
    ensures es == [PurgeRun(d + 1), Receive(RequestFor(b, ip), ifaceIps, d - 1), Resume(d + 1)]
    ensures Run(FreshServer(net), [Receive(RequestFor(a, ip), ifaceIps, 0), Resume(0)], d)
    ensures Run(t, es, d) && CausalPurges(es) && !NoEarlyPurge(t, es, d)
    ensures exists subnet :: Replies(t, es, d) == [None, Some(CreateAck(RequestFor(b, ip), ip, subnet, d))]
    ensures exists l :: l in t.table.leases && l.macAddress == MacToString(a) && l.ipAddress == ip && d - 1 < l.leaseEnd < d + 1
    ensures Enabled(t, es[1]) && Step(t, es[1], d) == (t.(clock := d - 1), None)
  {
    var s, arrival, grant := FreshServer(net), Receive(RequestFor(a, ip), ifaceIps, 0), Resume(0);
    t := FirstClientHolds(net, d, a, ip, ifaceIps);
    AfterFirst(s, arrival, [grant], d);
    AfterFirst(Step(s, arrival, d).0, grant, [], d);
    assert [arrival, grant] == [arrival] + ([grant] + []);
    MacTextInjective(a, b);
    SecondClientRefused(t, d, b, ip, ifaceIps, d - 1);
    PurgeThenRequest(t, d, b, ip, ifaceIps);
    SlippedPurgeIsCausal(d, b, ip, ifaceIps);
    es := SlippedPurge(d, b, ip, ifaceIps);
    assert t.table.leases[0] in t.table.leases;
  }
}
