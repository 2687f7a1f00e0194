/** Offers are honoured, agree with the acknowledgement that follows, and stay
    the same for a client that keeps renewing. */
module Offers {
  import opened Prelude
  import opened MacAddress
  import opened DhcpOptions
  import opened DhcpPackets
  import opened Cidr
  import opened Models
  import opened Database
  import Subnets
  import opened Engine
  import opened Invariant
  import opened Exclusivity
  import opened DynamicScan
  import opened Promises
  import opened Bindings

  /** The subnet table has the ids that the registry assigns. */
  ghost predicate RegisteredIds(net: Net) {
    Pairwise(Subnets.EarlierId, net.subnets)
  }

  lemma LookupById(net: Net, subnet: Subnet)
    requires RegisteredIds(net) && subnet in net.subnets && subnet.id.Some?
    ensures GetSubnet(net, subnet.id.value) == Some(subnet)
  {
    var k :| 0 <= k < |net.subnets| && net.subnets[k] == subnet;
    var want := SubnetHasId(subnet.id.value);
    assert want(subnet);
    var first := FirstMatch(want, net.subnets);
  }

  lemma SubnetOfId(net: Net, id: int)
    ensures GetSubnet(net, id).Some? ==> GetSubnet(net, id).value in net.subnets
  {
    FindSpec(SubnetHasId(id), net.subnets);
  }

  /** A REQUEST of this client for the address would be granted, now or at any later reading. */
  ghost predicate Available(s: State, mac: string, ip: u32, ifaceIps: seq<u32>) {
    var reserved := GetStaticIp(s.net, mac);
    if reserved.Some? then reserved.value.ipAddress == ip && Reachable(s.net, reserved.value.subnetId, ifaceIps)
    else
      && (exists r :: r in s.net.ranges && Covers(r, ip) && Reachable(s.net, r.subnetId, ifaceIps))
      && (forall l :: l in s.table.leases && l.ipAddress == ip && l.leaseEnd > s.clock ==> l.macAddress == mac)
  }

  /** The subnet whose parameters the acknowledgement carries. */
  function AckSubnet(net: Net, mac: string, ip: u32, ifaceIps: seq<u32>): Option<Subnet> {
    match GetStaticIp(net, mac)
    case Some(reserved) => GetSubnet(net, reserved.subnetId)
    case None =>
      match FindServingRange(net, ip, ifaceIps)
      case Some(range) => GetSubnet(net, range.subnetId)
      case None => None
  }

  /** An available address is acknowledged. */
  lemma AvailableIsAcked(s: State, packet: DhcpPacket, ifaceIps: seq<u32>, now: int, p: Pause, q: Pause, d: LeaseSeconds,
                         mac: string, ip: u32)
    requires Inv(s, d) && s.clock <= now && IsRequestFor(packet, mac, ip) && Available(s, mac, ip, ifaceIps)
    ensures var subnet := AckSubnet(s.net, mac, ip, ifaceIps);
            && subnet.Some? && IfaceInSubnet(ifaceIps, subnet.value)
            && Serve(s, packet, ifaceIps, now, p, q, d).1 == Some(CreateAck(packet, ip, subnet.value, d))
  {
    MacTextIsLower(packet.chaddr);
    ServedRequest(s, packet, ifaceIps, now, p, q, d);
    if GetStaticIp(s.net, mac).None? {
      var r :| r in s.net.ranges && Covers(r, ip) && Reachable(s.net, r.subnetId, ifaceIps);
      assert ServesAddress(s.net, ip, ifaceIps)(r);
      FoundRange(s.net, ip, ifaceIps);
      HolderInTable(s.table, s.clock, d, ip, now);
    }
  }

  /** Purges in between leave the address available. */
  lemma {:induction false} PurgesKeepAvailable(s: State, purges: seq<int>, d: LeaseSeconds, mac: string, ip: u32, ifaceIps: seq<u32>)
    requires Available(s, mac, ip, ifaceIps)
    ensures Available(After(s, PurgeEvents(purges), d), mac, ip, ifaceIps)
    decreases |purges|
  {
    if purges != [] {
      FilterMembers(NotPurgedAt(purges[0]), s.table.leases);
      PurgesKeepAvailable(Step(s, PurgeRun(purges[0]), d).0, purges[1..], d, mac, ip, ifaceIps);
    }
  }

  /** The subnet whose parameters an offer carries: reachable and registered. */
  ghost predicate OfferedFrom(net: Net, packet: DhcpPacket, ifaceIps: seq<u32>, d: LeaseSeconds, offer: DhcpPacket, subnet: Subnet) {
    subnet in net.subnets && IfaceInSubnet(ifaceIps, subnet) && offer == CreateOffer(packet, offer.yiaddr, subnet, d)
  }

  /** A reservation, if any, is on a subnet that this interface reaches. */
  predicate NoRemoteReservation(net: Net, mac: string, ifaceIps: seq<u32>) {
    GetStaticIp(net, mac).Some? ==> Reachable(net, GetStaticIp(net, mac).value.subnetId, ifaceIps)
  }

  lemma LookupOffers(s: State, packet: DhcpPacket, ifaceIps: seq<u32>, now: int, d: LeaseSeconds) returns (subnet: Subnet)
    requires Inv(s, d) && Fits(s) && s.clock <= now && NoRemoteReservation(s.net, ClientOf(packet), ifaceIps)
    requires OnDiscover(s.net, s.table.leases, packet, ifaceIps, d, now).reply.Some?
    ensures var offer := OnDiscover(s.net, s.table.leases, packet, ifaceIps, d, now).reply.value;
            && OfferedFrom(s.net, packet, ifaceIps, d, offer, subnet)
            && Available(s.(clock := now), ClientOf(packet), offer.yiaddr, ifaceIps)
  {
    var mac := ClientOf(packet);
    var reserved := GetStaticIp(s.net, mac);
    MacTextIsLower(packet.chaddr);
    if reserved.Some? {
      subnet := GetSubnet(s.net, reserved.value.subnetId).value;
      SubnetOfId(s.net, reserved.value.subnetId);
    } else {
      LookupInTable(s.table, s.clock, d, mac, now);
      var lease := GetActiveLease(s.table.leases, mac, now).value;
      subnet := GetSubnet(s.net, lease.subnetId).value;
      SubnetOfId(s.net, lease.subnetId);
      forall l | l in s.table.leases && l.ipAddress == lease.ipAddress && l.leaseEnd > now ensures l.macAddress == mac {
        ActiveIsUnique(s.table, s.clock, d, now, l, lease);
      }
    }
  }

  lemma ScanOffers(s: State, packet: DhcpPacket, ifaceIps: seq<u32>, now: int, d: LeaseSeconds) returns (subnet: Subnet)
    requires Inv(s, d) && RegisteredIds(s.net) && s.clock <= now && Unreserved(s.net, ClientOf(packet))
    requires Scan(s.net, s.table.leases, packet, ifaceIps, d, now).Some?
    ensures var offer := Scan(s.net, s.table.leases, packet, ifaceIps, d, now).value;
            && OfferedFrom(s.net, packet, ifaceIps, d, offer, subnet)
            && Available(s.(clock := now), ClientOf(packet), offer.yiaddr, ifaceIps)
  {
    ScanIsComplete(s.net, s.table.leases, packet, ifaceIps, d, now);
    var found := ScanSubnets(s.net.subnets, s.net.ranges, LeasedIps(s.table.leases, now), ifaceIps).value;
    subnet := found.1;
    LookupById(s.net, subnet);
    var r :| r in s.net.ranges && r.subnetId == subnet.id.value && Covers(r, found.0);
    assert Reachable(s.net, r.subnetId, ifaceIps);
  }

  lemma ServedDiscoverOffers(s: State, packet: DhcpPacket, ifaceIps: seq<u32>, now: int, p: Pause, q: Pause, d: LeaseSeconds)
    returns (subnet: Subnet)
    requires Inv(s, d) && Fits(s) && RegisteredIds(s.net) && s.task.Idle?
    requires Run(s, ServeEvents(s, packet, ifaceIps, now, p, q, d), d)
    requires IsDiscoverOf(packet, ClientOf(packet)) && NoRemoteReservation(s.net, ClientOf(packet), ifaceIps)
    requires Serve(s, packet, ifaceIps, now, p, q, d).1.Some?
    ensures var (t, offer) := Serve(s, packet, ifaceIps, now, p, q, d);
            OfferedFrom(s.net, packet, ifaceIps, d, offer.value, subnet)
            && Available(t, ClientOf(packet), offer.value.yiaddr, ifaceIps)
  {
    var s1 := Step(s, Receive(packet, ifaceIps, now), d).0;
    var o := OnDiscover(s.net, s.table.leases, packet, ifaceIps, d, now);
    ReceiveKeepsInv(s, packet, ifaceIps, now, d);
    if o.task.Idle? {
      subnet := LookupOffers(s, packet, ifaceIps, now, d);
    } else {
      var s2 := After(s1, PurgeEvents(p.purges), d);
      PurgesKeepTask(s1, p.purges, d);
      RunKeepsInv(s1, PurgeEvents(p.purges), d);
      ServeEventsRun(s, packet, ifaceIps, now, p, q, d);
      subnet := ScanOffers(s2, packet, ifaceIps, p.now, d);
    }
  }

  lemma ServeEventsRun(s: State, packet: DhcpPacket, ifaceIps: seq<u32>, now: int, p: Pause, q: Pause, d: LeaseSeconds)
    requires Run(s, ServeEvents(s, packet, ifaceIps, now, p, q, d), d)
    ensures Enabled(s, Receive(packet, ifaceIps, now))
    ensures var s1 := Step(s, Receive(packet, ifaceIps, now), d).0;
            !s1.task.Idle? ==> Enabled(After(s1, PurgeEvents(p.purges), d), Resume(p.now))
  {
    var s1 := Step(s, Receive(packet, ifaceIps, now), d).0;
    var s2 := After(s1, PauseEvents(s1, p), d);
    AfterFirst(s, Receive(packet, ifaceIps, now), PauseEvents(s1, p) + PauseEvents(s2, q), d);
    AfterAppend(s1, PauseEvents(s1, p), PauseEvents(s2, q), d);
    if !s1.task.Idle? {
      AfterAppend(s1, PurgeEvents(p.purges), [Resume(p.now)], d);
    }
  }

  /** An address offered to a client is acknowledged when the client requests it
      on the same interface before any other client is served, however much later,
      with purges of any readings anywhere in between. */
  lemma OffersAreHonoured(s: State, d: LeaseSeconds, ifaceIps: seq<u32>,
                          discover: DhcpPacket, now: int, p: Pause, q: Pause,
                          between: seq<int>,
                          request: DhcpPacket, now': int, p': Pause, q': Pause) returns (offered: Subnet)
    requires Inv(s, d) && Fits(s) && RegisteredIds(s.net) && s.task.Idle?
    requires NoRemoteReservation(s.net, ClientOf(discover), ifaceIps)
    requires IsDiscoverOf(discover, ClientOf(discover)) && Run(s, ServeEvents(s, discover, ifaceIps, now, p, q, d), d)
    requires Serve(s, discover, ifaceIps, now, p, q, d).1.Some?
    requires var (t, offer) := Serve(s, discover, ifaceIps, now, p, q, d);
             var u := After(t, PurgeEvents(between), d);
             IsRequestFor(request, ClientOf(discover), offer.value.yiaddr) && u.clock <= now'
    ensures var (t, offer) := Serve(s, discover, ifaceIps, now, p, q, d);
            var u := After(t, PurgeEvents(between), d);
            var granted := AckSubnet(s.net, ClientOf(discover), offer.value.yiaddr, ifaceIps);
            && OfferedFrom(s.net, discover, ifaceIps, d, offer.value, offered)
            && granted.Some? && granted.value in s.net.subnets && IfaceInSubnet(ifaceIps, granted.value)
            && Serve(u, request, ifaceIps, now', p', q', d).1 == Some(CreateAck(request, offer.value.yiaddr, granted.value, d))
  {
    var mac := ClientOf(discover);
    var (t, offer) := Serve(s, discover, ifaceIps, now, p, q, d);
    var ip := offer.value.yiaddr;
    offered := ServedDiscoverOffers(s, discover, ifaceIps, now, p, q, d);
    ServeIsRun(s, discover, ifaceIps, now, p, q, d);
    RunKeepsInv(s, ServeEvents(s, discover, ifaceIps, now, p, q, d), d);
    ServedDiscover(s, discover, ifaceIps, now, p, q, d);
    var u := After(t, PurgeEvents(between), d);
    PurgesKeepTask(t, between, d);
    RunKeepsInv(t, PurgeEvents(between), d);
    PurgesKeepAvailable(t, between, d, mac, ip, ifaceIps);
    AvailableIsAcked(u, request, ifaceIps, now', p', q', d, mac, ip);
    match GetStaticIp(s.net, mac) {
      case Some(reserved) => SubnetOfId(s.net, reserved.subnetId);
      case None => SubnetOfId(s.net, FindServingRange(s.net, ip, ifaceIps).value.subnetId);
    }
  }

  /** Whatever happens between offer and REQUEST, other than edits of the
      configuration: the offer to a client without a reservation stands exactly
      while no other client has an active lease of the address. */
  lemma OfferStandsIff(s: State, d: LeaseSeconds, ifaceIps: seq<u32>,
                       discover: DhcpPacket, now: int, p: Pause, q: Pause, between: seq<Event>,
                       request: DhcpPacket, now': int, p': Pause, q': Pause)
    requires Inv(s, d) && Fits(s) && RegisteredIds(s.net) && s.task.Idle? && Unreserved(s.net, ClientOf(discover))
    requires IsDiscoverOf(discover, ClientOf(discover)) && Run(s, ServeEvents(s, discover, ifaceIps, now, p, q, d), d)
    requires Serve(s, discover, ifaceIps, now, p, q, d).1.Some?
    requires var (t, offer) := Serve(s, discover, ifaceIps, now, p, q, d);
             var u := After(t, between, d);
             && Run(t, between, d) && NoEdits(between) && u.task.Idle? && u.clock <= now'
             && IsRequestFor(request, ClientOf(discover), offer.value.yiaddr)
    ensures var (t, offer) := Serve(s, discover, ifaceIps, now, p, q, d);
            var u := After(t, between, d);
            Serve(u, request, ifaceIps, now', p', q', d).1.Some?
            <==> forall l :: l in u.table.leases && l.ipAddress == offer.value.yiaddr && l.leaseEnd > now'
                   ==> l.macAddress == ClientOf(discover)
  {
    var (t, offer) := Serve(s, discover, ifaceIps, now, p, q, d);
    var mac, ip, u := ClientOf(discover), offer.value.yiaddr, After(t, between, d);
    var subnet := ServedDiscoverOffers(s, discover, ifaceIps, now, p, q, d);
    ServedStays(s, discover, ifaceIps, now, p, q, d);
    RunKeepsInv(t, between, d);
    RunKeepsFit(t, between, d);
    RequestGrantedIff(u, request, ifaceIps, now', p', q', d, ip);
    FreeOrOwnMeans(u.table, u.clock, d, now', ip, mac);
    var r :| r in s.net.ranges && Covers(r, ip) && Reachable(s.net, r.subnetId, ifaceIps);
    assert ServesAddress(u.net, ip, ifaceIps)(r);
  }

  /** Serving a DISCOVER keeps the invariants and the configuration. */
  lemma ServedStays(s: State, discover: DhcpPacket, ifaceIps: seq<u32>, now: int, p: Pause, q: Pause, d: LeaseSeconds)
    requires Inv(s, d) && Fits(s) && IsDiscoverOf(discover, ClientOf(discover))
    requires Run(s, ServeEvents(s, discover, ifaceIps, now, p, q, d), d)
    ensures var t := Serve(s, discover, ifaceIps, now, p, q, d).0; Inv(t, d) && Fits(t) && t.net == s.net && t.task.Idle?
  {
    ServeIsRun(s, discover, ifaceIps, now, p, q, d);
    RunKeepsInv(s, ServeEvents(s, discover, ifaceIps, now, p, q, d), d);
    ServedDiscover(s, discover, ifaceIps, now, p, q, d);
    PurgesShrink(s.table, p.purges);
  }

  lemma {:induction false} PurgesShrink(t: LeaseTable, purges: seq<int>)
    ensures forall l :: l in PurgeAll(t, purges).leases ==> l in t.leases
    decreases |purges|
  {
    if purges != [] {
      FilterMembers(NotPurgedAt(purges[0]), t.leases);
      PurgesShrink(Purge(t, purges[0]), purges[1..]);
    }
  }

  /** A client whose reservation is out of reach is refused every address here. */
  lemma RemoteReservationRefused(s: State, packet: DhcpPacket, ifaceIps: seq<u32>, now: int, p: Pause, q: Pause, d: LeaseSeconds)
    requires MessageTypeOf(packet.options) == Some(Request) && !NoRemoteReservation(s.net, ClientOf(packet), ifaceIps)
    ensures Serve(s, packet, ifaceIps, now, p, q, d).1 == None
  {
    MacTextIsLower(packet.chaddr);
    ServedRequest(s, packet, ifaceIps, now, p, q, d);
  }

  /** An offer is honoured exactly when the client has no reservation on a subnet
      out of reach: DISCOVER passes over such a reservation, REQUEST does not. */
  lemma OffersHonouredIff(s: State, d: LeaseSeconds, ifaceIps: seq<u32>,
                          discover: DhcpPacket, now: int, p: Pause, q: Pause, between: seq<int>,
                          request: DhcpPacket, now': int, p': Pause, q': Pause)
    requires Inv(s, d) && Fits(s) && RegisteredIds(s.net) && s.task.Idle?
    requires IsDiscoverOf(discover, ClientOf(discover)) && Run(s, ServeEvents(s, discover, ifaceIps, now, p, q, d), d)
    requires Serve(s, discover, ifaceIps, now, p, q, d).1.Some?
    requires var (t, offer) := Serve(s, discover, ifaceIps, now, p, q, d);
             var u := After(t, PurgeEvents(between), d);
             IsRequestFor(request, ClientOf(discover), offer.value.yiaddr) && u.clock <= now'
    ensures var u := After(Serve(s, discover, ifaceIps, now, p, q, d).0, PurgeEvents(between), d);
            Serve(u, request, ifaceIps, now', p', q', d).1.Some? <==> NoRemoteReservation(s.net, ClientOf(discover), ifaceIps)
  {
    if NoRemoteReservation(s.net, ClientOf(discover), ifaceIps) {
      var subnet := OffersAreHonoured(s, d, ifaceIps, discover, now, p, q, between, request, now', p', q');
    } else {
      var t := Serve(s, discover, ifaceIps, now, p, q, d).0;
      ServedDiscover(s, discover, ifaceIps, now, p, q, d);
      PurgesKeepTask(t, between, d);
      RemoteReservationRefused(After(t, PurgeEvents(between), d), request, ifaceIps, now', p', q', d);
    }
  }

  /** With disjoint subnets an interface with one address reaches at most one of them. */
  lemma OneReachableSubnet(net: Net, ifaceIp: u32, a: Subnet, b: Subnet)
    requires Pairwise(Subnets.Apart, net.subnets) && a in net.subnets && b in net.subnets
    requires IfaceInSubnet([ifaceIp], a) && IfaceInSubnet([ifaceIp], b)
    ensures a == b
  {
    var i :| 0 <= i < |net.subnets| && net.subnets[i] == a;
    var j :| 0 <= j < |net.subnets| && net.subnets[j] == b;
    OverlapIffShared(a.network, a.netmask, b.network, b.netmask);
    OverlapIffShared(b.network, b.netmask, a.network, a.netmask);
    assert Matches(ifaceIp, a.network, a.netmask) && Matches(ifaceIp, b.network, b.netmask);
  }

  /** OFFER and the following ACK then carry the same address and the parameters of the same subnet. */
  lemma OfferAndAckAgree(s: State, d: LeaseSeconds, ifaceIp: u32,
                         discover: DhcpPacket, now: int, p: Pause, q: Pause, between: seq<int>,
                         request: DhcpPacket, now': int, p': Pause, q': Pause) returns (subnet: Subnet)
    requires Inv(s, d) && Fits(s) && RegisteredIds(s.net) && s.task.Idle? && Pairwise(Subnets.Apart, s.net.subnets)
    requires NoRemoteReservation(s.net, ClientOf(discover), [ifaceIp])
    requires IsDiscoverOf(discover, ClientOf(discover)) && Run(s, ServeEvents(s, discover, [ifaceIp], now, p, q, d), d)
    requires Serve(s, discover, [ifaceIp], now, p, q, d).1.Some?
    requires var (t, offer) := Serve(s, discover, [ifaceIp], now, p, q, d);
             var u := After(t, PurgeEvents(between), d);
             IsRequestFor(request, ClientOf(discover), offer.value.yiaddr) && u.clock <= now'
    ensures var (t, offer) := Serve(s, discover, [ifaceIp], now, p, q, d);
            var ack := Serve(After(t, PurgeEvents(between), d), request, [ifaceIp], now', p', q', d).1;
            && offer.value == CreateOffer(discover, offer.value.yiaddr, subnet, d)
            && ack == Some(CreateAck(request, offer.value.yiaddr, subnet, d))
  {
    subnet := OffersAreHonoured(s, d, [ifaceIp], discover, now, p, q, between, request, now', p', q');
    var ip := Serve(s, discover, [ifaceIp], now, p, q, d).1.value.yiaddr;
    OneReachableSubnet(s.net, ifaceIp, subnet, AckSubnet(s.net, ClientOf(discover), ip, [ifaceIp]).value);
  }

  // ------------------------------------------------------------------
  // Address stability

  /** All active leases of the client are on this address, in subnets that the interface reaches. */
  ghost predicate Settled(s: State, mac: string, ip: u32, ifaceIps: seq<u32>) {
    && (forall l :: l in s.table.leases && l.macAddress == mac && l.leaseEnd > s.clock
          ==> l.ipAddress == ip && Reachable(s.net, l.subnetId, ifaceIps))
    && (s.task.Expiring? || s.task.Creating? ==>
          (s.task.grant.mac == mac ==> s.task.grant.ip == ip && Reachable(s.net, s.task.grant.subnetId, ifaceIps)))
  }

  /** The client requests nothing but this address, on this interface. */
  predicate OnlyRenews(es: seq<Event>, mac: string, ip: u32, ifaceIps: seq<u32>) {
    forall e :: e in es && e.Receive? && ClientOf(e.packet) == mac && MessageTypeOf(e.packet.options) == Some(Request)
      ==> RequestedIp(e.packet) == Some(ip) && e.ifaceIps == ifaceIps
  }

  lemma ReceiveKeepsSettled(s: State, e: Event, d: LeaseSeconds, mac: string, ip: u32, ifaceIps: seq<u32>)
    requires Settled(s, mac, ip, ifaceIps) && e.Receive? && s.clock <= e.now && OnlyRenews([e], mac, ip, ifaceIps)
    ensures Settled(Step(s, e, d).0, mac, ip, ifaceIps)
  {
    assert e in [e];
    MacTextIsLower(e.packet.chaddr);
    var o := Dispatch(s.net, s.table.leases, e.packet, e.ifaceIps, d, e.now);
    DispatchSuspends(s.net, s.table.leases, e.packet, e.ifaceIps, d, e.now);
    RequestSuspends(s.net, s.table.leases, e.packet, e.ifaceIps, d, e.now);
    RequestSubnet(s.net, s.table.leases, e.packet, e.ifaceIps, d, e.now);
    if o.task.Expiring? || o.task.Creating? {
      FoundRange(s.net, o.task.grant.ip, e.ifaceIps);
    }
  }

  lemma ResumeKeepsSettled(s: State, now: int, d: LeaseSeconds, mac: string, ip: u32, ifaceIps: seq<u32>)
    requires Settled(s, mac, ip, ifaceIps) && s.clock <= now
    ensures Settled(Step(s, Resume(now), d).0, mac, ip, ifaceIps)
  {
    match s.task {
      case Expiring(id, g) => FilterMembers(LeaseLacksId(id), s.table.leases);
      case Releasing(m, id) => FilterMembers(LeaseLacksId(id), s.table.leases);
      case _ =>
    }
  }

  lemma StepKeepsSettled(s: State, e: Event, d: LeaseSeconds, mac: string, ip: u32, ifaceIps: seq<u32>)
    requires Settled(s, mac, ip, ifaceIps) && Enabled(s, e) && !e.Reconfigure? && OnlyRenews([e], mac, ip, ifaceIps)
    ensures Settled(Step(s, e, d).0, mac, ip, ifaceIps) && Step(s, e, d).0.net == s.net
  {
    match e {
      case Receive(packet, ips, now) => ReceiveKeepsSettled(s, e, d, mac, ip, ifaceIps);
      case Resume(now) => ResumeKeepsSettled(s, now, d, mac, ip, ifaceIps);
      case PurgeRun(now) => FilterMembers(NotPurgedAt(now), s.table.leases);
    }
  }

  lemma {:induction false} RunKeepsSettled(s: State, es: seq<Event>, d: LeaseSeconds, mac: string, ip: u32, ifaceIps: seq<u32>)
    requires Settled(s, mac, ip, ifaceIps) && Run(s, es, d) && NoEdits(es) && OnlyRenews(es, mac, ip, ifaceIps)
    ensures Settled(After(s, es, d), mac, ip, ifaceIps) && After(s, es, d).net == s.net
    decreases |es|
  {
    if es != [] {
      assert es[0] in es && forall e :: e in es[1..] ==> e in es;
      StepKeepsSettled(s, es[0], d, mac, ip, ifaceIps);
      RunKeepsSettled(Step(s, es[0], d).0, es[1..], d, mac, ip, ifaceIps);
    }
  }

  /** A client without a reservation that only renews its address is offered that
      same address by every DISCOVER until it releases, its lease ends or a purge
      reads a time past that end, whatever the other clients do meanwhile. */
  lemma AddressIsStable(s: State, es: seq<Event>, d: LeaseSeconds, ifaceIps: seq<u32>, lease: Lease, discover: DhcpPacket, now: int)
    requires var mac := lease.macAddress;
             && Inv(s, d) && lease in s.table.leases && Unreserved(s.net, mac) && Settled(s, mac, lease.ipAddress, ifaceIps)
             && Run(s, es, d) && NoEdits(es) && OnlyRenews(es, mac, lease.ipAddress, ifaceIps) && NeverReleases(s, es, d, mac)
             && PurgesUpTo(es, lease.leaseEnd) && Enabled(After(s, es, d), Receive(discover, ifaceIps, now)) && IsDiscoverOf(discover, mac) && now < lease.leaseEnd
    ensures var reply := Step(After(s, es, d), Receive(discover, ifaceIps, now), d).1;
            reply.Some? && reply.value.yiaddr == lease.ipAddress && MessageTypeOf(reply.value.options) == Some(Offer)
  {
    var mac, ip := lease.macAddress, lease.ipAddress;
    var t := After(s, es, d);
    MacTextIsLower(discover.chaddr);
    RunKeepsSettled(s, es, d, mac, ip, ifaceIps);
    RunKeepsInv(s, es, d);
    RunKeepsHold(s, es, d, mac, ip, lease.leaseEnd);
    LookupInTable(t.table, t.clock, d, mac, now);
    var found := GetActiveLease(t.table.leases, mac, now);
    assert found.Some?;
    OfferIsNoAck(discover, ip, GetSubnet(t.net, found.value.subnetId).value, d);
  }

  // ------------------------------------------------------------------
  // Several leases for one client

  /** Active leases of a client. */
  function HeldBy(t: LeaseTable, mac: string, now: int): seq<Lease> {
    Filter(ActiveLeaseOf(mac, now), t.leases)
  }

  lemma NoneHeld(t: LeaseTable, mac: string, now: int)
    ensures HeldBy(t, mac, now) == [] <==> forall l :: l in t.leases && Lower(l.macAddress) == Lower(mac) ==> l.leaseEnd <= now
  {
    FilterMembers(ActiveLeaseOf(mac, now), t.leases);
    if HeldBy(t, mac, now) != [] {
      assert HeldBy(t, mac, now)[0] in HeldBy(t, mac, now);
    }
    forall l | l in t.leases && Lower(l.macAddress) == Lower(mac) && l.leaseEnd > now ensures HeldBy(t, mac, now) != [] {
      assert l in HeldBy(t, mac, now);
    }
  }

  /** A grant adds one active lease to the client's others; it leaves the client
      with a single one exactly when it held none on any other address. */
  lemma SingleLeaseIff(s: State, now: int, d: LeaseSeconds)
    requires Inv(s, d) && s.task.Creating? && s.clock <= now && d > 0
    ensures var mac, ip := s.task.grant.mac, s.task.grant.ip;
            var t := Step(s, Resume(now), d).0;
            && |HeldBy(t.table, mac, now)| == |HeldBy(s.table, mac, now)| + 1
            && (|HeldBy(t.table, mac, now)| == 1
                <==> forall l :: l in s.table.leases && l.macAddress == mac && l.ipAddress != ip ==> l.leaseEnd <= now)
  {
    var g := s.task.grant;
    var written := NewLease(g, d, now).(id := Some(s.table.nextId));
    MacTextIsLower(g.packet.chaddr);
    FilterAppend(ActiveLeaseOf(g.mac, now), s.table.leases, [written]);
    NoneHeld(s.table, g.mac, now);
  }

  /** Two requests in a row for different free addresses give one client two active leases. */
  lemma TwoLeasesForOneClient(net: Net, d: LeaseSeconds, client: Mac, ifaceIps: seq<u32>, a: u32, b: u32)
    requires a != b && d > 0 && Unreserved(net, MacToString(client))
    requires FindServingRange(net, a, ifaceIps).Some? && FindServingRange(net, b, ifaceIps).Some?
    ensures var at0 := Pause([], 0);
            var s := State(net, LeaseTable([], 1), Idle, 0);
            var t := Serve(s, RequestFor(client, a), ifaceIps, 0, at0, at0, d).0;
            |HeldBy(Serve(t, RequestFor(client, b), ifaceIps, 0, at0, at0, d).0.table, MacToString(client), 0)| == 2
  {
    var at0, mac := Pause([], 0), MacToString(client);
    var s := State(net, LeaseTable([], 1), Idle, 0);
    MacTextIsLower(client);
    ReadRequest(client, a);
    ReadRequest(client, b);
    ServedRequest(s, RequestFor(client, a), ifaceIps, 0, at0, at0, d);
    var t := Serve(s, RequestFor(client, a), ifaceIps, 0, at0, at0, d).0;
    assert |t.table.leases| == 1 && t.table.leases[0].ipAddress == a && t.table.leases[0].macAddress == mac;
    ServeIsRun(s, RequestFor(client, a), ifaceIps, 0, at0, at0, d);
    assert ActiveLeases(t.table.leases, 0) == t.table.leases;
    assert Find(OnAddress(b), t.table.leases) == None;
    ServedRequest(t, RequestFor(client, b), ifaceIps, 0, at0, at0, d);
    var u := Serve(t, RequestFor(client, b), ifaceIps, 0, at0, at0, d).0;
    assert u.table.leases == t.table.leases + [u.table.leases[1]];
    FilterAppend(ActiveLeaseOf(mac, 0), t.table.leases, [u.table.leases[1]]);
  }
}
