/** What the server promises its clients while the operator leaves the
    configuration alone: reservations, offers that are honoured, stable addresses. */
module Promises {
  import opened Prelude
  import opened MacAddress
  import opened DhcpOptions
  import opened DhcpPackets
  import opened Models
  import opened Database
  import opened Engine
  import opened Invariant
  import opened Exclusivity

  // ------------------------------------------------------------------
  // Leases fit the configuration

  ghost predicate InEnabledRange(net: Net, subnetId: int, ip: u32) {
    exists r :: r in net.ranges && r.subnetId == subnetId && r.enabled && r.rangeStart <= ip <= r.rangeEnd
  }

  ghost predicate Unreserved(net: Net, mac: string) {
    GetStaticIp(net, mac).None?
  }

  ghost predicate FittingGrant(net: Net, g: Grant) {
    && Unreserved(net, g.mac) && InEnabledRange(net, g.subnetId, g.ip)
    && GetSubnet(net, g.subnetId) == Some(g.subnet)
  }

  /** No lease lies outside the enabled ranges, and none belongs to a client with a reservation. */
  ghost predicate Fits(s: State) {
    && (forall l :: l in s.table.leases ==> Unreserved(s.net, l.macAddress) && InEnabledRange(s.net, l.subnetId, l.ipAddress))
    && (s.task.Expiring? || s.task.Creating? ==> FittingGrant(s.net, s.task.grant))
  }

  predicate NoEdits(es: seq<Event>) {
    forall e :: e in es ==> !e.Reconfigure?
  }

  lemma FoundRange(net: Net, ip: u32, ifaceIps: seq<u32>)
    ensures FindServingRange(net, ip, ifaceIps).Some? <==> exists r :: r in net.ranges && ServesAddress(net, ip, ifaceIps)(r)
    ensures var r := FindServingRange(net, ip, ifaceIps);
            r.Some? ==> r.value in net.ranges && Covers(r.value, ip) && Reachable(net, r.value.subnetId, ifaceIps)
  {
    FindSpec(ServesAddress(net, ip, ifaceIps), net.ranges);
  }

  lemma ReceiveKeepsFit(s: State, packet: DhcpPacket, ifaceIps: seq<u32>, now: int, d: LeaseSeconds)
    requires Fits(s)
    ensures Fits(Step(s, Receive(packet, ifaceIps, now), d).0)
  {
    var o := Dispatch(s.net, s.table.leases, packet, ifaceIps, d, now);
    DispatchSuspends(s.net, s.table.leases, packet, ifaceIps, d, now);
    RequestSuspends(s.net, s.table.leases, packet, ifaceIps, d, now);
    RequestSubnet(s.net, s.table.leases, packet, ifaceIps, d, now);
    if o.task.Expiring? || o.task.Creating? {
      FoundRange(s.net, o.task.grant.ip, ifaceIps);
    }
  }

  lemma ResumeKeepsFit(s: State, now: int, d: LeaseSeconds)
    requires Fits(s)
    ensures Fits(Step(s, Resume(now), d).0)
  {
    match s.task {
      case Expiring(id, g) => FilterMembers(LeaseLacksId(id), s.table.leases);
      case Releasing(mac, id) => FilterMembers(LeaseLacksId(id), s.table.leases);
      case _ =>
    }
  }

  lemma StepKeepsFit(s: State, e: Event, d: LeaseSeconds)
    requires Fits(s) && !e.Reconfigure?
    ensures Fits(Step(s, e, d).0) && Step(s, e, d).0.net == s.net
  {
    match e {
      case Receive(packet, ifaceIps, now) => ReceiveKeepsFit(s, packet, ifaceIps, now, d);
      case Resume(now) => ResumeKeepsFit(s, now, d);
      case PurgeRun(now) => FilterMembers(NotPurgedAt(now), s.table.leases);
    }
  }

  lemma {:induction false} RunKeepsFit(s: State, es: seq<Event>, d: LeaseSeconds)
    requires Fits(s) && Run(s, es, d) && NoEdits(es)
    ensures Fits(After(s, es, d)) && After(s, es, d).net == s.net
    decreases |es|
  {
    if es != [] {
      assert es[0] in es && forall e :: e in es[1..] ==> e in es;
      StepKeepsFit(s, es[0], d);
      RunKeepsFit(Step(s, es[0], d).0, es[1..], d);
    }
  }

  // ------------------------------------------------------------------
  // Messages of one client

  predicate IsRequestFor(packet: DhcpPacket, mac: string, ip: u32) {
    MessageTypeOf(packet.options) == Some(Request) && ClientOf(packet) == mac && RequestedIp(packet) == Some(ip)
  }

  predicate IsDiscoverOf(packet: DhcpPacket, mac: string) {
    MessageTypeOf(packet.options) == Some(MessageType.Discover) && ClientOf(packet) == mac
  }

  function RequestFor(client: Mac, ip: u32): DhcpPacket {
    NewPacket().(chaddr := client, options := [MessageTypeOption(Request), RequestedIpAddress(ip)])
  }

  lemma ReadRequest(client: Mac, ip: u32)
    ensures IsRequestFor(RequestFor(client, ip), MacToString(client), ip)
  {
    var options := RequestFor(client, ip).options;
    assert options[1..][0] == RequestedIpAddress(ip);
    assert RequestedOption(options[1..]) == Some(ip);
  }

  /** Before any lease is written a client without a reservation is granted any address in range. */
  lemma RequestOnEmptyTable(net: Net, d: LeaseSeconds, client: Mac, ip: u32, ifaceIps: seq<u32>, now: int)
    requires Unreserved(net, MacToString(client)) && FindServingRange(net, ip, ifaceIps).Some?
    ensures var o := Dispatch(net, [], RequestFor(client, ip), ifaceIps, d, now);
            o.task.Creating? && o.task.grant.ip == ip && o.task.grant.packet == RequestFor(client, ip)
            && o.task.grant.mac == MacToString(client)
  {
    MacTextIsLower(client);
    ReadRequest(client, ip);
    assert ActiveLeases([], now) == [];
  }

  // ------------------------------------------------------------------
  // Where acknowledgements come from

  /** The step acknowledges `ip` to `mac`. */
  predicate Acks(s: State, e: Event, d: LeaseSeconds, mac: string, ip: u32) {
    var reply := Step(s, e, d).1;
    reply.Some? && MessageTypeOf(reply.value.options) == Some(Ack) && ClientOf(reply.value) == mac && reply.value.yiaddr == ip
  }

  lemma OfferIsNoAck(packet: DhcpPacket, ip: u32, subnet: Subnet, d: LeaseSeconds)
    ensures MessageTypeOf(CreateOffer(packet, ip, subnet, d).options) == Some(Offer)
    ensures MessageTypeOf(CreateAck(packet, ip, subnet, d).options) == Some(Ack)
  {
  }

  /** What is sent when a packet arrives: an offer, or the acknowledgement of a reservation. */
  lemma ReplyOnReceive(s: State, packet: DhcpPacket, ifaceIps: seq<u32>, d: LeaseSeconds, now: int)
    requires Dispatch(s.net, s.table.leases, packet, ifaceIps, d, now).reply.Some?
    ensures var reply := Dispatch(s.net, s.table.leases, packet, ifaceIps, d, now).reply.value;
            || MessageTypeOf(reply.options) == Some(Offer)
            || (var own := GetStaticIp(s.net, Lower(ClientOf(packet)));
                own.Some? && reply.chaddr == packet.chaddr && reply.yiaddr == own.value.ipAddress)
  {
    match MessageTypeOf(packet.options) {
      case Some(Discover) => OffersOnly(s, packet, ifaceIps, d, now);
      case Some(Request) => RequestSuspends(s.net, s.table.leases, packet, ifaceIps, d, now);
      case _ =>
    }
  }

  lemma OffersOnly(s: State, packet: DhcpPacket, ifaceIps: seq<u32>, d: LeaseSeconds, now: int)
    ensures var reply := OnDiscover(s.net, s.table.leases, packet, ifaceIps, d, now).reply;
            reply.Some? ==> MessageTypeOf(reply.value.options) == Some(Offer)
  {
  }

  /** What is sent when a handler goes on: an offer, or the acknowledgement of the lease it writes. */
  lemma ReplyOnResume(s: State, d: LeaseSeconds, now: int)
    requires Continue(s, d, now).1.reply.Some?
    ensures var reply := Continue(s, d, now).1.reply.value;
            || (s.task.Scanning? && MessageTypeOf(reply.options) == Some(Offer))
            || (s.task.Creating? && reply.chaddr == s.task.grant.packet.chaddr && reply.yiaddr == s.task.grant.ip)
  {
    if s.task.Scanning? {
      var found := ScanSubnets(s.net.subnets, s.net.ranges, LeasedIps(s.table.leases, now), s.task.ifaceIps);
      OfferIsNoAck(s.task.request, found.value.0, found.value.1, d);
    }
  }

  /** An acknowledged address is the client's reservation, or a lease is written with the acknowledgement. */
  lemma AckSources(s: State, e: Event, d: LeaseSeconds, mac: string, ip: u32)
    requires Inv(s, d) && Enabled(s, e) && Acks(s, e, d, mac, ip)
    ensures GrantsTo(s, e, mac, ip) || (GetStaticIp(s.net, mac).Some? && GetStaticIp(s.net, mac).value.ipAddress == ip)
  {
    match e {
      case Receive(packet, ifaceIps, now) =>
        MacTextIsLower(packet.chaddr);
        ReplyOnReceive(s, packet, ifaceIps, d, now);
      case Resume(now) => ReplyOnResume(s, d, now);
      case _ =>
    }
  }

  /** A dynamic grant is acknowledged to its client with its address. */
  lemma GrantIsAck(s: State, e: Event, d: LeaseSeconds, mac: string, ip: u32)
    requires Inv(s, d) && GrantsTo(s, e, mac, ip)
    ensures Acks(s, e, d, mac, ip)
  {
    OfferIsNoAck(s.task.grant.packet, ip, s.task.grant.subnet, d);
  }

  /** To a client without a reservation, acknowledging an address and writing a lease of it are the same step. */
  lemma AckIffGrant(s: State, e: Event, d: LeaseSeconds, mac: string, ip: u32)
    requires Inv(s, d) && Enabled(s, e) && Unreserved(s.net, mac)
    ensures Acks(s, e, d, mac, ip) <==> GrantsTo(s, e, mac, ip)
  {
    if Acks(s, e, d, mac, ip) {
      AckSources(s, e, d, mac, ip);
    }
    if GrantsTo(s, e, mac, ip) {
      GrantIsAck(s, e, d, mac, ip);
    }
  }

  predicate IsReleaseOf(e: Event, mac: string) {
    e.Receive? && MessageTypeOf(e.packet.options) == Some(MessageType.Release) && ClientOf(e.packet) == mac
  }

  /** Before a release is carried out, the client's RELEASE has arrived. */
  lemma {:induction false} ReleaseArrived(s: State, es: seq<Event>, d: LeaseSeconds, mac: string, k: nat) returns (arrival: nat)
    requires k <= |es| && !s.task.Releasing?
    requires var task := After(s, es[..k], d).task; task.Releasing? && task.mac == mac
    ensures arrival < k && IsReleaseOf(es[arrival], mac)
  {
    assert k > 0;
    var before := After(s, es[..k - 1], d);
    assert es[..k] == es[..k - 1] + [es[k - 1]];
    AfterAppend(s, es[..k - 1], [es[k - 1]], d);
    AfterFirst(before, es[k - 1], [], d);
    if es[k - 1].Receive? {
      DispatchSuspends(before.net, before.table.leases, es[k - 1].packet, es[k - 1].ifaceIps, d, es[k - 1].now);
      arrival := k - 1;
    } else {
      arrival := ReleaseArrived(s, es, d, mac, k - 1);
    }
  }

  /** Between a grant and a later release the RELEASE has arrived. */
  lemma ArrivalBetween(s: State, es: seq<Event>, d: LeaseSeconds, i: nat, k: nat, mac: string, ip: u32) returns (arrival: nat)
    requires i < k < |es| && GrantsTo(After(s, es[..i], d), es[i], mac, ip) && Releases(After(s, es[..k], d), es[k], mac)
    ensures i < arrival < k && IsReleaseOf(es[arrival], mac)
  {
    var granted, rest := Step(After(s, es[..i], d), es[i], d).0, es[i + 1..];
    LaterState(s, es, d, i, k - i - 1);
    var a := ReleaseArrived(granted, rest, d, mac, k - i - 1);
    assert es[i + 1 + a] == rest[a];
    arrival := i + 1 + a;
  }

  lemma AckedIsGranted(s: State, es: seq<Event>, d: LeaseSeconds, k: nat, mac: string, ip: u32)
    requires Initial(s) && Run(s, es, d) && NoEdits(es) && k < |es| && Unreserved(s.net, mac)
    requires Acks(After(s, es[..k], d), es[k], d, mac, ip)
    ensures GrantsTo(After(s, es[..k], d), es[k], mac, ip)
  {
    ReachState(s, es, d, k);
    AckIffGrant(After(s, es[..k], d), es[k], d, mac, ip);
  }

  /** Exclusivity in terms of packets: if a run acknowledges an address to two
      clients in turn, neither with a reservation, then in between the first
      client's lease time ran out, or its RELEASE arrived and was carried out. */
  lemma AcknowledgedExclusively(s: State, es: seq<Event>, d: LeaseSeconds, i: nat, j: nat, mac: string, mac': string, ip: u32)
    requires Initial(s) && Run(s, es, d) && NoEdits(es) && CausalPurges(es) && i < j < |es|
    requires mac != mac' && Unreserved(s.net, mac) && Unreserved(s.net, mac')
    requires Acks(After(s, es[..i], d), es[i], d, mac, ip) && Acks(After(s, es[..j], d), es[j], d, mac', ip)
    ensures es[i].Resume? && es[j].Resume?
    ensures || es[j].now >= es[i].now + d
            || exists arrival, k :: i < arrival < k < j && IsReleaseOf(es[arrival], mac) && Releases(After(s, es[..k], d), es[k], mac)
  {
    AckedIsGranted(s, es, d, i, mac, ip);
    AckedIsGranted(s, es, d, j, mac', ip);
    Exclusivity.Exclusivity(s, es, d, i, j, mac, mac', ip);
    if k :| i < k < j && Releases(After(s, es[..k], d), es[k], mac) {
      var arrival := ArrivalBetween(s, es, d, i, k, mac, ip);
    }
  }

  // ------------------------------------------------------------------
  // Reservations

  predicate DifferentReservations(a: StaticIp, b: StaticIp) {
    a.ipAddress != b.ipAddress && Lower(a.macAddress) != Lower(b.macAddress)
  }

  /** Addresses and clients occur once among the reservations, and no reserved address lies in an enabled range. */
  ghost predicate SeparateReservations(net: Net) {
    && Pairwise(DifferentReservations, net.staticIps)
    && forall r, s :: r in net.ranges && s in net.staticIps ==> !Covers(r, s.ipAddress)
  }

  lemma OwnReservation(net: Net, mac: string)
    ensures GetStaticIp(net, mac).Some?
        ==> GetStaticIp(net, mac).value in net.staticIps && Lower(GetStaticIp(net, mac).value.macAddress) == Lower(mac)
    ensures GetStaticIp(net, mac).None? <==> forall s :: s in net.staticIps ==> Lower(s.macAddress) != Lower(mac)
  {
    FindSpec(ReservedFor(mac), net.staticIps);
    forall s | s in net.staticIps && Lower(s.macAddress) == Lower(mac) ensures GetStaticIp(net, mac).Some? {
      assert ReservedFor(mac)(s);
    }
  }

  lemma SameReservation(net: Net, a: StaticIp, b: StaticIp)
    requires Pairwise(DifferentReservations, net.staticIps) && a in net.staticIps && b in net.staticIps && a.ipAddress == b.ipAddress
    ensures a == b
  {
    var i :| 0 <= i < |net.staticIps| && net.staticIps[i] == a;
    var j :| 0 <= j < |net.staticIps| && net.staticIps[j] == b;
  }

  /** With separate reservations no run acknowledges an address to a client while
      another client has it reserved or actively leased. */
  lemma GrantsNeverClash(s: State, es: seq<Event>, d: LeaseSeconds, k: nat, mac: string, ip: u32)
    requires Initial(s) && Run(s, es, d) && NoEdits(es) && SeparateReservations(s.net) && k < |es|
    requires Acks(After(s, es[..k], d), es[k], d, mac, ip)
    ensures forall r :: r in s.net.staticIps && r.ipAddress == ip ==> Lower(r.macAddress) == mac
    ensures var t := After(s, es[..k], d);
            forall l :: l in t.table.leases && l.ipAddress == ip && l.leaseEnd > t.clock ==> l.macAddress == mac
  {
    ReachState(s, es, d, k);
    var t := After(s, es[..k], d);
    var own := GetStaticIp(t.net, mac);
    AckSources(t, es[k], d, mac, ip);
    ClientsAreLower(t, es[k], d, mac, ip);
    OwnReservation(t.net, mac);
    if own.Some? && own.value.ipAddress == ip {
      forall r | r in s.net.staticIps && r.ipAddress == ip ensures Lower(r.macAddress) == mac {
        SameReservation(s.net, r, own.value);
      }
    }
  }

  lemma ReachState(s: State, es: seq<Event>, d: LeaseSeconds, k: nat)
    requires Initial(s) && Run(s, es, d) && NoEdits(es) && k < |es|
    ensures var t := After(s, es[..k], d); Inv(t, d) && Fits(t) && t.net == s.net && Enabled(t, es[k])
  {
    SplitRun(s, es, d, k);
    RunKeepsInv(s, es[..k], d);
    RunKeepsFit(s, es[..k], d);
  }

  lemma ClientsAreLower(s: State, e: Event, d: LeaseSeconds, mac: string, ip: u32)
    requires Acks(s, e, d, mac, ip)
    ensures Lower(mac) == mac
  {
    MacTextIsLower(Step(s, e, d).1.value.chaddr);
  }

  /** A client with a reservation never holds a lease. */
  lemma ReservedClientsHoldNoLease(s: State, es: seq<Event>, d: LeaseSeconds, l: Lease)
    requires Initial(s) && Run(s, es, d) && NoEdits(es) && l in After(s, es, d).table.leases
    ensures Unreserved(s.net, l.macAddress)
  {
    RunKeepsFit(s, es, d);
  }

  /** A reachable reservation is what its client is offered, whatever leases exist. */
  lemma ReservationIsOffered(s: State, packet: DhcpPacket, ifaceIps: seq<u32>, now: int, p: Pause, q: Pause, d: LeaseSeconds)
    requires MessageTypeOf(packet.options) == Some(MessageType.Discover)
    requires GetStaticIp(s.net, ClientOf(packet)).Some?
    requires Reachable(s.net, GetStaticIp(s.net, ClientOf(packet)).value.subnetId, ifaceIps)
    ensures var own := GetStaticIp(s.net, ClientOf(packet)).value;
            var (t, reply) := Serve(s, packet, ifaceIps, now, p, q, d);
            t.table == s.table && reply == Some(CreateOffer(packet, own.ipAddress, GetSubnet(s.net, own.subnetId).value, d))
  {
    ServedDiscover(s, packet, ifaceIps, now, p, q, d);
  }

  /** A client with a reservation is acknowledged that address and no other, where
      its subnet is reachable and nowhere else, and no lease is written. */
  lemma ReservedRequestIff(s: State, packet: DhcpPacket, ifaceIps: seq<u32>, now: int, p: Pause, q: Pause, d: LeaseSeconds)
    requires MessageTypeOf(packet.options) == Some(Request) && GetStaticIp(s.net, ClientOf(packet)).Some?
    ensures var reserved := GetStaticIp(s.net, ClientOf(packet)).value;
            var (t, reply) := Serve(s, packet, ifaceIps, now, p, q, d);
            && t.table == s.table
            && (reply.Some? <==> RequestedIp(packet) == Some(reserved.ipAddress) && Reachable(s.net, reserved.subnetId, ifaceIps))
            && (reply.Some? ==>
                  reply.value == CreateAck(packet, reserved.ipAddress, GetSubnet(s.net, reserved.subnetId).value, d))
  {
    MacTextIsLower(packet.chaddr);
    ServedRequest(s, packet, ifaceIps, now, p, q, d);
  }

  /** Whatever a run has done before, a client with a reachable reservation is
      offered its address and acknowledged it, and the leases stay as they are. */
  lemma ReservedClientIsServed(s: State, es: seq<Event>, d: LeaseSeconds,
                               packet: DhcpPacket, ifaceIps: seq<u32>, now: int, p: Pause, q: Pause)
    requires Initial(s) && Run(s, es, d) && NoEdits(es)
    requires var own := GetStaticIp(s.net, ClientOf(packet)); own.Some? && Reachable(s.net, own.value.subnetId, ifaceIps)
    requires var ip := GetStaticIp(s.net, ClientOf(packet)).value.ipAddress;
             IsDiscoverOf(packet, ClientOf(packet)) || IsRequestFor(packet, ClientOf(packet), ip)
    ensures var own := GetStaticIp(s.net, ClientOf(packet)).value;
            var subnet := GetSubnet(s.net, own.subnetId).value;
            var (t, reply) := Serve(After(s, es, d), packet, ifaceIps, now, p, q, d);
            && t.table == After(s, es, d).table
            && reply == Some(if IsDiscoverOf(packet, ClientOf(packet)) then CreateOffer(packet, own.ipAddress, subnet, d)
                             else CreateAck(packet, own.ipAddress, subnet, d))
  {
    RunKeepsFit(s, es, d);
    if IsDiscoverOf(packet, ClientOf(packet)) {
      ReservationIsOffered(After(s, es, d), packet, ifaceIps, now, p, q, d);
    } else {
      ReservedRequestIff(After(s, es, d), packet, ifaceIps, now, p, q, d);
    }
  }

  // The ranges are not checked against the reservations, so without that
  // separation a reserved address can be handed out. Exactly when:

  /** Some run acknowledges to the client the address that `r` reserves. */
  ghost predicate MayStealReservation(net: Net, d: LeaseSeconds, mac: string, r: StaticIp) {
    exists s, es, k :: StealsReservation(net, d, mac, r, s, es, k)
  }

  ghost predicate StealsReservation(net: Net, d: LeaseSeconds, mac: string, r: StaticIp, s: State, es: seq<Event>, k: nat) {
    Initial(s) && s.net == net && Run(s, es, d) && NoEdits(es) && k < |es|
    && Acks(After(s, es[..k], d), es[k], d, mac, r.ipAddress)
  }

  /** An enabled range of an existing subnet contains the address. */
  ghost predicate Exposed(net: Net, ip: u32) {
    exists r :: r in net.ranges && r.enabled && r.rangeStart <= ip <= r.rangeEnd && GetSubnet(net, r.subnetId).Some?
  }

  lemma ExposedIsGranted(net: Net, d: LeaseSeconds, client: Mac, r: StaticIp)
    requires Unreserved(net, MacToString(client)) && Exposed(net, r.ipAddress)
    ensures MayStealReservation(net, d, MacToString(client), r)
  {
    var ip := r.ipAddress;
    var range :| range in net.ranges && Covers(range, ip) && GetSubnet(net, range.subnetId).Some?;
    var subnet := GetSubnet(net, range.subnetId).value;
    var ifaceIps := [subnet.network];
    assert ifaceIps[0] == subnet.network;
    assert ServesAddress(net, ip, ifaceIps)(range);
    FoundRange(net, ip, ifaceIps);
    RequestOnEmptyTable(net, d, client, ip, ifaceIps, 0);
    var s := State(net, LeaseTable([], 1), Idle, 0);
    var arrival, grant := Receive(RequestFor(client, ip), ifaceIps, 0), Resume(0);
    var t := Step(s, arrival, d).0;
    AfterFirst(s, arrival, [], d);
    AfterFirst(s, arrival, [grant], d);
    AfterFirst(t, grant, [], d);
    assert [arrival, grant] == [arrival] + [grant] && [arrival, grant][..1] == [arrival] + [];
    OfferIsNoAck(RequestFor(client, ip), ip, t.task.grant.subnet, d);
    assert StealsReservation(net, d, MacToString(client), r, s, [arrival, grant], 1);
  }

  /** A client without a reservation can be given the address that someone else
      has reserved exactly when that address lies in an enabled range of an existing subnet. */
  lemma ReservationStolenIff(net: Net, d: LeaseSeconds, client: Mac, r: StaticIp)
    requires Unreserved(net, MacToString(client)) && r in net.staticIps
    ensures MayStealReservation(net, d, MacToString(client), r) <==> Exposed(net, r.ipAddress)
  {
    var mac := MacToString(client);
    if MayStealReservation(net, d, mac, r) {
      var s, es, k :| StealsReservation(net, d, mac, r, s, es, k);
      ReachState(s, es, d, k);
      AckSources(After(s, es[..k], d), es[k], d, mac, r.ipAddress);
    }
    if Exposed(net, r.ipAddress) {
      ExposedIsGranted(net, d, client, r);
    }
  }
}
