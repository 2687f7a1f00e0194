/** Who is answered what: the replies of the server in terms of the configuration,
    the leases and the bytes of the packets. */
module Answers {
  import opened Prelude
  import opened MacAddress
  import opened DhcpOptions
  import opened DhcpPackets
  import opened Bits
  import opened Cidr
  import opened Models
  import opened Database
  import opened Engine
  import opened Invariant
  import opened Exclusivity
  import opened DynamicScan
  import opened Promises
  import opened Bindings
  import opened Offers

  // ------------------------------------------------------------------
  // What an interface reaches and what a packet asks for

  /** The number of the block of `2^HostBits` addresses in which an address lies. */
  function BlockOf(ip: u32, prefix: u8): int {
    ip / Pow2(HostBits(prefix))
  }

  lemma MatchesBlock(ip: u32, net: u32, prefix: u8)
    ensures Matches(ip, net, prefix) <==> BlockOf(ip, prefix) == BlockOf(net, prefix)
  {
    MatchesIndex(ip, net, prefix);
  }

  /** An interface reaches a subnet when any of its addresses lies in the subnet's block. */
  lemma ReachedIff(ifaceIps: seq<u32>, subnet: Subnet)
    ensures IfaceInSubnet(ifaceIps, subnet)
       <==> exists ip :: ip in ifaceIps && BlockOf(ip, subnet.netmask) == BlockOf(subnet.network, subnet.netmask)
  {
    forall ip: u32 ensures Matches(ip, subnet.network, subnet.netmask)
                      <==> BlockOf(ip, subnet.netmask) == BlockOf(subnet.network, subnet.netmask)
    {
      MatchesBlock(ip, subnet.network, subnet.netmask);
    }
    if k :| 0 <= k < |ifaceIps| && Matches(ifaceIps[k], subnet.network, subnet.netmask) {
      assert ifaceIps[k] in ifaceIps;
    }
    if ip :| ip in ifaceIps && BlockOf(ip, subnet.netmask) == BlockOf(subnet.network, subnet.netmask) {
      var k :| 0 <= k < |ifaceIps| && ifaceIps[k] == ip;
      assert Matches(ifaceIps[k], subnet.network, subnet.netmask);
    }
  }

  /** The first option 50 decides, then `ciaddr`; a packet with neither asks for nothing. */
  lemma {:induction false} FirstRequested(options: seq<DhcpOption>)
    ensures RequestedOption(options).None? <==> forall o :: o in options ==> !o.RequestedIpAddress?
    ensures RequestedOption(options).Some? ==>
              exists k :: 0 <= k < |options| && options[k] == RequestedIpAddress(RequestedOption(options).value)
                && forall j :: 0 <= j < k ==> !options[j].RequestedIpAddress?
  {
    if options != [] {
      var rest := options[1..];
      FirstRequested(rest);
      assert options == [options[0]] + rest;
      if options[0].RequestedIpAddress? {
        assert options[0] in options;
      } else if RequestedOption(options).Some? {
        var k :| 0 <= k < |rest| && rest[k] == RequestedIpAddress(RequestedOption(rest).value)
          && forall j :: 0 <= j < k ==> !rest[j].RequestedIpAddress?;
        assert options[k + 1] == rest[k];
        forall j | 0 <= j < k + 1 ensures !options[j].RequestedIpAddress? {
          assert j > 0 ==> options[j] == rest[j - 1];
        }
      }
    }
  }

  predicate AsksByOption(packet: DhcpPacket) {
    exists o :: o in packet.options && o.RequestedIpAddress?
  }

  lemma AskedAddress(packet: DhcpPacket)
    ensures AsksByOption(packet) ==>
              exists k :: 0 <= k < |packet.options| && packet.options[k].RequestedIpAddress?
                && RequestedIp(packet) == Some(packet.options[k].address)
                && forall j :: 0 <= j < k ==> !packet.options[j].RequestedIpAddress?
    ensures !AsksByOption(packet) && packet.ciaddr != 0 ==> RequestedIp(packet) == Some(packet.ciaddr)
    ensures !AsksByOption(packet) && packet.ciaddr == 0 ==> RequestedIp(packet) == None
  {
    FirstRequested(packet.options);
  }

  /** The host name kept with a lease is the first one that the client sends. */
  lemma {:induction false} FirstHostname(options: seq<DhcpOption>)
    ensures HostnameOption(options).None? <==> forall o :: o in options ==> !o.Hostname?
    ensures HostnameOption(options).Some? ==>
              exists k :: 0 <= k < |options| && options[k] == Hostname(HostnameOption(options).value)
                && forall j :: 0 <= j < k ==> !options[j].Hostname?
  {
    if options != [] {
      var rest := options[1..];
      FirstHostname(rest);
      assert options == [options[0]] + rest;
      if options[0].Hostname? {
        assert options[0] in options;
      } else if HostnameOption(options).Some? {
        var k :| 0 <= k < |rest| && rest[k] == Hostname(HostnameOption(rest).value)
          && forall j :: 0 <= j < k ==> !rest[j].Hostname?;
        assert options[k + 1] == rest[k];
        forall j | 0 <= j < k + 1 ensures !options[j].Hostname? {
          assert j > 0 ==> options[j] == rest[j - 1];
        }
      }
    }
  }

  // ------------------------------------------------------------------
  // DISCOVER

  /** The subnet with this id exists, but the interface does not reach it. */
  ghost predicate OutOfReach(net: Net, subnetId: int, ifaceIps: seq<u32>) {
    GetSubnet(net, subnetId).Some? && !IfaceInSubnet(ifaceIps, GetSubnet(net, subnetId).value)
  }

  /** The client has no reservation, or one out of reach. */
  ghost predicate NoReservationHere(net: Net, mac: string, ifaceIps: seq<u32>) {
    var own := GetStaticIp(net, mac);
    own.None? || OutOfReach(net, own.value.subnetId, ifaceIps)
  }

  ghost predicate NoLeaseHere(net: Net, leases: seq<Lease>, mac: string, ifaceIps: seq<u32>, now: int) {
    var lease := GetActiveLease(leases, mac, now);
    lease.None? || OutOfReach(net, lease.value.subnetId, ifaceIps)
  }

  ghost predicate PoolExhausted(net: Net, leases: seq<Lease>, ifaceIps: seq<u32>, now: int) {
    forall subnet, ip: u32 :: subnet in net.subnets && Offerable(subnet, net.ranges, ifaceIps, ip) ==> ActivelyLeased(leases, ip, now)
  }

  /** A client with neither reservation nor lease here is offered a free address of
      the pool, the first one in order, and nothing exactly when all are leased. */
  lemma PoolIsOffered(s: State, packet: DhcpPacket, ifaceIps: seq<u32>, now: int, p: Pause, q: Pause, d: LeaseSeconds)
    requires MessageTypeOf(packet.options) == Some(MessageType.Discover)
    requires NoReservationHere(s.net, ClientOf(packet), ifaceIps)
    requires NoLeaseHere(s.net, s.table.leases, ClientOf(packet), ifaceIps, now)
    ensures var (t, reply) := Serve(s, packet, ifaceIps, now, p, q, d);
            && t.net == s.net && t.table == PurgeAll(s.table, p.purges)
            && (reply.None? <==> PoolExhausted(s.net, t.table.leases, ifaceIps, p.now))
            && (reply.Some? ==>
                  exists subnet :: subnet in s.net.subnets && Offerable(subnet, s.net.ranges, ifaceIps, reply.value.yiaddr)
                    && !ActivelyLeased(t.table.leases, reply.value.yiaddr, p.now)
                    && reply.value == CreateOffer(packet, reply.value.yiaddr, subnet, d))
  {
    ServedDiscover(s, packet, ifaceIps, now, p, q, d);
    var t := Serve(s, packet, ifaceIps, now, p, q, d).0;
    assert OnDiscover(s.net, s.table.leases, packet, ifaceIps, d, now).task.Scanning?;
    ScanIsComplete(s.net, t.table.leases, packet, ifaceIps, d, p.now);
  }

  lemma FirstInPool(s: State, packet: DhcpPacket, ifaceIps: seq<u32>, now: int, p: Pause, q: Pause, d: LeaseSeconds) returns (k: int)
    requires MessageTypeOf(packet.options) == Some(MessageType.Discover)
    requires NoReservationHere(s.net, ClientOf(packet), ifaceIps)
    requires NoLeaseHere(s.net, s.table.leases, ClientOf(packet), ifaceIps, now)
    requires Serve(s, packet, ifaceIps, now, p, q, d).1.Some?
    ensures var (t, reply) := Serve(s, packet, ifaceIps, now, p, q, d);
            var pool := Pool(s.net.subnets, s.net.ranges, ifaceIps);
            && 0 <= k < |pool| && reply == Some(CreateOffer(packet, pool[k].0, pool[k].1, d))
            && forall j :: 0 <= j < k ==> ActivelyLeased(t.table.leases, pool[j].0, p.now)
  {
    ServedDiscover(s, packet, ifaceIps, now, p, q, d);
    var t := Serve(s, packet, ifaceIps, now, p, q, d).0;
    var pool, leased := Pool(s.net.subnets, s.net.ranges, ifaceIps), LeasedIps(t.table.leases, p.now);
    ScanIsFirstFit(s.net.subnets, s.net.ranges, leased, ifaceIps);
    FindSpec(FreeCandidate(leased), pool);
    k := FirstMatch(FreeCandidate(leased), pool);
    forall j | 0 <= j < k ensures ActivelyLeased(t.table.leases, pool[j].0, p.now) {
      assert !FreeCandidate(leased)(pool[j]);
      LeasedIpsMembers(t.table.leases, p.now, pool[j].0);
    }
  }

  /** A new client: no reservation, and every lease it ever had is over. */
  lemma NewClientIsOffered(s: State, packet: DhcpPacket, ifaceIps: seq<u32>, now: int, p: Pause, q: Pause, d: LeaseSeconds)
    requires MessageTypeOf(packet.options) == Some(MessageType.Discover)
    requires forall r :: r in s.net.staticIps ==> Lower(r.macAddress) != ClientOf(packet)
    requires forall l :: l in s.table.leases && Lower(l.macAddress) == ClientOf(packet) ==> l.leaseEnd <= now
    ensures var (t, reply) := Serve(s, packet, ifaceIps, now, p, q, d);
            reply.None? <==> PoolExhausted(s.net, t.table.leases, ifaceIps, p.now)
  {
    MacTextIsLower(packet.chaddr);
    FirstReservation(s.net, ClientOf(packet));
    FirstActiveLease(s.table.leases, ClientOf(packet), now);
    PoolIsOffered(s, packet, ifaceIps, now, p, q, d);
  }

  /** A client without a reservation here is offered the address of its first active
      lease, if that is on a subnet which the interface reaches, whatever the pool holds. */
  lemma OwnLeaseIsOffered(s: State, packet: DhcpPacket, ifaceIps: seq<u32>, now: int, p: Pause, q: Pause, d: LeaseSeconds, lease: Lease)
    requires MessageTypeOf(packet.options) == Some(MessageType.Discover)
    requires NoReservationHere(s.net, ClientOf(packet), ifaceIps)
    requires GetActiveLease(s.table.leases, ClientOf(packet), now) == Some(lease)
    requires GetSubnet(s.net, lease.subnetId).Some? && IfaceInSubnet(ifaceIps, GetSubnet(s.net, lease.subnetId).value)
    ensures var (t, reply) := Serve(s, packet, ifaceIps, now, p, q, d);
            t.table == s.table && reply == Some(CreateOffer(packet, lease.ipAddress, GetSubnet(s.net, lease.subnetId).value, d))
  {
    ServedDiscover(s, packet, ifaceIps, now, p, q, d);
  }

  /** A reservation or, failing that, a lease whose subnet no longer exists silences the server. */
  lemma MissingSubnetSilences(s: State, packet: DhcpPacket, ifaceIps: seq<u32>, now: int, p: Pause, q: Pause, d: LeaseSeconds)
    requires MessageTypeOf(packet.options) == Some(MessageType.Discover)
    requires var own, lease := GetStaticIp(s.net, ClientOf(packet)), GetActiveLease(s.table.leases, ClientOf(packet), now);
             || (own.Some? && GetSubnet(s.net, own.value.subnetId).None?)
             || (NoReservationHere(s.net, ClientOf(packet), ifaceIps) && lease.Some? && GetSubnet(s.net, lease.value.subnetId).None?)
    ensures var (t, reply) := Serve(s, packet, ifaceIps, now, p, q, d); t.table == s.table && reply == None
  {
    ServedDiscover(s, packet, ifaceIps, now, p, q, d);
  }

  // ------------------------------------------------------------------
  // REQUEST

  /** The range serves the address on this interface. */
  ghost predicate Serves(net: Net, r: DynamicRange, ip: u32, ifaceIps: seq<u32>) {
    r.enabled && r.rangeStart <= ip <= r.rangeEnd
    && GetSubnet(net, r.subnetId).Some? && IfaceInSubnet(ifaceIps, GetSubnet(net, r.subnetId).value)
  }

  lemma FirstServing(net: Net, ip: u32, ifaceIps: seq<u32>) returns (k: int)
    requires FindServingRange(net, ip, ifaceIps).Some?
    ensures 0 <= k < |net.ranges| && Serves(net, net.ranges[k], ip, ifaceIps)
    ensures FindServingRange(net, ip, ifaceIps) == Some(net.ranges[k])
    ensures forall j :: 0 <= j < k ==> !Serves(net, net.ranges[j], ip, ifaceIps)
  {
    FindSpec(ServesAddress(net, ip, ifaceIps), net.ranges);
    k := FirstMatch(ServesAddress(net, ip, ifaceIps), net.ranges);
    forall j | 0 <= j < k ensures !Serves(net, net.ranges[j], ip, ifaceIps) {
      assert !ServesAddress(net, ip, ifaceIps)(net.ranges[j]);
    }
  }

  lemma {:induction false} PurgesKeepCounter(t: LeaseTable, purges: seq<int>)
    ensures PurgeAll(t, purges).nextId == t.nextId
    decreases |purges|
  {
    if purges != [] {
      PurgesKeepCounter(Purge(t, purges[0]), purges[1..]);
    }
  }

  /** The lease that a granted REQUEST writes, and the acknowledgement: both name the
      first range that serves the address; the lease is stamped with the last reading. */
  lemma GrantWrites(s: State, packet: DhcpPacket, ifaceIps: seq<u32>, now: int, p: Pause, q: Pause, d: LeaseSeconds, ip: u32)
    returns (k: int)
    requires MessageTypeOf(packet.options) == Some(Request) && RequestedIp(packet) == Some(ip)
    requires Unreserved(s.net, ClientOf(packet)) && Serve(s, packet, ifaceIps, now, p, q, d).1.Some?
    ensures 0 <= k < |s.net.ranges| && Serves(s.net, s.net.ranges[k], ip, ifaceIps)
    ensures forall j :: 0 <= j < k ==> !Serves(s.net, s.net.ranges[j], ip, ifaceIps)
    ensures var (t, reply) := Serve(s, packet, ifaceIps, now, p, q, d);
            var subnetId := s.net.ranges[k].subnetId;
            var stamp := StampOf(OnRequest(s.net, s.table.leases, packet, ifaceIps, d, now).task, p, q);
            && reply == Some(CreateAck(packet, ip, GetSubnet(s.net, subnetId).value, d))
            && t.table.leases != [] && t.table.nextId == s.table.nextId + 1
            && t.table.leases[|t.table.leases| - 1]
               == Lease(Some(s.table.nextId), subnetId, ClientOf(packet), ip, stamp, stamp + d, HostnameOption(packet.options))
  {
    var task := OnRequest(s.net, s.table.leases, packet, ifaceIps, d, now).task;
    GrantedIffSuspended(s, packet, ifaceIps, now, p, q, d);
    MacTextIsLower(packet.chaddr);
    ServedRequest(s, packet, ifaceIps, now, p, q, d);
    RequestSuspends(s.net, s.table.leases, packet, ifaceIps, d, now);
    RequestSubnet(s.net, s.table.leases, packet, ifaceIps, d, now);
    k := FirstServing(s.net, ip, ifaceIps);
    PurgesKeepCounter(s.table, p.purges);
    if task.Expiring? {
      PurgesKeepCounter(Expire(PurgeAll(s.table, p.purges), task.id), q.purges);
    }
  }

  /** A client renews by `ciaddr`, without option 50: it is acknowledged the address it holds. */
  lemma RenewalIsAcked(s: State, packet: DhcpPacket, ifaceIps: seq<u32>, now: int, p: Pause, q: Pause, d: LeaseSeconds, lease: Lease)
    requires Inv(s, d) && s.clock <= now && MessageTypeOf(packet.options) == Some(Request)
    requires !AsksByOption(packet) && packet.ciaddr != 0 && Unreserved(s.net, ClientOf(packet))
    requires lease in s.table.leases && lease.macAddress == ClientOf(packet) && lease.leaseEnd > now && lease.ipAddress == packet.ciaddr
    requires Served(s.net, packet.ciaddr, ifaceIps)
    ensures var reply := Serve(s, packet, ifaceIps, now, p, q, d).1;
            reply.Some? && reply.value.yiaddr == packet.ciaddr && MessageTypeOf(reply.value.options) == Some(Ack)
  {
    AskedAddress(packet);
    BindingsMembers(s.table, s.clock, d, now, packet.ciaddr);
    RequestGrantedIff(s, packet, ifaceIps, now, p, q, d, packet.ciaddr);
    var k := GrantWrites(s, packet, ifaceIps, now, p, q, d, packet.ciaddr);
    OfferIsNoAck(packet, packet.ciaddr, GetSubnet(s.net, s.net.ranges[k].subnetId).value, d);
  }

  /** A REQUEST that names no address is not answered. */
  lemma NothingAskedNothingSent(s: State, packet: DhcpPacket, ifaceIps: seq<u32>, now: int, p: Pause, q: Pause, d: LeaseSeconds)
    requires MessageTypeOf(packet.options) == Some(Request) && !AsksByOption(packet) && packet.ciaddr == 0
    ensures var (t, reply) := Serve(s, packet, ifaceIps, now, p, q, d); t.table == s.table && reply == None
  {
    AskedAddress(packet);
    ServedRequest(s, packet, ifaceIps, now, p, q, d);
  }

  // ------------------------------------------------------------------
  // RELEASE

  /** A RELEASE removes the client's first active lease, and that row only. */
  lemma ReleaseDropsFirst(s: State, packet: DhcpPacket, ifaceIps: seq<u32>, now: int, p: Pause, q: Pause, d: LeaseSeconds, lease: Lease)
    requires Inv(s, d) && MessageTypeOf(packet.options) == Some(MessageType.Release)
    requires GetActiveLease(s.table.leases, ClientOf(packet), now) == Some(lease)
    ensures var t := Serve(s, packet, ifaceIps, now, p, q, d).0;
            forall x :: x in t.table.leases <==> x in PurgeAll(s.table, p.purges).leases && x != lease
  {
    ServedOther(s, packet, ifaceIps, now, p, q, d);
    FirstActiveLease(s.table.leases, ClientOf(packet), now);
    assert lease in s.table.leases;
    var purged := PurgeAll(s.table, p.purges);
    PurgesShrink(s.table, p.purges);
    FilterMembers(LeaseLacksId(lease.id.value), purged.leases);
    forall x | x in purged.leases && x.id == lease.id ensures x == lease {
      SameRow(s.table, s.clock, d, x, lease);
    }
  }

  // ------------------------------------------------------------------
  // Runs exist

  lemma PauseRuns(s: State, p: Pause, d: LeaseSeconds)
    requires s.clock <= p.now
    ensures Run(s, PauseEvents(s, p), d) && After(s, PauseEvents(s, p), d).clock <= Max(s.clock, p.now)
  {
    if !s.task.Idle? {
      PurgesKeepTask(s, p.purges, d);
      var t := After(s, PurgeEvents(p.purges), d);
      AfterAppend(s, PurgeEvents(p.purges), [Resume(p.now)], d);
      AfterFirst(t, Resume(p.now), [], d);
      assert [Resume(p.now)] + [] == [Resume(p.now)];
    }
  }

  /** Any packet can be served at any time, with any purges in between, as long as the readings go up. */
  lemma ServingRuns(s: State, packet: DhcpPacket, ifaceIps: seq<u32>, now: int, p: Pause, q: Pause, d: LeaseSeconds)
    requires s.task.Idle? && s.clock <= now <= p.now <= q.now
    ensures Run(s, ServeEvents(s, packet, ifaceIps, now, p, q, d), d)
    ensures Serve(s, packet, ifaceIps, now, p, q, d).0.clock <= q.now
  {
    var s1 := Step(s, Receive(packet, ifaceIps, now), d).0;
    var s2 := After(s1, PauseEvents(s1, p), d);
    PauseRuns(s1, p, d);
    PauseRuns(s2, q, d);
    AfterAppend(s1, PauseEvents(s1, p), PauseEvents(s2, q), d);
    AfterFirst(s, Receive(packet, ifaceIps, now), PauseEvents(s1, p) + PauseEvents(s2, q), d);
    ServeIsRun(s, packet, ifaceIps, now, p, q, d);
  }

  /** A grant settles its client, if it is the only active lease: from then on its address is stable. */
  lemma GrantSettles(s: State, now: int, d: LeaseSeconds, ifaceIps: seq<u32>)
    requires Inv(s, d) && s.task.Creating? && s.clock <= now && d > 0
    requires Reachable(s.net, s.task.grant.subnetId, ifaceIps)
    requires |HeldBy(Step(s, Resume(now), d).0.table, s.task.grant.mac, now)| == 1
    ensures var t := Step(s, Resume(now), d).0;
            Settled(t, s.task.grant.mac, s.task.grant.ip, ifaceIps)
            && exists l :: l in t.table.leases && l.macAddress == s.task.grant.mac && l.ipAddress == s.task.grant.ip && l.leaseEnd == now + d
  {
    SingleLeaseIff(s, now, d);
    assert NewLease(s.task.grant, d, now).(id := Some(s.table.nextId)) in Step(s, Resume(now), d).0.table.leases;
  }

  // ------------------------------------------------------------------
  // From bytes to bytes

  /** The shortest message of a type: the fixed part, the cookie, option 53 and the end marker. */
  predicate IsBare(data: seq<u8>, messageType: u8) {
    |data| == 244 && data[236..240] == [99, 130, 83, 99] && data[240..] == [53, 1, messageType, 255]
  }

  lemma BareOptions(t: u8)
    requires 1 <= t <= 8
    ensures DecodeOptions([53, 1, t, 255]) == [MessageTypeOption(MessageTypeFrom(t).value), End]
  {
    OptionGrammar([255], 53, [t]);
    OptionGrammar([], 53, [t]);
    assert [53, |[t]|] + [t] + [255] == [53, 1, t, 255] && [255] + [] == [255];
    MessageTypeReading([t]);
  }

  lemma BareMessage(data: seq<u8>, t: u8)
    requires IsBare(data, t) && 1 <= t <= 8
    ensures Decode(data).Success?
    ensures var p := Decode(data).value;
            && p.chaddr == data[28..34] && Octets(p.xid) == data[4..8] && Octets(p.ciaddr) == data[12..16]
            && MessageTypeOf(p.options) == Some(MessageTypeFrom(t).value) && !AsksByOption(p)
  {
    OptionsBehindCookie(data);
    BareOptions(t);
    OctetsOfWord(data[4..8]);
    OctetsOfWord(data[12..16]);
  }

  /** The bytes of an answer: reply code, transaction, address, client, cookie and message type. */
  predicate AnswersWith(out: seq<u8>, data: seq<u8>, ip: seq<u8>, messageType: u8)
    requires |data| >= 34
  {
    && |out| >= 243 && out[0] == 2 && out[4..8] == data[4..8] && out[16..20] == ip && out[28..34] == data[28..34]
    && out[236..240] == [99, 130, 83, 99] && out[240..243] == [53, 1, messageType]
  }

  lemma AnswerBytes(reply: DhcpPacket, data: seq<u8>, m: MessageType)
    requires |data| >= 34 && reply.op == 2 && Octets(reply.xid) == data[4..8] && reply.chaddr == data[28..34]
    requires reply.options != [] && reply.options[0] == MessageTypeOption(m)
    ensures AnswersWith(Encode(reply), data, Octets(reply.yiaddr), MessageTypeCode(m))
  {
    var out := Encode(reply);
    MessageLayout(reply);
    OptionBytes(reply.options[0]);
    var options := EncodeOptions(reply.options);
    assert options[..3] == [53, 1, MessageTypeCode(m)];
    assert out[240..243] == out[240..][..3] == options[..3];
  }

  /** A bare DISCOVER of 244 bytes from a new client gets an OFFER, unless the pool is exhausted. */
  lemma BareDiscoverIsOffered(s: State, data: seq<u8>, ifaceIps: seq<u32>, now: int, p: Pause, q: Pause, d: LeaseSeconds)
    requires IsBare(data, 1)
    requires forall r :: r in s.net.staticIps ==> Lower(r.macAddress) != MacToString(data[28..34])
    requires forall l :: l in s.table.leases && Lower(l.macAddress) == MacToString(data[28..34]) ==> l.leaseEnd <= now
    requires !PoolExhausted(s.net, PurgeAll(s.table, p.purges).leases, ifaceIps, p.now)
    ensures Decode(data).Success?
    ensures var reply := Serve(s, Decode(data).value, ifaceIps, now, p, q, d).1;
            reply.Some? && AnswersWith(Encode(reply.value), data, Octets(reply.value.yiaddr), 2)
  {
    BareMessage(data, 1);
    var packet := Decode(data).value;
    MacTextIsLower(packet.chaddr);
    FirstReservation(s.net, ClientOf(packet));
    FirstActiveLease(s.table.leases, ClientOf(packet), now);
    PoolIsOffered(s, packet, ifaceIps, now, p, q, d);
    AnswerBytes(Serve(s, packet, ifaceIps, now, p, q, d).1.value, data, Offer);
  }

  lemma BareRenewal(data: seq<u8>, ip: u32)
    requires IsBare(data, 3) && data[12..16] == Octets(ip)
    ensures Decode(data).Success?
    ensures var p := Decode(data).value;
            && MessageTypeOf(p.options) == Some(Request) && !AsksByOption(p) && p.ciaddr == ip && RequestedIp(p) == (if ip != 0 then Some(ip) else None)
            && Octets(p.xid) == data[4..8] && p.chaddr == data[28..34]
  {
    BareMessage(data, 3);
    WordRoundTrip(Decode(data).value.ciaddr);
    WordRoundTrip(ip);
    AskedAddress(Decode(data).value);
  }

  /** A bare REQUEST of 244 bytes that names the client's leased address in bytes 12 to 15 gets an ACK of it. */
  lemma BareRenewalIsAcked(s: State, data: seq<u8>, ifaceIps: seq<u32>, now: int, p: Pause, q: Pause, d: LeaseSeconds, lease: Lease)
    requires Inv(s, d) && s.clock <= now && IsBare(data, 3) && data[12..16] == Octets(lease.ipAddress) && lease.ipAddress != 0
    requires Unreserved(s.net, MacToString(data[28..34])) && Served(s.net, lease.ipAddress, ifaceIps)
    requires lease in s.table.leases && lease.macAddress == MacToString(data[28..34]) && lease.leaseEnd > now
    ensures Decode(data).Success?
    ensures var reply := Serve(s, Decode(data).value, ifaceIps, now, p, q, d).1;
            reply.Some? && AnswersWith(Encode(reply.value), data, data[12..16], 5)
  {
    BareRenewal(data, lease.ipAddress);
    var packet := Decode(data).value;
    RenewalIsAcked(s, packet, ifaceIps, now, p, q, d, lease);
    var k := GrantWrites(s, packet, ifaceIps, now, p, q, d, packet.ciaddr);
    AnswerBytes(Serve(s, packet, ifaceIps, now, p, q, d).1.value, data, Ack);
  }
}
