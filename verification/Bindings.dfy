/** The lease list is a partial map from addresses to holders: every step of the
    server is a step on that map. */
module Bindings {
  import opened Prelude
  import opened MacAddress
  import opened DhcpOptions
  import opened DhcpPackets
  import opened Models
  import opened Database
  import opened Engine
  import opened Invariant
  import opened Promises

  datatype Binding = Binding(mac: string, until: int)

  type Map = map<u32, Binding>

  function MapOf(leases: seq<Lease>): Map {
    if leases == [] then map[]
    else
      var last := leases[|leases| - 1];
      MapOf(leases[..|leases| - 1])[last.ipAddress := Binding(last.macAddress, last.leaseEnd)]
  }

  /** Who holds what at time `now`. */
  function BindingsAt(t: LeaseTable, now: int): Map {
    MapOf(ActiveLeases(t.leases, now))
  }

  lemma {:induction false} MapOfMembers(leases: seq<Lease>, ip: u32)
    ensures ip in MapOf(leases) <==> exists l :: l in leases && l.ipAddress == ip
    ensures ip in MapOf(leases)
        ==> exists l :: l in leases && l.ipAddress == ip && MapOf(leases)[ip] == Binding(l.macAddress, l.leaseEnd)
  {
    if leases != [] {
      var front, last := leases[..|leases| - 1], leases[|leases| - 1];
      MapOfMembers(front, ip);
      assert leases == front + [last];
      if last.ipAddress == ip {
        assert last in leases;
      }
    }
  }

  /** The active leases are exactly the entries of the map. */
  lemma BindingsMembers(t: LeaseTable, clock: int, d: LeaseSeconds, now: int, ip: u32)
    requires WellFormedTable(t, clock, d) && clock <= now
    ensures ip in BindingsAt(t, now) <==> exists l :: l in t.leases && l.ipAddress == ip && l.leaseEnd > now
    ensures forall l :: l in t.leases && l.ipAddress == ip && l.leaseEnd > now ==>
              ip in BindingsAt(t, now) && BindingsAt(t, now)[ip] == Binding(l.macAddress, l.leaseEnd)
  {
    FilterMembers(ActiveAt(now), t.leases);
    MapOfMembers(ActiveLeases(t.leases, now), ip);
    forall l | l in t.leases && l.ipAddress == ip && l.leaseEnd > now
      ensures ip in BindingsAt(t, now) && BindingsAt(t, now)[ip] == Binding(l.macAddress, l.leaseEnd)
    {
      assert l in ActiveLeases(t.leases, now);
      var h :| h in ActiveLeases(t.leases, now) && h.ipAddress == ip && BindingsAt(t, now)[ip] == Binding(h.macAddress, h.leaseEnd);
      ActiveIsUnique(t, clock, d, now, l, h);
    }
  }

  // ------------------------------------------------------------------
  // Steps on the map

  lemma {:induction false} MapOfAppend(leases: seq<Lease>, l: Lease)
    ensures MapOf(leases + [l]) == MapOf(leases)[l.ipAddress := Binding(l.macAddress, l.leaseEnd)]
  {
    assert (leases + [l])[..|leases|] == leases;
  }

  /** Writing a lease sets one key, unless the lease is over at once. */
  lemma CreateBinds(t: LeaseTable, lease: Lease, now: int)
    ensures BindingsAt(Create(t, lease), now)
         == if lease.leaseEnd > now then BindingsAt(t, now)[lease.ipAddress := Binding(lease.macAddress, lease.leaseEnd)]
            else BindingsAt(t, now)
  {
    var written := lease.(id := Some(t.nextId));
    FilterAppend(ActiveAt(now), t.leases, [written]);
    if lease.leaseEnd > now {
      MapOfAppend(ActiveLeases(t.leases, now), written);
    } else {
      assert ActiveLeases(t.leases, now) + [] == ActiveLeases(t.leases, now);
    }
  }

  /** Removing a row removes the key of its address and nothing else. */
  lemma ExpireUnbinds(t: LeaseTable, clock: int, d: LeaseSeconds, l: Lease, now: int)
    requires WellFormedTable(t, clock, d) && clock <= now && l in t.leases && l.leaseEnd > now
    ensures BindingsAt(Expire(t, l.id.value), now) == BindingsAt(t, now) - {l.ipAddress}
  {
    var t' := Expire(t, l.id.value);
    FilterKeepsTable(t, LeaseLacksId(l.id.value), clock, clock, d);
    FilterMembers(LeaseLacksId(l.id.value), t.leases);
    var before, after := BindingsAt(t, now), BindingsAt(t', now);
    forall ip: u32
      ensures ip in after <==> ip in before && ip != l.ipAddress
      ensures ip in after ==> after[ip] == before[ip]
    {
      BindingsMembers(t, clock, d, now, ip);
      BindingsMembers(t', clock, d, now, ip);
      forall x | x in t.leases && x.ipAddress == ip && x.leaseEnd > now ensures x in t'.leases <==> ip != l.ipAddress {
        if ip == l.ipAddress {
          ActiveIsUnique(t, clock, d, now, x, l);
        } else if x.id == l.id {
          SameRow(t, clock, d, x, l);
        }
      }
    }
    assert after.Keys == before.Keys - {l.ipAddress};
  }

  /** Removing a row that is not active at `now` changes nothing then. */
  lemma ExpireOfEnded(t: LeaseTable, id: int, now: int)
    requires forall l :: l in t.leases && l.id == Some(id) ==> l.leaseEnd <= now
    ensures BindingsAt(Expire(t, id), now) == BindingsAt(t, now)
  {
    FilterAbsorbs(ActiveAt(now), LeaseLacksId(id), t.leases);
  }

  lemma {:induction false} PurgesKeepBindings(t: LeaseTable, purges: seq<int>, now: int)
    requires forall k :: 0 <= k < |purges| ==> purges[k] <= now
    ensures BindingsAt(PurgeAll(t, purges), now) == BindingsAt(t, now)
    decreases |purges|
  {
    if purges != [] {
      FilterAbsorbs(ActiveAt(now), NotPurgedAt(purges[0]), t.leases);
      PurgesKeepBindings(Purge(t, purges[0]), purges[1..], now);
    }
  }

  /** What a grant does to the map: the address now belongs to the client until the new end. */
  function Bind(m: Map, ip: u32, mac: string, until: int, now: int): Map {
    if until > now then m[ip := Binding(mac, until)] else m - {ip}
  }

  /** One step of the server, seen on the map at any time from the step on.
      Only three steps change it, each by one key:
      a renewal takes the client's own binding out, a grant puts one in where
      there was none, a release takes one of the client's bindings out. */
  lemma StepRefinesMap(s: State, e: Event, d: LeaseSeconds, now: int)
    requires Inv(s, d) && Enabled(s, e) && Step(s, e, d).0.clock <= now && (e.PurgeRun? ==> e.now <= now)
    ensures var before, after := BindingsAt(s.table, now), BindingsAt(Step(s, e, d).0.table, now);
            if e.Resume? && s.task.Creating? then
              var g := s.task.grant;
              g.ip !in before && after == Bind(before, g.ip, g.mac, e.now + d, now)
            else if e.Resume? && s.task.Expiring? then
              after == before - {s.task.grant.ip} && (s.task.grant.ip in before ==> before[s.task.grant.ip].mac == s.task.grant.mac)
            else if e.Resume? && s.task.Releasing? then
              after == before || exists ip :: ip in before && before[ip].mac == s.task.mac && after == before - {ip}
            else after == before
  {
    match e {
      case PurgeRun(t) => FilterAbsorbs(ActiveAt(now), NotPurgedAt(t), s.table.leases);
      case Resume(t) =>
        match s.task {
          case Creating(g) => GrantStep(s, d, t, now);
          case Expiring(id, g) => RenewalStep(s, d, now);
          case Releasing(mac, id) => ReleaseStep(s, d, now);
          case _ =>
        }
      case _ =>
    }
  }

  lemma GrantStep(s: State, d: LeaseSeconds, t: int, now: int)
    requires Inv(s, d) && s.clock <= now && s.task.Creating?
    ensures var before, g := BindingsAt(s.table, now), s.task.grant;
            g.ip !in before && BindingsAt(Create(s.table, NewLease(g, d, t)), now) == Bind(before, g.ip, g.mac, t + d, now)
  {
    var g := s.task.grant;
    BindingsMembers(s.table, s.clock, d, now, g.ip);
    CreateBinds(s.table, NewLease(g, d, t), now);
    assert BindingsAt(s.table, now) - {g.ip} == BindingsAt(s.table, now);
  }

  lemma RenewalStep(s: State, d: LeaseSeconds, now: int)
    requires Inv(s, d) && s.clock <= now && s.task.Expiring?
    ensures var before, after, g := BindingsAt(s.table, now), BindingsAt(Expire(s.table, s.task.id), now), s.task.grant;
            after == before - {g.ip} && (g.ip in before ==> before[g.ip].mac == g.mac)
  {
    var id, g := s.task.id, s.task.grant;
    BindingsMembers(s.table, s.clock, d, now, g.ip);
    if l :| l in s.table.leases && l.id == Some(id) && l.leaseEnd > now {
      ExpireUnbinds(s.table, s.clock, d, l, now);
    } else {
      ExpireOfEnded(s.table, id, now);
      assert BindingsAt(s.table, now) - {g.ip} == BindingsAt(s.table, now);
    }
  }

  lemma ReleaseStep(s: State, d: LeaseSeconds, now: int)
    requires Inv(s, d) && s.clock <= now && s.task.Releasing?
    ensures var before, after := BindingsAt(s.table, now), BindingsAt(Expire(s.table, s.task.id), now);
            after == before || exists ip :: ip in before && before[ip].mac == s.task.mac && after == before - {ip}
  {
    var id := s.task.id;
    if l :| l in s.table.leases && l.id == Some(id) && l.leaseEnd > now {
      BindingsMembers(s.table, s.clock, d, now, l.ipAddress);
      ExpireUnbinds(s.table, s.clock, d, l, now);
    } else {
      ExpireOfEnded(s.table, id, now);
    }
  }

  // ------------------------------------------------------------------
  // Whole requests and releases on the map

  /** The address is free on the map, or already the client's. */
  predicate FreeOrOwn(m: Map, ip: u32, mac: string) {
    ip in m ==> m[ip].mac == mac
  }

  lemma FreeOrOwnMeans(t: LeaseTable, clock: int, d: LeaseSeconds, now: int, ip: u32, mac: string)
    requires WellFormedTable(t, clock, d) && clock <= now
    ensures FreeOrOwn(BindingsAt(t, now), ip, mac)
       <==> forall l :: l in t.leases && l.ipAddress == ip && l.leaseEnd > now ==> l.macAddress == mac
  {
    BindingsMembers(t, clock, d, now, ip);
  }

  /** An enabled range contains the address, and its subnet exists and is reached. */
  ghost predicate Served(net: Net, ip: u32, ifaceIps: seq<u32>) {
    exists r :: r in net.ranges && r.enabled && r.rangeStart <= ip <= r.rangeEnd
                && GetSubnet(net, r.subnetId).Some? && IfaceInSubnet(ifaceIps, GetSubnet(net, r.subnetId).value)
  }

  lemma ServedIff(net: Net, ip: u32, ifaceIps: seq<u32>)
    ensures Served(net, ip, ifaceIps) <==> FindServingRange(net, ip, ifaceIps).Some?
  {
    FoundRange(net, ip, ifaceIps);
    if Served(net, ip, ifaceIps) {
      var r :| r in net.ranges && r.enabled && r.rangeStart <= ip <= r.rangeEnd
        && GetSubnet(net, r.subnetId).Some? && IfaceInSubnet(ifaceIps, GetSubnet(net, r.subnetId).value);
      assert ServesAddress(net, ip, ifaceIps)(r);
    }
  }

  /** A REQUEST of a client without a reservation is granted exactly when the
      address lies in an enabled range of a reachable subnet and is free or the
      client's own on the map. */
  lemma RequestGrantedIff(s: State, packet: DhcpPacket, ifaceIps: seq<u32>, now: int, p: Pause, q: Pause, d: LeaseSeconds, ip: u32)
    requires Inv(s, d) && s.clock <= now
    requires MessageTypeOf(packet.options) == Some(Request) && RequestedIp(packet) == Some(ip)
    requires Unreserved(s.net, ClientOf(packet))
    ensures Serve(s, packet, ifaceIps, now, p, q, d).1.Some?
       <==> Served(s.net, ip, ifaceIps) && FreeOrOwn(BindingsAt(s.table, now), ip, ClientOf(packet))
  {
    MacTextIsLower(packet.chaddr);
    ServedRequest(s, packet, ifaceIps, now, p, q, d);
    ServedIff(s.net, ip, ifaceIps);
    HolderInTable(s.table, s.clock, d, ip, now);
    FreeOrOwnMeans(s.table, s.clock, d, now, ip, ClientOf(packet));
  }

  /** The readings of a pause precede `later`. */
  predicate Before(p: Pause, later: int) {
    p.now <= later && forall k :: 0 <= k < |p.purges| ==> p.purges[k] <= later
  }

  lemma PurgedRenewalStep(s: State, p: Pause, d: LeaseSeconds, later: int)
    requires Inv(s, d) && s.task.Expiring? && s.clock <= later && Before(p, later)
    ensures BindingsAt(Expire(PurgeAll(s.table, p.purges), s.task.id), later) == BindingsAt(s.table, later) - {s.task.grant.ip}
  {
    PurgeEventsPurge(s, p.purges, d);
    PurgesKeepTask(s, p.purges, d);
    RunKeepsInv(s, PurgeEvents(p.purges), d);
    PurgesKeepBindings(s.table, p.purges, later);
    RenewalStep(After(s, PurgeEvents(p.purges), d), d, later);
  }

  /** The two stretches of a renewal, with purges before each, set one key. */
  lemma RenewalBinds(s: State, p: Pause, q: Pause, d: LeaseSeconds, later: int)
    requires Inv(s, d) && s.task.Expiring? && s.clock <= later && Before(p, later) && Before(q, later)
    ensures var id, g := s.task.id, s.task.grant;
            BindingsAt(Create(PurgeAll(Expire(PurgeAll(s.table, p.purges), id), q.purges), NewLease(g, d, q.now)), later)
            == Bind(BindingsAt(s.table, later), g.ip, g.mac, q.now + d, later)
  {
    var id, g := s.task.id, s.task.grant;
    var before := BindingsAt(s.table, later);
    var expired := Expire(PurgeAll(s.table, p.purges), id);
    PurgedRenewalStep(s, p, d, later);
    PurgesKeepBindings(expired, q.purges, later);
    CreateBinds(PurgeAll(expired, q.purges), NewLease(g, d, q.now), later);
    assert (before - {g.ip})[g.ip := Binding(g.mac, q.now + d)] == before[g.ip := Binding(g.mac, q.now + d)];
  }

  /** Writing a lease on a free address sets one key. */
  lemma FreshBinds(s: State, p: Pause, d: LeaseSeconds, later: int)
    requires Inv(s, d) && s.task.Creating? && s.clock <= later && Before(p, later)
    ensures var g := s.task.grant;
            BindingsAt(Create(PurgeAll(s.table, p.purges), NewLease(g, d, p.now)), later)
            == Bind(BindingsAt(s.table, later), g.ip, g.mac, p.now + d, later)
  {
    var g := s.task.grant;
    PurgesKeepBindings(s.table, p.purges, later);
    CreateBinds(PurgeAll(s.table, p.purges), NewLease(g, d, p.now), later);
    BindingsMembers(s.table, s.clock, d, later, g.ip);
    assert BindingsAt(s.table, later) - {g.ip} == BindingsAt(s.table, later);
  }

  lemma RequestTableBinds(s: State, p: Pause, q: Pause, d: LeaseSeconds, later: int)
    requires Inv(s, d) && s.clock <= later && Before(p, later) && Before(q, later)
    ensures var before, after := BindingsAt(s.table, later), BindingsAt(RequestTable(s.table, s.task, p, q, d), later);
            after == if s.task.Expiring? || s.task.Creating?
                     then Bind(before, s.task.grant.ip, s.task.grant.mac, StampOf(s.task, p, q) + d, later) else before
  {
    match s.task {
      case Expiring(id, g) => RenewalBinds(s, p, q, d, later);
      case Creating(g) => FreshBinds(s, p, d, later);
      case _ =>
    }
  }

  /** The table that a REQUEST leaves behind, on the map. */
  lemma RequestBinds(s: State, packet: DhcpPacket, ifaceIps: seq<u32>, now: int, p: Pause, q: Pause, d: LeaseSeconds,
                     ip: u32, later: int)
    requires Inv(s, d) && s.clock <= now <= later && Before(p, later) && Before(q, later) && RequestedIp(packet) == Some(ip)
    ensures var task := OnRequest(s.net, s.table.leases, packet, ifaceIps, d, now).task;
            var before, after := BindingsAt(s.table, later), BindingsAt(RequestTable(s.table, task, p, q, d), later);
            after == if task.Idle? then before else Bind(before, ip, ClientOf(packet), StampOf(task, p, q) + d, later)
  {
    var task := OnRequest(s.net, s.table.leases, packet, ifaceIps, d, now).task;
    MacTextIsLower(packet.chaddr);
    RequestSuspends(s.net, s.table.leases, packet, ifaceIps, d, now);
    RequestKeepsInv(s, packet, ifaceIps, now, d);
    RequestTableBinds(s.(task := task, clock := now), p, q, d, later);
  }

  /** Of a client without a reservation, exactly the requests that suspend are answered. */
  lemma GrantedIffSuspended(s: State, packet: DhcpPacket, ifaceIps: seq<u32>, now: int, p: Pause, q: Pause, d: LeaseSeconds)
    requires MessageTypeOf(packet.options) == Some(Request) && Unreserved(s.net, ClientOf(packet))
    ensures var task := OnRequest(s.net, s.table.leases, packet, ifaceIps, d, now).task;
            var (t, reply) := Serve(s, packet, ifaceIps, now, p, q, d);
            t.table == RequestTable(s.table, task, p, q, d) && (reply.Some? <==> !task.Idle?)
  {
    MacTextIsLower(packet.chaddr);
    ServedRequest(s, packet, ifaceIps, now, p, q, d);
    RequestSuspends(s.net, s.table.leases, packet, ifaceIps, d, now);
  }

  /** Its effect, at any time after it has been served: granted, exactly that key
      is set; refused, nothing changes. Purges during the pauses leave no trace. */
  lemma RequestSetsOneKey(s: State, packet: DhcpPacket, ifaceIps: seq<u32>, now: int, p: Pause, q: Pause, d: LeaseSeconds,
                          ip: u32, later: int)
    requires Inv(s, d) && s.clock <= now <= later && Before(p, later) && Before(q, later)
    requires MessageTypeOf(packet.options) == Some(Request) && RequestedIp(packet) == Some(ip)
    requires Unreserved(s.net, ClientOf(packet))
    ensures var task := OnRequest(s.net, s.table.leases, packet, ifaceIps, d, now).task;
            var (t, reply) := Serve(s, packet, ifaceIps, now, p, q, d);
            var before, after := BindingsAt(s.table, later), BindingsAt(t.table, later);
            after == if reply.Some? then Bind(before, ip, ClientOf(packet), StampOf(task, p, q) + d, later) else before
  {
    RequestBinds(s, packet, ifaceIps, now, p, q, d, ip, later);
    GrantedIffSuspended(s, packet, ifaceIps, now, p, q, d);
  }

  /** A RELEASE takes exactly one of the client's bindings off the map, if it has
      any when the packet arrives; bindings that end in the meantime aside, no other key changes. */
  lemma ReleaseRemovesOneKey(s: State, packet: DhcpPacket, ifaceIps: seq<u32>, now: int, p: Pause, q: Pause, d: LeaseSeconds, later: int)
    requires Inv(s, d) && s.clock <= now <= later && Before(p, later)
    requires MessageTypeOf(packet.options) == Some(MessageType.Release)
    ensures var mac := ClientOf(packet);
            var t := Serve(s, packet, ifaceIps, now, p, q, d).0;
            var atArrival, before, after := BindingsAt(s.table, now), BindingsAt(s.table, later), BindingsAt(t.table, later);
            if exists ip :: ip in atArrival && atArrival[ip].mac == mac
            then exists ip :: ip in atArrival && atArrival[ip].mac == mac && after == before - {ip}
            else after == before
  {
    var mac := ClientOf(packet);
    MacTextIsLower(packet.chaddr);
    ServedOther(s, packet, ifaceIps, now, p, q, d);
    LookupInTable(s.table, s.clock, d, mac, now);
    var lease := GetActiveLease(s.table.leases, mac, now);
    match lease {
      case Some(l) =>
        BindingsMembers(s.table, s.clock, d, now, l.ipAddress);
        ReleaseOf(s, l, p.purges, d, now, later);
        assert l.ipAddress in BindingsAt(s.table, now) && BindingsAt(s.table, now)[l.ipAddress].mac == mac;
      case None =>
        forall ip | ip in BindingsAt(s.table, now) ensures BindingsAt(s.table, now)[ip].mac != mac {
          BindingsMembers(s.table, s.clock, d, now, ip);
        }
    }
  }

  lemma ReleaseOf(s: State, l: Lease, purges: seq<int>, d: LeaseSeconds, now: int, later: int)
    requires Inv(s, d) && s.clock <= now <= later && l in s.table.leases && l.leaseEnd > now
    requires forall k :: 0 <= k < |purges| ==> purges[k] <= later
    ensures BindingsAt(Expire(PurgeAll(s.table, purges), l.id.value), later) == BindingsAt(s.table, later) - {l.ipAddress}
  {
    var id := l.id.value;
    PurgesCommute(s.table, purges, id);
    PurgesKeepBindings(Expire(s.table, id), purges, later);
    if l.leaseEnd > later {
      ExpireUnbinds(s.table, s.clock, d, l, later);
    } else {
      forall x | x in s.table.leases && x.id == Some(id) ensures x.leaseEnd <= later {
        SameRow(s.table, s.clock, d, x, l);
      }
      ExpireOfEnded(s.table, id, later);
      BindingsMembers(s.table, s.clock, d, later, l.ipAddress);
      forall x | x in s.table.leases && x.ipAddress == l.ipAddress && x.leaseEnd > later ensures false {
        ActiveIsUnique(s.table, s.clock, d, now, x, l);
      }
      assert BindingsAt(s.table, later) - {l.ipAddress} == BindingsAt(s.table, later);
    }
  }

  lemma {:induction false} PurgesCommute(t: LeaseTable, purges: seq<int>, id: int)
    ensures Expire(PurgeAll(t, purges), id) == PurgeAll(Expire(t, id), purges)
    decreases |purges|
  {
    if purges != [] {
      FilterCommutes(LeaseLacksId(id), NotPurgedAt(purges[0]), t.leases);
      PurgesCommute(Purge(t, purges[0]), purges[1..], id);
    }
  }

  /** DISCOVER and everything else leave the map alone. */
  lemma OthersKeepMap(s: State, packet: DhcpPacket, ifaceIps: seq<u32>, now: int, p: Pause, q: Pause, d: LeaseSeconds, later: int)
    requires Before(p, later)
    requires var m := MessageTypeOf(packet.options); m != Some(Request) && m != Some(MessageType.Release)
    ensures BindingsAt(Serve(s, packet, ifaceIps, now, p, q, d).0.table, later) == BindingsAt(s.table, later)
  {
    if MessageTypeOf(packet.options) == Some(MessageType.Discover) {
      ServedDiscover(s, packet, ifaceIps, now, p, q, d);
      PurgesKeepBindings(s.table, p.purges, later);
    } else {
      ServedOther(s, packet, ifaceIps, now, p, q, d);
    }
  }
}
