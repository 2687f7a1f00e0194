/** The packet handlers as they are written: loops over the tables, early
    returns, and calls to the database between which purges may run. Each is
    proved to take exactly the steps of the state machine in `Engine`. */
module Server {
  import opened Prelude
  import opened MacAddress
  import opened DhcpPackets
  import opened Cidr
  import opened Models
  import opened Database
  import opened Engine

  method IsIfaceInSubnet(ifaceIps: seq<u32>, subnet: Subnet) returns (r: bool)
    ensures r == IfaceInSubnet(ifaceIps, subnet)
  {
    for k := 0 to |ifaceIps|
      invariant forall j :: 0 <= j < k ==> !Matches(ifaceIps[j], subnet.network, subnet.netmask)
    {
      if Matches(ifaceIps[k], subnet.network, subnet.netmask) {
        return true;
      }
    }
    r := false;
  }

  class DhcpServer {
    const defaultLeaseTime: LeaseSeconds
    const db: InMemoryDatabase

    constructor (defaultLeaseTime: LeaseSeconds, db: InMemoryDatabase)
      ensures this.defaultLeaseTime == defaultLeaseTime && this.db == db
    {
      this.defaultLeaseTime, this.db := defaultLeaseTime, db;
    }

    /** The purge task runs while a handler waits for the database. */
    method LetPurgesRun(purges: seq<int>)
      modifies db`leases
      ensures db.Table() == PurgeAll(old(db.Table()), purges)
    {
      for i := 0 to |purges|
        invariant PurgeAll(db.Table(), purges[i..]) == PurgeAll(old(db.Table()), purges)
      {
        assert purges[i..][1..] == purges[i + 1..];
        var deleted := db.DeleteExpiredLeases(purges[i]);
      }
    }

    /** The innermost loop: the addresses of one range, in ascending order. */
    method FirstFreeIn(range: DynamicRange, leased: set<u32>) returns (r: Option<u32>)
      ensures r == ScanAddresses(range.rangeStart, range.rangeEnd, leased)
    {
      var ip: int := range.rangeStart;
      while ip <= range.rangeEnd
        invariant 0 <= ip
        invariant ScanAddresses(ip, range.rangeEnd, leased) == ScanAddresses(range.rangeStart, range.rangeEnd, leased)
        decreases range.rangeEnd + 1 - ip
      {
        if ip !in leased {
          return Some(ip);
        }
        ip := ip + 1;
      }
      r := None;
    }

    /** The loop over the enabled ranges of one subnet. */
    method FirstFreeOf(ranges: seq<DynamicRange>, leased: set<u32>) returns (r: Option<u32>)
      ensures r == ScanRanges(ranges, leased)
    {
      for j := 0 to |ranges|
        invariant ScanRanges(ranges[j..], leased) == ScanRanges(ranges, leased)
      {
        assert ranges[j..][1..] == ranges[j + 1..];
        var range := ranges[j];
        if !range.enabled {
          continue;
        }
        r := FirstFreeIn(range, leased);
        if r.Some? {
          return;
        }
      }
      r := None;
    }

    /** The nested loops over reachable subnets, their enabled ranges and the addresses of each range. */
    method ScanForFreeAddress(leased: set<u32>, ifaceIps: seq<u32>) returns (r: Option<(u32, Subnet)>)
      ensures r == ScanSubnets(db.subnets, db.ranges, leased, ifaceIps)
    {
      var subnets := db.subnets;
      for i := 0 to |subnets|
        invariant ScanSubnets(subnets[i..], db.ranges, leased, ifaceIps) == ScanSubnets(subnets, db.ranges, leased, ifaceIps)
      {
        assert subnets[i..][1..] == subnets[i + 1..];
        var subnet := subnets[i];
        var reachable := IsIfaceInSubnet(ifaceIps, subnet);
        if !reachable || subnet.id.None? {
          continue;
        }
        var ranges := db.ListRanges(subnet.id);
        var ip := FirstFreeOf(ranges, leased);
        if ip.Some? {
          return Some((ip.value, subnet));
        }
      }
      r := None;
    }

    /** The last part of a DISCOVER: the active leases are read and the pool is scanned. */
    method OfferFreeAddress(packet: DhcpPacket, ifaceIps: seq<u32>, pause: Pause) returns (r: Option<DhcpPacket>)
      modifies db`leases
      ensures db.Table() == PurgeAll(old(db.Table()), pause.purges)
      ensures r == Scan(db.Configuration(), db.leases, packet, ifaceIps, defaultLeaseTime, pause.now)
    {
      LetPurgesRun(pause.purges);
      var active := db.ListActiveLeases(pause.now);
      var leased := set l | l in active :: l.ipAddress;
      var found := ScanForFreeAddress(leased, ifaceIps);
      if found.Some? {
        r := Some(CreateOffer(packet, found.value.0, found.value.1, defaultLeaseTime));
      } else {
        r := None;
      }
    }

    method HandleDiscover(packet: DhcpPacket, ifaceIps: seq<u32>, now: int, pause: Pause) returns (r: Option<DhcpPacket>)
      modifies db`leases
      ensures var o := OnDiscover(db.Configuration(), old(db.leases), packet, ifaceIps, defaultLeaseTime, now);
              if o.task.Idle? then
                db.Table() == old(db.Table()) && r == o.reply
              else
                && db.Table() == PurgeAll(old(db.Table()), pause.purges)
                && r == Scan(db.Configuration(), db.leases, packet, ifaceIps, defaultLeaseTime, pause.now)
    {
      var mac := MacToString(packet.chaddr);
      var reserved := db.GetStaticIpByMac(mac);
      if reserved.Some? {
        var subnet := db.FindSubnet(reserved.value.subnetId);
        if subnet.None? {
          return None;
        }
        var reachable := IsIfaceInSubnet(ifaceIps, subnet.value);
        if reachable {
          return Some(CreateOffer(packet, reserved.value.ipAddress, subnet.value, defaultLeaseTime));
        }
      }
      var lease := db.FindActiveLease(mac, now);
      if lease.Some? {
        var subnet := db.FindSubnet(lease.value.subnetId);
        if subnet.None? {
          return None;
        }
        var reachable := IsIfaceInSubnet(ifaceIps, subnet.value);
        if reachable {
          return Some(CreateOffer(packet, lease.value.ipAddress, subnet.value, defaultLeaseTime));
        }
      }
      r := OfferFreeAddress(packet, ifaceIps, pause);
    }

    /** The loop that looks for an enabled range with the address on a reachable subnet. */
    method FindMatchingRange(ip: u32, ifaceIps: seq<u32>) returns (r: Option<(DynamicRange, Subnet)>)
      ensures r.None? <==> FindServingRange(db.Configuration(), ip, ifaceIps).None?
      ensures r.Some? ==> FindServingRange(db.Configuration(), ip, ifaceIps) == Some(r.value.0)
      ensures r.Some? ==> GetSubnet(db.Configuration(), r.value.0.subnetId) == Some(r.value.1)
    {
      var ranges := db.ranges;
      ghost var serves := ServesAddress(db.Configuration(), ip, ifaceIps);
      for i := 0 to |ranges|
        invariant Find(serves, ranges[i..]) == Find(serves, ranges)
      {
        assert ranges[i..][1..] == ranges[i + 1..];
        var range := ranges[i];
        if !range.enabled {
          continue;
        }
        if range.rangeStart <= ip && ip <= range.rangeEnd {
          var subnet := db.FindSubnet(range.subnetId);
          if subnet.None? {
            continue;
          }
          var reachable := IsIfaceInSubnet(ifaceIps, subnet.value);
          if reachable {
            return Some((range, subnet.value));
          }
        }
      }
      r := None;
    }

    /** The lease is stamped, written and acknowledged. */
    method WriteLease(grant: Grant, pause: Pause) returns (r: Option<DhcpPacket>)
      modifies db`leases, db`nextLeaseId
      ensures db.Table() == Create(PurgeAll(old(db.Table()), pause.purges), NewLease(grant, defaultLeaseTime, pause.now))
      ensures r == Some(CreateAck(grant.packet, grant.ip, grant.subnet, defaultLeaseTime))
    {
      var hostname := HostnameOption(grant.packet.options);
      LetPurgesRun(pause.purges);
      var lease := Lease(None, grant.subnetId, grant.mac, grant.ip, pause.now, pause.now + defaultLeaseTime, hostname);
      var newId := db.CreateLease(lease);
      r := Some(CreateAck(grant.packet, grant.ip, grant.subnet, defaultLeaseTime));
    }

    /** The address must not be leased to another client; the client's own lease is replaced. */
    method GrantUnlessHeld(grant: Grant, now: int, p: Pause, q: Pause) returns (r: Option<DhcpPacket>)
      modifies db`leases, db`nextLeaseId
      ensures var o := HolderDecides(old(db.leases), grant, now);
              && db.Table() == RequestTable(old(db.Table()), o.task, p, q, defaultLeaseTime)
              && r == RequestReply(o, grant.packet, defaultLeaseTime)
    {
      var activeLeases := db.ListActiveLeases(now);
      var existing := Find(OnAddress(grant.ip), activeLeases);
      if existing.Some? {
        if existing.value.macAddress != grant.mac {
          return None;
        }
        if existing.value.id.Some? {
          LetPurgesRun(p.purges);
          db.ExpireLease(existing.value.id.value);
          r := WriteLease(grant, q);
          return;
        }
      }
      r := WriteLease(grant, p);
    }

    /** The rest of a REQUEST once no reservation applies: range, current holder, lease. */
    method RequestFromRange(packet: DhcpPacket, mac: string, ip: u32, ifaceIps: seq<u32>, now: int, p: Pause, q: Pause)
      returns (r: Option<DhcpPacket>)
      requires mac == Lower(ClientOf(packet))
      modifies db`leases, db`nextLeaseId
      ensures var o := RequestDynamic(db.Configuration(), old(db.leases), packet, ip, ifaceIps, now);
              && db.Table() == RequestTable(old(db.Table()), o.task, p, q, defaultLeaseTime)
              && r == RequestReply(o, packet, defaultLeaseTime)
    {
      var found := FindMatchingRange(ip, ifaceIps);
      if found.None? {
        return None;
      }
      r := GrantUnlessHeld(Grant(packet, mac, ip, found.value.0.subnetId, found.value.1), now, p, q);
    }

    method HandleRequest(packet: DhcpPacket, ifaceIps: seq<u32>, now: int, p: Pause, q: Pause) returns (r: Option<DhcpPacket>)
      modifies db`leases, db`nextLeaseId
      ensures var o := OnRequest(db.Configuration(), old(db.leases), packet, ifaceIps, defaultLeaseTime, now);
              && db.Table() == RequestTable(old(db.Table()), o.task, p, q, defaultLeaseTime)
              && r == RequestReply(o, packet, defaultLeaseTime)
    {
      var mac := Lower(MacToString(packet.chaddr));
      var requested := RequestedIp(packet);
      if requested.None? {
        return None;
      }
      var ip := requested.value;
      var reserved := db.GetStaticIpByMac(mac);
      if reserved.Some? {
        if reserved.value.ipAddress == ip {
          var subnet := db.FindSubnet(reserved.value.subnetId);
          if subnet.None? {
            return None;
          }
          var reachable := IsIfaceInSubnet(ifaceIps, subnet.value);
          if !reachable {
            return None;
          }
          return Some(CreateAck(packet, ip, subnet.value, defaultLeaseTime));
        }
        return None;
      }
      r := RequestFromRange(packet, mac, ip, ifaceIps, now, p, q);
    }

    method HandleRelease(packet: DhcpPacket, now: int, pause: Pause)
      modifies db`leases
      ensures var o := OnRelease(old(db.leases), packet, now);
              db.Table() == if o.task.Releasing? then Expire(PurgeAll(old(db.Table()), pause.purges), o.task.id) else old(db.Table())
    {
      var mac := MacToString(packet.chaddr);
      var lease := db.FindActiveLease(mac, now);
      if lease.Some? {
        if lease.value.id.Some? {
          LetPurgesRun(pause.purges);
          db.ExpireLease(lease.value.id.value);
        }
      }
    }

    /** A packet is served exactly as the state machine serves it. */
    method HandlePacket(packet: DhcpPacket, ifaceIps: seq<u32>, now: int, p: Pause, q: Pause, ghost clock: int)
      returns (r: Option<DhcpPacket>)
      modifies db`leases, db`nextLeaseId
      ensures var (s, reply) := Serve(State(db.Configuration(), old(db.Table()), Idle, clock), packet, ifaceIps, now, p, q, defaultLeaseTime);
              db.Table() == s.table && db.Configuration() == s.net && r == reply
    {
      ghost var s0 := State(db.Configuration(), db.Table(), Idle, clock);
      r := None;
      var messageType := GetMessageType(packet);
      match messageType {
        case Some(Discover) =>
          ServedDiscover(s0, packet, ifaceIps, now, p, q, defaultLeaseTime);
          r := HandleDiscover(packet, ifaceIps, now, p);
        case Some(Request) =>
          ServedRequest(s0, packet, ifaceIps, now, p, q, defaultLeaseTime);
          r := HandleRequest(packet, ifaceIps, now, p, q);
        case Some(Release) =>
          ServedOther(s0, packet, ifaceIps, now, p, q, defaultLeaseTime);
          HandleRelease(packet, now, p);
        case _ =>
          ServedOther(s0, packet, ifaceIps, now, p, q, defaultLeaseTime);
      }
    }

    /** One round of the listening loop: a datagram in, the bytes of the answer out;
        what does not parse is dropped without touching the tables. */
    method HandleDatagram(data: seq<u8>, ifaceIps: seq<u32>, now: int, p: Pause, q: Pause, ghost clock: int)
      returns (r: Option<seq<u8>>)
      modifies db`leases, db`nextLeaseId
      ensures match Decode(data)
              case Failure(_) => r == None && db.Table() == old(db.Table())
              case Success(packet) =>
                var (s, reply) := Serve(State(db.Configuration(), old(db.Table()), Idle, clock), packet, ifaceIps, now, p, q, defaultLeaseTime);
                db.Table() == s.table && r == (if reply.Some? then Some(Encode(reply.value)) else None)
    {
      var parsed := Parse(data);
      match parsed {
        case Failure(_) => r := None;
        case Success(packet) =>
          var reply := HandlePacket(packet, ifaceIps, now, p, q, clock);
          r := None;
          if reply.Some? {
            var bytes := ToBytes(reply.value);
            r := Some(bytes);
          }
      }
    }
  }
}
