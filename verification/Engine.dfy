/** The DHCPv4 server as a deterministic state machine over timed events.

    Packets are served one at a time, but serving one suspends between two
    accesses to the lease table, and the purge task, the operator's edits and
    the clock move on in the meantime. Each such stretch of a handler is one
    step here. An event carries the clock reading that its table access uses;
    the purge task may have read the clock before or after the handlers around it. */
module Engine {
  import opened Prelude
  import opened Utf8
  import opened MacAddress
  import opened DhcpOptions
  import opened DhcpPackets
  import opened Cidr
  import opened Models
  import opened Database

  /** The configured `default_lease_time`, in seconds. */
  type LeaseSeconds = u32

  // ------------------------------------------------------------------
  // Replies

  function NetmaskFromPrefix(prefix: u8): u32 {
    Mask(prefix)
  }

  predicate IfaceInSubnet(ifaceIps: seq<u32>, subnet: Subnet) {
    exists k :: 0 <= k < |ifaceIps| && Matches(ifaceIps[k], subnet.network, subnet.netmask)
  }

  function DomainOptions(subnet: Subnet): seq<DhcpOption> {
    if subnet.domainName.Some? then [DomainName(subnet.domainName.value)] else []
  }

  function Reply(request: DhcpPacket, ip: u32, subnet: Subnet, options: seq<DhcpOption>): DhcpPacket {
    NewPacket().(op := 2, xid := request.xid, yiaddr := ip, chaddr := request.chaddr, siaddr := subnet.gateway,
                 options := options)
  }

  function CreateOffer(request: DhcpPacket, ip: u32, subnet: Subnet, d: LeaseSeconds): DhcpPacket {
    Reply(request, ip, subnet,
          [MessageTypeOption(Offer), ServerIdentifier(subnet.gateway), LeaseTime(d),
           SubnetMask(NetmaskFromPrefix(subnet.netmask)), Router([subnet.gateway]), DnsServer(subnet.dnsServers)]
          + DomainOptions(subnet))
  }

  /** `default_lease_time * 7 / 8` on a `u32`: the product wraps. */
  function RebindingSeconds(d: LeaseSeconds): u32 {
    (d * 7) % 0x1_0000_0000 / 8
  }

  function CreateAck(request: DhcpPacket, ip: u32, subnet: Subnet, d: LeaseSeconds): DhcpPacket {
    Reply(request, ip, subnet,
          [MessageTypeOption(Ack), ServerIdentifier(subnet.gateway), LeaseTime(d),
           RenewalTime(d / 2), RebindingTime(RebindingSeconds(d)),
           SubnetMask(NetmaskFromPrefix(subnet.netmask)), Router([subnet.gateway]), DnsServer(subnet.dnsServers)]
          + DomainOptions(subnet))
  }

  // ------------------------------------------------------------------
  // What a request asks for

  function ClientOf(packet: DhcpPacket): string {
    MacToString(packet.chaddr)
  }

  function RequestedOption(options: seq<DhcpOption>): Option<u32> {
    if options == [] then None
    else if options[0].RequestedIpAddress? then Some(options[0].address)
    else RequestedOption(options[1..])
  }

  function HostnameOption(options: seq<DhcpOption>): Option<Text> {
    if options == [] then None
    else if options[0].Hostname? then Some(options[0].text)
    else HostnameOption(options[1..])
  }

  function RequestedIp(packet: DhcpPacket): Option<u32> {
    match RequestedOption(packet.options)
    case Some(ip) => Some(ip)
    case None => if packet.ciaddr != 0 then Some(packet.ciaddr) else None
  }

  // ------------------------------------------------------------------
  // The dynamic scan

  function LeasedIps(leases: seq<Lease>, now: int): set<u32> {
    set l | l in ActiveLeases(leases, now) :: l.ipAddress
  }

  function ScanAddresses(lo: int, hi: u32, leased: set<u32>): Option<u32>
    requires 0 <= lo
    decreases hi + 1 - lo
  {
    if lo > hi then None else if lo !in leased then Some(lo) else ScanAddresses(lo + 1, hi, leased)
  }

  function ScanRanges(ranges: seq<DynamicRange>, leased: set<u32>): Option<u32> {
    if ranges == [] then None
    else
      var r := ranges[0];
      var found := if r.enabled then ScanAddresses(r.rangeStart, r.rangeEnd, leased) else None;
      if found.Some? then found else ScanRanges(ranges[1..], leased)
  }

  function ScanSubnet(subnet: Subnet, ranges: seq<DynamicRange>, leased: set<u32>, ifaceIps: seq<u32>): Option<u32> {
    if IfaceInSubnet(ifaceIps, subnet) && subnet.id.Some? then
      ScanRanges(Filter(RangeOfSubnet(subnet.id.value), ranges), leased)
    else None
  }

  function ScanSubnets(subnets: seq<Subnet>, ranges: seq<DynamicRange>, leased: set<u32>, ifaceIps: seq<u32>)
    : Option<(u32, Subnet)>
  {
    if subnets == [] then None
    else
      match ScanSubnet(subnets[0], ranges, leased, ifaceIps)
      case Some(ip) => Some((ip, subnets[0]))
      case None => ScanSubnets(subnets[1..], ranges, leased, ifaceIps)
  }

  // ------------------------------------------------------------------
  // The range lookup of a REQUEST

  predicate Covers(r: DynamicRange, ip: u32) {
    r.enabled && r.rangeStart <= ip <= r.rangeEnd
  }

  predicate Reachable(net: Net, subnetId: int, ifaceIps: seq<u32>) {
    GetSubnet(net, subnetId).Some? && IfaceInSubnet(ifaceIps, GetSubnet(net, subnetId).value)
  }

  /** An enabled range with the address, on a subnet that exists and is reachable. */
  function ServesAddress(net: Net, ip: u32, ifaceIps: seq<u32>): DynamicRange -> bool {
    (r: DynamicRange) => Covers(r, ip) && Reachable(net, r.subnetId, ifaceIps)
  }

  function FindServingRange(net: Net, ip: u32, ifaceIps: seq<u32>): Option<DynamicRange> {
    Find(ServesAddress(net, ip, ifaceIps), net.ranges)
  }

  // ------------------------------------------------------------------
  // States and steps

  /** A lease about to be written. */
  datatype Grant = Grant(packet: DhcpPacket, mac: string, ip: u32, subnetId: int, subnet: Subnet)

  /** Where the handler of the current packet is suspended. */
  datatype Task =
    | Idle
    | Scanning(request: DhcpPacket, ifaceIps: seq<u32>)
    | Expiring(id: int, grant: Grant)
    | Creating(grant: Grant)
    | Releasing(mac: string, id: int)

  /** `clock` is the largest reading that a handler has used so far. */
  datatype State = State(net: Net, table: LeaseTable, task: Task, clock: int)

  datatype Event =
    | Receive(packet: DhcpPacket, ifaceIps: seq<u32>, now: int)
    | Resume(now: int)
    | PurgeRun(now: int)
    | Reconfigure(net: Net)

  datatype Outcome = Outcome(task: Task, reply: Option<DhcpPacket>)

  function Done(reply: Option<DhcpPacket>): Outcome {
    Outcome(Idle, reply)
  }

  /** DISCOVER up to and including the lookup of the client's own lease. */
  function OnDiscover(net: Net, leases: seq<Lease>, packet: DhcpPacket, ifaceIps: seq<u32>, d: LeaseSeconds, now: int): Outcome {
    var reserved := GetStaticIp(net, ClientOf(packet));
    if reserved.Some? && GetSubnet(net, reserved.value.subnetId).None? then Done(None)
    else if reserved.Some? && Reachable(net, reserved.value.subnetId, ifaceIps) then
      Done(Some(CreateOffer(packet, reserved.value.ipAddress, GetSubnet(net, reserved.value.subnetId).value, d)))
    else
      var lease := GetActiveLease(leases, ClientOf(packet), now);
      if lease.Some? && GetSubnet(net, lease.value.subnetId).None? then Done(None)
      else if lease.Some? && Reachable(net, lease.value.subnetId, ifaceIps) then
        Done(Some(CreateOffer(packet, lease.value.ipAddress, GetSubnet(net, lease.value.subnetId).value, d)))
      else Outcome(Scanning(packet, ifaceIps), None)
  }

  function Scan(net: Net, leases: seq<Lease>, packet: DhcpPacket, ifaceIps: seq<u32>, d: LeaseSeconds, now: int): Option<DhcpPacket> {
    match ScanSubnets(net.subnets, net.ranges, LeasedIps(leases, now), ifaceIps)
    case Some(found) => Some(CreateOffer(packet, found.0, found.1, d))
    case None => None
  }

  /** REQUEST of a client with a reservation: only that address, only where it is reachable. */
  function RequestReserved(net: Net, reserved: StaticIp, packet: DhcpPacket, ip: u32, ifaceIps: seq<u32>, d: LeaseSeconds)
    : Option<DhcpPacket>
  {
    if reserved.ipAddress == ip && Reachable(net, reserved.subnetId, ifaceIps) then
      Some(CreateAck(packet, ip, GetSubnet(net, reserved.subnetId).value, d))
    else None
  }

  /** The address of a grant is free, the client's own, or refused. */
  function HolderDecides(leases: seq<Lease>, grant: Grant, now: int): Outcome {
    match Find(OnAddress(grant.ip), ActiveLeases(leases, now))
    case None => Outcome(Creating(grant), None)
    case Some(existing) =>
      if existing.macAddress != grant.mac then Done(None)
      else if existing.id.Some? then Outcome(Expiring(existing.id.value, grant), None)
      else Outcome(Creating(grant), None)
  }

  /** REQUEST of any other client, up to and including the reading of the active leases. */
  function RequestDynamic(net: Net, leases: seq<Lease>, packet: DhcpPacket, ip: u32, ifaceIps: seq<u32>, now: int): Outcome {
    var mac := Lower(ClientOf(packet));
    match FindServingRange(net, ip, ifaceIps)
    case None => Done(None)
    case Some(range) =>
      FindSpec(ServesAddress(net, ip, ifaceIps), net.ranges);
      HolderDecides(leases, Grant(packet, mac, ip, range.subnetId, GetSubnet(net, range.subnetId).value), now)
  }

  function OnRequest(net: Net, leases: seq<Lease>, packet: DhcpPacket, ifaceIps: seq<u32>, d: LeaseSeconds, now: int): Outcome {
    match RequestedIp(packet)
    case None => Done(None)
    case Some(ip) =>
      match GetStaticIp(net, Lower(ClientOf(packet)))
      case Some(reserved) => Done(RequestReserved(net, reserved, packet, ip, ifaceIps, d))
      case None => RequestDynamic(net, leases, packet, ip, ifaceIps, now)
  }

  /** Whatever a REQUEST suspends on, the grant is for its sender and the address it asks for. */
  lemma RequestSuspends(net: Net, leases: seq<Lease>, packet: DhcpPacket, ifaceIps: seq<u32>, d: LeaseSeconds, now: int)
    ensures var o := OnRequest(net, leases, packet, ifaceIps, d, now);
            && (o.task.Idle? || ((o.task.Expiring? || o.task.Creating?) && o.reply.None?))
            && (GetStaticIp(net, Lower(ClientOf(packet))).None? ==> o.reply.None?)
            && (o.task.Expiring? || o.task.Creating? ==>
                  var g := o.task.grant;
                  g.packet == packet && g.mac == Lower(ClientOf(packet)) && RequestedIp(packet) == Some(g.ip)
                  && GetStaticIp(net, g.mac).None?)
  {
  }

  /** The grant carries the first range that serves the address, and its subnet. */
  lemma RequestSubnet(net: Net, leases: seq<Lease>, packet: DhcpPacket, ifaceIps: seq<u32>, d: LeaseSeconds, now: int)
    ensures var o := OnRequest(net, leases, packet, ifaceIps, d, now);
            o.task.Expiring? || o.task.Creating? ==>
              var g := o.task.grant;
              && FindServingRange(net, g.ip, ifaceIps).Some?
              && g.subnetId == FindServingRange(net, g.ip, ifaceIps).value.subnetId
              && GetSubnet(net, g.subnetId) == Some(g.subnet)
  {
    if RequestedIp(packet).Some? {
      FindSpec(ServesAddress(net, RequestedIp(packet).value, ifaceIps), net.ranges);
    }
  }

  function OnRelease(leases: seq<Lease>, packet: DhcpPacket, now: int): Outcome {
    match GetActiveLease(leases, ClientOf(packet), now)
    case Some(lease) => if lease.id.Some? then Outcome(Releasing(ClientOf(packet), lease.id.value), None) else Done(None)
    case None => Done(None)
  }

  function Dispatch(net: Net, leases: seq<Lease>, packet: DhcpPacket, ifaceIps: seq<u32>, d: LeaseSeconds, now: int): Outcome {
    match MessageTypeOf(packet.options)
    case Some(Discover) => OnDiscover(net, leases, packet, ifaceIps, d, now)
    case Some(Request) => OnRequest(net, leases, packet, ifaceIps, d, now)
    case Some(Release) => OnRelease(leases, packet, now)
    case _ => Done(None)
  }

  lemma DiscoverSuspends(net: Net, leases: seq<Lease>, packet: DhcpPacket, ifaceIps: seq<u32>, d: LeaseSeconds, now: int)
    ensures var o := OnDiscover(net, leases, packet, ifaceIps, d, now);
            o.task.Idle? || (o.task.Scanning? && o.reply.None?)
  {
  }

  /** Which message leads to which suspension. */
  lemma DispatchSuspends(net: Net, leases: seq<Lease>, packet: DhcpPacket, ifaceIps: seq<u32>, d: LeaseSeconds, now: int)
    ensures var o := Dispatch(net, leases, packet, ifaceIps, d, now);
            && (o.task.Expiring? || o.task.Creating? ==>
                  MessageTypeOf(packet.options) == Some(MessageType.Request) && o == OnRequest(net, leases, packet, ifaceIps, d, now))
            && (o.task.Releasing? ==>
                  MessageTypeOf(packet.options) == Some(MessageType.Release) && o == OnRelease(leases, packet, now))
            && (!o.task.Idle? ==> o.reply.None?)
  {
    match MessageTypeOf(packet.options) {
      case Some(Discover) => DiscoverSuspends(net, leases, packet, ifaceIps, d, now);
      case Some(Request) => RequestSuspends(net, leases, packet, ifaceIps, d, now);
      case _ =>
    }
  }

  function NewLease(g: Grant, d: LeaseSeconds, now: int): Lease {
    Lease(None, g.subnetId, g.mac, g.ip, now, now + d, HostnameOption(g.packet.options))
  }

  /** The suspended handler goes on: the table afterwards, and where it suspends next. */
  function Continue(s: State, d: LeaseSeconds, now: int): (LeaseTable, Outcome) {
    match s.task
    case Idle => (s.table, Done(None))
    case Scanning(packet, ifaceIps) => (s.table, Done(Scan(s.net, s.table.leases, packet, ifaceIps, d, now)))
    case Expiring(id, g) => (Expire(s.table, id), Outcome(Creating(g), None))
    case Creating(g) => (Create(s.table, NewLease(g, d, now)), Done(Some(CreateAck(g.packet, g.ip, g.subnet, d))))
    case Releasing(mac, id) => (Expire(s.table, id), Done(None))
  }

  /** One step: the next state, and the packet sent. */
  function Step(s: State, e: Event, d: LeaseSeconds): (State, Option<DhcpPacket>) {
    match e
    case Receive(packet, ifaceIps, now) =>
      var o := Dispatch(s.net, s.table.leases, packet, ifaceIps, d, now);
      (s.(task := o.task, clock := Max(s.clock, now)), o.reply)
    case Resume(now) =>
      var (t, o) := Continue(s, d, now);
      (s.(table := t, task := o.task, clock := Max(s.clock, now)), o.reply)
    case PurgeRun(now) => (s.(table := Purge(s.table, now)), None)
    case Reconfigure(net) => (s.(net := net), None)
  }

  /** Packets are handled one at a time, and the readings of the handlers never go back. */
  predicate Enabled(s: State, e: Event) {
    match e
    case Receive(_, _, now) => s.task.Idle? && s.clock <= now
    case Resume(now) => !s.task.Idle? && s.clock <= now
    case PurgeRun(_) => true
    case Reconfigure(_) => true
  }

  function After(s: State, es: seq<Event>, d: LeaseSeconds): State
    decreases |es|
  {
    if es == [] then s else After(Step(s, es[0], d).0, es[1..], d)
  }

  predicate Run(s: State, es: seq<Event>, d: LeaseSeconds)
    decreases |es|
  {
    es == [] || (Enabled(s, es[0]) && Run(Step(s, es[0], d).0, es[1..], d))
  }

  // When the purge task reads the clock, relative to the handlers.

  predicate IsReading(e: Event) {
    e.Receive? || e.Resume?
  }

  /** Every reading of a handler is `lo` or later. */
  predicate ReadingsFrom(es: seq<Event>, lo: int) {
    forall k :: 0 <= k < |es| && IsReading(es[k]) ==> lo <= es[k].now
  }

  /** Every reading of a handler but the next one is `lo` or later. */
  predicate ReadingsAfterNext(es: seq<Event>, lo: int) {
    if es == [] then true
    else if IsReading(es[0]) then ReadingsFrom(es[1..], lo)
    else ReadingsAfterNext(es[1..], lo)
  }

  /** No clock goes back: the handler that accesses the table next after a purge
      may have read the clock before the purge did; any later reading comes after both. */
  predicate CausalPurges(es: seq<Event>) {
    forall k :: 0 <= k < |es| && es[k].PurgeRun? ==> ReadingsAfterNext(es[k + 1..], es[k].now)
  }

  /** No purge reads the clock ahead of a handler that accesses the table after it. */
  predicate PunctualPurges(es: seq<Event>) {
    forall k :: 0 <= k < |es| && es[k].PurgeRun? ==> ReadingsFrom(es[k + 1..], es[k].now)
  }

  /** No purge reads a time past `t`. */
  predicate PurgesUpTo(es: seq<Event>, t: int) {
    forall e :: e in es && e.PurgeRun? ==> e.now <= t
  }

  lemma TailReadingsFrom(es: seq<Event>, lo: int)
    requires es != [] && ReadingsFrom(es, lo)
    ensures ReadingsFrom(es[1..], lo)
  {
    forall k | 0 <= k < |es| - 1 && IsReading(es[1..][k]) ensures lo <= es[1..][k].now {
      assert es[1..][k] == es[k + 1];
    }
  }

  lemma {:induction false} FromImpliesAfterNext(es: seq<Event>, lo: int)
    requires ReadingsFrom(es, lo)
    ensures ReadingsAfterNext(es, lo)
  {
    if es != [] {
      TailReadingsFrom(es, lo);
      FromImpliesAfterNext(es[1..], lo);
    }
  }

  lemma CausalTail(es: seq<Event>, i: nat)
    requires CausalPurges(es) && i <= |es|
    ensures CausalPurges(es[i..])
  {
    forall k | 0 <= k < |es[i..]| && es[i..][k].PurgeRun? ensures ReadingsAfterNext(es[i..][k + 1..], es[i..][k].now) {
      assert es[i..][k + 1..] == es[i + k + 1..] && es[i..][k] == es[i + k];
    }
  }

  /** The readings of the handlers in a run only go up. */
  lemma {:induction false} ReadingsGoUp(s: State, es: seq<Event>, d: LeaseSeconds)
    requires Run(s, es, d)
    ensures ReadingsFrom(es, s.clock)
    decreases |es|
  {
    if es != [] {
      ReadingsGoUp(Step(s, es[0], d).0, es[1..], d);
      forall k | 0 <= k < |es| && IsReading(es[k]) ensures s.clock <= es[k].now {
        assert k > 0 ==> es[k] == es[1..][k - 1];
      }
    }
  }

  predicate Initial(s: State) {
    s.table == LeaseTable([], 1) && s.task.Idle?
  }

  lemma {:induction false} AfterAppend(s: State, a: seq<Event>, b: seq<Event>, d: LeaseSeconds)
    ensures After(s, a + b, d) == After(After(s, a, d), b, d)
    ensures Run(s, a + b, d) <==> Run(s, a, d) && Run(After(s, a, d), b, d)
    decreases |a|
  {
    if a == [] {
      assert a + b == b;
    } else {
      assert (a + b)[0] == a[0] && (a + b)[1..] == a[1..] + b;
      AfterAppend(Step(s, a[0], d).0, a[1..], b, d);
    }
  }

  // ------------------------------------------------------------------
  // Serving one packet to the end

  /** What happens while a handler is suspended: purge runs, then the reading with which it goes on. */
  datatype Pause = Pause(purges: seq<int>, now: int)

  function PurgeEvents(purges: seq<int>): (r: seq<Event>)
    ensures |r| == |purges|
  {
    if purges == [] then [] else [PurgeRun(purges[0])] + PurgeEvents(purges[1..])
  }

  /** The events of one pause, if the handler is suspended at all. */
  function PauseEvents(s: State, p: Pause): seq<Event> {
    if s.task.Idle? then [] else PurgeEvents(p.purges) + [Resume(p.now)]
  }

  /** The suspended handler, if any, goes on after the pause; `reply` is what it has answered so far. */
  function GoOn(s: State, reply: Option<DhcpPacket>, p: Pause, d: LeaseSeconds): (State, Option<DhcpPacket>) {
    if s.task.Idle? then (s, reply) else Step(After(s, PurgeEvents(p.purges), d), Resume(p.now), d)
  }

  /** Serving one packet: reception and at most two suspensions. */
  function Serve(s: State, packet: DhcpPacket, ifaceIps: seq<u32>, now: int, p: Pause, q: Pause, d: LeaseSeconds)
    : (State, Option<DhcpPacket>)
  {
    var (s1, r1) := Step(s, Receive(packet, ifaceIps, now), d);
    var (s2, r2) := GoOn(s1, r1, p, d);
    GoOn(s2, r2, q, d)
  }

  /** The same, as a list of events. */
  function ServeEvents(s: State, packet: DhcpPacket, ifaceIps: seq<u32>, now: int, p: Pause, q: Pause, d: LeaseSeconds): seq<Event> {
    var s1 := Step(s, Receive(packet, ifaceIps, now), d).0;
    var s2 := After(s1, PauseEvents(s1, p), d);
    [Receive(packet, ifaceIps, now)] + (PauseEvents(s1, p) + PauseEvents(s2, q))
  }

  lemma PauseIsRun(s: State, reply: Option<DhcpPacket>, p: Pause, d: LeaseSeconds)
    ensures After(s, PauseEvents(s, p), d) == GoOn(s, reply, p, d).0
  {
    if !s.task.Idle? {
      AfterAppend(s, PurgeEvents(p.purges), [Resume(p.now)], d);
    }
  }

  /** A handler suspends at most twice, and serving a packet is the run of its events. */
  lemma ServeIsRun(s: State, packet: DhcpPacket, ifaceIps: seq<u32>, now: int, p: Pause, q: Pause, d: LeaseSeconds)
    ensures Serve(s, packet, ifaceIps, now, p, q, d).0 == After(s, ServeEvents(s, packet, ifaceIps, now, p, q, d), d)
    ensures Serve(s, packet, ifaceIps, now, p, q, d).0.task.Idle?
  {
    var s1 := Step(s, Receive(packet, ifaceIps, now), d).0;
    PauseIsRun(s1, None, p, d);
    var s2 := After(s1, PauseEvents(s1, p), d);
    PauseIsRun(s2, None, q, d);
    AfterAppend(s1, PauseEvents(s1, p), PauseEvents(s2, q), d);
    PurgesKeepTask(s1, p.purges, d);
    PurgesKeepTask(s2, q.purges, d);
  }

  lemma {:induction false} PurgesKeepTask(s: State, purges: seq<int>, d: LeaseSeconds)
    ensures var t := After(s, PurgeEvents(purges), d);
            t.task == s.task && t.net == s.net && t.table.nextId == s.table.nextId && t.clock == s.clock
    ensures Run(s, PurgeEvents(purges), d)
    decreases |purges|
  {
    if purges != [] {
      PurgesKeepTask(Step(s, PurgeRun(purges[0]), d).0, purges[1..], d);
    }
  }

  // ------------------------------------------------------------------
  // Serving a packet, in closed form

  function PurgeAll(t: LeaseTable, purges: seq<int>): LeaseTable
    decreases |purges|
  {
    if purges == [] then t else PurgeAll(Purge(t, purges[0]), purges[1..])
  }

  lemma {:induction false} PurgeEventsPurge(s: State, purges: seq<int>, d: LeaseSeconds)
    ensures var t := After(s, PurgeEvents(purges), d);
            t.table == PurgeAll(s.table, purges) && t.net == s.net && t.task == s.task
    decreases |purges|
  {
    if purges != [] {
      PurgeEventsPurge(Step(s, PurgeRun(purges[0]), d).0, purges[1..], d);
    }
  }

  lemma ServedDiscover(s: State, packet: DhcpPacket, ifaceIps: seq<u32>, now: int, p: Pause, q: Pause, d: LeaseSeconds)
    requires MessageTypeOf(packet.options) == Some(MessageType.Discover)
    ensures var o := OnDiscover(s.net, s.table.leases, packet, ifaceIps, d, now);
            var (t, reply) := Serve(s, packet, ifaceIps, now, p, q, d);
            && t.net == s.net
            && (if o.task.Idle? then t.table == s.table && reply == o.reply
                else t.table == PurgeAll(s.table, p.purges) && reply == Scan(s.net, t.table.leases, packet, ifaceIps, d, p.now))
  {
    PurgeEventsPurge(Step(s, Receive(packet, ifaceIps, now), d).0, p.purges, d);
  }

  /** The reading that stamps the lease which a REQUEST suspended on `task` writes. */
  function StampOf(task: Task, p: Pause, q: Pause): int {
    if task.Expiring? then q.now else p.now
  }

  /** The table after a REQUEST suspended on `task` has been served. */
  function RequestTable(t: LeaseTable, task: Task, p: Pause, q: Pause, d: LeaseSeconds): LeaseTable {
    match task
    case Expiring(id, g) => Create(PurgeAll(Expire(PurgeAll(t, p.purges), id), q.purges), NewLease(g, d, q.now))
    case Creating(g) => Create(PurgeAll(t, p.purges), NewLease(g, d, p.now))
    case _ => t
  }

  function RequestReply(o: Outcome, packet: DhcpPacket, d: LeaseSeconds): Option<DhcpPacket> {
    if o.task.Expiring? || o.task.Creating? then Some(CreateAck(packet, o.task.grant.ip, o.task.grant.subnet, d)) else o.reply
  }

  lemma GoOnCreating(s: State, reply: Option<DhcpPacket>, p: Pause, d: LeaseSeconds)
    requires s.task.Creating?
    ensures var g := s.task.grant;
            var (t, r) := GoOn(s, reply, p, d);
            && t.net == s.net && t.task.Idle? && t.table == Create(PurgeAll(s.table, p.purges), NewLease(g, d, p.now))
            && r == Some(CreateAck(g.packet, g.ip, g.subnet, d))
  {
    PurgeEventsPurge(s, p.purges, d);
  }

  lemma GoOnExpiring(s: State, reply: Option<DhcpPacket>, p: Pause, d: LeaseSeconds)
    requires s.task.Expiring?
    ensures var t := GoOn(s, reply, p, d).0;
            t.net == s.net && t.task == Creating(s.task.grant) && t.table == Expire(PurgeAll(s.table, p.purges), s.task.id)
  {
    PurgeEventsPurge(s, p.purges, d);
  }

  lemma ServedRequest(s: State, packet: DhcpPacket, ifaceIps: seq<u32>, now: int, p: Pause, q: Pause, d: LeaseSeconds)
    requires MessageTypeOf(packet.options) == Some(MessageType.Request)
    ensures var o := OnRequest(s.net, s.table.leases, packet, ifaceIps, d, now);
            var (t, reply) := Serve(s, packet, ifaceIps, now, p, q, d);
            t.net == s.net && t.table == RequestTable(s.table, o.task, p, q, d) && reply == RequestReply(o, packet, d)
  {
    RequestSuspends(s.net, s.table.leases, packet, ifaceIps, d, now);
    var o := OnRequest(s.net, s.table.leases, packet, ifaceIps, d, now);
    var s1 := s.(task := o.task, clock := Max(s.clock, now));
    assert Step(s, Receive(packet, ifaceIps, now), d) == (s1, o.reply);
    if o.task.Expiring? {
      GoOnExpiring(s1, o.reply, p, d);
      var (s2, r2) := GoOn(s1, o.reply, p, d);
      GoOnCreating(s2, r2, q, d);
    } else if o.task.Creating? {
      GoOnCreating(s1, o.reply, p, d);
    }
  }

  lemma ServedOther(s: State, packet: DhcpPacket, ifaceIps: seq<u32>, now: int, p: Pause, q: Pause, d: LeaseSeconds)
    requires MessageTypeOf(packet.options) != Some(MessageType.Discover) && MessageTypeOf(packet.options) != Some(MessageType.Request)
    ensures var (t, reply) := Serve(s, packet, ifaceIps, now, p, q, d);
            && t.net == s.net && reply == None
            && if MessageTypeOf(packet.options) == Some(MessageType.Release)
               then var o := OnRelease(s.table.leases, packet, now);
                    t.table == if o.task.Releasing? then Expire(PurgeAll(s.table, p.purges), o.task.id) else s.table
               else t.table == s.table
  {
    PurgeEventsPurge(Step(s, Receive(packet, ifaceIps, now), d).0, p.purges, d);
  }
}
