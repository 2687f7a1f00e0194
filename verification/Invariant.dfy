/** What every step keeps: leases on one address occupy disjoint, consecutive
    periods, ids are unique, and a suspended handler still may do what it is about to do. */
module Invariant {
  import opened Prelude
  import opened MacAddress
  import opened DhcpPackets
  import opened Models
  import opened Database
  import opened Engine

  /** Between a lease and any later row: a smaller id and, on the same address, an earlier period. */
  predicate Precedes(a: Lease, b: Lease) {
    a.id.Some? && b.id.Some? && a.id.value < b.id.value
    && (a.ipAddress == b.ipAddress ==> a.leaseEnd <= b.leaseStart)
  }

  predicate WellFormedLease(l: Lease, nextId: int, clock: int, d: LeaseSeconds) {
    && l.id.Some? && l.id.value < nextId
    && l.leaseStart <= clock && l.leaseEnd == l.leaseStart + d
    && Lower(l.macAddress) == l.macAddress
  }

  ghost predicate WellFormedTable(t: LeaseTable, clock: int, d: LeaseSeconds) {
    && Pairwise(Precedes, t.leases)
    && forall l :: l in t.leases ==> WellFormedLease(l, t.nextId, clock, d)
  }

  /** Every lease on `ip` except possibly row `id` has ended. */
  ghost predicate EndedExcept(leases: seq<Lease>, ip: u32, id: Option<int>, clock: int) {
    forall l :: l in leases && l.ipAddress == ip && (id.None? || l.id != id) ==> l.leaseEnd <= clock
  }

  ghost predicate RowBelongs(leases: seq<Lease>, id: int, mac: string) {
    forall l :: l in leases && l.id == Some(id) ==> l.macAddress == mac
  }

  ghost predicate WellFormedTask(task: Task, leases: seq<Lease>, clock: int) {
    match task
    case Idle => true
    case Scanning(_, _) => true
    case Expiring(id, g) =>
      && g.mac == ClientOf(g.packet)
      && RowBelongs(leases, id, g.mac)
      && (forall l :: l in leases && l.id == Some(id) ==> l.ipAddress == g.ip)
      && EndedExcept(leases, g.ip, Some(id), clock)
    case Creating(g) => g.mac == ClientOf(g.packet) && EndedExcept(leases, g.ip, None, clock)
    case Releasing(mac, id) => RowBelongs(leases, id, mac)
  }

  ghost predicate Inv(s: State, d: LeaseSeconds) {
    WellFormedTable(s.table, s.clock, d) && WellFormedTask(s.task, s.table.leases, s.clock)
  }

  // ------------------------------------------------------------------
  // Facts about one table

  lemma SameRow(t: LeaseTable, clock: int, d: LeaseSeconds, a: Lease, b: Lease)
    requires WellFormedTable(t, clock, d) && a in t.leases && b in t.leases && a.id == b.id
    ensures a == b
  {
    var i :| 0 <= i < |t.leases| && t.leases[i] == a;
    var j :| 0 <= j < |t.leases| && t.leases[j] == b;
  }

  /** At any time from the last reading on, an address has at most one active lease. */
  lemma ActiveIsUnique(t: LeaseTable, clock: int, d: LeaseSeconds, now: int, a: Lease, b: Lease)
    requires WellFormedTable(t, clock, d) && clock <= now
    requires a in t.leases && b in t.leases && a.ipAddress == b.ipAddress && a.leaseEnd > now && b.leaseEnd > now
    ensures a == b
  {
    var i :| 0 <= i < |t.leases| && t.leases[i] == a;
    var j :| 0 <= j < |t.leases| && t.leases[j] == b;
  }

  lemma FilterKeepsTable(t: LeaseTable, keep: Lease -> bool, clock: int, clock': int, d: LeaseSeconds)
    requires WellFormedTable(t, clock, d) && clock <= clock'
    ensures WellFormedTable(t.(leases := Filter(keep, t.leases)), clock', d)
  {
    FilterMembers(keep, t.leases);
    FilterPairwise(Precedes, keep, t.leases);
  }

  lemma FilterKeepsTask(task: Task, leases: seq<Lease>, keep: Lease -> bool, clock: int, clock': int)
    requires WellFormedTask(task, leases, clock) && clock <= clock'
    ensures WellFormedTask(task, Filter(keep, leases), clock')
  {
    FilterMembers(keep, leases);
  }

  lemma CreateKeepsTable(t: LeaseTable, g: Grant, clock: int, now: int, d: LeaseSeconds)
    requires WellFormedTable(t, clock, d) && clock <= now && Lower(g.mac) == g.mac
    requires EndedExcept(t.leases, g.ip, None, clock)
    ensures WellFormedTable(Create(t, NewLease(g, d, now)), now, d)
  {
    var t' := Create(t, NewLease(g, d, now));
    forall i, j | 0 <= i < j < |t'.leases| ensures Precedes(t'.leases[i], t'.leases[j]) {
      assert t'.leases[i] in t.leases;
    }
  }

  // ------------------------------------------------------------------
  // Steps

  lemma LookupInTable(t: LeaseTable, clock: int, d: LeaseSeconds, mac: string, now: int)
    requires WellFormedTable(t, clock, d) && Lower(mac) == mac
    ensures var l := GetActiveLease(t.leases, mac, now);
            && (l.Some? ==> l.value in t.leases && l.value.macAddress == mac && l.value.leaseEnd > now && l.value.id.Some?)
            && (l.None? <==> forall x :: x in t.leases && x.macAddress == mac ==> x.leaseEnd <= now)
  {
    FirstActiveLease(t.leases, mac, now);
    forall l | l in t.leases ensures Lower(l.macAddress) == l.macAddress {
      assert WellFormedLease(l, t.nextId, clock, d);
    }
  }

  /** The lease found on an address decides about it alone: every other lease there has ended. */
  lemma HolderInTable(t: LeaseTable, clock: int, d: LeaseSeconds, ip: u32, now: int)
    requires WellFormedTable(t, clock, d) && clock <= now
    ensures var h := Find(OnAddress(ip), ActiveLeases(t.leases, now));
            && (h.Some? ==> h.value in t.leases && h.value.ipAddress == ip && h.value.leaseEnd > now && h.value.id.Some?
                            && EndedExcept(t.leases, ip, h.value.id, now))
            && (h.None? ==> EndedExcept(t.leases, ip, None, now))
  {
    FilterMembers(ActiveAt(now), t.leases);
    FindSpec(OnAddress(ip), ActiveLeases(t.leases, now));
    var h := Find(OnAddress(ip), ActiveLeases(t.leases, now));
    forall l | l in t.leases && l.ipAddress == ip && (h.None? || l.id != h.value.id) ensures l.leaseEnd <= now {
      if l.leaseEnd > now {
        assert l in ActiveLeases(t.leases, now) && OnAddress(ip)(l);
        ActiveIsUnique(t, clock, d, now, l, h.value);
      }
    }
  }

  lemma RequestKeepsInv(s: State, packet: DhcpPacket, ifaceIps: seq<u32>, now: int, d: LeaseSeconds)
    requires Inv(s, d) && s.clock <= now
    ensures WellFormedTask(OnRequest(s.net, s.table.leases, packet, ifaceIps, d, now).task, s.table.leases, now)
  {
    MacTextIsLower(packet.chaddr);
    var requested := RequestedIp(packet);
    if requested.Some? {
      var ip := requested.value;
      HolderInTable(s.table, s.clock, d, ip, now);
      var h := Find(OnAddress(ip), ActiveLeases(s.table.leases, now));
      if h.Some? {
        forall l | l in s.table.leases && l.id == h.value.id ensures l == h.value {
          SameRow(s.table, s.clock, d, l, h.value);
        }
      }
    }
  }

  lemma ReleaseKeepsInv(s: State, packet: DhcpPacket, now: int, d: LeaseSeconds)
    requires Inv(s, d)
    ensures WellFormedTask(OnRelease(s.table.leases, packet, now).task, s.table.leases, now)
  {
    MacTextIsLower(packet.chaddr);
    var mac := ClientOf(packet);
    LookupInTable(s.table, s.clock, d, mac, now);
    var lease := GetActiveLease(s.table.leases, mac, now);
    if lease.Some? {
      forall l | l in s.table.leases && l.id == lease.value.id ensures l.macAddress == mac {
        SameRow(s.table, s.clock, d, l, lease.value);
      }
    }
  }

  lemma ReceiveKeepsInv(s: State, packet: DhcpPacket, ifaceIps: seq<u32>, now: int, d: LeaseSeconds)
    requires Inv(s, d) && s.clock <= now
    ensures Inv(Step(s, Receive(packet, ifaceIps, now), d).0, d)
  {
    match MessageTypeOf(packet.options) {
      case Some(Discover) => DiscoverSuspends(s.net, s.table.leases, packet, ifaceIps, d, now);
      case Some(Request) => RequestKeepsInv(s, packet, ifaceIps, now, d);
      case Some(Release) => ReleaseKeepsInv(s, packet, now, d);
      case _ =>
    }
  }

  lemma ResumeKeepsInv(s: State, now: int, d: LeaseSeconds)
    requires Inv(s, d) && s.clock <= now
    ensures Inv(Step(s, Resume(now), d).0, d)
  {
    match s.task {
      case Expiring(id, g) =>
        FilterKeepsTable(s.table, LeaseLacksId(id), s.clock, now, d);
        FilterMembers(LeaseLacksId(id), s.table.leases);
      case Releasing(mac, id) =>
        FilterKeepsTable(s.table, LeaseLacksId(id), s.clock, now, d);
      case Creating(g) =>
        MacTextIsLower(g.packet.chaddr);
        CreateKeepsTable(s.table, g, s.clock, now, d);
      case _ =>
    }
  }

  lemma PurgeKeepsInv(s: State, now: int, d: LeaseSeconds)
    requires Inv(s, d)
    ensures Inv(Step(s, PurgeRun(now), d).0, d)
  {
    FilterKeepsTable(s.table, NotPurgedAt(now), s.clock, s.clock, d);
    FilterKeepsTask(s.task, s.table.leases, NotPurgedAt(now), s.clock, s.clock);
  }

  lemma StepKeepsInv(s: State, e: Event, d: LeaseSeconds)
    requires Inv(s, d) && Enabled(s, e)
    ensures Inv(Step(s, e, d).0, d)
  {
    match e {
      case Receive(packet, ifaceIps, now) => ReceiveKeepsInv(s, packet, ifaceIps, now, d);
      case Resume(now) => ResumeKeepsInv(s, now, d);
      case PurgeRun(now) => PurgeKeepsInv(s, now, d);
      case Reconfigure(_) =>
    }
  }

  lemma {:induction false} RunKeepsInv(s: State, es: seq<Event>, d: LeaseSeconds)
    requires Inv(s, d) && Run(s, es, d)
    ensures Inv(After(s, es, d), d) && s.clock <= After(s, es, d).clock
    decreases |es|
  {
    if es != [] {
      StepKeepsInv(s, es[0], d);
      RunKeepsInv(Step(s, es[0], d).0, es[1..], d);
    }
  }

  /** Main safety result: after any run, with purges of any readings and edits of
      the configuration between any two table accesses, no two leases that are
      active at any time from now on share an address, and ids are unique. */
  lemma NoAddressLeasedTwice(s: State, es: seq<Event>, d: LeaseSeconds, now: int, i: nat, j: nat)
    requires Initial(s) && Run(s, es, d)
    requires var t := After(s, es, d); t.clock <= now && i < j < |t.table.leases|
    ensures var leases := After(s, es, d).table.leases;
            leases[i].leaseEnd > now && leases[j].leaseEnd > now ==> leases[i].ipAddress != leases[j].ipAddress
    ensures var leases := After(s, es, d).table.leases; leases[i].id != leases[j].id
  {
    RunKeepsInv(s, es, d);
    var t := After(s, es, d);
    assert Precedes(t.table.leases[i], t.table.leases[j]);
    assert t.table.leases[j] in t.table.leases;
  }
}
