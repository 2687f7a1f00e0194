/** The in-memory database. Every table is a vector that its operations push
    to, filter in place and search from the front; ids come from counters. */
module Database {
  import opened Prelude
  import opened MacAddress
  import opened Models

  /** The tables that the operator edits. */
  datatype Net = Net(subnets: seq<Subnet>, ranges: seq<DynamicRange>, staticIps: seq<StaticIp>)

  /** The lease table and its id counter. */
  datatype LeaseTable = LeaseTable(leases: seq<Lease>, nextId: int)

  function GetSubnet(net: Net, id: int): Option<Subnet> {
    Find(SubnetHasId(id), net.subnets)
  }

  function GetStaticIp(net: Net, mac: string): Option<StaticIp> {
    Find(ReservedFor(mac), net.staticIps)
  }

  function ActiveLeases(leases: seq<Lease>, now: int): seq<Lease> {
    Filter(ActiveAt(now), leases)
  }

  function GetActiveLease(leases: seq<Lease>, mac: string, now: int): Option<Lease> {
    Find(ActiveLeaseOf(mac, now), leases)
  }

  /** Every lease that ends after `now`, once for each of its rows, in table order. */
  lemma ActiveLeasesInOrder(leases: seq<Lease>, now: int) returns (rows: seq<int>)
    ensures Selects(rows, ActiveAt(now), leases, ActiveLeases(leases, now))
    ensures forall l :: l in ActiveLeases(leases, now) <==> l in leases && l.leaseEnd > now
  {
    FilterMembers(ActiveAt(now), leases);
    rows := FilterSelects(ActiveAt(now), leases);
  }

  /** The client's first active lease; none exactly when each of its leases has ended. */
  lemma FirstActiveLease(leases: seq<Lease>, mac: string, now: int)
    ensures GetActiveLease(leases, mac, now).None?
       <==> forall l :: l in leases && Lower(l.macAddress) == Lower(mac) ==> l.leaseEnd <= now
    ensures GetActiveLease(leases, mac, now).Some?
        ==> exists k :: IsFirstMatch(ActiveLeaseOf(mac, now), leases, k) && GetActiveLease(leases, mac, now) == Some(leases[k])
  {
    var want := ActiveLeaseOf(mac, now);
    FindSpec(want, leases);
    if l :| l in leases && Lower(l.macAddress) == Lower(mac) && l.leaseEnd > now {
      assert want(l);
    }
    if GetActiveLease(leases, mac, now).Some? {
      var k := FirstMatch(want, leases);
    }
  }

  /** The first subnet with the id, and none exactly when there is no such subnet. */
  lemma FirstSubnet(net: Net, id: int)
    ensures GetSubnet(net, id).None? <==> forall s :: s in net.subnets ==> s.id != Some(id)
    ensures GetSubnet(net, id).Some? ==>
              exists k :: IsFirstMatch(SubnetHasId(id), net.subnets, k) && GetSubnet(net, id) == Some(net.subnets[k])
  {
    FindSpec(SubnetHasId(id), net.subnets);
    if s :| s in net.subnets && s.id == Some(id) {
      assert SubnetHasId(id)(s);
    }
    if GetSubnet(net, id).Some? {
      var k := FirstMatch(SubnetHasId(id), net.subnets);
    }
  }

  /** The client's first reservation, ignoring case, and none exactly when it has none. */
  lemma FirstReservation(net: Net, mac: string)
    ensures GetStaticIp(net, mac).None? <==> forall r :: r in net.staticIps ==> Lower(r.macAddress) != Lower(mac)
    ensures GetStaticIp(net, mac).Some? ==>
              exists k :: IsFirstMatch(ReservedFor(mac), net.staticIps, k) && GetStaticIp(net, mac) == Some(net.staticIps[k])
  {
    FindSpec(ReservedFor(mac), net.staticIps);
    if r :| r in net.staticIps && Lower(r.macAddress) == Lower(mac) {
      assert ReservedFor(mac)(r);
    }
    if GetStaticIp(net, mac).Some? {
      var k := FirstMatch(ReservedFor(mac), net.staticIps);
    }
  }

  function Expire(t: LeaseTable, id: int): LeaseTable {
    t.(leases := Filter(LeaseLacksId(id), t.leases))
  }

  function Create(t: LeaseTable, lease: Lease): LeaseTable {
    LeaseTable(t.leases + [lease.(id := Some(t.nextId))], t.nextId + 1)
  }

  function Purge(t: LeaseTable, now: int): LeaseTable {
    t.(leases := Filter(NotPurgedAt(now), t.leases))
  }

  class InMemoryDatabase {
    var subnets: seq<Subnet>
    var ranges: seq<DynamicRange>
    var staticIps: seq<StaticIp>
    var leases: seq<Lease>
    var nextSubnetId: int
    var nextLeaseId: int

    ghost function Configuration(): Net
      reads this
    {
      Net(subnets, ranges, staticIps)
    }

    ghost function Table(): LeaseTable
      reads this
    {
      LeaseTable(leases, nextLeaseId)
    }

    constructor ()
      ensures Configuration() == Net([], [], [])
      ensures Table() == LeaseTable([], 1) && nextSubnetId == 1
    {
      subnets, ranges, staticIps, leases := [], [], [], [];
      nextSubnetId, nextLeaseId := 1, 1;
    }

    method CreateSubnet(subnet: Subnet) returns (newId: int)
      modifies this`subnets, this`nextSubnetId
      ensures newId == old(nextSubnetId) && nextSubnetId == newId + 1
      ensures subnets == old(subnets) + [subnet.(id := Some(newId))]
    {
      newId := nextSubnetId;
      nextSubnetId := nextSubnetId + 1;
      subnets := subnets + [subnet.(id := Some(newId))];
    }

    method FindSubnet(id: int) returns (subnet: Option<Subnet>)
      ensures subnet == GetSubnet(Configuration(), id)
    {
      subnet := Find(SubnetHasId(id), subnets);
    }

    method DeleteSubnet(id: int)
      modifies this`subnets
      ensures subnets == Filter(SubnetLacksId(id), old(subnets))
    {
      subnets := Filter(SubnetLacksId(id), subnets);
    }

    method ListRanges(subnetId: Option<int>) returns (r: seq<DynamicRange>)
      ensures r == if subnetId.Some? then Filter(RangeOfSubnet(subnetId.value), ranges) else ranges
    {
      match subnetId {
        case Some(sid) => r := Filter(RangeOfSubnet(sid), ranges);
        case None => r := ranges;
      }
    }

    method GetStaticIpByMac(mac: string) returns (r: Option<StaticIp>)
      ensures r == GetStaticIp(Configuration(), mac)
    {
      r := Find(ReservedFor(mac), staticIps);
    }

    method CreateLease(lease: Lease) returns (newId: int)
      modifies this`leases, this`nextLeaseId
      ensures newId == old(nextLeaseId)
      ensures Table() == Create(old(Table()), lease)
    {
      newId := nextLeaseId;
      nextLeaseId := nextLeaseId + 1;
      leases := leases + [lease.(id := Some(newId))];
    }

    method FindActiveLease(mac: string, now: int) returns (r: Option<Lease>)
      ensures r == GetActiveLease(leases, mac, now)
    {
      r := Find(ActiveLeaseOf(mac, now), leases);
    }

    method ListActiveLeases(now: int) returns (r: seq<Lease>)
      ensures r == ActiveLeases(leases, now)
    {
      r := Filter(ActiveAt(now), leases);
    }

    method ExpireLease(id: int)
      modifies this`leases
      ensures Table() == Expire(old(Table()), id)
    {
      leases := Filter(LeaseLacksId(id), leases);
    }

    method DeleteExpiredLeases(now: int) returns (deleted: nat)
      modifies this`leases
      ensures Table() == Purge(old(Table()), now)
      ensures deleted == |old(leases)| - |leases|
    {
      var before := |leases|;
      leases := Filter(NotPurgedAt(now), leases);
      deleted := before - |leases|;
    }
  }
}
