/** The HTTP handlers that create and delete subnets: the registry stays free of overlaps. */
module Subnets {
  import opened Prelude
  import opened Cidr
  import opened Models
  import opened Database

  datatype Status = Conflict

  // ------------------------------------------------------------------
  // The registry as a state machine

  datatype Registry = Registry(subnets: seq<Subnet>, nextId: int)

  datatype Operation = CreateOp(subnet: Subnet) | DeleteOp(id: int)

  predicate Overlaps(a: Subnet, b: Subnet) {
    SubnetsOverlap(a.network, a.netmask, b.network, b.netmask)
  }

  predicate Apart(a: Subnet, b: Subnet) {
    !Overlaps(a, b)
  }

  function Conflicting(subnet: Subnet): Subnet -> bool {
    (existing: Subnet) => Overlaps(subnet, existing)
  }

  function Apply(r: Registry, op: Operation): (Registry, Result<int, Status>) {
    match op
    case CreateOp(subnet) =>
      if Find(Conflicting(subnet), r.subnets).Some? then (r, Failure(Conflict))
      else (Registry(r.subnets + [subnet.(id := Some(r.nextId))], r.nextId + 1), Success(r.nextId))
    case DeleteOp(id) => (r.(subnets := Filter(SubnetLacksId(id), r.subnets)), Success(id))
  }

  function ApplyAll(r: Registry, ops: seq<Operation>): Registry
    decreases |ops|
  {
    if ops == [] then r else ApplyAll(Apply(r, ops[0]).0, ops[1..])
  }

  const EMPTY := Registry([], 1)

  // ------------------------------------------------------------------
  // The handlers

  method HandleCreateSubnet(db: InMemoryDatabase, subnet: Subnet) returns (r: Result<int, Status>)
    modifies db`subnets, db`nextSubnetId
    ensures (Registry(db.subnets, db.nextSubnetId), r) == Apply(old(Registry(db.subnets, db.nextSubnetId)), CreateOp(subnet))
  {
    var existing := db.subnets;
    for i := 0 to |existing|
      invariant Find(Conflicting(subnet), existing[i..]) == Find(Conflicting(subnet), existing)
    {
      assert existing[i..][1..] == existing[i + 1..];
      if SubnetsOverlap(subnet.network, subnet.netmask, existing[i].network, existing[i].netmask) {
        return Failure(Conflict);
      }
    }
    var newId := db.CreateSubnet(subnet);
    r := Success(newId);
  }

  method HandleDeleteSubnet(db: InMemoryDatabase, id: int) returns (r: Result<int, Status>)
    modifies db`subnets
    ensures (Registry(db.subnets, db.nextSubnetId), r) == Apply(old(Registry(db.subnets, db.nextSubnetId)), DeleteOp(id))
  {
    db.DeleteSubnet(id);
    r := Success(id);
  }

  // ------------------------------------------------------------------
  // Every run keeps the registered subnets disjoint

  /** Stored ids grow along the table, so they are all different. */
  predicate EarlierId(a: Subnet, b: Subnet) {
    a.id.Some? && b.id.Some? && a.id.value < b.id.value
  }

  ghost predicate WellFormedRegistry(r: Registry) {
    && Pairwise(Apart, r.subnets)
    && Pairwise(EarlierId, r.subnets)
    && forall s :: s in r.subnets ==> s.id.Some? && s.id.value < r.nextId
  }

  lemma OverlapSymmetric(a: Subnet, b: Subnet)
    ensures Overlaps(a, b) <==> Overlaps(b, a)
  {
  }

  lemma {:induction false} ApplyKeepsRegistry(r: Registry, op: Operation)
    requires WellFormedRegistry(r)
    ensures WellFormedRegistry(Apply(r, op).0)
  {
    var after := Apply(r, op).0;
    match op {
      case CreateOp(subnet) =>
        FindSpec(Conflicting(subnet), r.subnets);
        if after != r {
          forall i, j | 0 <= i < j < |after.subnets|
            ensures Apart(after.subnets[i], after.subnets[j]) && EarlierId(after.subnets[i], after.subnets[j])
          {
            if j == |r.subnets| {
              assert r.subnets[i] in r.subnets && !Conflicting(subnet)(r.subnets[i]);
              OverlapSymmetric(r.subnets[i], subnet);
            }
          }
        }
      case DeleteOp(id) =>
        FilterPairwise(Apart, SubnetLacksId(id), r.subnets);
        FilterPairwise(EarlierId, SubnetLacksId(id), r.subnets);
        FilterMembers(SubnetLacksId(id), r.subnets);
    }
  }

  lemma {:induction false} RunKeepsRegistry(r: Registry, ops: seq<Operation>)
    requires WellFormedRegistry(r)
    ensures WellFormedRegistry(ApplyAll(r, ops))
    decreases |ops|
  {
    if ops != [] {
      ApplyKeepsRegistry(r, ops[0]);
      RunKeepsRegistry(Apply(r, ops[0]).0, ops[1..]);
    }
  }

  /** No run of creations and deletions ever registers two subnets with an address in common. */
  lemma RegisteredSubnetsDisjoint(ops: seq<Operation>, i: nat, j: nat)
    requires i < j < |ApplyAll(EMPTY, ops).subnets|
    ensures var s := ApplyAll(EMPTY, ops).subnets;
            !ShareAddress(s[i].network, s[i].netmask, s[j].network, s[j].netmask) && s[i].id != s[j].id
  {
    RunKeepsRegistry(EMPTY, ops);
    var s := ApplyAll(EMPTY, ops).subnets;
    assert Apart(s[i], s[j]) && EarlierId(s[i], s[j]);
    OverlapIffShared(s[i].network, s[i].netmask, s[j].network, s[j].netmask);
  }

  /** A creation is refused exactly when the new subnet shares an address with a registered one. */
  lemma RefusedIffShared(r: Registry, subnet: Subnet)
    ensures Apply(r, CreateOp(subnet)).1.Failure?
       <==> exists s :: s in r.subnets && ShareAddress(subnet.network, subnet.netmask, s.network, s.netmask)
    ensures Apply(r, CreateOp(subnet)).1.Failure? ==> Apply(r, CreateOp(subnet)).0 == r
  {
    FindSpec(Conflicting(subnet), r.subnets);
    forall s | s in r.subnets
      ensures Conflicting(subnet)(s) <==> ShareAddress(subnet.network, subnet.netmask, s.network, s.netmask)
    {
      OverlapIffShared(subnet.network, subnet.netmask, s.network, s.netmask);
    }
  }

  /** An accepted subnet is stored behind the others, under the id that is answered and never used again. */
  lemma AcceptedIsStored(r: Registry, subnet: Subnet)
    requires Apply(r, CreateOp(subnet)).1.Success?
    ensures var (after, answer) := Apply(r, CreateOp(subnet));
            answer == Success(r.nextId) && after.nextId == r.nextId + 1
            && after.subnets == r.subnets + [subnet.(id := Some(r.nextId))]
  {
  }

  /** While its id is not deleted, a stored subnet stays. */
  lemma {:induction false} StoredStays(r: Registry, ops: seq<Operation>, s: Subnet)
    requires s in r.subnets && s.id.Some? && DeleteOp(s.id.value) !in ops
    ensures s in ApplyAll(r, ops).subnets
    decreases |ops|
  {
    if ops != [] {
      assert ops[0] in ops && forall op :: op in ops[1..] ==> op in ops;
      match ops[0] {
        case CreateOp(_) =>
        case DeleteOp(id) => FilterMember(SubnetLacksId(id), r.subnets, s);
      }
      StoredStays(Apply(r, ops[0]).0, ops[1..], s);
    }
  }

  /** After a creation answered with an id, and until that id is deleted, every
      creation that shares an address with the subnet is refused. */
  lemma AcceptedExcludesOthers(r: Registry, subnet: Subnet, ops: seq<Operation>, later: Subnet)
    requires Apply(r, CreateOp(subnet)).1.Success?
    requires DeleteOp(Apply(r, CreateOp(subnet)).1.value) !in ops
    requires ShareAddress(later.network, later.netmask, subnet.network, subnet.netmask)
    ensures Apply(ApplyAll(Apply(r, CreateOp(subnet)).0, ops), CreateOp(later)).1 == Failure(Conflict)
  {
    AcceptedIsStored(r, subnet);
    var stored := subnet.(id := Some(r.nextId));
    var t := ApplyAll(Apply(r, CreateOp(subnet)).0, ops);
    StoredStays(Apply(r, CreateOp(subnet)).0, ops, stored);
    RefusedIffShared(t, later);
  }

  /** A deletion removes the subnet with that id and no other. */
  lemma DeleteRemovesOne(r: Registry, id: int)
    requires WellFormedRegistry(r)
    ensures forall s :: s in Apply(r, DeleteOp(id)).0.subnets <==> s in r.subnets && s.id != Some(id)
    ensures forall s, t :: s in r.subnets && t in r.subnets && s.id == t.id == Some(id) ==> s == t
  {
    FilterMembers(SubnetLacksId(id), r.subnets);
    forall s, t | s in r.subnets && t in r.subnets && s.id == t.id == Some(id) ensures s == t {
      var i :| 0 <= i < |r.subnets| && r.subnets[i] == s;
      var j :| 0 <= j < |r.subnets| && r.subnets[j] == t;
    }
  }
}
