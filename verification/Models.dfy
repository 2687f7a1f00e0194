/** The records that the server stores. */
module Models {
  import opened Prelude
  import opened Utf8
  import opened MacAddress

  datatype Subnet = Subnet(
    id: Option<int>, network: u32, netmask: u8, gateway: u32, dnsServers: seq<u32>, domainName: Option<Text>)

  datatype DynamicRange = DynamicRange(id: Option<int>, subnetId: int, rangeStart: u32, rangeEnd: u32, enabled: bool)

  datatype StaticIp = StaticIp(subnetId: int, macAddress: string, ipAddress: u32, hostname: Option<Text>)

  datatype Lease = Lease(
    id: Option<int>, subnetId: int, macAddress: string, ipAddress: u32,
    leaseStart: int, leaseEnd: int, hostname: Option<Text>)

  // The tests that the lookups apply, as function values.

  function SubnetHasId(id: int): Subnet -> bool {
    (s: Subnet) => s.id == Some(id)
  }

  function SubnetLacksId(id: int): Subnet -> bool {
    (s: Subnet) => s.id != Some(id)
  }

  function RangeOfSubnet(subnetId: int): DynamicRange -> bool {
    (r: DynamicRange) => r.subnetId == subnetId
  }

  function ReservedFor(mac: string): StaticIp -> bool {
    (s: StaticIp) => Lower(s.macAddress) == Lower(mac)
  }

  /** A lease is active while its end lies strictly in the future. */
  function ActiveAt(now: int): Lease -> bool {
    (l: Lease) => l.leaseEnd > now
  }

  function ActiveLeaseOf(mac: string, now: int): Lease -> bool {
    (l: Lease) => Lower(l.macAddress) == Lower(mac) && l.leaseEnd > now
  }

  function OnAddress(ip: u32): Lease -> bool {
    (l: Lease) => l.ipAddress == ip
  }

  function LeaseLacksId(id: int): Lease -> bool {
    (l: Lease) => l.id != Some(id)
  }

  /** What a purge keeps; note that a lease ending now is kept although it is no longer active. */
  function NotPurgedAt(now: int): Lease -> bool {
    (l: Lease) => l.leaseEnd >= now
  }
}
