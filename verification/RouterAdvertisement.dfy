/** Router Advertisements (RFC 4861 section 4.2) with Prefix Information
    options and one RDNSS option (RFC 6106 section 5.1). */
module RouterAdvertisement {
  import opened Prelude
  import opened Bits
  import opened DhcpOptions
  import opened DhcpPackets

  type Ipv6 = s: seq<u8> | |s| == 16 witness Zeros(16)

  datatype IAPrefix = IAPrefix(
    id: Option<int>, interface: string, prefix: Ipv6, prefixLen: u8,
    preferredLifetime: u32, validLifetime: u32, dnsServers: seq<Ipv6>, dnsLifetime: u32)

  const ICMPV6_TYPE_RA: u8 := 134

  // ------------------------------------------------------------------
  // Encoder

  function Flags(managed: bool, other: bool): nat {
    Or(if managed then 0x80 else 0, if other then 0x40 else 0)
  }

  lemma FlagBits(managed: bool, other: bool)
    ensures Flags(managed, other) == (if managed then 128 else 0) + (if other then 64 else 0)
    ensures And(Flags(managed, other), 0x80) != 0 <==> managed
    ensures And(Flags(managed, other), 0x40) != 0 <==> other
  {
    TopBits(if managed then 1 else 0, if other then 1 else 0);
  }

  function FlagByte(managed: bool, other: bool): u8 {
    FlagBits(managed, other);
    Flags(managed, other)
  }

  function RaHeader(hopLimit: u8, routerLifetime: u16, managed: bool, other: bool): (r: seq<u8>)
    ensures |r| == 16
  {
    [ICMPV6_TYPE_RA, 0, 0, 0] + [hopLimit, FlagByte(managed, other)] + Half(routerLifetime) + Octets(0) + Octets(0)
  }

  function PrefixOption(p: IAPrefix): (r: seq<u8>)
    ensures |r| == 32
  {
    [3, 4, p.prefixLen, 0xC0] + Octets(p.validLifetime) + Octets(p.preferredLifetime) + Octets(0) + p.prefix
  }

  function PrefixOptions(prefixes: seq<IAPrefix>): seq<u8> {
    if prefixes == [] then [] else PrefixOption(prefixes[0]) + PrefixOptions(prefixes[1..])
  }

  function ServerBytes(servers: seq<Ipv6>): (r: seq<u8>)
    ensures |r| == 16 * |servers|
  {
    if servers == [] then [] else servers[0] + ServerBytes(servers[1..])
  }

  function RdnssOption(servers: seq<Ipv6>, lifetime: u32): (r: seq<u8>)
    ensures |r| == 8 + 16 * |servers|
  {
    [25, (1 + 2 * |servers|) % 0x100, 0, 0] + Octets(lifetime) + ServerBytes(servers)
  }

  function MaxDnsLifetime(prefixes: seq<IAPrefix>): u32
    requires prefixes != []
  {
    if |prefixes| == 1 then prefixes[0].dnsLifetime
    else Max(prefixes[0].dnsLifetime, MaxDnsLifetime(prefixes[1..]))
  }

  function DnsLifetime(prefixes: seq<IAPrefix>): u32 {
    if prefixes == [] then 3600 else MaxDnsLifetime(prefixes)
  }

  function Rdnss(servers: seq<Ipv6>, lifetime: u32): seq<u8> {
    if servers == [] then [] else RdnssOption(servers, lifetime)
  }

  /** The message when the distinct DNS servers come in the order `servers`. */
  function Advertise(prefixes: seq<IAPrefix>, hopLimit: u8, routerLifetime: u16, managed: bool, other: bool,
                     servers: seq<Ipv6>): seq<u8> {
    RaHeader(hopLimit, routerLifetime, managed, other) + (PrefixOptions(prefixes) + Rdnss(servers, DnsLifetime(prefixes)))
  }

  function DnsServers(prefixes: seq<IAPrefix>): set<Ipv6> {
    set p, s | p in prefixes && s in p.dnsServers :: s
  }

  lemma DnsServersMembers(prefixes: seq<IAPrefix>)
    ensures forall s :: s in DnsServers(prefixes) <==> exists p :: p in prefixes && s in p.dnsServers
  {
  }

  /** `servers` lists every DNS server of the prefixes exactly once. */
  ghost predicate Enumerates(servers: seq<Ipv6>, prefixes: seq<IAPrefix>) {
    && (forall i, j :: 0 <= i < j < |servers| ==> servers[i] != servers[j])
    && (forall s :: s in servers <==> exists p :: p in prefixes && s in p.dnsServers)
  }

  /** The iteration order of the hash set is arbitrary, hence the choice. */
  method InSomeOrder(all: set<Ipv6>) returns (servers: seq<Ipv6>)
    ensures forall i, j :: 0 <= i < j < |servers| ==> servers[i] != servers[j]
    ensures forall s :: s in servers <==> s in all
  {
    servers := [];
    var left := all;
    while left != {}
      invariant forall i, j :: 0 <= i < j < |servers| ==> servers[i] != servers[j]
      invariant forall s :: s in all <==> s in servers || s in left
      invariant forall s :: s in servers ==> s !in left
      decreases left
    {
      var s :| s in left;
      servers := servers + [s];
      left := left - {s};
    }
  }

  method BuildRouterAdvertisement(prefixes: seq<IAPrefix>, hopLimit: u8, routerLifetime: u16, managed: bool, other: bool)
    returns (buf: seq<u8>)
    ensures exists servers :: Enumerates(servers, prefixes)
              && buf == Advertise(prefixes, hopLimit, routerLifetime, managed, other, servers)
              && (ReadsAs(buf, prefixes, hopLimit, routerLifetime, managed, other, servers) <==> |servers| <= 127)
  {
    buf := RaHeaderToBytes(hopLimit, routerLifetime, managed, other);
    buf := AppendPrefixes(buf, prefixes);
    var dnsServers := InSomeOrder(DnsServers(prefixes));
    DnsServersMembers(prefixes);
    assert Enumerates(dnsServers, prefixes);
    var option := [];
    if dnsServers != [] {
      option := RdnssToBytes(dnsServers, DnsLifetime(prefixes));
    }
    assert option == Rdnss(dnsServers, DnsLifetime(prefixes));
    ConcatAssociates(RaHeader(hopLimit, routerLifetime, managed, other), PrefixOptions(prefixes), option);
    buf := buf + option;
    assert buf == Advertise(prefixes, hopLimit, routerLifetime, managed, other, dnsServers);
    AdvertisementRead(prefixes, hopLimit, routerLifetime, managed, other, dnsServers);
  }

  method AppendPrefixes(start: seq<u8>, prefixes: seq<IAPrefix>) returns (buf: seq<u8>)
    ensures buf == start + PrefixOptions(prefixes)
  {
    buf := start;
    for i := 0 to |prefixes|
      invariant buf + PrefixOptions(prefixes[i..]) == start + PrefixOptions(prefixes)
    {
      assert prefixes[i..][1..] == prefixes[i + 1..];
      var option := PrefixToBytes(prefixes[i]);
      buf := buf + option;
    }
  }

  method RaHeaderToBytes(hopLimit: u8, routerLifetime: u16, managed: bool, other: bool) returns (buf: seq<u8>)
    ensures buf == RaHeader(hopLimit, routerLifetime, managed, other)
  {
    buf := [ICMPV6_TYPE_RA];
    buf := buf + [0];
    buf := buf + [0, 0];
    buf := buf + [hopLimit];
    buf := buf + [FlagByte(managed, other)];
    buf := buf + Half(routerLifetime);
    buf := buf + Octets(0);
    buf := buf + Octets(0);
  }

  method PrefixToBytes(p: IAPrefix) returns (buf: seq<u8>)
    ensures buf == PrefixOption(p)
  {
    buf := [3];
    buf := buf + [4];
    buf := buf + [p.prefixLen];
    buf := buf + [0xC0];
    buf := buf + Octets(p.validLifetime);
    buf := buf + Octets(p.preferredLifetime);
    buf := buf + Octets(0);
    buf := buf + p.prefix;
  }

  method RdnssToBytes(servers: seq<Ipv6>, lifetime: u32) returns (buf: seq<u8>)
    ensures buf == RdnssOption(servers, lifetime)
  {
    var length: u8 := (1 + 2 * |servers|) % 0x100;
    buf := [25];
    buf := buf + [length];
    buf := buf + [0, 0];
    buf := buf + Octets(lifetime);
    ghost var head := [25, length, 0, 0] + Octets(lifetime);
    assert buf == head;
    for i := 0 to |servers|
      invariant buf + ServerBytes(servers[i..]) == head + ServerBytes(servers)
    {
      assert servers[i..][1..] == servers[i + 1..];
      buf := buf + servers[i];
    }
    assert buf == head + ServerBytes(servers);
  }

  // ------------------------------------------------------------------
  // A host's decoder

  datatype RaOption =
    | PrefixInformation(prefixLen: u8, onLink: bool, autonomous: bool, validLifetime: u32, preferredLifetime: u32, prefix: Ipv6)
    | RecursiveDns(lifetime: u32, servers: seq<Ipv6>)
    | OtherOption(bytes: seq<u8>)

  datatype Advertisement = Advertisement(
    hopLimit: u8, managed: bool, other: bool, routerLifetime: u16, options: seq<RaOption>)

  function ServersIn(data: seq<u8>): (r: seq<Ipv6>)
    ensures |r| == |data| / 16
  {
    if |data| < 16 then [] else [data[..16]] + ServersIn(data[16..])
  }

  function DecodeRaOption(bytes: seq<u8>): RaOption
    requires |bytes| >= 8
  {
    if bytes[0] == 3 && |bytes| == 32 then
      PrefixInformation(bytes[2], And(bytes[3], 0x80) != 0, And(bytes[3], 0x40) != 0,
                        Word(bytes[4..8]), Word(bytes[8..12]), bytes[16..32])
    else if bytes[0] == 25 then RecursiveDns(Word(bytes[4..8]), ServersIn(bytes[8..]))
    else OtherOption(bytes)
  }

  /** Walks the options by their length field in units of eight bytes; fails on a
      zero length or when the last option does not end with the buffer. */
  function WalkOptions(s: seq<u8>): Option<seq<RaOption>>
    decreases |s|
  {
    if s == [] then Some([])
    else if |s| < 2 || s[1] == 0 || 8 * s[1] as int > |s| then None
    else
      match WalkOptions(s[8 * s[1] as int..])
      case None => None
      case Some(rest) => Some([DecodeRaOption(s[..8 * s[1] as int])] + rest)
  }

  function DecodeAdvertisement(buf: seq<u8>): Option<Advertisement> {
    if |buf| < 16 || buf[0] != ICMPV6_TYPE_RA || buf[1] != 0 then None
    else
      match WalkOptions(buf[16..])
      case None => None
      case Some(options) =>
        Some(Advertisement(buf[4], And(buf[5], 0x80) != 0, And(buf[5], 0x40) != 0, FromHalf(buf[6], buf[7]), options))
  }

  function InformationOf(p: IAPrefix): RaOption {
    PrefixInformation(p.prefixLen, true, true, p.validLifetime, p.preferredLifetime, p.prefix)
  }

  function Information(prefixes: seq<IAPrefix>): seq<RaOption> {
    if prefixes == [] then [] else [InformationOf(prefixes[0])] + Information(prefixes[1..])
  }

  function DnsInformation(servers: seq<Ipv6>, lifetime: u32): seq<RaOption> {
    if servers == [] then [] else [RecursiveDns(lifetime, servers)]
  }

  /** Both the on-link and the autonomous flag are set. */
  lemma PrefixFlags()
    ensures And(0xC0, 0x80) != 0 && And(0xC0, 0x40) != 0
  {
    TopBits(1, 1);
  }

  /** The two words and the prefix, among the four-byte groups of the option. */
  lemma PrefixSlices(head: seq<u8>, valid: seq<u8>, preferred: seq<u8>, reserved: seq<u8>, prefix: seq<u8>)
    requires |head| == |valid| == |preferred| == |reserved| == 4 && |prefix| == 16
    ensures var b := head + valid + preferred + reserved + prefix;
            b[4..8] == valid && b[8..12] == preferred && b[16..32] == prefix
  {
  }

  lemma PrefixFields(p: IAPrefix)
    ensures var b := PrefixOption(p);
            && Word(b[4..8]) == p.validLifetime && Word(b[8..12]) == p.preferredLifetime && b[16..32] == p.prefix
  {
    PrefixSlices([3, 4, p.prefixLen, 0xC0], Octets(p.validLifetime), Octets(p.preferredLifetime), Octets(0), p.prefix);
    WordRoundTrip(p.validLifetime);
    WordRoundTrip(p.preferredLifetime);
  }

  lemma DecodePrefixOption(p: IAPrefix)
    ensures DecodeRaOption(PrefixOption(p)) == InformationOf(p)
  {
    PrefixFields(p);
    PrefixFlags();
  }

  /** The options `infos`, followed by what `tail` holds. */
  function Followed(infos: seq<RaOption>, tail: Option<seq<RaOption>>): Option<seq<RaOption>> {
    if tail.None? then None else Some(infos + tail.value)
  }

  lemma FollowedTwice(a: seq<RaOption>, b: seq<RaOption>, tail: Option<seq<RaOption>>)
    ensures Followed(a, Followed(b, tail)) == Followed(a + b, tail)
  {
    if tail.Some? {
      assert a + (b + tail.value) == a + b + tail.value;
    }
  }

  lemma WalkOne(p: IAPrefix, rest: seq<u8>)
    ensures WalkOptions(PrefixOption(p) + rest) == Followed([InformationOf(p)], WalkOptions(rest))
  {
    var first := PrefixOption(p);
    var s := first + rest;
    assert s[1] == 4 && s[..32] == first && s[32..] == rest;
    DecodePrefixOption(p);
  }

  lemma FollowedNothing(tail: Option<seq<RaOption>>)
    ensures Followed([], tail) == tail
  {
    if tail.Some? {
      assert [] + tail.value == tail.value;
    }
  }

  lemma {:induction false} WalkPrefixes(prefixes: seq<IAPrefix>, rest: seq<u8>)
    ensures WalkOptions(PrefixOptions(prefixes) + rest) == Followed(Information(prefixes), WalkOptions(rest))
  {
    if prefixes == [] {
      assert PrefixOptions(prefixes) + rest == rest;
      FollowedNothing(WalkOptions(rest));
    } else {
      var p, more := prefixes[0], prefixes[1..];
      ConcatAssociates(PrefixOption(p), PrefixOptions(more), rest);
      WalkOne(p, PrefixOptions(more) + rest);
      WalkPrefixes(more, rest);
      FollowedTwice([InformationOf(p)], Information(more), WalkOptions(rest));
    }
  }

  lemma {:induction false} ServersRoundTrip(servers: seq<Ipv6>)
    ensures ServersIn(ServerBytes(servers)) == servers
  {
    if servers != [] {
      ServersRoundTrip(servers[1..]);
      var b := ServerBytes(servers);
      assert b[..16] == servers[0] && b[16..] == ServerBytes(servers[1..]);
    }
  }

  lemma WalkRdnss(servers: seq<Ipv6>, lifetime: u32)
    ensures WalkOptions(Rdnss(servers, lifetime)) == Some(DnsInformation(servers, lifetime)) <==> |servers| <= 127
  {
    if servers != [] {
      var s := RdnssOption(servers, lifetime);
      var length := (1 + 2 * |servers|) % 0x100;
      assert s[1] == length && 0 < length;
      var size := 8 * length;
      var option := s[..size];
      assert s[0] == option[0] == 25;
      if |servers| <= 127 {
        assert size == |s| && option == s && s[size..] == [];
        assert s[4..8] == Octets(lifetime) && s[8..] == ServerBytes(servers);
        WordRoundTrip(lifetime);
        ServersRoundTrip(servers);
        assert [DecodeRaOption(s)] + [] == [DecodeRaOption(s)];
      } else {
        assert |option| < |s|;
        assert DecodeRaOption(option).RecursiveDns? && |DecodeRaOption(option).servers| < |servers|;
      }
    }
  }

  lemma SamePrefix<T>(a: seq<T>, b: seq<T>, c: seq<T>)
    ensures a + b == a + c <==> b == c
  {
    assert (a + b)[|a|..] == b && (a + c)[|a|..] == c;
  }

  /** Decoding the fixed part gives back its fields; the options begin right behind it. */
  lemma RaHeaderDecodes(hopLimit: u8, routerLifetime: u16, managed: bool, other: bool, rest: seq<u8>)
    ensures DecodeAdvertisement(RaHeader(hopLimit, routerLifetime, managed, other) + rest)
         == (match WalkOptions(rest)
             case None => None
             case Some(options) => Some(Advertisement(hopLimit, managed, other, routerLifetime, options)))
  {
    var header := RaHeader(hopLimit, routerLifetime, managed, other);
    var buf := header + rest;
    assert buf[16..] == rest;
    assert header[..6] == [ICMPV6_TYPE_RA, 0, 0, 0] + [hopLimit, FlagByte(managed, other)];
    assert header[6] == Half(routerLifetime)[0] && header[7] == Half(routerLifetime)[1];
    HalfRoundTrip(routerLifetime);
    FlagBits(managed, other);
  }

  /** A host reads back every prefix in order and then, if there is any server,
      one RDNSS option listing the servers with the largest lifetime; it does so
      exactly when at most 127 distinct servers are advertised. */
  lemma AdvertisementRoundTrip(prefixes: seq<IAPrefix>, hopLimit: u8, routerLifetime: u16, managed: bool, other: bool,
                               servers: seq<Ipv6>)
    ensures DecodeAdvertisement(Advertise(prefixes, hopLimit, routerLifetime, managed, other, servers))
         == Some(Advertisement(hopLimit, managed, other, routerLifetime,
                               Information(prefixes) + DnsInformation(servers, DnsLifetime(prefixes))))
       <==> |servers| <= 127
  {
    var dns, lifetime := Rdnss(servers, DnsLifetime(prefixes)), DnsLifetime(prefixes);
    RaHeaderDecodes(hopLimit, routerLifetime, managed, other, PrefixOptions(prefixes) + dns);
    WalkPrefixes(prefixes, dns);
    WalkRdnss(servers, lifetime);
    if WalkOptions(dns).Some? {
      SamePrefix(Information(prefixes), WalkOptions(dns).value, DnsInformation(servers, lifetime));
    }
  }

  lemma {:induction false} MaxIsLargest(prefixes: seq<IAPrefix>)
    requires prefixes != []
    ensures forall p :: p in prefixes ==> p.dnsLifetime <= MaxDnsLifetime(prefixes)
    ensures exists p :: p in prefixes && p.dnsLifetime == MaxDnsLifetime(prefixes)
  {
    if |prefixes| == 1 {
      assert prefixes[0] in prefixes;
    } else {
      MaxIsLargest(prefixes[1..]);
      var q :| q in prefixes[1..] && q.dnsLifetime == MaxDnsLifetime(prefixes[1..]);
      assert q in prefixes && prefixes[0] in prefixes;
      assert prefixes == [prefixes[0]] + prefixes[1..];
    }
  }

  /** The largest of the lifetimes that the prefixes give their servers. */
  ghost predicate LargestLifetime(prefixes: seq<IAPrefix>, lifetime: u32) {
    && (forall p :: p in prefixes ==> p.dnsLifetime <= lifetime)
    && exists p :: p in prefixes && p.dnsLifetime == lifetime
  }

  lemma DnsLifetimeIsLargest(prefixes: seq<IAPrefix>)
    ensures if prefixes == [] then DnsLifetime(prefixes) == 3600 else LargestLifetime(prefixes, DnsLifetime(prefixes))
  {
    if prefixes != [] {
      MaxIsLargest(prefixes);
    }
  }

  /** A host reads out of `buf` the given header, all prefixes in order and one list of the given servers. */
  ghost predicate ReadsAs(buf: seq<u8>, prefixes: seq<IAPrefix>, hopLimit: u8, routerLifetime: u16, managed: bool, other: bool,
                          servers: seq<Ipv6>) {
    exists lifetime: u32 ::
      && (servers != [] ==> LargestLifetime(prefixes, lifetime))
      && DecodeAdvertisement(buf)
         == Some(Advertisement(hopLimit, managed, other, routerLifetime, Information(prefixes) + DnsInformation(servers, lifetime)))
  }

  lemma AdvertisementRead(prefixes: seq<IAPrefix>, hopLimit: u8, routerLifetime: u16, managed: bool, other: bool, servers: seq<Ipv6>)
    requires Enumerates(servers, prefixes)
    ensures var buf := Advertise(prefixes, hopLimit, routerLifetime, managed, other, servers);
            ReadsAs(buf, prefixes, hopLimit, routerLifetime, managed, other, servers) <==> |servers| <= 127
  {
    var buf := Advertise(prefixes, hopLimit, routerLifetime, managed, other, servers);
    AdvertisementRoundTrip(prefixes, hopLimit, routerLifetime, managed, other, servers);
    DnsLifetimeIsLargest(prefixes);
    if servers != [] {
      assert servers[0] in servers;
    }
    if ReadsAs(buf, prefixes, hopLimit, routerLifetime, managed, other, servers) {
      var lifetime: u32 :| (servers != [] ==> LargestLifetime(prefixes, lifetime))
        && DecodeAdvertisement(buf)
           == Some(Advertisement(hopLimit, managed, other, routerLifetime, Information(prefixes) + DnsInformation(servers, lifetime)));
      if servers != [] {
        assert lifetime == DnsLifetime(prefixes);
      }
      assert DnsInformation(servers, lifetime) == DnsInformation(servers, DnsLifetime(prefixes));
    }
  }

  // ------------------------------------------------------------------
  // The bytes themselves

  lemma HeaderSlices(front: seq<u8>, middle: seq<u8>, half: seq<u8>, timer: seq<u8>, timer': seq<u8>)
    requires |front| == |timer| == |timer'| == 4 && |middle| == |half| == 2
    ensures var h := front + middle + half + timer + timer';
            h[..4] == front && h[4..6] == middle && h[6..8] == half && h[8..12] == timer && h[12..16] == timer'
  {
  }

  lemma FlagByteValue(managed: bool, other: bool)
    ensures FlagByte(managed, other) as int == (if managed then 128 else 0) + (if other then 64 else 0)
  {
    FlagBits(managed, other);
  }

  /** The fixed part (section 4.2 of RFC 4861). */
  lemma HeaderLayout(hopLimit: u8, routerLifetime: u16, managed: bool, other: bool)
    ensures var h := RaHeader(hopLimit, routerLifetime, managed, other);
            && h[..4] == [134, 0, 0, 0] && h[4..6] == [hopLimit, FlagByte(managed, other)]
            && h[6..8] == Half(routerLifetime) && h[8..12] == [0, 0, 0, 0] && h[12..16] == [0, 0, 0, 0]
  {
    HeaderSlices([134, 0, 0, 0], [hopLimit, FlagByte(managed, other)], Half(routerLifetime), Octets(0), Octets(0));
    assert Octets(0) == [0, 0, 0, 0];
  }

  /** A Prefix Information option (section 4.6.2 of RFC 4861). */
  lemma PrefixLayout(p: IAPrefix)
    ensures var b := PrefixOption(p);
            && b[..4] == [3, 4, p.prefixLen, 192] && b[4..8] == Octets(p.validLifetime) && b[8..12] == Octets(p.preferredLifetime)
            && b[12..16] == [0, 0, 0, 0] && b[16..32] == p.prefix
  {
    PrefixSlices([3, 4, p.prefixLen, 0xC0], Octets(p.validLifetime), Octets(p.preferredLifetime), Octets(0), p.prefix);
    assert Octets(0) == [0, 0, 0, 0];
  }

  lemma {:induction false} ServerBytesAt(servers: seq<Ipv6>, k: nat)
    requires k < |servers|
    ensures ServerBytes(servers)[16 * k..16 * k + 16] == servers[k]
  {
    var rest := ServerBytes(servers[1..]);
    if k > 0 {
      ServerBytesAt(servers[1..], k - 1);
      assert ServerBytes(servers)[16 * k..16 * k + 16] == rest[16 * (k - 1)..16 * (k - 1) + 16];
    }
  }

  /** An RDNSS option (section 5.1 of RFC 6106), its length truncated to a byte. */
  lemma RdnssLayout(servers: seq<Ipv6>, lifetime: u32, k: nat)
    requires k < |servers|
    ensures var b := RdnssOption(servers, lifetime);
            && b[..4] == [25, (1 + 2 * |servers|) % 256, 0, 0] && b[4..8] == Octets(lifetime)
            && b[8 + 16 * k..24 + 16 * k] == servers[k]
  {
    var b := RdnssOption(servers, lifetime);
    ServerBytesAt(servers, k);
    assert b[8 + 16 * k..24 + 16 * k] == ServerBytes(servers)[16 * k..16 * k + 16];
  }
}
