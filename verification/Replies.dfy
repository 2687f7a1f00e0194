/** The server's answers on the wire. */
module Replies {
  import opened Prelude
  import opened DhcpOptions
  import opened DhcpPackets
  import opened Cidr
  import opened Models
  import opened Engine
  import opened Checksum

  /** The subnet's parameters fit their options. */
  predicate FitsOptions(subnet: Subnet) {
    |subnet.dnsServers| <= 63 && (subnet.domainName.Some? ==> |subnet.domainName.value| <= 255)
  }

  lemma DomainCanonical(subnet: Subnet)
    ensures AllCanonical(DomainOptions(subnet)) <==> (subnet.domainName.Some? ==> |subnet.domainName.value| <= 255)
  {
    if subnet.domainName.Some? {
      assert DomainOptions(subnet)[0] in DomainOptions(subnet);
    }
  }

  lemma {:induction false} AllCanonicalAppend(a: seq<DhcpOption>, b: seq<DhcpOption>)
    ensures AllCanonical(a + b) <==> AllCanonical(a) && AllCanonical(b)
  {
    forall o ensures o in a + b <==> o in a || o in b {
    }
  }

  lemma {:induction false} NothingToDrop(os: seq<DhcpOption>)
    requires forall o :: o in os ==> !o.End?
    ensures WithoutEnd(os) == os
  {
    if os != [] {
      assert os[0] in os && forall o :: o in os[1..] ==> o in os;
      NothingToDrop(os[1..]);
    }
  }

  lemma ReplyReadsBack(reply: DhcpPacket, fixed: seq<DhcpOption>, subnet: Subnet)
    requires reply.options == fixed + DomainOptions(subnet)
    requires forall o :: o in fixed ==> !o.End?
    requires AllCanonical(fixed) <==> |subnet.dnsServers| <= 63
    ensures Closed(reply) == reply.(options := reply.options + [End])
    ensures Decode(Encode(reply)) == Success(reply.(options := reply.options + [End])) <==> FitsOptions(subnet)
  {
    AllCanonicalAppend(fixed, DomainOptions(subnet));
    DomainCanonical(subnet);
    RoundTrip(reply);
    NothingToDrop(reply.options);
  }

  /** An OFFER is decoded by the client as it was built, exactly when the subnet's
      name servers and domain fit their options. */
  lemma OfferReadsBack(packet: DhcpPacket, ip: u32, subnet: Subnet, d: LeaseSeconds)
    ensures var offer := CreateOffer(packet, ip, subnet, d);
            Closed(offer) == offer.(options := offer.options + [End])
    ensures var offer := CreateOffer(packet, ip, subnet, d);
            Decode(Encode(offer)) == Success(offer.(options := offer.options + [End])) <==> FitsOptions(subnet)
  {
    var fixed := [MessageTypeOption(Offer), ServerIdentifier(subnet.gateway), LeaseTime(d),
                  SubnetMask(NetmaskFromPrefix(subnet.netmask)), Router([subnet.gateway]), DnsServer(subnet.dnsServers)];
    assert fixed[5] in fixed;
    ReplyReadsBack(CreateOffer(packet, ip, subnet, d), fixed, subnet);
  }

  lemma AckReadsBack(packet: DhcpPacket, ip: u32, subnet: Subnet, d: LeaseSeconds)
    ensures var ack := CreateAck(packet, ip, subnet, d);
            Closed(ack) == ack.(options := ack.options + [End])
    ensures var ack := CreateAck(packet, ip, subnet, d);
            Decode(Encode(ack)) == Success(ack.(options := ack.options + [End])) <==> FitsOptions(subnet)
  {
    var fixed := [MessageTypeOption(Ack), ServerIdentifier(subnet.gateway), LeaseTime(d),
                  RenewalTime(d / 2), RebindingTime(RebindingSeconds(d)),
                  SubnetMask(NetmaskFromPrefix(subnet.netmask)), Router([subnet.gateway]), DnsServer(subnet.dnsServers)];
    assert fixed[7] in fixed;
    ReplyReadsBack(CreateAck(packet, ip, subnet, d), fixed, subnet);
  }

  lemma {:induction false} OptionsLength(os: seq<DhcpOption>)
    requires AllCanonical(os)
    ensures |EncodeOptions(os)| <= 257 * |os|
  {
    if os != [] {
      assert os[0] in os && forall o :: o in os[1..] ==> o in os;
      if !os[0].End? {
        var code, payload := PayloadRoundTrip(os[0]);
      }
      OptionsLength(os[1..]);
    }
  }

  /** Sent in a raw frame, an answer whose parameters fit reaches the client as it was built. */
  lemma AnswerDelivered(reply: DhcpPacket, datagram: Datagram)
    requires datagram.payload == Encode(reply) && |reply.options| <= 9
    requires Decode(Encode(reply)) == Success(Closed(reply))
    ensures ReadFrame(Frame(datagram)) == Some(datagram)
    ensures Decode(ReadFrame(Frame(datagram)).value.payload) == Success(Closed(reply))
  {
    RoundTrip(reply);
    OptionsLength(reply.options);
    FrameReceived(datagram);
  }

  /** The same for the server's own answers: the frame yields the datagram, the
      datagram the packet, exactly when the subnet's parameters fit their options. */
  lemma OfferDeliveredIff(packet: DhcpPacket, ip: u32, subnet: Subnet, d: LeaseSeconds, datagram: Datagram)
    requires datagram.payload == Encode(CreateOffer(packet, ip, subnet, d))
    ensures var offer := CreateOffer(packet, ip, subnet, d);
            var received := ReadFrame(Frame(datagram));
            (received == Some(datagram) && Decode(received.value.payload) == Success(offer.(options := offer.options + [End])))
            <==> FitsOptions(subnet)
  {
    var offer := CreateOffer(packet, ip, subnet, d);
    OfferReadsBack(packet, ip, subnet, d);
    if FitsOptions(subnet) {
      AnswerDelivered(offer, datagram);
    }
  }

  lemma AckDeliveredIff(packet: DhcpPacket, ip: u32, subnet: Subnet, d: LeaseSeconds, datagram: Datagram)
    requires datagram.payload == Encode(CreateAck(packet, ip, subnet, d))
    ensures var ack := CreateAck(packet, ip, subnet, d);
            var received := ReadFrame(Frame(datagram));
            (received == Some(datagram) && Decode(received.value.payload) == Success(ack.(options := ack.options + [End])))
            <==> FitsOptions(subnet)
  {
    var ack := CreateAck(packet, ip, subnet, d);
    AckReadsBack(packet, ip, subnet, d);
    if FitsOptions(subnet) {
      AnswerDelivered(ack, datagram);
    }
  }

  /** T2 is seven eighths of the lease time exactly while the product fits 32 bits. */
  lemma RebindingTimeIff(d: LeaseSeconds)
    ensures RebindingSeconds(d) == 7 * d / 8 <==> d <= 613566756
  {
  }

  // ------------------------------------------------------------------
  // What a client reads out of an answer

  /** The option is present, and it is the only one with its code. */
  ghost predicate Carries(options: seq<DhcpOption>, o: DhcpOption) {
    o in options && forall x :: x in options && Code(x) == Code(o) ==> x == o
  }

  /** The answer tells the client the parameters of this subnet and the lease time. */
  ghost predicate Announces(p: DhcpPacket, subnet: Subnet, d: LeaseSeconds) {
    && p.op == 2 && p.htype == 1 && p.hlen == 6 && p.siaddr == subnet.gateway
    && p.hops == 0 && p.secs == 0 && p.flags == 0 && p.ciaddr == 0 && p.giaddr == 0
    && Carries(p.options, ServerIdentifier(subnet.gateway))
    && Carries(p.options, LeaseTime(d))
    && Carries(p.options, SubnetMask(Mask(subnet.netmask)))
    && Carries(p.options, Router([subnet.gateway]))
    && Carries(p.options, DnsServer(subnet.dnsServers))
    && (match subnet.domainName
        case Some(name) => Carries(p.options, DomainName(name))
        case None => forall o :: o in p.options ==> !o.DomainName?)
  }

  predicate HasCodes(options: seq<DhcpOption>, codes: seq<int>) {
    |codes| == |options| && forall k :: 0 <= k < |options| ==> Code(options[k]) == codes[k]
  }

  /** In a list whose codes are all different, every option is carried. */
  lemma CarriedAt(options: seq<DhcpOption>, codes: seq<int>, k: nat)
    requires HasCodes(options, codes) && forall i, j :: 0 <= i < j < |codes| ==> codes[i] != codes[j]
    requires k < |options|
    ensures Carries(options, options[k])
  {
    forall x | x in options && Code(x) == Code(options[k]) ensures x == options[k] {
      var j :| 0 <= j < |options| && options[j] == x;
      assert codes[j] == codes[k];
    }
  }

  const OFFER_CODES: seq<int> := [53, 54, 51, 1, 3, 6, 15]
  const ACK_CODES: seq<int> := [53, 54, 51, 58, 59, 1, 3, 6, 15]

  lemma NoDomainCode(options: seq<DhcpOption>, codes: seq<int>)
    requires HasCodes(options, codes) && 15 !in codes
    ensures forall o :: o in options ==> !o.DomainName?
  {
    forall o | o in options ensures !o.DomainName? {
      var j :| 0 <= j < |options| && options[j] == o;
      assert codes[j] in codes;
    }
  }

  /** The three parameters of the subnet that every answer carries from position `at` on, and the domain name if there is one. */
  lemma ParametersCarried(options: seq<DhcpOption>, codes: seq<int>, at: nat, subnet: Subnet)
    requires HasCodes(options, codes) && forall i, j :: 0 <= i < j < |codes| ==> codes[i] != codes[j]
    requires at <= |options| && options[at..] == Parameters(subnet) + DomainOptions(subnet)
    requires subnet.domainName.None? ==> 15 !in codes
    ensures && Carries(options, SubnetMask(Mask(subnet.netmask)))
            && Carries(options, Router([subnet.gateway]))
            && Carries(options, DnsServer(subnet.dnsServers))
            && (match subnet.domainName
                case Some(name) => Carries(options, DomainName(name))
                case None => forall o :: o in options ==> !o.DomainName?)
  {
    assert options[at..][0] == options[at] && options[at..][1] == options[at + 1] && options[at..][2] == options[at + 2];
    CarriedAt(options, codes, at);
    CarriedAt(options, codes, at + 1);
    CarriedAt(options, codes, at + 2);
    if subnet.domainName.None? {
      NoDomainCode(options, codes);
    } else {
      assert options[at..][3] == options[at + 3];
      CarriedAt(options, codes, at + 3);
    }
  }

  function Parameters(subnet: Subnet): seq<DhcpOption> {
    [SubnetMask(Mask(subnet.netmask)), Router([subnet.gateway]), DnsServer(subnet.dnsServers)]
  }

  lemma OfferCodes(packet: DhcpPacket, ip: u32, subnet: Subnet, d: LeaseSeconds) returns (codes: seq<int>)
    ensures var options := CreateOffer(packet, ip, subnet, d).options;
            && HasCodes(options, codes) && codes <= OFFER_CODES && (subnet.domainName.None? ==> 15 !in codes)
            && options[3..] == Parameters(subnet) + DomainOptions(subnet)
  {
    codes := OFFER_CODES[..|CreateOffer(packet, ip, subnet, d).options|];
  }

  lemma OfferAnnounces(packet: DhcpPacket, ip: u32, subnet: Subnet, d: LeaseSeconds)
    ensures var offer := CreateOffer(packet, ip, subnet, d);
            && Announces(offer, subnet, d) && Carries(offer.options, MessageTypeOption(Offer))
            && offer.yiaddr == ip && offer.xid == packet.xid && offer.chaddr == packet.chaddr
  {
    var options := CreateOffer(packet, ip, subnet, d).options;
    var codes := OfferCodes(packet, ip, subnet, d);
    CarriedAt(options, codes, 0);
    CarriedAt(options, codes, 1);
    CarriedAt(options, codes, 2);
    ParametersCarried(options, codes, 3, subnet);
  }

  lemma AckCodes(packet: DhcpPacket, ip: u32, subnet: Subnet, d: LeaseSeconds) returns (codes: seq<int>)
    ensures var options := CreateAck(packet, ip, subnet, d).options;
            && HasCodes(options, codes) && codes <= ACK_CODES && (subnet.domainName.None? ==> 15 !in codes)
            && options[5..] == Parameters(subnet) + DomainOptions(subnet)
  {
    codes := ACK_CODES[..|CreateAck(packet, ip, subnet, d).options|];
  }

  lemma AckAnnounces(packet: DhcpPacket, ip: u32, subnet: Subnet, d: LeaseSeconds)
    ensures var ack := CreateAck(packet, ip, subnet, d);
            && Announces(ack, subnet, d) && Carries(ack.options, MessageTypeOption(Ack))
            && Carries(ack.options, RenewalTime(d / 2)) && Carries(ack.options, RebindingTime(RebindingSeconds(d)))
            && ack.yiaddr == ip && ack.xid == packet.xid && ack.chaddr == packet.chaddr
  {
    var options := CreateAck(packet, ip, subnet, d).options;
    var codes := AckCodes(packet, ip, subnet, d);
    CarriedAt(options, codes, 0);
    CarriedAt(options, codes, 1);
    CarriedAt(options, codes, 2);
    CarriedAt(options, codes, 3);
    CarriedAt(options, codes, 4);
    ParametersCarried(options, codes, 5, subnet);
  }
}
