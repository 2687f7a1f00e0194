/** DHCP options (RFC 2132): the value type, its wire form and the exact set of
    options that survive a trip over the wire. */
module DhcpOptions {
  import opened Prelude
  import opened Utf8

  datatype MessageType = Discover | Offer | Request | Decline | Ack | Nak | Release | Inform

  function MessageTypeCode(m: MessageType): u8 {
    match m
    case Discover => 1
    case Offer => 2
    case Request => 3
    case Decline => 4
    case Ack => 5
    case Nak => 6
    case Release => 7
    case Inform => 8
  }

  function MessageTypeFrom(code: u8): Option<MessageType> {
    if code == 1 then Some(Discover)
    else if code == 2 then Some(Offer)
    else if code == 3 then Some(Request)
    else if code == 4 then Some(Decline)
    else if code == 5 then Some(Ack)
    else if code == 6 then Some(Nak)
    else if code == 7 then Some(Release)
    else if code == 8 then Some(Inform)
    else None
  }

  datatype DhcpOption =
    | SubnetMask(address: u32)
    | Router(addresses: seq<u32>)
    | DnsServer(addresses: seq<u32>)
    | DomainName(text: Text)
    | RequestedIpAddress(address: u32)
    | LeaseTime(time: u32)
    | MessageTypeOption(messageType: MessageType)
    | ServerIdentifier(address: u32)
    | RenewalTime(time: u32)
    | RebindingTime(time: u32)
    | Hostname(text: Text)
    | End
    | Unknown(code: u8, data: seq<u8>)

  /** Big-endian bytes of a word. */
  function Octets(x: u32): (r: seq<u8>)
    ensures |r| == 4
  {
    [x / 0x100_0000, x / 0x1_0000 % 0x100, x / 0x100 % 0x100, x % 0x100]
  }

  function FromOctets(a: u8, b: u8, c: u8, d: u8): u32 {
    a * 0x100_0000 + b * 0x1_0000 + c * 0x100 + d
  }

  function Word(data: seq<u8>): u32
    requires |data| == 4
  {
    FromOctets(data[0], data[1], data[2], data[3])
  }

  lemma WordRoundTrip(x: u32)
    ensures Word(Octets(x)) == x
  {
    var y, z := x / 0x100, x / 0x1_0000;
    assert y / 0x100 == z && z / 0x100 == x / 0x100_0000;
    assert x == 0x100 * y + x % 0x100 && y == 0x100 * z + y % 0x100;
  }

  /** Network byte order, in numbers. */
  lemma BigEndian(x: u32, data: seq<u8>)
    requires |data| == 4
    ensures var o := Octets(x);
            o[0] as int * 0x100_0000 + o[1] as int * 0x1_0000 + o[2] as int * 0x100 + o[3] as int == x
    ensures Word(data) as int == data[0] as int * 0x100_0000 + data[1] as int * 0x1_0000 + data[2] as int * 0x100 + data[3] as int
  {
    WordRoundTrip(x);
  }

  lemma OctetsOfWord(data: seq<u8>)
    requires |data| == 4
    ensures Octets(Word(data)) == data
  {
    var x, y, z := Word(data), data[0] as int * 0x1_0000 + data[1] as int * 0x100 + data[2] as int, data[0] as int * 0x100 + data[1] as int;
    assert x as int == y * 0x100 + data[3] as int && y == z * 0x100 + data[2] as int;
    assert x / 0x100 == y && y / 0x100 == z;
    assert x / 0x1_0000 == z && x / 0x100_0000 == data[0];
  }

  lemma MessageTypeCodes()
    ensures MessageTypeCode(Discover) == 1 && MessageTypeCode(Offer) == 2 && MessageTypeCode(Request) == 3
         && MessageTypeCode(Decline) == 4 && MessageTypeCode(Ack) == 5 && MessageTypeCode(Nak) == 6
         && MessageTypeCode(Release) == 7 && MessageTypeCode(Inform) == 8
    ensures forall c: u8 :: MessageTypeFrom(c).None? <==> c == 0 || c > 8
    ensures forall m :: MessageTypeFrom(MessageTypeCode(m)) == Some(m)
  {
  }

  /** Complete groups of four bytes, as addresses. */
  function Addresses(data: seq<u8>): (r: seq<u32>)
    ensures |r| == |data| / 4
  {
    if |data| < 4 then [] else [Word(data[..4])] + Addresses(data[4..])
  }

  function AddressBytes(addresses: seq<u32>): (r: seq<u8>)
    ensures |r| == 4 * |addresses|
  {
    if addresses == [] then [] else Octets(addresses[0]) + AddressBytes(addresses[1..])
  }

  function DecodeText(data: seq<u8>): Text {
    LossyWellFormed(data);
    Lossy(data)
  }

  function DecodeOption(code: u8, data: seq<u8>): DhcpOption {
    if code == 1 && |data| == 4 then SubnetMask(Word(data))
    else if code == 3 then Router(Addresses(data))
    else if code == 6 then DnsServer(Addresses(data))
    else if code == 15 then DomainName(DecodeText(data))
    else if code == 50 && |data| == 4 then RequestedIpAddress(Word(data))
    else if code == 51 && |data| == 4 then LeaseTime(Word(data))
    else if code == 53 && |data| == 1 then
      (match MessageTypeFrom(data[0])
       case Some(m) => MessageTypeOption(m)
       case None => Unknown(code, data))
    else if code == 54 && |data| == 4 then ServerIdentifier(Word(data))
    else if code == 58 && |data| == 4 then RenewalTime(Word(data))
    else if code == 59 && |data| == 4 then RebindingTime(Word(data))
    else if code == 12 then Hostname(DecodeText(data))
    else Unknown(code, data)
  }

  /** Code, length truncated to a byte, and payload. */
  function Tlv(code: u8, length: nat, payload: seq<u8>): seq<u8> {
    [code, length % 0x100] + payload
  }

  function EncodeOption(o: DhcpOption): seq<u8> {
    match o
    case SubnetMask(a) => Tlv(1, 4, Octets(a))
    case Router(addrs) => Tlv(3, 4 * |addrs|, AddressBytes(addrs))
    case DnsServer(addrs) => Tlv(6, 4 * |addrs|, AddressBytes(addrs))
    case DomainName(t) => Tlv(15, |t|, t)
    case RequestedIpAddress(a) => Tlv(50, 4, Octets(a))
    case LeaseTime(t) => Tlv(51, 4, Octets(t))
    case MessageTypeOption(m) => Tlv(53, 1, [MessageTypeCode(m)])
    case ServerIdentifier(a) => Tlv(54, 4, Octets(a))
    case RenewalTime(t) => Tlv(58, 4, Octets(t))
    case RebindingTime(t) => Tlv(59, 4, Octets(t))
    case Hostname(t) => Tlv(12, |t|, t)
    case End => []
    case Unknown(code, data) => Tlv(code, |data|, data)
  }

  /** A code and payload for which the decoder has a constructor of its own. */
  predicate Recognised(code: u8, data: seq<u8>) {
    || code == 3 || code == 6 || code == 12 || code == 15
    || ((code == 1 || code == 50 || code == 51 || code == 54 || code == 58 || code == 59) && |data| == 4)
    || (code == 53 && |data| == 1 && 1 <= data[0] <= 8)
  }

  /** The options that the wire format can carry: one length byte, and no raw
      option that reads as padding, as the end marker or as a known option. */
  predicate Canonical(o: DhcpOption) {
    match o
    case Router(addrs) => |addrs| <= 63
    case DnsServer(addrs) => |addrs| <= 63
    case DomainName(t) => |t| <= 255
    case Hostname(t) => |t| <= 255
    case Unknown(code, data) => code != 0 && code != 255 && |data| <= 255 && !Recognised(code, data)
    case _ => true
  }

  /** The option codes of RFC 2132. */
  function Code(o: DhcpOption): u8 {
    match o
    case SubnetMask(_) => 1
    case Router(_) => 3
    case DnsServer(_) => 6
    case Hostname(_) => 12
    case DomainName(_) => 15
    case RequestedIpAddress(_) => 50
    case LeaseTime(_) => 51
    case MessageTypeOption(_) => 53
    case ServerIdentifier(_) => 54
    case RenewalTime(_) => 58
    case RebindingTime(_) => 59
    case End => 255
    case Unknown(code, _) => code
  }

  /** What each option looks like on the wire, byte by byte. */
  lemma OptionBytes(o: DhcpOption)
    ensures o.SubnetMask? ==> EncodeOption(o) == [1, 4] + Octets(o.address)
    ensures o.Router? ==> EncodeOption(o) == [3, 4 * |o.addresses| % 256] + AddressBytes(o.addresses)
    ensures o.DnsServer? ==> EncodeOption(o) == [6, 4 * |o.addresses| % 256] + AddressBytes(o.addresses)
    ensures o.Hostname? ==> EncodeOption(o) == [12, |o.text| % 256] + o.text
    ensures o.DomainName? ==> EncodeOption(o) == [15, |o.text| % 256] + o.text
    ensures o.RequestedIpAddress? ==> EncodeOption(o) == [50, 4] + Octets(o.address)
    ensures o.LeaseTime? ==> EncodeOption(o) == [51, 4] + Octets(o.time)
    ensures o.MessageTypeOption? ==> EncodeOption(o) == [53, 1, MessageTypeCode(o.messageType)]
    ensures o.ServerIdentifier? ==> EncodeOption(o) == [54, 4] + Octets(o.address)
    ensures o.RenewalTime? ==> EncodeOption(o) == [58, 4] + Octets(o.time)
    ensures o.RebindingTime? ==> EncodeOption(o) == [59, 4] + Octets(o.time)
    ensures o.Unknown? ==> EncodeOption(o) == [o.code, |o.data| % 256] + o.data
    ensures o.End? ==> EncodeOption(o) == []
  {
  }

  /** The code that an answer's reader looks for is the first byte sent. */
  lemma CodeIsSent(o: DhcpOption)
    requires !o.End?
    ensures EncodeOption(o) != [] && EncodeOption(o)[0] == Code(o)
  {
  }

  /** A word option is read from exactly four bytes; with any other length it stays raw. */
  lemma WordReadings(data: seq<u8>)
    ensures DecodeOption(1, data) == if |data| == 4 then SubnetMask(Word(data)) else Unknown(1, data)
    ensures DecodeOption(50, data) == if |data| == 4 then RequestedIpAddress(Word(data)) else Unknown(50, data)
    ensures DecodeOption(51, data) == if |data| == 4 then LeaseTime(Word(data)) else Unknown(51, data)
    ensures DecodeOption(54, data) == if |data| == 4 then ServerIdentifier(Word(data)) else Unknown(54, data)
    ensures DecodeOption(58, data) == if |data| == 4 then RenewalTime(Word(data)) else Unknown(58, data)
    ensures DecodeOption(59, data) == if |data| == 4 then RebindingTime(Word(data)) else Unknown(59, data)
  {
  }

  /** Lists and texts are read from any length. */
  lemma ListReadings(data: seq<u8>)
    ensures DecodeOption(3, data) == Router(Addresses(data)) && DecodeOption(6, data) == DnsServer(Addresses(data))
    ensures DecodeOption(12, data).Hostname? && DecodeOption(12, data).text == Lossy(data)
    ensures DecodeOption(15, data).DomainName? && DecodeOption(15, data).text == Lossy(data)
  {
  }

  /** The message type is read from one byte with a known value. */
  lemma MessageTypeReading(data: seq<u8>)
    ensures |data| == 1 && 1 <= data[0] <= 8 ==>
              DecodeOption(53, data).MessageTypeOption? && MessageTypeCode(DecodeOption(53, data).messageType) == data[0]
    ensures |data| != 1 || data[0] < 1 || data[0] > 8 ==> DecodeOption(53, data) == Unknown(53, data)
  {
  }

  /** Every other code stays raw. */
  lemma UnknownReadings(code: u8, data: seq<u8>)
    requires code !in {1, 3, 6, 12, 15, 50, 51, 53, 54, 58, 59}
    ensures DecodeOption(code, data) == Unknown(code, data)
  {
  }

  lemma {:induction false} AddressesFrom(data: seq<u8>, k: nat)
    requires 4 * k <= |data|
    ensures k <= |Addresses(data)| && Addresses(data)[k..] == Addresses(data[4 * k..])
  {
    if k > 0 {
      AddressesFrom(data[4..], k - 1);
      assert data[4..][4 * (k - 1)..] == data[4 * k..];
      assert Addresses(data)[1..] == Addresses(data[4..]);
      assert Addresses(data)[k..] == Addresses(data)[1..][k - 1..];
    } else {
      assert data[0..] == data;
    }
  }

  /** The addresses of a list are its complete groups of four bytes, in order. */
  lemma AddressAt(data: seq<u8>, k: nat)
    requires 4 * k + 4 <= |data|
    ensures Addresses(data)[k] == Word(data[4 * k..4 * k + 4])
  {
    AddressesFrom(data, k);
    var rest := data[4 * k..];
    assert rest[..4] == data[4 * k..4 * k + 4];
    assert Addresses(data)[k..][0] == Addresses(rest)[0];
  }

  lemma {:induction false} AddressBytesAt(addresses: seq<u32>, k: nat)
    requires k < |addresses|
    ensures AddressBytes(addresses)[4 * k..4 * k + 4] == Octets(addresses[k])
  {
    var rest := AddressBytes(addresses[1..]);
    if k > 0 {
      AddressBytesAt(addresses[1..], k - 1);
      assert AddressBytes(addresses)[4 * k..4 * k + 4] == rest[4 * (k - 1)..4 * (k - 1) + 4];
    }
  }

  lemma {:induction false} AddressesRoundTrip(addrs: seq<u32>)
    ensures Addresses(AddressBytes(addrs)) == addrs
  {
    if addrs != [] {
      var bytes := AddressBytes(addrs);
      assert bytes[..4] == Octets(addrs[0]) && bytes[4..] == AddressBytes(addrs[1..]);
      WordRoundTrip(addrs[0]);
      AddressesRoundTrip(addrs[1..]);
    }
  }

  /** The wire form of a canonical option: its code, its payload, and what they decode to. */
  lemma PayloadRoundTrip(o: DhcpOption) returns (code: u8, payload: seq<u8>)
    requires !o.End? && Canonical(o)
    ensures |payload| <= 255 && code != 0 && code != 255
    ensures EncodeOption(o) == Tlv(code, |payload|, payload) && DecodeOption(code, payload) == o
  {
    match o {
      case SubnetMask(x) => code, payload := 1, Octets(x); WordRoundTrip(x);
      case RequestedIpAddress(x) => code, payload := 50, Octets(x); WordRoundTrip(x);
      case LeaseTime(x) => code, payload := 51, Octets(x); WordRoundTrip(x);
      case ServerIdentifier(x) => code, payload := 54, Octets(x); WordRoundTrip(x);
      case RenewalTime(x) => code, payload := 58, Octets(x); WordRoundTrip(x);
      case RebindingTime(x) => code, payload := 59, Octets(x); WordRoundTrip(x);
      case Router(addrs) => code, payload := 3, AddressBytes(addrs); AddressesRoundTrip(addrs);
      case DnsServer(addrs) => code, payload := 6, AddressBytes(addrs); AddressesRoundTrip(addrs);
      case DomainName(t) => code, payload := 15, t; LossyOfWellFormed(t);
      case Hostname(t) => code, payload := 12, t; LossyOfWellFormed(t);
      case MessageTypeOption(m) => code, payload := 53, [MessageTypeCode(m)];
      case Unknown(c, data) => code, payload := c, data;
    }
  }

  /** Everything the decoder builds from at most 255 bytes is canonical, except
      text that grew past 255 bytes when its ill-formed parts were replaced. */
  lemma DecodedIsCanonical(code: u8, data: seq<u8>)
    requires code != 0 && code != 255 && |data| <= 255
    ensures !DecodeOption(code, data).End?
    ensures Canonical(DecodeOption(code, data)) <==> (code == 12 || code == 15 ==> |Lossy(data)| <= 255)
  {
  }

  lemma DecodedCode(code: u8, data: seq<u8>)
    ensures DecodeOption(code, data).Unknown? ==> DecodeOption(code, data) == Unknown(code, data)
  {
  }

  /** The `chunks_exact(4)` loop. */
  method ReadAddresses(data: seq<u8>) returns (addresses: seq<u32>)
    ensures addresses == Addresses(data)
  {
    addresses := [];
    var i := 0;
    while i + 4 <= |data|
      invariant 0 <= i <= |data|
      invariant addresses + Addresses(data[i..]) == Addresses(data)
    {
      assert data[i..][..4] == data[i..i + 4] && data[i..][4..] == data[i + 4..];
      addresses := addresses + [FromOctets(data[i], data[i + 1], data[i + 2], data[i + 3])];
      i := i + 4;
    }
  }

  /** The guarded arms, in their order; a known code with a payload of the wrong length stays raw. */
  method ParseOption(code: u8, data: seq<u8>) returns (o: DhcpOption)
    ensures o == DecodeOption(code, data)
  {
    if code == 1 && |data| == 4 {
      o := SubnetMask(FromOctets(data[0], data[1], data[2], data[3]));
    } else if code == 3 {
      var routers := ReadAddresses(data);
      o := Router(routers);
    } else if code == 6 {
      var dnsServers := ReadAddresses(data);
      o := DnsServer(dnsServers);
    } else if code == 15 {
      var name := DecodeText(data);
      o := DomainName(name);
    } else if code == 50 && |data| == 4 {
      o := RequestedIpAddress(FromOctets(data[0], data[1], data[2], data[3]));
    } else if code == 51 && |data| == 4 {
      o := LeaseTime(FromOctets(data[0], data[1], data[2], data[3]));
    } else if code == 53 && |data| == 1 {
      match MessageTypeFrom(data[0]) {
        case Some(m) => o := MessageTypeOption(m);
        case None => o := Unknown(code, data);
      }
    } else if code == 54 && |data| == 4 {
      o := ServerIdentifier(FromOctets(data[0], data[1], data[2], data[3]));
    } else if code == 58 && |data| == 4 {
      o := RenewalTime(FromOctets(data[0], data[1], data[2], data[3]));
    } else if code == 59 && |data| == 4 {
      o := RebindingTime(FromOctets(data[0], data[1], data[2], data[3]));
    } else if code == 12 {
      var name := DecodeText(data);
      o := Hostname(name);
    } else {
      o := Unknown(code, data);
    }
  }

  method AppendAddresses(bytes: seq<u8>, addresses: seq<u32>) returns (r: seq<u8>)
    ensures r == bytes + AddressBytes(addresses)
  {
    r := bytes;
    for i := 0 to |addresses|
      invariant r + AddressBytes(addresses[i..]) == bytes + AddressBytes(addresses)
    {
      assert addresses[i..][1..] == addresses[i + 1..];
      r := r + Octets(addresses[i]);
    }
  }

  method OptionToBytes(o: DhcpOption) returns (bytes: seq<u8>)
    ensures bytes == EncodeOption(o)
  {
    bytes := [];
    match o {
      case SubnetMask(addr) =>
        bytes := [1, 4];
        bytes := bytes + Octets(addr);
      case Router(addrs) =>
        bytes := [3, (|addrs| * 4) % 0x100];
        bytes := AppendAddresses(bytes, addrs);
      case DnsServer(addrs) =>
        bytes := [6, (|addrs| * 4) % 0x100];
        bytes := AppendAddresses(bytes, addrs);
      case DomainName(name) =>
        bytes := [15, |name| % 0x100];
        bytes := bytes + name;
      case RequestedIpAddress(addr) =>
        bytes := [50, 4];
        bytes := bytes + Octets(addr);
      case LeaseTime(time) =>
        bytes := [51, 4];
        bytes := bytes + Octets(time);
      case MessageTypeOption(m) =>
        bytes := [53, 1];
        bytes := bytes + [MessageTypeCode(m)];
      case ServerIdentifier(addr) =>
        bytes := [54, 4];
        bytes := bytes + Octets(addr);
      case RenewalTime(time) =>
        bytes := [58, 4];
        bytes := bytes + Octets(time);
      case RebindingTime(time) =>
        bytes := [59, 4];
        bytes := bytes + Octets(time);
      case Hostname(name) =>
        bytes := [12, |name| % 0x100];
        bytes := bytes + name;
      case End =>
      case Unknown(code, data) =>
        bytes := [code, |data| % 0x100];
        bytes := bytes + data;
    }
  }
}
