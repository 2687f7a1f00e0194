/** DHCP messages (RFC 2131 section 2) on the wire: encoder, decoder, and how
    far each undoes the other. */
module DhcpPackets {
  import opened Prelude
  import opened Utf8
  import opened MacAddress
  import opened DhcpOptions

  datatype DhcpPacket = DhcpPacket(
    op: u8, htype: u8, hlen: u8, hops: u8,
    xid: u32, secs: u16, flags: u16,
    ciaddr: u32, yiaddr: u32, siaddr: u32, giaddr: u32,
    chaddr: Mac,
    options: seq<DhcpOption>)

  const MAGIC_COOKIE: seq<u8> := [99, 130, 83, 99]
  const OPTIONS_START := 240

  function NewPacket(): DhcpPacket {
    DhcpPacket(1, 1, 6, 0, 0, 0, 0, 0, 0, 0, 0, [0, 0, 0, 0, 0, 0], [])
  }

  // ------------------------------------------------------------------
  // Specification of the two directions

  function Half(x: u16): (r: seq<u8>)
    ensures |r| == 2
  {
    [x / 0x100, x % 0x100]
  }

  function FromHalf(a: u8, b: u8): u16 {
    a * 0x100 + b
  }

  lemma HalfRoundTrip(x: u16)
    ensures var h := Half(x); FromHalf(h[0], h[1]) == x
  {
  }

  function Fields(p: DhcpPacket): (r: seq<u8>)
    ensures |r| == 34
  {
    [p.op, p.htype, p.hlen, p.hops] + Octets(p.xid) + Half(p.secs) + Half(p.flags)
    + Octets(p.ciaddr) + Octets(p.yiaddr) + Octets(p.siaddr) + Octets(p.giaddr) + p.chaddr
  }

  function Zeros(n: nat): (r: seq<u8>)
    ensures |r| == n && forall k :: 0 <= k < n ==> r[k] == 0
  {
    seq(n, _ => 0)
  }

  function EncodeHeader(p: DhcpPacket): (r: seq<u8>)
    ensures |r| == OPTIONS_START
  {
    Fields(p) + Zeros(202) + MAGIC_COOKIE
  }

  function EncodeOptions(os: seq<DhcpOption>): seq<u8> {
    if os == [] then [] else EncodeOption(os[0]) + EncodeOptions(os[1..])
  }

  function Encode(p: DhcpPacket): seq<u8> {
    EncodeHeader(p) + (EncodeOptions(p.options) + [255])
  }

  /** The option area as a grammar: padding, an end marker, or a code, a length
      and that many bytes; anything cut short ends the list. */
  function DecodeOptions(s: seq<u8>): seq<DhcpOption> {
    if s == [] then []
    else if s[0] == 255 then [End]
    else if s[0] == 0 then DecodeOptions(s[1..])
    else if |s| < 2 || 2 + s[1] as int > |s| then []
    else [DecodeOption(s[0], s[2..2 + s[1] as int])] + DecodeOptions(s[2 + s[1] as int..])
  }

  predicate HasCookie(data: seq<u8>)
    requires |data| >= OPTIONS_START
  {
    data[236..240] == MAGIC_COOKIE
  }

  function DecodeFields(data: seq<u8>, options: seq<DhcpOption>): DhcpPacket
    requires |data| >= OPTIONS_START
  {
    DhcpPacket(
      data[0], data[1], data[2], data[3],
      FromOctets(data[4], data[5], data[6], data[7]),
      FromHalf(data[8], data[9]),
      FromHalf(data[10], data[11]),
      FromOctets(data[12], data[13], data[14], data[15]),
      FromOctets(data[16], data[17], data[18], data[19]),
      FromOctets(data[20], data[21], data[22], data[23]),
      FromOctets(data[24], data[25], data[26], data[27]),
      data[28..34],
      options)
  }

  function Decode(data: seq<u8>): Result<DhcpPacket, string> {
    if |data| < OPTIONS_START then Failure("Packet too small")
    else Success(DecodeFields(data, if HasCookie(data) then DecodeOptions(data[OPTIONS_START..]) else []))
  }

  // ------------------------------------------------------------------
  // The imperative parser and serializer

  /** A whole option, neither padding nor the end marker, starts at `i`. */
  predicate WholeOption(data: seq<u8>, i: nat) {
    i + 1 < |data| && data[i] != 0 && data[i] != 255 && i + 2 + data[i + 1] as int <= |data|
  }

  lemma OptionsStep(data: seq<u8>, i: nat)
    requires WholeOption(data, i)
    ensures var n := 2 + data[i + 1] as int;
            DecodeOptions(data[i..]) == [DecodeOption(data[i], data[i + 2..i + n])] + DecodeOptions(data[i + n..])
  {
    var n, rest := 2 + data[i + 1] as int, data[i..];
    assert rest[2..n] == data[i + 2..i + n] && rest[n..] == data[i + n..];
  }

  /** What the loop still has to read at position `i`. */
  function OptionsFrom(data: seq<u8>, i: nat): seq<DhcpOption>
    requires i <= |data|
  {
    DecodeOptions(data[i..])
  }

  lemma PaddingStep(data: seq<u8>, i: nat)
    requires i < |data| && data[i] == 0
    ensures OptionsFrom(data, i) == OptionsFrom(data, i + 1)
  {
    assert data[i..][1..] == data[i + 1..];
  }

  /** The end marker, a missing length and a cut-off payload each end the list. */
  lemma LastStep(data: seq<u8>, i: nat)
    requires i < |data| && data[i] != 0 && !WholeOption(data, i)
    ensures OptionsFrom(data, i) == if data[i] == 255 then [End] else []
  {
    assert |data[i..]| >= 2 ==> data[i..][1] == data[i + 1];
  }

  /** The whole option at `i`. */
  method ReadOption(data: seq<u8>, i: nat) returns (o: DhcpOption)
    requires WholeOption(data, i)
    ensures OptionsFrom(data, i) == [o] + OptionsFrom(data, i + 2 + data[i + 1] as int)
  {
    o := ParseOption(data[i], data[i + 2..i + 2 + data[i + 1] as int]);
    OptionsStep(data, i);
  }

  /** The option loop. */
  method ParseOptions(data: seq<u8>) returns (options: seq<DhcpOption>)
    requires |data| >= OPTIONS_START
    ensures options == DecodeOptions(data[OPTIONS_START..])
  {
    options := [];
    var i := OPTIONS_START;
    ghost var all := OptionsFrom(data, i);
    while i < |data|
      invariant OPTIONS_START <= i <= |data|
      invariant options + OptionsFrom(data, i) == all
    {
      var optionCode := data[i];
      if optionCode == 255 {
        LastStep(data, i);
        options := options + [End];
        return;
      }
      if optionCode == 0 {
        PaddingStep(data, i);
        i := i + 1;
        continue;
      }
      if i + 1 >= |data| {
        LastStep(data, i);
        return;
      }
      var optionLen := data[i + 1] as int;
      if i + 2 + optionLen > |data| {
        LastStep(data, i);
        return;
      }
      var o := ReadOption(data, i);
      ConcatAssociates(options, [o], OptionsFrom(data, i + 2 + optionLen));
      options := options + [o];
      i := i + 2 + optionLen;
    }
  }

  method Parse(data: seq<u8>) returns (r: Result<DhcpPacket, string>)
    ensures r == Decode(data)
  {
    if |data| < OPTIONS_START {
      return Failure("Packet too small");
    }
    var options := [];
    if |data| > OPTIONS_START && data[236..240] == MAGIC_COOKIE {
      options := ParseOptions(data);
    }
    r := Success(DecodeFields(data, options));
  }

  /** `a[at..at + n].copy_from_slice(bytes)` */
  method CopyInto(a: array<u8>, at: nat, bytes: seq<u8>)
    requires at + |bytes| <= a.Length
    modifies a
    ensures a[..at + |bytes|] == old(a[..at]) + bytes
    ensures forall k :: at + |bytes| <= k < a.Length ==> a[k] == old(a[k])
  {
    forall k | 0 <= k < |bytes| {
      a[at + k] := bytes[k];
    }
  }

  method WriteFields(header: array<u8>, p: DhcpPacket)
    requires header.Length == OPTIONS_START
    modifies header
    ensures header[..34] == Fields(p)
    ensures forall k :: 34 <= k < header.Length ==> header[k] == old(header[k])
  {
    ghost var start := [p.op, p.htype, p.hlen, p.hops];
    header[0], header[1], header[2], header[3] := p.op, p.htype, p.hlen, p.hops;
    assert header[..4] == start;
    CopyInto(header, 4, Octets(p.xid));
    CopyInto(header, 8, Half(p.secs));
    CopyInto(header, 10, Half(p.flags));
    assert header[..12] == start + Octets(p.xid) + Half(p.secs) + Half(p.flags);
    WriteAddresses(header, p);
  }

  method WriteAddresses(header: array<u8>, p: DhcpPacket)
    requires header.Length == OPTIONS_START
    modifies header
    ensures header[..34] == old(header[..12]) + Octets(p.ciaddr) + Octets(p.yiaddr) + Octets(p.siaddr) + Octets(p.giaddr) + p.chaddr
    ensures forall k :: 34 <= k < header.Length ==> header[k] == old(header[k])
  {
    CopyInto(header, 12, Octets(p.ciaddr));
    CopyInto(header, 16, Octets(p.yiaddr));
    CopyInto(header, 20, Octets(p.siaddr));
    CopyInto(header, 24, Octets(p.giaddr));
    CopyInto(header, 28, p.chaddr);
  }

  method HeaderToBytes(p: DhcpPacket) returns (bytes: seq<u8>)
    ensures bytes == EncodeHeader(p)
  {
    var header := new u8[240](_ => 0);
    WriteFields(header, p);
    assert header[34..236] == Zeros(202);
    assert header[..236] == Fields(p) + Zeros(202);
    CopyInto(header, 236, MAGIC_COOKIE);
    bytes := header[..];
  }

  lemma EncodeStep(os: seq<DhcpOption>, i: nat)
    requires i < |os|
    ensures EncodeOptions(os[i..]) == EncodeOption(os[i]) + EncodeOptions(os[i + 1..])
  {
    assert os[i..][1..] == os[i + 1..];
  }

  method ToBytes(p: DhcpPacket) returns (bytes: seq<u8>)
    ensures bytes == Encode(p)
  {
    bytes := HeaderToBytes(p);
    for i := 0 to |p.options|
      invariant bytes + EncodeOptions(p.options[i..]) == EncodeHeader(p) + EncodeOptions(p.options)
    {
      EncodeStep(p.options, i);
      var optionBytes := OptionToBytes(p.options[i]);
      ConcatAssociates(bytes, optionBytes, EncodeOptions(p.options[i + 1..]));
      bytes := bytes + optionBytes;
    }
    assert bytes == EncodeHeader(p) + EncodeOptions(p.options);
    bytes := bytes + [255];
  }

  /** The first message-type option. */
  function MessageTypeOf(options: seq<DhcpOption>): Option<MessageType> {
    if options == [] then None
    else if options[0].MessageTypeOption? then Some(options[0].messageType)
    else MessageTypeOf(options[1..])
  }

  method GetMessageType(p: DhcpPacket) returns (r: Option<MessageType>)
    ensures r == MessageTypeOf(p.options)
  {
    for i := 0 to |p.options|
      invariant MessageTypeOf(p.options[i..]) == MessageTypeOf(p.options)
    {
      assert p.options[i..][1..] == p.options[i + 1..];
      if p.options[i].MessageTypeOption? {
        return Some(p.options[i].messageType);
      }
    }
    r := None;
  }

  // ------------------------------------------------------------------
  // The bytes themselves

  lemma HalfIsBigEndian(x: u16, a: u8, b: u8)
    ensures var h := Half(x); h[0] as int * 0x100 + h[1] as int == x
    ensures FromHalf(a, b) as int == a as int * 0x100 + b as int
  {
  }

  /** Where everything stands in a message (RFC 2131 section 2). */
  lemma MessageLayout(p: DhcpPacket)
    ensures var e := Encode(p);
            && |e| >= 241 && e[0] == p.op && e[1] == p.htype && e[2] == p.hlen && e[3] == p.hops
            && e[4..8] == Octets(p.xid) && e[8..10] == Half(p.secs) && e[10..12] == Half(p.flags)
            && e[12..16] == Octets(p.ciaddr) && e[16..20] == Octets(p.yiaddr)
            && e[20..24] == Octets(p.siaddr) && e[24..28] == Octets(p.giaddr) && e[28..34] == p.chaddr
            && (forall k :: 34 <= k < 236 ==> e[k] == 0)
            && e[236..240] == [99, 130, 83, 99]
            && e[240..] == EncodeOptions(p.options) + [255]
  {
    var e, f := Encode(p), Fields(p);
    assert e[..34] == f && e[34..236] == Zeros(202);
    FieldSlices(p);
    SameSlices(e, f);
    assert e[0] == f[..4][0] && e[1] == f[..4][1] && e[2] == f[..4][2] && e[3] == f[..4][3];
    forall k | 34 <= k < 236 ensures e[k] == 0 {
      assert e[k] == Zeros(202)[k - 34];
    }
  }

  /** Short messages are refused; in all others options are read behind the cookie, and only there. */
  lemma OptionsBehindCookie(data: seq<u8>)
    ensures Decode(data).Failure? <==> |data| < 240
    ensures |data| >= 240 ==>
              Decode(data).value.options == if data[236..240] == [99, 130, 83, 99] then DecodeOptions(data[240..]) else []
  {
  }

  /** The option area: padding is skipped, the end marker ends it, anything else
      carries its length in the second byte. */
  lemma OptionGrammar(rest: seq<u8>, code: u8, payload: seq<u8>)
    requires code != 0 && code != 255 && |payload| <= 255
    ensures DecodeOptions([]) == [] && DecodeOptions([code]) == []
    ensures DecodeOptions([0] + rest) == DecodeOptions(rest)
    ensures DecodeOptions([255] + rest) == [End]
    ensures DecodeOptions([code, |payload|] + payload + rest) == [DecodeOption(code, payload)] + DecodeOptions(rest)
    ensures payload != [] ==> DecodeOptions([code, |payload|] + payload[1..]) == []
  {
    assert ([0] + rest)[1..] == rest;
    assert [code, |payload|] + payload == Tlv(code, |payload|, payload);
    DecodeTlv(code, payload, rest);
  }

  /** The message type is that of the first such option. */
  lemma {:induction false} FirstMessageType(options: seq<DhcpOption>)
    ensures MessageTypeOf(options).None? <==> forall o :: o in options ==> !o.MessageTypeOption?
    ensures MessageTypeOf(options).Some? ==>
              exists k :: 0 <= k < |options| && options[k] == MessageTypeOption(MessageTypeOf(options).value)
                && forall j :: 0 <= j < k ==> !options[j].MessageTypeOption?
  {
    if options != [] {
      FirstMessageType(options[1..]);
      assert options == [options[0]] + options[1..];
      if !options[0].MessageTypeOption? && MessageTypeOf(options).Some? {
        var rest := options[1..];
        var k :| 0 <= k < |rest| && rest[k] == MessageTypeOption(MessageTypeOf(rest).value)
          && forall j :: 0 <= j < k ==> !rest[j].MessageTypeOption?;
        assert options[k + 1] == rest[k];
        forall j | 0 <= j < k + 1 ensures !options[j].MessageTypeOption? {
          assert j > 0 ==> options[j] == rest[j - 1];
        }
      } else if options[0].MessageTypeOption? {
        assert options[0] in options;
      }
    }
  }

  // ------------------------------------------------------------------
  // Encoding, then decoding

  function WithoutEnd(os: seq<DhcpOption>): seq<DhcpOption> {
    if os == [] then [] else (if os[0].End? then [] else [os[0]]) + WithoutEnd(os[1..])
  }

  /** What a packet reads back as. */
  function Closed(p: DhcpPacket): DhcpPacket {
    p.(options := WithoutEnd(p.options) + [End])
  }

  predicate AllCanonical(os: seq<DhcpOption>) {
    forall o :: o in os ==> Canonical(o)
  }

  /** Code, length and payload in front of `rest`. */
  lemma HeadRead(head: seq<u8>, rest: seq<u8>)
    requires |head| >= 2 && head[0] != 0 && head[0] != 255 && |head| == 2 + head[1] as int
    ensures DecodeOptions(head + rest) == [DecodeOption(head[0], head[2..])] + DecodeOptions(rest)
  {
    var s := head + rest;
    assert s[2..|head|] == head[2..] && s[|head|..] == rest;
  }

  lemma DecodeTlv(code: u8, payload: seq<u8>, rest: seq<u8>)
    requires code != 0 && code != 255 && |payload| <= 255
    ensures DecodeOptions(Tlv(code, |payload|, payload) + rest) == [DecodeOption(code, payload)] + DecodeOptions(rest)
  {
    var head := Tlv(code, |payload|, payload);
    assert head[2..] == payload;
    HeadRead(head, rest);
  }

  lemma CanonicalReadsBack(o: DhcpOption, rest: seq<u8>)
    requires !o.End? && Canonical(o)
    ensures DecodeOptions(EncodeOption(o) + rest) == [o] + DecodeOptions(rest)
  {
    var code, payload := PayloadRoundTrip(o);
    DecodeTlv(code, payload, rest);
  }

  /** Every decoded option is the end marker or comes from a code other than 0 and 255 and at most 255 bytes. */
  ghost predicate Decoded(o: DhcpOption) {
    o.End? || exists code: u8, data: seq<u8> :: code != 0 && code != 255 && |data| <= 255 && o == DecodeOption(code, data)
  }

  lemma {:induction false} OptionsAreDecoded(s: seq<u8>)
    ensures forall o :: o in DecodeOptions(s) ==> Decoded(o)
    decreases |s|
  {
    if s != [] && s[0] != 255 {
      if s[0] == 0 {
        OptionsAreDecoded(s[1..]);
      } else if |s| >= 2 && 2 + s[1] as int <= |s| {
        OptionsAreDecoded(s[2 + s[1] as int..]);
        assert Decoded(DecodeOption(s[0], s[2..2 + s[1] as int]));
      }
    }
  }

  /** An overlong TLV is read back with its payload cut to the low byte of its length. */
  lemma DecodeCutTlv(code: u8, payload: seq<u8>, rest: seq<u8>)
    requires code != 0 && code != 255
    ensures |DecodeOptions(Tlv(code, |payload|, payload) + rest)| > 0
    ensures DecodeOptions(Tlv(code, |payload|, payload) + rest)[0] == DecodeOption(code, payload[..|payload| % 0x100])
  {
    var cut := |payload| % 0x100;
    var s := Tlv(code, |payload|, payload) + rest;
    assert s[2..2 + cut] == payload[..cut];
  }

  lemma LongTextIsLost(code: u8, t: Text, rest: seq<u8>)
    requires (code == 12 || code == 15) && |t| > 255
    ensures var r := DecodeOptions(Tlv(code, |t|, t) + rest); r == [] || (r[0] != DomainName(t) && r[0] != Hostname(t))
  {
    DecodeCutTlv(code, t, rest);
    CutTextDiffers(t);
  }

  lemma CutTextDiffers(t: Text)
    requires |t| > 255
    ensures DecodeText(t[..|t| % 0x100]) != t
  {
    LossyOfPrefix(t, |t| % 0x100);
  }

  lemma LongListIsLost(code: u8, addrs: seq<u32>, rest: seq<u8>)
    requires (code == 3 || code == 6) && |addrs| > 63
    ensures var r := DecodeOptions(Tlv(code, 4 * |addrs|, AddressBytes(addrs)) + rest);
            r == [] || (r[0] != Router(addrs) && r[0] != DnsServer(addrs))
  {
    DecodeCutTlv(code, AddressBytes(addrs), rest);
  }

  lemma RawIsLost(code: u8, data: seq<u8>, rest: seq<u8>)
    requires !Canonical(Unknown(code, data))
    ensures var r := DecodeOptions(Tlv(code, |data|, data) + rest); r == [] || r[0] != Unknown(code, data)
  {
    var s := Tlv(code, |data|, data) + rest;
    if code == 0 {
      OptionsAreDecoded(s);
      var r := DecodeOptions(s);
      if r != [] && r[0] == Unknown(0, data) {
        assert Decoded(r[0]);
        var c: u8, d: seq<u8> :| c != 0 && c != 255 && |d| <= 255 && r[0] == DecodeOption(c, d);
        DecodedCode(c, d);
      }
    } else if code != 255 {
      DecodeCutTlv(code, data, rest);
    }
  }

  /** An option outside the canonical set is never read back as itself. */
  lemma NonCanonicalIsLost(o: DhcpOption, rest: seq<u8>)
    requires !Canonical(o)
    ensures var r := DecodeOptions(EncodeOption(o) + rest); r == [] || r[0] != o
  {
    match o {
      case Router(addrs) => LongListIsLost(3, addrs, rest);
      case DnsServer(addrs) => LongListIsLost(6, addrs, rest);
      case DomainName(t) => LongTextIsLost(15, t, rest);
      case Hostname(t) => LongTextIsLost(12, t, rest);
      case Unknown(code, data) => RawIsLost(code, data, rest);
    }
  }

  lemma SameTail<T>(x: T, a: seq<T>, b: seq<T>)
    ensures [x] + a == [x] + b <==> a == b
  {
    assert ([x] + a)[1..] == a && ([x] + b)[1..] == b;
  }

  /** One option in front: the list reads back iff the option is canonical and the rest reads back. */
  lemma FirstOptionDecides(o: DhcpOption, rest: seq<u8>, expected: seq<DhcpOption>)
    requires !o.End?
    ensures DecodeOptions(EncodeOption(o) + rest) == [o] + expected <==> Canonical(o) && DecodeOptions(rest) == expected
  {
    if Canonical(o) {
      CanonicalReadsBack(o, rest);
      SameTail(o, DecodeOptions(rest), expected);
    } else {
      NonCanonicalIsLost(o, rest);
    }
  }

  lemma AllCanonicalCons(o: DhcpOption, tail: seq<DhcpOption>)
    ensures AllCanonical([o] + tail) <==> Canonical(o) && AllCanonical(tail)
  {
    if AllCanonical([o] + tail) {
      assert o in [o] + tail && forall x :: x in tail ==> x in [o] + tail;
    }
  }

  predicate ReadsBack(os: seq<DhcpOption>) {
    DecodeOptions(EncodeOptions(os) + [255]) == WithoutEnd(os) + [End]
  }

  lemma ReadsBackCons(o: DhcpOption, tail: seq<DhcpOption>)
    ensures ReadsBack([o] + tail) <==> Canonical(o) && ReadsBack(tail)
  {
    var os := [o] + tail;
    var rest, expected := EncodeOptions(tail) + [255], WithoutEnd(tail) + [End];
    assert os[0] == o && os[1..] == tail;
    ConcatAssociates(EncodeOption(o), EncodeOptions(tail), [255]);
    if o.End? {
      assert EncodeOptions(os) + [255] == rest && WithoutEnd(os) + [End] == expected;
    } else {
      ConcatAssociates([o], WithoutEnd(tail), [End]);
      FirstOptionDecides(o, rest, expected);
    }
  }

  lemma {:induction false} OptionsRoundTrip(os: seq<DhcpOption>)
    ensures DecodeOptions(EncodeOptions(os) + [255]) == WithoutEnd(os) + [End] <==> AllCanonical(os)
  {
    if os != [] {
      assert os == [os[0]] + os[1..];
      AllCanonicalCons(os[0], os[1..]);
      OptionsRoundTrip(os[1..]);
      ReadsBackCons(os[0], os[1..]);
    } else {
      assert EncodeOptions(os) + [255] == [255] && WithoutEnd(os) + [End] == [End];
    }
  }

  lemma WordAt(data: seq<u8>, at: nat, x: u32)
    requires at + 4 <= |data| && data[at..at + 4] == Octets(x)
    ensures FromOctets(data[at], data[at + 1], data[at + 2], data[at + 3]) == x
  {
    var w := data[at..at + 4];
    assert w[0] == data[at] && w[1] == data[at + 1] && w[2] == data[at + 2] && w[3] == data[at + 3];
    WordRoundTrip(x);
  }

  lemma HalfAt(data: seq<u8>, at: nat, x: u16)
    requires at + 2 <= |data| && data[at..at + 2] == Half(x)
    ensures FromHalf(data[at], data[at + 1]) == x
  {
    var h := data[at..at + 2];
    assert h[0] == data[at] && h[1] == data[at + 1];
    HalfRoundTrip(x);
  }

  /** Where the encoder puts each field. */
  lemma FieldSlices(p: DhcpPacket)
    ensures var f := Fields(p);
            && f[..4] == [p.op, p.htype, p.hlen, p.hops]
            && f[4..8] == Octets(p.xid) && f[8..10] == Half(p.secs) && f[10..12] == Half(p.flags)
            && f[12..16] == Octets(p.ciaddr) && f[16..20] == Octets(p.yiaddr)
            && f[20..24] == Octets(p.siaddr) && f[24..28] == Octets(p.giaddr) && f[28..34] == p.chaddr
  {
  }

  lemma SameSlices(data: seq<u8>, f: seq<u8>)
    requires |f| <= |data| && data[..|f|] == f
    ensures forall i, j :: 0 <= i <= j <= |f| ==> data[i..j] == f[i..j]
  {
    forall i, j | 0 <= i <= j <= |f| ensures data[i..j] == f[i..j] {
      assert data[..|f|][i..j] == data[i..j];
    }
  }

  lemma FieldsRoundTrip(p: DhcpPacket, data: seq<u8>, options: seq<DhcpOption>)
    requires |data| >= OPTIONS_START && data[..34] == Fields(p)
    ensures DecodeFields(data, options) == p.(options := options)
  {
    FieldSlices(p);
    SameSlices(data, Fields(p));
    assert data[..4][0] == data[0] && data[..4][1] == data[1] && data[..4][2] == data[2] && data[..4][3] == data[3];
    WordAt(data, 4, p.xid);
    HalfAt(data, 8, p.secs);
    HalfAt(data, 10, p.flags);
    WordAt(data, 12, p.ciaddr);
    WordAt(data, 16, p.yiaddr);
    WordAt(data, 20, p.siaddr);
    WordAt(data, 24, p.giaddr);
  }

  /** A packet reads back with the same header, its options in order and one end
      marker, exactly when every option is canonical. */
  lemma RoundTrip(p: DhcpPacket)
    ensures Decode(Encode(p)) == Success(Closed(p)) <==> AllCanonical(p.options)
  {
    var area := EncodeOptions(p.options) + [255];
    var data := Encode(p);
    assert data[236..240] == MAGIC_COOKIE && data[OPTIONS_START..] == area;
    assert data[..34] == Fields(p);
    FieldsRoundTrip(p, data, DecodeOptions(area));
    OptionsRoundTrip(p.options);
  }

  // ------------------------------------------------------------------
  // Decoding, then encoding

  /** The text options of a packet still fit a length byte. */
  predicate TextFits(os: seq<DhcpOption>) {
    forall o :: o in os ==> (o.DomainName? || o.Hostname? ==> |o.text| <= 255)
  }

  /** Re-encoding whatever the parser accepted reads back as the same packet, up
      to its end marker, exactly when no text option grew past 255 bytes. */
  lemma Normalisation(data: seq<u8>)
    requires Decode(data).Success?
    ensures var p := Decode(data).value;
            Decode(Encode(p)) == Success(Closed(p)) <==> TextFits(p.options)
  {
    var p := Decode(data).value;
    if HasCookie(data) {
      OptionsAreDecoded(data[OPTIONS_START..]);
    }
    forall o | o in p.options ensures Canonical(o) <==> (o.DomainName? || o.Hostname? ==> |o.text| <= 255) {
      assert Decoded(o);
      if !o.End? {
        var code: u8, d: seq<u8> :| code != 0 && code != 255 && |d| <= 255 && o == DecodeOption(code, d);
        DecodedIsCanonical(code, d);
      }
    }
    RoundTrip(p);
  }

  /** A decoded option list has at most one end marker, in last place. */
  lemma {:induction false} EndIsLast(s: seq<u8>)
    ensures forall k :: 0 <= k < |DecodeOptions(s)| - 1 ==> !DecodeOptions(s)[k].End?
    decreases |s|
  {
    if s != [] && s[0] != 255 {
      if s[0] == 0 {
        EndIsLast(s[1..]);
      } else if |s| >= 2 && 2 + s[1] as int <= |s| {
        EndIsLast(s[2 + s[1] as int..]);
      }
    }
  }

  // ------------------------------------------------------------------
  // The option grammar

  /** The option area without padding, without what follows the end marker and without a cut-off tail. */
  function Essential(s: seq<u8>): seq<u8> {
    if s == [] then []
    else if s[0] == 255 then [255]
    else if s[0] == 0 then Essential(s[1..])
    else if |s| < 2 || 2 + s[1] as int > |s| then []
    else s[..2 + s[1] as int] + Essential(s[2 + s[1] as int..])
  }

  /** Padding between options and bytes after the end marker never matter. */
  lemma {:induction false} OnlyEssentialBytesMatter(s: seq<u8>)
    ensures DecodeOptions(Essential(s)) == DecodeOptions(s)
    decreases |s|
  {
    if s != [] && s[0] != 255 {
      if s[0] == 0 {
        OnlyEssentialBytesMatter(s[1..]);
      } else if |s| >= 2 && 2 + s[1] as int <= |s| {
        var n := 2 + s[1] as int;
        OnlyEssentialBytesMatter(s[n..]);
        HeadRead(s[..n], s[n..]);
        HeadRead(s[..n], Essential(s[n..]));
        assert s == s[..n] + s[n..];
      }
    }
  }

  lemma GrowsBehind(head: seq<u8>, part: seq<u8>, whole: seq<u8>)
    requires |head| >= 2 && head[0] != 0 && head[0] != 255 && |head| == 2 + head[1] as int
    requires DecodeOptions(part) <= DecodeOptions(whole)
    ensures DecodeOptions(head + part) <= DecodeOptions(head + whole)
  {
    HeadRead(head, part);
    HeadRead(head, whole);
  }

  lemma {:induction false} OptionsGrow(s: seq<u8>, k: nat)
    requires k <= |s|
    ensures DecodeOptions(s[..k]) <= DecodeOptions(s)
    decreases |s|
  {
    if k > 0 && s[0] != 255 {
      if s[0] == 0 {
        OptionsGrow(s[1..], k - 1);
        assert s[..k][1..] == s[1..][..k - 1];
      } else if k >= 2 && 2 + s[1] as int <= k {
        var n := 2 + s[1] as int;
        var head, rest := s[..n], s[n..];
        OptionsGrow(rest, k - n);
        GrowsBehind(head, rest[..k - n], rest);
        assert s == head + rest && s[..k] == head + rest[..k - n];
      } else {
        assert DecodeOptions(s[..k]) == [];
      }
    }
  }

  /** A message cut anywhere after its fixed part yields the same header and a prefix of its options. */
  lemma Truncation(data: seq<u8>, k: nat)
    requires OPTIONS_START <= k <= |data|
    ensures Decode(data).Success? && Decode(data[..k]).Success?
    ensures var whole, part := Decode(data).value, Decode(data[..k]).value;
            part.options <= whole.options && part == whole.(options := part.options)
  {
    var part := data[..k];
    assert part[236..240] == data[236..240];
    assert part[OPTIONS_START..] == data[OPTIONS_START..][..k - OPTIONS_START];
    assert part[28..34] == data[28..34];
    OptionsGrow(data[OPTIONS_START..], k - OPTIONS_START);
  }
}
