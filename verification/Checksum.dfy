/** The Internet checksum (RFC 1071) as the server computes it, and the raw
    Ethernet/IPv4/UDP frame that carries it. */
module Checksum {
  import opened Prelude
  import opened Bits
  import opened MacAddress
  import opened DhcpOptions
  import opened DhcpPackets

  const WORD := 0x1_0000_0000

  /** The sum of the big-endian 16-bit words, an odd last byte padded on the right. */
  function WordSum(data: seq<u8>): nat {
    if data == [] then 0
    else if |data| == 1 then FromHalf(data[0], 0)
    else FromHalf(data[0], data[1]) + WordSum(data[2..])
  }

  /** An odd last byte counts as if a zero byte followed. */
  lemma {:induction false} OddBytePadded(data: seq<u8>)
    requires |data| % 2 == 1
    ensures WordSum(data) == WordSum(data + [0])
  {
    var padded := data + [0];
    if |data| >= 2 {
      OddBytePadded(data[2..]);
      assert padded[2..] == data[2..] + [0];
    } else {
      assert padded[2..] == [];
    }
  }

  lemma FoldStep(sum: nat)
    ensures And(sum, 0xFFFF) == sum % 0x1_0000 && Shr(sum, 16) == sum / 0x1_0000
  {
    Pow2Values();
    AndLow(sum, 16);
    ShrValue(sum, 16);
  }

  lemma CarryStep(sum: nat)
    requires sum >= 0x1_0000
    ensures var next := sum % 0x1_0000 + sum / 0x1_0000;
            0 < next < sum && next % 0xFFFF == sum % 0xFFFF
  {
    var next, high := sum % 0x1_0000 + sum / 0x1_0000, sum / 0x1_0000;
    assert sum == next + 0xFFFF * high;
    DivModUnique(sum, next / 0xFFFF + high, next % 0xFFFF, 0xFFFF);
  }

  /** `sum >> 16` */
  function Carries(sum: nat): (r: nat)
    ensures r == sum / 0x1_0000
  {
    FoldStep(sum);
    Shr(sum, 16)
  }

  /** `(sum & 0xffff) + (sum >> 16)` */
  function AddCarries(sum: nat): (r: nat)
    ensures r == sum % 0x1_0000 + sum / 0x1_0000
  {
    FoldStep(sum);
    And(sum, 0xFFFF) + Shr(sum, 16)
  }

  /** Carries are added back until the sum fits sixteen bits. */
  function Fold(sum: nat): u16 {
    if Carries(sum) == 0 then sum else
      CarryStep(sum);
      Fold(AddCarries(sum))
  }

  /** The checksum, with the `u32` accumulator wrapping. */
  function ChecksumOf(data: seq<u8>): u16 {
    0xFFFF - Fold(WordSum(data) % WORD)
  }

  lemma WrapAdd(x: nat, y: nat)
    ensures (x % WORD + y) % WORD == (x + y) % WORD
  {
    var z := x % WORD + y;
    assert x + y == (x / WORD + z / WORD) * WORD + z % WORD;
    DivModUnique(x + y, x / WORD + z / WORD, z % WORD, WORD);
  }

  /** One word moves from the rest of the data into the wrapping sum. */
  lemma SumStep(sum: u32, word: nat, rest: nat, total: nat)
    requires (sum + (word + rest)) % WORD == total % WORD
    ensures ((sum + word) % WORD + rest) % WORD == total % WORD
  {
    WrapAdd(sum + word, rest);
  }

  lemma SmallRemainder(sum: u32)
    ensures sum % WORD == sum
  {
  }

  /** The accumulating loop and the odd last byte. */
  method SumWords(data: seq<u8>) returns (sum: u32)
    ensures sum == WordSum(data) % WORD
  {
    sum := 0;
    var i := 0;
    while i + 1 < |data|
      invariant 0 <= i <= |data|
      invariant (sum + WordSum(data[i..])) % WORD == WordSum(data) % WORD
    {
      var word := FromHalf(data[i], data[i + 1]);
      assert data[i..][2..] == data[i + 2..];
      SumStep(sum, word, WordSum(data[i + 2..]), WordSum(data));
      sum := (sum + word) % WORD;
      i := i + 2;
    }
    if i < |data| {
      sum := (sum + FromHalf(data[i], 0)) % WORD;
    } else {
      SmallRemainder(sum);
    }
  }

  method IpChecksum(data: seq<u8>) returns (r: u16)
    ensures r == ChecksumOf(data)
  {
    var sum: u32 := SumWords(data);
    while Carries(sum) != 0
      invariant Fold(sum) == Fold(WordSum(data) % WORD)
      decreases sum
    {
      CarryStep(sum);
      sum := AddCarries(sum);
    }
    r := 0xFFFF - sum % 0x1_0000;
  }

  /** Folding keeps the value modulo 65535 and reaches zero only from zero. */
  lemma {:induction false} FoldMeaning(sum: nat)
    ensures Fold(sum) % 0xFFFF == sum % 0xFFFF
    ensures Fold(sum) == 0 <==> sum == 0
    decreases sum
  {
    if Carries(sum) != 0 {
      CarryStep(sum);
      FoldMeaning(AddCarries(sum));
    }
  }

  lemma {:induction false} WordSumBound(data: seq<u8>)
    ensures WordSum(data) <= 0xFFFF * ((|data| + 1) / 2)
  {
    if |data| >= 2 {
      WordSumBound(data[2..]);
    }
  }

  lemma {:induction false} WordSumOfOnes(n: nat) returns (data: seq<u8>)
    ensures |data| == n && WordSum(data) == 0xFFFF * (n / 2) + (n % 2) * 0xFF00
  {
    if n == 0 {
      data := [];
    } else if n == 1 {
      data := [0xFF];
    } else {
      var tail := WordSumOfOnes(n - 2);
      data := [0xFF, 0xFF] + tail;
      assert data[2..] == tail;
    }
  }

  /** The `u32` accumulator never overflows on `n` bytes exactly when `n` is at most 131074. */
  lemma NoOverflowIff(n: nat)
    ensures (forall data: seq<u8> :: |data| == n ==> WordSum(data) < WORD) <==> n <= 131074
  {
    if n <= 131074 {
      forall data: seq<u8> | |data| == n ensures WordSum(data) < WORD {
        WordSumBound(data);
      }
    } else {
      var data := WordSumOfOnes(n);
      assert WordSum(data) >= WORD;
    }
  }

  lemma FoldIsFull(sum: nat)
    ensures Fold(sum) == 0xFFFF <==> sum > 0 && sum % 0xFFFF == 0
  {
    FoldMeaning(sum);
    var f := Fold(sum);
    assert f % 0xFFFF == (if f == 0xFFFF then 0 else f);
  }

  lemma ShortDataFits(data: seq<u8>)
    requires |data| <= 131074
    ensures WordSum(data) % WORD == WordSum(data)
  {
    WordSumBound(data);
    DivModUnique(WordSum(data), 0, WordSum(data), WORD);
  }

  lemma WrappedVerifiesIff(data: seq<u8>)
    ensures ChecksumOf(data) == 0 <==> WordSum(data) % WORD > 0 && WordSum(data) % WORD % 0xFFFF == 0
  {
    FoldIsFull(WordSum(data) % WORD);
  }

  /** Data verifies exactly when the 32-bit sum of its words is a positive multiple
      of 65535; for up to 131074 bytes that sum is the true one. */
  lemma VerifiesIff(data: seq<u8>)
    ensures ChecksumOf(data) == 0 <==> WordSum(data) % WORD > 0 && WordSum(data) % WORD % 0xFFFF == 0
    ensures |data| <= 131074 ==> (ChecksumOf(data) == 0 <==> WordSum(data) > 0 && WordSum(data) % 0xFFFF == 0)
  {
    WrappedVerifiesIff(data);
    if |data| <= 131074 {
      ShortDataFits(data);
    }
  }

  lemma {:induction false} WordSumPatch(data: seq<u8>, at: nat, hi: u8, lo: u8)
    requires at % 2 == 0 && at + 1 < |data| && data[at] == 0 && data[at + 1] == 0
    ensures WordSum(data[at := hi][at + 1 := lo]) == WordSum(data) + FromHalf(hi, lo)
  {
    var patched := data[at := hi][at + 1 := lo];
    if at == 0 {
      assert patched[2..] == data[2..];
    } else {
      WordSumPatch(data[2..], at - 2, hi, lo);
      assert patched[2..] == data[2..][at - 2 := hi][at - 1 := lo];
    }
  }

  lemma PatchedVerifies(data: seq<u8>, at: nat, hi: u8, lo: u8)
    requires at % 2 == 0 && at + 1 < |data| && data[at] == 0 && data[at + 1] == 0
    requires FromHalf(hi, lo) == ChecksumOf(data)
    ensures ChecksumOf(data[at := hi][at + 1 := lo]) == 0
  {
    WordSumPatch(data, at, hi, lo);
    CompletedSum(WordSum(data));
    WrappedVerifiesIff(data[at := hi][at + 1 := lo]);
  }

  /** Storing the checksum in a zeroed, aligned field makes the data verify, even
      where the 32-bit sum wraps. */
  lemma StoredChecksumVerifies(data: seq<u8>, at: nat)
    requires at % 2 == 0 && at + 1 < |data| && data[at] == 0 && data[at + 1] == 0
    ensures var c := Half(ChecksumOf(data));
            ChecksumOf(data[at := c[0]][at + 1 := c[1]]) == 0
  {
    var c := Half(ChecksumOf(data));
    HalfRoundTrip(ChecksumOf(data));
    PatchedVerifies(data, at, c[0], c[1]);
  }

  /** Adding its own checksum to a sum, modulo `2^32`, leaves a positive multiple of 65535. */
  lemma CompletedSum(total: nat)
    ensures var completed := (total + (0xFFFF - Fold(total % WORD))) % WORD;
            completed > 0 && completed % 0xFFFF == 0
  {
    var sum := total % WORD;
    var c := 0xFFFF - Fold(sum);
    ComplementCompletes(sum);
    WrapAdd(total, c);
    DivModUnique(sum + c, 0, sum + c, WORD);
  }

  /** Sum and checksum make a positive multiple of 65535, and adding them never
      carries out of 32 bits, because the largest word is itself such a multiple. */
  lemma ComplementCompletes(sum: nat)
    ensures (sum + (0xFFFF - Fold(sum))) % 0xFFFF == 0 && sum + (0xFFFF - Fold(sum)) > 0
    ensures sum < WORD ==> sum + (0xFFFF - Fold(sum)) < WORD
  {
    FoldMeaning(sum);
    ComplementDivides(sum, Fold(sum));
    if sum < WORD {
      var q := (sum + (0xFFFF - Fold(sum))) / 0xFFFF;
      assert sum + (0xFFFF - Fold(sum)) == q * 0xFFFF;
      assert q <= 0x10001;
    }
  }

  lemma ComplementDivides(sum: nat, f: u16)
    requires f % 0xFFFF == sum % 0xFFFF
    ensures (sum + (0xFFFF - f)) % 0xFFFF == 0
  {
    var q, r := sum / 0xFFFF, sum % 0xFFFF;
    assert sum == q * 0xFFFF + r;
    if f == 0xFFFF {
      DivModUnique(sum, q, 0, 0xFFFF);
    } else {
      assert f == r;
      DivModUnique(sum + (0xFFFF - f), q + 1, 0, 0xFFFF);
    }
  }

  // ------------------------------------------------------------------
  // Frames

  datatype Datagram = Datagram(
    srcMac: Mac, dstMac: Mac, srcIp: u32, dstIp: u32, srcPort: u16, dstPort: u16, payload: seq<u8>)

  function UdpLength(d: Datagram): u16 {
    (8 + |d.payload| % 0x1_0000) % 0x1_0000
  }

  function TotalLength(d: Datagram): u16 {
    (20 + UdpLength(d)) % 0x1_0000
  }

  function EthernetHeader(d: Datagram): (r: seq<u8>)
    ensures |r| == 14
  {
    d.dstMac + d.srcMac + Half(0x0800)
  }

  function BlankIpHeader(d: Datagram): (r: seq<u8>)
    ensures |r| == 20
  {
    [0x45, 0x00] + Half(TotalLength(d)) + Half(0) + Half(0x4000) + [128, 17] + Half(0)
    + Octets(d.srcIp) + Octets(d.dstIp)
  }

  function IpHeader(d: Datagram): (r: seq<u8>)
    ensures |r| == 20
  {
    var blank := BlankIpHeader(d);
    var c := Half(ChecksumOf(blank));
    blank[10 := c[0]][11 := c[1]]
  }

  function UdpHeader(d: Datagram): (r: seq<u8>)
    ensures |r| == 8
  {
    Half(d.srcPort) + Half(d.dstPort) + Half(UdpLength(d)) + Half(0)
  }

  function Frame(d: Datagram): seq<u8> {
    EthernetHeader(d) + IpHeader(d) + UdpHeader(d) + d.payload
  }

  method AppendBlankIpHeader(start: seq<u8>, ipTotalLen: u16, srcIp: u32, dstIp: u32, ghost d: Datagram) returns (frame: seq<u8>)
    requires ipTotalLen == TotalLength(d) && srcIp == d.srcIp && dstIp == d.dstIp
    ensures frame == start + BlankIpHeader(d)
  {
    frame := start + [0x45];
    frame := frame + [0x00];
    frame := frame + Half(ipTotalLen);
    frame := frame + Half(0);
    frame := frame + Half(0x4000);
    frame := frame + [128];
    frame := frame + [17];
    frame := frame + Half(0);
    frame := frame + Octets(srcIp);
    frame := frame + Octets(dstIp);
  }

  method AppendUdpHeader(start: seq<u8>, srcPort: u16, dstPort: u16, udpLen: u16, ghost d: Datagram) returns (frame: seq<u8>)
    requires udpLen == UdpLength(d) && srcPort == d.srcPort && dstPort == d.dstPort
    ensures frame == start + UdpHeader(d)
  {
    frame := start + Half(srcPort);
    frame := frame + Half(dstPort);
    frame := frame + Half(udpLen);
    frame := frame + Half(0);
  }

  /** The checksum bytes are patched into the header where it stands in the frame. */
  lemma PatchInPlace(ethernet: seq<u8>, blank: seq<u8>, hi: u8, lo: u8)
    requires |blank| == 20
    ensures (ethernet + blank)[|ethernet| + 10 := hi][|ethernet| + 11 := lo] == ethernet + blank[10 := hi][11 := lo]
  {
  }

  method BuildL2UdpFrame(srcMac: Mac, dstMac: Mac, srcIp: u32, dstIp: u32,
                         srcPort: u16, dstPort: u16, payload: seq<u8>) returns (frame: seq<u8>)
    ensures frame == Frame(Datagram(srcMac, dstMac, srcIp, dstIp, srcPort, dstPort, payload))
  {
    ghost var d := Datagram(srcMac, dstMac, srcIp, dstIp, srcPort, dstPort, payload);
    var udpLen: u16 := (8 + |payload| % 0x1_0000) % 0x1_0000;
    var ipTotalLen: u16 := (20 + udpLen) % 0x1_0000;

    frame := dstMac + srcMac + Half(0x0800);
    var ipStart := |frame|;
    frame := AppendBlankIpHeader(frame, ipTotalLen, srcIp, dstIp, d);
    assert frame[ipStart..ipStart + 20] == BlankIpHeader(d);

    var sum := IpChecksum(frame[ipStart..ipStart + 20]);
    var cksum := Half(sum);
    PatchInPlace(EthernetHeader(d), BlankIpHeader(d), cksum[0], cksum[1]);
    frame := frame[ipStart + 10 := cksum[0]];
    frame := frame[ipStart + 11 := cksum[1]];

    frame := AppendUdpHeader(frame, srcPort, dstPort, udpLen, d);
    frame := frame + payload;
  }

  /** A receiver: it accepts only IPv4/UDP with a verifying header and lengths that match the frame. */
  function ReadFrame(f: seq<u8>): Option<Datagram> {
    if |f| < 42 then None
    else if f[12..14] != [0x08, 0x00] || f[14] != 0x45 || f[23] != 17 then None
    else if ChecksumOf(f[14..34]) != 0 then None
    else if FromHalf(f[16], f[17]) != |f| - 14 || FromHalf(f[38], f[39]) != |f| - 34 then None
    else Some(Datagram(f[6..12], f[..6], Word(f[26..30]), Word(f[30..34]),
                       FromHalf(f[34], f[35]), FromHalf(f[36], f[37]), f[42..]))
  }

  lemma IpHeaderVerifies(d: Datagram)
    ensures ChecksumOf(IpHeader(d)) == 0
  {
    StoredChecksumVerifies(BlankIpHeader(d), 10);
  }

  lemma IpHeaderFields(d: Datagram)
    ensures var h := IpHeader(d);
            && h[0] == 0x45 && h[9] == 17 && FromHalf(h[2], h[3]) == TotalLength(d)
            && h[12..16] == Octets(d.srcIp) && h[16..20] == Octets(d.dstIp)
  {
    var b, h := BlankIpHeader(d), IpHeader(d);
    assert b[12..16] == Octets(d.srcIp) && b[16..20] == Octets(d.dstIp);
    assert h[12..16] == b[12..16] && h[16..20] == b[16..20];
  }

  lemma FrameParts(d: Datagram)
    ensures var f := Frame(d);
            && |f| == 42 + |d.payload|
            && f[..6] == d.dstMac && f[6..12] == d.srcMac && f[12..14] == [0x08, 0x00]
            && f[14..34] == IpHeader(d) && f[34..42] == UdpHeader(d) && f[42..] == d.payload
  {
    var f, e := Frame(d), EthernetHeader(d);
    assert f[..14] == e;
    assert e[..6] == d.dstMac && e[6..12] == d.srcMac && e[12..14] == [0x08, 0x00];
    assert f[..6] == e[..6] && f[6..12] == e[6..12] && f[12..14] == e[12..14];
  }

  lemma PortFields(d: Datagram)
    ensures var u := UdpHeader(d);
            FromHalf(u[0], u[1]) == d.srcPort && FromHalf(u[2], u[3]) == d.dstPort && FromHalf(u[4], u[5]) == UdpLength(d)
  {
  }

  /** Every byte of the frame's headers (section 3.1 of RFC 791, RFC 768). */
  lemma FrameLayout(d: Datagram)
    ensures var f := Frame(d);
            && |f| == 42 + |d.payload| && f[..6] == d.dstMac && f[6..12] == d.srcMac && f[12..14] == [0x08, 0x00]
            && f[14] == 0x45 && f[15] == 0 && f[16..18] == Half((28 + |d.payload|) % 0x1_0000)
            && f[18..24] == [0, 0, 0x40, 0x00, 128, 17] && f[24..26] == Half(ChecksumOf(BlankIpHeader(d)))
            && f[26..30] == Octets(d.srcIp) && f[30..34] == Octets(d.dstIp)
            && f[34..36] == Half(d.srcPort) && f[36..38] == Half(d.dstPort)
            && f[38..40] == Half((8 + |d.payload|) % 0x1_0000) && f[40..42] == [0, 0] && f[42..] == d.payload
  {
    var f, ip, udp := Frame(d), IpHeader(d), UdpHeader(d);
    FrameParts(d);
    TruncatedLengths(d);
    IpHeaderLayout(d);
    UdpHeaderLayout(d);
    SlicesOfSlice(f, 14, 34, ip);
    SlicesOfSlice(f, 34, 42, udp);
    assert f[14] == f[14..16][0] && f[15] == f[14..16][1];
  }

  lemma SlicesOfSlice(f: seq<u8>, lo: nat, hi: nat, part: seq<u8>)
    requires lo <= hi <= |f| && f[lo..hi] == part
    ensures forall i, j :: 0 <= i <= j <= |part| ==> f[lo + i..lo + j] == part[i..j]
  {
    forall i, j | 0 <= i <= j <= |part| ensures f[lo + i..lo + j] == part[i..j] {
      forall k | 0 <= k < j - i ensures f[lo + i..lo + j][k] == part[i..j][k] {
        assert f[lo..hi][i + k] == f[lo + i + k];
      }
    }
  }

  lemma TruncatedLengths(d: Datagram)
    ensures TotalLength(d) as int == (28 + |d.payload|) % 0x1_0000 && UdpLength(d) as int == (8 + |d.payload|) % 0x1_0000
  {
  }

  lemma IpHeaderLayout(d: Datagram)
    ensures var h := IpHeader(d);
            && h[0..2] == [0x45, 0] && h[2..4] == Half(TotalLength(d)) && h[4..10] == [0, 0, 0x40, 0x00, 128, 17]
            && h[10..12] == Half(ChecksumOf(BlankIpHeader(d))) && h[12..16] == Octets(d.srcIp) && h[16..20] == Octets(d.dstIp)
  {
    var b, h := BlankIpHeader(d), IpHeader(d);
    assert b[0..2] == [0x45, 0] && b[2..4] == Half(TotalLength(d)) && b[4..10] == [0, 0, 0x40, 0x00, 128, 17];
    assert b[12..16] == Octets(d.srcIp) && b[16..20] == Octets(d.dstIp);
    assert h[0..2] == b[0..2] && h[2..4] == b[2..4] && h[4..10] == b[4..10] && h[12..16] == b[12..16] && h[16..20] == b[16..20];
  }

  lemma UdpHeaderLayout(d: Datagram)
    ensures var u := UdpHeader(d);
            u[0..2] == Half(d.srcPort) && u[2..4] == Half(d.dstPort) && u[4..6] == Half(UdpLength(d)) && u[6..8] == [0, 0]
  {
  }

  /** A datagram is received as sent exactly when its payload fits an IPv4 packet. */
  lemma FrameReceived(d: Datagram)
    ensures ReadFrame(Frame(d)) == Some(d) <==> |d.payload| <= 65507
  {
    var f, ip, udp := Frame(d), IpHeader(d), UdpHeader(d);
    FrameParts(d);
    IpHeaderVerifies(d);
    IpHeaderFields(d);
    PortFields(d);
    var header, ports := f[14..34], f[34..42];
    assert header == ip && ports == udp;
    assert f[14] == header[0] && f[16] == header[2] && f[17] == header[3] && f[23] == header[9];
    assert f[26..30] == header[12..16] && f[30..34] == header[16..20];
    assert f[34] == ports[0] && f[35] == ports[1] && f[36] == ports[2] && f[37] == ports[3] && f[38] == ports[4] && f[39] == ports[5];
    WordRoundTrip(d.srcIp);
    WordRoundTrip(d.dstIp);
    LengthFields(d);
  }

  lemma LengthFields(d: Datagram)
    ensures TotalLength(d) as int == 28 + |d.payload| && UdpLength(d) as int == 8 + |d.payload| <==> |d.payload| <= 65507
  {
  }
}
