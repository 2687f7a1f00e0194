/** IPv4 prefixes: masks, membership and overlap.

    The shift amount `32 - prefix` is computed on a `u8` and a `u32` shift uses
    its low five bits, as in a release build; prefixes above 32, which nothing
    in the server rejects, therefore behave like some prefix in 1..32. */
module Cidr {
  import opened Prelude
  import opened Bits

  /** The number of low bits that the mask of a prefix clears. */
  function HostBits(prefix: u8): (k: nat)
    ensures k <= 32
    ensures k == if prefix <= 32 then 32 - prefix else (0x120 - prefix as int) % 32
  {
    if prefix == 0 then 32 else ((32 - prefix) % 0x100) % 32
  }

  function Mask(prefix: u8): u32 {
    if prefix == 0 then 0 else Shl32(0xFFFF_FFFF, HostBits(prefix))
  }

  function Network(ip: u32, prefix: u8): nat {
    And(ip, Mask(prefix))
  }

  function LastAddress(ip: u32, prefix: u8): nat {
    Or(Network(ip, prefix), Not32(Mask(prefix)))
  }

  /** `ip` agrees with `net` under the mask of `prefix`. */
  predicate Matches(ip: u32, net: u32, prefix: u8) {
    And(ip, Mask(prefix)) == And(net, Mask(prefix))
  }

  predicate SubnetsOverlap(netA: u32, prefixA: u8, netB: u32, prefixB: u8) {
    Network(netA, prefixA) <= LastAddress(netB, prefixB) && Network(netB, prefixB) <= LastAddress(netA, prefixA)
  }

  lemma MaskValue(prefix: u8)
    ensures Pow2(HostBits(prefix)) <= Pow2(32) == 0x1_0000_0000
    ensures Mask(prefix) == 0x1_0000_0000 - Pow2(HostBits(prefix))
  {
    var k := HostBits(prefix);
    Pow2Values();
    Pow2Monotone(k, 32);
    if prefix != 0 {
      var p := Pow2(k);
      DivModUnique(0xFFFF_FFFF * p, p - 1, 0x1_0000_0000 - p, 0x1_0000_0000);
    }
  }

  lemma NetworkIsAligned(net: u32, prefix: u8)
    ensures var size := Pow2(HostBits(prefix)); Network(net, prefix) == net / size * size
  {
    var k := HostBits(prefix);
    MaskValue(prefix);
    AndHigh(net, 32, k);
    RoundDown(net, Pow2(k));
  }

  /** A prefix denotes the aligned block of `2^HostBits` addresses around its network address. */
  lemma BlockBounds(net: u32, prefix: u8)
    ensures var size := Pow2(HostBits(prefix));
            && Network(net, prefix) == net / size * size
            && LastAddress(net, prefix) == net / size * size + (size - 1)
  {
    var k := HostBits(prefix);
    NetworkIsAligned(net, prefix);
    MaskValue(prefix);
    OrLow(net / Pow2(k), k);
    assert Not32(Mask(prefix)) == Pow2(k) - 1;
  }

  lemma RoundDown(x: nat, m: nat)
    requires m > 0
    ensures x - x % m == x / m * m
  {
  }

  lemma BlockIndex(ip: nat, q: nat, size: nat)
    requires size > 0
    ensures ip / size == q <==> q * size <= ip <= q * size + (size - 1)
    ensures ip / size * size == q * size <==> ip / size == q
  {
    if q * size <= ip <= q * size + (size - 1) {
      DivModUnique(ip, q, ip - q * size, size);
    }
    if ip / size * size == q * size {
      MultipleBound(ip / size - q, size);
    }
  }

  /** Agreeing under the mask is lying between the first and last address of the block. */
  lemma MatchesIffInBlock(ip: u32, net: u32, prefix: u8)
    ensures Matches(ip, net, prefix) <==> Network(net, prefix) <= ip <= LastAddress(net, prefix)
  {
    BlockBounds(ip, prefix);
    BlockBounds(net, prefix);
    BlockIndex(ip, net / Pow2(HostBits(prefix)), Pow2(HostBits(prefix)));
  }

  lemma MatchesSelf(net: u32, prefix: u8)
    ensures Matches(net, net, prefix) && Network(net, prefix) <= net <= LastAddress(net, prefix)
  {
    MatchesIffInBlock(net, net, prefix);
  }

  ghost predicate ShareAddress(netA: u32, prefixA: u8, netB: u32, prefixB: u8) {
    exists ip: u32 :: Matches(ip, netA, prefixA) && Matches(ip, netB, prefixB)
  }

  ghost predicate Contains(netA: u32, prefixA: u8, netB: u32, prefixB: u8) {
    forall ip: u32 :: Matches(ip, netB, prefixB) ==> Matches(ip, netA, prefixA)
  }

  lemma FirstAddressMatches(net: u32, prefix: u8) returns (first: u32)
    ensures first == Network(net, prefix) && Matches(first, net, prefix)
  {
    MatchesSelf(net, prefix);
    first := Network(net, prefix);
    BlockBounds(net, prefix);
    MatchesIffInBlock(first, net, prefix);
  }

  /** The interval test decides whether two prefixes have an address in common. */
  lemma OverlapIffShared(netA: u32, prefixA: u8, netB: u32, prefixB: u8)
    ensures SubnetsOverlap(netA, prefixA, netB, prefixB) <==> ShareAddress(netA, prefixA, netB, prefixB)
  {
    if ShareAddress(netA, prefixA, netB, prefixB) {
      var ip: u32 :| Matches(ip, netA, prefixA) && Matches(ip, netB, prefixB);
      MatchesIffInBlock(ip, netA, prefixA);
      MatchesIffInBlock(ip, netB, prefixB);
    }
    if SubnetsOverlap(netA, prefixA, netB, prefixB) {
      var a := FirstAddressMatches(netA, prefixA);
      var b := FirstAddressMatches(netB, prefixB);
      var ip: u32 := if a <= b then b else a;
      MatchesIffInBlock(ip, netA, prefixA);
      MatchesIffInBlock(ip, netB, prefixB);
    }
  }

  /** A block keeps its index when the address is reduced to a smaller aligned block. */
  lemma {:induction false} CoarserIndex(x: nat, y: nat, ka: nat, kb: nat)
    requires ka <= kb && x / Pow2(ka) == y / Pow2(ka)
    ensures x / Pow2(kb) == y / Pow2(kb)
    decreases ka
  {
    if ka > 0 {
      HalfDiv(x, ka);
      HalfDiv(y, ka);
      CoarserIndex(x / 2, y / 2, ka - 1, kb - 1);
      HalfDiv(x, kb);
      HalfDiv(y, kb);
    }
  }

  lemma SharedIsNested(netA: u32, prefixA: u8, netB: u32, prefixB: u8)
    requires ShareAddress(netA, prefixA, netB, prefixB) && HostBits(prefixB) <= HostBits(prefixA)
    ensures Contains(netA, prefixA, netB, prefixB)
  {
    var ka, kb := HostBits(prefixA), HostBits(prefixB);
    var shared: u32 :| Matches(shared, netA, prefixA) && Matches(shared, netB, prefixB);
    forall ip: u32 | Matches(ip, netB, prefixB) ensures Matches(ip, netA, prefixA) {
      MatchesIndex(ip, netB, prefixB);
      MatchesIndex(shared, netB, prefixB);
      CoarserIndex(ip, shared, kb, ka);
      MatchesIndex(shared, netA, prefixA);
      MatchesIndex(ip, netA, prefixA);
    }
  }

  lemma MatchesIndex(ip: u32, net: u32, prefix: u8)
    ensures Matches(ip, net, prefix) <==> ip / Pow2(HostBits(prefix)) == net / Pow2(HostBits(prefix))
  {
    BlockBounds(ip, prefix);
    BlockBounds(net, prefix);
    BlockIndex(ip, net / Pow2(HostBits(prefix)), Pow2(HostBits(prefix)));
  }

  /** Two prefixes overlap exactly when one block contains the other. */
  lemma OverlapIffNested(netA: u32, prefixA: u8, netB: u32, prefixB: u8)
    ensures SubnetsOverlap(netA, prefixA, netB, prefixB)
       <==> Contains(netA, prefixA, netB, prefixB) || Contains(netB, prefixB, netA, prefixA)
  {
    OverlapIffShared(netA, prefixA, netB, prefixB);
    MatchesSelf(netA, prefixA);
    MatchesSelf(netB, prefixB);
    if ShareAddress(netA, prefixA, netB, prefixB) {
      if HostBits(prefixB) <= HostBits(prefixA) {
        SharedIsNested(netA, prefixA, netB, prefixB);
      } else {
        SharedIsNested(netB, prefixB, netA, prefixA);
      }
    }
  }
}
