/** UTF-8 text as bytes, and the lossy decoding that replaces every maximal
    ill-formed subsequence by U+FFFD. */
module Utf8 {
  import opened Prelude

  const REPLACEMENT: seq<u8> := [0xEF, 0xBF, 0xBD]

  /** The length announced by a lead byte; 0 when no character starts with it. */
  function Width(lead: u8): nat {
    if lead < 0x80 then 1
    else if 0xC2 <= lead < 0xE0 then 2
    else if 0xE0 <= lead < 0xF0 then 3
    else if 0xF0 <= lead <= 0xF4 then 4
    else 0
  }

  predicate Continuation(b: u8) {
    0x80 <= b < 0xC0
  }

  predicate SecondByte(lead: u8, b: u8) {
    && (if lead == 0xE0 then 0xA0 else if lead == 0xF0 then 0x90 else 0x80) <= b
    && b <= (if lead == 0xED then 0x9F else if lead == 0xF4 then 0x8F else 0xBF)
  }

  /** How many bytes at the start of `s` can belong to the character begun there. */
  function Span(s: seq<u8>): (n: nat)
    requires s != []
    ensures 1 <= n <= |s| && n <= 4
  {
    var width := Width(s[0]);
    if width <= 1 || |s| < 2 || !SecondByte(s[0], s[1]) then 1
    else if width == 2 || |s| < 3 || !Continuation(s[2]) then 2
    else if width == 3 || |s| < 4 || !Continuation(s[3]) then 3
    else 4
  }

  predicate Complete(s: seq<u8>)
    requires s != []
  {
    Span(s) == Width(s[0])
  }

  predicate WellFormed(s: seq<u8>) {
    s == [] || (Complete(s) && WellFormed(s[Span(s)..]))
  }

  /** A string: its bytes are well-formed UTF-8. */
  type Text = s: seq<u8> | WellFormed(s) witness []

  function Lossy(s: seq<u8>): (r: seq<u8>) {
    if s == [] then []
    else (if Complete(s) then s[..Span(s)] else REPLACEMENT) + Lossy(s[Span(s)..])
  }

  lemma {:induction false} WellFormedAppend(a: seq<u8>, b: seq<u8>)
    requires WellFormed(a) && WellFormed(b)
    ensures WellFormed(a + b)
  {
    if a == [] {
      assert a + b == b;
    } else {
      var n := Span(a);
      assert (a + b)[n..] == a[n..] + b;
      WellFormedAppend(a[n..], b);
    }
  }

  /** Lossy decoding always yields well-formed text. */
  lemma {:induction false} LossyWellFormed(s: seq<u8>)
    ensures WellFormed(Lossy(s))
  {
    if s != [] {
      var n := Span(s);
      LossyWellFormed(s[n..]);
      var head := if Complete(s) then s[..n] else REPLACEMENT;
      assert Span(head) == |head| && head[|head|..] == [];
      WellFormedAppend(head, Lossy(s[n..]));
    }
  }

  /** Lossy decoding is the identity exactly on well-formed text. */
  lemma {:induction false} LossyIdentity(s: seq<u8>)
    ensures Lossy(s) == s <==> WellFormed(s)
  {
    LossyWellFormed(s);
    if WellFormed(s) {
      LossyOfWellFormed(s);
    }
  }

  lemma {:induction false} LossyOfWellFormed(s: seq<u8>)
    requires WellFormed(s)
    ensures Lossy(s) == s
  {
    if s != [] {
      LossyOfWellFormed(s[Span(s)..]);
    }
  }

  /** Cutting well-formed text anywhere costs at most one replacement character. */
  lemma {:induction false} LossyOfPrefix(s: seq<u8>, k: nat)
    requires WellFormed(s) && k <= |s|
    ensures |Lossy(s[..k])| <= k + 2
    decreases |s|
  {
    if k > 0 {
      var n := Span(s);
      var p := s[..k];
      if n <= k {
        LossyOfPrefix(s[n..], k - n);
        assert p[n..] == s[n..][..k - n];
        assert Span(p) == n;
      } else {
        assert Span(p) == k && p[k..] == [];
      }
    }
  }

  // ------------------------------------------------------------------
  // Characters (section 3 of RFC 3629)

  type Scalar = c: int | 0 <= c < 0xD800 || 0xE000 <= c < 0x11_0000 witness 0

  function EncodeScalar(c: Scalar): seq<u8> {
    if c < 0x80 then [c]
    else if c < 0x800 then [0xC0 + c / 0x40, 0x80 + c % 0x40]
    else if c < 0x1_0000 then [0xE0 + c / 0x1000, 0x80 + c / 0x40 % 0x40, 0x80 + c % 0x40]
    else [0xF0 + c / 0x4_0000, 0x80 + c / 0x1000 % 0x40, 0x80 + c / 0x40 % 0x40, 0x80 + c % 0x40]
  }

  /** The replacement is the character U+FFFD. */
  lemma ReplacementCharacter()
    ensures REPLACEMENT == EncodeScalar(0xFFFD)
  {
  }

  /** Every encoded character is taken as one complete span. */
  lemma EncodedIsComplete(c: Scalar, rest: seq<u8>)
    ensures var s := EncodeScalar(c) + rest; Complete(s) && s[..Span(s)] == EncodeScalar(c)
  {
  }

  lemma SixBits(high: nat, low: nat)
    requires low < 0x40
    ensures (high * 0x40 + low) / 0x40 == high && (high * 0x40 + low) % 0x40 == low
  {
  }

  lemma TwoBytes(x: nat, y: nat) returns (c: Scalar)
    requires 2 <= x < 0x20 && y < 0x40
    ensures EncodeScalar(c) == [0xC0 + x, 0x80 + y]
  {
    SixBits(x, y);
    c := x * 0x40 + y;
  }

  lemma ThreeBytes(x: nat, y: nat, z: nat) returns (c: Scalar)
    requires x < 0x10 && y < 0x40 && z < 0x40 && (x == 0 ==> y >= 0x20) && (x == 0xD ==> y < 0x20)
    ensures EncodeScalar(c) == [0xE0 + x, 0x80 + y, 0x80 + z]
  {
    var h := x * 0x40 + y;
    SixBits(x, y);
    SixBits(h, z);
    c := h * 0x40 + z;
    assert c / 0x1000 == h / 0x40;
  }

  lemma FourBytes(x: nat, y: nat, z: nat, w: nat) returns (c: Scalar)
    requires x <= 4 && y < 0x40 && z < 0x40 && w < 0x40 && (x == 0 ==> y >= 0x10) && (x == 4 ==> y < 0x10)
    ensures EncodeScalar(c) == [0xF0 + x, 0x80 + y, 0x80 + z, 0x80 + w]
  {
    var g := x * 0x40 + y;
    var h := g * 0x40 + z;
    SixBits(x, y);
    SixBits(g, z);
    SixBits(h, w);
    c := h * 0x40 + w;
    assert c / 0x1000 == h / 0x40 && c / 0x4_0000 == g / 0x40;
  }

  /** Every complete span is an encoded character. */
  lemma CompleteIsEncoded(s: seq<u8>) returns (c: Scalar)
    requires s != [] && Complete(s)
    ensures EncodeScalar(c) == s[..Span(s)]
  {
    if Span(s) == 1 {
      c := s[0];
    } else if Span(s) == 2 {
      c := TwoBytes(s[0] - 0xC0, s[1] - 0x80);
    } else if Span(s) == 3 {
      c := ThreeBytes(s[0] - 0xE0, s[1] - 0x80, s[2] - 0x80);
    } else {
      c := FourBytes(s[0] - 0xF0, s[1] - 0x80, s[2] - 0x80, s[3] - 0x80);
    }
  }

  function EncodeAll(cs: seq<Scalar>): seq<u8> {
    if cs == [] then [] else EncodeScalar(cs[0]) + EncodeAll(cs[1..])
  }

  lemma EncodeCons(c: Scalar, cs: seq<Scalar>)
    ensures EncodeAll([c] + cs) == EncodeScalar(c) + EncodeAll(cs)
  {
    assert ([c] + cs)[1..] == cs;
  }

  lemma {:induction false} EncodedIsWellFormed(cs: seq<Scalar>)
    ensures WellFormed(EncodeAll(cs))
  {
    if cs != [] {
      var s, rest := EncodeAll(cs), EncodeAll(cs[1..]);
      EncodedIsComplete(cs[0], rest);
      EncodedIsWellFormed(cs[1..]);
      assert s[|EncodeScalar(cs[0])|..] == rest;
    }
  }

  lemma {:induction false} WellFormedIsEncoded(s: seq<u8>) returns (cs: seq<Scalar>)
    requires WellFormed(s)
    ensures EncodeAll(cs) == s
  {
    cs := [];
    if s != [] {
      var head, rest := s[..Span(s)], s[Span(s)..];
      var c := CompleteIsEncoded(s);
      var more := WellFormedIsEncoded(rest);
      EncodeCons(c, more);
      assert s == head + rest;
      cs := [c] + more;
    }
  }

  /** A string is exactly a sequence of encoded characters. */
  lemma TextIsEncodedCharacters(s: seq<u8>)
    ensures WellFormed(s) <==> exists cs :: EncodeAll(cs) == s
  {
    if WellFormed(s) {
      var cs := WellFormedIsEncoded(s);
    }
    if cs :| EncodeAll(cs) == s {
      EncodedIsWellFormed(cs);
    }
  }

  /** The bytes can be continued to an encoded character. */
  ghost predicate BeginsCharacter(part: seq<u8>) {
    exists c: Scalar :: part <= EncodeScalar(c)
  }

  lemma BegunIsSpanned(s: seq<u8>, k: nat, c: Scalar)
    requires 2 <= k <= |s| && s[..k] <= EncodeScalar(c)
    ensures k <= Span(s)
  {
    var e := EncodeScalar(c);
    assert s[0] == s[..k][0] == e[0] && s[1] == s[..k][1] == e[1];
    assert k >= 3 ==> s[2] == s[..k][2] == e[2];
    assert k >= 4 ==> s[3] == s[..k][3] == e[3];
  }

  /** Missing bytes can be filled in with the smallest continuation byte. */
  lemma SpannedIsBegun(s: seq<u8>, k: nat)
    requires s != [] && 2 <= k <= Span(s)
    ensures BeginsCharacter(s[..k])
  {
    var full := s[..Span(s)] + if Width(s[0]) == Span(s) + 1 then [0x80] else if Width(s[0]) == Span(s) + 2 then [0x80, 0x80] else [];
    assert full[0] == s[0] && full[1] == s[1] && (Span(s) >= 3 ==> full[2] == s[2]) && (Span(s) >= 4 ==> full[3] == s[3]);
    assert Complete(full) && Span(full) == |full|;
    var c := CompleteIsEncoded(full);
    assert s[..k] == full[..k] <= EncodeScalar(c);
  }

  /** What one replacement stands for is as long as it can be: the bytes up to `k`
      are inside the span exactly when some character begins with them. */
  lemma SpanIsMaximal(s: seq<u8>, k: nat)
    requires 2 <= k <= |s|
    ensures k <= Span(s) <==> BeginsCharacter(s[..k])
  {
    if k <= Span(s) {
      SpannedIsBegun(s, k);
    }
    if BeginsCharacter(s[..k]) {
      var c: Scalar :| s[..k] <= EncodeScalar(c);
      BegunIsSpanned(s, k, c);
    }
  }
}
