/** Hardware addresses and the text form under which the lease tables store them. */
module MacAddress {
  import opened Prelude

  type Mac = s: seq<u8> | |s| == 6 witness [0, 0, 0, 0, 0, 0]

  /** A lower-case hexadecimal digit. */
  function HexDigit(n: int): (c: char)
    requires 0 <= n < 16
    ensures LowerChar(c) == c
  {
    if n < 10 then '0' + n as char else 'a' + (n - 10) as char
  }

  /** Lower-casing of the characters that occur in a hardware address. */
  function LowerChar(c: char): char {
    if 'A' <= c <= 'Z' then c + ('a' - 'A') else c
  }

  function Lower(s: string): (r: string)
    ensures |r| == |s|
  {
    if s == "" then "" else [LowerChar(s[0])] + Lower(s[1..])
  }

  function HexByte(b: u8): string {
    [HexDigit(b / 16), HexDigit(b % 16)]
  }

  /** `xx:xx:xx:xx:xx:xx` */
  function Format(bytes: seq<u8>): string {
    if bytes == [] then ""
    else if |bytes| == 1 then HexByte(bytes[0])
    else HexByte(bytes[0]) + ":" + Format(bytes[1..])
  }

  function MacToString(mac: Mac): string {
    Format(mac)
  }

  lemma {:induction false} LowerAppend(a: string, b: string)
    ensures Lower(a + b) == Lower(a) + Lower(b)
  {
    if a == "" {
      assert a + b == b;
    } else {
      assert (a + b)[1..] == a[1..] + b;
      LowerAppend(a[1..], b);
    }
  }

  lemma LowerHexByte(b: u8)
    ensures Lower(HexByte(b)) == HexByte(b) && Lower(HexByte(b) + ":") == HexByte(b) + ":"
  {
    assert HexByte(b)[1..] == [HexDigit(b % 16)];
    assert Lower(":") == ":";
    LowerAppend(HexByte(b), ":");
  }

  lemma {:induction false} LowerFormat(bytes: seq<u8>)
    ensures Lower(Format(bytes)) == Format(bytes)
  {
    if bytes != [] {
      LowerHexByte(bytes[0]);
      if |bytes| > 1 {
        LowerFormat(bytes[1..]);
        LowerAppend(HexByte(bytes[0]) + ":", Format(bytes[1..]));
      }
    }
  }

  /** The text form is already lower case, so every lookup compares the strings themselves. */
  lemma MacTextIsLower(mac: Mac)
    ensures Lower(MacToString(mac)) == MacToString(mac)
  {
    LowerFormat(mac);
  }

  lemma HexByteInjective(a: u8, b: u8)
    requires HexByte(a) == HexByte(b)
    ensures a == b
  {
    assert HexByte(a)[0] == HexByte(b)[0] && HexByte(a)[1] == HexByte(b)[1];
  }

  lemma {:induction false} FormatInjective(a: seq<u8>, b: seq<u8>)
    requires |a| == |b| && Format(a) == Format(b)
    ensures a == b
  {
    if |a| == 1 {
      HexByteInjective(a[0], b[0]);
    } else if |a| > 1 {
      var s, t := Format(a), Format(b);
      assert s[..2] == HexByte(a[0]) && t[..2] == HexByte(b[0]);
      assert s[3..] == Format(a[1..]) && t[3..] == Format(b[1..]);
      HexByteInjective(a[0], b[0]);
      FormatInjective(a[1..], b[1..]);
    }
  }

  /** Different hardware addresses have different text forms. */
  lemma MacTextInjective(a: Mac, b: Mac)
    ensures MacToString(a) == MacToString(b) <==> a == b
  {
    if MacToString(a) == MacToString(b) {
      FormatInjective(a, b);
    }
  }

  /** Lower-casing changes the letters A to Z and nothing else. */
  lemma {:induction false} LowerAt(s: string, k: nat)
    requires k < |s|
    ensures 'A' <= s[k] <= 'Z' ==> Lower(s)[k] as int == s[k] as int + 32
    ensures s[k] < 'A' || s[k] > 'Z' ==> Lower(s)[k] == s[k]
  {
    if k > 0 {
      LowerAt(s[1..], k - 1);
      assert Lower(s)[k] == Lower(s[1..])[k - 1];
    }
  }

  const HEX_DIGITS: string := "0123456789abcdef"

  lemma HexByteDigits(b: u8)
    ensures HexByte(b) == [HEX_DIGITS[b / 16], HEX_DIGITS[b % 16]]
  {
  }

  lemma {:induction false} FormatLength(bytes: seq<u8>)
    requires bytes != []
    ensures |Format(bytes)| == 3 * |bytes| - 1
  {
    if |bytes| > 1 {
      FormatLength(bytes[1..]);
    }
  }

  /** The text of byte `k` and what follows it. */
  lemma {:induction false} FormatFrom(bytes: seq<u8>, k: nat)
    requires k < |bytes|
    ensures |Format(bytes)| == 3 * |bytes| - 1 && Format(bytes)[3 * k..] == Format(bytes[k..])
  {
    FormatLength(bytes);
    if k > 0 {
      FormatFrom(bytes[1..], k - 1);
      assert bytes[1..][k - 1..] == bytes[k..];
      assert Format(bytes)[3..] == Format(bytes[1..]);
      assert Format(bytes)[3 * k..] == Format(bytes)[3..][3 * (k - 1)..];
    }
  }

  /** Two lower-case digits for each byte, high half first, with colons in between. */
  lemma MacTextDigits(mac: Mac, k: nat)
    requires k < 6
    ensures var text := MacToString(mac);
            && |text| == 17 && text[3 * k] == HEX_DIGITS[mac[k] / 16] && text[3 * k + 1] == HEX_DIGITS[mac[k] % 16]
            && (k < 5 ==> text[3 * k + 2] == ':')
  {
    var text, rest := MacToString(mac), Format(mac[k..]);
    FormatFrom(mac, k);
    FormatLength(mac[k..]);
    HexByteDigits(mac[k]);
    assert text[3 * k] == rest[0] && text[3 * k + 1] == rest[1];
    assert k < 5 ==> text[3 * k + 2] == rest[2];
  }
}
