/** Lower-case hexadecimal: `hex.EncodeToString` and the `%02x` verb. */
module Hex {
  import opened Results

  type Octet = b: nat | b < 256

  function HexDigit(d: nat): (c: char)
    requires d < 16
    ensures '0' <= c <= '9' || 'a' <= c <= 'f'
  {
    if d < 10 then ('0' as int + d) as char else ('a' as int + (d - 10)) as char
  }

  lemma HexDigitInjective(a: nat, b: nat)
    requires a < 16 && b < 16 && HexDigit(a) == HexDigit(b)
    ensures a == b
  {
    assert HexDigit(a) as int == if a < 10 then '0' as int + a else 'a' as int + a - 10;
    assert HexDigit(b) as int == if b < 10 then '0' as int + b else 'a' as int + b - 10;
  }

  function Hex2(b: Octet): (s: string)
    ensures |s| == 2
  {
    [HexDigit(b / 16), HexDigit(b % 16)]
  }

  lemma Hex2Injective(a: Octet, b: Octet)
    requires Hex2(a) == Hex2(b)
    ensures a == b
  {
    assert Hex2(a)[0] == Hex2(b)[0] && Hex2(a)[1] == Hex2(b)[1];
    HexDigitInjective(a / 16, b / 16);
    HexDigitInjective(a % 16, b % 16);
  }

  function HexString(bytes: seq<Octet>): (s: string)
    ensures |s| == 2 * |bytes|
  {
    if bytes == [] then "" else Hex2(bytes[0]) + HexString(bytes[1..])
  }

  lemma {:induction false} HexStringInjective(a: seq<Octet>, b: seq<Octet>)
    requires HexString(a) == HexString(b)
    ensures a == b
  {
    if a != [] {
      assert Hex2(a[0]) == HexString(a)[..2] && Hex2(b[0]) == HexString(b)[..2];
      assert HexString(a[1..]) == HexString(a)[2..] && HexString(b[1..]) == HexString(b)[2..];
      Hex2Injective(a[0], b[0]);
      HexStringInjective(a[1..], b[1..]);
      assert a == [a[0]] + a[1..] && b == [b[0]] + b[1..];
    }
  }

  // ----- reading ---------------------------------------------------------

  predicate IsHex(c: char) { '0' <= c <= '9' || 'a' <= c <= 'f' }

  function HexValue(c: char): (d: nat)
    requires IsHex(c)
    ensures d < 16
  {
    if c <= '9' then c as int - '0' as int else c as int - 'a' as int + 10
  }

  /** The bytes of a text of two lower-case digits each. */
  function ReadHex(s: string): Option<seq<nat>> {
    if s == "" then Some([])
    else if |s| == 1 || !IsHex(s[0]) || !IsHex(s[1]) then None
    else
      match ReadHex(s[2..])
      case None => None
      case Some(bytes) => Some([16 * HexValue(s[0]) + HexValue(s[1])] + bytes)
  }

  lemma HexDigitValue(d: nat)
    requires d < 16
    ensures IsHex(HexDigit(d)) && HexValue(HexDigit(d)) == d
  {
  }

  lemma Hex2Value(b: Octet)
    ensures IsHex(Hex2(b)[0]) && IsHex(Hex2(b)[1]) && 16 * HexValue(Hex2(b)[0]) + HexValue(Hex2(b)[1]) == b
  {
    HexDigitValue(b / 16);
    HexDigitValue(b % 16);
  }

  lemma {:induction false} ReadHexString(bytes: seq<Octet>)
    ensures ReadHex(HexString(bytes)) == Some(bytes)
  {
    hide Hex2;
    if bytes != [] {
      var s := HexString(bytes);
      Hex2Value(bytes[0]);
      ReadHexString(bytes[1..]);
      assert s[2..] == HexString(bytes[1..]) && s[0] == Hex2(bytes[0])[0] && s[1] == Hex2(bytes[0])[1];
      assert [bytes[0]] + bytes[1..] == bytes;
    }
  }
}
