/** Hardware addresses in the QEMU range, numbered from 1: `mac` and `macFor`. */
module MacAddress {
  import opened Results
  import opened Hex

  function MacText(h: Octet, m: Octet, l: Octet): (s: string)
    ensures |s| == 17
  {
    "52:54:00:" + Hex2(h) + ":" + Hex2(m) + ":" + Hex2(l)
  }

  /** `52:54:00:%02x:%02x:%02x` of the low 24 bits. */
  function Mac(k: nat): (s: string)
    ensures |s| == 17
  {
    MacText((k / 0x1_0000) % 0x100, (k / 0x100) % 0x100, k % 0x100)
  }

  lemma MacTextInjective(h: Octet, m: Octet, l: Octet, h': Octet, m': Octet, l': Octet)
    requires MacText(h, m, l) == MacText(h', m', l')
    ensures h == h' && m == m' && l == l'
  {
    hide Hex2;
    var s := MacText(h, m, l);
    assert Hex2(h) == s[9..11] && Hex2(h') == s[9..11];
    assert Hex2(m) == s[12..14] && Hex2(m') == s[12..14];
    assert Hex2(l) == s[15..17] && Hex2(l') == s[15..17];
    Hex2Injective(h, h');
    Hex2Injective(m, m');
    Hex2Injective(l, l');
  }

  /** Addresses repeat with period 2^24 and no earlier. */
  lemma MacEqualIff(a: nat, b: nat)
    ensures Mac(a) == Mac(b) <==> a % 0x100_0000 == b % 0x100_0000
  {
    hide MacText;
    var h, m, l := (a / 0x1_0000) % 0x100, (a / 0x100) % 0x100, a % 0x100;
    var h', m', l' := (b / 0x1_0000) % 0x100, (b / 0x100) % 0x100, b % 0x100;
    Low24(a);
    Low24(b);
    if Mac(a) == Mac(b) { MacTextInjective(h, m, l, h', m', l'); }
    if a % 0x100_0000 == b % 0x100_0000 { Bytes24(h, m, l, h', m', l'); }
  }

  lemma Low24(a: nat)
    ensures a % 0x100_0000 ==
            0x1_0000 * ((a / 0x1_0000) % 0x100) + 0x100 * ((a / 0x100) % 0x100) + a % 0x100
  {
    var low, rest := a % 0x100, a / 0x100;
    var mid, top := rest % 0x100, rest / 0x100;
    assert a == 0x1_0000 * top + 0x100 * mid + low;
    assert a / 0x1_0000 == top;
    var high := top % 0x100;
    assert a == 0x100_0000 * (top / 0x100) + (0x1_0000 * high + 0x100 * mid + low);
    assert 0 <= 0x1_0000 * high + 0x100 * mid + low < 0x100_0000;
  }

  lemma Bytes24(h: nat, m: nat, l: nat, h': nat, m': nat, l': nat)
    requires h < 0x100 && m < 0x100 && l < 0x100 && h' < 0x100 && m' < 0x100 && l' < 0x100
    requires 0x1_0000 * h + 0x100 * m + l == 0x1_0000 * h' + 0x100 * m' + l'
    ensures h == h' && m == m' && l == l'
  {
  }

  /** No comma and no quote occurs in an address. */
  lemma MacPlain(k: nat)
    ensures forall c :: c in Mac(k) ==> ('0' <= c <= '9' || 'a' <= c <= 'f' || c == ':')
  {
    forall b: Octet, c | c in Hex2(b) ensures '0' <= c <= '9' || 'a' <= c <= 'f' {
      assert c == Hex2(b)[0] || c == Hex2(b)[1];
    }
  }

  /** The bytes of an address of two lower-case hexadecimal digits each, between colons. */
  function ReadMac(s: string): Option<seq<nat>>
    decreases |s|
  {
    if |s| <= 2 then ReadHex(s)
    else if s[2] != ':' then None
    else
      match ReadHex(s[..2])
      case None => None
      case Some(byte) =>
        match ReadMac(s[3..])
        case None => None
        case Some(bytes) => Some(byte + bytes)
  }

  lemma ReadLastByte(b: Octet)
    ensures ReadMac(Hex2(b)) == Some([b])
    ensures ReadHex(Hex2(b)) == Some([b])
  {
    Hex2Value(b);
    assert Hex2(b)[2..] == "" && ReadHex("") == Some([]);
    assert [16 * HexValue(Hex2(b)[0]) + HexValue(Hex2(b)[1])] + [] == [b];
  }

  lemma ReadNextByte(b: Octet, rest: string, bytes: seq<nat>)
    requires ReadMac(rest) == Some(bytes)
    ensures ReadMac(Hex2(b) + (":" + rest)) == Some([b] + bytes)
  {
    hide Hex2, ReadHex;
    var s := Hex2(b) + (":" + rest);
    ReadLastByte(b);
    assert s[..2] == Hex2(b) && s[2] == ':' && s[3..] == rest;
  }

  lemma FixedBytes()
    ensures Hex2(0x52) == "52" && Hex2(0x54) == "54" && Hex2(0) == "00"
  {
  }

  lemma MacParts(h: Octet, m: Octet, l: Octet)
    ensures MacText(h, m, l) ==
            "52" + (":" + ("54" + (":" + ("00" + (":" + (Hex2(h) + (":" + (Hex2(m) + (":" + Hex2(l))))))))))
  {
    hide Hex2;
    assert "52" + (":" + ("54" + (":" + ("00" + ":")))) == "52:54:00:";
  }

  /** An address reads as six bytes: 52, 54, 00 in hexadecimal, and the low 24 bits of the
      number, most significant byte first. */
  lemma ReadMacOf(k: nat) returns (h: nat, m: nat, l: nat)
    ensures ReadMac(Mac(k)) == Some([0x52, 0x54, 0, h, m, l])
    ensures h < 256 && m < 256 && l < 256 && (h * 256 + m) * 256 + l == k % 0x100_0000
  {
    hide Hex2, ReadMac;
    h, m, l := (k / 0x1_0000) % 0x100, (k / 0x100) % 0x100, k % 0x100;
    FixedBytes();
    var s4 := Hex2(h) + (":" + (Hex2(m) + (":" + Hex2(l))));
    ReadLastByte(l);
    ReadNextByte(m, Hex2(l), [l]);
    ReadNextByte(h, Hex2(m) + (":" + Hex2(l)), [m] + [l]);
    ReadNextByte(0, s4, [h] + ([m] + [l]));
    ReadNextByte(0x54, Hex2(0) + (":" + s4), [0] + ([h] + ([m] + [l])));
    ReadNextByte(0x52, Hex2(0x54) + (":" + (Hex2(0) + (":" + s4))), [0x54] + ([0] + ([h] + ([m] + [l]))));
    MacParts(h, m, l);
    assert [0x52] + ([0x54] + ([0] + ([h] + ([m] + [l])))) == [0x52, 0x54, 0, h, m, l];
    Low24(k);
  }

  /** The text is the hardware address with the number `k`: 52:54:00 and the low 24 bits. */
  ghost predicate NumberedMac(mac: string, k: nat) {
    exists h: nat, m: nat, l: nat ::
      ReadMac(mac) == Some([0x52, 0x54, 0, h, m, l]) && (h * 256 + m) * 256 + l == k % 0x100_0000
  }

  lemma MacIsNumbered(k: nat)
    ensures NumberedMac(Mac(k), k)
  {
    hide Mac, ReadMac;
    var h, m, l := ReadMacOf(k);
  }
}
