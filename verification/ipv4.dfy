/** IPv4 addresses as 32-bit words: masking, `addToIPv4`, dotted quads. */
module IPv4 {
  import opened Results
  import opened ByteStrings
  import opened Decimal

  type Word32 = n: nat | n < 0x1_0000_0000

  type PrefixLength = n: nat | n <= 32

  /** A printed IPv6 address. */
  type IPv6Text = s: string | forall c :: c in s ==> ('0' <= c <= '9' || 'a' <= c <= 'f' || c == ':' || c == '.')

  function Pow2(k: nat): (p: nat)
    ensures p > 0
  {
    if k == 0 then 1 else 2 * Pow2(k - 1)
  }

  lemma {:induction false} Pow2Split(a: nat, b: nat)
    ensures Pow2(a + b) == Pow2(a) * Pow2(b)
  {
    if a > 0 {
      Pow2Split(a - 1, b);
      assert (a + b) - 1 == (a - 1) + b;
    }
  }

  /** Number of addresses with a prefix of `ones` bits. */
  function Size(ones: PrefixLength): (s: nat)
    ensures s > 0
  {
    Pow2(32 - ones)
  }

  lemma SizeDivides(ones: PrefixLength)
    ensures Size(ones) * Pow2(ones) == 0x1_0000_0000
  {
    Pow2Split(32 - ones, ones);
    assert Pow2(8) == 256;
    Pow2Split(8, 8);
    Pow2Split(16, 16);
  }

  /** `ip.Mask(n.Mask)`: the address with its low `32 - ones` bits cleared. */
  function Base(addr: Word32, ones: PrefixLength): (b: Word32)
    ensures b <= addr
  {
    DivBounds(addr, Size(ones));
    addr / Size(ones) * Size(ones)
  }

  /** The word that `addToIPv4` computes: a uint32 sum, which wraps. */
  function AddWord(base: Word32, n: nat): Word32 { (base + n) % 0x1_0000_0000 }

  /** Section 3.1 of RFC 4632: the address shares the prefix. */
  predicate InSubnet(a: Word32, net: Word32, ones: PrefixLength) {
    a / Size(ones) == net / Size(ones)
  }

  /** In the subnet, and neither its first nor its last address. */
  predicate Usable(a: Word32, net: Word32, ones: PrefixLength) {
    && InSubnet(a, net, ones)
    && a != Base(net, ones)
    && a != Base(net, ones) + Size(ones) - 1
  }

  /** The block of a subnet ends before 2^32. */
  lemma BlockFits(net: Word32, ones: PrefixLength)
    ensures Base(net, ones) + Size(ones) <= 0x1_0000_0000
  {
    hide Size, Pow2;
    var size := Size(ones);
    SizeDivides(ones);
    var q := net / size;
    DivBounds(net, size);
    assert Pow2(ones) * size == size * Pow2(ones);
    assert (q + 1) * size == q * size + size;
    if q >= Pow2(ones) { MulMono(Pow2(ones), q, size); }
    MulMono(q + 1, Pow2(ones), size);
  }

  /** The address handed to member `i` of a link, counted from 0. */
  function MemberAddress(net: Word32, ones: PrefixLength, i: nat): Word32 {
    AddWord(Base(net, ones), i + 1)
  }

  /** Within the block nothing wraps. */
  lemma MemberInBlock(net: Word32, ones: PrefixLength, i: nat)
    requires i + 1 < Size(ones)
    ensures MemberAddress(net, ones, i) == Base(net, ones) + i + 1
    ensures InSubnet(MemberAddress(net, ones, i), net, ones)
  {
    BlockFits(net, ones);
    QuotientOf(net / Size(ones), i + 1, Size(ones));
  }

  /** The addresses of `m` members are usable host addresses exactly when the subnet
      has room for them: at most 2^(32-p) - 2. */
  lemma UsableIff(net: Word32, ones: PrefixLength, m: nat)
    ensures (forall i: nat :: i < m ==> Usable(MemberAddress(net, ones, i), net, ones)) <==>
            m == 0 || m + 2 <= Size(ones)
  {
    var size := Size(ones);
    if m + 2 <= size {
      forall i: nat | i < m ensures Usable(MemberAddress(net, ones, i), net, ones) {
        MemberInBlock(net, ones, i);
      }
    } else if m > 0 {
      // The last address of the block, or the one after a block of one.
      var i := if size == 1 then 0 else size - 2;
      assert i < m;
      BlockFits(net, ones);
      if size == 1 { OneAddress(net, ones); }
      else { MemberInBlock(net, ones, i); }
      assert !Usable(MemberAddress(net, ones, i), net, ones);
    }
  }

  lemma OneAddress(net: Word32, ones: PrefixLength)
    requires Size(ones) == 1
    ensures !InSubnet(MemberAddress(net, ones, 0), net, ones)
  {
    DivBounds(net, 1);
  }

  /** Two members get the same word only if the sum has wrapped between them. */
  lemma AddressesDistinct(net: Word32, ones: PrefixLength, i: nat, j: nat)
    requires i < j < i + 0x1_0000_0000
    ensures MemberAddress(net, ones, i) != MemberAddress(net, ones, j)
  {
    var b := Base(net, ones);
    ModApart(b + i + 1, b + j + 1);
  }

  lemma ModApart(x: nat, y: nat)
    requires x < y < x + 0x1_0000_0000
    ensures x % 0x1_0000_0000 != y % 0x1_0000_0000
  {
  }

  // ----- dotted quads ----------------------------------------------------

  function Quad(w: nat, x: nat, y: nat, z: nat): string {
    Dec(w) + "." + (Dec(x) + "." + (Dec(y) + "." + Dec(z)))
  }

  /** `net.IPv4(...).String()`. */
  function Dotted(a: Word32): string {
    Quad(a / 0x100_0000, a / 0x1_0000 % 0x100, a / 0x100 % 0x100, a % 0x100)
  }

  /** The decimals `xs` with a dot after each but the last, then a slash and `p`. */
  function Dots(xs: seq<nat>, p: nat): string
    requires xs != []
  {
    if |xs| == 1 then Dec(xs[0]) + ['/'] + Dec(p)
    else Dec(xs[0]) + ['.'] + Dots(xs[1..], p)
  }

  lemma {:induction false} DotsInjective(xs: seq<nat>, p: nat, ys: seq<nat>, q: nat)
    requires xs != [] && |xs| == |ys| && Dots(xs, p) == Dots(ys, q)
    ensures xs == ys && p == q
  {
    if |xs| == 1 {
      DecThen(xs[0], Dec(p), ys[0], Dec(q), '/');
      DecInjective(p, q);
    } else {
      DecThen(xs[0], Dots(xs[1..], p), ys[0], Dots(ys[1..], q), '.');
      DotsInjective(xs[1..], p, ys[1..], q);
      assert xs == [xs[0]] + xs[1..] && ys == [ys[0]] + ys[1..];
    }
  }

  lemma QuadIsDots(w: nat, x: nat, y: nat, z: nat, p: nat)
    ensures Quad(w, x, y, z) + "/" + Dec(p) == Dots([w, x, y, z], p)
  {
    assert [w, x, y, z][1..] == [x, y, z] && [x, y, z][1..] == [y, z] && [y, z][1..] == [z];
    var t := Dec(z) + ['/'] + Dec(p);
    assert Dots([z], p) == t;
    assert Dots([y, z], p) == Dec(y) + ['.'] + t;
    assert Dots([x, y, z], p) == Dec(x) + ['.'] + (Dec(y) + ['.'] + t);
    assert Dots([w, x, y, z], p) == Dec(w) + ['.'] + (Dec(x) + ['.'] + (Dec(y) + ['.'] + t));
  }

  lemma Bytes32(a: Word32)
    ensures a == 0x100_0000 * (a / 0x100_0000) + 0x1_0000 * (a / 0x1_0000 % 0x100)
                 + 0x100 * (a / 0x100 % 0x100) + a % 0x100
  {
    var low, rest := a % 0x100, a / 0x100;
    var mid, top := rest % 0x100, rest / 0x100;
    assert a == 0x1_0000 * top + 0x100 * mid + low;
    assert a / 0x1_0000 == top;
    assert a / 0x100_0000 == top / 0x100;
  }

  /** The printed address with its prefix length determines both. */
  lemma CidrInjective(a: Word32, p: nat, b: Word32, q: nat)
    requires Dotted(a) + "/" + Dec(p) == Dotted(b) + "/" + Dec(q)
    ensures a == b && p == q
  {
    hide Quad, Dots, Dec;
    var a1, a2, a3, a4 := a / 0x100_0000, a / 0x1_0000 % 0x100, a / 0x100 % 0x100, a % 0x100;
    var b1, b2, b3, b4 := b / 0x100_0000, b / 0x1_0000 % 0x100, b / 0x100 % 0x100, b % 0x100;
    QuadIsDots(a1, a2, a3, a4, p);
    QuadIsDots(b1, b2, b3, b4, q);
    var xs, ys := [a1, a2, a3, a4], [b1, b2, b3, b4];
    DotsInjective(xs, p, ys, q);
    assert xs[0] == ys[0] && xs[1] == ys[1] && xs[2] == ys[2] && xs[3] == ys[3];
    Bytes32(a);
    Bytes32(b);
  }

  // ----- reading ---------------------------------------------------------

  /** A number up to the character `stop`, and what follows it. */
  function NumberTo(s: string, stop: char): Option<(nat, string)> {
    var i := IndexOf(s, stop);
    if i == 0 || i == |s| || !AllDigits(s[..i]) then None else Some((Value(s[..i]), s[i + 1..]))
  }

  /** The 32-bit address and the prefix length of a text `d.d.d.d/p`, most significant byte
      first. */
  function ReadCidr(s: string): Option<(nat, nat)> {
    match NumberTo(s, '.')
    case None => None
    case Some((w, s1)) =>
      match NumberTo(s1, '.')
      case None => None
      case Some((x, s2)) =>
        match NumberTo(s2, '.')
        case None => None
        case Some((y, s3)) =>
          match NumberTo(s3, '/')
          case None => None
          case Some((z, p)) =>
            if w > 255 || x > 255 || y > 255 || z > 255 || p == "" || !AllDigits(p) || Value(p) > 32 then None
            else Some((((w * 256 + x) * 256 + y) * 256 + z, Value(p)))
  }

  lemma NumberToOf(n: nat, stop: char, rest: string)
    requires !IsDigit(stop)
    ensures NumberTo(Dec(n) + ([stop] + rest), stop) == Some((n, rest))
  {
    var s := Dec(n) + ([stop] + rest);
    assert s == Dec(n) + [stop] + rest;
    IndexOfPrefix(Dec(n), stop, rest);
    ValueOfDec(n);
    assert s[..|Dec(n)|] == Dec(n) && s[|Dec(n)| + 1..] == rest;
  }

  lemma ReadQuad(w: nat, x: nat, y: nat, z: nat, p: nat)
    requires w < 256 && x < 256 && y < 256 && z < 256 && p <= 32
    ensures ReadCidr(Quad(w, x, y, z) + "/" + Dec(p)) == Some((((w * 256 + x) * 256 + y) * 256 + z, p))
  {
    hide Dec, NumberTo, Value;
    var s3 := Dec(z) + (['/'] + Dec(p));
    var s2 := Dec(y) + (['.'] + s3);
    var s1 := Dec(x) + (['.'] + s2);
    assert Quad(w, x, y, z) + "/" + Dec(p) == Dec(w) + (['.'] + s1);
    NumberToOf(w, '.', s1);
    NumberToOf(x, '.', s2);
    NumberToOf(y, '.', s3);
    NumberToOf(z, '/', Dec(p));
    ValueOfDec(p);
  }

  /** The printed address reads as the word, and the prefix length as itself. */
  lemma ReadDotted(a: Word32, p: PrefixLength)
    ensures ReadCidr(Dotted(a) + "/" + Dec(p)) == Some((a, p))
  {
    hide ReadCidr, Quad, Dec;
    ReadQuad(a / 0x100_0000, a / 0x1_0000 % 0x100, a / 0x100 % 0x100, a % 0x100, p);
    Bytes32(a);
  }
}
