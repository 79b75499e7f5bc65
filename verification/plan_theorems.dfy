/** Laws of the network plan. */
module PlanTheorems {
  import opened Results
  import opened ByteStrings
  import opened Decimal
  import opened MacAddress
  import opened Topologies
  import opened IPv4
  import opened NetPlans

  // ----- when there is a plan --------------------------------------------

  lemma {:induction false} PlanLinksOkIff(t: Topology, parse: CidrParser, links: seq<Link>, k: nat)
    ensures PlanLinks(t, parse, links, k).Ok? <==> forall l :: l in links ==> SubnetOk(parse, l)
    decreases |links|
  {
    hide Mac, TapName, Address, BridgeName;
    if links != [] {
      assert links[0] in links;
      PlanLinksOkIff(t, parse, links[1..], k + |MemberNames(t, links[0].members)|);
      assert forall l :: l in links <==> l == links[0] || l in links[1..];
    }
  }

  // ----- where each link's taps are --------------------------------------

  /** The number of taps of the first `i` links. */
  function Offset(t: Topology, links: seq<Link>, i: nat): nat
    requires i <= |links|
    decreases i
  {
    if i == 0 then 0
    else |MemberNames(t, links[0].members)| + Offset(t, links[1..], i - 1)
  }

  /** The taps that link `i` contributes, when `k` taps come before the links. */
  function TapsOf(t: Topology, parse: CidrParser, links: seq<Link>, i: nat, k: nat): (taps: seq<Tap>)
    requires i < |links|
    ensures |taps| == |MemberNames(t, links[i].members)|
  {
    LinkTaps(BridgeName(links[i].name), MemberNames(t, links[i].members),
             k + Offset(t, links, i), NetOf(parse, links[i]))
  }

  /** The bridges of the plan are those of the links, in order. */
  lemma {:induction false} BridgeOfPlan(t: Topology, parse: CidrParser, links: seq<Link>, k: nat, i: nat)
    requires PlanLinks(t, parse, links, k).Ok? && i < |links|
    ensures var p := PlanLinks(t, parse, links, k).value;
            && |p.bridges| == |links|
            && p.bridges[i] == Bridge(BridgeName(links[i].name), links[i].name, links[i].subnet)
    decreases |links|
  {
    hide Mac, TapName, Address, BridgeName;
    PlanSizes(t, parse, links, k);
    if i > 0 {
      BridgeOfPlan(t, parse, links[1..], k + |MemberNames(t, links[0].members)|, i - 1);
    }
  }

  predicate StandsAt(taps: seq<Tap>, own: seq<Tap>, off: nat) {
    off + |own| <= |taps| && forall j :: 0 <= j < |own| ==> taps[off + j] == own[j]
  }

  lemma StandsFirst(first: seq<Tap>, rest: seq<Tap>)
    ensures StandsAt(first + rest, first, 0)
  {
  }

  lemma StandsLater(first: seq<Tap>, rest: seq<Tap>, own: seq<Tap>, off: nat)
    requires StandsAt(rest, own, off)
    ensures StandsAt(first + rest, own, |first| + off)
  {
    forall j | 0 <= j < |own| ensures (first + rest)[|first| + off + j] == own[j] {
      assert rest[off + j] == own[j];
    }
  }

  /** The taps of link `i` stand in the plan at its offset. */
  lemma {:induction false} LinkOfPlan(t: Topology, parse: CidrParser, links: seq<Link>, k: nat, i: nat)
    requires PlanLinks(t, parse, links, k).Ok? && i < |links|
    ensures StandsAt(PlanLinks(t, parse, links, k).value.taps, TapsOf(t, parse, links, i, k), Offset(t, links, i))
    decreases |links|
  {
    hide Mac, TapName, Address, BridgeName, LinkTaps, StandsAt;
    var n := |MemberNames(t, links[0].members)|;
    var first, rest := TapsOf(t, parse, links, 0, k), PlanLinks(t, parse, links[1..], k + n).value.taps;
    assert PlanLinks(t, parse, links, k).value.taps == first + rest;
    if i == 0 {
      StandsFirst(first, rest);
    } else {
      LinkOfPlan(t, parse, links[1..], k + n, i - 1);
      LaterTaps(t, parse, links, i, k);
      StandsLater(first, rest, TapsOf(t, parse, links, i, k), Offset(t, links[1..], i - 1));
    }
  }

  lemma LaterTaps(t: Topology, parse: CidrParser, links: seq<Link>, i: nat, k: nat)
    requires 0 < i < |links|
    ensures TapsOf(t, parse, links[1..], i - 1, k + |MemberNames(t, links[0].members)|) ==
            TapsOf(t, parse, links, i, k)
  {
    hide Mac, TapName, Address, BridgeName;
    assert links[1..][i - 1] == links[i];
  }

  /** Conservation: one bridge per link, and as many taps as members. */
  lemma {:induction false} PlanSizes(t: Topology, parse: CidrParser, links: seq<Link>, k: nat)
    requires PlanLinks(t, parse, links, k).Ok?
    ensures |PlanLinks(t, parse, links, k).value.bridges| == |links|
    ensures |PlanLinks(t, parse, links, k).value.taps| == Offset(t, links, |links|)
    decreases |links|
  {
    hide Mac, TapName, Address, BridgeName;
    if links != [] {
      PlanSizes(t, parse, links[1..], k + |MemberNames(t, links[0].members)|);
    }
  }

  /** The sum, over the members of a link, of the sizes of their groups. */
  function MemberCount(t: Topology, members: seq<string>): nat {
    if members == [] then 0
    else (if members[0] in t.nodes then GroupSize(t.nodes[members[0]]) else 0)
         + MemberCount(t, members[1..])
  }

  lemma {:induction false} MemberNamesCount(t: Topology, members: seq<string>)
    ensures |MemberNames(t, members)| == MemberCount(t, members)
  {
    if members != [] { MemberNamesCount(t, members[1..]); }
  }

  function TapCount(t: Topology, links: seq<Link>): nat {
    if links == [] then 0 else MemberCount(t, links[0].members) + TapCount(t, links[1..])
  }

  lemma {:induction false} OffsetIsCount(t: Topology, links: seq<Link>)
    ensures Offset(t, links, |links|) == TapCount(t, links)
  {
    if links != [] {
      MemberNamesCount(t, links[0].members);
      OffsetIsCount(t, links[1..]);
    }
  }

  lemma {:induction false} MembersAreInstances(t: Topology, members: seq<string>, x: string)
    requires x in MemberNames(t, members)
    ensures x in NamesOf(Expansion(t))
  {
    hide InstanceName, Mac;
    if x in BaseNames(t, members[0]) {
      GroupedName(members[0], t.nodes[members[0]], x);
      var names := SortedSet(t.nodes.Keys);
      ExpandedName(t.nodes, names, x);
      NamesOfExpandNames(t.nodes, names, 0);
    } else {
      MembersAreInstances(t, members[1..], x);
    }
  }

  /** The link a tap belongs to, and its place in it. */
  lemma {:induction false} TapPlace(t: Topology, links: seq<Link>, j: nat) returns (i: nat, m: nat)
    requires j < Offset(t, links, |links|)
    ensures i < |links| && m < |MemberNames(t, links[i].members)|
    ensures j == Offset(t, links, i) + m
    decreases |links|
  {
    var n := |MemberNames(t, links[0].members)|;
    if j < n { i, m := 0, j; }
    else {
      var i0;
      i0, m := TapPlace(t, links[1..], j - n);
      i := i0 + 1;
    }
  }

  /** The tap of member `m` of link `i`. */
  lemma MemberTap(t: Topology, parse: CidrParser, i: nat, m: nat)
    requires PlanOf(t, parse).Ok? && i < |t.links| && m < |MemberNames(t, t.links[i].members)|
    ensures var taps := PlanOf(t, parse).value.taps;
            var j := Offset(t, t.links, i) + m;
            && j < |taps|
            && taps[j] == MakeTap(j + 1, BridgeName(t.links[i].name), MemberNames(t, t.links[i].members)[m],
                                  NetOf(parse, t.links[i]), m)
  {
    hide MakeTap, Mac, TapName, Address, BridgeName, MemberNames, PlanLinks, Offset;
    LinkOfPlan(t, parse, t.links, 0, i);
    assert PlanOf(t, parse).value.taps[Offset(t, t.links, i) + m] == TapsOf(t, parse, t.links, i, 0)[m];
  }

  lemma {:induction false} MemberAt(t: Topology, members: seq<string>, p: nat, i: nat)
    requires p < |members| && members[p] in t.nodes && i < Copies(t.nodes[members[p]])
    ensures var names, at := MemberNames(t, members), CopiesBefore(t.nodes, members, p) + i;
            at < |names| && IsCopy(names[at], members[p], t.nodes[members[p]], i)
    decreases p
  {
    hide InstanceName, IsCopy;
    if p == 0 {
      NameIsCopy(members[0], t.nodes[members[0]], i);
    } else {
      var rest := MemberNames(t, members[1..]);
      MemberAt(t, members[1..], p - 1, i);
      assert |BaseNames(t, members[0])| == if members[0] in t.nodes then Copies(t.nodes[members[0]]) else 0;
      assert MemberNames(t, members) == BaseNames(t, members[0]) + rest;
    }
  }

  lemma {:induction false} MembersCount(t: Topology, members: seq<string>)
    ensures |MemberNames(t, members)| == CopiesBefore(t.nodes, members, |members|)
  {
    hide InstanceName;
    if members != [] { MembersCount(t, members[1..]); }
  }

  /** How many taps the first `i` links have. */
  function TapsBefore(t: Topology, links: seq<Link>, i: nat): nat
    requires i <= |links|
    decreases i
  {
    if i == 0 then 0
    else CopiesBefore(t.nodes, links[0].members, |links[0].members|) + TapsBefore(t, links[1..], i - 1)
  }

  lemma {:induction false} OffsetCounts(t: Topology, links: seq<Link>, i: nat)
    requires i <= |links|
    ensures Offset(t, links, i) == TapsBefore(t, links, i)
    decreases i
  {
    if i > 0 {
      MembersCount(t, links[0].members);
      OffsetCounts(t, links[1..], i - 1);
    }
  }

  /** The text is the address that member `m` of a link with this network gets. */
  predicate MemberIp(ip: string, net: Option<Net>, m: nat) {
    match net
    case None => ip == ""
    case Some(V4(addr, ones)) =>
      ReadCidr(ip) == Some(((addr - addr % Size(ones) + m + 1) % 0x1_0000_0000, ones))
    case Some(V6(base, ones)) => |ip| > |base| && ip[..|base| + 1] == base + "/" && Denotes(ip[|base| + 1..], ones)
  }

  /** What the tap with number `k` is, read from its texts. */
  ghost predicate ReadsAs(tap: Tap, k: nat, link: Link, net: Option<Net>, m: nat) {
    && |tap.name| > 7 && tap.name[..7] == "klabtap" && Denotes(tap.name[7..], k)
    && tap.bridge == "klbr-" + (if |link.name| <= 10 then link.name else link.name[..10])
    && NumberedMac(tap.mac, k) && MemberIp(tap.ip, net, m)
  }

  lemma MemberIpOf(net: Option<Net>, m: nat)
    ensures MemberIp(Address(net, m), net, m)
  {
    hide Dec, Denotes, ReadCidr, Dotted, Size;
    match net
    case None =>
    case Some(V4(addr, ones)) =>
      ReadDotted(MemberAddress(addr, ones, m), ones);
      BaseIsMasked(addr, ones);
    case Some(V6(base, ones)) =>
      var ip := base + "/" + Dec(ones);
      assert ip[..|base| + 1] == base + "/" && ip[|base| + 1..] == Dec(ones);
      DecDenotes(ones);
  }

  lemma BaseIsMasked(addr: Word32, ones: PrefixLength)
    ensures Base(addr, ones) == addr - addr % Size(ones)
  {
    hide Size;
  }

  lemma TapReads(k: nat, node: string, link: Link, net: Option<Net>, m: nat)
    ensures ReadsAs(MakeTap(k, BridgeName(link.name), node, net, m), k, link, net, m)
  {
    hide Dec, Denotes, Mac, Address, MemberIp, NumberedMac;
    DecDenotes(k);
    assert TapName(k)[..7] == "klabtap" && TapName(k)[7..] == Dec(k);
    MacIsNumbered(k);
    MemberIpOf(net, m);
    var n := "klbr-" + link.name;
    if |link.name| > 10 { assert n[..15] == "klbr-" + link.name[..10]; }
  }

  /** Links in order, members of a link in order, instances of a member in order: the tap of
      instance `i` of member `p` of link `l` has the number of its place counted from 1, is
      on its link's bridge and for that instance, and its texts read as that number's
      hardware address and, in an IPv4 network, as the address that many after the
      network address. */
  lemma InstanceTap(t: Topology, parse: CidrParser, l: nat, p: nat, i: nat)
    requires PlanOf(t, parse).Ok? && l < |t.links| && p < |t.links[l].members|
    requires t.links[l].members[p] in t.nodes && i < Copies(t.nodes[t.links[l].members[p]])
    ensures var taps, link := PlanOf(t, parse).value.taps, t.links[l];
            var m := CopiesBefore(t.nodes, link.members, p) + i;
            var j := TapsBefore(t, t.links, l) + m;
            && j < |taps|
            && IsCopy(taps[j].node, link.members[p], t.nodes[link.members[p]], i)
            && ReadsAs(taps[j], j + 1, link, if link.subnet == "" then None else parse(link.subnet), m)
  {
    hide MakeTap, MemberNames, PlanLinks, BridgeName, Offset, ReadsAs, IsCopy, CopiesBefore, TapsBefore;
    var link := t.links[l];
    var m := CopiesBefore(t.nodes, link.members, p) + i;
    MemberAt(t, link.members, p, i);
    OffsetCounts(t, t.links, l);
    MemberTap(t, parse, l, m);
    var k, node := Offset(t, t.links, l) + m + 1, MemberNames(t, link.members)[m];
    TapReads(k, node, link, NetOf(parse, link), m);
    MadeFor(k, BridgeName(link.name), node, NetOf(parse, link), m);
  }

  lemma MadeFor(k: nat, bridge: string, node: string, net: Option<Net>, m: nat)
    ensures MakeTap(k, bridge, node, net, m).node == node
  {
  }

  /** Tap `j` of the plan: its number, its link, its node. */
  lemma TapOfPlan(t: Topology, parse: CidrParser, j: nat) returns (i: nat, m: nat)
    requires PlanOf(t, parse).Ok? && j < |PlanOf(t, parse).value.taps|
    ensures i < |t.links| && m < |MemberNames(t, t.links[i].members)|
    ensures j == Offset(t, t.links, i) + m
    ensures PlanOf(t, parse).value.taps[j] ==
            MakeTap(j + 1, BridgeName(t.links[i].name), MemberNames(t, t.links[i].members)[m],
                    NetOf(parse, t.links[i]), m)
  {
    hide MakeTap, MemberNames, PlanLinks, BridgeName, Offset;
    PlanSizes(t, parse, t.links, 0);
    i, m := TapPlace(t, t.links, j);
    MemberTap(t, parse, i, m);
  }

  /** The plan conserves interfaces: as many taps as the links' members expand to, one
      bridge per link, and every tap joins an instance to a planned bridge. */
  lemma PlanConserves(t: Topology, parse: CidrParser)
    requires PlanOf(t, parse).Ok?
    ensures var p := PlanOf(t, parse).value;
            && |p.bridges| == |t.links|
            && |p.taps| == TapCount(t, t.links)
            && (forall j :: 0 <= j < |p.taps| ==>
                  p.taps[j].node in NamesOf(Expansion(t)) &&
                  exists i :: 0 <= i < |p.bridges| && p.bridges[i].name == p.taps[j].bridge)
  {
    hide Mac, TapName, Address, BridgeName;
    var p := PlanOf(t, parse).value;
    PlanSizes(t, parse, t.links, 0);
    OffsetIsCount(t, t.links);
    forall j | 0 <= j < |p.taps|
      ensures p.taps[j].node in NamesOf(Expansion(t))
      ensures exists i :: 0 <= i < |p.bridges| && p.bridges[i].name == p.taps[j].bridge
    {
      var i, m := TapOfPlan(t, parse, j);
      MembersAreInstances(t, t.links[i].members, p.taps[j].node);
      BridgeOfPlan(t, parse, t.links, 0, i);
      assert p.bridges[i].name == p.taps[j].bridge;
    }
  }

  /** Some tap is on bridge `i` of the plan. */
  ghost predicate BridgeInUse(p: NetPlan, i: int)
    requires 0 <= i < |p.bridges|
  {
    exists j :: 0 <= j < |p.taps| && p.taps[j].bridge == p.bridges[i].name
  }

  /** A topology that `Validate` accepts has a plan, with a tap on every bridge. */
  lemma ValidPlans(t: Topology, parse: CidrParser)
    requires WellFormed(t, parse)
    ensures PlanOf(t, parse).Ok?
    ensures var p := PlanOf(t, parse).value;
            |p.bridges| == |t.links| && forall i :: 0 <= i < |p.bridges| ==> BridgeInUse(p, i)
  {
    hide Mac, TapName, Address, BridgeName;
    forall l | l in t.links ensures SubnetOk(parse, l) {
      var i :| 0 <= i < |t.links| && t.links[i] == l;
      assert GoodLink(t, parse, t.links[i]);
    }
    PlanLinksOkIff(t, parse, t.links, 0);
    var p := PlanOf(t, parse).value;
    PlanSizes(t, parse, t.links, 0);
    forall i | 0 <= i < |p.bridges| ensures BridgeInUse(p, i) {
      assert GoodLink(t, parse, t.links[i]);
      var j := FirstTapOfLink(t, parse, i);
      assert p.taps[j].bridge == p.bridges[i].name;
    }
  }

  lemma FirstTapOfLink(t: Topology, parse: CidrParser, i: nat) returns (j: nat)
    requires PlanOf(t, parse).Ok? && i < |t.links| && GoodLink(t, parse, t.links[i])
    ensures j < |PlanOf(t, parse).value.taps| && i < |PlanOf(t, parse).value.bridges|
    ensures PlanOf(t, parse).value.taps[j].bridge == PlanOf(t, parse).value.bridges[i].name
  {
    hide Mac, TapName, Address, BridgeName, LinkTaps, InstanceName, GroupNames, PlanLinks, Offset;
    var members := t.links[i].members;
    assert members[0] in members;
    assert |MemberNames(t, members)| >= |BaseNames(t, members[0])| >= 1;
    j := Offset(t, t.links, i);
    BridgeOfPlan(t, parse, t.links, 0, i);
    MemberTap(t, parse, i, 0);
  }

  // ----- names and hardware addresses ------------------------------------

  lemma TapNumber(t: Topology, parse: CidrParser, j: nat)
    requires PlanOf(t, parse).Ok? && j < |PlanOf(t, parse).value.taps|
    ensures PlanOf(t, parse).value.taps[j].mac == Mac(j + 1)
    ensures PlanOf(t, parse).value.taps[j].name == TapName(j + 1)
  {
    hide Mac, TapName, Address, BridgeName;
    var _, _ := TapOfPlan(t, parse, j);
  }

  lemma TapNameInjective(a: nat, b: nat)
    requires TapName(a) == TapName(b)
    ensures a == b
  {
    assert Dec(a) == TapName(a)[7..] && Dec(b) == TapName(b)[7..];
    DecInjective(a, b);
  }

  lemma TapIsNoBridge(k: nat, link: string)
    ensures TapName(k) != BridgeName(link)
  {
    assert TapName(k)[2] == 'a' && BridgeName(link)[2] == 'b';
  }

  /** Tap names are pairwise distinct, and differ from every bridge name. */
  lemma TapNamesDistinct(t: Topology, parse: CidrParser, i: nat, j: nat, link: string)
    requires PlanOf(t, parse).Ok? && i < |PlanOf(t, parse).value.taps| && j < |PlanOf(t, parse).value.taps|
    ensures var taps := PlanOf(t, parse).value.taps;
            (taps[i].name == taps[j].name <==> i == j) && taps[i].name != BridgeName(link)
  {
    hide TapName, BridgeName, Mac;
    TapNumber(t, parse, i);
    TapNumber(t, parse, j);
    TapIsNoBridge(i + 1, link);
    if TapName(i + 1) == TapName(j + 1) { TapNameInjective(i + 1, j + 1); }
  }

  /** A tap name fits the 15 bytes of an interface name for numbers below 10^8. */
  lemma TapNameFits(k: nat)
    ensures |TapName(k)| <= 15 <==> k < 100_000_000
  {
    DecWidth(k, 8);
    assert Pow10(4) == 10_000;
    assert Pow10(8) == 10_000 * Pow10(4) by {
      assert Pow10(5) == 100_000;
      assert Pow10(6) == 1_000_000;
      assert Pow10(7) == 10_000_000;
    }
  }

  lemma MacsApart(i: nat, j: nat)
    requires 1 <= i < j <= 0x100_0000
    ensures Mac(i) != Mac(j)
  {
    hide Mac;
    MacEqualIff(i, j);
  }

  lemma MacsRepeat()
    ensures Mac(1) == Mac(0x100_0001)
  {
    hide Mac;
    MacEqualIff(1, 0x100_0001);
  }

  /** The MAC addresses of a plan are pairwise distinct if and only if it has no more
      than 2^24 taps. */
  lemma MacsDistinctIff(t: Topology, parse: CidrParser)
    requires PlanOf(t, parse).Ok?
    ensures var taps := PlanOf(t, parse).value.taps;
            (forall i, j :: 0 <= i < j < |taps| ==> taps[i].mac != taps[j].mac) <==>
            |taps| <= 0x100_0000
  {
    hide Mac;
    var taps := PlanOf(t, parse).value.taps;
    forall i | 0 <= i < |taps| ensures taps[i].mac == Mac(i + 1) { TapNumber(t, parse, i); }
    if |taps| <= 0x100_0000 {
      forall i, j | 0 <= i < j < |taps| ensures taps[i].mac != taps[j].mac { MacsApart(i + 1, j + 1); }
    } else {
      MacsRepeat();
      assert taps[0].mac == taps[0x100_0000].mac;
    }
  }

  function First10(s: string): string { if |s| <= 10 then s else s[..10] }

  /** Two links share a bridge device exactly when their first ten bytes agree. */
  lemma BridgeNameEqualIff(a: string, b: string)
    ensures BridgeName(a) == BridgeName(b) <==> First10(a) == First10(b)
  {
    assert BridgeName(a) == "klbr-" + First10(a);
    assert BridgeName(b) == "klbr-" + First10(b);
    assert First10(a) == BridgeName(a)[5..] && First10(b) == BridgeName(b)[5..];
  }

  // ----- addresses -------------------------------------------------------

  lemma AddressesDiffer(addr: Word32, ones: PrefixLength, m: nat, l: nat)
    requires m < l < m + 0x1_0000_0000
    ensures Address(Some(V4(addr, ones)), m) != Address(Some(V4(addr, ones)), l)
  {
    AddressesDistinct(addr, ones, m, l);
    if Address(Some(V4(addr, ones)), m) == Address(Some(V4(addr, ones)), l) {
      CidrInjective(MemberAddress(addr, ones, m), ones, MemberAddress(addr, ones, l), ones);
    }
  }

  lemma AddressesRepeat(addr: Word32, ones: PrefixLength)
    ensures Address(Some(V4(addr, ones)), 0) == Address(Some(V4(addr, ones)), 0x1_0000_0000)
  {
  }

  /** Taps `m` and `l` of those from `off` on print different addresses. */
  predicate PrintApart(taps: seq<Tap>, off: nat, m: nat, l: nat) {
    off + m < |taps| && off + l < |taps| && taps[off + m].ip != taps[off + l].ip
  }

  /** The members of a link with a subnet print pairwise different addresses if and only
      if there is at most one of them, or the network is an IPv4 one and there are at
      most 2^32: an IPv6 address is not advanced, and an IPv4 one comes round. */
  lemma LinkAddressesDistinctIff(t: Topology, parse: CidrParser, i: nat)
    requires PlanOf(t, parse).Ok? && i < |t.links| && NetOf(parse, t.links[i]).Some?
    ensures var taps, off := PlanOf(t, parse).value.taps, Offset(t, t.links, i);
            var n := |MemberNames(t, t.links[i].members)|;
            (forall m: nat, l: nat :: m < l < n ==> PrintApart(taps, off, m, l)) <==>
            n <= 1 || (NetOf(parse, t.links[i]).value.V4? && n <= 0x1_0000_0000)
  {
    hide PrintApart, MemberNames, Offset, PlanLinks, NetOf, Address;
    var taps, off := PlanOf(t, parse).value.taps, Offset(t, t.links, i);
    var n := |MemberNames(t, t.links[i].members)|;
    match NetOf(parse, t.links[i]).value
    case V4(addr, ones) =>
      forall m: nat, l: nat | m < l < n && n <= 0x1_0000_0000 ensures PrintApart(taps, off, m, l) {
        AddressesDiffer(addr, ones, m, l);
        PrintApartIff(t, parse, i, m, l);
      }
      if n > 0x1_0000_0000 {
        AddressesRepeat(addr, ones);
        PrintApartIff(t, parse, i, 0, 0x1_0000_0000);
      }
    case V6(base, ones) =>
      if n > 1 {
        IPv6NotAdvanced(base, ones, 0, 1);
        PrintApartIff(t, parse, i, 0, 1);
      }
  }

  lemma PrintApartIff(t: Topology, parse: CidrParser, i: nat, m: nat, l: nat)
    requires PlanOf(t, parse).Ok? && i < |t.links|
    requires m < |MemberNames(t, t.links[i].members)| && l < |MemberNames(t, t.links[i].members)|
    ensures PrintApart(PlanOf(t, parse).value.taps, Offset(t, t.links, i), m, l) <==>
            Address(NetOf(parse, t.links[i]), m) != Address(NetOf(parse, t.links[i]), l)
  {
    hide Address, Mac, TapName, PlanLinks, Offset, MemberNames, BridgeName, NetOf;
    MemberTap(t, parse, i, m);
    MemberTap(t, parse, i, l);
  }

  /** The printed address of a tap reads as a usable address of the subnet. */
  ghost predicate ReadsUsable(taps: seq<Tap>, off: nat, m: nat, net: Word32, ones: PrefixLength) {
    off + m < |taps| && exists x: Word32 :: ReadCidr(taps[off + m].ip) == Some((x, ones)) && Usable(x, net, ones)
  }

  /** The printed addresses of the members of an IPv4 link all read as usable host addresses
      if and only if the subnet has room, that is, there are at most 2^(32-p) - 2
      members. */
  lemma LinkAddressesUsableIff(t: Topology, parse: CidrParser, i: nat)
    requires PlanOf(t, parse).Ok? && i < |t.links| && NetOf(parse, t.links[i]).Some?
    requires NetOf(parse, t.links[i]).value.V4?
    ensures var taps := PlanOf(t, parse).value.taps;
            var V4(addr, ones) := NetOf(parse, t.links[i]).value;
            var n, off := |MemberNames(t, t.links[i].members)|, Offset(t, t.links, i);
            (forall m: nat :: m < n ==> ReadsUsable(taps, off, m, addr, ones)) <==> n == 0 || n + 2 <= Size(ones)
  {
    hide Mac, TapName, PlanLinks, Offset, MemberNames, BridgeName, MemberAddress, Usable, Dotted, ReadCidr, Size;
    var taps := PlanOf(t, parse).value.taps;
    var V4(addr, ones) := NetOf(parse, t.links[i]).value;
    var n, off := |MemberNames(t, t.links[i].members)|, Offset(t, t.links, i);
    forall m: nat | m < n
      ensures ReadsUsable(taps, off, m, addr, ones) <==> Usable(MemberAddress(addr, ones, m), addr, ones)
    {
      MemberTap(t, parse, i, m);
      assert NetOf(parse, t.links[i]) == Some(V4(addr, ones));
      ReadDotted(MemberAddress(addr, ones, m), ones);
    }
    UsableIff(addr, ones, n);
  }

  /** No wrap-around in a subnet with room: the sums stay inside the block. */
  lemma NoWrapWithRoom(addr: Word32, ones: PrefixLength, n: nat, m: nat)
    requires m < n && n + 2 <= Size(ones)
    ensures MemberAddress(addr, ones, m) == Base(addr, ones) + m + 1
    ensures Base(addr, ones) < MemberAddress(addr, ones, m) < Base(addr, ones) + Size(ones) - 1
  {
    MemberInBlock(addr, ones, m);
  }

  /** IPv6 networks are not advanced: every member gets the network address. */
  lemma IPv6NotAdvanced(base: IPv6Text, ones: nat, i: nat, j: nat)
    ensures Address(Some(V6(base, ones)), i) == Address(Some(V6(base, ones)), j)
  {
  }
}
