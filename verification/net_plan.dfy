/** `Plan`: one bridge per link, one tap per member instance, addresses by position. */
module NetPlans {
  import opened Results
  import opened ByteStrings
  import opened Decimal
  import opened MacAddress
  import opened Topologies
  import opened IPv4

  datatype Bridge = Bridge(name: string, link: string, subnet: string)

  datatype Tap = Tap(name: string, bridge: string, node: string, mac: string, ip: string)

  datatype NetPlan = NetPlan(bridges: seq<Bridge>, taps: seq<Tap>)

  function BridgeName(link: string): (n: string)
    ensures |n| <= 15
  {
    var n := "klbr-" + link;
    if |n| > 15 then n[..15] else n
  }

  function TapName(k: nat): string { "klabtap" + Dec(k) }

  /** The address of member `i`, counted from 0; IPv6 networks are not advanced. */
  function Address(net: Option<Net>, i: nat): string {
    match net
    case None => ""
    case Some(V4(addr, ones)) => Dotted(MemberAddress(addr, ones, i)) + "/" + Dec(ones)
    case Some(V6(base, ones)) => base + "/" + Dec(ones)
  }

  // ----- specification ---------------------------------------------------

  function BaseNames(t: Topology, base: string): seq<string> {
    if base in t.nodes then GroupNames(base, t.nodes[base]) else []
  }

  /** The member instances of a link, in link-member order. */
  function MemberNames(t: Topology, members: seq<string>): seq<string> {
    if members == [] then []
    else BaseNames(t, members[0]) + MemberNames(t, members[1..])
  }

  function NetOf(parse: CidrParser, l: Link): Option<Net> {
    if l.subnet == "" then None else parse(l.subnet)
  }

  predicate SubnetOk(parse: CidrParser, l: Link) { l.subnet == "" || parse(l.subnet).Some? }

  function MakeTap(k: nat, bridge: string, node: string, net: Option<Net>, i: nat): Tap {
    Tap(TapName(k), bridge, node, Mac(k), Address(net, i))
  }

  /** The taps of one link; `k` taps come before them. */
  function LinkTaps(bridge: string, names: seq<string>, k: nat, net: Option<Net>): (taps: seq<Tap>)
    ensures |taps| == |names|
  {
    seq(|names|, i requires 0 <= i < |names| => MakeTap(k + i + 1, bridge, names[i], net, i))
  }

  function Prepend(bridges: seq<Bridge>, taps: seq<Tap>, rest: Result<NetPlan, string>)
    : Result<NetPlan, string>
  {
    match rest
    case Err(l) => Err(l)
    case Ok(p) => Ok(NetPlan(bridges + p.bridges, taps + p.taps))
  }

  /** The plan of `links`; an error names the link whose subnet does not parse. */
  function PlanLinks(t: Topology, parse: CidrParser, links: seq<Link>, k: nat): Result<NetPlan, string>
    decreases |links|
  {
    if links == [] then Ok(NetPlan([], []))
    else if !SubnetOk(parse, links[0]) then Err(links[0].name)
    else
      var l := links[0];
      var names := MemberNames(t, l.members);
      Prepend([Bridge(BridgeName(l.name), l.name, l.subnet)],
              LinkTaps(BridgeName(l.name), names, k, NetOf(parse, l)),
              PlanLinks(t, parse, links[1..], k + |names|))
  }

  function PlanOf(t: Topology, parse: CidrParser): Result<NetPlan, string> {
    PlanLinks(t, parse, t.links, 0)
  }

  // ----- instances by base -----------------------------------------------

  function NamesOfBase(instances: seq<Instance>, base: string): seq<string> {
    if instances == [] then []
    else
      var last := instances[|instances| - 1];
      NamesOfBase(instances[..|instances| - 1], base) + (if last.base == base then [last.name] else [])
  }

  lemma {:induction false} NamesOfBaseConcat(a: seq<Instance>, b: seq<Instance>, base: string)
    ensures NamesOfBase(a + b, base) == NamesOfBase(a, base) + NamesOfBase(b, base)
    decreases |b|
  {
    if b == [] {
      assert a + b == a;
    } else {
      var front := b[..|b| - 1];
      assert (a + b)[..|a + b| - 1] == a + front;
      NamesOfBaseConcat(a, front, base);
    }
  }

  lemma {:induction false} NamesOfBaseUniform(g: seq<Instance>, base: string)
    requires forall i, j :: 0 <= i < |g| && 0 <= j < |g| ==> g[i].base == g[j].base
    ensures NamesOfBase(g, base) == if g != [] && g[0].base == base then NamesOf(g) else []
    decreases |g|
  {
    hide Mac;
    if g != [] {
      var front := g[..|g| - 1];
      NamesOfBaseUniform(front, base);
      assert NamesOf(g) == NamesOf(front) + [g[|g| - 1].name];
    }
  }

  lemma NamesOfBaseGroup(b: string, n: Node, k: nat, base: string)
    ensures NamesOfBase(Group(b, n, k), base) == if b == base then GroupNames(b, n) else []
  {
    hide Mac, InstanceName;
    NamesOfBaseUniform(Group(b, n, k), base);
    NamesOfGroup(b, n, k);
  }

  lemma NamesOfBaseFirst(nodes: map<string, Node>, names: seq<string>, k: nat, base: string)
    requires names != [] && names[0] in nodes && forall n :: n in names ==> n in nodes
    ensures NamesOfBase(ExpandNames(nodes, names, k), base) ==
            (if names[0] == base then GroupNames(base, nodes[names[0]]) else [])
            + NamesOfBase(ExpandNames(nodes, names[1..], k + GroupSize(nodes[names[0]])), base)
  {
    hide Mac, InstanceName;
    var b := names[0];
    var g, tail := Group(b, nodes[b], k), ExpandNames(nodes, names[1..], k + GroupSize(nodes[b]));
    NamesOfBaseConcat(g, tail, base);
    NamesOfBaseGroup(b, nodes[b], k, base);
  }

  lemma {:induction false} NamesOfBaseExpanded(nodes: map<string, Node>, names: seq<string>, k: nat, base: string)
    requires NoDuplicates(names) && forall n :: n in names ==> n in nodes
    ensures NamesOfBase(ExpandNames(nodes, names, k), base) ==
            if base in names then GroupNames(base, nodes[base]) else []
    decreases |names|
  {
    hide Mac, InstanceName;
    if names != [] {
      TailDistinct(names);
      var rest, k' := names[1..], k + GroupSize(nodes[names[0]]);
      NamesOfBaseExpanded(nodes, rest, k', base);
      NamesOfBaseFirst(nodes, names, k, base);
      assert base in names <==> base == names[0] || base in rest;
    }
  }

  /** Grouping the expansion by base gives each node its own instances. */
  lemma NamesOfBaseIsGroup(t: Topology, base: string)
    ensures NamesOfBase(Expansion(t), base) == BaseNames(t, base)
  {
    SortedNamesDistinct(t);
    NamesOfBaseExpanded(t.nodes, SortedSet(t.nodes.Keys), 0, base);
  }

  // ----- the loops of the source -----------------------------------------

  type ByBase = map<string, seq<string>>

  function At(m: ByBase, base: string): seq<string> { if base in m then m[base] else [] }

  method GroupByBase(instances: seq<Instance>) returns (byBase: ByBase)
    ensures forall b :: At(byBase, b) == NamesOfBase(instances, b)
  {
    byBase := map[];
    for i := 0 to |instances|
      invariant forall b :: At(byBase, b) == NamesOfBase(instances[..i], b)
    {
      var inst := instances[i];
      assert instances[..i + 1][..i] == instances[..i];
      byBase := byBase[inst.base := At(byBase, inst.base) + [inst.name]];
    }
    assert instances[..|instances|] == instances;
  }

  method CollectMembers(t: Topology, byBase: ByBase, members: seq<string>) returns (names: seq<string>)
    requires forall b :: At(byBase, b) == BaseNames(t, b)
    ensures names == MemberNames(t, members)
  {
    names := [];
    for i := 0 to |members|
      invariant names == MemberNames(t, members[..i])
    {
      assert members[..i + 1] == members[..i] + [members[i]];
      MemberNamesSnoc(t, members[..i], members[i]);
      names := names + At(byBase, members[i]);
    }
    assert members[..|members|] == members;
  }

  lemma {:induction false} MemberNamesSnoc(t: Topology, members: seq<string>, m: string)
    ensures MemberNames(t, members + [m]) == MemberNames(t, members) + BaseNames(t, m)
  {
    if members == [] {
      assert members + [m] == [m];
      assert MemberNames(t, [m]) == BaseNames(t, m) + [];
    } else {
      assert (members + [m])[1..] == members[1..] + [m];
      MemberNamesSnoc(t, members[1..], m);
    }
  }

  method TapLoop(bridge: string, names: seq<string>, k: nat, net: Option<Net>)
    returns (taps: seq<Tap>, k': nat)
    ensures taps == LinkTaps(bridge, names, k, net) && k' == k + |names|
  {
    hide Mac, TapName, Address;
    ghost var all := LinkTaps(bridge, names, k, net);
    taps, k' := [], k;
    for i := 0 to |names|
      invariant k' == k + i && taps == all[..i]
    {
      k' := k' + 1;
      taps := taps + [MakeTap(k', bridge, names[i], net, i)];
      assert all[..i + 1] == all[..i] + [all[i]];
    }
  }

  method Plan(t: Topology, parse: CidrParser) returns (r: Result<NetPlan, string>)
    ensures r == PlanOf(t, parse)
  {
    hide Mac, TapName, Address, BridgeName;
    var instances := Expand(t);
    var byBase := GroupByBase(instances);
    forall b ensures At(byBase, b) == BaseNames(t, b) { NamesOfBaseIsGroup(t, b); }
    var bridges: seq<Bridge>, taps: seq<Tap>, k := [], [], 0;
    assert t.links[0..] == t.links;
    PrependNothing(PlanOf(t, parse));
    for i := 0 to |t.links|
      invariant PlanOf(t, parse) == Prepend(bridges, taps, PlanLinks(t, parse, t.links[i..], k))
    {
      var l := t.links[i];
      assert t.links[i..][0] == l && t.links[i..][1..] == t.links[i + 1..];
      var br := BridgeName(l.name);
      var names := CollectMembers(t, byBase, l.members);
      if l.subnet != "" && parse(l.subnet) == None { return Err(l.name); }
      var more, k' := TapLoop(br, names, k, NetOf(parse, l));
      ghost var rest := PlanLinks(t, parse, t.links[i + 1..], k');
      PrependTwice(bridges, taps, [Bridge(br, l.name, l.subnet)], more, rest);
      bridges := bridges + [Bridge(br, l.name, l.subnet)];
      taps, k := taps + more, k';
    }
    assert t.links[|t.links|..] == [];
    assert bridges + [] == bridges && taps + [] == taps;
    r := Ok(NetPlan(bridges, taps));
  }

  lemma PrependNothing(rest: Result<NetPlan, string>)
    ensures Prepend([], [], rest) == rest
  {
    if rest.Ok? {
      assert [] + rest.value.bridges == rest.value.bridges;
      assert [] + rest.value.taps == rest.value.taps;
    }
  }

  lemma PrependTwice(b1: seq<Bridge>, t1: seq<Tap>, b2: seq<Bridge>, t2: seq<Tap>,
                     rest: Result<NetPlan, string>)
    ensures Prepend(b1, t1, Prepend(b2, t2, rest)) == Prepend(b1 + b2, t1 + t2, rest)
  {
    if rest.Ok? {
      assert b1 + (b2 + rest.value.bridges) == b1 + b2 + rest.value.bridges;
      assert t1 + (t2 + rest.value.taps) == t1 + t2 + rest.value.taps;
    }
  }
}
