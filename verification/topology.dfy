/** The topology model: `Validate` and `Expand`. */
module Topologies {
  import opened Results
  import opened ByteStrings
  import opened Decimal
  import opened IPv4
  import opened MacAddress

  datatype Node = Node(driver: string, kernel: string, arch: string, cpu: int, mem: string,
                       profile: string, count: int)

  datatype Link = Link(name: string, members: seq<string>, subnet: string)

  datatype Topology = Topology(name: string, nodes: map<string, Node>, links: seq<Link>)

  /** What `net.ParseCIDR` yields: an IPv4 address and prefix length, or the printed
      IPv6 network address and its prefix length. */
  datatype Net = V4(addr: Word32, ones: PrefixLength) | V6(base: IPv6Text, ones6: nat)

  type CidrParser = string -> Option<Net>

  // ----- Validate --------------------------------------------------------

  datatype Problem =
    | NameMissing | NoNodes
    | DriverMissing(node: string) | ArchMissing(node: string) | NegativeCount(node: string)
    | LinkNameMissing | DuplicateLink(link: string) | NoMembers(link: string)
    | UnknownNode(link: string, node: string) | BadSubnet(link: string)

  predicate GoodNode(n: Node) { n.driver != "" && n.arch != "" && n.count >= 0 }

  predicate GoodLink(t: Topology, parse: CidrParser, l: Link) {
    && l.name != "" && l.members != []
    && (forall m :: m in l.members ==> m in t.nodes)
    && (l.subnet == "" || parse(l.subnet).Some?)
  }

  /** The structural rules of a topology. */
  predicate WellFormed(t: Topology, parse: CidrParser) {
    && t.name != "" && t.nodes != map[]
    && (forall n :: n in t.nodes ==> GoodNode(t.nodes[n]))
    && (forall i :: 0 <= i < |t.links| ==> GoodLink(t, parse, t.links[i]))
    && (forall i, j :: 0 <= i < j < |t.links| ==> t.links[i].name != t.links[j].name)
  }

  /** The reported problem is really there. */
  predicate Present(t: Topology, parse: CidrParser, p: Problem) {
    match p
    case NameMissing => t.name == ""
    case NoNodes => t.nodes == map[]
    case DriverMissing(n) => n in t.nodes && t.nodes[n].driver == ""
    case ArchMissing(n) => n in t.nodes && t.nodes[n].arch == ""
    case NegativeCount(n) => n in t.nodes && t.nodes[n].count < 0
    case LinkNameMissing => exists i :: 0 <= i < |t.links| && t.links[i].name == ""
    case DuplicateLink(l) =>
      exists i, j :: 0 <= i < j < |t.links| && t.links[i].name == l && t.links[j].name == l
    case NoMembers(l) => exists i :: 0 <= i < |t.links| && t.links[i].name == l && t.links[i].members == []
    case UnknownNode(l, m) =>
      m !in t.nodes && exists i :: 0 <= i < |t.links| && t.links[i].name == l && m in t.links[i].members
    case BadSubnet(l) =>
      exists i :: 0 <= i < |t.links| && t.links[i].name == l && t.links[i].subnet != "" &&
                  parse(t.links[i].subnet) == None
  }

  /** A topology is well-formed if and only if it has none of the problems. */
  lemma NoProblemIff(t: Topology, parse: CidrParser)
    ensures WellFormed(t, parse) <==> forall p :: !Present(t, parse, p)
  {
    if !WellFormed(t, parse) { var p := SomeProblem(t, parse); }
    if WellFormed(t, parse) {
      forall p ensures !Present(t, parse, p) {
        assert forall i :: 0 <= i < |t.links| ==> GoodLink(t, parse, t.links[i]);
      }
    }
  }

  lemma SomeProblem(t: Topology, parse: CidrParser) returns (p: Problem)
    requires !WellFormed(t, parse)
    ensures Present(t, parse, p)
  {
    if t.name == "" { return NameMissing; }
    if t.nodes == map[] { return NoNodes; }
    if n :| n in t.nodes && !GoodNode(t.nodes[n]) {
      return if t.nodes[n].driver == "" then DriverMissing(n)
             else if t.nodes[n].arch == "" then ArchMissing(n) else NegativeCount(n);
    }
    if i :| 0 <= i < |t.links| && !GoodLink(t, parse, t.links[i]) {
      var l := t.links[i];
      if l.name == "" { return LinkNameMissing; }
      if l.members == [] { return NoMembers(l.name); }
      if m :| m in l.members && m !in t.nodes { return UnknownNode(l.name, m); }
      return BadSubnet(l.name);
    }
    var i, j :| 0 <= i < j < |t.links| && t.links[i].name == t.links[j].name;
    return DuplicateLink(t.links[i].name);
  }

  method ValidateNodes(t: Topology, parse: CidrParser) returns (err: Option<Problem>)
    ensures err == None <==> forall n :: n in t.nodes ==> GoodNode(t.nodes[n])
    ensures err.Some? ==> Present(t, parse, err.value)
  {
    var names := KeysOf(t.nodes);
    for i := 0 to |names|
      invariant forall j :: 0 <= j < i ==> GoodNode(t.nodes[names[j]])
    {
      var name := names[i];
      assert name in t.nodes;
      var n := t.nodes[name];
      if n.driver == "" { return Some(DriverMissing(name)); }
      if n.arch == "" { return Some(ArchMissing(name)); }
      if n.count < 0 { return Some(NegativeCount(name)); }
    }
    return None;
  }

  method ValidateLink(t: Topology, parse: CidrParser, i: nat, seen: set<string>)
    returns (err: Option<Problem>)
    requires i < |t.links|
    requires forall n :: n in seen <==> exists j :: 0 <= j < i && t.links[j].name == n
    ensures err == None <==>
              GoodLink(t, parse, t.links[i]) && forall j :: 0 <= j < i ==> t.links[j].name != t.links[i].name
    ensures err.Some? ==> Present(t, parse, err.value)
  {
    var l := t.links[i];
    if l.name == "" { return Some(LinkNameMissing); }
    if l.name in seen { return Some(DuplicateLink(l.name)); }
    if |l.members| == 0 { return Some(NoMembers(l.name)); }
    for k := 0 to |l.members|
      invariant forall j :: 0 <= j < k ==> l.members[j] in t.nodes
    {
      if l.members[k] !in t.nodes { return Some(UnknownNode(l.name, l.members[k])); }
    }
    if l.subnet != "" && parse(l.subnet) == None { return Some(BadSubnet(l.name)); }
    return None;
  }

  /** `Validate` accepts exactly the well-formed topologies, whatever order the node
      map is ranged over, and what it reports is there. */
  method Validate(t: Topology, parse: CidrParser) returns (err: Option<Problem>)
    ensures err == None <==> WellFormed(t, parse)
    ensures err.Some? ==> Present(t, parse, err.value)
  {
    if t.name == "" { return Some(NameMissing); }
    if |t.nodes| == 0 { return Some(NoNodes); }
    err := ValidateNodes(t, parse);
    if err.Some? { return; }
    var seen := {};
    for i := 0 to |t.links|
      invariant forall n :: n in seen <==> exists j :: 0 <= j < i && t.links[j].name == n
      invariant forall j :: 0 <= j < i ==> GoodLink(t, parse, t.links[j])
      invariant forall j, k :: 0 <= j < k < i ==> t.links[j].name != t.links[k].name
    {
      err := ValidateLink(t, parse, i, seen);
      if err.Some? { return; }
      seen := seen + {t.links[i].name};
    }
    err := None;
  }

  // ----- Expand ----------------------------------------------------------

  datatype Instance = Instance(name: string, base: string, node: Node, mac: string)

  predicate Counted(n: Node) { n.count >= 1 }

  function GroupSize(n: Node): (k: nat)
    ensures k >= 1
  {
    if Counted(n) then n.count else 1
  }

  /** A count of one already numbers the instance: only `count < 1` keeps the name. */
  function InstanceName(base: string, n: Node, i: nat): string {
    if Counted(n) then base + "-" + Dec(i) else base
  }

  function GroupNames(base: string, n: Node): (names: seq<string>)
    ensures |names| == GroupSize(n)
    ensures forall i :: 0 <= i < |names| ==> names[i] == InstanceName(base, n, i)
  {
    seq(GroupSize(n), i requires 0 <= i => InstanceName(base, n, i))
  }

  /** The instances of one node; `k` instances come before them. */
  function Group(base: string, n: Node, k: nat): (g: seq<Instance>)
    ensures |g| == GroupSize(n)
  {
    seq(GroupSize(n), i requires 0 <= i =>
      Instance(InstanceName(base, n, i), base, n.(count := 0), Mac(k + i + 1)))
  }

  function ExpandNames(nodes: map<string, Node>, names: seq<string>, k: nat): seq<Instance>
    requires forall n :: n in names ==> n in nodes
    decreases |names|
  {
    if names == [] then []
    else
      assert names[0] in names;
      Group(names[0], nodes[names[0]], k)
      + ExpandNames(nodes, names[1..], k + GroupSize(nodes[names[0]]))
  }

  ghost function Expansion(t: Topology): seq<Instance> {
    ExpandNames(t.nodes, SortedSet(t.nodes.Keys), 0)
  }

  lemma {:induction false} ExpandSnoc(nodes: map<string, Node>, names: seq<string>, name: string, k: nat)
    requires name in nodes && forall n :: n in names ==> n in nodes
    ensures ExpandNames(nodes, names + [name], k) ==
            ExpandNames(nodes, names, k)
            + Group(name, nodes[name], k + |ExpandNames(nodes, names, k)|)
    decreases |names|
  {
    hide Mac, InstanceName;
    if names == [] {
      assert names + [name] == [name];
      assert ExpandNames(nodes, [name], k) == Group(name, nodes[name], k) + [];
      assert ExpandNames(nodes, [name], k) == Group(name, nodes[name], k);
    } else {
      assert names[0] in names;
      assert (names + [name])[1..] == names[1..] + [name];
      ExpandSnoc(nodes, names[1..], name, k + GroupSize(nodes[names[0]]));
    }
  }

  /** The instances and counter that the closure `add` of the source updates. */
  class Expander {
    var out: seq<Instance>
    var count: nat

    constructor ()
      ensures out == [] && count == 0
    {
      out, count := [], 0;
    }

    method Add(name: string, base: string, n: Node)
      modifies this
      ensures count == old(count) + 1
      ensures out == old(out) + [Instance(name, base, n.(count := 0), Mac(count))]
    {
      hide Mac;
      count := count + 1;
      out := out + [Instance(name, base, n.(count := 0), Mac(count))];
    }

    method AddGroup(base: string, n: Node)
      modifies this
      ensures count == old(count) + GroupSize(n)
      ensures out == old(out) + Group(base, n, old(count))
    {
      hide Mac;
      var group := Group(base, n, count);
      if n.count < 1 {
        Add(base, base, n);
        assert group == [Instance(base, base, n.(count := 0), Mac(count))];
      } else {
        for i := 0 to n.count
          invariant count == old(count) + i
          invariant out == old(out) + group[..i]
        {
          Add(base + "-" + Dec(i), base, n);
          assert group[..i + 1] == group[..i] + [group[i]];
        }
        assert group[..n.count] == group;
      }
    }
  }

  /** `Expand`: deterministic although the map is ranged over in any order. */
  method Expand(t: Topology) returns (out: seq<Instance>)
    ensures out == Expansion(t)
  {
    hide Mac, InstanceName, Group, LexLess, StrictlyIncreasing, SortedSet;
    var names := KeysOf(t.nodes);
    names := Sort(names);
    IncreasingUnique(names, SortedSet(t.nodes.Keys));
    var e := new Expander();
    for i := 0 to |names|
      invariant e.out == ExpandNames(t.nodes, names[..i], 0)
      invariant e.count == |e.out|
    {
      assert names[i] in names;
      assert names[..i + 1] == names[..i] + [names[i]];
      ExpandSnoc(t.nodes, names[..i], names[i], 0);
      e.AddGroup(names[i], t.nodes[names[i]]);
    }
    assert names[..|names|] == names;
    out := e.out;
  }

  // ----- where each instance stands --------------------------------------

  /** How many instances a node has. */
  function Copies(n: Node): nat { if n.count >= 1 then n.count else 1 }

  /** How many instances the first `p` of `names` have. */
  function CopiesBefore(nodes: map<string, Node>, names: seq<string>, p: nat): nat
    requires p <= |names|
    decreases p
  {
    if p == 0 then 0
    else (if names[0] in nodes then Copies(nodes[names[0]]) else 0) + CopiesBefore(nodes, names[1..], p - 1)
  }

  /** The instance is number `i` of its node: the node's own name if it is not counted, else
      that name, a dash, and the number. */
  ghost predicate IsCopy(name: string, base: string, n: Node, i: nat) {
    i < Copies(n) &&
    if n.count < 1 then name == base else exists d :: Denotes(d, i) && name == base + "-" + d
  }

  lemma NameIsCopy(base: string, n: Node, i: nat)
    requires i < Copies(n)
    ensures IsCopy(InstanceName(base, n, i), base, n, i)
  {
    hide Dec, Denotes;
    DecDenotes(i);
  }

  lemma {:induction false} ExpandNamesAt(nodes: map<string, Node>, names: seq<string>, k: nat, p: nat, i: nat)
    requires forall n :: n in names ==> n in nodes
    requires p < |names| && i < Copies(nodes[names[p]])
    ensures var all, at := ExpandNames(nodes, names, k), CopiesBefore(nodes, names, p) + i;
            && at < |all|
            && all[at] == Instance(InstanceName(names[p], nodes[names[p]], i), names[p],
                                   nodes[names[p]].(count := 0), Mac(k + at + 1))
    decreases p
  {
    hide Mac, InstanceName;
    assert names[0] in names;
    var first := Group(names[0], nodes[names[0]], k);
    if p > 0 {
      ExpandNamesAt(nodes, names[1..], k + GroupSize(nodes[names[0]]), p - 1, i);
      assert names[1..][p - 1] == names[p];
      var rest := ExpandNames(nodes, names[1..], k + |first|);
      assert ExpandNames(nodes, names, k) == first + rest;
    }
  }

  /** Node names in increasing order, then numbers: instance `i` of the `p`th node stands
      after all instances of the nodes before it, has the node's description without its
      count, and the address with the number of its place, counted from 1. */
  lemma ExpansionAt(t: Topology, names: seq<string>, p: nat, i: nat)
    requires StrictlyIncreasing(names) && forall n :: n in names <==> n in t.nodes
    requires p < |names| && i < Copies(t.nodes[names[p]])
    ensures var all, at := Expansion(t), CopiesBefore(t.nodes, names, p) + i;
            var base := names[p];
            && at < |all| && all[at].base == base && all[at].node == t.nodes[base].(count := 0)
            && IsCopy(all[at].name, base, t.nodes[base], i)
            && NumberedMac(all[at].mac, at + 1)
  {
    hide Mac, InstanceName, IsCopy, ExpandNames, NumberedMac;
    MacIsNumbered(CopiesBefore(t.nodes, names, p) + i + 1);
    IncreasingUnique(names, SortedSet(t.nodes.Keys));
    ExpandNamesAt(t.nodes, names, 0, p, i);
    NameIsCopy(names[p], t.nodes[names[p]], i);
  }

  lemma {:induction false} ExpandNamesCount(nodes: map<string, Node>, names: seq<string>, k: nat)
    requires forall n :: n in names ==> n in nodes
    ensures |ExpandNames(nodes, names, k)| == CopiesBefore(nodes, names, |names|)
    decreases |names|
  {
    hide Mac, InstanceName;
    if names != [] {
      assert names[0] in names;
      ExpandNamesCount(nodes, names[1..], k + GroupSize(nodes[names[0]]));
    }
  }

  /** There are no other instances. */
  lemma ExpansionCount(t: Topology, names: seq<string>)
    requires StrictlyIncreasing(names) && forall n :: n in names <==> n in t.nodes
    ensures |Expansion(t)| == CopiesBefore(t.nodes, names, |names|)
  {
    hide ExpandNames, CopiesBefore;
    IncreasingUnique(names, SortedSet(t.nodes.Keys));
    ExpandNamesCount(t.nodes, names, 0);
  }

  // ----- distinct names --------------------------------------------------

  function NamesOf(instances: seq<Instance>): (names: seq<string>)
    ensures |names| == |instances|
    ensures forall i :: 0 <= i < |names| ==> names[i] == instances[i].name
  {
    seq(|instances|, i requires 0 <= i < |instances| => instances[i].name)
  }

  /** The dash before the number is the last one. */
  lemma LastDash(b: string, i: nat)
    ensures var s := b + "-" + Dec(i);
            s[|b|] == '-' && forall p :: |b| < p < |s| ==> s[p] != '-'
  {
    var s := b + "-" + Dec(i);
    forall p | |b| < p < |s| ensures s[p] != '-' {
      assert s[p] == Dec(i)[p - |b| - 1] && Dec(i)[p - |b| - 1] in Dec(i);
    }
  }

  /** Two counted groups never share a name: the last dash splits it. */
  lemma CountedNameUnique(b: string, i: nat, c: string, j: nat)
    requires b + "-" + Dec(i) == c + "-" + Dec(j)
    ensures b == c && i == j
  {
    var s := b + "-" + Dec(i);
    LastDash(b, i);
    LastDash(c, j);
    assert s == c + "-" + Dec(j);
    assert |b| == |c|;
    assert b == s[..|b|] && c == s[..|c|];
    assert Dec(i) == s[|b| + 1..] && Dec(j) == s[|c| + 1..];
    DecInjective(i, j);
  }

  /** The node `u` takes a name of the counted group `c`. */
  ghost predicate Clash(nodes: map<string, Node>, u: string, c: string) {
    && u in nodes && c in nodes && !Counted(nodes[u]) && Counted(nodes[c])
    && exists i: nat :: i < nodes[c].count && u == c + "-" + Dec(i)
  }

  lemma GroupsClashIff(nodes: map<string, Node>, b: string, c: string)
    requires b in nodes && c in nodes && b != c
    ensures (exists i: nat, j: nat :: i < GroupSize(nodes[b]) && j < GroupSize(nodes[c]) &&
               InstanceName(b, nodes[b], i) == InstanceName(c, nodes[c], j))
            <==> Clash(nodes, b, c) || Clash(nodes, c, b)
  {
    if Counted(nodes[b]) && Counted(nodes[c]) {
      forall i: nat, j: nat ensures InstanceName(b, nodes[b], i) != InstanceName(c, nodes[c], j) {
        if InstanceName(b, nodes[b], i) == InstanceName(c, nodes[c], j) { CountedNameUnique(b, i, c, j); }
      }
    } else if Counted(nodes[c]) {
      if Clash(nodes, b, c) {
        var j: nat :| j < nodes[c].count && b == c + "-" + Dec(j);
        assert InstanceName(b, nodes[b], 0) == InstanceName(c, nodes[c], j);
      }
    } else if Counted(nodes[b]) {
      if Clash(nodes, c, b) {
        var i: nat :| i < nodes[b].count && c == b + "-" + Dec(i);
        assert InstanceName(b, nodes[b], i) == InstanceName(c, nodes[c], 0);
      }
    } else {
      assert InstanceName(b, nodes[b], 0) == b && InstanceName(c, nodes[c], 0) == c;
    }
  }

  /** The names alone, without the counter that numbers the instances. */
  function ExpandedNames(nodes: map<string, Node>, names: seq<string>): seq<string>
    requires forall n :: n in names ==> n in nodes
    decreases |names|
  {
    if names == [] then []
    else
      assert names[0] in names;
      GroupNames(names[0], nodes[names[0]]) + ExpandedNames(nodes, names[1..])
  }

  lemma NamesOfConcat(a: seq<Instance>, b: seq<Instance>)
    ensures NamesOf(a + b) == NamesOf(a) + NamesOf(b)
  {
    hide Mac;
  }

  lemma NamesOfGroup(b: string, n: Node, k: nat)
    ensures NamesOf(Group(b, n, k)) == GroupNames(b, n)
  {
    hide Mac, InstanceName;
    assert forall i :: 0 <= i < GroupSize(n) ==> Group(b, n, k)[i].name == InstanceName(b, n, i);
  }

  lemma {:induction false} NamesOfExpandNames(nodes: map<string, Node>, names: seq<string>, k: nat)
    requires forall n :: n in names ==> n in nodes
    ensures NamesOf(ExpandNames(nodes, names, k)) == ExpandedNames(nodes, names)
    decreases |names|
  {
    hide Mac, InstanceName, Group, GroupNames, NamesOf;
    if names != [] {
      assert names[0] in names;
      var b, n := names[0], nodes[names[0]];
      var g, tail := Group(b, n, k), ExpandNames(nodes, names[1..], k + GroupSize(n));
      assert ExpandNames(nodes, names, k) == g + tail;
      NamesOfConcat(g, tail);
      NamesOfGroup(b, n, k);
      NamesOfExpandNames(nodes, names[1..], k + GroupSize(n));
    }
  }

  lemma GroupedName(b: string, n: Node, x: string)
    ensures x in GroupNames(b, n) <==> exists i: nat :: i < GroupSize(n) && x == InstanceName(b, n, i)
  {
    hide InstanceName;
    if i: nat :| i < GroupSize(n) && x == InstanceName(b, n, i) { assert GroupNames(b, n)[i] == x; }
  }

  /** `x` is a name of one of the groups `names`. */
  ghost predicate NamedIn(nodes: map<string, Node>, names: seq<string>, x: string)
    requires forall n :: n in names ==> n in nodes
  {
    exists b, i: nat :: b in names && i < GroupSize(nodes[b]) && x == InstanceName(b, nodes[b], i)
  }

  lemma {:induction false} ExpandedName(nodes: map<string, Node>, names: seq<string>, x: string)
    requires forall n :: n in names ==> n in nodes
    ensures x in ExpandedNames(nodes, names) <==> NamedIn(nodes, names, x)
    decreases |names|
  {
    hide InstanceName;
    if names != [] {
      assert names[0] in names;
      assert forall b :: b in names <==> b == names[0] || b in names[1..];
      GroupedName(names[0], nodes[names[0]], x);
      ExpandedName(nodes, names[1..], x);
    }
  }

  lemma GroupNamesDistinct(b: string, n: Node)
    ensures NoDuplicates(GroupNames(b, n))
  {
    var names := GroupNames(b, n);
    forall i, j | 0 <= i < j < |names| ensures names[i] != names[j] {
      if names[i] == names[j] { CountedNameUnique(b, i, b, j); }
    }
  }

  ghost predicate Apart(a: seq<string>, b: seq<string>) { forall x :: !(x in a && x in b) }

  lemma NoDuplicatesConcat(a: seq<string>, b: seq<string>)
    ensures NoDuplicates(a + b) <==>
            NoDuplicates(a) && NoDuplicates(b) && Apart(a, b)
  {
    var s := a + b;
    if NoDuplicates(s) {
      forall i, j | 0 <= i < j < |a| ensures a[i] != a[j] { assert s[i] != s[j]; }
      forall i, j | 0 <= i < j < |b| ensures b[i] != b[j] { assert s[|a| + i] != s[|a| + j]; }
      forall i, j | 0 <= i < |a| && 0 <= j < |b| ensures a[i] != b[j] { assert s[i] != s[|a| + j]; }
    }
    if NoDuplicates(a) && NoDuplicates(b) && Apart(a, b) {
      forall i, j | 0 <= i < j < |s| ensures s[i] != s[j] {
        if i < |a| <= j { assert s[i] in a && s[j] == b[j - |a|] && s[j] in b; }
        else if |a| <= i { assert b[i - |a|] != b[j - |a|]; }
      }
    }
  }

  ghost predicate NoClash(nodes: map<string, Node>, names: seq<string>) {
    forall u, c :: u in names && c in names ==> !Clash(nodes, u, c)
  }

  ghost predicate NoClashWith(nodes: map<string, Node>, b: string, rest: seq<string>) {
    forall c :: c in rest ==> !Clash(nodes, b, c) && !Clash(nodes, c, b)
  }

  lemma ClashSplit(nodes: map<string, Node>, names: seq<string>)
    requires names != []
    ensures NoClash(nodes, names) <==>
            NoClash(nodes, names[1..]) && NoClashWith(nodes, names[0], names[1..])
  {
    assert names[0] in names;
    assert forall c :: c in names <==> c == names[0] || c in names[1..];
    assert !Clash(nodes, names[0], names[0]);
  }

  /** The first group shares no name with the others unless nodes clash. */
  lemma FirstGroupApart(nodes: map<string, Node>, b: string, rest: seq<string>)
    requires b in nodes && b !in rest && forall n :: n in rest ==> n in nodes
    ensures Apart(GroupNames(b, nodes[b]), ExpandedNames(nodes, rest)) <==> NoClashWith(nodes, b, rest)
  {
    hide InstanceName, Clash;
    var first, others := GroupNames(b, nodes[b]), ExpandedNames(nodes, rest);
    if x :| x in first && x in others {
      ExpandedName(nodes, rest, x);
      GroupedName(b, nodes[b], x);
      var c, j: nat :| c in rest && j < GroupSize(nodes[c]) && x == InstanceName(c, nodes[c], j);
      GroupsClashIff(nodes, b, c);
    } else {
      forall c | c in rest ensures !Clash(nodes, b, c) && !Clash(nodes, c, b) {
        GroupsClashIff(nodes, b, c);
        if i: nat, j: nat :| (i < GroupSize(nodes[b]) && j < GroupSize(nodes[c]) &&
                              InstanceName(b, nodes[b], i) == InstanceName(c, nodes[c], j)) {
          var x := InstanceName(b, nodes[b], i);
          GroupedName(b, nodes[b], x);
          ExpandedName(nodes, rest, x);
        }
      }
    }
  }

  lemma TailDistinct(names: seq<string>)
    requires NoDuplicates(names) && names != []
    ensures NoDuplicates(names[1..]) && names[0] !in names[1..] && names[0] in names
  {
  }

  lemma {:induction false} DistinctFrom(nodes: map<string, Node>, names: seq<string>)
    requires NoDuplicates(names) && forall n :: n in names ==> n in nodes
    ensures NoDuplicates(ExpandedNames(nodes, names)) <==> NoClash(nodes, names)
    decreases |names|
  {
    hide Clash, InstanceName;
    if names != [] {
      var b, rest := names[0], names[1..];
      TailDistinct(names);
      DistinctFrom(nodes, rest);
      GroupNamesDistinct(b, nodes[b]);
      FirstGroupApart(nodes, b, rest);
      NoDuplicatesConcat(GroupNames(b, nodes[b]), ExpandedNames(nodes, rest));
      ClashSplit(nodes, names);
    }
  }

  lemma SortedNamesDistinct(t: Topology)
    ensures NoDuplicates(SortedSet(t.nodes.Keys))
  {
    var names := SortedSet(t.nodes.Keys);
    forall i, j | 0 <= i < j < |names| ensures names[i] != names[j] { LexIrreflexive(names[i]); }
  }

  /** Instance names are pairwise distinct if and only if no uncounted node is named
      like a member of a counted group. */
  lemma NamesDistinctIff(t: Topology)
    ensures NoDuplicates(NamesOf(Expansion(t))) <==>
            forall u, c :: u in t.nodes && c in t.nodes ==> !Clash(t.nodes, u, c)
  {
    SortedNamesDistinct(t);
    DistinctFrom(t.nodes, SortedSet(t.nodes.Keys));
    NamesOfExpandNames(t.nodes, SortedSet(t.nodes.Keys), 0);
  }
}
