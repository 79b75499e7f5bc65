/** What a realized plan means for each tap, and when a plan can be realized. */
module ClusterTheorems {
  import opened Results
  import opened ByteStrings
  import opened Decimal
  import opened MacAddress
  import opened Topologies
  import opened NetPlans
  import opened PlanTheorems
  import opened BootSpecs
  import opened BootCommand
  import opened BootReader
  import opened QemuOptions
  import opened ShellWords
  import opened ScriptWords
  import opened PlanWords
  import opened Paths
  import opened Hosts
  import opened ClusterSpecs
  import opened Clusters

  // ----- every tap on exactly one command line ---------------------------

  /** The network cards of the machine that QEMU reads for an instance. */
  function CardsOfInstance(c: Cluster, inst: Instance, taps: seq<Tap>): seq<Card>
    requires Fit(c.image, c.caps, inst)
  {
    var spec := SpecFor(c.home, c.image, c.caps, inst, NicsFor(taps, inst.name));
    match Launched(spec, ConsoleOf(Dir(spec.rootfsRW)))
    case None => []
    case Some(m) => m.cards
  }

  /** Read back from its command line, an instance has a card on a planned tap, with
      that tap's address, at exactly one place if the tap is the node's, and nowhere
      otherwise; the places of a node's taps follow the plan's order. */
  lemma TapOnOneCommandLine(c: Cluster, inst: Instance, plan: NetPlan, j: nat)
    requires Sound(plan) && j < |plan.taps|
    requires Fit(c.image, c.caps, inst) && c.image(inst.node.kernel) != Some("-nographic")
    ensures var t, cards := plan.taps[j], CardsOfInstance(c, inst, plan.taps);
            var r := Rank(plan.taps, j);
            && (inst.name == t.node ==> r < |cards| && cards[r] == Card(Some(t.name), t.mac))
            && forall k :: 0 <= k < |cards| && cards[k].tap == Some(t.name) ==> inst.name == t.node && k == r
  {
    hide Launched, RunDir, Dir, OwnTaps, Rank, Fit, TapWord, AmongBridges, CommaFreeTaps, CommaFree, PathRead;
    var taps := plan.taps;
    var t, cards := taps[j], CardsOfInstance(c, inst, taps);
    var spec := SpecFor(c.home, c.image, c.caps, inst, NicsFor(taps, inst.name));
    NicsCommaFree(taps, inst.name);
    LaunchedAs(spec, ConsoleOf(Dir(spec.rootfsRW)));
    assert cards == CardsOf(NicsFor(taps, inst.name));
    if inst.name == t.node { OwnAtRank(taps, j); }
    forall k | 0 <= k < |cards| && cards[k].tap == Some(t.name) ensures inst.name == t.node && k == Rank(taps, j) {
      OwnerOfName(plan, inst.name, k, j);
    }
  }

  lemma OwnerOfName(plan: NetPlan, node: string, k: nat, j: nat)
    requires Sound(plan) && j < |plan.taps| && k < |OwnTaps(plan.taps, node)|
    requires OwnTaps(plan.taps, node)[k].name == plan.taps[j].name
    ensures plan.taps[j].node == node && Rank(plan.taps, j) == k
  {
    var i := OwnIsRanked(plan.taps, node, k);
    assert TapNames(plan.taps)[i] == TapNames(plan.taps)[j];
    assert i == j;
  }

  /** Cards follow the plan's order. */
  lemma {:induction false} RanksInOrder(taps: seq<Tap>, i: nat, j: nat)
    requires i < j < |taps| && taps[i].node == taps[j].node
    ensures Rank(taps, i) < Rank(taps, j)
  {
    OwnAtRank(taps, i);
    OwnPrefix(taps[..j], i + 1, taps[i].node);
    assert taps[..j][..i + 1] == taps[..i + 1];
  }

  function CardCount(taps: seq<Tap>, names: seq<string>): nat {
    if names == [] then 0 else |OwnTaps(taps, names[0])| + CardCount(taps, names[1..])
  }

  /** Over instances with distinct names no interface is lost and none is given twice:
      the nodes have as many cards as the plan has taps. */
  lemma {:induction false} CardsConserved(taps: seq<Tap>, names: seq<string>)
    requires NoDuplicates(names) && forall j :: 0 <= j < |taps| ==> taps[j].node in names
    ensures CardCount(taps, names) == |taps|
    decreases |taps|
  {
    if taps == [] {
      NoCardsWithoutTaps(names);
    } else {
      var front := taps[..|taps| - 1];
      CardsConserved(front, names);
      CountOneMore(front, taps[|taps| - 1], names);
      assert front + [taps[|taps| - 1]] == taps;
    }
  }

  lemma {:induction false} NoCardsWithoutTaps(names: seq<string>)
    ensures CardCount([], names) == 0
  {
    if names != [] { NoCardsWithoutTaps(names[1..]); }
  }

  lemma {:induction false} CountOneMore(taps: seq<Tap>, t: Tap, names: seq<string>)
    requires NoDuplicates(names)
    ensures CardCount(taps + [t], names) == CardCount(taps, names) + (if t.node in names then 1 else 0)
    decreases |names|
  {
    if names != [] {
      TailDistinct(names);
      assert (taps + [t])[..|taps|] == taps;
      CountOneMore(taps, t, names[1..]);
      assert t.node in names <==> t.node == names[0] || t.node in names[1..];
    }
  }

  // ----- a realized plan, tap by tap -------------------------------------

  /** In a realized plan the interface on a tap belongs to the only process of the
      tap's node, and carries the tap's address and no other; the tap is on its bridge. */
  lemma TapRealized(c: Cluster, t: Topology, parse: CidrParser, h: HostState, j: nat) returns (pid: nat)
    requires PlanOf(t, parse).Ok? && j < |PlanOf(t, parse).value.taps|
    requires c.Realized(t, PlanOf(t, parse).value, h)
    ensures var plan := PlanOf(t, parse).value;
            var tap, r := plan.taps[j], Rank(plan.taps, j);
            && tap.bridge in h.links && h.links[tap.bridge].kind == BridgeKind
            && tap.name in h.links && h.links[tap.name] == HostLink(TapKind, Some(tap.bridge))
            && OnlyProc(h.procs, RunDir(c.home, tap.node), pid)
            && r < |h.procs[pid].ifaces|
            && h.procs[pid].ifaces[r] == Iface(Card(Some(tap.name), tap.mac), if tap.ip == "" then {} else {tap.ip})
  {
    hide RunDir, OwnTaps, Rank, PlanOf, Expansion, Ready, TapWord, Wired, Sound, SetupFor;
    var plan := PlanOf(t, parse).value;
    var taps := plan.taps;
    var tap := taps[j];
    PlanIsSound(t, parse);
    TapWired(plan, h.links, j);
    var i :| 0 <= i < |Expansion(t)| && NamesOf(Expansion(t))[i] == tap.node;
    var p := NodeProc(c.home, c.image, taps, |taps|, Expansion(t)[i]);
    assert Running(h.procs, p);
    pid :| OnlyProc(h.procs, p.run, pid) && h.procs[pid] == p;
    OwnAtRank(taps, j);
    assert taps[..|taps|] == taps;
  }

  lemma TapWired(plan: NetPlan, links: map<string, HostLink>, j: nat)
    requires Sound(plan) && Wired(plan, |plan.taps|, links) && j < |plan.taps|
    ensures var tap := plan.taps[j];
            && tap.bridge in links && links[tap.bridge].kind == BridgeKind
            && tap.name in links && links[tap.name] == HostLink(TapKind, Some(tap.bridge))
  {
    hide TapWord, CommaFreeTaps, NoDuplicates;
    var tap := plan.taps[j];
    assert AmongBridges(plan.bridges, |plan.bridges|, tap.bridge);
    var b :| 0 <= b < |plan.bridges| && plan.bridges[b].name == tap.bridge;
    assert IsBridge(links, plan.bridges[b].name);
    assert IsAttached(links, tap);
  }

  // ----- what a node is made of ------------------------------------------

  /** How many MiB a memory size means: the product of number and unit on 64 bits, and 512
      for a blank size or one below 1. */
  ghost predicate Megabytes(text: string, mib: nat) {
    || (TrimSpace(text) == "" && mib == 512)
    || exists front, u, n: nat, v: int :: SizeIs(text, front, u, n, v) && mib == if v < 1 then 512 else v
  }

  /** The size has the number `n` and the unit `u`, and comes to `v`. */
  predicate SizeIs(text: string, front: string, u: string, n: nat, v: int) {
    SizeText(text, front, u, n) && Signed64(v, n * if u == "G" || u == "g" then 1024 else 1)
  }

  /** `v` is `x` on 64 bits, two's complement. */
  predicate Signed64(v: int, x: int) {
    -0x8000_0000_0000_0000 <= v < 0x8000_0000_0000_0000 && (x - v) % 0x1_0000_0000_0000_0000 == 0
  }

  /** The setup gives the node its processors and memory, and its init to the kernel. */
  ghost predicate SetupSays(n: Node, s: Setup, console: string) {
    && s.board == Some("virt,gic-version=max") && s.accel == Some("kvm") && s.cpu == Some("host")
    && s.smp.Some? && Denotes(s.smp.value, if n.cpu < 1 then 1 else n.cpu)
    && s.memory.Some? && (exists mib: nat :: Megabytes(n.mem, mib) && Denotes(s.memory.value, mib))
    && s.append == Some("console=ttyAMA0 root=rootfs rootfstype=9p rootflags=trans=virtio,version=9p2000.L rw"
                        + (" " + "init=/sbin/klab-init"))
    && s.serial == Some("file:" + console)
  }

  lemma SetupIsRight(n: Node, console: string)
    requires ParseMem(n.mem).Some?
    ensures SetupSays(n, SetupFor(n, console), console)
  {
    hide ParseMem, Dec, Denotes, Megabytes, SizeText, TrimSpace, Signed64;
    var v := ParseMem(n.mem).value;
    var mib: nat := if v < 1 then 512 else v;
    DecDenotes(mib);
    DecDenotes(if n.cpu < 1 then 1 else n.cpu);
    MemoryIsRight(n.mem, v);
    assert Denotes(SetupFor(n, console).memory.value, mib);
  }

  lemma MemoryIsRight(text: string, v: int)
    requires ParseMem(text) == Some(v)
    ensures Megabytes(text, if v < 1 then 512 else v)
  {
    hide ParseMem, Wrap64, SizeText, TrimSpace;
    ParseMemIff(text, v);
    if TrimSpace(text) != "" {
      var front, u, n: nat :| SizeText(text, front, u, n) && v == Wrap64(n * Mult(u));
      assert SizeIs(text, front, u, n, v);
    } else {
      BlankIsZero(text);
    }
  }

  /** In a realized plan every instance is a process of its own run directory, with its
      kernel, its sizes and as many interfaces as it has taps, and its directories are
      prepared. */
  lemma NodeRealized(c: Cluster, t: Topology, plan: NetPlan, h: HostState, i: nat) returns (pid: nat)
    requires c.Realized(t, plan, h) && i < |Expansion(t)| && Fit(c.image, c.caps, Expansion(t)[i])
    ensures var inst := Expansion(t)[i];
            var run := RunDir(c.home, inst.name);
            && OnlyProc(h.procs, run, pid)
            && h.procs[pid].root == run + "/rootfs" && h.procs[pid].control == run + "/rw"
            && h.procs[pid].kernel == c.image(inst.node.kernel)
            && SetupSays(inst.node, h.procs[pid].setup, ConsoleOf(run))
            && |h.procs[pid].ifaces| == |OwnTaps(plan.taps, inst.name)|
            && run in h.dirs && run + "/rootfs" in h.dirs && run + "/rw/ctl" in h.dirs
            && (Rooted(c.home) && PlainName(inst.name) ==> ConsoleOf(run) == run + "/console.log")
  {
    hide RunDir, ConsoleOf, OwnTaps, Expansion, Wired, SetupSays, PlainName, SetupFor, ParseMem, CapsOk;
    var p := NodeProc(c.home, c.image, plan.taps, |plan.taps|, Expansion(t)[i]);
    assert Running(h.procs, p);
    pid :| OnlyProc(h.procs, p.run, pid) && h.procs[pid] == p;
    SetupIsRight(Expansion(t)[i].node, ConsoleOf(p.run));
    ConsoleIs(c.home, Expansion(t)[i].name);
  }

  lemma ConsoleIs(home: string, name: string)
    ensures Rooted(home) && PlainName(name) ==>
              ConsoleOf(RunDir(home, name)) == RunDir(home, name) + "/console.log"
  {
    hide RunDir, PathJoin;
    assert PlainName("console.log") by { assert "console.log" != "." && '/' !in "console.log"; }
    if Rooted(home) && PlainName(name) {
      JoinBelowRun(home, name, "console.log");
      assert "/" + "console.log" == "/console.log";
      assert RunDir(home, name) + "/" + "console.log" == RunDir(home, name) + ("/" + "console.log");
    }
  }

  /** Exactly these nodes are fit: the kernel resolves, the driver runs the architecture
      and can boot a kernel of one's own if the node has one, and the memory size is blank
      or one that is understood. */
  lemma FitIff(image: Images, caps: Caps, inst: Instance)
    ensures Fit(image, caps, inst) <==>
            && image(inst.node.kernel).Some? && inst.node.arch in caps.arches
            && (inst.node.kernel == "" || caps.customKernel)
            && (TrimSpace(inst.node.mem) == ""
                || exists front, u, n: nat :: SizeText(inst.node.mem, front, u, n))
  {
    hide ParseMem, SizeText, TrimSpace, Wrap64;
    var text := inst.node.mem;
    if ParseMem(text).Some? { ParseMemIff(text, ParseMem(text).value); }
    if TrimSpace(text) == "" { BlankIsZero(text); }
    forall front, u, n: nat | SizeText(text, front, u, n) ensures ParseMem(text).Some? {
      SizeIsRead(text, front, u, n);
    }
  }

  predicate IsOn(links: map<string, HostLink>, l: string, b: string) { l in links && links[l].master == Some(b) }

  /** In a realized plan the links on a planned bridge are its taps and no others. */
  lemma BridgeRealized(c: Cluster, t: Topology, parse: CidrParser, h: HostState, b: nat, l: string)
    requires PlanOf(t, parse).Ok? && b < |PlanOf(t, parse).value.bridges|
    requires c.Realized(t, PlanOf(t, parse).value, h)
    ensures var plan := PlanOf(t, parse).value;
            IsOn(h.links, l, plan.bridges[b].name) <==>
            PlannedOn(plan.taps, |plan.taps|, l, plan.bridges[b].name)
  {
    hide PlanOf, Expansion;
    var plan := PlanOf(t, parse).value;
    IsAmong(plan.bridges, b);
    if PlannedOn(plan.taps, |plan.taps|, l, plan.bridges[b].name) {
      var j :| 0 <= j < |plan.taps| && plan.taps[j].name == l && plan.taps[j].bridge == plan.bridges[b].name;
      assert IsAttached(h.links, plan.taps[j]);
    }
  }

  /** Taps of two links are on one bridge if and only if the first ten bytes of the links'
      names agree. */
  lemma SharedBridgeIff(t: Topology, parse: CidrParser, i: nat, m: nat, k: nat, l: nat)
    requires PlanOf(t, parse).Ok? && i < |t.links| && k < |t.links|
    requires m < |MemberNames(t, t.links[i].members)| && l < |MemberNames(t, t.links[k].members)|
    ensures var taps := PlanOf(t, parse).value.taps;
            var a, b := Offset(t, t.links, i) + m, Offset(t, t.links, k) + l;
            && a < |taps| && b < |taps|
            && (taps[a].bridge == taps[b].bridge <==> First10(t.links[i].name) == First10(t.links[k].name))
  {
    hide PlanOf, Offset, MemberNames, First10, BridgeName, NetOf;
    MemberTap(t, parse, i, m);
    MemberTap(t, parse, k, l);
    BridgeNameEqualIff(t.links[i].name, t.links[k].name);
  }

  // ----- which names the scripts can take --------------------------------

  /** A name that falls into two words adds the second one to the list. */
  lemma {:induction false} BlankSplits(before: seq<string>, a: string, b: string)
    requires PlainWords(before) && PlainWord(a) && PlainWord(b)
    ensures Words(Join(before + [a + " " + b], " ")) == Some(before + [a, b])
  {
    hide PlainWord, Words;
    SplitJoin(before, a, b);
    forall i | 0 <= i < |before| + 2 ensures PlainWord((before + [a, b])[i]) {
      if i < |before| { assert PlainWord(before[i]); }
    }
    WordsOfPlain(before + [a, b]);
  }

  lemma {:induction false} SplitJoin(before: seq<string>, a: string, b: string)
    ensures Join(before + [a + " " + b], " ") == Join(before + [a, b], " ")
  {
    if before == [] {
      assert before + [a, b] == [a, b] && before + [a + " " + b] == [a + " " + b];
      assert [a, b][1..] == [b];
    } else {
      assert (before + [a, b])[1..] == before[1..] + [a, b];
      assert (before + [a + " " + b])[1..] == before[1..] + [a + " " + b];
      SplitJoin(before[1..], a, b);
    }
  }

  /** The list that `Down`'s script goes through. */
  function DownList(t: Topology, parse: CidrParser): string
    requires PlanOf(t, parse).Ok?
  {
    Join(LinkNames(PlanOf(t, parse).value), " ")
  }

  /** `Down` deletes exactly the planned links, whatever files and users there are, if and
      only if the first ten bytes of each link's name are plain after an ordinary
      beginning. */
  lemma DoomedIff(c: Cluster, t: Topology, parse: CidrParser)
    requires PlanOf(t, parse).Ok?
    ensures c.Doomed(t, parse) == Some(LinkNames(PlanOf(t, parse).value)) <==>
            forall l :: l in t.links ==> PlainTail(First10(l.name))
    ensures (forall files: Files :: WordsIn(DownList(t, parse), files) == Some(LinkNames(PlanOf(t, parse).value))) <==>
            forall l :: l in t.links ==> PlainTail(First10(l.name))
  {
    hide PlanOf, PlainWord, Words, WordsIn, Join, First10, PlainTail;
    var names := LinkNames(PlanOf(t, parse).value);
    BridgeWordsIff(t, parse);
    WordsOfNamesIff(names);
    AllWordsIff(t, parse);
    SettledIff(DownList(t, parse), names);
  }

  lemma AllWordsIff(t: Topology, parse: CidrParser)
    requires PlanOf(t, parse).Ok?
    ensures PlainWords(LinkNames(PlanOf(t, parse).value)) <==> PlainWords(BridgeNames(PlanOf(t, parse).value.bridges))
  {
    hide PlanOf, PlainWord;
    var plan := PlanOf(t, parse).value;
    var all := LinkNames(plan);
    PlanIsSound(t, parse);
    forall i | 0 <= i < |plan.taps| ensures PlainWord(all[i]) { assert TapWord(plan.taps[i]); }
    forall j | 0 <= j < |plan.bridges| ensures all[|plan.taps| + j] == BridgeNames(plan.bridges)[j] {
    }
    if PlainWords(BridgeNames(plan.bridges)) {
      forall i | 0 <= i < |all| ensures PlainWord(all[i]) {
        if i >= |plan.taps| { assert PlainWord(BridgeNames(plan.bridges)[i - |plan.taps|]); }
      }
    }
    if PlainWords(all) {
      forall j | 0 <= j < |plan.bridges| ensures PlainWord(BridgeNames(plan.bridges)[j]) {
        assert PlainWord(all[|plan.taps| + j]);
      }
    }
  }

  lemma BridgeWordsIff(t: Topology, parse: CidrParser)
    requires PlanOf(t, parse).Ok?
    ensures PlainWords(BridgeNames(PlanOf(t, parse).value.bridges)) <==>
            forall l :: l in t.links ==> PlainTail(First10(l.name))
  {
    hide PlanOf, PlainWord, First10, BridgeName, PlainTail;
    var bridges := PlanOf(t, parse).value.bridges;
    BridgesOfPlan(t, parse);
    forall i | 0 <= i < |t.links|
      ensures PlainWord(BridgeNames(bridges)[i]) <==> PlainTail(First10(t.links[i].name))
    {
      BridgeWordIff(t.links[i].name);
    }
    if PlainWords(BridgeNames(bridges)) {
      forall l | l in t.links ensures PlainTail(First10(l.name)) {
        var i :| 0 <= i < |t.links| && t.links[i] == l;
        assert PlainWord(BridgeNames(bridges)[i]);
      }
    }
  }

  lemma BridgesOfPlan(t: Topology, parse: CidrParser)
    requires PlanOf(t, parse).Ok?
    ensures |PlanOf(t, parse).value.bridges| == |t.links|
    ensures forall i :: 0 <= i < |t.links| ==> PlanOf(t, parse).value.bridges[i].name == BridgeName(t.links[i].name)
  {
    hide PlanLinks, BridgeName;
    PlanSizes(t, parse, t.links, 0);
    forall i | 0 <= i < |t.links|
      ensures PlanOf(t, parse).value.bridges[i].name == BridgeName(t.links[i].name)
    {
      BridgeOfPlan(t, parse, t.links, 0, i);
    }
  }

  /** The first ten bytes can stand in the name of a device. */
  predicate DeviceTail(s: string) { forall c :: c in s ==> DeviceChar(c) }

  /** Linux takes every name of a plan if and only if it can take the first ten bytes of the
      links' names, and there are fewer than 10^8 interfaces. */
  lemma DeviceLinksIff(t: Topology, parse: CidrParser)
    requires PlanOf(t, parse).Ok?
    ensures DeviceLinks(PlanOf(t, parse).value) <==>
            && (forall l :: l in t.links ==> DeviceTail(First10(l.name)))
            && |PlanOf(t, parse).value.taps| < 100_000_000
  {
    hide PlanOf, First10, BridgeName, TapName, DeviceName, DeviceChar;
    var plan := PlanOf(t, parse).value;
    BridgesOfPlan(t, parse);
    forall i | 0 <= i < |t.links|
      ensures DeviceName(plan.bridges[i].name) <==> DeviceTail(First10(t.links[i].name))
    {
      BridgeDeviceIff(t.links[i].name);
    }
    forall j | 0 <= j < |plan.taps| ensures DeviceName(plan.taps[j].name) <==> j + 1 < 100_000_000 {
      var i, m := TapOfPlan(t, parse, j);
      TapDeviceIff(j + 1);
    }
    if DeviceLinks(plan) {
      forall l | l in t.links ensures DeviceTail(First10(l.name)) {
        var i :| 0 <= i < |t.links| && t.links[i] == l;
        assert DeviceName(plan.bridges[i].name);
      }
      if plan.taps != [] { assert DeviceName(plan.taps[|plan.taps| - 1].name); }
    }
  }

  /** A percent sign is no device character. */
  lemma LinkWordsIff(t: Topology, parse: CidrParser)
    requires PlanOf(t, parse).Ok? && DeviceLinks(PlanOf(t, parse).value)
    ensures LinkWords(PlanOf(t, parse).value.bridges) <==> forall l :: l in t.links ==> PlainTail(First10(l.name))
  {
    hide PlanOf, PlainWord, PlainTail, First10;
    BridgeWordsIff(t, parse);
  }

  // ----- names that do harm ----------------------------------------------

  /** `Validate` accepts a link whose name has a blank among its first ten bytes; `Down`
      then deletes a link that is not planned. */
  lemma DownTakesMore(c: Cluster, parse: CidrParser) returns (t: Topology)
    ensures WellFormed(t, parse) && PlanOf(t, parse).Ok?
    ensures "docker0" !in LinkNames(PlanOf(t, parse).value)
    ensures c.Doomed(t, parse) == Some([TapName(1), "klbr-x", "docker0"])
  {
    hide Words, Join, TapName, Mac, Address, WellFormed, Expansion, PlanOf, PlainWord, BridgeName;
    t := OneLink("a", "x docker0", parse);
    BridgeText("x docker0");
    assert "klbr-" + "x docker0" == "klbr-x docker0";
    BlankSplits([TapName(1)], "klbr-x", "docker0") by {
      TapsAreOrdinary(1, None, 0);
      OrdinaryWord(TapName(1));
      WordsOfTheExample();
    }
    assert [TapName(1)] + ["klbr-x", "docker0"] == [TapName(1), "klbr-x", "docker0"];
    assert "klbr-x" + " " + "docker0" == "klbr-x docker0";
    assert [TapName(1)] + ["klbr-x docker0"] == [TapName(1), "klbr-x docker0"];
    TapIsNoBridge(1, "x");
    assert TapName(1) != "docker0" by { TapStarts(1); }
  }

  lemma TapStarts(k: nat)
    ensures TapName(k)[0] == 'k'
  {
  }

  lemma WordsOfTheExample()
    ensures PlainWord("klbr-x") && PlainWord("docker0")
  {
    hide PlainWord, Ordinary;
    LettersOrdinary("klbr-x");
    LettersOrdinary("docker0");
    OrdinaryWord("klbr-x");
    OrdinaryWord("docker0");
  }

  /** The topology with one node and one link. */
  lemma OneLink(node: string, link: string, parse: CidrParser) returns (t: Topology)
    requires link != ""
    ensures WellFormed(t, parse) && PlanOf(t, parse).Ok?
    ensures LinkNames(PlanOf(t, parse).value) == [TapName(1), BridgeName(link)]
    ensures |t.links| == 1 && t.links[0].name == link
    ensures NamesOf(Expansion(t)) == [node]
  {
    hide TapName, Mac, Address, BridgeName;
    var n := Node("qemu", "", "arm64", 1, "", "", 0);
    var l := Link(link, [node], "");
    t := Topology("t", map[node := n], [l]);
    assert BaseNames(t, node) == [node];
    assert MemberNames(t, [node]) == BaseNames(t, node) + [];
    assert PlanLinks(t, parse, [], 1) == Ok(NetPlan([], []));
    assert t.links[1..] == [];
    var plan := PlanOf(t, parse).value;
    assert plan.taps == LinkTaps(BridgeName(link), [node], 0, None) + [];
    assert plan.bridges == [Bridge(BridgeName(link), link, "")] + [];
    assert TapNames(plan.taps) == [TapName(1)];
    OneInstance(t, node);
  }

  lemma OneInstance(t: Topology, node: string)
    requires t.nodes.Keys == {node} && t.nodes[node].count == 0
    ensures NamesOf(Expansion(t)) == [node]
  {
    hide Mac;
    var keys := SortedSet(t.nodes.Keys);
    assert StrictlyIncreasing([node]);
    IncreasingUnique(keys, [node]);
    NamesOfExpandNames(t.nodes, keys, 0);
  }

  /** A node whose name has a blank: `rm -rf` of its run directory is told to remove that
      of another node. */
  lemma PrepareTakesMore(home: string, a: string, b: string)
    requires Ordinary(home) && PlainName(a) && PlainName(b) && PlainTail(a) && PlainWord(b)
    ensures Words(RunDir(home, a + " " + b)) == Some([RunDir(home, a), b])
  {
    hide RunDir, RunLead, Words, PlainTail, PlainWord, Ordinary;
    RunDirPlain(home, a);
    RunDirPlain(home, a + " " + b);
    assert RunLead(home) + (a + " " + b) == RunDir(home, a) + " " + b;
    RunDirWordIff(home, a);
    BlankSplits([], RunDir(home, a), b);
    assert [] + [RunDir(home, a) + " " + b] == [RunDir(home, a) + " " + b];
    assert Join([RunDir(home, a) + " " + b], " ") == RunDir(home, a) + " " + b;
    assert [] + [RunDir(home, a), b] == [RunDir(home, a), b];
  }

  // ----- topologies that are never realized ------------------------------

  /** After `Up` on a host without processes of the nodes the plan is not realized if a run
      directory has a comma, whether commands fail or not; nor if preparing a run
      directory removes the base and no command fails. */
  lemma NeverRealized(c: Cluster, t: Topology, parse: CidrParser, before: HostState, after: HostState, i: nat)
    requires PlanOf(t, parse).Ok? && i < |Expansion(t)|
    requires c.RestAbsent(Expansion(t), 0, before.procs)
    requires c.OnlyFitAdded(Expansion(t), PlanOf(t, parse).value.taps, before.procs, after.procs)
    requires forall k :: 0 <= k < |Expansion(t)| ==> c.image(Expansion(t)[k].node.kernel) != Some("-nographic")
    requires var run := RunDir(c.home, Expansion(t)[i].name);
             ',' in run || (c.host.reliable && BaseLost(run, c.base))
    ensures !c.Realized(t, PlanOf(t, parse).value, after)
  {
    hide RunDir, PlanOf, Expansion, Wired, Ready, Started, Fit, BaseLost, NicsFor, IfacesAt, CommaFreeTaps, TapWord;
    hide SetupFor, ConsoleOf;
    var plan, list := PlanOf(t, parse).value, Expansion(t);
    var run := RunDir(c.home, list[i].name);
    if c.Realized(t, plan, after) {
      var p := NodeProc(c.home, c.image, plan.taps, |plan.taps|, list[i]);
      assert Running(after.procs, p);
      var pid :| OnlyProc(after.procs, run, pid) && after.procs[pid] == p;
      assert NoneOf(before.procs, run);
      assert pid !in before.procs;
      var k :| 0 <= k < |list| && c.IsOf(p, list[k], plan.taps);
      PlanIsSound(t, parse);
      ControlParent(c.home, list[k].name);
      assert RunDir(c.home, list[k].name) == run;
      if ',' in run { CommaMovesRoot(c.home, c.image, c.caps, list[k], plan.taps); }
      assert false;
    }
  }

  /** Node `a,b`: `Validate` accepts it, QEMU refuses what it is given for it, and no run
      of `Up` realizes the plan. */
  lemma CommaNode(c: Cluster, parse: CidrParser, before: HostState, after: HostState) returns (t: Topology)
    requires Ordinary(c.home)
    ensures WellFormed(t, parse) && PlanOf(t, parse).Ok? && NamesOf(Expansion(t)) == ["a,b"]
    ensures ReadFsdev(Fsdev("rootdev", RunDir(c.home, "a,b") + "/rootfs")) == None
    ensures c.RestAbsent(Expansion(t), 0, before.procs)
            && c.OnlyFitAdded(Expansion(t), PlanOf(t, parse).value.taps, before.procs, after.procs)
            && c.image(Expansion(t)[0].node.kernel) != Some("-nographic") ==>
              !c.Realized(t, PlanOf(t, parse).value, after)
  {
    hide RunDir, RunLead, PlanOf, ReadFsdev, Fsdev, WellFormed, Ordinary, Expansion;
    t := OneLink("a,b", "lan", parse);
    var lead := RunLead(c.home);
    LeadOrdinary(c.home);
    NoCommas(lead);
    RunDirPlain(c.home, "a,b");
    assert RunDir(c.home, "a,b") + "/rootfs" == (lead + "a") + "," + "b/rootfs";
    CommaIsRefused("rootdev", lead + "a", "b/rootfs");
    assert Expansion(t)[0].name == NamesOf(Expansion(t))[0];
    assert ',' in RunDir(c.home, "a,b") by { assert RunDir(c.home, "a,b")[|lead| + 1] == ','; }
    if c.RestAbsent(Expansion(t), 0, before.procs)
       && c.OnlyFitAdded(Expansion(t), PlanOf(t, parse).value.taps, before.procs, after.procs)
       && c.image(Expansion(t)[0].node.kernel) != Some("-nographic")
    {
      NeverRealized(c, t, parse, before, after, 0);
    }
  }

  /** Node `..` with the program's base: preparing its run directory removes the base, and
      no run of `Up` on a reliable host realizes the plan. */
  lemma ParentNode(c: Cluster, parse: CidrParser, before: HostState, after: HostState) returns (t: Topology)
    requires Rooted(c.home) && c.base == BaseOf(c.home) && c.host.reliable
    ensures WellFormed(t, parse) && PlanOf(t, parse).Ok? && NamesOf(Expansion(t)) == [".."]
    ensures BaseLost(RunDir(c.home, ".."), c.base)
    ensures c.RestAbsent(Expansion(t), 0, before.procs)
            && c.OnlyFitAdded(Expansion(t), PlanOf(t, parse).value.taps, before.procs, after.procs)
            && c.image(Expansion(t)[0].node.kernel) != Some("-nographic") ==>
              !c.Realized(t, PlanOf(t, parse).value, after)
  {
    hide RunDir, PlanOf, WellFormed, Expansion, BaseLost;
    t := OneLink("..", "lan", parse);
    BaseIsLost(c.home);
    assert Expansion(t)[0].name == NamesOf(Expansion(t))[0];
    if c.RestAbsent(Expansion(t), 0, before.procs)
       && c.OnlyFitAdded(Expansion(t), PlanOf(t, parse).value.taps, before.procs, after.procs)
       && c.image(Expansion(t)[0].node.kernel) != Some("-nographic")
    {
      NeverRealized(c, t, parse, before, after, 0);
    }
  }

  lemma BaseIsLost(home: string)
    requires Rooted(home)
    ensures BaseLost(RunDir(home, ".."), BaseOf(home))
  {
    hide RunDir, BaseOf, Clean;
    var run, base := RunDir(home, ".."), Clean(BaseOf(home));
    BaseInTree(home);
    assert run[|run| - 4..] == "klab";
    assert run[|run| - 1] == 'b' && |run| >= 4;
    assert base[..|run| + 1] == run + "/";
    assert |base| == |run| + 20 && |run + "/rw/ctl"| == |run| + 7;
  }

  lemma RealizedNames(c: Cluster, t: Topology, plan: NetPlan, h: HostState, i: nat)
    requires c.Realized(t, plan, h) && Named(h.links) && i < |plan.bridges|
    ensures DeviceName(plan.bridges[i].name)
  {
    hide Expansion, DeviceName;
    assert IsBridge(h.links, plan.bridges[i].name);
  }

  /** A plan with a link that Linux does not take is realized on no host. */
  lemma RefusedLink(c: Cluster, t: Topology, parse: CidrParser, h: HostState, l: Link)
    requires PlanOf(t, parse).Ok? && Named(h.links)
    requires l in t.links && !DeviceTail(First10(l.name))
    ensures !c.Realized(t, PlanOf(t, parse).value, h)
  {
    hide PlanOf, First10, BridgeName, Expansion, DeviceName, Wired;
    var plan := PlanOf(t, parse).value;
    var i :| 0 <= i < |t.links| && t.links[i] == l;
    BridgesOfPlan(t, parse);
    BridgeDeviceIff(l.name);
    if c.Realized(t, plan, h) {
      RealizedNames(c, t, plan, h, i);
      assert false;
    }
  }

  /** Links `a/b` and `lan:1`: `Validate` accepts them, the shell reads their names as one
      word, and Linux refuses them. */
  lemma RefusedNames(c: Cluster, parse: CidrParser, h: HostState, slash: bool) returns (t: Topology)
    requires Named(h.links)
    ensures WellFormed(t, parse) && PlanOf(t, parse).Ok?
    ensures |t.links| == 1 && t.links[0].name == (if slash then "a/b" else "lan:1")
    ensures LinkWords(PlanOf(t, parse).value.bridges) && !c.Realized(t, PlanOf(t, parse).value, h)
  {
    hide PlanOf, WellFormed, Expansion, PlainWord, PlainTail, BridgeName;
    var name := if slash then "a/b" else "lan:1";
    t := OneLink("a", name, parse);
    assert First10(name) == name;
    assert name[if slash then 1 else 3] in name;
    RefusedLink(c, t, parse, h, t.links[0]);
    BridgesOfPlan(t, parse);
    BridgeText(name);
    LettersOrdinary("klbr-" + name);
    OrdinaryWord("klbr-" + name);
  }

  // ----- when a topology can be brought up -------------------------------

  predicate PlainNames(instances: seq<Instance>) {
    forall i :: 0 <= i < |instances| ==> PlainName(instances[i].name)
  }

  /** One-component instance names have run directories apart if and only if they are
      distinct. */
  lemma ApartRunsIff(home: string, instances: seq<Instance>)
    requires PlainNames(instances)
    ensures ApartRuns(home, instances) <==> NoDuplicates(NamesOf(instances))
  {
    hide RunDir, PlainName, Under;
    var names := NamesOf(instances);
    forall i, j | 0 <= i < |instances| && 0 <= j < |instances|
      ensures Under(RunDir(home, instances[j].name), RunDir(home, instances[i].name)) <==> names[i] == names[j]
    {
      PlainRunsApartIff(home, instances[i].name, instances[j].name);
    }
    if ApartRuns(home, instances) {
      forall i, j | 0 <= i < j < |names| ensures names[i] != names[j] {
        assert !Under(RunDir(home, instances[j].name), RunDir(home, instances[i].name));
      }
    }
    if NoDuplicates(names) {
      forall i, j | 0 <= i < |instances| && 0 <= j < |instances| && i != j
        ensures !Under(RunDir(home, instances[j].name), RunDir(home, instances[i].name))
      {
        if i < j { assert names[i] != names[j]; } else { assert names[j] != names[i]; }
      }
    }
  }

  /** Two taps of one node, one of them with an IP address, whose numbers agree modulo 2^24. */
  predicate MacClash(taps: seq<Tap>, i: int, j: int)
    requires 0 <= i < j < |taps|
  {
    taps[i].node == taps[j].node && (taps[i].ip != "" || taps[j].ip != "") && (j - i) % 0x100_0000 == 0
  }

  /** Hardware addresses tell the interfaces of each node apart if and only if no two taps
      of a node have numbers that agree modulo 2^24. */
  lemma TellApartIff(t: Topology, parse: CidrParser)
    requires PlanOf(t, parse).Ok?
    ensures TellApart(PlanOf(t, parse).value.taps) <==>
            forall i, j :: 0 <= i < j < |PlanOf(t, parse).value.taps| ==> !MacClash(PlanOf(t, parse).value.taps, i, j)
  {
    hide PlanOf, Mac;
    var taps := PlanOf(t, parse).value.taps;
    forall i, j | 0 <= i < j < |taps|
      ensures MacClash(taps, i, j) <==>
              taps[i].node == taps[j].node && (taps[i].ip != "" || taps[j].ip != "") && taps[i].mac == taps[j].mac
    {
      TapNumber(t, parse, i);
      TapNumber(t, parse, j);
      MacEqualIff(i + 1, j + 1);
      SameRemainder(i + 1, j + 1);
    }
  }

  lemma SameRemainder(a: nat, b: nat)
    requires a <= b
    ensures a % 0x100_0000 == b % 0x100_0000 <==> (b - a) % 0x100_0000 == 0
  {
  }

  lemma InstanceNamePlain(b: string, n: Node, i: nat)
    requires PlainName(b)
    ensures PlainName(InstanceName(b, n, i))
  {
    hide Dec;
    var d := Dec(i);
    assert '/' !in d;
    assert |b + "-" + d| >= 3;
  }

  /** The instances of a topology are those of its nodes. */
  lemma InstancesAre(t: Topology, x: string)
    ensures x in NamesOf(Expansion(t)) <==> NamedIn(t.nodes, SortedSet(t.nodes.Keys), x)
  {
    hide InstanceName, Mac;
    NamesOfExpandNames(t.nodes, SortedSet(t.nodes.Keys), 0);
    ExpandedName(t.nodes, SortedSet(t.nodes.Keys), x);
  }

  lemma InstanceOf(t: Topology, k: nat) returns (b: string, i: nat)
    requires k < |Expansion(t)|
    ensures b in t.nodes && Expansion(t)[k].name == InstanceName(b, t.nodes[b], i)
  {
    hide InstanceName, Expansion;
    var x := Expansion(t)[k].name;
    assert NamesOf(Expansion(t))[k] == x;
    InstancesAre(t, x);
    b, i :| b in t.nodes && i < GroupSize(t.nodes[b]) && x == InstanceName(b, t.nodes[b], i);
  }

  predicate PlainNodes(t: Topology) { forall b :: b in t.nodes ==> PlainName(b) }

  lemma InstancesPlain(t: Topology)
    requires PlainNodes(t)
    ensures PlainNames(Expansion(t))
  {
    hide InstanceName, Expansion, PlainName;
    forall k | 0 <= k < |Expansion(t)| ensures PlainName(Expansion(t)[k].name) {
      var b, i := InstanceOf(t, k);
      InstanceNamePlain(b, t.nodes[b], i);
    }
  }

  /** Run directories are one word each if and only if the instance names are plain after
      an ordinary beginning. */
  lemma DirWordsIff(home: string, instances: seq<Instance>)
    requires Ordinary(home) && PlainNames(instances)
    ensures DirWords(home, instances) <==> forall i :: 0 <= i < |instances| ==> PlainTail(instances[i].name)
    ensures forall i :: 0 <= i < |instances| ==> (',' in RunDir(home, instances[i].name) <==> ',' in instances[i].name)
  {
    hide PlainName, PlainTail, RunDir, PlainWord, Ordinary;
    forall i | 0 <= i < |instances|
      ensures PlainWord(RunDir(home, instances[i].name)) <==> PlainTail(instances[i].name)
      ensures ',' in RunDir(home, instances[i].name) <==> ',' in instances[i].name
    {
      RunDirWordIff(home, instances[i].name);
      RunDirCommaIff(home, instances[i].name);
    }
  }

  /** `rm -rf` takes the run directories of one-component names. */
  lemma PlainRunsKept(home: string, instances: seq<Instance>)
    requires Rooted(home) && PlainNames(instances)
    ensures forall i :: 0 <= i < |instances| ==>
              Rooted(RunDir(home, instances[i].name)) && !Refused(RunDir(home, instances[i].name))
  {
    hide PlainName, RunDir, Refused;
    forall i | 0 <= i < |instances|
      ensures Rooted(RunDir(home, instances[i].name)) && !Refused(RunDir(home, instances[i].name))
    {
      PlainRunKept(home, instances[i].name);
    }
  }

  lemma PlainRunKept(home: string, name: string)
    requires Rooted(home) && PlainName(name)
    ensures Rooted(RunDir(home, name)) && !Refused(RunDir(home, name))
  {
    hide RunDir, RunLead, Refused;
    RunDirPlain(home, name);
    LeadIsRooted(home);
    PlainNotRefused(RunLead(home), name);
  }

  lemma PlainNotRefused(lead: string, name: string)
    requires lead != "" && lead[0] == '/' && lead[|lead| - 1] == '/' && PlainName(name)
    ensures !Refused(lead + name)
  {
    hide HasSuffix;
    var run := lead + name;
    assert |run| > 1 && run[0] == '/';
    assert "/" + "." == "/." && "/" + ".." == "/..";
    if HasSuffix(run, "/" + ".") { LastPiece(lead, name, "."); }
    if HasSuffix(run, "/" + "..") { LastPiece(lead, name, ".."); }
  }

  /** What stands after the last slash. */
  lemma LastPiece(lead: string, name: string, x: string)
    requires lead != "" && lead[|lead| - 1] == '/' && '/' !in name && '/' !in x
    requires HasSuffix(lead + name, "/" + x)
    ensures x == name
  {
    var run := lead + name;
    var end := run[|run| - |x| - 1..];
    assert end == "/" + x;
    assert run[|lead| - 1] == '/' && end[0] == '/';
    assert forall k :: |lead| <= k < |run| ==> run[k] == name[k - |lead|];
    assert forall k :: 0 < k < |end| ==> end[k] == x[k - 1];
    assert forall k :: |run| - |x| <= k < |run| ==> run[k] == end[k - (|run| - |x| - 1)];
    assert |x| == |name|;
    assert end[1..] == x && end[1..] == name;
  }

  lemma LeadIsRooted(home: string)
    requires Rooted(home)
    ensures RunLead(home) != "" && RunLead(home)[0] == '/' && RunLead(home)[|RunLead(home)| - 1] == '/'
  {
    hide Walk, Pieces, Join;
  }

  /** The base and the kernels are there, under absolute paths. */
  ghost predicate HasFiles(c: Cluster, t: Topology, dirs: set<string>) {
    && IsThere(dirs, c.base)
    && forall i :: 0 <= i < |Expansion(t)| ==>
         var k := c.image(Expansion(t)[i].node.kernel);
         k.Some? ==> k.value != "-nographic" && IsThere(dirs, k.value)
  }

  /** No run directory has the base in its tree or is below it, or has in its tree the
      kernel of its node or of a later one. */
  ghost predicate FilesApart(c: Cluster, t: Topology) {
    && c.OutOfRuns(Expansion(t), Clean(c.base))
    && (forall i :: 0 <= i < |Expansion(t)| ==> !Under(RunDir(c.home, Expansion(t)[i].name), Clean(c.base)))
    && c.KernelsStay(Expansion(t))
  }

  /** The program's own base is apart from the run directories of one-component names. */
  lemma OwnBaseApart(c: Cluster, t: Topology)
    requires Rooted(c.home) && PlainNodes(t) && c.base == BaseOf(c.home)
    ensures c.OutOfRuns(Expansion(t), Clean(c.base))
    ensures forall i :: 0 <= i < |Expansion(t)| ==> !Under(RunDir(c.home, Expansion(t)[i].name), Clean(c.base))
  {
    hide Expansion, PlainName, RunDir, BaseOf, Under, Clean;
    InstancesPlain(t);
    forall i | 0 <= i < |Expansion(t)|
      ensures !Under(Clean(c.base), RunDir(c.home, Expansion(t)[i].name))
      ensures !Under(RunDir(c.home, Expansion(t)[i].name), Clean(c.base))
    {
      BaseIsSafe(c.home, Expansion(t)[i].name);
    }
  }

  /** A validated topology with one-component node names, under an absolute home of
      ordinary characters, on a host that has the base and the kernels and none of the
      plan's taps and nodes, can be brought up as planned if and only if the shell and
      Linux take the first ten bytes of its links' names, its instance names are plain and
      without commas, no uncounted node is named like an instance of a counted one, there
      are fewer than 10^8 interfaces, none of them with the hardware address of another one
      of its node, and no run directory holds the base or a kernel that is still needed. */
  lemma CanRunIff(c: Cluster, t: Topology, parse: CidrParser, h: HostState)
    requires WellFormed(t, parse) && PlainNodes(t) && Ordinary(c.home) && Rooted(c.home) && PlainWord(c.base)
    requires c.RestAbsent(Expansion(t), 0, h.procs) && HasFiles(c, t, h.dirs)
    requires PlanOf(t, parse).Ok? ==> TapsFree(PlanOf(t, parse).value.taps, 0, h.links)
    ensures PlanOf(t, parse).Ok?
    ensures c.CanRun(t, parse, h) <==>
            && (forall l :: l in t.links ==> PlainTail(First10(l.name)) && DeviceTail(First10(l.name)))
            && (forall i :: 0 <= i < |Expansion(t)| ==>
                  PlainTail(Expansion(t)[i].name) && ',' !in Expansion(t)[i].name)
            && (forall u, b :: u in t.nodes && b in t.nodes ==> !Clash(t.nodes, u, b))
            && |PlanOf(t, parse).value.taps| < 100_000_000
            && (forall i, j :: 0 <= i < j < |PlanOf(t, parse).value.taps| ==>
                  !MacClash(PlanOf(t, parse).value.taps, i, j))
            && FilesApart(c, t)
  {
    hide WellFormed, PlanOf, Expansion, NoDuplicates, Clash, ApartRuns, NoneOf, PlainNames, PlainNodes, DirWords;
    hide LinkWords, DeviceLinks, First10, PlainTail, DeviceTail, PlainWord, TellApart, MacClash, Ordinary, RunDir;
    hide Under, Clean, Refused, TapsFree;
    ValidPlans(t, parse);
    DeviceLinksIff(t, parse);
    if DeviceLinks(PlanOf(t, parse).value) { LinkWordsIff(t, parse); }
    InstancesPlain(t);
    DirWordsIff(c.home, Expansion(t));
    PlainRunsKept(c.home, Expansion(t));
    ApartRunsIff(c.home, Expansion(t));
    NamesDistinctIff(t);
    TellApartIff(t, parse);
  }
}
