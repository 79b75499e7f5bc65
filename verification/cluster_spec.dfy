/** What bringing a topology up is meant to leave on the host. */
module ClusterSpecs {
  import opened Results
  import opened Decimal
  import opened Topologies
  import opened NetPlans
  import opened BootSpecs
  import opened BootCommand
  import opened BootReader
  import opened QemuOptions
  import opened Paths
  import opened ScriptWords
  import opened Hosts

  // ----- the resources of a plan -----------------------------------------

  function TapNames(taps: seq<Tap>): (names: seq<string>)
    ensures |names| == |taps| && forall i :: 0 <= i < |taps| ==> names[i] == taps[i].name
  {
    seq(|taps|, i requires 0 <= i < |taps| => taps[i].name)
  }

  function BridgeNames(bridges: seq<Bridge>): (names: seq<string>)
    ensures |names| == |bridges| && forall i :: 0 <= i < |bridges| ==> names[i] == bridges[i].name
  {
    seq(|bridges|, i requires 0 <= i < |bridges| => bridges[i].name)
  }

  /** Every link of a plan, in the order in which `Down` deletes them. */
  function LinkNames(plan: NetPlan): seq<string> { TapNames(plan.taps) + BridgeNames(plan.bridges) }

  function Runs(home: string, instances: seq<Instance>): set<string> {
    set i | 0 <= i < |instances| :: RunDir(home, instances[i].name)
  }

  /** No run directory is another one or inside another one. */
  predicate ApartRuns(home: string, instances: seq<Instance>) {
    forall i, j :: 0 <= i < |instances| && 0 <= j < |instances| && i != j ==>
      !Under(RunDir(home, instances[j].name), RunDir(home, instances[i].name))
  }

  lemma ApartDiffer(home: string, instances: seq<Instance>, i: nat, j: nat)
    requires ApartRuns(home, instances) && i < |instances| && j < |instances| && i != j
    ensures RunDir(home, instances[i].name) != RunDir(home, instances[j].name)
  {
    hide RunDir;
  }

  /** The names that `Up` leaves unquoted are one word each, and no bridge's is a pattern
      from which Linux makes another name. */
  predicate LinkWords(bridges: seq<Bridge>) {
    PlainWords(BridgeNames(bridges)) && forall j :: 0 <= j < |bridges| ==> '%' !in bridges[j].name
  }

  /** Linux takes every name of a link of the plan. */
  predicate DeviceLinks(plan: NetPlan) {
    && (forall i :: 0 <= i < |plan.taps| ==> DeviceName(plan.taps[i].name))
    && (forall j :: 0 <= j < |plan.bridges| ==> DeviceName(plan.bridges[j].name))
  }

  predicate DirWords(home: string, instances: seq<Instance>) {
    forall i :: 0 <= i < |instances| ==> PlainWord(RunDir(home, instances[i].name))
  }

  predicate RunWords(home: string, base: string, instances: seq<Instance>) {
    PlainWord(base) && DirWords(home, instances)
  }

  /** What a node finds prepared in its run directory. */
  predicate Ready(dirs: set<string>, run: string) {
    run in dirs && run + "/rw/ctl" in dirs && run + "/rootfs" in dirs
  }

  /** Preparing one run directory leaves another one, apart from it, as it was. */
  lemma PrepareKeepsOthers(dirs: set<string>, run: string, other: string)
    requires Ready(dirs, other) && !Under(other, run) && !Under(run, other)
    ensures Ready(WithoutTrees(dirs, {run}) + Made(run), other)
  {
    hide Under, Laid;
    InsideRun(other);
    forall d | Under(d, other) ensures !Below(d, {run}) {
      if Under(d, run) {
        if |run| <= |other| { UnderBoth(d, run, other); } else { UnderBoth(d, other, run); }
      }
    }
  }

  lemma PrepareMakes(dirs: set<string>, run: string)
    ensures Ready(WithoutTrees(dirs, {run}) + Made(run), run)
  {
    hide Below;
  }

  // ----- interfaces of a node --------------------------------------------

  /** The taps of one node, in plan order. */
  function OwnTaps(taps: seq<Tap>, node: string): seq<Tap> {
    if taps == [] then []
    else
      var last := taps[|taps| - 1];
      OwnTaps(taps[..|taps| - 1], node) + (if last.node == node then [last] else [])
  }

  function NicsFor(taps: seq<Tap>, node: string): (nics: seq<Nic>)
    ensures |nics| == |OwnTaps(taps, node)|
    ensures forall k :: 0 <= k < |nics| ==> nics[k] == Nic(OwnTaps(taps, node)[k].name, OwnTaps(taps, node)[k].mac)
  {
    var own := OwnTaps(taps, node);
    seq(|own|, k requires 0 <= k < |own| => Nic(own[k].name, own[k].mac))
  }

  /** How many taps of its node come before tap `i`. */
  function Rank(taps: seq<Tap>, i: nat): nat
    requires i < |taps|
  {
    |OwnTaps(taps[..i], taps[i].node)|
  }

  lemma {:induction false} OwnPrefix(taps: seq<Tap>, i: nat, node: string)
    requires i <= |taps|
    ensures OwnTaps(taps[..i], node) <= OwnTaps(taps, node)
    decreases |taps|
  {
    if i == |taps| {
      assert taps[..i] == taps;
    } else {
      var front := taps[..|taps| - 1];
      OwnPrefix(front, i, node);
      assert front[..i] == taps[..i];
    }
  }

  /** Tap `i` stands at its rank among the taps of its node. */
  lemma OwnAtRank(taps: seq<Tap>, i: nat)
    requires i < |taps|
    ensures Rank(taps, i) < |OwnTaps(taps, taps[i].node)|
    ensures OwnTaps(taps, taps[i].node)[Rank(taps, i)] == taps[i]
    ensures |OwnTaps(taps[..i + 1], taps[i].node)| == Rank(taps, i) + 1
    ensures forall n :: n != taps[i].node ==> OwnTaps(taps[..i + 1], n) == OwnTaps(taps[..i], n)
  {
    var upto, node := taps[..i + 1], taps[i].node;
    assert upto[..i] == taps[..i] && upto[|upto| - 1] == taps[i];
    OwnPrefix(taps, i + 1, node);
    assert OwnTaps(upto, node)[Rank(taps, i)] == taps[i];
  }

  /** Every place among a node's taps is the rank of a tap of that node. */
  lemma {:induction false} OwnIsRanked(taps: seq<Tap>, node: string, k: nat) returns (i: nat)
    requires k < |OwnTaps(taps, node)|
    ensures i < |taps| && taps[i].node == node && Rank(taps, i) == k && OwnTaps(taps, node)[k] == taps[i]
    decreases |taps|
  {
    var front := taps[..|taps| - 1];
    if k < |OwnTaps(front, node)| {
      i := OwnIsRanked(front, node, k);
      assert front[..i] == taps[..i];
    } else {
      i := |taps| - 1;
      assert taps[..i] == front;
    }
  }

  /** Hardware addresses tell the interfaces of each node apart as far as addresses are
      to be assigned. */
  predicate TellApart(taps: seq<Tap>) {
    forall i, j :: 0 <= i < j < |taps| && taps[i].node == taps[j].node && (taps[i].ip != "" || taps[j].ip != "") ==>
      taps[i].mac != taps[j].mac
  }

  lemma OwnMacsDiffer(taps: seq<Tap>, node: string, a: nat, b: nat)
    requires TellApart(taps) && a < |OwnTaps(taps, node)| && b < |OwnTaps(taps, node)| && a != b
    requires OwnTaps(taps, node)[a].ip != ""
    ensures OwnTaps(taps, node)[a].mac != OwnTaps(taps, node)[b].mac
  {
    var i := OwnIsRanked(taps, node, a);
    var j := OwnIsRanked(taps, node, b);
    assert i < j || j < i;
  }

  // ----- the processes of a node -----------------------------------------

  function AddrSet(ip: string): set<string> { if ip == "" then {} else {ip} }

  /** The interfaces of a node when the first `i` taps have been configured. */
  function IfacesAt(taps: seq<Tap>, i: nat, node: string): (r: seq<Iface>)
    requires i <= |taps|
    ensures |r| == |OwnTaps(taps, node)|
  {
    var own, done := OwnTaps(taps, node), |OwnTaps(taps[..i], node)|;
    seq(|own|, k requires 0 <= k < |own| =>
      Iface(Card(Some(own[k].name), own[k].mac), if k < done then AddrSet(own[k].ip) else {}))
  }

  /** Before anything is configured the interfaces are those QEMU was given. */
  lemma IfacesAtStart(taps: seq<Tap>, node: string)
    ensures IfacesAt(taps, 0, node) == BareIfaces(CardsOf(NicsFor(taps, node)))
  {
    assert taps[..0] == [];
  }

  /** Configuring tap `i` concerns the one interface on that tap. */
  lemma ConfigureOne(taps: seq<Tap>, i: nat, p: Proc)
    requires i < |taps| && TellApart(taps) && p.ifaces == IfacesAt(taps, i, taps[i].node)
    ensures Rank(taps, i) < |p.ifaces| && p.ifaces[Rank(taps, i)].addrs == {}
    ensures HasMac(p.ifaces, Rank(taps, i), taps[i].mac)
    ensures taps[i].ip != "" ==>
              && (forall k :: HasMac(p.ifaces, k, taps[i].mac) ==> k == Rank(taps, i))
              && WithAddr(p, Rank(taps, i), taps[i].ip).ifaces == IfacesAt(taps, i + 1, taps[i].node)
    ensures taps[i].ip == "" ==> p.ifaces == IfacesAt(taps, i + 1, taps[i].node)
  {
    hide OwnTaps;
    var node, r := taps[i].node, Rank(taps, i);
    var own := OwnTaps(taps, node);
    OwnAtRank(taps, i);
    assert own[r] == taps[i] && p.ifaces[r].card.mac == taps[i].mac;
    forall k | HasMac(p.ifaces, k, taps[i].mac) && taps[i].ip != "" ensures k == r {
      if k != r { OwnMacsDiffer(taps, node, r, k); }
    }
    var next := IfacesAt(taps, i + 1, node);
    assert forall k :: 0 <= k < |own| && k != r ==> next[k] == p.ifaces[k];
    if taps[i].ip != "" {
      assert WithAddr(p, r, taps[i].ip).ifaces[r].addrs == {taps[i].ip};
      assert WithAddr(p, r, taps[i].ip).ifaces == next;
    } else {
      assert p.ifaces == next;
    }
  }

  lemma OthersUnchanged(taps: seq<Tap>, i: nat, node: string)
    requires i < |taps| && node != taps[i].node
    ensures IfacesAt(taps, i + 1, node) == IfacesAt(taps, i, node)
  {
    hide OwnTaps;
    OwnAtRank(taps, i);
  }

  // ----- nodes that can be booted ----------------------------------------

  type Images = string -> Option<string>

  /** The node passes every check `Up` makes before booting it. */
  predicate Fit(image: Images, caps: Caps, inst: Instance) {
    image(inst.node.kernel).Some? && CapsOk(inst.node, caps) && ParseMem(inst.node.mem).Some?
  }

  function SpecFor(home: string, image: Images, caps: Caps, inst: Instance, nics: seq<Nic>): (s: BootSpec)
    requires Fit(image, caps, inst)
    ensures s.rootfs == RunDir(home, inst.name) + "/rootfs" && s.rootfsRW == RunDir(home, inst.name) + "/rw"
    ensures s.nics == nics
    ensures Some(s.kernel) == image(inst.node.kernel)
  {
    var run := RunDir(home, inst.name);
    var img := image(inst.node.kernel).value;
    ResolveBootSpec(inst.name, inst.node, img, run + "/rootfs", run + "/rw").value.(nics := nics)
  }

  /** The setup of a node; `SetupSays` in the theorems says what its texts mean. */
  function SetupFor(n: Node, console: string): Setup {
    var mem := if ParseMem(n.mem).Some? then ParseMem(n.mem).value else 0;
    Setup(Some("virt,gic-version=max"), Some("kvm"), Some("host"), Some(Dec(AtLeastOne(n.cpu, 1))),
          Some(Dec(AtLeastOne(mem, 512))), Some(CmdLine(Init)), Some("file:" + console))
  }

  lemma SetupOfSpec(home: string, image: Images, caps: Caps, inst: Instance, nics: seq<Nic>, console: string)
    requires Fit(image, caps, inst)
    ensures MeantSetup(SpecFor(home, image, caps, inst, nics), console) == SetupFor(inst.node, console)
  {
    hide ParseMem, Dec, CmdLine, AtLeastOne, RunDir, CapsOk;
  }

  /** The process of a node when the first `i` taps have been configured. */
  function NodeProc(home: string, image: Images, taps: seq<Tap>, i: nat, inst: Instance): Proc
    requires i <= |taps|
  {
    var run := RunDir(home, inst.name);
    Proc(run, run + "/rootfs", run + "/rw", image(inst.node.kernel), SetupFor(inst.node, ConsoleOf(run)),
         IfacesAt(taps, i, inst.name))
  }

  ghost predicate Running(procs: map<nat, Proc>, p: Proc) {
    exists pid :: OnlyProc(procs, p.run, pid) && procs[pid] == p
  }

  predicate NoneOf(procs: map<nat, Proc>, run: string) { forall p :: p in procs ==> !Concerns(procs[p], run) }

  predicate CommaFreeTaps(taps: seq<Tap>) { forall t :: t in taps ==> ',' !in t.name && ',' !in t.mac }

  lemma NicsCommaFree(taps: seq<Tap>, node: string)
    requires CommaFreeTaps(taps)
    ensures CommaFree(NicsFor(taps, node))
  {
    hide OwnTaps;
    var nics := NicsFor(taps, node);
    forall n | n in nics ensures ',' !in n.tap && ',' !in n.mac {
      var k :| 0 <= k < |nics| && nics[k] == n;
      var i := OwnIsRanked(taps, node, k);
      assert taps[i] in taps;
    }
  }

  /** A fit node whose run directory has no comma is started as the process it should be:
      serving its run directory, with its kernel and one interface per tap, none of them
      configured. With a comma in its run directory, it is not. */
  lemma StartedIsNodeProc(home: string, image: Images, caps: Caps, inst: Instance, taps: seq<Tap>)
    requires Fit(image, caps, inst) && CommaFreeTaps(taps)
    requires image(inst.node.kernel) != Some("-nographic")
    ensures var spec := SpecFor(home, image, caps, inst, NicsFor(taps, inst.name));
            Started(spec) == Some(NodeProc(home, image, taps, 0, inst)) <==> ',' !in RunDir(home, inst.name)
  {
    hide RunDir, Dir, Launched, IfacesAt, ParseMem, CapsOk, OwnTaps, CommaFreeTaps, PathRead, CardsOf;
    var run := RunDir(home, inst.name);
    var spec := SpecFor(home, image, caps, inst, NicsFor(taps, inst.name));
    NicsCommaFree(taps, inst.name);
    ControlParent(home, inst.name);
    LaunchedAs(spec, ConsoleOf(run));
    PathReadIff("rootdev", spec.rootfs);
    PathReadIff("klabrw", spec.rootfsRW);
    IfacesAtStart(taps, inst.name);
    NoCommaBelow(run);
  }

  /** Whatever starts for a node whose run directory has a comma, it has another root. */
  lemma CommaMovesRoot(home: string, image: Images, caps: Caps, inst: Instance, taps: seq<Tap>)
    requires Fit(image, caps, inst) && CommaFreeTaps(taps)
    requires image(inst.node.kernel) != Some("-nographic") && ',' in RunDir(home, inst.name)
    ensures var p := Started(SpecFor(home, image, caps, inst, NicsFor(taps, inst.name)));
            p.Some? ==> p.value.root != RunDir(home, inst.name) + "/rootfs"
  {
    hide RunDir, Dir, Launched, IfacesAt, ParseMem, CapsOk, OwnTaps, CommaFreeTaps, PathRead, CardsOf;
    var run := RunDir(home, inst.name);
    var spec := SpecFor(home, image, caps, inst, NicsFor(taps, inst.name));
    NicsCommaFree(taps, inst.name);
    ControlParent(home, inst.name);
    LaunchedAs(spec, ConsoleOf(run));
    PathReadIff("rootdev", spec.rootfs);
    NoCommaBelow(run);
  }

  lemma NoCommaBelow(run: string)
    ensures ',' in run + "/rootfs" <==> ',' in run
    ensures ',' in run + "/rw" <==> ',' in run
  {
    assert forall c :: c in "/rootfs" || c in "/rw" ==> c != ',';
  }

  // ----- what changing the processes of one node does to the others -------

  lemma RunOfControl(a: string, b: string)
    ensures a + "/rw" == b + "/rw" ==> a == b
  {
    assert (a + "/rw")[..|a + "/rw"| - 3] == a && (b + "/rw")[..|b + "/rw"| - 3] == b;
  }

  lemma SpawnRuns(before: map<nat, Proc>, after: map<nat, Proc>, p: Proc)
    requires Spawned(before, after, Some(p)) && NoneOf(before, p.run) && p.control == p.run + "/rw"
    ensures Running(after, p)
    ensures forall q :: q != p && Running(before, q) ==> Running(after, q)
    ensures forall r :: r != p.run && NoneOf(before, r) ==> NoneOf(after, r)
  {
    forall r | r != p.run ensures !Concerns(p, r) { RunOfControl(r, p.run); }
    var pid: nat :| pid !in before && after == before[pid := p];
    assert OnlyProc(after, p.run, pid);
    forall q | q != p && Running(before, q) ensures Running(after, q) {
      var id :| OnlyProc(before, q.run, id) && before[id] == q;
      assert q.run != p.run;
      assert OnlyProc(after, q.run, id) && after[id] == q;
    }
  }

  lemma UpdateRuns(before: map<nat, Proc>, pid: nat, p: Proc)
    requires OnlyProc(before, p.run, pid) && p.control == p.run + "/rw"
    ensures Running(before[pid := p], p)
    ensures forall q: Proc :: q.run != p.run && Running(before, q) ==> Running(before[pid := p], q)
  {
    forall r | r != p.run ensures !Concerns(p, r) { RunOfControl(r, p.run); }
    var after := before[pid := p];
    assert OnlyProc(after, p.run, pid) && after[pid] == p;
    forall q: Proc | q.run != p.run && Running(before, q) ensures Running(after, q) {
      var id :| OnlyProc(before, q.run, id) && before[id] == q;
      assert OnlyProc(after, q.run, id) && after[id] == q;
    }
  }
}
