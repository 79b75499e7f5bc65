/** `Cluster`: bringing a topology up on the host and taking it down again. */
module Clusters {
  import opened Results
  import opened ByteStrings
  import opened Topologies
  import opened NetPlans
  import opened PlanTheorems
  import opened BootSpecs
  import opened BootReader
  import opened ShellWords
  import opened ScriptWords
  import opened PlanWords
  import opened MacAddress
  import opened Paths
  import opened Hosts
  import opened ClusterSpecs

  datatype Failure =
    | NoPlan(link: string)
    | BridgeFailed(bridge: string) | TapFailed(tap: string)
    | NoImage(node: string) | Unsupported(node: string) | RootfsFailed(node: string)
    | BadMemory(node: string) | BootFailed(node: string)
    | AddressFailed(node: string, ip: string) | NoInterface(node: string, mac: string)

  datatype NodeStatus = NodeStatus(name: string, running: bool, reachable: bool)

  type NicMap = map<string, seq<Nic>>

  function NicsAt(m: NicMap, node: string): seq<Nic> { if node in m then m[node] else [] }

  predicate IsBridge(links: map<string, HostLink>, n: string) { n in links && links[n].kind == BridgeKind }

  predicate IsAttached(links: map<string, HostLink>, tap: Tap) {
    tap.name in links && links[tap.name] == HostLink(TapKind, Some(tap.bridge))
  }

  /** No tap from the `i`th on is there yet. */
  predicate TapsFree(taps: seq<Tap>, i: nat, links: map<string, HostLink>) {
    forall j :: i <= j < |taps| ==> taps[j].name !in links
  }

  predicate TapsThere(taps: seq<Tap>, links: map<string, HostLink>) {
    forall t :: t in taps ==> TapIsThere(links, t.name)
  }

  /** The bridge is one of the first `n`. */
  predicate AmongBridges(bridges: seq<Bridge>, n: nat, b: string)
    requires n <= |bridges|
  {
    exists j :: 0 <= j < n && bridges[j].name == b
  }

  /** The first `n` bridges exist and nothing is attached to them. */
  predicate AllBridges(bridges: seq<Bridge>, n: nat, links: map<string, HostLink>)
    requires n <= |bridges|
  {
    && (forall j :: 0 <= j < n ==> IsBridge(links, bridges[j].name))
    && (forall l :: l in links && links[l].master.Some? ==> !AmongBridges(bridges, n, links[l].master.value))
  }

  /** `l` is one of the first `n` taps, planned for the bridge `b`. */
  predicate PlannedOn(taps: seq<Tap>, n: nat, l: string, b: string)
    requires n <= |taps|
  {
    exists j :: 0 <= j < n && taps[j].name == l && taps[j].bridge == b
  }

  /** All bridges exist, the first `n` taps are attached to theirs, and nothing else is
      attached to a planned bridge. */
  predicate Wired(plan: NetPlan, n: nat, links: map<string, HostLink>)
    requires n <= |plan.taps|
  {
    && (forall j :: 0 <= j < |plan.bridges| ==> IsBridge(links, plan.bridges[j].name))
    && (forall j :: 0 <= j < n ==> IsAttached(links, plan.taps[j]))
    && (forall l :: l in links && links[l].master.Some?
                    && AmongBridges(plan.bridges, |plan.bridges|, links[l].master.value) ==>
          PlannedOn(plan.taps, n, l, links[l].master.value))
  }

  predicate TapWord(t: Tap) {
    PlainWord(t.name) && '%' !in t.name && PlainWord(t.mac) && (t.ip == "" || PlainWord(t.ip))
  }

  /** What the host needs of a plan; `PlanIsSound` says every plan has it. */
  predicate Sound(plan: NetPlan) {
    && NoDuplicates(TapNames(plan.taps))
    && CommaFreeTaps(plan.taps)
    && (forall i :: 0 <= i < |plan.taps| ==> TapWord(plan.taps[i]))
    && (forall i, j :: 0 <= i < |plan.taps| && 0 <= j < |plan.bridges| ==> plan.taps[i].name != plan.bridges[j].name)
    && (forall i :: 0 <= i < |plan.taps| ==> AmongBridges(plan.bridges, |plan.bridges|, plan.taps[i].bridge))
  }

  class Cluster {
    const host: Host
    const home: string
    const base: string
    const image: Images
    const caps: Caps

    constructor (host: Host, home: string, base: string, image: Images, caps: Caps)
      ensures this.host == host && this.home == home && this.base == base
      ensures this.image == image && this.caps == caps
    {
      this.host, this.home, this.base, this.image, this.caps := host, home, base, image, caps;
    }

    /** The shell reads every name that `Up` leaves unquoted as one word. */
    predicate Spelled(plan: NetPlan, instances: seq<Instance>) {
      LinkWords(plan.bridges) && RunWords(home, base, instances)
    }

    /** The process that booting an instance starts. */
    function StartOf(inst: Instance, taps: seq<Tap>): Option<Proc>
      requires Fit(image, caps, inst)
    {
      Started(SpecFor(home, image, caps, inst, NicsFor(taps, inst.name)))
    }

    /** A failure that blames a node's description is justified by it. */
    ghost predicate Justified(instances: seq<Instance>, f: Failure) {
      match f
      case NoImage(n) =>
        exists i :: 0 <= i < |instances| && instances[i].name == n && image(instances[i].node.kernel) == None
      case Unsupported(n) =>
        exists i :: 0 <= i < |instances| && instances[i].name == n && !CapsOk(instances[i].node, caps)
      case BadMemory(n) =>
        exists i :: 0 <= i < |instances| && instances[i].name == n && ParseMem(instances[i].node.mem) == None
      case _ => true
    }

    method CreateBridges(bridges: seq<Bridge>) returns (err: Option<Failure>, ghost ok: bool)
      requires host.Valid()
      modifies host
      ensures host.Valid()
      ensures LinkWords(bridges) ==>
                && Same(old(host.State()), host.State(), Elems(BridgeNames(bridges)), {})
                && host.dirs == old(host.dirs) && host.procs == old(host.procs)
      ensures err.Some? ==> err.value.BridgeFailed?
      ensures err == None && ok ==> AllBridges(bridges, |bridges|, host.links)
      ensures host.reliable && LinkWords(bridges) ==>
                err == None && (ok <==> forall j :: 0 <= j < |bridges| ==> DeviceName(bridges[j].name))
    {
      hide Same, AllBridges, WithoutLinks, PlainWord, Readable, DeviceName;
      ok := true;
      ghost var start, words := host.State(), LinkWords(bridges);
      SameSelf(start, Elems(BridgeNames(bridges)), {});
      NoBridges(bridges, host.links);
      for i := 0 to |bridges|
        invariant host.Valid()
        invariant words ==> host.dirs == start.dirs && host.procs == start.procs
        invariant words ==> Same(start, host.State(), Elems(BridgeNames(bridges)), {})
        invariant ok ==> AllBridges(bridges, i, host.links)
        invariant host.reliable && words ==> (ok <==> forall j :: 0 <= j < i ==> DeviceName(bridges[j].name))
      {
        ghost var mid := host.State();
        assert BridgeNames(bridges)[i] == bridges[i].name;
        var failed, done := host.CreateBridge(bridges[i].name);
        if words { SameStep(start, mid, host.State(), {bridges[i].name}, {}, Elems(BridgeNames(bridges)), {}); }
        if failed { return Some(BridgeFailed(bridges[i].name)), ok; }
        if ok && done { OneMoreBridge(bridges, i, mid.links, host.links); }
        ok := ok && done;
      }
      err := None;
    }

    method CreateTaps(plan: NetPlan) returns (err: Option<Failure>, nics: NicMap, ghost ok: bool)
      requires host.Valid() && Sound(plan)
      modifies host
      ensures host.Valid()
      ensures LinkWords(plan.bridges) ==>
                && Same(old(host.State()), host.State(), Elems(TapNames(plan.taps)), {})
                && host.dirs == old(host.dirs) && host.procs == old(host.procs)
      ensures err.Some? ==> err.value.TapFailed?
      ensures err == None ==> forall n :: NicsAt(nics, n) == NicsFor(plan.taps, n)
      ensures err == None && ok && Wired(plan, 0, old(host.links)) && TapsFree(plan.taps, 0, old(host.links)) ==>
                Wired(plan, |plan.taps|, host.links)
      ensures host.reliable && LinkWords(plan.bridges) && DeviceLinks(plan)
              && Wired(plan, 0, old(host.links)) && TapsFree(plan.taps, 0, old(host.links)) ==>
                err == None && ok
    {
      hide Same, NicsFor, Wired, PlainWord, Sound, Readable, DeviceName;
      ok, nics := true, map[];
      var taps := plan.taps;
      ghost var start, words := host.State(), LinkWords(plan.bridges);
      ghost var wired := Wired(plan, 0, host.links) && TapsFree(taps, 0, host.links);
      SameSelf(start, Elems(TapNames(taps)), {});
      NoNics();
      for i := 0 to |taps|
        invariant host.Valid()
        invariant words ==> host.dirs == start.dirs && host.procs == start.procs
        invariant words ==> Same(start, host.State(), Elems(TapNames(taps)), {})
        invariant forall n :: NicsAt(nics, n) == NicsFor(taps[..i], n)
        invariant ok && wired ==> Wired(plan, i, host.links) && TapsFree(taps, i, host.links)
        invariant host.reliable && words && wired && DeviceLinks(plan) ==> ok
      {
        var t := taps[i];
        ghost var mid := host.State();
        TapWords(plan, i);
        if ok && wired { WiredBridge(plan, i, mid.links); }
        var failed, done := host.CreateTap(t.name, t.bridge);
        assert TapNames(taps)[i] == t.name;
        if words { SameStep(start, mid, host.State(), {t.name}, {}, Elems(TapNames(taps)), {}); }
        if failed { return Some(TapFailed(t.name)), nics, ok; }
        if ok && done && wired { WireOne(plan, i, mid.links, host.links); }
        ok := ok && done;
        ghost var was := nics;
        nics := nics[t.node := NicsAt(nics, t.node) + [Nic(t.name, t.mac)]];
        NicsSnoc(taps, i, was, nics);
      }
      assert taps[..|taps|] == taps;
      err := None;
    }

    /** One turn of the boot loop. Capabilities are checked node by node, so an unfit
        node stops the loop but not the nodes before it. */
    method BootNode(inst: Instance, ghost taps: seq<Tap>, nics: NicMap)
      returns (err: Option<Failure>, ghost ok: bool)
      requires host.Valid()
      requires forall n :: NicsAt(nics, n) == NicsFor(taps, n)
      modifies host
      ensures host.Valid()
      ensures RunWords(home, base, [inst]) ==>
                && Same(old(host.State()), host.State(), {}, {RunDir(home, inst.name)})
                && host.links == old(host.links)
                && (host.procs == old(host.procs)
                    || (Startable(inst, taps) && Spawned(old(host.procs), host.procs, StartOf(inst, taps))))
      ensures err.Some? ==> Justified([inst], err.value)
      ensures err == None ==> Fit(image, caps, inst)
      ensures host.reliable && RunWords(home, base, [inst]) && Fit(image, caps, inst)
              && Supplied(inst, taps, old(host.State())) ==>
                err == None && ok
      ensures err == None && ok ==>
                && host.dirs == WithoutTrees(old(host.dirs), {RunDir(home, inst.name)}) + Made(RunDir(home, inst.name))
                && Spawned(old(host.procs), host.procs, StartOf(inst, taps))
    {
      hide Same, RunDir, Dir, Started, Spawned, NicsFor, CapsOk, ParseMem, PlainWord, Made, WithoutTrees, Readable;
      hide Complete, BaseLost, CanCopy, IsThere, Refused, NodeProc, TapsThere;
      ok := false;
      ghost var start := host.State();
      SameSelf(start, {}, {RunDir(home, inst.name)});
      assert [inst][0] == inst;
      var img := image(inst.node.kernel);
      if img == None { return Some(NoImage(inst.name)), ok; }
      if !CapsOk(inst.node, caps) { return Some(Unsupported(inst.name)), ok; }
      var run := RunDir(home, inst.name);
      var failed, prepared := host.PrepRootfs(run, base);
      if failed { return Some(RootfsFailed(inst.name)), ok; }
      var spec := ResolveBootSpec(inst.name, inst.node, img.value, run + "/rootfs", run + "/rw");
      if spec == None { return Some(BadMemory(inst.name)), ok; }
      ghost var mid := host.State();
      ControlParent(home, inst.name);
      assert spec.value.(nics := NicsAt(nics, inst.name)) == SpecFor(home, image, caps, inst, NicsFor(taps, inst.name));
      if RunWords(home, base, [inst]) && Supplied(inst, taps, start) && prepared {
        CompleteNow(inst, taps, start, mid);
      }
      var refused, handle, booted := host.Boot(spec.value.(nics := NicsAt(nics, inst.name)));
      if RunWords(home, base, [inst]) { SameStep(start, mid, host.State(), {}, {run}, {}, {run}); }
      if refused { return Some(BootFailed(inst.name)), ok; }
      ok := prepared && booted;
      err := None;
    }

    method BootAll(instances: seq<Instance>, ghost taps: seq<Tap>, nics: NicMap)
      returns (err: Option<Failure>, ghost ok: bool)
      requires host.Valid()
      requires forall n :: NicsAt(nics, n) == NicsFor(taps, n)
      requires CommaFreeTaps(taps)
      modifies host
      ensures host.Valid()
      ensures RunWords(home, base, instances) ==>
                && Same(old(host.State()), host.State(), {}, Runs(home, instances))
                && host.links == old(host.links)
                && OnlyFitAdded(instances, taps, old(host.procs), host.procs)
      ensures err.Some? ==> Justified(instances, err.value)
      ensures err == None ==> AllFit(instances)
      ensures host.reliable && RunWords(home, base, instances) && Bootable(instances, old(host.procs))
              && Stocked(instances, 0, old(host.dirs)) && TapsThere(taps, old(host.links)) && AllFit(instances) ==>
                err == None && ok
      ensures err == None && ok && Bootable(instances, old(host.procs)) && RunWords(home, base, instances) ==>
                Booted(instances, |instances|, taps, 0, host.State())
    {
      hide Same, Runs, RunDir, StartOf, Spawned, NicsFor, NodeProc, Fit, Running, NoneOf, RunWords, Made, WithoutTrees;
      hide OnlyFitAdded, Bootable, Booted, RestAbsent, Stocked, TapsThere, Startable, Supplied;
      ok := true;
      ghost var start, words := host.State(), RunWords(home, base, instances);
      ghost var fine := && host.reliable && words && Bootable(instances, start.procs)
                        && Stocked(instances, 0, start.dirs) && TapsThere(taps, start.links) && AllFit(instances);
      SameSelf(start, {}, Runs(home, instances));
      NothingYet(instances, taps, start);
      for i := 0 to |instances|
        invariant host.Valid()
        invariant words ==> host.links == start.links
        invariant words ==> Same(start, host.State(), {}, Runs(home, instances))
        invariant words ==> OnlyFitAdded(instances, taps, start.procs, host.procs)
        invariant forall j :: 0 <= j < i ==> Fit(image, caps, instances[j])
        invariant fine ==> ok && Stocked(instances, i, host.dirs)
        invariant ok && words && Bootable(instances, start.procs) ==>
                    Booted(instances, i, taps, 0, host.State()) && RestAbsent(instances, i, host.procs)
      {
        ghost var mid, inst := host.State(), instances[i];
        if fine { SuppliedNow(instances, i, taps, start, mid); }
        if words { OneRunWord(instances, i); }
        var failure, done := BootNode(instances[i], taps, nics);
        RunOf(instances, i);
        if words {
          SameStep(start, mid, host.State(), {}, {RunDir(home, inst.name)}, {}, Runs(home, instances));
          AddOne(instances, i, taps, start.procs, mid.procs, host.procs);
        }
        if failure.Some? { return failure, ok; }
        if fine { StockedStill(instances, i, mid.dirs); }
        if ok && done && words && Bootable(instances, start.procs) {
          BootOne(instances, i, taps, start.procs, mid, host.State());
        }
        ok := ok && done;
      }
      err := None;
    }

    /** Addresses are assigned tap by tap, each to the interface with the tap's
        hardware address. */
    method Configure(taps: seq<Tap>, ghost instances: seq<Instance>) returns (err: Option<Failure>, ghost ok: bool)
      requires forall i :: 0 <= i < |taps| ==> taps[i].node in NamesOf(instances) && TapWord(taps[i])
      modifies host`procs
      ensures NoOutsider(old(host.procs), Runs(home, instances)) ==>
                Same(old(host.State()), host.State(), {}, Runs(home, instances))
      ensures err.Some? ==> Justified(instances, err.value)
      ensures SameServers(old(host.procs), host.procs)
      ensures err == None && ok && ApartRuns(home, instances) && TellApart(taps)
              && Booted(instances, |instances|, taps, 0, old(host.State())) ==>
                Booted(instances, |instances|, taps, |taps|, host.State())
      ensures host.reliable && ApartRuns(home, instances) && TellApart(taps)
              && Booted(instances, |instances|, taps, 0, old(host.State())) ==>
                err == None && ok
    {
      hide Same, Runs, RunDir, Booted, ApartRuns, TellApart, HasMac, WithAddr, GaveAddr, PlainWord, Readable;
      hide SameServers, NoOutsider;
      ok := true;
      ghost var start, n, runs := host.State(), |instances|, Runs(home, instances);
      ghost var good := ApartRuns(home, instances) && TellApart(taps) && Booted(instances, n, taps, 0, start);
      SameSelf(start, {}, runs);
      ServersSelf(host.procs);
      for i := 0 to |taps|
        invariant host.links == old(host.links) && host.dirs == old(host.dirs)
        invariant NoOutsider(start.procs, runs) ==> Same(start, host.State(), {}, runs)
        invariant SameServers(start.procs, host.procs)
        invariant ok && good ==> Booted(instances, n, taps, i, host.State())
        invariant host.reliable && good ==> ok
      {
        var t := taps[i];
        ghost var mid := host.State();
        ghost var owner :| 0 <= owner < n && NamesOf(instances)[owner] == t.node;
        if t.ip == "" {
          if ok && good { ConfigStep(instances, taps, i, owner, mid, host.State()); }
        } else {
          var run := RunDir(home, t.node);
          if ok && good { ghost var _ := Unconfigured(instances, taps, i, owner, mid); }
          RunOf(instances, owner);
          OutsidersStill(start.procs, mid.procs, runs);
          var rc, done := host.Assign(run, t.mac, t.ip, runs);
          if NoOutsider(start.procs, runs) { SameStep(start, mid, host.State(), {}, runs, {}, runs); }
          ServersTwice(start.procs, mid.procs, host.procs);
          if rc == None { return Some(AddressFailed(t.node, t.ip)), ok; }
          if rc.value != 0 { return Some(NoInterface(t.node, t.mac)), ok; }
          if ok && done && good { ConfigStep(instances, taps, i, owner, mid, host.State()); }
          ok := ok && done;
        }
      }
      err := None;
    }

    /** Bringing a topology up. If the shell reads the names as they are, only planned
        resources are touched, whatever happens; if nothing fails, the host realizes the
        plan; on a reliable host nothing fails if and only if every instance is fit. */
    method Up(t: Topology, parse: CidrParser) returns (err: Option<Failure>, ghost ok: bool)
      requires host.Valid()
      modifies host
      ensures host.Valid()
      ensures PlanOf(t, parse).Err? ==> err == Some(NoPlan(PlanOf(t, parse).error)) && host.State() == old(host.State())
      ensures PlanOf(t, parse).Ok? && Spelled(PlanOf(t, parse).value, Expansion(t)) ==>
                && (NoOutsider(old(host.procs), Runs(home, Expansion(t))) ==>
                      Same(old(host.State()), host.State(),
                           Elems(LinkNames(PlanOf(t, parse).value)), Runs(home, Expansion(t))))
                && OnlyFitAdded(Expansion(t), PlanOf(t, parse).value.taps, old(host.procs), host.procs)
      ensures err.Some? && PlanOf(t, parse).Ok? ==> Justified(Expansion(t), err.value)
      ensures err == None ==> AllFit(Expansion(t))
      ensures err == None && ok && Realizable(t, parse, old(host.State())) ==>
                Realized(t, PlanOf(t, parse).value, host.State())
      ensures host.reliable && CanRun(t, parse, old(host.State())) ==>
                ok && (err == None <==> AllFit(Expansion(t)))
    {
      hide Same, Scrub, Runs, Booted, Bootable, OnlyFitAdded, NicsFor, NicsAt, Sound, Wired, AllBridges, LinkNames;
      hide TellApart, ApartRuns, Elems, TapNames, BridgeNames, PlanOf, Expansion, SameServers, Attached, LinkWords;
      hide CommaFreeTaps, AllFit, RunWords, TapWord, Named, DeviceLinks, Stocked, TapsFree, TapsThere, NoOutsider;
      ok := true;
      ghost var instances, start := Expansion(t), host.State();
      NothingYet(instances, [], start);
      var p := Plan(t, parse);
      if p.Err? { return Some(NoPlan(p.error)), ok; }
      var plan := p.value;
      PlanIsSound(t, parse);
      NothingYet(instances, plan.taps, start);
      ghost var names, runs := Elems(LinkNames(plan)), Runs(home, instances);
      ghost var words := Spelled(plan, instances);
      PlannedNames(plan);
      var failure, done := CreateBridges(plan.bridges);
      if words {
        SameWider(start, host.State(), Elems(BridgeNames(plan.bridges)), {}, names, runs);
        FreeStill(plan, start, host.State());
      }
      if failure.Some? { return failure, ok; }
      if DeviceLinks(plan) { BridgesAreDevices(plan); }
      ok := ok && done;
      if ok { NothingWired(plan, host.links); }
      if Bootable(instances, start.procs) { BootableRuns(instances, start.procs); }
      ghost var mid := host.State();
      var nics;
      failure, nics, done := CreateTaps(plan);
      if words { SameStep(start, mid, host.State(), Elems(TapNames(plan.taps)), {}, names, runs); }
      if failure.Some? { return failure, ok; }
      ok := ok && done;
      if Wired(plan, |plan.taps|, host.links) { WiredTaps(plan, host.links); }
      var list := Expand(t);
      mid := host.State();
      failure, done := BootAll(list, plan.taps, nics);
      if words { SameStep(start, mid, host.State(), {}, runs, names, runs); }
      if failure.Some? { return failure, ok; }
      ok := ok && done;
      mid := host.State();
      failure, done := Configure(plan.taps, instances);
      if words {
        if NoOutsider(start.procs, runs) {
          OutsidersAfter(instances, plan.taps, start.procs, mid.procs);
          SameStep(start, mid, host.State(), {}, runs, names, runs);
        }
        SameServersFit(instances, plan.taps, start.procs, mid.procs, host.procs);
      }
      if failure.Some? { return failure, ok; }
      ok := ok && done;
      err := None;
    }

    /** The links that `Down` deletes: taps, then bridges. */
    method ListLinks(plan: NetPlan) returns (links: seq<string>)
      ensures links == LinkNames(plan)
    {
      links := [];
      for i := 0 to |plan.taps|
        invariant links == TapNames(plan.taps)[..i]
      {
        links := links + [plan.taps[i].name];
      }
      for i := 0 to |plan.bridges|
        invariant links == TapNames(plan.taps) + BridgeNames(plan.bridges)[..i]
      {
        links := links + [plan.bridges[i].name];
      }
    }

    /** Taking a topology down. The source ignores the planner's error and would fail on
        a missing plan; `PlanTheorems.ValidPlans` says that validated topologies have one.
        The links deleted are the words that the shell reads in the list of their names. */
    method Down(t: Topology, parse: CidrParser) returns (ghost ok: bool)
      requires host.Valid() && PlanOf(t, parse).Ok?
      modifies host
      ensures host.Valid()
      ensures Doomed(t, parse).Some? ==>
                && Same(old(host.State()), host.State(), Elems(Doomed(t, parse).value), Runs(home, Expansion(t)))
                && OnlyRemoved(old(host.State()), host.State())
      ensures ok ==>
                && Doomed(t, parse).Some?
                && host.State() == Scrub(old(host.State()), Elems(Doomed(t, parse).value), Runs(home, Expansion(t)))
      ensures host.reliable && Doomed(t, parse).Some? && Removable(Expansion(t)) ==> ok
    {
      hide Same, RunDir, Runs, Refused, LinkNames, PlanOf, Expansion, WithoutProcs, WithoutLinks, WithoutTrees;
      hide Attached;
      hide OnlyRemoved, Words, Join;
      ok := true;
      ghost var start := host.State();
      var p := Plan(t, parse);
      var plan := p.value;
      var list := Expand(t);
      ghost var runs := Runs(home, list);
      SameSelf(start, {}, runs);
      RemovedSelf(start);
      NothingStopped(list, start);
      for i := 0 to |list|
        invariant host.links == old(host.links)
        invariant Same(start, host.State(), {}, runs) && OnlyRemoved(start, host.State())
        invariant ok ==> host.dirs == WithoutTrees(start.dirs, Runs(home, list[..i]))
        invariant ok ==> host.procs == WithoutProcs(start.procs, Runs(home, list[..i]))
        invariant host.reliable && Removable(list) ==> ok
      {
        ghost var mid := host.State();
        var run := RunDir(home, list[i].name);
        var failed, done := host.Stop(run);
        RunOf(list, i);
        SameStep(start, mid, host.State(), {}, {run}, {}, runs);
        RemovedTwice(start, mid, host.State());
        StopOne(list, i, start);
        ok := ok && done;
      }
      assert list[..|list|] == list;
      var links := ListLinks(plan);
      ghost var mid := host.State();
      NoLinksGone(host.links);
      NoWords();
      if |links| > 0 {
        var done := host.DeleteLinks(Join(links, " "));
        ok := ok && done;
      } else {
        assert Elems(links) == {};
      }
      if Doomed(t, parse).Some? {
        ghost var names := Elems(Doomed(t, parse).value);
        SameWider(start, mid, {}, runs, names, runs);
        SameSelf(mid, names, {});
        SameStep(start, mid, host.State(), names, {}, names, runs);
        RemovedSelf(mid);
        RemovedTwice(start, mid, host.State());
      }
    }

    /** `klab up` and then `klab down`, if the shell reads the names as they are: whatever
        fails on the way up, a `Down` that does its job leaves what was there before, less
        anything that had the planned names, and perhaps the directories above the run
        directories. If these were there, a host is exactly as before if and only if it
        was clear of the planned names. */
    method UpThenDown(t: Topology, parse: CidrParser) returns (err: Option<Failure>, ghost ok: bool)
      requires host.Valid() && WellFormed(t, parse)
      modifies host
      ensures host.Valid()
      ensures PlanOf(t, parse).Ok?
      ensures var names, runs := Elems(LinkNames(PlanOf(t, parse).value)), Runs(home, Expansion(t));
              var was, now := old(host.State()), host.State();
              ok && Spelled(PlanOf(t, parse).value, Expansion(t)) && NoOutsider(was.procs, runs) ==>
                && now.links == Scrub(was, names, runs).links && now.procs == Scrub(was, names, runs).procs
                && Scrub(was, names, runs).dirs <= now.dirs <= Scrub(was, names, runs).dirs + Above(runs)
                && Clear(now, names, runs)
                && (Above(runs) <= was.dirs ==>
                      now == Scrub(was, names, runs) && (now == was <==> Clear(was, names, runs)))
      ensures host.reliable && Spelled(PlanOf(t, parse).value, Expansion(t)) && Removable(Expansion(t)) ==> ok
    {
      hide Same, Scrub, Clear, Runs, LinkNames, PlanOf, Expansion, WellFormed, Justified, OnlyFitAdded, AllFit;
      hide CanRun, Realizable, Realized, Words, Join, OnlyRemoved, NoOutsider, Removable;
      ghost var start := host.State();
      ValidPlans(t, parse);
      ghost var plan := PlanOf(t, parse).value;
      ghost var names, runs := Elems(LinkNames(plan)), Runs(home, Expansion(t));
      err, ok := Up(t, parse);
      ghost var mid := host.State();
      PlanIsSound(t, parse);
      if Spelled(plan, Expansion(t)) { DoomedIsPlanned(t, parse); }
      ok := Down(t, parse);
      if Spelled(plan, Expansion(t)) && NoOutsider(start.procs, runs) { ScrubRestores(start, mid, names, runs); }
      ScrubNothingIff(start, names, runs);
      ScrubClears(mid, names, runs);
    }

    /** After a `Down` that did its job, `Down` once more changes nothing, whatever fails. */
    method DownTwice(t: Topology, parse: CidrParser) returns (ghost once: HostState, ghost ok: bool)
      requires host.Valid() && PlanOf(t, parse).Ok?
      modifies host
      ensures ok ==> host.State() == once
      ensures host.reliable && Doomed(t, parse).Some? && Removable(Expansion(t)) ==> ok
    {
      hide Same, Scrub, Clear, Runs, Doomed, PlanOf, Expansion, OnlyRemoved, Removable;
      ghost var start := host.State();
      ok := Down(t, parse);
      once := host.State();
      var _ := Down(t, parse);
      if ok {
        ghost var names, runs := Elems(Doomed(t, parse).value), Runs(home, Expansion(t));
        ScrubClears(start, names, runs);
        NothingToRemove(once, host.State(), names, runs);
      }
    }

    /** `Status`: each instance in order; only a running node is reachable. If the shell
        reads the run directories as they are, nothing on the host changes, a node with a
        process is running, and one whose control directory is served is reachable. */
    method Status(t: Topology) returns (out: seq<NodeStatus>)
      requires host.Valid()
      modifies host
      ensures host.Valid()
      ensures |out| == |Expansion(t)|
      ensures forall i :: 0 <= i < |out| ==>
                out[i].name == Expansion(t)[i].name && (out[i].reachable ==> out[i].running)
      ensures DirWords(home, Expansion(t)) ==>
                && host.State() == old(host.State())
                && forall i :: 0 <= i < |out| ==>
                     Shown(host.procs, RunDir(home, Expansion(t)[i].name), out[i], host.reliable)
    {
      hide RunDir, Expansion, PlainWord, Readable, Shown;
      out := [];
      var list := Expand(t);
      ghost var words, procs := DirWords(home, list), host.procs;
      for i := 0 to |list|
        invariant host.Valid() && |out| == i
        invariant words ==> host.State() == old(host.State())
        invariant forall j :: 0 <= j < i ==> out[j].name == list[j].name && (out[j].reachable ==> out[j].running)
        invariant words ==>
                    forall j :: 0 <= j < i ==> Shown(procs, RunDir(home, list[j].name), out[j], host.reliable)
      {
        var run := RunDir(home, list[i].name);
        var unseen := host.Fault();
        var silent := host.Fault();
        var misread := host.Misread(run);
        var running := !unseen && Alive(host.procs, run);
        var reachable := running && !silent && Answering(host.procs, run);
        if misread {
          running := host.Stray();
          reachable := *;
          reachable := running && reachable;
        }
        out := out + [NodeStatus(list[i].name, running, reachable)];
        if words { Shows(procs, run, out[i], host.reliable, unseen, silent); }
      }
    }

    /** The check of `klab exec`: a node is known if and only if it is an instance. */
    method Knows(t: Topology, name: string) returns (known: bool)
      ensures known <==> name in NamesOf(Expansion(t))
    {
      hide Expansion;
      var list := Expand(t);
      known := false;
      for i := 0 to |list|
        invariant known <==> name in NamesOf(list)[..i]
      {
        if list[i].name == name { return true; }
      }
      assert NamesOf(list)[..|list|] == NamesOf(list);
    }

    // ----- specification of the boot loop --------------------------------

    predicate AllFit(instances: seq<Instance>) {
      forall i :: 0 <= i < |instances| ==> Fit(image, caps, instances[i])
    }

    /** What the shell makes of the list of links in `Down`'s script. */
    function Doomed(t: Topology, parse: CidrParser): Option<seq<string>>
      requires PlanOf(t, parse).Ok?
    {
      Words(Join(LinkNames(PlanOf(t, parse).value), " "))
    }

    /** If no command fails the plan is realized: names are read as they are, run
        directories are apart, unused and without commas, taps are new, kernel paths are
        no flag, hardware addresses differ. */
    ghost predicate Realizable(t: Topology, parse: CidrParser, h: HostState) {
      && PlanOf(t, parse).Ok? && Spelled(PlanOf(t, parse).value, Expansion(t))
      && Bootable(Expansion(t), h.procs) && TellApart(PlanOf(t, parse).value.taps)
      && TapsFree(PlanOf(t, parse).value.taps, 0, h.links)
    }

    /** Nothing stands in the way of realizing the plan but a failing command or an unfit
        node: besides, Linux takes the names of links, and the base and the kernels are
        there and stay. */
    ghost predicate CanRun(t: Topology, parse: CidrParser, h: HostState) {
      && Realizable(t, parse, h)
      && DeviceLinks(PlanOf(t, parse).value) && Stocked(Expansion(t), 0, h.dirs)
    }

    /** What booting one instance needs of the host. */
    ghost predicate Supplied(inst: Instance, taps: seq<Tap>, h: HostState)
      requires Fit(image, caps, inst)
    {
      var run := RunDir(home, inst.name);
      && !Refused(run) && CanCopy(WithoutTrees(h.dirs, {run}), run, base)
      && IsThere(WithoutTrees(h.dirs, {run}), image(inst.node.kernel).value)
      && StartOf(inst, taps) == Some(NodeProc(home, image, taps, 0, inst))
      && TapsThere(taps, h.links)
    }

    /** A process for the instance can start. If preparing removes the base, a reliable host
        has no root file system for it in its run directory. */
    ghost predicate Startable(inst: Instance, taps: seq<Tap>) {
      var run := RunDir(home, inst.name);
      && Fit(image, caps, inst) && StartOf(inst, taps).Some?
      && (host.reliable && BaseLost(run, base) ==> StartOf(inst, taps).value.root != run + "/rootfs")
    }

    /** The process is that of the instance, whatever its interfaces carry. */
    ghost predicate IsOf(p: Proc, inst: Instance, taps: seq<Tap>) {
      Startable(inst, taps) && StartOf(inst, taps) == Some(p.(ifaces := StartOf(inst, taps).value.ifaces))
    }

    ghost predicate AddedFor(p: Proc, instances: seq<Instance>, taps: seq<Tap>) {
      exists i :: 0 <= i < |instances| && IsOf(p, instances[i], taps)
    }

    /** Every process added is that of an instance that passed every check. */
    ghost predicate OnlyFitAdded(instances: seq<Instance>, taps: seq<Tap>,
                                 before: map<nat, Proc>, after: map<nat, Proc>) {
      && (forall p :: p in before ==> p in after && after[p] == before[p].(ifaces := after[p].ifaces))
      && (forall p :: p in after && p !in before ==> AddedFor(after[p], instances, taps))
    }

    /** Run directories are apart, unused and without commas, and no kernel path is a
        flag. */
    ghost predicate Bootable(instances: seq<Instance>, procs: map<nat, Proc>) {
      && ApartRuns(home, instances)
      && (forall i :: 0 <= i < |instances| ==>
            image(instances[i].node.kernel) != Some("-nographic") && ',' !in RunDir(home, instances[i].name))
      && RestAbsent(instances, 0, procs)
    }

    /** `rm -rf` does not refuse any run directory. */
    predicate Removable(instances: seq<Instance>) {
      forall i :: 0 <= i < |instances| ==> !Refused(RunDir(home, instances[i].name))
    }

    /** No run directory has the path in its tree. */
    predicate OutOfRuns(instances: seq<Instance>, path: string) {
      forall i :: 0 <= i < |instances| ==> !Under(path, RunDir(home, instances[i].name))
    }

    /** The base and the kernels of the instances from the `n`th on are there, and preparing
        run directories leaves them as long as they are needed. */
    ghost predicate Stocked(instances: seq<Instance>, n: nat, dirs: set<string>) {
      && Removable(instances) && IsThere(dirs, base) && OutOfRuns(instances, Clean(base))
      && (forall i :: 0 <= i < |instances| ==>
            Rooted(RunDir(home, instances[i].name)) && !Under(RunDir(home, instances[i].name), Clean(base)))
      && (forall i :: n <= i < |instances| && image(instances[i].node.kernel).Some? ==>
            IsThere(dirs, image(instances[i].node.kernel).value))
      && KernelsStay(instances)
    }

    /** No run directory has the kernel of its node or of a later one in its tree. */
    predicate KernelsStay(instances: seq<Instance>) {
      forall i, j :: 0 <= j <= i < |instances| && image(instances[i].node.kernel).Some? ==>
        !Under(Clean(image(instances[i].node.kernel).value), RunDir(home, instances[j].name))
    }

    ghost predicate RestAbsent(instances: seq<Instance>, n: nat, procs: map<nat, Proc>) {
      forall i :: n <= i < |instances| ==> NoneOf(procs, RunDir(home, instances[i].name))
    }

    /** The first `n` instances run, with the first `m` taps configured. */
    ghost predicate Booted(instances: seq<Instance>, n: nat, taps: seq<Tap>, m: nat, h: HostState)
      requires n <= |instances| && m <= |taps|
    {
      forall i :: 0 <= i < n ==>
        && Ready(h.dirs, RunDir(home, instances[i].name))
        && Running(h.procs, NodeProc(home, image, taps, m, instances[i]))
    }

    /** Bridges and taps are wired as planned, and every instance runs, alone in its
        run directory, with its kernel and with each interface carrying the address of
        its own tap and no other. */
    ghost predicate Realized(t: Topology, plan: NetPlan, h: HostState) {
      && Wired(plan, |plan.taps|, h.links)
      && Booted(Expansion(t), |Expansion(t)|, plan.taps, |plan.taps|, h)
    }

    lemma BootableRuns(instances: seq<Instance>, procs: map<nat, Proc>)
      requires Bootable(instances, procs)
      ensures ApartRuns(home, instances)
    {
    }

    lemma SameServersFit(instances: seq<Instance>, taps: seq<Tap>, start: map<nat, Proc>,
                         before: map<nat, Proc>, after: map<nat, Proc>)
      requires OnlyFitAdded(instances, taps, start, before) && SameServers(before, after)
      ensures OnlyFitAdded(instances, taps, start, after)
    {
      hide Startable, StartOf;
      forall p | p in after && p !in start ensures AddedFor(after[p], instances, taps) {
        var i :| 0 <= i < |instances| && IsOf(before[p], instances[i], taps);
        assert IsOf(after[p], instances[i], taps);
      }
    }

    lemma ServersTwice(a: map<nat, Proc>, b: map<nat, Proc>, c: map<nat, Proc>)
      requires SameServers(a, b) && SameServers(b, c)
      ensures SameServers(a, c)
    {
    }

    lemma OutsidersStill(before: map<nat, Proc>, after: map<nat, Proc>, runs: set<string>)
      requires SameServers(before, after)
      ensures NoOutsider(before, runs) ==> NoOutsider(after, runs)
    {
    }

    /** Processes that `Up` adds are launched for its own run directories. */
    lemma OutsidersAfter(instances: seq<Instance>, taps: seq<Tap>, before: map<nat, Proc>, after: map<nat, Proc>)
      requires OnlyFitAdded(instances, taps, before, after) && NoOutsider(before, Runs(home, instances))
      ensures NoOutsider(after, Runs(home, instances))
    {
      hide RunDir, Fit, Started, NicsFor, BaseLost;
      forall p | p in after && p !in before ensures after[p].run in Runs(home, instances) {
        var i :| 0 <= i < |instances| && IsOf(after[p], instances[i], taps);
        ControlParent(home, instances[i].name);
        assert StartOf(instances[i], taps).value.run == RunDir(home, instances[i].name);
      }
    }

    /** After preparing, a node finds all it needs. */
    lemma CompleteNow(inst: Instance, taps: seq<Tap>, before: HostState, after: HostState)
      requires Fit(image, caps, inst) && Supplied(inst, taps, before)
      requires after.dirs == WithoutTrees(before.dirs, {RunDir(home, inst.name)}) + Made(RunDir(home, inst.name))
      requires after.links == before.links
      ensures Complete(SpecFor(home, image, caps, inst, NicsFor(taps, inst.name)), after)
    {
      hide RunDir, Dir, Started, OwnTaps, Fit, WithoutTrees, Clean, SpecFor, MeantSetup, SetupFor, ConsoleOf;
      var nics := NicsFor(taps, inst.name);
      SetupOfSpec(home, image, caps, inst, nics, ConsoleOf(RunDir(home, inst.name)));
      ControlParent(home, inst.name);
      IfacesAtStart(taps, inst.name);
      forall n | n in nics ensures TapIsThere(after.links, n.tap) {
        var k :| 0 <= k < |nics| && nics[k] == n;
        var i := OwnIsRanked(taps, inst.name, k);
        assert taps[i] in taps;
      }
    }

    /** What is there at the start is there when an instance's turn comes. */
    lemma SuppliedNow(instances: seq<Instance>, i: nat, taps: seq<Tap>, start: HostState, now: HostState)
      requires i < |instances| && Fit(image, caps, instances[i]) && CommaFreeTaps(taps)
      requires Bootable(instances, start.procs) && Stocked(instances, i, now.dirs)
      requires TapsThere(taps, now.links)
      ensures Supplied(instances[i], taps, now)
    {
      hide RunDir, Clean, Under, Refused, Started, NicsFor, NodeProc, IfacesAt;
      Starts(instances, i, taps, start.procs);
      OneTree(RunDir(home, instances[i].name));
    }

    lemma StockedStill(instances: seq<Instance>, i: nat, dirs: set<string>)
      requires i < |instances| && Stocked(instances, i, dirs)
      ensures var run := RunDir(home, instances[i].name);
              Stocked(instances, i + 1, WithoutTrees(dirs, {run}) + Made(run))
    {
      hide RunDir, Clean, Under, Refused, Made;
      OneTree(RunDir(home, instances[i].name));
    }

    lemma OneRunWord(instances: seq<Instance>, i: nat)
      requires i < |instances| && RunWords(home, base, instances)
      ensures RunWords(home, base, [instances[i]])
    {
      hide RunDir, PlainWord;
    }

    /** The interface that the next tap's address is for exists and does not have it. */
    lemma Unconfigured(instances: seq<Instance>, taps: seq<Tap>, i: nat, owner: nat, h: HostState) returns (pid: nat)
      requires i < |taps| && owner < |instances| && instances[owner].name == taps[i].node && taps[i].ip != ""
      requires TellApart(taps) && Booted(instances, |instances|, taps, i, h)
      ensures OnlyProc(h.procs, RunDir(home, taps[i].node), pid)
      ensures exists k :: HasMac(h.procs[pid].ifaces, k, taps[i].mac)
      ensures forall k :: HasMac(h.procs[pid].ifaces, k, taps[i].mac) ==> taps[i].ip !in h.procs[pid].ifaces[k].addrs
    {
      hide RunDir, TellApart, OwnTaps, Ready;
      var p := NodeProc(home, image, taps, i, instances[owner]);
      assert Running(h.procs, p);
      pid :| OnlyProc(h.procs, p.run, pid) && h.procs[pid] == p;
      ConfigureOne(taps, i, p);
      assert HasMac(h.procs[pid].ifaces, Rank(taps, i), taps[i].mac);
    }

    lemma ConfigStep(instances: seq<Instance>, taps: seq<Tap>, i: nat, owner: nat, before: HostState, after: HostState)
      requires i < |taps| && owner < |instances| && instances[owner].name == taps[i].node
      requires ApartRuns(home, instances) && TellApart(taps)
      requires Booted(instances, |instances|, taps, i, before)
      requires after.dirs == before.dirs
      requires if taps[i].ip == "" then after == before
               else forall pid :: OnlyProc(before.procs, RunDir(home, taps[i].node), pid) ==>
                      && pid in after.procs && after.procs == before.procs[pid := after.procs[pid]]
                      && GaveAddr(before.procs[pid], after.procs[pid], taps[i].mac, taps[i].ip)
      ensures Booted(instances, |instances|, taps, i + 1, after)
    {
      hide RunDir, IfacesAt, TellApart, OwnTaps, Ready, ApartRuns;
      var p := NodeProc(home, image, taps, i, instances[owner]);
      var next := NodeProc(home, image, taps, i + 1, instances[owner]);
      assert Running(before.procs, p);
      var pid :| OnlyProc(before.procs, p.run, pid) && before.procs[pid] == p;
      ConfigureOne(taps, i, p);
      if taps[i].ip != "" {
        assert after.procs[pid] == WithAddr(p, Rank(taps, i), taps[i].ip);
        assert after.procs == before.procs[pid := next];
        UpdateRuns(before.procs, pid, next);
      }
      forall j | 0 <= j < |instances| && j != owner
        ensures Running(after.procs, NodeProc(home, image, taps, i + 1, instances[j]))
      {
        assert Running(before.procs, NodeProc(home, image, taps, i, instances[j]));
        ApartDiffer(home, instances, j, owner);
        assert RunDir(home, instances[j].name) != p.run;
        OthersUnchanged(taps, i, instances[j].name);
      }
    }

    lemma NothingStopped(instances: seq<Instance>, h: HostState)
      ensures WithoutTrees(h.dirs, Runs(home, instances[..0])) == h.dirs
      ensures WithoutProcs(h.procs, Runs(home, instances[..0])) == h.procs
    {
    }

    lemma RunsSnoc(instances: seq<Instance>, i: nat)
      requires i < |instances|
      ensures Runs(home, instances[..i + 1]) == Runs(home, instances[..i]) + {RunDir(home, instances[i].name)}
    {
      hide RunDir;
      var all := instances[..i + 1];
      assert all[i] == instances[i];
      forall r | r in Runs(home, instances[..i]) + {RunDir(home, instances[i].name)} ensures r in Runs(home, all) {
        if r in Runs(home, instances[..i]) {
          var j :| 0 <= j < i && r == RunDir(home, instances[..i][j].name);
          assert all[j] == instances[..i][j];
        }
      }
      forall r | r in Runs(home, all) ensures r in Runs(home, instances[..i]) + {RunDir(home, instances[i].name)} {
        var j :| 0 <= j <= i && r == RunDir(home, all[j].name);
        if j < i { assert instances[..i][j] == all[j]; }
      }
    }

    lemma StopOne(instances: seq<Instance>, i: nat, h: HostState)
      requires i < |instances|
      ensures var done, all := Runs(home, instances[..i]), Runs(home, instances[..i + 1]);
              var run := RunDir(home, instances[i].name);
              && WithoutTrees(WithoutTrees(h.dirs, done), {run}) == WithoutTrees(h.dirs, all)
              && WithoutProcs(WithoutProcs(h.procs, done), {run}) == WithoutProcs(h.procs, all)
    {
      hide RunDir, Runs, WithoutTrees, WithoutProcs;
      RunsSnoc(instances, i);
      TreesTwice(h.dirs, Runs(home, instances[..i]), {RunDir(home, instances[i].name)});
      ProcsTwice(h.procs, Runs(home, instances[..i]), {RunDir(home, instances[i].name)});
    }

    /** Plain names are deleted as planned. */
    lemma DoomedIsPlanned(t: Topology, parse: CidrParser)
      requires PlanOf(t, parse).Ok? && LinkWords(PlanOf(t, parse).value.bridges)
      ensures Doomed(t, parse) == Some(LinkNames(PlanOf(t, parse).value))
    {
      hide PlanOf, PlainWord, Words, Join;
      PlanIsSound(t, parse);
      var plan := PlanOf(t, parse).value;
      forall i | 0 <= i < |LinkNames(plan)| ensures PlainWord(LinkNames(plan)[i]) {
        if i < |plan.taps| {
          assert TapWord(plan.taps[i]);
        } else {
          assert PlainWord(BridgeNames(plan.bridges)[i - |plan.taps|]);
        }
      }
      WordsOfNamesIff(LinkNames(plan));
    }

    lemma NothingYet(instances: seq<Instance>, taps: seq<Tap>, h: HostState)
      ensures OnlyFitAdded(instances, taps, h.procs, h.procs)
      ensures Bootable(instances, h.procs) ==> Booted(instances, 0, taps, 0, h) && RestAbsent(instances, 0, h.procs)
    {
    }

    lemma RunOf(instances: seq<Instance>, i: nat)
      requires i < |instances|
      ensures {RunDir(home, instances[i].name)} <= Runs(home, instances)
    {
    }

    lemma Starts(instances: seq<Instance>, i: nat, taps: seq<Tap>, start: map<nat, Proc>)
      requires i < |instances| && CommaFreeTaps(taps) && Bootable(instances, start) && Fit(image, caps, instances[i])
      ensures StartOf(instances[i], taps) == Some(NodeProc(home, image, taps, 0, instances[i]))
    {
      hide RunDir, Fit, Started, NicsFor, NoneOf, IfacesAt;
      StartedIsNodeProc(home, image, caps, instances[i], taps);
    }

    lemma AddOne(instances: seq<Instance>, i: nat, taps: seq<Tap>,
                 start: map<nat, Proc>, before: map<nat, Proc>, after: map<nat, Proc>)
      requires i < |instances| && OnlyFitAdded(instances, taps, start, before)
      requires before == after
               || (Startable(instances[i], taps) && Spawned(before, after, StartOf(instances[i], taps)))
      ensures OnlyFitAdded(instances, taps, start, after)
    {
      hide Startable, StartOf;
      if before != after {
        StartableFits(instances[i], taps);
        var p := StartOf(instances[i], taps).value;
        assert IsOf(p, instances[i], taps);
        assert AddedFor(p, instances, taps);
      }
    }

    lemma StartableFits(inst: Instance, taps: seq<Tap>)
      requires Startable(inst, taps)
      ensures Fit(image, caps, inst) && StartOf(inst, taps).Some?
    {
    }

    lemma BootOne(instances: seq<Instance>, i: nat, taps: seq<Tap>, start: map<nat, Proc>,
                  before: HostState, after: HostState)
      requires i < |instances| && CommaFreeTaps(taps) && Bootable(instances, start) && Fit(image, caps, instances[i])
      requires Booted(instances, i, taps, 0, before) && RestAbsent(instances, i, before.procs)
      requires after.dirs == WithoutTrees(before.dirs, {RunDir(home, instances[i].name)})
                             + Made(RunDir(home, instances[i].name))
      requires Spawned(before.procs, after.procs, StartOf(instances[i], taps))
      ensures Booted(instances, i + 1, taps, 0, after) && RestAbsent(instances, i + 1, after.procs)
    {
      hide RunDir, Fit, Started, NicsFor, Running, NoneOf, Spawned, IfacesAt, Ready, Under, Made, WithoutTrees;
      var p := NodeProc(home, image, taps, 0, instances[i]);
      StartedIsNodeProc(home, image, caps, instances[i], taps);
      SpawnRuns(before.procs, after.procs, p);
      PrepareMakes(before.dirs, p.run);
      forall j | i < j < |instances| ensures NoneOf(after.procs, RunDir(home, instances[j].name)) {
        ApartDiffer(home, instances, i, j);
      }
      forall j | 0 <= j < i
        ensures Ready(after.dirs, RunDir(home, instances[j].name))
        ensures Running(after.procs, NodeProc(home, image, taps, 0, instances[j]))
      {
        PrepareKeepsOthers(before.dirs, p.run, RunDir(home, instances[j].name));
        ApartDiffer(home, instances, i, j);
        assert NodeProc(home, image, taps, 0, instances[j]).run != p.run;
      }
    }
  }

  predicate Alive(procs: map<nat, Proc>, run: string) { exists p :: p in procs && procs[p].run == run }

  predicate Answering(procs: map<nat, Proc>, run: string) { exists p :: p in procs && procs[p].control == run + "/rw" }

  /** What `Status` may say of a node: the truth if it is reliable, else perhaps less. */
  predicate Shown(procs: map<nat, Proc>, run: string, status: NodeStatus, reliable: bool) {
    && (status.running ==> Alive(procs, run))
    && (status.reachable ==> Alive(procs, run) && Answering(procs, run))
    && (reliable ==> (status.running <==> Alive(procs, run))
                     && (status.reachable <==> Alive(procs, run) && Answering(procs, run)))
  }

  lemma Shows(procs: map<nat, Proc>, run: string, status: NodeStatus, reliable: bool, unseen: bool, silent: bool)
    requires reliable ==> !unseen && !silent
    requires status.running <==> !unseen && Alive(procs, run)
    requires status.reachable <==> status.running && !silent && Answering(procs, run)
    ensures Shown(procs, run, status, reliable)
  {
  }

  /** The bridges of the plan leave no tap behind. */
  lemma FreeStill(plan: NetPlan, before: HostState, after: HostState)
    requires Sound(plan) && Same(before, after, Elems(BridgeNames(plan.bridges)), {})
    ensures TapsFree(plan.taps, 0, before.links) ==> TapsFree(plan.taps, 0, after.links)
  {
    hide TapWord, CommaFreeTaps, AmongBridges, WithoutTrees, WithoutProcs, Above;
    var names := Elems(BridgeNames(plan.bridges));
    if TapsFree(plan.taps, 0, before.links) {
      forall i | 0 <= i < |plan.taps| ensures plan.taps[i].name !in after.links {
        assert plan.taps[i].name !in names;
        assert WithoutLinks(before.links, names) == WithoutLinks(after.links, names);
        assert plan.taps[i].name !in WithoutLinks(before.links, names);
      }
    }
  }

  lemma BridgesAreDevices(plan: NetPlan)
    requires DeviceLinks(plan)
    ensures forall j :: 0 <= j < |plan.bridges| ==> DeviceName(plan.bridges[j].name)
  {
    hide DeviceName;
  }

  lemma WiredTaps(plan: NetPlan, links: map<string, HostLink>)
    requires Wired(plan, |plan.taps|, links)
    ensures TapsThere(plan.taps, links)
  {
    forall t | t in plan.taps ensures TapIsThere(links, t.name) {
      var j :| 0 <= j < |plan.taps| && plan.taps[j] == t;
      assert IsAttached(links, plan.taps[j]);
    }
  }

  lemma NoNics()
    ensures forall n, taps: seq<Tap> :: NicsFor(taps[..0], n) == []
  {
  }

  lemma NoBridges(bridges: seq<Bridge>, links: map<string, HostLink>)
    ensures AllBridges(bridges, 0, links)
  {
  }

  lemma OneMoreBridge(bridges: seq<Bridge>, i: nat, before: map<string, HostLink>, after: map<string, HostLink>)
    requires i < |bridges| && AllBridges(bridges, i, before)
    requires after == WithoutLinks(before, {bridges[i].name})[bridges[i].name := HostLink(BridgeKind, None)]
    ensures AllBridges(bridges, i + 1, after)
  {
    forall l | l in after && after[l].master.Some? ensures !AmongBridges(bridges, i + 1, after[l].master.value) {
      assert before[l].master == after[l].master && after[l].master != Some(bridges[i].name);
      assert !AmongBridges(bridges, i, before[l].master.value);
    }
    forall j | 0 <= j < i + 1 ensures IsBridge(after, bridges[j].name) {
      if j < i { assert IsBridge(before, bridges[j].name); }
    }
  }

  lemma WiredBridge(plan: NetPlan, i: nat, links: map<string, HostLink>)
    requires i < |plan.taps| && Sound(plan) && Wired(plan, i, links)
    ensures IsBridge(links, plan.taps[i].bridge)
  {
    assert AmongBridges(plan.bridges, |plan.bridges|, plan.taps[i].bridge);
  }

  lemma TapWords(plan: NetPlan, i: nat)
    requires Sound(plan) && i < |plan.taps|
    ensures PlainWord(plan.taps[i].name) && '%' !in plan.taps[i].name
    ensures LinkWords(plan.bridges) ==> PlainWord(plan.taps[i].bridge)
  {
    hide PlainWord;
    assert TapWord(plan.taps[i]);
    assert AmongBridges(plan.bridges, |plan.bridges|, plan.taps[i].bridge);
    var j :| 0 <= j < |plan.bridges| && plan.bridges[j].name == plan.taps[i].bridge;
    assert BridgeNames(plan.bridges)[j] == plan.taps[i].bridge;
  }

  lemma NothingWired(plan: NetPlan, links: map<string, HostLink>)
    requires AllBridges(plan.bridges, |plan.bridges|, links)
    ensures Wired(plan, 0, links)
  {
  }

  /** Attaching one tap disturbs neither the bridges nor the taps before it. */
  lemma WireOne(plan: NetPlan, i: nat, before: map<string, HostLink>, after: map<string, HostLink>)
    requires i < |plan.taps| && Sound(plan) && Wired(plan, i, before)
    requires TapsFree(plan.taps, i, before)
    requires after == before[plan.taps[i].name := HostLink(TapKind, Some(plan.taps[i].bridge))]
    ensures Wired(plan, i + 1, after) && TapsFree(plan.taps, i + 1, after)
  {
    hide TapWord, CommaFreeTaps;
    forall j | 0 <= j < i ensures IsAttached(after, plan.taps[j]) {
      assert IsAttached(before, plan.taps[j]);
      assert TapNames(plan.taps)[j] != TapNames(plan.taps)[i];
    }
    forall j | i < j < |plan.taps| ensures plan.taps[j].name !in after {
      assert TapNames(plan.taps)[i] != TapNames(plan.taps)[j];
    }
    forall j | 0 <= j < |plan.bridges| ensures IsBridge(after, plan.bridges[j].name) {
      assert IsBridge(before, plan.bridges[j].name);
    }
    forall l | l in after && after[l].master.Some?
               && AmongBridges(plan.bridges, |plan.bridges|, after[l].master.value)
      ensures PlannedOn(plan.taps, i + 1, l, after[l].master.value)
    {
      if l == plan.taps[i].name {
        assert plan.taps[i].bridge == after[l].master.value;
      } else {
        assert PlannedOn(plan.taps, i, l, before[l].master.value);
      }
    }
  }

  lemma NoWords()
    ensures Words(Join([], " ")) == Some([])
  {
  }

  /** The map of interfaces grows by one. */
  lemma NicsSnoc(taps: seq<Tap>, i: nat, m: NicMap, m': NicMap)
    requires i < |taps| && forall n :: NicsAt(m, n) == NicsFor(taps[..i], n)
    requires m' == m[taps[i].node := NicsAt(m, taps[i].node) + [Nic(taps[i].name, taps[i].mac)]]
    ensures forall n :: NicsAt(m', n) == NicsFor(taps[..i + 1], n)
  {
    assert taps[..i + 1][..i] == taps[..i];
    forall n ensures NicsAt(m', n) == NicsFor(taps[..i + 1], n) {
      assert NicsAt(m', n) ==
             NicsAt(m, n) + (if n == taps[i].node then [Nic(taps[i].name, taps[i].mac)] else []);
    }
  }

  /** `Up` and `Down` name the same links. */
  lemma PlannedNames(plan: NetPlan)
    ensures Elems(LinkNames(plan)) == Elems(TapNames(plan.taps)) + Elems(BridgeNames(plan.bridges))
  {
  }

  /** Every plan has distinct tap names, none of them a bridge's and none with a comma,
      and attaches each tap to a planned bridge; its taps' names and addresses are plain
      words. */
  lemma PlanIsSound(t: Topology, parse: CidrParser)
    requires PlanOf(t, parse).Ok?
    ensures Sound(PlanOf(t, parse).value) && CommaFreeTaps(PlanOf(t, parse).value.taps)
    ensures forall j :: 0 <= j < |PlanOf(t, parse).value.taps| ==>
              && PlanOf(t, parse).value.taps[j].node in NamesOf(Expansion(t))
              && TapWord(PlanOf(t, parse).value.taps[j])
  {
    hide PlanOf, TapWord, AmongBridges, BridgeNames, TapNames, Expansion;
    var plan := PlanOf(t, parse).value;
    TapsAndBridgesDiffer(t, parse);
    TapsDiffer(t, parse);
    TapsHaveBridges(t, parse);
    forall x | x in plan.taps ensures ',' !in x.name && ',' !in x.mac {
      var j :| 0 <= j < |plan.taps| && plan.taps[j] == x;
      TapIsWord(t, parse, j);
    }
    forall i | 0 <= i < |plan.taps| ensures TapWord(plan.taps[i]) { TapIsWord(t, parse, i); }
  }

  lemma TapsAndBridgesDiffer(t: Topology, parse: CidrParser)
    requires PlanOf(t, parse).Ok?
    ensures var plan := PlanOf(t, parse).value;
            forall i, j :: 0 <= i < |plan.taps| && 0 <= j < |plan.bridges| ==> plan.taps[i].name != plan.bridges[j].name
  {
    hide TapName, BridgeName, MakeTap, PlanLinks;
    var plan := PlanOf(t, parse).value;
    PlanSizes(t, parse, t.links, 0);
    forall i, j | 0 <= i < |plan.taps| && 0 <= j < |plan.bridges|
      ensures plan.taps[i].name != plan.bridges[j].name
    {
      BridgeOfPlan(t, parse, t.links, 0, j);
      TapNamesDistinct(t, parse, i, i, t.links[j].name);
    }
  }

  lemma TapsDiffer(t: Topology, parse: CidrParser)
    requires PlanOf(t, parse).Ok?
    ensures NoDuplicates(TapNames(PlanOf(t, parse).value.taps))
  {
    hide PlanOf, BridgeName;
    var names := TapNames(PlanOf(t, parse).value.taps);
    forall i, j | 0 <= i < j < |names| ensures names[i] != names[j] { TapNamesDistinct(t, parse, i, j, ""); }
  }

  lemma TapsHaveBridges(t: Topology, parse: CidrParser)
    requires PlanOf(t, parse).Ok?
    ensures var plan := PlanOf(t, parse).value;
            forall i :: 0 <= i < |plan.taps| ==>
              && AmongBridges(plan.bridges, |plan.bridges|, plan.taps[i].bridge)
              && plan.taps[i].node in NamesOf(Expansion(t))
  {
    hide PlanOf, AmongBridges, Expansion;
    var plan := PlanOf(t, parse).value;
    PlanConserves(t, parse);
    forall i | 0 <= i < |plan.taps| ensures AmongBridges(plan.bridges, |plan.bridges|, plan.taps[i].bridge) {
      var j :| 0 <= j < |plan.bridges| && plan.bridges[j].name == plan.taps[i].bridge;
      IsAmong(plan.bridges, j);
    }
  }

  lemma IsAmong(bridges: seq<Bridge>, j: nat)
    requires j < |bridges|
    ensures AmongBridges(bridges, |bridges|, bridges[j].name)
  {
  }

  lemma TapIsWord(t: Topology, parse: CidrParser, j: nat)
    requires PlanOf(t, parse).Ok? && j < |PlanOf(t, parse).value.taps|
    ensures TapWord(PlanOf(t, parse).value.taps[j])
    ensures ',' !in PlanOf(t, parse).value.taps[j].name && ',' !in PlanOf(t, parse).value.taps[j].mac
  {
    hide PlanOf, PlainWord, TapName, Mac, Address, BridgeName, NetOf, MemberNames, OrdinaryChar;
    var tap := PlanOf(t, parse).value.taps[j];
    var i, m := TapOfPlan(t, parse, j);
    TapsAreOrdinary(j + 1, NetOf(parse, t.links[i]), m);
    NoCommas(tap.name);
    NoCommas(tap.mac);
    OrdinaryWord(tap.name);
    OrdinaryWord(tap.mac);
    if tap.ip != "" { OrdinaryWord(tap.ip); }
  }

  lemma NoCommas(s: string)
    requires Ordinary(s)
    ensures ',' !in s
  {
  }
}
