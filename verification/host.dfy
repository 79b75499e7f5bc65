/** The lima host as the runner's scripts change it: network links, run directories
    and QEMU processes. A script may fail at any command. */
module Hosts {
  import opened Results
  import opened ByteStrings
  import opened BootSpecs
  import opened BootCommand
  import opened BootReader
  import opened QemuOptions
  import opened ShellExpansion
  import opened ShellWords
  import opened Paths
  import opened ScriptWords

  datatype Kind = BridgeKind | TapKind | OtherKind

  /** A network link; `master` is the bridge it is attached to. */
  datatype HostLink = HostLink(kind: Kind, master: Option<string>)

  /** A network interface inside a guest. */
  datatype Iface = Iface(card: Card, addrs: set<string>)

  /** A QEMU process: the run directory it was launched for, the directories, the kernel
      and the setup it read from its command line, and its guest's interfaces. */
  datatype Proc = Proc(run: string, root: string, control: string, kernel: Option<string>, setup: Setup,
                       ifaces: seq<Iface>)

  /** `links` holds the devices that can be deleted, `dirs` the paths of directories and
      files that the scripts depend on. */
  datatype HostState = HostState(links: map<string, HostLink>, dirs: set<string>, procs: map<nat, Proc>)

  // ----- what the commands do --------------------------------------------

  function Freed(l: HostLink, gone: set<string>): HostLink {
    if l.master.Some? && l.master.value in gone then l.(master := None) else l
  }

  /** `ip link del` of several links: what they carried is released. */
  function WithoutLinks(links: map<string, HostLink>, gone: set<string>): map<string, HostLink> {
    map l | l in links && l !in gone :: Freed(links[l], gone)
  }

  function WithoutProcs(procs: map<nat, Proc>, runs: set<string>): map<nat, Proc> {
    map p | p in procs && procs[p].run !in runs :: procs[p]
  }

  predicate Below(path: string, runs: set<string>) { exists r :: r in runs && Under(path, r) }

  /** `rm -rf` of several directories: whole trees go. */
  function WithoutTrees(dirs: set<string>, runs: set<string>): set<string> {
    set d | d in dirs && !Below(d, runs)
  }

  /** What `mkdir -p run/rw/ctl` makes. */
  function Laid(run: string): set<string> { Parents(run) + {run, run + "/rw", run + "/rw/ctl"} }

  /** What that and `cp -a base run/rootfs` make. */
  function Made(run: string): set<string> { Laid(run) + {run + "/rootfs"} }

  /** `rm -rf` refuses the root directory and the current directory and its parent. */
  predicate Refused(path: string) {
    path == "/" || path == "." || path == ".." || HasSuffix(path, "/.") || HasSuffix(path, "/..")
  }

  /** The path is there, from wherever one looks. */
  predicate IsThere(dirs: set<string>, path: string) { Rooted(path) && Clean(path) in dirs }

  /** With these directories `base` can be copied into `run`. */
  predicate CanCopy(dirs: set<string>, run: string, base: string) {
    Rooted(run) && IsThere(dirs, base) && !Under(run, Clean(base))
  }

  /** Removing the tree of `run` removes `base`, and `mkdir` does not bring it back. */
  predicate BaseLost(run: string, base: string) {
    !Refused(run) && Under(Clean(base), run) && Clean(base) !in Laid(run)
  }

  // ----- device names ----------------------------------------------------

  /** White space to Linux, which counts the byte A0. */
  predicate KernelSpace(c: char) {
    c == ' ' || c == '\t' || c == '\n' || c == '\r' || c == '\U{B}' || c == '\U{C}' || c == '\U{A0}'
  }

  predicate DeviceChar(c: char) { c != '/' && c != ':' && c != '%' && !KernelSpace(c) }

  /** A name that Linux gives to a network device as it is: short, without slash, colon or
      white space, and without the percent sign of a name pattern. */
  predicate DeviceName(n: string) {
    n != "" && n != "." && n != ".." && |n| <= 15 && forall c :: c in n ==> DeviceChar(c)
  }

  predicate Named(links: map<string, HostLink>) { forall l :: l in links ==> DeviceName(l) }

  // ----- names in scripts ------------------------------------------------

  /** The name can be read as itself; whether it is may depend on files and users. */
  predicate Readable(name: string) { name != "" && Literal(name) && !Broken(name) }

  function Above(runs: set<string>): set<string> { set r, p | r in runs && p in Parents(r) :: p }

  /** The host without the links `names` and without anything of the nodes in `runs`. */
  function Scrub(h: HostState, names: set<string>, runs: set<string>): HostState {
    HostState(WithoutLinks(h.links, names), WithoutTrees(h.dirs, runs), WithoutProcs(h.procs, runs))
  }

  /** From `h` to `h'` nothing changed apart from `names` and `runs`, except that
      directories above `runs` may have been made. */
  predicate Same(h: HostState, h': HostState, names: set<string>, runs: set<string>) {
    var s, s' := Scrub(h, names, runs), Scrub(h', names, runs);
    s.links == s'.links && s.procs == s'.procs && s.dirs <= s'.dirs <= s.dirs + Above(runs)
  }

  /** From `h` to `h'` links, attachments, paths and processes only went away. */
  predicate OnlyRemoved(h: HostState, h': HostState) {
    && (forall l :: l in h'.links ==>
          l in h.links && (h'.links[l] == h.links[l] || h'.links[l] == h.links[l].(master := None)))
    && h'.dirs <= h.dirs
    && (forall p :: p in h'.procs ==> p in h.procs && h'.procs[p] == h.procs[p])
  }

  // ----- the algebra of scrubbing ----------------------------------------

  lemma SameSelf(h: HostState, names: set<string>, runs: set<string>)
    ensures Same(h, h, names, runs)
  {
  }

  lemma LinksTwice(links: map<string, HostLink>, n1: set<string>, n2: set<string>)
    ensures WithoutLinks(WithoutLinks(links, n1), n2) == WithoutLinks(links, n1 + n2)
  {
  }

  lemma TreesTwice(dirs: set<string>, r1: set<string>, r2: set<string>)
    ensures WithoutTrees(WithoutTrees(dirs, r1), r2) == WithoutTrees(dirs, r1 + r2)
  {
    hide Under;
    forall d | d in dirs ensures Below(d, r1 + r2) <==> Below(d, r1) || Below(d, r2) {
      if Below(d, r1) {
        var r :| r in r1 && Under(d, r);
        assert r in r1 + r2;
      }
      if Below(d, r2) {
        var r :| r in r2 && Under(d, r);
        assert r in r1 + r2;
      }
    }
  }

  lemma ProcsTwice(procs: map<nat, Proc>, r1: set<string>, r2: set<string>)
    ensures WithoutProcs(WithoutProcs(procs, r1), r2) == WithoutProcs(procs, r1 + r2)
  {
  }

  /** Scrubbing in two steps is scrubbing at once. */
  lemma ScrubTwice(h: HostState, n1: set<string>, r1: set<string>, n2: set<string>, r2: set<string>)
    ensures Scrub(Scrub(h, n1, r1), n2, r2) == Scrub(h, n1 + n2, r1 + r2)
  {
    hide WithoutLinks, WithoutTrees, WithoutProcs;
    LinksTwice(h.links, n1, n2);
    TreesTwice(h.dirs, r1, r2);
    ProcsTwice(h.procs, r1, r2);
  }

  lemma TreesMonotone(d: set<string>, d': set<string>, runs: set<string>)
    requires d <= d'
    ensures WithoutTrees(d, runs) <= WithoutTrees(d', runs)
  {
  }

  /** Hosts that agree apart from some resources agree apart from more of them. */
  lemma SameWider(h: HostState, h': HostState, names: set<string>, runs: set<string>,
                  names': set<string>, runs': set<string>)
    requires Same(h, h', names, runs) && names <= names' && runs <= runs'
    ensures Same(h, h', names', runs')
  {
    hide WithoutLinks, WithoutTrees, WithoutProcs;
    ScrubTwice(h, names, runs, names', runs');
    ScrubTwice(h', names, runs, names', runs');
    assert names + names' == names' && runs + runs' == runs';
    var s, s' := Scrub(h, names, runs), Scrub(h', names, runs);
    assert Scrub(s, names', runs') == Scrub(h, names', runs');
    assert Scrub(s', names', runs') == Scrub(h', names', runs');
    TreesMonotone(s.dirs, s'.dirs, runs');
    TreesMonotone(s'.dirs, s.dirs + Above(runs), runs');
    TreesOfUnion(s.dirs, Above(runs), runs');
    AboveMore(runs, runs');
  }

  lemma TreesOfUnion(a: set<string>, b: set<string>, runs: set<string>)
    ensures WithoutTrees(a + b, runs) <= WithoutTrees(a, runs) + b
  {
    hide Below;
  }

  lemma AboveMore(runs: set<string>, runs': set<string>)
    requires runs <= runs'
    ensures Above(runs) <= Above(runs')
  {
    hide Parents;
  }

  /** What agrees apart from some resources agrees in everything else: other links are
      there or not alike, of the same kind and on the same bridge unless that is named;
      other paths are, but for new directories above the run directories; and other
      processes are the same. */
  lemma SameKeepsOthers(h: HostState, h': HostState, names: set<string>, runs: set<string>)
    requires Same(h, h', names, runs)
    ensures forall l :: l !in names ==> (l in h.links <==> l in h'.links)
    ensures forall l :: l !in names && l in h.links ==>
              && h'.links[l].kind == h.links[l].kind
              && (h'.links[l].master == h.links[l].master
                  || (h.links[l].master.Some? && h.links[l].master.value in names)
                  || (h'.links[l].master.Some? && h'.links[l].master.value in names))
    ensures forall d :: d in h.dirs && (forall r :: r in runs ==> !Under(d, r)) ==> d in h'.dirs
    ensures forall d :: d in h'.dirs && (forall r :: r in runs ==> !Under(d, r)) ==>
              d in h.dirs || exists r :: r in runs && d in Parents(r)
    ensures forall p :: p in h.procs && h.procs[p].run !in runs ==> p in h'.procs && h'.procs[p] == h.procs[p]
    ensures forall p :: p in h'.procs && h'.procs[p].run !in runs ==> p in h.procs && h.procs[p] == h'.procs[p]
  {
    hide Under, Parents;
    LinksKept(h.links, h'.links, names);
    var s, s' := Scrub(h, names, runs), Scrub(h', names, runs);
    forall d | d in h.dirs && (forall r :: r in runs ==> !Under(d, r)) ensures d in h'.dirs { assert d in s.dirs; }
    forall d | d in h'.dirs && (forall r :: r in runs ==> !Under(d, r))
      ensures d in h.dirs || exists r :: r in runs && d in Parents(r)
    {
      assert d in s'.dirs;
    }
    forall p | p in h.procs && h.procs[p].run !in runs ensures p in h'.procs && h'.procs[p] == h.procs[p] {
      assert p in s.procs && s.procs[p] == h.procs[p];
    }
    forall p | p in h'.procs && h'.procs[p].run !in runs ensures p in h.procs && h.procs[p] == h'.procs[p] {
      assert p in s'.procs && s'.procs[p] == h'.procs[p];
    }
  }

  lemma LinksKept(a: map<string, HostLink>, b: map<string, HostLink>, names: set<string>)
    requires WithoutLinks(a, names) == WithoutLinks(b, names)
    ensures forall l :: l !in names ==> (l in a <==> l in b)
    ensures forall l :: l !in names && l in a ==>
              && b[l].kind == a[l].kind
              && (b[l].master == a[l].master || (a[l].master.Some? && a[l].master.value in names)
                  || (b[l].master.Some? && b[l].master.value in names))
  {
    var s := WithoutLinks(a, names);
    forall l | l !in names ensures l in a <==> l in b {
      assert l in s <==> l in a;
      assert l in s <==> l in b;
    }
    forall l | l !in names && l in a
      ensures b[l].kind == a[l].kind
      ensures b[l].master == a[l].master || (a[l].master.Some? && a[l].master.value in names)
              || (b[l].master.Some? && b[l].master.value in names)
    {
      assert s[l] == Freed(a[l], names) && s[l] == Freed(b[l], names);
    }
  }

  /** One more step that touches only planned resources. */
  lemma SameStep(start: HostState, mid: HostState, now: HostState, n: set<string>, r: set<string>,
                 names: set<string>, runs: set<string>)
    requires Same(start, mid, names, runs) && Same(mid, now, n, r) && n <= names && r <= runs
    ensures Same(start, now, names, runs)
  {
    hide Scrub;
    SameWider(mid, now, n, r, names, runs);
  }

  /** Nothing named by `names` or `runs` is on the host. */
  predicate Clear(h: HostState, names: set<string>, runs: set<string>) {
    && (forall l :: l in h.links ==> l !in names && (h.links[l].master.Some? ==> h.links[l].master.value !in names))
    && (forall d :: d in h.dirs ==> !Below(d, runs))
    && (forall p :: p in h.procs ==> h.procs[p].run !in runs)
  }

  /** Scrubbing changes nothing if and only if there is nothing to scrub. */
  lemma ScrubNothingIff(h: HostState, names: set<string>, runs: set<string>)
    ensures Scrub(h, names, runs) == h <==> Clear(h, names, runs)
  {
    hide Below;
    var s := Scrub(h, names, runs);
    if s == h {
      forall l | l in h.links
        ensures l !in names && (h.links[l].master.Some? ==> h.links[l].master.value !in names)
      {
        assert l in s.links && s.links[l] == h.links[l];
      }
      forall d | d in h.dirs ensures !Below(d, runs) { assert d in s.dirs; }
      forall p | p in h.procs ensures h.procs[p].run !in runs { assert p in s.procs; }
    }
    if Clear(h, names, runs) {
      assert s.links == h.links;
      assert s.dirs == h.dirs;
      assert s.procs == h.procs;
    }
  }

  /** What is left after scrubbing is clear, so scrubbing again changes nothing. */
  lemma ScrubClears(h: HostState, names: set<string>, runs: set<string>)
    ensures Clear(Scrub(h, names, runs), names, runs)
    ensures Scrub(Scrub(h, names, runs), names, runs) == Scrub(h, names, runs)
  {
    hide Below;
    ScrubNothingIff(Scrub(h, names, runs), names, runs);
  }

  /** Scrubbing only removes, leaves nothing of what is named, and touches nothing else. */
  lemma ScrubMeans(h: HostState, names: set<string>, runs: set<string>)
    ensures Clear(Scrub(h, names, runs), names, runs)
    ensures Same(h, Scrub(h, names, runs), names, runs)
    ensures OnlyRemoved(h, Scrub(h, names, runs))
  {
    hide Below, Above;
    ScrubClears(h, names, runs);
  }

  /** If only named resources changed, scrubbing brings the host back, up to directories
      above the run directories. */
  lemma ScrubRestores(h: HostState, h': HostState, names: set<string>, runs: set<string>)
    requires Same(h, h', names, runs)
    ensures var s, s' := Scrub(h, names, runs), Scrub(h', names, runs);
            && s'.links == s.links && s'.procs == s.procs && s.dirs <= s'.dirs <= s.dirs + Above(runs)
            && (Above(runs) <= h.dirs ==> s' == s)
  {
    hide Below, WithoutLinks, WithoutProcs, Above;
  }

  /** A step that only removes, and only named resources, cannot change a host that is
      clear of them. */
  lemma NothingToRemove(h: HostState, h': HostState, names: set<string>, runs: set<string>)
    requires Clear(h, names, runs) && Same(h, h', names, runs) && OnlyRemoved(h, h')
    ensures h' == h
  {
    hide Below, WithoutLinks, WithoutTrees, WithoutProcs;
    ScrubNothingIff(h, names, runs);
    ScrubNothingIff(h', names, runs);
    assert Clear(h', names, runs);
  }

  function Elems(names: seq<string>): set<string> { set n | n in names }

  lemma NoLinksGone(links: map<string, HostLink>)
    ensures WithoutLinks(links, {}) == links
  {
  }

  predicate Attached(links: map<string, HostLink>) {
    forall l :: l in links && links[l].master.Some? ==> links[l].master.value in links
  }

  /** Deleting one link changes that link and what was attached to it. */
  lemma LinkDeleted(h: HostState, n: string)
    requires Attached(h.links)
    ensures var links := WithoutLinks(h.links, {n});
            && Same(h, h.(links := links), {n}, {})
            && OnlyRemoved(h, h.(links := links))
            && Attached(links)
            && (n !in h.links ==> links == h.links)
  {
    hide Below;
    LinksTwice(h.links, {n}, {n});
    assert {n} + {n} == {n};
  }

  lemma LinksChanged(h: HostState, links: map<string, HostLink>, names: set<string>)
    requires WithoutLinks(links, names) == WithoutLinks(h.links, names)
    ensures Same(h, h.(links := links), names, {})
  {
    hide WithoutLinks, Below;
  }

  lemma DirsChanged(h: HostState, dirs: set<string>, run: string)
    requires WithoutTrees(h.dirs, {run}) <= dirs <= h.dirs + Made(run)
    ensures Same(h, h.(dirs := dirs), {}, {run})
  {
    hide Under, Parents;
    assert Above({run}) == Parents(run);
    assert Made(run) == Parents(run) + {run, run + "/rw", run + "/rw/ctl", run + "/rootfs"};
    forall d | d in {run, run + "/rw", run + "/rw/ctl", run + "/rootfs"} ensures Below(d, {run}) {
      InsideRun(run);
      assert Under(d, run);
    }
  }

  lemma InsideRun(run: string)
    ensures Under(run, run) && Under(run + "/rw", run) && Under(run + "/rw/ctl", run) && Under(run + "/rootfs", run)
  {
    if HasSuffix(run, "/") {
    } else {
      assert (run + "/rw")[..|run| + 1] == run + "/";
      assert (run + "/rw/ctl")[..|run| + 1] == run + "/";
      assert (run + "/rootfs")[..|run| + 1] == run + "/";
    }
  }

  lemma ProcsChanged(h: HostState, procs: map<nat, Proc>, runs: set<string>)
    requires WithoutProcs(procs, runs) == WithoutProcs(h.procs, runs)
    ensures Same(h, h.(procs := procs), {}, runs)
  {
    hide WithoutProcs, Below;
  }

  // ----- starting a node -------------------------------------------------

  /** The machine that the shell and then QEMU read from the launch line. */
  function Launched(spec: BootSpec, console: string): Option<Machine> {
    match Words(CommandLine(LaunchArgv(spec, console)))
    case None => None
    case Some(argv) => ReadMachine(argv)
  }

  function BareIfaces(cards: seq<Card>): (r: seq<Iface>)
    ensures |r| == |cards|
    ensures forall i :: 0 <= i < |r| ==> r[i] == Iface(cards[i], {})
  {
    seq(|cards|, i requires 0 <= i < |cards| => Iface(cards[i], {}))
  }

  /** Quoting, splitting and option reading lose nothing between `Boot` and QEMU, under
      the same condition. */
  lemma LaunchedIff(spec: BootSpec, console: string)
    requires CommaFree(spec.nics)
    ensures Launched(spec, console) == Some(Meant(spec, console)) <==>
            spec.kernel != "-nographic" && ',' !in spec.rootfs && ',' !in spec.rootfsRW
  {
    hide Words, CommandLine, LaunchArgv, ReadMachine, Meant;
    WordsOfCommandLine(LaunchArgv(spec, console));
    LaunchedMachineIff(spec, console);
  }

  /** Whatever the shared paths hold, the rest is read as it was meant. */
  lemma LaunchedAs(spec: BootSpec, console: string)
    requires CommaFree(spec.nics) && spec.kernel != "-nographic"
    ensures Launched(spec, console) ==
            Some(Meant(spec, console).(root := PathRead("rootdev", spec.rootfs),
                              control := if spec.rootfsRW == "" then None else PathRead("klabrw", spec.rootfsRW)))
  {
    hide Words, CommandLine, LaunchArgv, ReadMachine, Meant, PathRead;
    WordsOfCommandLine(LaunchArgv(spec, console));
    LaunchedMachine(spec, console);
  }

  function ConsoleOf(run: string): string { PathJoin([run, "console.log"]) }

  /** The process `Boot` starts; none if QEMU cannot read its command line. */
  function Started(spec: BootSpec): (r: Option<Proc>)
    ensures r.Some? ==> r.value.run == Dir(spec.rootfsRW)
  {
    var run := Dir(spec.rootfsRW);
    match Launched(spec, ConsoleOf(run))
    case None => None
    case Some(m) =>
      if m.root == None || m.control == None then None
      else Some(Proc(run, m.root.value, m.control.value, m.kernel, m.setup, BareIfaces(m.cards)))
  }

  /** A process starts only if the directories it shares are there. */
  predicate Launches(spec: BootSpec, dirs: set<string>) {
    Started(spec).Some? && Started(spec).value.root in dirs && Started(spec).value.control in dirs
  }

  predicate TapIsThere(links: map<string, HostLink>, tap: string) { tap in links && links[tap].kind == TapKind }

  /** The guest finds what it was meant to find. */
  predicate Complete(spec: BootSpec, h: HostState) {
    && Launches(spec, h.dirs)
    && Started(spec) == Some(Proc(Dir(spec.rootfsRW), spec.rootfs, spec.rootfsRW, Some(spec.kernel),
                                  MeantSetup(spec, ConsoleOf(Dir(spec.rootfsRW))), BareIfaces(CardsOf(spec.nics))))
    && IsThere(h.dirs, spec.kernel)
    && forall n :: n in spec.nics ==> TapIsThere(h.links, n.tap)
  }

  /** `procs` with one process more, under a new number. */
  ghost predicate Spawned(before: map<nat, Proc>, after: map<nat, Proc>, p: Option<Proc>) {
    p.Some? && exists pid: nat :: pid !in before && after == before[pid := p.value]
  }

  ghost function Beyond(s: set<nat>): (n: nat)
    ensures forall x :: x in s ==> x < n
  {
    if s == {} then 0
    else
      var x :| x in s;
      var n := Beyond(s - {x});
      assert s == (s - {x}) + {x};
      if x < n then n else x + 1
  }

  lemma FreshPid(procs: map<nat, Proc>)
    ensures exists pid: nat :: pid !in procs
  {
    assert Beyond(procs.Keys) !in procs.Keys;
  }

  // ----- configuring an interface ----------------------------------------

  predicate HasMac(ifaces: seq<Iface>, k: int, mac: string) {
    0 <= k < |ifaces| && ifaces[k].card.mac == mac
  }

  function Places(n: nat): (s: set<nat>)
    ensures forall k: nat :: k in s <==> k < n
  {
    if n == 0 then {} else Places(n - 1) + {n - 1}
  }

  function WithAddr(p: Proc, k: nat, ip: string): Proc
    requires k < |p.ifaces|
  {
    p.(ifaces := p.ifaces[k := p.ifaces[k].(addrs := p.ifaces[k].addrs + {ip})])
  }

  /** `after` is `before` with `ip` given to an interface with the address `mac`. */
  ghost predicate GaveAddr(before: Proc, after: Proc, mac: string, ip: string) {
    exists k :: HasMac(before.ifaces, k, mac) && after == WithAddr(before, k, ip)
  }

  /** The same processes up to their interfaces. */
  predicate SameServers(before: map<nat, Proc>, after: map<nat, Proc>) {
    before.Keys == after.Keys && forall p :: p in before ==> after[p] == before[p].(ifaces := after[p].ifaces)
  }

  lemma ServersSelf(procs: map<nat, Proc>)
    ensures SameServers(procs, procs)
  {
  }

  /** No process launched for another directory serves one of `runs`. */
  predicate NoOutsider(procs: map<nat, Proc>, runs: set<string>) {
    forall p, r :: p in procs && r in runs && procs[p].control == r + "/rw" ==> procs[p].run in runs
  }

  lemma OneProcChanged(h: HostState, procs: map<nat, Proc>, pid: nat, runs: set<string>)
    requires pid in h.procs && pid in procs && procs == h.procs[pid := procs[pid]]
    requires procs[pid] == h.procs[pid].(ifaces := procs[pid].ifaces)
    ensures h.procs[pid].run in runs ==> Same(h, h.(procs := procs), {}, runs)
    ensures SameServers(h.procs, procs)
  {
    hide Below;
    if h.procs[pid].run in runs {
      assert WithoutProcs(procs, runs) == WithoutProcs(h.procs, runs);
      ProcsChanged(h, procs, runs);
    }
  }

  /** The process was launched for the node or serves its control directory. */
  predicate Concerns(p: Proc, run: string) { p.run == run || p.control == run + "/rw" }

  /** `pid` is the only process of the node. */
  predicate OnlyProc(procs: map<nat, Proc>, run: string, pid: nat) {
    && pid in procs && procs[pid].run == run && procs[pid].control == run + "/rw"
    && forall p :: p in procs && Concerns(procs[p], run) ==> p == pid
  }

  // ----- the host ---------------------------------------------------------

  /** Each method is one script or driver call. Unless the host is `reliable` any command
      of it may fail, and the caller may be told of an error although the commands ran
      (`err`). `ok` says that the shell read the script as it was meant and every command
      did its job. A script that mentions a name without quotes does what it is meant to
      do if the name is a plain word, and depending on the files if it is a pattern. */
  class Host {
    const reliable: bool
    var links: map<string, HostLink>
    var dirs: set<string>
    var procs: map<nat, Proc>

    /** A link is attached to a link that exists; Linux has named them all. */
    ghost predicate Valid()
      reads this
    {
      Attached(links) && Named(links)
    }

    ghost function State(): HostState
      reads this
    {
      HostState(links, dirs, procs)
    }

    constructor (reliable: bool, links: map<string, HostLink>, dirs: set<string>, procs: map<nat, Proc>)
      requires Attached(links) && Named(links)
      ensures Valid()
      ensures this.reliable == reliable && State() == HostState(links, dirs, procs)
    {
      this.reliable, this.links, this.dirs, this.procs := reliable, links, dirs, procs;
    }

    /** Whether the next command fails. */
    method Fault() returns (fails: bool)
      ensures reliable ==> !fails
    {
      fails := *;
      if reliable { fails := false; }
    }

    /** A script in which a name is read as other words than the name: what its commands
        then do is not known. */
    method Stray() returns (err: bool)
      modifies this
      ensures Valid()
    {
      NothingAttached();
      var other :| Attached(other) && Named(other);
      links := other;
      dirs := *;
      procs := *;
      err := *;
    }

    /** Whether the shell reads something else than the name: it may for patterns. */
    method Misread(name: string) returns (yes: bool)
      ensures PlainWord(name) ==> !yes
      ensures !yes ==> Readable(name)
    {
      hide Literal, Broken, Open;
      yes := *;
      yes := !Readable(name) || (Open(name) && yes);
    }

    /** `createBridge`: a link of that name is deleted first. Linux gives another name to
        a device whose name has a percent sign, and refuses other names. */
    method CreateBridge(name: string) returns (err: bool, ghost ok: bool)
      requires Valid()
      modifies this
      ensures Valid()
      ensures PlainWord(name) && '%' !in name ==>
                Same(old(State()), State(), {name}, {}) && dirs == old(dirs) && procs == old(procs)
      ensures ok ==>
                && Readable(name) && DeviceName(name)
                && links == WithoutLinks(old(links), {name})[name := HostLink(BridgeKind, None)]
      ensures reliable && PlainWord(name) ==> !err && (ok <==> DeviceName(name))
    {
      hide Same, Below, Readable, DeviceName, PlainWord;
      ok := false;
      ghost var start := State();
      SameSelf(start, {name}, {});
      var misread := Misread(name);
      if misread {
        err := Stray();
        return;
      }
      err := Fault();
      if err { return; }
      var kept := Fault();
      if name in links && !kept {
        LinkDeleted(start, name);
        links := WithoutLinks(links, {name});
      }
      var notAdded := Fault();
      if name !in links && !notAdded {
        if DeviceName(name) {
          links := links[name := HostLink(BridgeKind, None)];
          LinkDeleted(start, name);
          BridgeAdded(start, links, name);
          ok := true;
        } else if '%' in name {
          var other: string := *;
          if DeviceName(other) && other !in links { links := links[other := HostLink(BridgeKind, None)]; }
        }
      }
      err := Fault();
    }

    /** `createTap`: an existing link of that name is reused. */
    method CreateTap(tap: string, bridge: string) returns (err: bool, ghost ok: bool)
      requires Valid()
      modifies this
      ensures Valid()
      ensures PlainWord(tap) && PlainWord(bridge) && '%' !in tap ==>
                Same(old(State()), State(), {tap}, {}) && dirs == old(dirs) && procs == old(procs)
      ensures ok ==>
                && Readable(tap) && Readable(bridge)
                && links == old(links)[tap := HostLink(if tap in old(links) then old(links)[tap].kind else TapKind,
                                                       Some(bridge))]
      ensures reliable && PlainWord(tap) && PlainWord(bridge) ==> !err
      ensures reliable && PlainWord(tap) && PlainWord(bridge) && DeviceName(tap)
              && bridge in old(links) && old(links)[bridge].kind == BridgeKind ==>
                ok
    {
      hide Same, Readable, DeviceName, PlainWord;
      ghost var start := State();
      SameSelf(start, {tap}, {});
      ok := false;
      var misread := Misread(tap);
      var misreadToo := Misread(bridge);
      if misread || misreadToo {
        err := Stray();
        return;
      }
      err := Fault();
      if err { return; }
      var notAdded := Fault();
      if tap !in links && !notAdded {
        if DeviceName(tap) {
          links := links[tap := HostLink(TapKind, None)];
        } else if '%' in tap {
          var other: string := *;
          if DeviceName(other) && other !in links { links := links[other := HostLink(TapKind, None)]; }
        }
      }
      ghost var added := links;
      var notAttached := Fault();
      if tap in links && bridge in links && links[bridge].kind == BridgeKind && !notAttached {
        links := links[tap := links[tap].(master := Some(bridge))];
        ok := true;
      }
      if '%' !in tap && tap in links {
        assert links == start.links[tap := links[tap]];
        TapChanged(start, tap, links[tap]);
      }
      err := Fault();
    }

    /** `prepRootfs`: the directory's tree is removed and a fresh one made. */
    method PrepRootfs(run: string, base: string) returns (err: bool, ghost ok: bool)
      requires Valid()
      modifies this
      ensures Valid()
      ensures ok || (PlainWord(run) && PlainWord(base)) ==>
                && Same(old(State()), State(), {}, {run}) && links == old(links) && procs == old(procs)
                && (Refused(run) ==> dirs == old(dirs))
      ensures ok ==> Readable(run) && Readable(base) && dirs == WithoutTrees(old(dirs), {run}) + Made(run)
      ensures reliable && PlainWord(run) && PlainWord(base) && !Refused(run)
              && CanCopy(WithoutTrees(old(dirs), {run}), run, base) ==>
                ok && !err
      ensures reliable && PlainWord(run) && PlainWord(base) && BaseLost(run, base) ==> run + "/rootfs" !in dirs
    {
      hide Same, Below, Under, Laid, Readable, PlainWord, Refused;
      ok := false;
      ghost var start := State();
      SameSelf(start, {}, {run});
      var misread := Misread(run);
      var misreadToo := Misread(base);
      if misread || misreadToo {
        err := Stray();
        return;
      }
      err := Fault();
      if err { return; }
      if !Refused(run) {
        var left: set<string> := *;
        if reliable { left := {}; }
        dirs := WithoutTrees(dirs, {run}) + dirs * left;
        var made: set<string> := *;
        if reliable && CanCopy(dirs, run, base) { made := Made(run); }
        if Clean(base) !in dirs + Laid(run) { made := made - {run + "/rootfs"}; }
        if reliable { RunLost(start.dirs, run, base); }
        dirs := dirs + made * Made(run);
        DirsChanged(start, dirs, run);
        ok := dirs == WithoutTrees(start.dirs, {run}) + Made(run);
      }
      err := Fault();
    }

    /** `Driver.Boot`: launch, poll for readiness, and on a timeout kill what was
        launched. */
    method Boot(spec: BootSpec) returns (err: bool, handle: string, ghost ok: bool)
      modifies `procs
      ensures Same(old(State()), State(), {}, {Dir(spec.rootfsRW)})
      ensures procs == old(procs) || (Spawned(old(procs), procs, Started(spec)) && Launches(spec, dirs))
      ensures !err ==> handle == Dir(spec.rootfsRW)
      ensures ok ==> Spawned(old(procs), procs, Started(spec))
      ensures reliable && Complete(spec, old(State())) ==> !err && ok
    {
      hide Started, Dir, Same, Below;
      var run := Dir(spec.rootfsRW);
      ghost var start := State();
      SameSelf(start, {}, {run});
      handle, ok := "", false;
      var lost := Fault();
      var pid: nat := 0;
      var launched := Launches(spec, dirs) && !lost;
      if launched {
        FreshPid(procs);
        pid :| pid !in procs;
        procs := procs[pid := Started(spec).value];
        ProcsChanged(start, procs, {run});
        ok := true;
      }
      err := Fault();
      if err { return; }
      // A ready file may be left over; a complete node becomes ready sooner or later.
      var fine := reliable && Complete(spec, HostState(links, dirs, procs));
      var polls: nat :| reliable ==> polls > 0;
      for i := 0 to polls
        invariant fine ==> i == 0
      {
        var ready := *;
        if fine { ready := true; }
        if ready { return false, run, ok; }
      }
      var killed := *;
      if launched && killed {
        procs := procs - {pid};
        assert procs == start.procs;
        ok := false;
      }
      err := true;
    }

    /** `Driver.Stop`: the node's processes are killed and its tree removed. The directory
        is quoted, so any name is read as one word. */
    method Stop(run: string) returns (err: bool, ghost ok: bool)
      modifies `dirs, `procs
      ensures Same(old(State()), State(), {}, {run}) && OnlyRemoved(old(State()), State())
      ensures ok ==> dirs == WithoutTrees(old(dirs), {run}) && procs == WithoutProcs(old(procs), {run})
      ensures Refused(run) ==> dirs == old(dirs)
      ensures reliable ==> !err && (!Refused(run) ==> ok)
    {
      hide Same, Below, Laid, Refused;
      ok := false;
      ghost var start := State();
      SameSelf(start, {}, {run});
      err := Fault();
      if err { return; }
      var own := set p | p in procs && procs[p].run == run;
      var killed: set<nat> := *;
      if reliable { killed := own; }
      procs := procs - (killed * own);
      ProcsChanged(start, procs, {run});
      ghost var mid := State();
      var left: set<string> := *;
      if reliable { left := {}; }
      if !Refused(run) { dirs := WithoutTrees(dirs, {run}) + dirs * left; }
      DirsChanged(mid, dirs, run);
      SameStep(start, mid, State(), {}, {run}, {}, {run});
      ok := own <= killed && dirs == WithoutTrees(start.dirs, {run});
      err := Fault();
    }

    /** `Down`'s script: a loop over the words of `list`, which is not quoted. */
    method DeleteLinks(list: string) returns (ghost ok: bool)
      requires Valid()
      modifies this
      ensures Valid()
      ensures Words(list).Some? ==>
                && Same(old(State()), State(), Elems(Words(list).value), {})
                && OnlyRemoved(old(State()), State())
                && dirs == old(dirs) && procs == old(procs)
      ensures ok ==> Words(list).Some? && links == WithoutLinks(old(links), Elems(Words(list).value))
      ensures reliable && Words(list).Some? ==> ok
    {
      hide WithoutLinks, Words, Same, OnlyRemoved, Below;
      ok := false;
      ghost var start := State();
      if Words(list) == None {
        var _ := Stray();
        return;
      }
      var names := Words(list).value;
      ok := true;
      SameSelf(start, Elems(names), {});
      RemovedSelf(start);
      NoLinksGone(links);
      assert Elems(names[..0]) == {};
      for i := 0 to |names|
        invariant Valid() && dirs == old(dirs) && procs == old(procs)
        invariant Same(start, State(), Elems(names), {}) && OnlyRemoved(start, State())
        invariant ok ==> links == WithoutLinks(start.links, Elems(names[..i]))
        invariant reliable ==> ok
      {
        ghost var here := State();
        LinkDeleted(here, names[i]);
        LinksTwice(start.links, Elems(names[..i]), {names[i]});
        assert Elems(names[..i + 1]) == Elems(names[..i]) + {names[i]};
        var kept := Fault();
        if names[i] in links {
          if kept {
            ok := false;
          } else {
            links := WithoutLinks(links, {names[i]});
            SameStep(start, here, State(), {names[i]}, {}, Elems(names), {});
            RemovedTwice(start, here, State());
          }
        }
      }
      assert names[..|names|] == names;
    }

    /** The shell loop of `ipConfigCmd` in one guest, over the interfaces in any order: the
        first with the address `mac` that takes `ip` and comes up ends it with 0; 1 if
        there is none. */
    method TryInterfaces(pid: nat, mac: string, ip: string) returns (rc: nat, ghost ok: bool)
      requires pid in procs
      modifies `procs
      ensures pid in procs && procs == old(procs)[pid := procs[pid]]
      ensures procs[pid] == old(procs)[pid].(ifaces := procs[pid].ifaces)
      ensures ok && rc == 0 ==> GaveAddr(old(procs)[pid], procs[pid], mac, ip)
      ensures (forall k :: !HasMac(old(procs)[pid].ifaces, k, mac)) ==> ok && rc == 1 && procs == old(procs)
      ensures reliable && (exists k :: HasMac(old(procs)[pid].ifaces, k, mac))
              && (forall k :: HasMac(old(procs)[pid].ifaces, k, mac) ==> ip !in old(procs)[pid].ifaces[k].addrs) ==>
                ok && rc == 0
    {
      ghost var first := procs[pid];
      var rest := Places(|procs[pid].ifaces|);
      rc, ok := 1, true;
      while rest != {} && rc == 1
        invariant forall k: nat :: k in rest ==> k < |first.ifaces|
        invariant pid in procs && procs == old(procs)[pid := procs[pid]]
        invariant procs[pid] == first.(ifaces := procs[pid].ifaces) && |procs[pid].ifaces| == |first.ifaces|
        invariant forall j :: 0 <= j < |first.ifaces| ==> procs[pid].ifaces[j].card == first.ifaces[j].card
        invariant rc == 0 || rc == 1
        invariant ok && rc == 1 ==> procs[pid] == first && forall k :: HasMac(first.ifaces, k, mac) ==> k in rest
        invariant ok && rc == 0 ==> GaveAddr(first, procs[pid], mac, ip)
        invariant !ok || rc == 0 ==> exists k :: HasMac(first.ifaces, k, mac)
        invariant reliable && !ok ==> exists k :: HasMac(first.ifaces, k, mac) && ip in first.ifaces[k].addrs
        decreases |rest|
      {
        var k :| k in rest;
        rest := rest - {k};
        if procs[pid].ifaces[k].card.mac == mac {
          assert HasMac(first.ifaces, k, mac);
          var notAdded := Fault();
          var added := ip !in procs[pid].ifaces[k].addrs && !notAdded;
          if added { procs := procs[pid := WithAddr(procs[pid], k, ip)]; }
          var notUp := Fault();
          if added && !notUp { rc := 0; } else { ok := false; }
        }
      }
    }

    /** `ipConfigCmd` through the exec channel of a node; `None` when the call returns an
        error. A process serves the channel in the control directory that it read. Inside
        the node's script the IP address is not quoted. */
    method Assign(run: string, mac: string, ip: string, ghost runs: set<string>)
      returns (rc: Option<nat>, ghost ok: bool)
      requires run in runs
      modifies `procs
      ensures NoOutsider(old(procs), runs) ==> Same(old(State()), State(), {}, runs)
      ensures SameServers(old(procs), procs)
      ensures ok ==> Readable(mac) && Readable(ip)
      ensures forall pid :: OnlyProc(old(procs), run, pid) ==>
                var was := old(procs)[pid];
                && (ok && rc == Some(0) ==>
                      pid in procs && procs == old(procs)[pid := procs[pid]] && GaveAddr(was, procs[pid], mac, ip))
                && (reliable && PlainWord(mac) && PlainWord(ip) && (exists k :: HasMac(was.ifaces, k, mac))
                    && (forall k :: HasMac(was.ifaces, k, mac) ==> ip !in was.ifaces[k].addrs) ==>
                      ok && rc == Some(0))
      ensures reliable && PlainWord(mac) && PlainWord(ip) ==>
                forall pid :: OnlyProc(old(procs), run, pid)
                              && (forall k :: !HasMac(old(procs)[pid].ifaces, k, mac)) ==>
                  rc == Some(1)
    {
      hide Same, HasMac, GaveAddr, SameServers, PlainWord, Readable;
      SameSelf(State(), {}, runs);
      ServersSelf(procs);
      var own := set p | p in procs && procs[p].control == run + "/rw";
      assert forall p :: OnlyProc(procs, run, p) ==> p in own;
      assert forall p :: p in own ==> Concerns(procs[p], run);
      var misread := Misread(mac);
      var misreadToo := Misread(ip);
      rc, ok := None, !misread && !misreadToo;
      if own == {} { return; }
      var unsent := Fault();
      if unsent { return; }
      var pid :| pid in own;
      var code: nat :| true;
      if !misread && !misreadToo {
        var c, done := TryInterfaces(pid, mac, ip);
        code, ok := c, done;
      } else {
        // The guest's shell reads something else; that stays in the guest.
        var ifaces: seq<Iface> := *;
        procs := procs[pid := procs[pid].(ifaces := ifaces)];
      }
      OneProcChanged(old(State()), procs, pid, runs);
      var lost := Fault();
      rc := if lost then None else Some(code);
    }
  }

  lemma NothingAttached()
    ensures Attached(map[]) && Named(map[])
  {
  }

  /** A base in the tree of `run` is gone with it. */
  lemma RunLost(dirs: set<string>, run: string, base: string)
    ensures BaseLost(run, base) ==>
              Clean(base) !in WithoutTrees(dirs, {run}) + Laid(run) && run + "/rootfs" !in WithoutTrees(dirs, {run})
  {
    hide Under, Laid, Clean;
    InsideRun(run);
    assert forall d :: Below(d, {run}) <==> Under(d, run) by { OneTree(run); }
  }

  lemma OneTree(run: string)
    ensures forall d :: Below(d, {run}) <==> Under(d, run)
  {
    hide Under;
    forall d | Under(d, run) ensures Below(d, {run}) { assert run in {run}; }
  }

  lemma RemovedSelf(h: HostState)
    ensures OnlyRemoved(h, h)
  {
  }

  lemma RemovedTwice(a: HostState, b: HostState, c: HostState)
    requires OnlyRemoved(a, b) && OnlyRemoved(b, c)
    ensures OnlyRemoved(a, c)
  {
  }

  lemma BridgeAdded(h: HostState, links: map<string, HostLink>, name: string)
    requires Attached(h.links)
    requires links == WithoutLinks(h.links, {name})[name := HostLink(BridgeKind, None)]
    ensures Same(h, h.(links := links), {name}, {}) && Attached(links)
  {
    assert WithoutLinks(links, {name}) == WithoutLinks(h.links, {name});
    LinksChanged(h, links, {name});
  }

  lemma TapChanged(h: HostState, tap: string, l: HostLink)
    ensures Same(h, h.(links := h.links[tap := l]), {tap}, {})
  {
    assert WithoutLinks(h.links[tap := l], {tap}) == WithoutLinks(h.links, {tap});
    LinksChanged(h, h.links[tap := l], {tap});
  }
}
