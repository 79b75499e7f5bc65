/** What the option reader gets from the command lines that are written. */
module BootReader {
  import opened Results
  import opened Decimal
  import opened BootSpecs
  import opened BootCommand
  import opened QemuOptions

  // ----- what is written -------------------------------------------------

  function CardsOf(nics: seq<Nic>): (cards: seq<Card>)
    ensures |cards| == |nics|
    ensures forall i :: 0 <= i < |nics| ==> cards[i] == Card(Some(nics[i].tap), nics[i].mac)
  {
    seq(|nics|, i requires 0 <= i < |nics| => Card(Some(nics[i].tap), nics[i].mac))
  }

  predicate CommaFree(nics: seq<Nic>) { forall n :: n in nics ==> ',' !in n.tap && ',' !in n.mac }

  function NicOptions(nics: seq<Nic>, i: nat): seq<Opt>
    decreases |nics|
  {
    if nics == [] then []
    else
      [Opt("-netdev", NetdevValue(i, nics[0].tap)), Opt("-device", DeviceValue(i, nics[0].mac))]
      + NicOptions(nics[1..], i + 1)
  }

  /** The options before the kernel, the kernel, and those up to the interfaces. */
  function HeadOptions(spec: BootSpec): seq<Opt> {
    [Opt("-machine", "virt,gic-version=max"), Opt("-accel", "kvm"), Opt("-cpu", "host"),
     Opt("-smp", Dec(AtLeastOne(spec.cpu, 1))), Opt("-m", Dec(AtLeastOne(spec.memMiB, 512)))]
  }

  function FileOptions(spec: BootSpec, extra: string): seq<Opt> {
    [Opt("-append", CmdLine(extra)),
     Opt("-fsdev", Fsdev("rootdev", spec.rootfs)),
     Opt("-device", NineP("rootdev", "rootfs"))]
    + (if spec.rootfsRW == "" then []
       else [Opt("-fsdev", Fsdev("klabrw", spec.rootfsRW)),
             Opt("-device", NineP("klabrw", "klabrw"))])
  }

  function TailOptions(console: string): seq<Opt> {
    [Opt("-display", "none"), Opt("-serial", "file:" + console)]
  }

  /** Options as arguments. */
  function Pairs(opts: seq<Opt>): (args: seq<string>)
    ensures |args| == 2 * |opts|
  {
    seq(2 * |opts|, k requires 0 <= k < 2 * |opts| => if k % 2 == 0 then opts[k / 2].name else opts[k / 2].value)
  }

  lemma ReadOne(o: Opt, rest: seq<string>)
    requires !Flag(o.name)
    ensures Options([o.name, o.value] + rest) == PutAll([o], Options(rest))
  {
    assert ([o.name, o.value] + rest)[2..] == rest;
  }

  lemma {:induction false} ReadPairs(opts: seq<Opt>, rest: seq<string>)
    requires forall o :: o in opts ==> !Flag(o.name)
    ensures Options(Pairs(opts) + rest) == PutAll(opts, Options(rest))
  {
    hide Options, Flag;
    var args := Pairs(opts) + rest;
    if opts == [] {
      assert args == rest;
      if Options(rest).Some? { assert opts + Options(rest).value == Options(rest).value; }
    } else {
      assert args == [opts[0].name, opts[0].value] + (Pairs(opts[1..]) + rest);
      assert opts[0] in opts;
      ReadOne(opts[0], Pairs(opts[1..]) + rest);
      ReadPairs(opts[1..], rest);
      assert [opts[0]] + opts[1..] == opts;
      if Options(rest).Some? {
        assert [opts[0]] + (opts[1..] + Options(rest).value) == opts + Options(rest).value;
      }
    }
  }

  lemma PairsConcat(a: seq<Opt>, b: seq<Opt>)
    ensures Pairs(a + b) == Pairs(a) + Pairs(b)
  {
    var all := Pairs(a + b);
    forall k | 0 <= k < |all| ensures all[k] == (Pairs(a) + Pairs(b))[k] {
      if k >= 2 * |a| { assert (a + b)[k / 2] == b[k / 2 - |a|] && (k - 2 * |a|) / 2 == k / 2 - |a|; }
    }
  }

  lemma {:induction false} NicArgsArePairs(nics: seq<Nic>, i: nat)
    ensures NicArgs(nics, i) == Pairs(NicOptions(nics, i))
    decreases |nics|
  {
    hide NetdevValue, DeviceValue;
    if nics != [] {
      NicArgsArePairs(nics[1..], i + 1);
      var here := [Opt("-netdev", NetdevValue(i, nics[0].tap)), Opt("-device", DeviceValue(i, nics[0].mac))];
      PairsConcat(here, NicOptions(nics[1..], i + 1));
      var four := Pairs(here);
      assert four[0] == "-netdev" && four[1] == here[0].value && four[2] == "-device" && four[3] == here[1].value;
      assert four == ["-netdev", here[0].value, "-device", here[1].value];
    }
  }

  lemma {:induction false} WithoutAbsent(args: seq<string>, x: string)
    requires x !in args
    ensures Without(args, x) == args
  {
    if args != [] {
      assert args[0] in args;
      WithoutAbsent(args[1..], x);
    }
  }

  function BaseOptions(spec: BootSpec, extra: string): seq<Opt> {
    HeadOptions(spec) + ([Opt("-kernel", spec.kernel)] + FileOptions(spec, extra))
  }

  lemma BaseArgsArePairs(spec: BootSpec, extra: string)
    ensures BaseArgs(spec, extra) + ControlArgs(spec.rootfsRW) == Pairs(BaseOptions(spec, extra))
  {
    hide Dec, AtLeastOne, CmdLine, Fsdev, NineP;
    var args, all := BaseArgs(spec, extra) + ControlArgs(spec.rootfsRW), Pairs(BaseOptions(spec, extra));
    assert |args| == |all|;
    assert args == all;
  }

  /** No argument for an interface is mistaken for the flag that is dropped. */
  lemma {:induction false} NicArgsAreNoFlag(nics: seq<Nic>, i: nat)
    ensures "-nographic" !in NicArgs(nics, i)
    decreases |nics|
  {
    if nics != [] {
      NicArgsAreNoFlag(nics[1..], i + 1);
      assert NetdevValue(i, nics[0].tap)[0] == 't' && DeviceValue(i, nics[0].mac)[0] == 'v';
    }
  }

  lemma BaseArgsAreNoFlag(spec: BootSpec, extra: string)
    ensures "-nographic" in BaseArgs(spec, extra) + ControlArgs(spec.rootfsRW) <==> spec.kernel == "-nographic"
  {
    var cpu, mem := Dec(AtLeastOne(spec.cpu, 1)), Dec(AtLeastOne(spec.memMiB, 512));
    assert IsDigit(cpu[0]) && IsDigit(mem[0]) by { assert cpu[0] in cpu && mem[0] in mem; }
    assert BaseArgs(spec, extra)[11] == spec.kernel;
    assert |CmdLine(extra)| > |"-nographic"|;
  }

  /** Every option of the launched command line, the flag replaced by a serial file. */
  function LaunchOptions(spec: BootSpec, console: string): seq<Opt> {
    BaseOptions(spec, Init)
    + ([Opt("-no-reboot", "")] + (NicOptions(spec.nics, 0) + TailOptions(console)))
  }

  lemma LaunchShape(spec: BootSpec, console: string)
    requires spec.kernel != "-nographic"
    ensures LaunchArgv(spec, console)[1..] ==
            Pairs(BaseOptions(spec, Init))
            + (["-no-reboot"] + (Pairs(NicOptions(spec.nics, 0)) + Pairs(TailOptions(console))))
    ensures LaunchArgv(spec, console)[0] == Program
  {
    hide Without, BootArgv, BaseArgs, ControlArgs, BaseOptions, NicArgs, NicOptions, TailOptions, Pairs;
    var nics, tail := NicArgs(spec.nics, 0), TailOptions(console);
    WithoutTheFlag(spec, Init);
    BaseArgsArePairs(spec, Init);
    NicArgsArePairs(spec.nics, 0);
    TailPairs(console);
    assert LaunchArgv(spec, console) ==
           [Program] + (Pairs(BaseOptions(spec, Init)) + (["-no-reboot"] + (nics + Pairs(tail))));
  }

  lemma WithoutTheFlag(spec: BootSpec, extra: string)
    requires spec.kernel != "-nographic"
    ensures Without(BootArgv(spec, extra, spec.rootfsRW), "-nographic") ==
            [Program]
            + ((BaseArgs(spec, extra) + ControlArgs(spec.rootfsRW)) + (["-no-reboot"] + NicArgs(spec.nics, 0)))
  {
    hide BaseArgs, ControlArgs, NicArgs, Without;
    var base, nics := BaseArgs(spec, extra) + ControlArgs(spec.rootfsRW), NicArgs(spec.nics, 0);
    var flags := ["-nographic", "-no-reboot"];
    assert BootArgv(spec, extra, spec.rootfsRW) == [Program] + (base + (flags + nics));
    WithoutConcat([Program], base + (flags + nics), "-nographic");
    WithoutConcat(base, flags + nics, "-nographic");
    WithoutConcat(flags, nics, "-nographic");
    WithoutOne(Program, "-nographic");
    FlagDropped();
    BaseArgsAreNoFlag(spec, extra);
    WithoutAbsent(base, "-nographic");
    NicArgsAreNoFlag(spec.nics, 0);
    WithoutAbsent(nics, "-nographic");
  }

  lemma FlagDropped()
    ensures Without(["-nographic", "-no-reboot"], "-nographic") == ["-no-reboot"]
  {
    assert ["-nographic", "-no-reboot"][1..] == ["-no-reboot"];
    WithoutOne("-no-reboot", "-nographic");
  }

  lemma WithoutOne(a: string, x: string)
    requires a != x
    ensures Without([a], x) == [a]
  {
  }

  lemma TailPairs(console: string)
    ensures Pairs(TailOptions(console)) == ["-display", "none", "-serial", "file:" + console]
  {
  }

  lemma {:induction false} NicOptionsTakeValues(nics: seq<Nic>, i: nat)
    ensures forall o :: o in NicOptions(nics, i) ==> !Flag(o.name)
    decreases |nics|
  {
    hide NetdevValue, DeviceValue;
    if nics != [] { NicOptionsTakeValues(nics[1..], i + 1); }
  }

  /** The launched command line reads back as exactly the options that were meant. */
  lemma LaunchReads(spec: BootSpec, console: string)
    requires spec.kernel != "-nographic"
    ensures Options(LaunchArgv(spec, console)[1..]) == Some(LaunchOptions(spec, console))
  {
    hide *;
    var base, nics, tail := BaseOptions(spec, Init), NicOptions(spec.nics, 0), TailOptions(console);
    var rest := Pairs(nics) + Pairs(tail);
    LaunchShape(spec, console);
    FixedOptionsTakeValues(spec, Init, console);
    NicOptionsTakeValues(spec.nics, 0);
    ReadAll(tail);
    ReadPairs(nics, Pairs(tail));
    ReadFlag(rest);
    ReadPairs(base, ["-no-reboot"] + rest);
    PutSome(nics, tail);
    PutSome([Opt("-no-reboot", "")], nics + tail);
    PutSome(base, [Opt("-no-reboot", "")] + (nics + tail));
    LaunchOptionsAre(spec, console);
  }

  lemma LaunchOptionsAre(spec: BootSpec, console: string)
    ensures LaunchOptions(spec, console) ==
            BaseOptions(spec, Init) + ([Opt("-no-reboot", "")] + (NicOptions(spec.nics, 0) + TailOptions(console)))
  {
    hide BaseOptions, NicOptions, TailOptions;
  }

  lemma PutSome(a: seq<Opt>, b: seq<Opt>)
    ensures PutAll(a, Some(b)) == Some(a + b)
  {
  }

  lemma ReadAll(opts: seq<Opt>)
    requires forall o :: o in opts ==> !Flag(o.name)
    ensures Options(Pairs(opts)) == Some(opts)
  {
    hide Pairs;
    ReadPairs(opts, []);
    assert Pairs(opts) + [] == Pairs(opts) && opts + [] == opts;
  }

  lemma ReadFlag(rest: seq<string>)
    ensures Options(["-no-reboot"] + rest) == PutAll([Opt("-no-reboot", "")], Options(rest))
  {
    assert (["-no-reboot"] + rest)[1..] == rest;
  }

  lemma FixedOptionsTakeValues(spec: BootSpec, extra: string, console: string)
    ensures forall o :: o in BaseOptions(spec, extra) ==> !Flag(o.name)
    ensures forall o :: o in TailOptions(console) ==> !Flag(o.name)
  {
    hide CmdLine, Dec, AtLeastOne, NineP;
  }

  // ----- what the machine is ---------------------------------------------

  lemma {:induction false} CardsInConcat(a: seq<Opt>, b: seq<Opt>, all: seq<Opt>)
    ensures CardsIn(a + b, all) == CardsIn(a, all) + CardsIn(b, all)
  {
    hide ReadDevice, TapBehind;
    if a == [] {
      assert a + b == b;
    } else {
      assert (a + b)[1..] == a[1..] + b;
      CardsInConcat(a[1..], b, all);
    }
  }

  lemma {:induction false} NoCards(opts: seq<Opt>, all: seq<Opt>)
    requires forall o :: o in opts ==> !IsCard(o)
    ensures CardsIn(opts, all) == []
  {
    hide IsCard;
    if opts != [] {
      assert opts[0] in opts;
      NoCards(opts[1..], all);
    }
  }

  lemma {:induction false} NoTaps(a: seq<Opt>, b: seq<Opt>, id: string)
    requires forall o :: o in a ==> o.name != "-netdev"
    ensures TapBehind(a + b, id) == TapBehind(b, id)
  {
    hide ReadNetdev;
    if a == [] {
      assert a + b == b;
    } else {
      assert a[0] in a && (a + b)[1..] == a[1..] + b;
      NoTaps(a[1..], b, id);
    }
  }

  lemma NicIdPlain(i: nat)
    ensures ',' !in NicId(i)
  {
    assert ',' !in "net";
  }

  lemma NicIdInjective(i: nat, j: nat)
    requires NicId(i) == NicId(j)
    ensures i == j
  {
    hide Dec;
    assert Dec(i) == NicId(i)[3..] && Dec(j) == NicId(j)[3..];
    DecInjective(i, j);
  }

  lemma AfterPrefix(p: string, s: string)
    ensures After(p + s, p) == Some(s)
  {
    assert (p + s)[..|p|] == p && (p + s)[|p|..] == s;
  }

  lemma {:induction false} ValAtComma(a: string, b: string)
    requires ',' !in a && (b != "" ==> b[0] != ',')
    ensures Val(a + ("," + b)) == (a, b)
    ensures Val(a + "," + b) == (a, b)
    decreases |a|
  {
    var s := a + ("," + b);
    assert a + "," + b == s;
    if a == "" {
      assert s == "," + b && s[1..] == b;
    } else {
      assert a[0] in a && s[0] == a[0] && s[1..] == a[1..] + ("," + b);
      ValAtComma(a[1..], b);
      assert [a[0]] + a[1..] == a;
    }
  }

  lemma {:induction false} ValToEnd(a: string)
    requires ',' !in a
    ensures Val(a) == (a, "")
  {
    if a != "" {
      assert a[0] in a && forall c :: c in a[1..] ==> c in a;
      ValToEnd(a[1..]);
      assert [a[0]] + a[1..] == a;
    }
  }

  lemma ReadNetdevValue(i: nat, tap: string)
    requires ',' !in tap
    ensures ReadNetdev(NetdevValue(i, tap)) == Some((NicId(i), tap))
  {
    hide NicId, Val, After;
    var q := tap + "," + "script=no,downscript=no";
    NicIdPlain(i);
    AfterPrefix("tap,id=", NicId(i) + "," + ("ifname=" + q));
    ValAtComma(NicId(i), "ifname=" + q);
    AfterPrefix("ifname=", q);
    ValAtComma(tap, "script=no,downscript=no");
  }

  lemma ReadDeviceValue(i: nat, mac: string)
    requires ',' !in mac
    ensures ReadDevice(DeviceValue(i, mac)) == Some((NicId(i), mac))
  {
    hide NicId, Val, After;
    NicIdPlain(i);
    AfterPrefix("virtio-net-pci,netdev=", NicId(i) + "," + ("mac=" + mac));
    ValAtComma(NicId(i), "mac=" + mac);
    AfterPrefix("mac=", mac);
    ValToEnd(mac);
  }

  /** The back end of interface `j` is found among those of all interfaces. */
  lemma {:induction false} TapFound(nics: seq<Nic>, i: nat, j: nat, rest: seq<Opt>)
    requires CommaFree(nics) && j < |nics|
    ensures TapBehind(NicOptions(nics, i) + rest, NicId(i + j)) == Some(nics[j].tap)
    decreases |nics|
  {
    hide NetdevValue, DeviceValue, ReadNetdev, NicId;
    var all := NicOptions(nics, i) + rest;
    assert nics[0] in nics;
    ReadNetdevValue(i, nics[0].tap);
    assert all[0] == Opt("-netdev", NetdevValue(i, nics[0].tap));
    if j > 0 {
      if NicId(i) == NicId(i + j) { NicIdInjective(i, i + j); }
      assert all[1] == Opt("-device", DeviceValue(i, nics[0].mac));
      assert all[1..][1..] == NicOptions(nics[1..], i + 1) + rest;
      TapFound(nics[1..], i + 1, j - 1, rest);
    }
  }

  lemma {:induction false} NicCards(nics: seq<Nic>, i: nat, all: seq<Opt>)
    requires CommaFree(nics)
    requires forall j :: 0 <= j < |nics| ==> TapBehind(all, NicId(i + j)) == Some(nics[j].tap)
    ensures CardsIn(NicOptions(nics, i), all) == CardsOf(nics)
    decreases |nics|
  {
    hide NetdevValue, DeviceValue, ReadDevice, NicId, TapBehind;
    if nics != [] {
      var here := NicOptions(nics, i);
      assert here[0].name == "-netdev" && here[1] == Opt("-device", DeviceValue(i, nics[0].mac));
      assert here[1..][1..] == NicOptions(nics[1..], i + 1);
      assert nics[0] in nics;
      ReadDeviceValue(i, nics[0].mac);
      assert TapBehind(all, NicId(i + 0)) == Some(nics[0].tap);
      forall j | 0 <= j < |nics[1..]| ensures TapBehind(all, NicId(i + 1 + j)) == Some(nics[1..][j].tap) {
        assert TapBehind(all, NicId(i + (j + 1))) == Some(nics[j + 1].tap);
      }
      NicCards(nics[1..], i + 1, all);
    }
  }

  lemma FixedOptionsHaveNoCards(spec: BootSpec, extra: string, console: string)
    ensures forall o :: o in BaseOptions(spec, extra) ==> o.name != "-netdev" && !IsCard(o)
    ensures forall o :: o in TailOptions(console) ==> o.name != "-netdev" && !IsCard(o)
  {
    hide CmdLine, Dec, AtLeastOne, ReadDevice, NineP;
    NinePIsNoCard("rootdev", "rootfs");
    NinePIsNoCard("klabrw", "klabrw");
  }

  lemma NinePIsNoCard(id: string, tag: string)
    ensures ReadDevice(NineP(id, tag)) == None
  {
    var v, p := NineP(id, tag), "virtio-net-pci,netdev=";
    assert v[7] == '9' && p[7] == 'n';
  }

  lemma LaunchCards(spec: BootSpec, console: string)
    requires CommaFree(spec.nics)
    ensures CardsIn(LaunchOptions(spec, console), LaunchOptions(spec, console)) == CardsOf(spec.nics)
  {
    hide BaseOptions, NicOptions, TailOptions, IsCard, NicId, CardsIn, TapBehind;
    var all, base, tail := LaunchOptions(spec, console), BaseOptions(spec, Init), TailOptions(console);
    var flag, nics := [Opt("-no-reboot", "")], NicOptions(spec.nics, 0);
    FixedOptionsHaveNoCards(spec, Init, console);
    assert !IsCard(flag[0]) by { FlagIsNoCard(); }
    forall j | 0 <= j < |spec.nics| ensures TapBehind(all, NicId(0 + j)) == Some(spec.nics[j].tap) {
      NoTaps(base, flag + (nics + tail), NicId(j));
      NoTaps(flag, nics + tail, NicId(j));
      TapFound(spec.nics, 0, j, tail);
    }
    CardsInConcat(base, flag + (nics + tail), all);
    CardsInConcat(flag, nics + tail, all);
    CardsInConcat(nics, tail, all);
    NoCards(base, all);
    NoCards(flag, all);
    NoCards(tail, all);
    NicCards(spec.nics, 0, all);
  }

  lemma FlagIsNoCard()
    ensures !IsCard(Opt("-no-reboot", ""))
  {
  }

  lemma {:induction false} KernelFirst(a: seq<Opt>, k: string, b: seq<Opt>)
    requires forall o :: o in a ==> o.name != "-kernel"
    ensures KernelIn(a + ([Opt("-kernel", k)] + b)) == Some(k)
  {
    var all := a + ([Opt("-kernel", k)] + b);
    if a != [] {
      assert a[0] in a && all[1..] == a[1..] + ([Opt("-kernel", k)] + b);
      KernelFirst(a[1..], k, b);
    }
  }

  /** A kernel path equal to the flag is dropped with it; the next argument is then
      read as the kernel. */
  lemma LostKernel(spec: BootSpec, console: string)
    requires spec.kernel == "-nographic"
    ensures var m := ReadMachine(LaunchArgv(spec, console)); m.Some? ==> m.value.kernel == Some("-append")
  {
    hide BaseArgs, ControlArgs, BaseOptions, HeadOptions, NicArgs, Without, Pairs, KernelIn, CardsIn, Options;
    var head := HeadOptions(spec);
    var rest := LostKernelShape(spec, console);
    FixedOptionsTakeValues(spec, Init, console);
    HeadIsPlain(spec);
    ReadPairs(head + [Opt("-kernel", "-append")], rest);
    if Options(rest).Some? {
      var os := Options(rest).value;
      assert (head + [Opt("-kernel", "-append")]) + os == head + ([Opt("-kernel", "-append")] + os);
      KernelFirst(head, "-append", os);
    }
  }

  lemma HeadIsPlain(spec: BootSpec)
    ensures forall o :: o in HeadOptions(spec) ==> !Flag(o.name) && o.name != "-kernel"
    ensures "-nographic" !in Pairs(HeadOptions(spec))
  {
    hide Dec;
    var cpu, mem := Dec(AtLeastOne(spec.cpu, 1)), Dec(AtLeastOne(spec.memMiB, 512));
    assert IsDigit(cpu[0]) && IsDigit(mem[0]) by { assert cpu[0] in cpu && mem[0] in mem; }
  }

  lemma LostKernelShape(spec: BootSpec, console: string) returns (rest: seq<string>)
    requires spec.kernel == "-nographic"
    ensures LaunchArgv(spec, console) != []
    ensures LaunchArgv(spec, console)[1..] == Pairs(HeadOptions(spec) + [Opt("-kernel", "-append")]) + rest
  {
    hide BaseArgs, ControlArgs, HeadOptions, FileOptions, NicArgs, Without, Pairs;
    var flag, head, file := "-nographic", Pairs(HeadOptions(spec)), Pairs(FileOptions(spec, Init));
    var after := ["-nographic", "-no-reboot"] + NicArgs(spec.nics, 0);
    var kernel := [Opt("-kernel", flag)];
    BaseArgsArePairs(spec, Init);
    PairsConcat(HeadOptions(spec), kernel + FileOptions(spec, Init));
    PairsConcat(kernel, FileOptions(spec, Init));
    OnePair("-kernel", flag);
    OnePair("-kernel", "-append");
    var base := BaseArgs(spec, Init) + ControlArgs(spec.rootfsRW);
    assert base == head + (["-kernel", flag] + file);
    assert BootArgv(spec, Init, spec.rootfsRW) == [Program] + (base + after);
    assert base + after == head + (["-kernel", flag] + (file + after));
    WithoutConcat([Program], head + (["-kernel", flag] + (file + after)), flag);
    WithoutConcat(head, ["-kernel", flag] + (file + after), flag);
    WithoutConcat(["-kernel", flag], file + after, flag);
    WithoutOne(Program, flag);
    HeadIsPlain(spec);
    WithoutAbsent(head, flag);
    KernelFlagDropped();
    var tail := WithoutAppend(spec, after);
    PairsConcat(HeadOptions(spec), [Opt("-kernel", "-append")]);
    rest := tail + ["-display", "none", "-serial", "file:" + console];
    assert LaunchArgv(spec, console) == [Program] + (head + (["-kernel"] + (["-append"] + rest)));
    assert ["-kernel"] + (["-append"] + rest) == ["-kernel", "-append"] + rest;
    assert LaunchArgv(spec, console)[1..] == head + (["-kernel", "-append"] + rest);
  }

  lemma OnePair(name: string, value: string)
    ensures Pairs([Opt(name, value)]) == [name, value]
  {
  }

  lemma KernelFlagDropped()
    ensures Without(["-kernel", "-nographic"], "-nographic") == ["-kernel"]
  {
    assert ["-kernel", "-nographic"] == ["-kernel"] + ["-nographic"];
    WithoutConcat(["-kernel"], ["-nographic"], "-nographic");
    WithoutOne("-kernel", "-nographic");
  }

  lemma WithoutAppend(spec: BootSpec, after: seq<string>) returns (tail: seq<string>)
    ensures Without(Pairs(FileOptions(spec, Init)) + after, "-nographic") == ["-append"] + tail
  {
    hide CmdLine, NineP;
    var args := Pairs(FileOptions(spec, Init)) + after;
    assert args[0] == "-append";
    tail := Without(args[1..], "-nographic");
  }

  // ----- options given once ----------------------------------------------

  lemma {:induction false} NoValues(opts: seq<Opt>, name: string)
    requires forall o :: o in opts ==> o.name != name
    ensures Values(opts, name) == []
  {
    if opts != [] {
      assert opts[0] in opts;
      NoValues(opts[1..], name);
    }
  }

  lemma {:induction false} ValuesConcat(a: seq<Opt>, b: seq<Opt>, name: string)
    ensures Values(a + b, name) == Values(a, name) + Values(b, name)
  {
    if a == [] {
      assert a + b == b;
    } else {
      assert (a + b)[1..] == a[1..] + b;
      ValuesConcat(a[1..], b, name);
    }
  }

  /** An option whose name stands nowhere else is given once. */
  lemma SoleAt(opts: seq<Opt>, i: nat)
    requires i < |opts| && forall j :: 0 <= j < |opts| && j != i ==> opts[j].name != opts[i].name
    ensures Sole(opts, opts[i].name) == Some(opts[i].value)
  {
    var a, o, b := opts[..i], opts[i], opts[i + 1..];
    assert opts == a + ([o] + b);
    ValuesConcat(a, [o] + b, o.name);
    ValuesConcat([o], b, o.name);
    forall x | x in a ensures x.name != o.name {
      var j :| 0 <= j < |a| && a[j] == x;
      assert opts[j] == x;
    }
    forall x | x in b ensures x.name != o.name {
      var j :| 0 <= j < |b| && b[j] == x;
      assert opts[i + 1 + j] == x;
    }
    NoValues(a, o.name);
    NoValues(b, o.name);
    assert [o][1..] == [] && Values([o], o.name) == [o.value] + [];
  }

  /** The names of the options for shared directories, restarts and interfaces. */
  predicate InnerName(name: string) {
    name == "-fsdev" || name == "-device" || name == "-netdev" || name == "-no-reboot"
  }

  lemma {:induction false} NicNamesInner(nics: seq<Nic>, i: nat)
    ensures forall o :: o in NicOptions(nics, i) ==> InnerName(o.name)
    decreases |nics|
  {
    hide NetdevValue, DeviceValue;
    if nics != [] { NicNamesInner(nics[1..], i + 1); }
  }

  function Outer(spec: BootSpec): seq<Opt> {
    HeadOptions(spec) + [Opt("-kernel", spec.kernel), Opt("-append", CmdLine(Init))]
  }

  function Inner(spec: BootSpec): seq<Opt> {
    FileOptions(spec, Init)[1..] + ([Opt("-no-reboot", "")] + NicOptions(spec.nics, 0))
  }

  lemma LaunchParts(spec: BootSpec, console: string)
    ensures LaunchOptions(spec, console) == Outer(spec) + (Inner(spec) + TailOptions(console))
    ensures |Outer(spec)| == 7 && forall o :: o in Inner(spec) ==> InnerName(o.name)
  {
    hide NicOptions, HeadOptions, FileOptions, TailOptions, CmdLine, InnerName;
    NicNamesInner(spec.nics, 0);
    FileNamesInner(spec);
    var file, nics, tail := FileOptions(spec, Init), NicOptions(spec.nics, 0), TailOptions(console);
    var kernel, append, flag := Opt("-kernel", spec.kernel), Opt("-append", CmdLine(Init)), Opt("-no-reboot", "");
    assert [kernel] + file == [kernel, append] + file[1..];
    var head := HeadOptions(spec) + ([kernel, append] + file[1..]);
    assert LaunchOptions(spec, console) == head + ([flag] + (nics + tail));
  }

  lemma FileNamesInner(spec: BootSpec)
    ensures FileOptions(spec, Init) == [Opt("-append", CmdLine(Init))] + FileOptions(spec, Init)[1..]
    ensures forall o :: o in FileOptions(spec, Init)[1..] ==> InnerName(o.name)
    ensures |HeadOptions(spec)| == 5 && InnerName("-no-reboot")
  {
    hide CmdLine, Dec, AtLeastOne, NineP, Fsdev;
  }

  function MeantSetup(spec: BootSpec, console: string): Setup {
    Setup(Some("virt,gic-version=max"), Some("kvm"), Some("host"), Some(Dec(AtLeastOne(spec.cpu, 1))),
          Some(Dec(AtLeastOne(spec.memMiB, 512))), Some(CmdLine(Init)), Some("file:" + console))
  }

  lemma OuterIs(spec: BootSpec, console: string)
    ensures var o, s := Outer(spec), MeantSetup(spec, console);
            && |o| == 7
            && o[0] == Opt("-machine", s.board.value) && o[1] == Opt("-accel", s.accel.value)
            && o[2] == Opt("-cpu", s.cpu.value) && o[3] == Opt("-smp", s.smp.value)
            && o[4] == Opt("-m", s.memory.value) && o[5].name == "-kernel"
            && o[6] == Opt("-append", s.append.value)
  {
    hide CmdLine, Dec, AtLeastOne;
  }

  lemma LaunchSetup(spec: BootSpec, console: string)
    ensures SetupIn(LaunchOptions(spec, console)) == MeantSetup(spec, console)
  {
    hide LaunchOptions, Outer, Inner, MeantSetup, Sole, InnerName;
    var outer, inner, tail := Outer(spec), Inner(spec), TailOptions(console);
    var all := LaunchOptions(spec, console);
    LaunchParts(spec, console);
    OuterIs(spec, console);
    assert all == outer + (inner + tail);
    var n := |all|;
    assert forall j :: 7 <= j < n - 2 ==> all[j] in inner by {
      forall j | 7 <= j < n - 2 ensures all[j] in inner { assert all[j] == inner[j - 7]; }
    }
    assert all[n - 2] == tail[0] && all[n - 1] == tail[1];
    SoleOuter(all, inner);
    var s := MeantSetup(spec, console);
    MeantAreSome(spec, console);
    assert SetupIn(all) == s;
  }

  lemma MeantAreSome(spec: BootSpec, console: string)
    ensures var s := MeantSetup(spec, console);
            && s.board.Some? && s.accel.Some? && s.cpu.Some? && s.smp.Some? && s.memory.Some? && s.append.Some?
            && s.serial == Some("file:" + console)
  {
  }

  lemma SoleOuter(all: seq<Opt>, inner: seq<Opt>)
    requires |all| >= 9 && forall j :: 7 <= j < |all| - 2 ==> all[j] in inner
    requires forall o :: o in inner ==> InnerName(o.name)
    requires all[0].name == "-machine" && all[1].name == "-accel" && all[2].name == "-cpu" && all[3].name == "-smp"
    requires all[4].name == "-m" && all[5].name == "-kernel" && all[6].name == "-append"
    requires all[|all| - 2].name == "-display" && all[|all| - 1].name == "-serial"
    ensures forall i :: 0 <= i < 7 ==> Sole(all, all[i].name) == Some(all[i].value)
    ensures Sole(all, "-serial") == Some(all[|all| - 1].value)
  {
    hide Sole;
    var n := |all|;
    forall j | 7 <= j < n - 2 ensures InnerName(all[j].name) { assert all[j] in inner; }
    forall i | 0 <= i < 7 ensures Sole(all, all[i].name) == Some(all[i].value) {
      OuterDiffers(all, i);
      SoleAt(all, i);
    }
    OuterDiffers(all, n - 1);
    SoleAt(all, n - 1);
  }

  lemma OuterDiffers(all: seq<Opt>, i: nat)
    requires |all| >= 9 && forall j :: 7 <= j < |all| - 2 ==> InnerName(all[j].name)
    requires all[0].name == "-machine" && all[1].name == "-accel" && all[2].name == "-cpu" && all[3].name == "-smp"
    requires all[4].name == "-m" && all[5].name == "-kernel" && all[6].name == "-append"
    requires all[|all| - 2].name == "-display" && all[|all| - 1].name == "-serial"
    requires i < 7 || i == |all| - 1
    ensures forall j :: 0 <= j < |all| && j != i ==> all[j].name != all[i].name
  {
  }

  // ----- shared directories ----------------------------------------------

  /** What a value loses: a doubled comma is read as one. */
  lemma {:induction false} ValLength(s: string)
    requires Val(s).1 != ""
    ensures |s| >= |Val(s).0| + 1 + |Val(s).1|
    ensures ',' in Val(s).0 ==> |s| > |Val(s).0| + 1 + |Val(s).1|
    decreases |s|
  {
    if s[0] != ',' {
      ValLength(s[1..]);
      assert Val(s).0 == [s[0]] + Val(s[1..]).0;
    } else if |s| > 1 && s[1] == ',' {
      ValLength(s[2..]);
    }
  }

  /** A path is read back from its back end, and the back end accepted, if and only if the
      path has no comma. */
  lemma FsdevIff(id: string, path: string)
    requires ',' !in id
    ensures ReadFsdev(Fsdev(id, path)) == Some((id, path)) <==> ',' !in path
    ensures ReadFsdev(Fsdev(id, path)).Some? ==> ReadFsdev(Fsdev(id, path)).value.0 == id
  {
    hide Val, After;
    var q := path + "," + "security_model=none";
    AfterPrefix("local,id=", id + "," + ("path=" + q));
    ValAtComma(id, "path=" + q);
    AfterPrefix("path=", q);
    if ',' !in path {
      ValAtComma(path, "security_model=none");
    } else if Val(q) == (path, "security_model=none") {
      ValLength(q);
      assert false;
    }
  }

  /** After a path's first comma QEMU reads another parameter, and refuses it. */
  lemma CommaIsRefused(id: string, a: string, b: string)
    requires ',' !in id && ',' !in a && (b != "" ==> b[0] != ',')
    ensures ReadFsdev(Fsdev(id, a + "," + b)) == None
  {
    hide Val, After;
    var q := (a + "," + b) + "," + "security_model=none";
    var rest := b + "," + "security_model=none";
    assert q == a + ("," + rest);
    AfterPrefix("local,id=", id + "," + ("path=" + q));
    ValAtComma(id, "path=" + q);
    AfterPrefix("path=", q);
    if b == "" {
      DoubledAtEnd(a);
    } else {
      ValAtComma(a, rest);
      assert |rest| > |"security_model=none"|;
    }
  }

  /** A comma at the end of the path and the one after it are read as one character. */
  lemma {:induction false} DoubledAtEnd(a: string)
    requires ',' !in a
    ensures Val((a + "," + "") + "," + "security_model=none").1 == ""
    decreases |a|
  {
    var tail := "security_model=none";
    var s := (a + "," + "") + "," + tail;
    if a == "" {
      assert s == ",," + tail && s[2..] == tail;
      NoCommaInTail();
      ValToEnd(tail);
    } else {
      assert a[0] in a && forall c :: c in a[1..] ==> c in a;
      assert s[0] == a[0] && s[1..] == (a[1..] + "," + "") + "," + tail;
      DoubledAtEnd(a[1..]);
    }
  }

  lemma NoCommaInTail()
    ensures ',' !in "security_model=none"
  {
  }

  lemma ReadShareValue(id: string, tag: string)
    requires ',' !in id && ',' !in tag
    ensures ReadShare(NineP(id, tag)) == Some((id, tag))
  {
    hide Val, After;
    AfterPrefix("virtio-9p-pci,fsdev=", id + "," + ("mount_tag=" + tag));
    ValAtComma(id, "mount_tag=" + tag);
    AfterPrefix("mount_tag=", tag);
    ValToEnd(tag);
  }

  lemma {:induction false} SkipPaths(a: seq<Opt>, b: seq<Opt>, id: string)
    requires forall o :: o in a ==> !IsFsdev(o, id)
    ensures PathBehind(a + b, id) == PathBehind(b, id)
  {
    hide IsFsdev;
    if a == [] {
      assert a + b == b;
    } else {
      assert a[0] in a && (a + b)[1..] == a[1..] + b;
      SkipPaths(a[1..], b, id);
    }
  }

  lemma {:induction false} SkipShares(a: seq<Opt>, b: seq<Opt>, all: seq<Opt>, tag: string)
    requires forall o :: o in a ==> !IsShare(o, tag)
    ensures ShareIn(a + b, all, tag) == ShareIn(b, all, tag)
  {
    hide IsShare;
    if a == [] {
      assert a + b == b;
    } else {
      assert a[0] in a && (a + b)[1..] == a[1..] + b;
      SkipShares(a[1..], b, all, tag);
    }
  }

  function Share(id: string, tag: string, path: string): seq<Opt> {
    [Opt("-fsdev", Fsdev(id, path)), Opt("-device", NineP(id, tag))]
  }

  /** A share among other options is found by its tag, and its path behind its back end. */
  lemma ShareFound(a: seq<Opt>, id: string, tag: string, path: string, b: seq<Opt>)
    requires ',' !in id && ',' !in tag
    requires forall o :: o in a ==> !IsShare(o, tag) && !IsFsdev(o, id)
    requires forall o :: o in b ==> !IsFsdev(o, id)
    ensures var all := a + (Share(id, tag, path) + b);
            ShareIn(all, all, tag) ==
            if ReadFsdev(Fsdev(id, path)).Some? then Some(ReadFsdev(Fsdev(id, path)).value.1) else None
  {
    hide ReadFsdev, ReadShare, Fsdev, NineP;
    var share := Share(id, tag, path);
    var all := a + (share + b);
    SkipShares(a, share + b, all, tag);
    SkipPaths(a, share + b, id);
    ReadShareValue(id, tag);
    FsdevIff(id, path);
    assert (share + b)[0] == share[0] && (share + b)[1..] == [share[1]] + b;
    assert ([share[1]] + b)[0] == share[1] && ([share[1]] + b)[1..] == b;
    assert b + [] == b;
    SkipPaths(b, [], id);
  }

  lemma {:induction false} NoShares(opts: seq<Opt>, tag: string)
    requires forall o :: o in opts ==> !IsShare(o, tag)
    ensures forall all :: ShareIn(opts, all, tag) == None
  {
    hide IsShare;
    forall all ensures ShareIn(opts, all, tag) == None {
      SkipShares(opts, [], all, tag);
      assert opts + [] == opts;
    }
  }

  /** No directory is shared by `o`. */
  predicate Shareless(o: Opt) { o.name != "-fsdev" && (o.name == "-device" ==> ReadShare(o.value) == None) }

  lemma {:induction false} NicsAreShareless(nics: seq<Nic>, i: nat)
    ensures forall o :: o in NicOptions(nics, i) ==> Shareless(o)
    decreases |nics|
  {
    hide NetdevValue, DeviceValue, ReadShare;
    if nics != [] {
      NicIsNoShare(i, nics[0].mac);
      NicsAreShareless(nics[1..], i + 1);
    }
  }

  lemma NicIsNoShare(i: nat, mac: string)
    ensures ReadShare(DeviceValue(i, mac)) == None
  {
    var v, p := DeviceValue(i, mac), "virtio-9p-pci,fsdev=";
    assert v[7] == 'n' && p[7] == '9';
  }

  /** The options before the shared directories, and those after them. */
  function Before(spec: BootSpec): seq<Opt> {
    HeadOptions(spec) + [Opt("-kernel", spec.kernel), Opt("-append", CmdLine(Init))]
  }

  function Rest(spec: BootSpec, console: string): seq<Opt> {
    [Opt("-no-reboot", "")] + (NicOptions(spec.nics, 0) + TailOptions(console))
  }

  function Control(spec: BootSpec): seq<Opt> {
    if spec.rootfsRW == "" then [] else Share("klabrw", "klabrw", spec.rootfsRW)
  }

  lemma SharesInLaunch(spec: BootSpec, console: string)
    ensures LaunchOptions(spec, console) ==
            Before(spec) + (Share("rootdev", "rootfs", spec.rootfs) + (Control(spec) + Rest(spec, console)))
    ensures forall o :: o in Before(spec) ==> Shareless(o)
    ensures forall o :: o in Rest(spec, console) ==> Shareless(o)
  {
    hide NicOptions, CmdLine, Dec, AtLeastOne, ReadShare;
    NicsAreShareless(spec.nics, 0);
  }

  lemma ShareOptions(id: string, tag: string, path: string)
    requires ',' !in id && ',' !in tag
    ensures forall o, x :: o in Share(id, tag, path) && x != id ==> !IsFsdev(o, x)
    ensures forall o, x :: o in Share(id, tag, path) && x != tag ==> !IsShare(o, x)
  {
    hide ReadFsdev, ReadShare, Fsdev, NineP;
    FsdevIff(id, path);
    ReadShareValue(id, tag);
  }

  /** The directory read for `path`: none if QEMU refuses its back end. */
  function PathRead(id: string, path: string): Option<string> {
    match ReadFsdev(Fsdev(id, path))
    case None => None
    case Some(r) => Some(r.1)
  }

  lemma LaunchShares(spec: BootSpec, console: string)
    ensures var all := LaunchOptions(spec, console);
            && ShareIn(all, all, "rootfs") == PathRead("rootdev", spec.rootfs)
            && ShareIn(all, all, "klabrw") == if spec.rootfsRW == "" then None else PathRead("klabrw", spec.rootfsRW)
  {
    hide LaunchOptions, Before, Rest, Share, ReadFsdev, ReadShare, Fsdev, ShareIn;
    var before, rest, control := Before(spec), Rest(spec, console), Control(spec);
    var root := Share("rootdev", "rootfs", spec.rootfs);
    var all := LaunchOptions(spec, console);
    SharesInLaunch(spec, console);
    ShareOptions("rootdev", "rootfs", spec.rootfs);
    ShareOptions("klabrw", "klabrw", spec.rootfsRW);
    ShareFound(before, "rootdev", "rootfs", spec.rootfs, control + rest);
    if spec.rootfsRW == "" {
      assert all == before + (root + rest);
      NoShares(all, "klabrw");
    } else {
      assert all == (before + root) + (control + rest);
      ShareFound(before + root, "klabrw", "klabrw", spec.rootfsRW, rest);
    }
  }

  lemma PathReadIff(id: string, path: string)
    requires ',' !in id
    ensures PathRead(id, path) == Some(path) <==> ',' !in path
  {
    hide ReadFsdev, Fsdev;
    FsdevIff(id, path);
  }

  /** The machine that was meant. */
  function Meant(spec: BootSpec, console: string): Machine {
    Machine(Some(spec.kernel), MeantSetup(spec, console), CardsOf(spec.nics), Some(spec.rootfs),
            if spec.rootfsRW == "" then None else Some(spec.rootfsRW))
  }

  /** Whatever its paths hold, the launched command line is read to the end, and all but
      the shared directories is as it was meant. */
  lemma LaunchedMachine(spec: BootSpec, console: string)
    requires CommaFree(spec.nics) && spec.kernel != "-nographic"
    ensures ReadMachine(LaunchArgv(spec, console)) ==
            Some(Meant(spec, console).(root := PathRead("rootdev", spec.rootfs),
                              control := if spec.rootfsRW == "" then None else PathRead("klabrw", spec.rootfsRW)))
  {
    hide LaunchArgv, Options, CardsIn, ShareIn, KernelIn, SetupIn, LaunchOptions, BaseOptions, PathRead, MeantSetup;
    LaunchSetup(spec, console);
    var all := LaunchOptions(spec, console);
    LaunchReads(spec, console);
    LaunchShape(spec, console);
    LaunchCards(spec, console);
    LaunchShares(spec, console);
    LaunchKernel(spec, console);
    assert LaunchArgv(spec, console) != [] by { LaunchIsSome(spec, console); }
    assert ReadMachine(LaunchArgv(spec, console)) == Some(MachineOf(all));
  }

  lemma LaunchIsSome(spec: BootSpec, console: string)
    ensures LaunchArgv(spec, console) != []
  {
  }

  lemma LaunchKernel(spec: BootSpec, console: string)
    ensures KernelIn(LaunchOptions(spec, console)) == Some(spec.kernel)
  {
    hide HeadOptions, FileOptions, NicOptions, TailOptions, KernelIn;
    var head, file := HeadOptions(spec), FileOptions(spec, Init);
    var rest := [Opt("-no-reboot", "")] + (NicOptions(spec.nics, 0) + TailOptions(console));
    HeadIsPlain(spec);
    assert LaunchOptions(spec, console) == head + ([Opt("-kernel", spec.kernel)] + (file + rest));
    KernelFirst(head, spec.kernel, file + rest);
  }

  /** The machine read from the launched command line is the one that was meant (its
      kernel, its sizes, its interfaces each on its own tap, its shared directories) if and only if
      the kernel path is not the dropped flag and no shared path has a comma. */
  lemma LaunchedMachineIff(spec: BootSpec, console: string)
    requires CommaFree(spec.nics)
    ensures ReadMachine(LaunchArgv(spec, console)) == Some(Meant(spec, console)) <==>
            spec.kernel != "-nographic" && ',' !in spec.rootfs && ',' !in spec.rootfsRW
  {
    hide LaunchArgv, ReadMachine, PathRead;
    if spec.kernel == "-nographic" {
      LostKernel(spec, console);
    } else {
      LaunchedMachine(spec, console);
      PathReadIff("rootdev", spec.rootfs);
      PathReadIff("klabrw", spec.rootfsRW);
    }
  }
}
