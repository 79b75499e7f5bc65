/** The QEMU command line of a node: `bootArgv` and `launchArgv`. */
module BootCommand {
  import opened Decimal
  import opened BootSpecs

  // ----- the writer ------------------------------------------------------

  function NicId(i: nat): string { "net" + Dec(i) }

  function NetdevValue(i: nat, tap: string): string {
    "tap,id=" + (NicId(i) + "," + ("ifname=" + (tap + "," + "script=no,downscript=no")))
  }

  function DeviceValue(i: nat, mac: string): string {
    "virtio-net-pci,netdev=" + (NicId(i) + "," + ("mac=" + mac))
  }

  /** The arguments for the interfaces, numbered from `i`. */
  function NicArgs(nics: seq<Nic>, i: nat): seq<string>
    decreases |nics|
  {
    if nics == [] then []
    else
      ["-netdev", NetdevValue(i, nics[0].tap), "-device", DeviceValue(i, nics[0].mac)]
      + NicArgs(nics[1..], i + 1)
  }

  function AtLeastOne(x: int, default: nat): nat { if x < 1 then default else x }

  const RootOnNineP: string := "console=ttyAMA0 root=rootfs rootfstype=9p rootflags=trans=virtio,version=9p2000.L rw"

  function CmdLine(extra: string): string {
    RootOnNineP + (if extra == "" then "" else " " + extra)
  }

  /** A directory shared with the guest. */
  function NineP(id: string, tag: string): string { "virtio-9p-pci,fsdev=" + (id + "," + ("mount_tag=" + tag)) }

  /** Its back end; commas in the path are not doubled. */
  function Fsdev(id: string, path: string): string {
    "local,id=" + (id + "," + ("path=" + (path + "," + "security_model=none")))
  }

  function BaseArgs(spec: BootSpec, extra: string): seq<string> {
    ["-machine", "virt,gic-version=max", "-accel", "kvm", "-cpu", "host",
     "-smp", Dec(AtLeastOne(spec.cpu, 1)), "-m", Dec(AtLeastOne(spec.memMiB, 512)),
     "-kernel", spec.kernel, "-append", CmdLine(extra),
     "-fsdev", Fsdev("rootdev", spec.rootfs),
     "-device", NineP("rootdev", "rootfs")]
  }

  function ControlArgs(rwPath: string): seq<string> {
    if rwPath == "" then []
    else ["-fsdev", Fsdev("klabrw", rwPath),
          "-device", NineP("klabrw", "klabrw")]
  }

  const Init: string := "init=/sbin/klab-init"

  const Program: string := "qemu-system-aarch64"

  function BootArgv(spec: BootSpec, extra: string, rwPath: string): seq<string> {
    [Program] + (BaseArgs(spec, extra) + (ControlArgs(rwPath) + (["-nographic", "-no-reboot"] + NicArgs(spec.nics, 0))))
  }

  /** `bootArgv`: the argument slice grows in a loop over the interfaces. */
  method BuildBootArgv(spec: BootSpec, extra: string, rwPath: string) returns (argv: seq<string>)
    ensures argv == BootArgv(spec, extra, rwPath)
  {
    hide BaseArgs, ControlArgs, Dec;
    argv := [Program] + BaseArgs(spec, extra) + ControlArgs(rwPath) + ["-nographic", "-no-reboot"];
    ghost var head := argv;
    for i := 0 to |spec.nics|
      invariant argv == head + NicArgs(spec.nics[..i], 0)
    {
      assert spec.nics[..i + 1] == spec.nics[..i] + [spec.nics[i]];
      NicArgsSnoc(spec.nics[..i], spec.nics[i], 0);
      var id := "net" + Dec(i);
      argv := argv + ["-netdev",
                      "tap,id=" + (id + "," + ("ifname=" + (spec.nics[i].tap + "," + "script=no,downscript=no"))),
                      "-device", "virtio-net-pci,netdev=" + (id + "," + ("mac=" + spec.nics[i].mac))];
    }
    assert spec.nics[..|spec.nics|] == spec.nics;
    assert argv == BootArgv(spec, extra, rwPath);
  }

  lemma {:induction false} NicArgsSnoc(nics: seq<Nic>, n: Nic, i: nat)
    ensures NicArgs(nics + [n], i) ==
            NicArgs(nics, i) + ["-netdev", NetdevValue(i + |nics|, n.tap), "-device", DeviceValue(i + |nics|, n.mac)]
    decreases |nics|
  {
    hide NetdevValue, DeviceValue;
    if nics == [] {
      assert nics + [n] == [n];
      assert NicArgs([n][1..], i + 1) == [];
    } else {
      assert (nics + [n])[1..] == nics[1..] + [n];
      NicArgsSnoc(nics[1..], n, i + 1);
    }
  }

  function Without(args: seq<string>, x: string): seq<string> {
    if args == [] then []
    else (if args[0] == x then [] else [args[0]]) + Without(args[1..], x)
  }

  /** `launchArgv`: `-nographic` gives way to a serial console in a file. */
  function LaunchArgv(spec: BootSpec, console: string): seq<string> {
    Without(BootArgv(spec, Init, spec.rootfsRW), "-nographic")
    + ["-display", "none", "-serial", "file:" + console]
  }

  lemma {:induction false} WithoutConcat(a: seq<string>, b: seq<string>, x: string)
    ensures Without(a + b, x) == Without(a, x) + Without(b, x)
  {
    if a == [] {
      assert a + b == b;
    } else {
      assert (a + b)[1..] == a[1..] + b;
      WithoutConcat(a[1..], b, x);
    }
  }

  method BuildLaunchArgv(spec: BootSpec, console: string) returns (argv: seq<string>)
    ensures argv == LaunchArgv(spec, console)
  {
    hide BootArgv;
    var a := BuildBootArgv(spec, Init, spec.rootfsRW);
    argv := [];
    for i := 0 to |a|
      invariant argv == Without(a[..i], "-nographic")
    {
      assert a[..i + 1] == a[..i] + [a[i]];
      WithoutConcat(a[..i], [a[i]], "-nographic");
      if a[i] != "-nographic" {
        argv := argv + [a[i]];
      }
    }
    assert a[..|a|] == a;
    argv := argv + ["-display", "none", "-serial", "file:" + console];
  }
}
