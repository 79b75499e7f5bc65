/** A reader of QEMU command lines: options, network cards and shared directories. */
module QemuOptions {
  import opened Results
  import opened ByteStrings

  datatype Opt = Opt(name: string, value: string)

  /** A network card: the tap behind it, if its back end is defined, and its address. */
  datatype Card = Card(tap: Option<string>, mac: string)

  /** The values of the options that are given once. */
  datatype Setup = Setup(board: Option<string>, accel: Option<string>, cpu: Option<string>, smp: Option<string>,
                         memory: Option<string>, append: Option<string>, serial: Option<string>)

  /** The kernel, the setup, the cards, and the paths shared under the tags `rootfs` and
      `klabrw`. */
  datatype Machine = Machine(kernel: Option<string>, setup: Setup, cards: seq<Card>,
                             root: Option<string>, control: Option<string>)

  predicate Flag(name: string) { name == "-nographic" || name == "-no-reboot" }

  /** A command line is a list of options; all but the two flags take a value. */
  function Options(args: seq<string>): Option<seq<Opt>> {
    if args == [] then Some([])
    else if Flag(args[0]) then PutAll([Opt(args[0], "")], Options(args[1..]))
    else if |args| == 1 then None
    else PutAll([Opt(args[0], args[1])], Options(args[2..]))
  }

  function PutAll(opts: seq<Opt>, rest: Option<seq<Opt>>): Option<seq<Opt>> {
    match rest
    case None => None
    case Some(os) => Some(opts + os)
  }

  function After(s: string, p: string): Option<string> {
    if HasPrefix(s, p) then Some(s[|p|..]) else None
  }

  /** A value ends at a comma; a doubled comma stands for one. */
  function Val(s: string): (string, string) {
    if s == "" then ("", "")
    else if s[0] != ',' then
      var (v, rest) := Val(s[1..]);
      ([s[0]] + v, rest)
    else if |s| > 1 && s[1] == ',' then
      var (v, rest) := Val(s[2..]);
      ([','] + v, rest)
    else ("", s[1..])
  }

  /** The id and interface name of a tap back end that runs no scripts. */
  function ReadNetdev(v: string): Option<(string, string)> {
    match After(v, "tap,id=")
    case None => None
    case Some(r) =>
      match After(Val(r).1, "ifname=")
      case None => None
      case Some(q) => if Val(q).1 == "script=no,downscript=no" then Some((Val(r).0, Val(q).0)) else None
  }

  /** The back end and hardware address of a network card. */
  function ReadDevice(v: string): Option<(string, string)> {
    match After(v, "virtio-net-pci,netdev=")
    case None => None
    case Some(r) =>
      match After(Val(r).1, "mac=")
      case None => None
      case Some(q) => if Val(q).1 == "" then Some((Val(r).0, Val(q).0)) else None
  }

  /** The id and path of a directory back end; any other parameter is refused. */
  function ReadFsdev(v: string): Option<(string, string)> {
    match After(v, "local,id=")
    case None => None
    case Some(r) =>
      match After(Val(r).1, "path=")
      case None => None
      case Some(q) => if Val(q).1 == "security_model=none" then Some((Val(r).0, Val(q).0)) else None
  }

  /** The back end and mount tag of a shared directory. */
  function ReadShare(v: string): Option<(string, string)> {
    match After(v, "virtio-9p-pci,fsdev=")
    case None => None
    case Some(r) =>
      match After(Val(r).1, "mount_tag=")
      case None => None
      case Some(q) => if Val(q).1 == "" then Some((Val(r).0, Val(q).0)) else None
  }

  predicate IsNetdev(o: Opt, id: string) {
    o.name == "-netdev" && ReadNetdev(o.value).Some? && ReadNetdev(o.value).value.0 == id
  }

  /** The tap behind the back end `id`. */
  function TapBehind(opts: seq<Opt>, id: string): Option<string> {
    if opts == [] then None
    else if IsNetdev(opts[0], id) then Some(ReadNetdev(opts[0].value).value.1)
    else TapBehind(opts[1..], id)
  }

  predicate IsCard(o: Opt) { o.name == "-device" && ReadDevice(o.value).Some? }

  /** The network cards in order. */
  function CardsIn(opts: seq<Opt>, all: seq<Opt>): seq<Card> {
    if opts == [] then []
    else if IsCard(opts[0]) then
      var card := ReadDevice(opts[0].value).value;
      [Card(TapBehind(all, card.0), card.1)] + CardsIn(opts[1..], all)
    else CardsIn(opts[1..], all)
  }

  function KernelIn(opts: seq<Opt>): Option<string> {
    if opts == [] then None
    else if opts[0].name == "-kernel" then Some(opts[0].value)
    else KernelIn(opts[1..])
  }

  /** The values given for an option. */
  function Values(opts: seq<Opt>, name: string): seq<string> {
    if opts == [] then []
    else (if opts[0].name == name then [opts[0].value] else []) + Values(opts[1..], name)
  }

  /** The value of an option that is given once. */
  function Sole(opts: seq<Opt>, name: string): Option<string> {
    if |Values(opts, name)| == 1 then Some(Values(opts, name)[0]) else None
  }

  function SetupIn(opts: seq<Opt>): Setup {
    Setup(Sole(opts, "-machine"), Sole(opts, "-accel"), Sole(opts, "-cpu"), Sole(opts, "-smp"),
          Sole(opts, "-m"), Sole(opts, "-append"), Sole(opts, "-serial"))
  }

  predicate IsFsdev(o: Opt, id: string) {
    o.name == "-fsdev" && ReadFsdev(o.value).Some? && ReadFsdev(o.value).value.0 == id
  }

  /** The path behind the back end `id`. */
  function PathBehind(opts: seq<Opt>, id: string): Option<string> {
    if opts == [] then None
    else if IsFsdev(opts[0], id) then Some(ReadFsdev(opts[0].value).value.1)
    else PathBehind(opts[1..], id)
  }

  predicate IsShare(o: Opt, tag: string) {
    o.name == "-device" && ReadShare(o.value).Some? && ReadShare(o.value).value.1 == tag
  }

  /** The path shared under `tag`. */
  function ShareIn(opts: seq<Opt>, all: seq<Opt>, tag: string): Option<string> {
    if opts == [] then None
    else if IsShare(opts[0], tag) then PathBehind(all, ReadShare(opts[0].value).value.0)
    else ShareIn(opts[1..], all, tag)
  }

  function MachineOf(opts: seq<Opt>): Machine {
    Machine(KernelIn(opts), SetupIn(opts), CardsIn(opts, opts),
            ShareIn(opts, opts, "rootfs"), ShareIn(opts, opts, "klabrw"))
  }

  /** The machine a command line describes. */
  function ReadMachine(argv: seq<string>): Option<Machine> {
    if argv == [] then None
    else
      match Options(argv[1..])
      case None => None
      case Some(opts) => Some(MachineOf(opts))
  }
}
