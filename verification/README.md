# Verification of klab's core

klab brings up small clusters of virtual machines inside a lima VM: a topology file
names nodes and links, each node boots a custom kernel under QEMU with a network card
per link, and commands are run in a node through a directory shared with the guest.
Kernels are built once and kept in a content-addressed cache.

This project models the parts of klab that decide behaviour, and proves what they are
for:

- **The exec channel** (`byte_strings`, `decimal`, `shell_expansion`, `shell_words`,
  `exec_codec`, `exec_channel`, `exec_theorems`, `exec_progress`). A transition system over the shared directory: any
  number of `Exec` calls with distinct ids, each writing a request in pieces, polling,
  reading, removing and parsing a response, or giving up or failing at any point; and
  the guest's loop, one file operation a step. One invariant over the view of each
  request is kept by every step of every party. From it: a result is the caller's own
  and complete; a request runs at most once, whatever its caller does; the guest is
  never stuck; and a sent request is served after a bounded number of the guest's steps,
  in the order of the listing.
- **Kernel configs and the cache** (`kernel_config`, `config_theorems`, `cache_key`,
  `kernel_store`, `store_theorems`). The merge loop refines "the last directive wins";
  printing and reading are inverse; merging in stages is merging at once. The hashed
  encoding is uniquely decodable. `Store.Get` is a method over a cache directory in
  which every file operation may fail, stop the program, or stop half way; the
  theorems are about every sequence of such calls. SHA-256 is an arbitrary function.
- **The network planner** (`topology`, `mac_address`, `hex`, `ipv4`, `net_plan`,
  `plan_theorems`). The loops of `Validate`, `Expand` and `Plan` against
  specifications, and the laws of names, hardware addresses and IPv4 addresses, with
  the exact condition wherever a law does not always hold.
- **Bringing a cluster up and down** (`boot_spec`, `boot_command`, `qemu_options`,
  `boot_reader`, `paths`, `script_words`, `plan_words`, `host`, `cluster_spec`, `cluster`,
  `cluster_theorems`). The host is an object with links, a tree of directories and
  processes. Every command of every script may fail, and the scripts that mention names
  without quotes see the words that the shell reads. Linux refuses some device names,
  `rm -rf` some paths, and QEMU paths with a comma. `Scrub` removes everything a
  topology names from a host; whatever `Up` does and wherever it stops is invisible
  after scrubbing, and `Down` is scrubbing. When nothing fails, `Up` realizes the plan:
  this goes through the shell quoting of the QEMU command line, a reader of QEMU
  options, and the assignment of addresses by hardware address. `CanRunIff` says for
  which topologies; nodes `a,b` and `..` and links `a/b` and `lan:1` are among the others
  (`CommaNode`, `ParentNode`, `RefusedNames`).

## Conventions

- A Go or shell string is a Dafny `string` with one character per byte.
- Outside code is a parameter: the hash (any function on strings), the JSON codec of
  the artifact metadata (any codec with `Decode(Encode(a)) == a` that refuses proper
  prefixes; `FieldCodecLawful` gives one), the CIDR parser (any function to an IPv4
  address with prefix length, or a printed IPv6 network), the reader of fragment files,
  the resolver of kernel names, the QEMU driver's capabilities.
- The kernel builder returns an artifact that depends on the spec, the resolved config
  and the output directory, does not write the marker file, and may fail. Where "a fresh
  build would give the same" is claimed, it does not depend on the base config; the two
  built-in specs share one (`cmd/klab/main.go:85-88`).
- Clocks are choices: a deadline may pass at any poll. Sequence ids of `Exec` calls are
  distinct.
- `ok`, a ghost result of the cluster's methods, says that every command did its job. It
  is not a program value: the scripts' exit codes are ignored by the source
  (`internal/runner/cluster.go:144-159`). On a `reliable` host every command works that can:
  it fails if Linux, `rm`, `cp` or QEMU must refuse its arguments. There the methods are
  shown to succeed.
- Bridge names, run directories and the base path stand in scripts without quotes
  (`internal/runner/cluster.go:103`, `:120`, `:135-138`, `:149-151`, `:157`). A name that the
  shell does not read as one word makes the script do something else (`Host.Stray`);
  `Down`'s loop deletes the words it reads, whatever they are.
- The reader of such lines is that of bash, by position: `#` and `~` count at the start of
  a word, a dollar sign before a parameter, braces when they form an expansion, and
  `=`, `%`, `!` and lone braces stand for themselves; after what looks like the left side
  of an assignment a tilde counts, too. A word with `*`, `?`, a bracket
  expression, or a tilde in its place is *open*: what it becomes depends on files and users
  (`WordsIn`), so nothing is promised for it (`OpenNames` has a state in which it is
  changed). The exact conditions speak of words that stay what they are in every state
  (`SettledIff`). What an expansion with a dollar sign yields is not followed.
- An *ordinary* name has no character that splitting, expansion or QEMU's options look at;
  *plain after an ordinary beginning* (`PlainTail`) is the condition on the rest of a word.
- `dirs` holds one spelling of each path that is there, and there are no symbolic links; a
  relative path is not in the tree of an absolute one, and success is claimed for absolute
  paths only.

Where the code and its comments disagree, the code is followed:

- A request is one shell-quoted line, not NUL-joined words as `scripts/guest/init.sh:34`
  and `internal/driver/qemu/live.go:90` say.
- A node with `count: 1` becomes `name-0`; the comment at
  `internal/topology/topology.go:101-102` says it keeps its name.
- `BaseConfig` is not part of the cache key (`internal/kernel/store.go:36`), although the
  key is described as covering everything a build depends on.
- `CheckCaps` is called in the boot loop (`internal/runner/cluster.go:55-57`), so it
  does not reject a mismatch before anything boots: the proved statement is that no
  unfit node is booted.

Properties that do not always hold, with their exact conditions: instance names clash
(`NamesDistinctIff`), hardware addresses repeat after 2^24 interfaces
(`MacsDistinctIff`), links share a bridge when ten bytes of their names agree
(`BridgeNameEqualIff`), subnets overflow (`LinkAddressesUsableIff`) or repeat
(`LinkAddressesDistinctIff`), Linux refuses or changes a bridge's name
(`BridgeDeviceIff`), a shared path is cut at a comma (`FsdevIff`, `CommaIsRefused`),
memory sizes wrap (`SizeExactIff`), requests with ids of different widths overtake each
other (`ListedInOrderIff`), the shell reads other links than the planned ones in
`Down`'s list (`DoomedIff`; `DownTakesMore` has the topology), run directories lie
inside one another (`RunNestedIff`), a marker cut short blocks its key for good
(`ReturnsIff`), arguments with NUL bytes are changed (`GuestReadsArgvIff`), fragments
that disagree depend on their order (`SwapKeepsTextIff`), and a kernel path equal to
`-nographic` is lost (`LaunchedMachineIff`). That preparing a node removes the base root
file system is one more (`BaseIsSafe` for one-component names, `ParentNode` for `..`).

## Model

| member | source | states |
|---|---|---|
| ShellWords.EncodeRequest | internal/driver/qemu/framing.go:22-28 | The loop over the slice yields the quoted words joined by blanks. |
| ShellWords.WordsOfCommandLine | internal/driver/qemu/live.go:143-151 | A tokenizer following the quoting rules of POSIX.1-2017 Shell Command Language, sections 2.2.1, 2.2.2 and 2.3, recovers every argument vector from its quoted line. |
| ShellWords.GuestReadsArgv | scripts/guest/init.sh:46-47 | After command substitution (section 2.6.3) the guest's shell runs the arguments with NUL bytes dropped; newline stripping loses nothing. |
| ShellWords.GuestReadsArgvIff | internal/driver/qemu/framing.go:17-28 | The guest runs exactly the caller's arguments if and only if none has a NUL byte. |
| ShellWords.GuestRunsArgv | scripts/guest/init.sh:46-47 | The guest's words are as many as the arguments, each the argument without its NUL bytes, its other bytes in order. |
| ShellWords.SubstitutedIsCaptured | scripts/guest/init.sh:47 | What a caller is shown of an output is all of it but NUL bytes and the newlines at its end. |
| ShellWords.SettledIff | internal/runner/cluster.go:103 | An unquoted line is read as certain words in every state of files and users if and only if no word of it is open to pathname, tilde or brace expansion or a comment, and splitting gives these words. |
| ExecCodec.ParseOfResponse | internal/driver/qemu/framing.go:33-43 | Parsing what the guest writes gives back exit code and output, for every output. |
| ExecCodec.ParseResponseIff | internal/driver/qemu/framing.go:33-43 | A body is accepted as a code and an output if and only if it is a first line, `rc=` and a 64-bit number with white space around it, and after its newline the output. |
| ExecCodec.ParseOfTruncated | scripts/guest/init.sh:48-49 | Every proper prefix of a response parses to an error or to a shortened output; the whole result comes from the whole file only. |
| ExecChannel.NameInjective | internal/driver/qemu/live.go:85-88 | No two protocol files of any calls share a name. |
| ExecChannel.OnlyRequestsMatch | scripts/guest/init.sh:38 | The guest's pattern matches request files and neither temporaries nor responses. |
| ExecChannel.HostStepView | internal/driver/qemu/live.go:91-113 | Each step of a call changes its own files as stated and no file of another call. |
| ExecChannel.GuestStepView | scripts/guest/init.sh:45-50 | Each step of the guest at a request changes that request's view as stated. |
| ExecChannel.StepKeeps | internal/driver/qemu/live.go:83-115 | The invariant over every request's view is kept by every step of every call and of the guest. |
| ExecChannel.ReachableInv | scripts/guest/init.sh:36-51 | It holds in every reachable state. |
| ExecTheorems.ResultIsOwn | internal/driver/qemu/live.go:101-113 | In every interleaving a call that returns a result returns the exit code of its own command, run once, to its end and on its own arguments, and all that the command wrote but NUL bytes and the newlines at the end. |
| ExecTheorems.RunAtMostOnce | scripts/guest/init.sh:37-50 | No request is begun twice, even if its caller timed out or removed the response early. |
| ExecTheorems.ExactlyOnePhase | scripts/guest/init.sh:36-51 | Every renamed request is pending, being served, answered or done, and only one of these. |
| ExecTheorems.PhaseMovesForward | scripts/guest/init.sh:45-50 | Phases advance one at a time and never back; only the deletion by the guest finishes a request. |
| ExecTheorems.GuestNeverStuck | scripts/guest/init.sh:36-51 | In every reachable state the guest's next action is possible. |
| ExecTheorems.PollAfterAnswer | internal/driver/qemu/live.go:101-110 | A caller still polling when its request is answered gets that answer. |
| ExecTheorems.RequestOrder | scripts/guest/init.sh:38-40 | For ids of one width the listing's byte order is numeric order. |
| ExecTheorems.RequestOrderAcrossWidths | scripts/guest/init.sh:38-40 | A shorter id is listed before a longer one if and only if it does not exceed its leading digits. |
| ExecTheorems.ListedInOrderIff | scripts/guest/init.sh:38-40 | For every two ids: the smaller is listed first if and only if their widths are equal or it does not exceed the leading digits of the larger. |
| ExecTheorems.TenBeforeNine | scripts/guest/init.sh:38-40 | So 10 is listed before 9. |
| ExecTheorems.StepLowersBound | scripts/guest/init.sh:38-50 | The number of requests ahead is a measure that each deletion lowers and no step raises. |
| ExecTheorems.BoundedWaiting | scripts/guest/init.sh:36-51 | A sent request is served before the guest has deleted more requests than those ahead, itself and one in progress, if later ids are larger. |
| ExecProgress.StepUsesFuel | scripts/guest/init.sh:36-51 | Each action of the guest besides writing uses up fuel, eight units for each request ahead and a countdown over the loop; no other step adds any. |
| ExecProgress.WritesAreBounded | scripts/guest/init.sh:47-48 | In every run the guest writes no more bytes, and no more pieces, than the ended commands' responses have. |
| ExecProgress.ServedInTime | scripts/guest/init.sh:36-51 | In every continuation with later ids a sent request is served once the guest has taken a bounded number of actions besides writing; its writes are bounded too. |
| ExecProgress.GuestServes | scripts/guest/init.sh:36-51 | The guest on its own, taking its next action while commands end, serves every sent request. |
| ExecProgress.ServedInOrder | scripts/guest/init.sh:38-47 | Of two requests present when the guest is idle, the one listed first is begun first, in every continuation. |
| ByteStrings.TrimTakesWhite | internal/kernel/kernel.go:55 | Trimming takes white space from both ends and nothing else. |
| ByteStrings.LinesJoin | internal/kernel/kernel.go:54 | The lines of a text, put together with newlines, are the text. |
| KernelConfig.ParseLineIff | internal/kernel/kernel.go:37-63 | Exactly these lines are directives, and say this: after trimming, `CONFIG_` with a symbol, an equals sign and a value, or the comment that switches a symbol off; every other line, ordinary comments included, is ignored. |
| KernelConfig.ParseLineWritable | internal/kernel/kernel.go:37-40 | What the two patterns accept is a symbol and a value that can be written back as a line. |
| KernelConfig.LastWins | internal/kernel/kernel.go:53-68 | The map after the loop gives each symbol the value of its last directive. |
| KernelConfig.LastValueIff | internal/kernel/kernel.go:53-62 | The value found from the end is that of the last line that is a directive for the symbol. |
| KernelConfig.ReadPrint | internal/kernel/kernel.go:76-84 | Reading a printed map over another one overrides exactly its symbols. |
| KernelConfig.ApplyLoop | internal/kernel/kernel.go:52-68 | The in-place map update computes the specified map. |
| KernelConfig.MergeConfig | internal/kernel/kernel.go:51-85 | Ranging over the map in any order, then sorting, prints the canonical text. |
| ConfigTheorems.MergeMeansLastWins | internal/kernel/kernel.go:42-85 | With base and fragments put under one another: the output has one line per symbol that some line is a directive for, in increasing order, and it says what the last such line says, `n` as the comment that switches the symbol off. |
| ConfigTheorems.OffIsN | internal/kernel/kernel.go:60-62 | `CONFIG_X=n` and `# CONFIG_X is not set` are the same directive. |
| ConfigTheorems.ParseOfPrint | internal/kernel/kernel.go:76-84 | Printing and reading is the identity on every map a text can yield. |
| ConfigTheorems.SameTextIffSameMap | internal/kernel/kernel.go:48-50 | Two merges print the same text if and only if they agree on every symbol. |
| ConfigTheorems.MergeInStages | internal/kernel/kernel.go:65-68 | Merging a merged config with more fragments is merging at once. |
| ConfigTheorems.MergeIdempotent | internal/kernel/kernel.go:48-50 | Merging a merged config changes nothing. |
| ConfigTheorems.OrderOfAgreeingFragments | internal/kernel/kernel.go:91-93 | Fragments that agree on shared symbols give the same text in any order, over every base. |
| ConfigTheorems.SwapKeepsTextIff | internal/kernel/kernel.go:42-44 | Swapping two fragments keeps the text if and only if they agree on shared symbols. |
| CacheKeys.CacheKey | internal/kernel/kernel.go:97-104 | The loop feeds the hash the length-prefixed encoding of the four fields. |
| CacheKeys.DecodeOfEncode | internal/kernel/kernel.go:95-103 | A decoder recovers the fields from the encoding, digits and colons in them included. |
| CacheKeys.EncodeOfDecode | internal/kernel/kernel.go:95-103 | The decoder accepts encodings only. |
| CacheKeys.SameKeyIff | internal/kernel/kernel.go:97-104 | Keys are equal if and only if the inputs are, or their two encodings collide. |
| KernelStore.Store.Get | internal/kernel/store.go:35-75 | Result and directory after a call, for every fault, are those of the step function. |
| KernelStore.Store.Fill | internal/kernel/store.go:51-74 | The miss path: config, build, then the marker; a fault stops it where it occurs. |
| StoreTheorems.MarkerStays | internal/kernel/store.go:40-49 | A marker once on disk never changes in any later sequence of calls. |
| StoreTheorems.HitWasPublished | internal/kernel/store.go:40-46 | A hit returns the artifact of an earlier call with that key whose marker was completed; its hash is the key. |
| StoreTheorems.PublishedOnce | internal/kernel/store.go:51-74 | A key is built to completion at most once. |
| StoreTheorems.LaterCallsHit | internal/kernel/store.go:40-46 | After a published build every later call for the key hits with that artifact, unless reading fails. |
| StoreTheorems.ReturnedIsBuilt | internal/kernel/store.go:36-75 | Over every sequence of calls a returned artifact has the image and vmlinux that the builder reported, in this call for a miss and in the one earlier building call for a hit; its hash is the key and its config the file in the key's entry. |
| StoreTheorems.MissLeavesFiles | internal/kernel/store.go:55-74 | A miss that returns leaves the builder's files, the resolved config and the encoded artifact in the entry. |
| StoreTheorems.KeyIsDigest | internal/kernel/store.go:36 | What is hashed decodes to ref, architecture, toolchain and config in this order, and the key reads as the digest in hexadecimal. |
| StoreTheorems.SharedKeyIff | internal/kernel/store.go:36 | Two requests share a key if and only if ref, architecture and config agree, or the hash collides on what is hashed for them. |
| StoreTheorems.CacheAgreesWithBuild | internal/kernel/store.go:33-75 | What a call returns is what a fresh build gives, or the run holds a hash collision, if builds ignore the base config. |
| StoreTheorems.BaseConfigNotInKey | internal/kernel/store.go:36 | Specs that differ in the base config alone share an entry, right if and only if their builds agree. |
| StoreTheorems.ReturnsIff | internal/kernel/store.go:40-49 | Without faults a call returns if and only if the marker is absent or whole. |
| StoreTheorems.FailedBuildLeavesNoHit | internal/kernel/store.go:29-31 | A failure or crash before the marker leaves the key to be built again. |
| StoreTheorems.ResolveConfig | cmd/klab/main.go:177-187 | The loop reads every fragment and merges them, or fails if one cannot be read. |
| StoreTheorems.ResolvedConfigIff | cmd/klab/main.go:177-187 | A spec resolves to the merge, over nothing, of its fragments' texts in order, if and only if all can be read. |
| StoreTheorems.ResolveKernelImage | cmd/klab/main.go:191-210 | The second reader: unknown name, unreadable fragment, a marker that is missing or cannot be read, a corrupt one, or the image; it never builds. |
| StoreTheorems.ReadersAgree | cmd/klab/main.go:196-209 | Once a call has returned, then after any later calls the second reader gives the image that this call returned and that a builder reported. |
| MacAddress.MacEqualIff | internal/topology/topology.go:131-134 | Printed addresses are equal if and only if the numbers agree modulo 2^24. |
| MacAddress.ReadMacOf | internal/runner/plan.go:89-92 | Read byte by byte, an address is 52, 54, 00 in hexadecimal and the low 24 bits of its number, most significant byte first. |
| MacAddress.MacPlain | internal/runner/plan.go:89-92 | An address has only hexadecimal digits and colons, so it needs no quoting where it is put into a script or an option. |
| Topologies.Validate | internal/topology/topology.go:46-88 | Accepts exactly the well-formed topologies, in whatever order nodes are visited, and reports a problem that is there. |
| Topologies.NoProblemIff | internal/topology/topology.go:46-88 | A topology is well-formed if and only if it has none of the problems that can be reported. |
| Topologies.Expander.Add | internal/topology/topology.go:112-116 | The closure appends one instance and numbers it. |
| Topologies.Expand | internal/topology/topology.go:103-129 | The result depends on the topology alone, although the map is visited in any order. |
| Topologies.ExpansionAt | internal/topology/topology.go:103-129 | Nodes in increasing order of names, then numbers: each instance stands after those before it, with its node's description without the count, its name, and the address with the number of its place. |
| Topologies.ExpansionCount | internal/topology/topology.go:103-129 | There are no other instances. |
| Topologies.CountedNameUnique | internal/topology/topology.go:124-126 | Names of counted instances determine node and index. |
| Topologies.NamesDistinctIff | internal/topology/topology.go:117-127 | Instance names are distinct if and only if no uncounted node is named like an instance of a counted one. |
| IPv4.ReadDotted | internal/runner/plan.go:95-103 | Read as `d.d.d.d/p`, most significant byte first, a printed address is the 32-bit word and the prefix length. |
| NetPlans.Plan | internal/runner/plan.go:39-77 | The loops, with their running number, compute the specified plan or name the link whose subnet does not parse. |
| NetPlans.NamesOfBaseIsGroup | internal/runner/plan.go:40-43 | Grouping the instances by base gives each node its own instances in order. |
| PlanTheorems.PlanLinksOkIff | internal/runner/plan.go:58-62 | Planning succeeds if and only if every subnet given parses. |
| PlanTheorems.ValidPlans | internal/runner/cluster.go:92 | A validated topology has a plan with a tap on every bridge, so the ignored error of `Down` does not occur. |
| PlanTheorems.PlanConserves | internal/runner/plan.go:47-75 | One bridge per link; as many taps as members expand to; each joins an instance to a planned bridge. |
| PlanTheorems.BridgeOfPlan | internal/runner/plan.go:48-50 | The bridges are those of the links, in order, each with its link and subnet. |
| PlanWords.BridgeText | internal/runner/plan.go:81-87 | A bridge name is `klbr-` and the first ten bytes of the link's name. |
| PlanTheorems.MemberTap | internal/runner/plan.go:51-73 | The tap of each member of each link: number, bridge, node and address by position. |
| PlanTheorems.InstanceTap | internal/runner/plan.go:41-73 | Links, members and instances in order: the tap of each has the number of its place, its link's bridge and its instance, and read from its texts that number's name and hardware address and, in an IPv4 subnet, the address so many after the masked network address, with the prefix length. |
| PlanTheorems.TapNamesDistinct | internal/runner/plan.go:66-68 | Tap names are distinct across all links and differ from bridge names. |
| PlanTheorems.TapNameFits | internal/runner/plan.go:28 | A tap name fits 15 bytes if and only if its number is below 10^8. |
| PlanTheorems.MacsDistinctIff | internal/runner/plan.go:89-92 | A plan's hardware addresses are distinct if and only if it has at most 2^24 taps. |
| PlanTheorems.BridgeNameEqualIff | internal/runner/plan.go:81-87 | Bridge names are equal if and only if the first ten bytes of the link names are. |
| PlanTheorems.LinkAddressesDistinctIff | internal/runner/plan.go:66-73 | The members of a link with a subnet print pairwise different addresses if and only if there is at most one, or the network is IPv4 and there are at most 2^32. |
| PlanTheorems.LinkAddressesUsableIff | internal/runner/plan.go:95-103 | The printed addresses of a link's members all read as host addresses of the subnet (section 3.1 of RFC 4632), neither network nor broadcast address, if and only if there are at most 2^(32-p)-2 of them. |
| PlanTheorems.NoWrapWithRoom | internal/runner/plan.go:100-101 | With that much room the 32-bit sums do not wrap. |
| BootSpecs.ParseMemIff | internal/runner/runner.go:18-37 | A size is accepted if and only if it is blank, meaning 0, or a numeral that fits 63 bits and an optional unit, with white space around both, read as the product in 64-bit arithmetic. |
| BootSpecs.SizeExactIff | internal/runner/runner.go:26-36 | The reading is the product itself if and only if that fits 63 bits, which for gigabytes means a number below 2^53. |
| BootCommand.BuildBootArgv | internal/driver/qemu/qemu.go:42-88 | The loop over the interfaces yields the specified arguments. |
| BootCommand.BuildLaunchArgv | internal/driver/qemu/live.go:38-47 | The filtering loop yields the specified launch arguments. |
| BootReader.LaunchReads | internal/driver/qemu/live.go:36-47 | An option reader gets back every option that was meant, each with its value. |
| BootReader.LaunchSetup | internal/driver/qemu/qemu.go:42-67 | Board, accelerator, processor, sizes, kernel command line and console are each given once on the launch line, as meant. |
| BootReader.LaunchedMachineIff | internal/driver/qemu/qemu.go:42-87 | Reading the launch arguments gives the kernel, the setup, in order one card per interface on its tap with its address, and behind the tags `rootfs` and `klabrw` the two paths, if and only if the kernel path is not the dropped flag and neither path has a comma. |
| BootReader.LaunchedMachine | internal/driver/qemu/qemu.go:68-87 | With commas all but the two paths is still read as it was meant. |
| BootReader.FsdevIff | internal/driver/qemu/qemu.go:68-77 | A shared path is read back and accepted if and only if it has no comma. |
| BootReader.CommaIsRefused | internal/driver/qemu/qemu.go:68-77 | QEMU refuses a path whose first comma is not doubled. |
| BootReader.LostKernel | internal/driver/qemu/live.go:41-45 | Otherwise the next argument is read as the kernel. |
| Paths.CleanAgain | internal/driver/qemu/live.go:54 | Cleaning a clean path, with or without a final slash, changes nothing. |
| Paths.ControlParent | internal/driver/qemu/live.go:52-54 | The directory `Boot` derives from the control directory is the node's run directory, for every home and name. |
| Paths.RunPathIs | internal/runner/cluster.go:27 | A run directory's components are those of the common directory after walking the pieces of the name. |
| Paths.RunDirIs | internal/runner/cluster.go:27 | Under a clean absolute home the run directory of a one-component name is the home, `/.cache/klab/run/` and the name. |
| Paths.RunNestedIff | internal/runner/cluster.go:157 | For every two names and an absolute home: one run directory is in the tree of another if and only if its components begin with the other's; they are equal if and only if the components are. |
| Paths.PlainRunsApartIff | internal/runner/cluster.go:27 | One-component names have run directories apart if and only if they differ. |
| Paths.NestedNames | internal/runner/cluster.go:157 | Node `.` has the tree of every node, and node `a/b` is in the tree of node `a`. |
| Paths.BaseIsSafe | cmd/klab/main.go:241 | Under an absolute home the program's base is apart from the run directory of every one-component name. |
| Paths.BaseInTree | internal/runner/cluster.go:157 | Node `..` has klab's own directory as its run directory, and the base is in it. |
| ScriptWords.WordsOfNamesIff | internal/runner/cluster.go:103 | The shell reads a list of names joined by blanks as these names, in every state of files and users, if and only if each is a plain word. |
| ScriptWords.OpenNames | internal/runner/cluster.go:103 | A pattern is read as itself where the files leave it alone, and there is a state in which it is read as something else. |
| ScriptWords.WordAfterIff | internal/runner/cluster.go:157 | What follows an ordinary beginning decides alone whether the whole is a plain word. |
| ScriptWords.PathBelow | internal/runner/cluster.go:157 | The paths that scripts form below a plain word are plain words. |
| PlanWords.BridgeWordIff | internal/runner/cluster.go:135-138 | A bridge name is one word if and only if the first ten bytes of the link's name are plain after an ordinary beginning. |
| PlanWords.BridgeDeviceIff | internal/runner/cluster.go:136 | Linux gives a bridge its planned name if and only if the first ten bytes of the link's name have no slash, colon, percent sign or white space. |
| PlanWords.TapDeviceIff | internal/runner/cluster.go:149 | Linux takes a tap's name if and only if its number is below 10^8. |
| PlanWords.TapsAreOrdinary | internal/runner/cluster.go:149-169 | Tap names, hardware addresses and IP addresses are ordinary: always one word and without commas. |
| PlanWords.RunDirWordIff | internal/runner/cluster.go:157 | Under an ordinary home the run directory of a one-component name is one word if and only if the name is plain after an ordinary beginning. |
| PlanWords.RunDirCommaIff | internal/driver/qemu/qemu.go:68-77 | It has a comma if and only if the name has. |
| Hosts.ScrubTwice | internal/runner/cluster.go:91-107 | Removing resources in two steps is removing them at once. |
| Hosts.ScrubMeans | internal/runner/cluster.go:87-107 | Removing named resources only removes, leaves nothing of them, and touches nothing else. |
| Hosts.SameKeepsOthers | internal/runner/cluster.go:30-107 | Hosts that agree apart from some resources agree in every other link, path and process, but for new directories above the run directories. |
| Hosts.ScrubNothingIff | internal/runner/cluster.go:88-89 | Removing changes nothing if and only if nothing of that name is there. |
| Hosts.ScrubRestores | internal/runner/cluster.go:87-88 | If only named resources changed, removing them brings the host back, up to directories above the run directories. |
| Hosts.NothingToRemove | internal/runner/cluster.go:87-88 | A step that only removes, and only named resources, cannot change a host that is clear of them. |
| Hosts.LaunchedIff | internal/driver/qemu/live.go:60-62 | The shell and then QEMU read the meant machine, with its shared directories, from the quoted launch line, under the same condition. |
| Hosts.Host.CreateBridge | internal/runner/cluster.go:134-146 | For a name that is one word, without percent sign, any failure leaves other links as they were; success replaces the link by a bare bridge; a reliable host succeeds if and only if Linux takes the name. |
| Hosts.Host.CreateTap | internal/runner/cluster.go:148-154 | For names that are one word each any failure leaves other links as they were; success attaches the tap to the bridge; a reliable host succeeds if Linux takes the name and the bridge is there. |
| Hosts.Host.PrepRootfs | internal/runner/cluster.go:156-160 | For paths that are one word each any failure touches the tree of the run directory only and may make directories above it; success leaves a fresh tree; a reliable host succeeds if the base is there after the removal and not above the run directory; if the removal takes the base there is no root file system; a run directory that `rm` refuses is left alone. |
| Hosts.Host.Boot | internal/driver/qemu/live.go:51-80 | Every outcome adds at most the process that QEMU reads from the command line, and only if the directories it shares are there; success adds it; a reliable host succeeds if what is read is what was meant and kernel, directories and taps are there. |
| Hosts.Host.Stop | internal/driver/qemu/live.go:119-138 | Every outcome only removes, and touches that node and its tree only; success removes all its processes and the whole tree; a reliable host succeeds for every path that `rm` does not refuse. |
| Hosts.Host.DeleteLinks | internal/runner/cluster.go:103-104 | The loop deletes the words of the list: every outcome touches those links only, and if each deletion works they are all gone and what they carried is released. |
| Hosts.Host.TryInterfaces | internal/runner/cluster.go:163-172 | The shell loop, whatever order the interfaces come in: exit 0 without failed commands means that one interface with the hardware address, and nothing else, got the IP address; 1 if there is none. |
| Hosts.Host.Assign | internal/runner/cluster.go:75-82 | Through the exec channel of a node this changes interfaces of a process that serves its control directory only; on a reliable host it exits 0 if such interfaces exist and lack the address, and 1 if there are none. |
| ClusterSpecs.OwnAtRank | internal/runner/cluster.go:42-48 | Each tap stands at its rank in its node's list, which one step extends for that node only. |
| ClusterSpecs.ConfigureOne | internal/runner/cluster.go:71-83 | If hardware addresses tell the interfaces of each node apart, configuring a tap concerns the interface on that tap and sets its address alone. |
| ClusterSpecs.StartedIsNodeProc | internal/runner/cluster.go:50-67 | A fit node starts serving its own run directory, with its kernel and one unconfigured interface per tap of the plan, if and only if its run directory has no comma. |
| Clusters.Cluster.CreateTaps | internal/runner/cluster.go:42-48 | The map of interfaces equals the plan grouped by node; if nothing fails every tap is attached to its bridge and nothing else to a planned bridge. |
| Clusters.Cluster.BootNode | internal/runner/cluster.go:50-67 | Image, capabilities, directory, memory, boot, in that order; an unfit node is not started, nor one that QEMU cannot read or, on a reliable host, whose base is removed. |
| Clusters.Cluster.BootAll | internal/runner/cluster.go:50-68 | Only fit nodes are started, and success means that all are fit; without failed commands, and with run directories apart and without commas, each runs alone in its prepared directory; a reliable host with base and kernels outside the run directories boots fit nodes. |
| Clusters.Cluster.Configure | internal/runner/cluster.go:70-83 | Without failed commands every interface ends with its tap's address and no other; on a reliable host every address finds its interface. |
| Clusters.Cluster.Up | internal/runner/cluster.go:30-85 | If names are one word each, every failure point leaves (unless a process of another directory serves a run directory) everything outside the plan and the run directories' trees unchanged, and only processes of fit nodes are started; if no command fails, success realizes the plan; on a reliable host `Up` succeeds if and only if every node is fit, where `CanRun` holds. |
| Clusters.Cluster.Down | internal/runner/cluster.go:89-107 | Every outcome only removes, and only the words read in the list of links and the nodes' trees and processes; if its commands work nothing of these is left; they work on a reliable host if `rm` refuses no run directory. |
| Clusters.Cluster.UpThenDown | internal/runner/cluster.go:30-107 | If names are one word each and no process of another directory serves a run directory: after any failure of `Up`, a working `Down` restores the host, less what had the planned names, up to directories above the run directories; where these were there it is as before if and only if it was clear of those names. |
| Clusters.Cluster.DownTwice | internal/runner/cluster.go:87-88 | After a `Down` that worked, another one changes nothing, whatever fails in it. |
| Clusters.Cluster.Status | internal/runner/cluster.go:117-132 | One entry per instance in order; reachable implies running; if run directories are one word each nothing changes, running implies a process launched for the run directory and reachable one that serves it, and conversely on a reliable host. |
| Clusters.Cluster.Knows | cmd/klab/main.go:344-353 | A node is known to `exec` if and only if it is an expanded instance. |
| Clusters.PlanIsSound | internal/runner/plan.go:47-75 | Every plan is one that can be wired: tap names distinct, no bridge's, without commas, one word each like their addresses; bridges planned; nodes expanded. |
| ClusterTheorems.TapOnOneCommandLine | internal/runner/cluster.go:42-66 | Read back from the command lines, each planned tap with its address is a card of its node at exactly one place, and of no other node. |
| ClusterTheorems.RanksInOrder | internal/runner/cluster.go:43-48 | A node's cards follow the plan's order. |
| ClusterTheorems.CardsConserved | internal/runner/cluster.go:42-48 | Over distinct instance names there are as many cards as taps. |
| ClusterTheorems.TapRealized | internal/runner/cluster.go:36-84 | In a realized plan each tap is on its bridge, and its interface in its node's only process carries its address and no other. |
| ClusterTheorems.NodeRealized | internal/runner/cluster.go:50-67 | In a realized plan each node is the one process of its prepared run directory, with its kernel and, read from its command line, its processors, memory, kernel arguments and console. |
| ClusterTheorems.SetupIsRight | internal/runner/runner.go:39-54 | The option texts are the node's number of processors, 1 below 1, and its memory in MiB: the number times 1024 for gigabytes, on 64 bits, and 512 for a blank size or one below 1. |
| ClusterTheorems.FitIff | internal/runner/runner.go:60-68 | A node is fit if and only if its kernel resolves, the driver runs its architecture and can boot its own kernel if it has one, and its memory size is blank or understood. |
| ClusterTheorems.BridgeRealized | internal/runner/cluster.go:36-48 | In a realized plan the links on a planned bridge are its taps and no others. |
| ClusterTheorems.SharedBridgeIff | internal/runner/plan.go:47-68 | Taps of two links are on one bridge if and only if the first ten bytes of the links' names agree. |
| ClusterTheorems.DoomedIff | internal/runner/cluster.go:95-104 | The shell reads `Down`'s list of links as exactly the planned links, in every state of files and users, if and only if the first ten bytes of each link's name are plain after an ordinary beginning. |
| ClusterTheorems.DownTakesMore | internal/runner/cluster.go:103 | A topology that `Validate` accepts, with a link `x docker0`, for which `Down` deletes `docker0`, which is not planned. |
| ClusterTheorems.PrepareTakesMore | internal/runner/cluster.go:157 | The run directory of a node with a blank in its name is read as another node's run directory and a second word. |
| ClusterTheorems.NeverRealized | internal/runner/cluster.go:50-67 | On a host without the nodes' processes no outcome of `Up` realizes the plan if a run directory has a comma, or, on a reliable host, if preparing one removes the base. |
| ClusterTheorems.CommaNode | internal/driver/qemu/qemu.go:68-77 | Node `a,b`: accepted by `Validate`, its root file system refused by QEMU, never realized. |
| ClusterTheorems.ParentNode | internal/runner/cluster.go:157 | Node `..` with the program's own base: accepted by `Validate`, the base removed, never realized on a reliable host. |
| ClusterTheorems.DeviceLinksIff | internal/runner/cluster.go:134-154 | Linux takes every name of a plan if and only if it can take the first ten bytes of the links' names and there are fewer than 10^8 interfaces. |
| ClusterTheorems.RefusedLink | internal/runner/cluster.go:136 | A plan with a link whose name Linux does not take is realized on no host. |
| ClusterTheorems.RefusedNames | internal/runner/cluster.go:136 | Links `a/b` and `lan:1`: accepted by `Validate`, one word to the shell, never realized. |
| ClusterTheorems.OwnBaseApart | cmd/klab/main.go:241 | The program's own base meets the condition on the base for all one-component node names. |
| ClusterTheorems.ApartRunsIff | internal/runner/cluster.go:27 | Instances with one-component names have run directories apart if and only if the names are distinct. |
| ClusterTheorems.CanRunIff | internal/runner/cluster.go:30-85 | `CanRun`, under which a reliable host realizes the plan unless a node is unfit, holds for a validated topology with one-component node names, an ordinary absolute home, and a host that has base and kernels and none of the plan's taps and nodes, if and only if: the first ten bytes of link names are plain and can stand in device names, instance names are plain and without commas and do not clash, there are fewer than 10^8 taps, no two of one node with one hardware address to assign by, and no run directory holds the base or a kernel still needed, or lies below the base. |
| ClusterTheorems.TellApartIff | internal/runner/cluster.go:163-172 | Finding the interfaces of each node by hardware address is unambiguous if and only if no two taps of a node, one of them with an IP address, have numbers that agree modulo 2^24. |

## Left out

- `internal/host` (doctor): a flat decision table over probed facts.
- `MakeBuilder`, toolchain detection, `LimaRunner`, QEMU and the build script: foreign processes, modelled as a builder and commands that may fail.
- SHA-256, base64, JSON, YAML and `net.ParseCIDR` internals: parameters, as listed under Conventions. That base64 decodes what it encoded is assumed.
- Clocks: timeouts are choices; no statement about how long anything takes is made.
- `printf | base64 -d > tmp && mv` (`internal/driver/qemu/live.go:92-93`): the decoder writes the whole body or the script stops before the rename; a decoder that fails silently is not modelled.
- The guest crashing, or its init stopping on a failed file operation: the guest performs every step it begins. Commands that read or write the control directory themselves are not modelled.
- 9p caching: file operations are atomic and seen at once by both sides.
- Concurrent `Get` calls and two topologies at once: the source does not lock; calls are sequential, and tap names are global.
- Running `Up` over a topology that is already up: the statement about success asks for a host without processes in the plan's run directories; every other statement covers it.
- Paths in the cache directory, file modes and the contents of the config file beyond its being written.
- IPv6 and IPv4-mapped IPv6 subnets: an IPv6 network is printed as it is; the mapped form is not distinguished from it.
- Hosts.Host.Stop: reaps the processes launched for the run directory; the pid file and the regular expression given to `pkill` (`internal/driver/qemu/live.go:126-134`) are not modelled; where a name has a dot, the expression also matches the directory of a name with another character there.
- Capacity: lengths of file names and argument lists, numbers of PCI slots and bridge ports, memory and processors of the host. Addresses that a guest's kernel refuses, such as IPv6 multicast.
- Hosts.Host.Boot: a tap that is missing although its script ran is made by QEMU itself for as long as it runs; that link is not modelled. On a reliable host a node that finds what it was meant to find becomes ready.
- Hosts.Host.CreateBridge: what the script does with a name that is not one word is not modelled; of a name with a percent sign only that another new link may appear. Network devices that cannot be deleted are not part of the host's state. Whether a link is up, STP, iptables and bridge netfilter settings are not part of the host's state.
- Hosts.Host.CreateTap: what the script does with a name that is not one word is not modelled; planned tap names are.
- Hosts.Host.PrepRootfs: a file that stands where a directory is to be made is not modelled; of the tree it makes only the directories themselves are modelled, not the files copied from the base root file system. What the script does with a path that is not one word is not modelled.
- Clusters.Cluster.Status: the pid file is not modelled; a process number that the system has given to another process makes the source report a node as running. Whether `kill -0` and the ping succeed is a choice limited by the processes present.
- Clusters.Cluster.Down: asks for a topology that has a plan, since the source dereferences a missing one; `PlanTheorems.ValidPlans` supplies it for validated topologies.
- The error texts: a failure is a value that names the node, tap, bridge or link.
- `parseReady`: no other code of the program calls it. `Driver.Argv`, `Name` and `ValidateFile` are one-line wrappers.
- The command line front end of `cmd/klab/main.go` apart from `resolveConfig`, `resolveKernelImage` and the node check of `execCmd`.
- Double quotes in scripts: the reader stops at them. The guest's interface script keeps the hardware address in them, where its characters stand for themselves.
