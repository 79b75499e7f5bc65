/** `Store.Get`: the content-addressed build cache.  One call is a sequence of file
    operations and one build; a `World` says how each of them goes, including a
    crash or an error in the middle of a file.  The JSON encoding of the marker is a
    parameter with two laws: decoding inverts encoding, and no strict prefix of an
    encoding decodes (a JSON object ends with its closing brace). */
module KernelStore {
  import opened Results
  import opened CacheKeys

  datatype Spec = Spec(name: string, ref: string, arch: string, baseConfig: string,
                       fragments: seq<string>)

  datatype Artifact = Artifact(image: string, vmlinux: string, config: string, hash: string)

  datatype Codec = Codec(encode: Artifact -> string, decode: string -> Option<Artifact>)

  ghost predicate Lawful(c: Codec) {
    && (forall a :: c.decode(c.encode(a)) == Some(a))
    && (forall a, k: nat :: k < |c.encode(a)| ==> c.decode(c.encode(a)[..k]) == None)
  }

  /** What does not change during the life of a store. */
  datatype Site = Site(root: string, toolchain: string, hash: Digest, codec: Codec)

  type Files = map<string, string>

  /** The cache directory: entry name to the files of the entry. */
  type Cache = map<string, Files>

  const Marker: string := "artifact.json"

  // ----- the outside world -----------------------------------------------

  /** A write completes, or stops: by an error or a crash, before the file is opened
      or with the first `upTo` bytes in it. */
  datatype Write = Written | Stopped(upTo: Option<nat>, crash: bool)

  datatype Mkdir = Made | NotMade(crash: bool)

  /** The files a build leaves in the entry; a builder does not write the marker. */
  datatype Build = Built(artifact: Artifact, outputs: Files) | NotBuilt(outputs: Files, crash: bool)

  datatype World = World(readError: bool, mkdir: Mkdir, config: Write, build: Build, marker: Write)

  datatype Failure = ReadFailed | CorruptMarker | MkdirFailed | ConfigFailed | BuildFailed | MarkerFailed

  datatype Outcome = Returned(artifact: Artifact, hit: bool) | Failed(why: Failure) | Crashed

  // ----- one call --------------------------------------------------------

  function InputsOf(site: Site, spec: Spec, config: string): Inputs {
    Inputs(spec.ref, spec.arch, site.toolchain, config)
  }

  function KeyOf(site: Site, spec: Spec, config: string): string {
    Key(site.hash, InputsOf(site, spec, config))
  }

  function EntryDir(site: Site, key: string): string { site.root + "/" + key }

  function ConfigPath(site: Site, key: string): string { EntryDir(site, key) + "/config" }

  /** `a.Hash = key; a.Config = configPath`. */
  function Complete(site: Site, key: string, a: Artifact): Artifact {
    a.(hash := key, config := ConfigPath(site, key))
  }

  function Prefix(data: string, k: nat): string {
    if k <= |data| then data[..k] else data
  }

  function WriteFile(files: Files, name: string, data: string, w: Write): Files {
    match w
    case Written => files[name := data]
    case Stopped(None, _) => files
    case Stopped(Some(k), _) => files[name := Prefix(data, k)]
  }

  function Stop(crash: bool, why: Failure): Outcome {
    if crash then Crashed else Failed(why)
  }

  function Entry(cache: Cache, key: string): Files {
    if key in cache then cache[key] else map[]
  }

  function ReadMarker(cache: Cache, key: string): Option<string> {
    if Marker in Entry(cache, key) then Some(Entry(cache, key)[Marker]) else None
  }

  datatype Effect = Effect(cache: Cache, outcome: Outcome)

  /** A miss. */
  function FillEffect(site: Site, cache: Cache, key: string, config: string, w: World): Effect {
    var f0 := WriteFile(Entry(cache, key), "config", config, w.config);
    if w.config.Stopped? then Effect(cache[key := f0], Stop(w.config.crash, ConfigFailed))
    else
      var f1 := f0 + (w.build.outputs - {Marker});
      if w.build.NotBuilt? then Effect(cache[key := f1], Stop(w.build.crash, BuildFailed))
      else
        var a := Complete(site, key, w.build.artifact);
        var f2 := WriteFile(f1, Marker, site.codec.encode(a), w.marker);
        Effect(cache[key := f2],
               if w.marker.Written? then Returned(a, false) else Stop(w.marker.crash, MarkerFailed))
  }

  /** A call of `Get`. */
  function GetEffect(site: Site, cache: Cache, spec: Spec, config: string, w: World): Effect {
    var key := KeyOf(site, spec, config);
    var marker := ReadMarker(cache, key);
    if w.readError then Effect(cache, Failed(ReadFailed))
    else if marker.Some? then
      match site.codec.decode(marker.value)
      case Some(a) => Effect(cache, Returned(a, true))
      case None => Effect(cache, Failed(CorruptMarker))
    else if w.mkdir.NotMade? then Effect(cache, Stop(w.mkdir.crash, MkdirFailed))
    else FillEffect(site, cache, key, config, w)
  }

  /** The store object.  `Get` works on the cache directory step by step. */
  class Store {
    const site: Site
    var cache: Cache

    constructor (site: Site)
      ensures this.site == site && cache == map[]
    {
      this.site := site;
      cache := map[];
    }

    method Get(spec: Spec, config: string, w: World) returns (outcome: Outcome)
      modifies this`cache
      ensures Effect(cache, outcome) == GetEffect(site, old(cache), spec, config, w)
    {
      var key := CacheKey(site.hash, spec.ref, spec.arch, site.toolchain, config);
      if w.readError { return Failed(ReadFailed); }
      if key in cache && Marker in cache[key] {
        match site.codec.decode(cache[key][Marker])
        case Some(a) => return Returned(a, true);
        case None => return Failed(CorruptMarker);
      }
      if w.mkdir.NotMade? { return Stop(w.mkdir.crash, MkdirFailed); }
      outcome := Fill(key, config, w);
    }

    /** The miss path: config, build, and the marker last. */
    method Fill(key: string, config: string, w: World) returns (outcome: Outcome)
      modifies this`cache
      ensures Effect(cache, outcome) == FillEffect(site, old(cache), key, config, w)
    {
      var f := WriteFile(Entry(cache, key), "config", config, w.config);
      cache := cache[key := f];
      if w.config.Stopped? { return Stop(w.config.crash, ConfigFailed); }
      f := f + (w.build.outputs - {Marker});
      cache := cache[key := f];
      assert cache == old(cache)[key := f];
      if w.build.NotBuilt? { return Stop(w.build.crash, BuildFailed); }
      var a := w.build.artifact;
      a := a.(hash := key);
      a := a.(config := ConfigPath(site, key));
      f := WriteFile(f, Marker, site.codec.encode(a), w.marker);
      cache := cache[key := f];
      assert cache == old(cache)[key := f];
      if w.marker.Stopped? { return Stop(w.marker.crash, MarkerFailed); }
      return Returned(a, false);
    }
  }

  // ----- sequences of calls ----------------------------------------------

  datatype Request = Request(spec: Spec, config: string, world: World)

  function RunCache(site: Site, reqs: seq<Request>): Cache {
    if reqs == [] then map[]
    else
      var r := reqs[|reqs| - 1];
      GetEffect(site, RunCache(site, reqs[..|reqs| - 1]), r.spec, r.config, r.world).cache
  }

  /** What call `i` returns, after the calls before it. */
  function OutcomeAt(site: Site, reqs: seq<Request>, i: nat): Outcome
    requires i < |reqs|
  {
    GetEffect(site, RunCache(site, reqs[..i]), reqs[i].spec, reqs[i].config, reqs[i].world).outcome
  }

  function KeyAt(site: Site, r: Request): string { KeyOf(site, r.spec, r.config) }

  /** Call `i` builds, and puts the whole marker for `a` on disk. */
  predicate Publishes(site: Site, reqs: seq<Request>, i: nat, a: Artifact)
    requires i < |reqs|
  {
    var r := reqs[i];
    var w := r.world;
    var key := KeyAt(site, r);
    && ReadMarker(RunCache(site, reqs[..i]), key) == None
    && !w.readError && w.mkdir.Made? && w.config.Written? && w.build.Built?
    && a == Complete(site, key, w.build.artifact)
    && (w.marker.Written? ||
        (w.marker.upTo.Some? && w.marker.upTo.value >= |site.codec.encode(a)|))
  }
}
