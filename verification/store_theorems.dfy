/** What the build cache guarantees over every sequence of calls, whatever fails or
    crashes in them. */
module StoreTheorems {
  import opened Results
  import opened Hex
  import opened CacheKeys
  import opened KernelConfig
  import opened KernelStore

  // ----- markers ---------------------------------------------------------

  lemma OneCallMarker(site: Site, cache: Cache, r: Request, key: string)
    requires ReadMarker(cache, key).Some? || key != KeyAt(site, r)
    ensures ReadMarker(GetEffect(site, cache, r.spec, r.config, r.world).cache, key)
            == ReadMarker(cache, key)
  {
  }

  /** A marker once on disk never changes, whole or not. */
  lemma {:induction false} MarkerStays(site: Site, reqs: seq<Request>, i: nat, key: string)
    requires i <= |reqs| && ReadMarker(RunCache(site, reqs[..i]), key).Some?
    ensures ReadMarker(RunCache(site, reqs), key) == ReadMarker(RunCache(site, reqs[..i]), key)
    decreases |reqs|
  {
    if i == |reqs| {
      assert reqs[..i] == reqs;
    } else {
      var front := reqs[..|reqs| - 1];
      assert front[..i] == reqs[..i];
      MarkerStays(site, front, i, key);
      OneCallMarker(site, RunCache(site, front), reqs[|reqs| - 1], key);
    }
  }

  /** Call `i` found no marker for `key` and wrote `data`, a prefix of the encoding of
      the artifact it had built. */
  predicate Wrote(site: Site, reqs: seq<Request>, i: int, key: string, data: string) {
    && 0 <= i < |reqs| && KeyAt(site, reqs[i]) == key
    && ReadMarker(RunCache(site, reqs[..i]), key) == None
    && reqs[i].world.build.Built?
    && var whole := site.codec.encode(Complete(site, key, reqs[i].world.build.artifact));
       && data <= whole
       && (data == whole ==> Publishes(site, reqs, i, Complete(site, key, reqs[i].world.build.artifact)))
  }

  lemma OneCallOrigin(site: Site, cache: Cache, r: Request, key: string)
    requires ReadMarker(cache, key) == None
    requires ReadMarker(GetEffect(site, cache, r.spec, r.config, r.world).cache, key).Some?
    ensures KeyAt(site, r) == key && !r.world.readError && r.world.mkdir.Made?
    ensures r.world.config.Written? && r.world.build.Built?
    ensures var data := ReadMarker(GetEffect(site, cache, r.spec, r.config, r.world).cache, key).value;
            var whole := site.codec.encode(Complete(site, key, r.world.build.artifact));
            && data <= whole
            && (data == whole ==>
                  (r.world.marker.Written? ||
                   (r.world.marker.upTo.Some? && r.world.marker.upTo.value >= |whole|)))
  {
  }

  /** Every marker on disk was written by one of the calls. */
  lemma {:induction false} MarkerOrigin(site: Site, reqs: seq<Request>, key: string) returns (i: nat)
    requires ReadMarker(RunCache(site, reqs), key).Some?
    ensures Wrote(site, reqs, i, key, ReadMarker(RunCache(site, reqs), key).value)
    decreases |reqs|
  {
    var n := |reqs| - 1;
    var front, last := reqs[..n], reqs[n];
    if ReadMarker(RunCache(site, front), key).Some? {
      OneCallMarker(site, RunCache(site, front), last, key);
      i := MarkerOrigin(site, front, key);
      assert front[..i] == reqs[..i];
    } else {
      OneCallOrigin(site, RunCache(site, front), last, key);
      i := n;
    }
  }

  lemma OneCallPublish(site: Site, cache: Cache, r: Request)
    requires ReadMarker(cache, KeyAt(site, r)) == None
    requires !r.world.readError && r.world.mkdir.Made? && r.world.config.Written? && r.world.build.Built?
    requires var whole := site.codec.encode(Complete(site, KeyAt(site, r), r.world.build.artifact));
             r.world.marker.Written? ||
             (r.world.marker.upTo.Some? && r.world.marker.upTo.value >= |whole|)
    ensures ReadMarker(GetEffect(site, cache, r.spec, r.config, r.world).cache, KeyAt(site, r)) ==
            Some(site.codec.encode(Complete(site, KeyAt(site, r), r.world.build.artifact)))
  {
    var whole := site.codec.encode(Complete(site, KeyAt(site, r), r.world.build.artifact));
    assert whole[..|whole|] == whole;
  }

  /** What a beginning of an encoding decodes to. */
  lemma WholeOrNothing(c: Codec, a: Artifact, data: string)
    requires Lawful(c) && data <= c.encode(a)
    ensures c.decode(data) == if data == c.encode(a) then Some(a) else None
  {
    if data != c.encode(a) { assert data == c.encode(a)[..|data|]; }
  }

  lemma PublishedMarker(site: Site, reqs: seq<Request>, i: nat, a: Artifact)
    requires i < |reqs| && Publishes(site, reqs, i, a)
    ensures ReadMarker(RunCache(site, reqs), KeyAt(site, reqs[i])) == Some(site.codec.encode(a))
  {
    var now := reqs[..i + 1];
    assert now[..|now| - 1] == reqs[..i];
    OneCallPublish(site, RunCache(site, reqs[..i]), reqs[i]);
    MarkerStays(site, reqs, i + 1, KeyAt(site, reqs[i]));
  }

  // ----- hits ------------------------------------------------------------

  /** A hit returns the artifact of one earlier call with the same key whose build
      and marker write were completed; its hash is the key. */
  lemma HitWasPublished(site: Site, reqs: seq<Request>, j: nat, a: Artifact) returns (i: nat)
    requires Lawful(site.codec) && j < |reqs| && OutcomeAt(site, reqs, j) == Returned(a, true)
    ensures i < j && KeyAt(site, reqs[i]) == KeyAt(site, reqs[j]) && Publishes(site, reqs, i, a)
    ensures a.hash == KeyAt(site, reqs[j]) && a.config == ConfigPath(site, a.hash)
  {
    var key := KeyAt(site, reqs[j]);
    var past := reqs[..j];
    i := MarkerOrigin(site, past, key);
    assert past[..i] == reqs[..i];
    var data := ReadMarker(RunCache(site, past), key).value;
    WholeOrNothing(site.codec, Complete(site, key, reqs[i].world.build.artifact), data);
  }

  /** Each key is built to completion at most once. */
  lemma PublishedOnce(site: Site, reqs: seq<Request>, i: nat, j: nat, a: Artifact, b: Artifact)
    requires i < |reqs| && j < |reqs| && KeyAt(site, reqs[i]) == KeyAt(site, reqs[j])
    requires Publishes(site, reqs, i, a) && Publishes(site, reqs, j, b)
    ensures i == j
  {
    if i < j { PublishedBlocks(site, reqs, i, j, a); }
    if j < i { PublishedBlocks(site, reqs, j, i, b); }
  }

  lemma PublishedBlocks(site: Site, reqs: seq<Request>, i: nat, j: nat, a: Artifact)
    requires i < j < |reqs| && KeyAt(site, reqs[i]) == KeyAt(site, reqs[j])
    requires Publishes(site, reqs, i, a)
    ensures ReadMarker(RunCache(site, reqs[..j]), KeyAt(site, reqs[j])) == Some(site.codec.encode(a))
  {
    assert reqs[..j][..i] == reqs[..i];
    PublishedMarker(site, reqs[..j], i, a);
  }

  /** A call that returns an artifact without a hit has published it. */
  lemma MissPublishes(site: Site, reqs: seq<Request>, j: nat, a: Artifact)
    requires j < |reqs| && OutcomeAt(site, reqs, j) == Returned(a, false)
    ensures Publishes(site, reqs, j, a)
  {
  }

  /** After a published build every call for its key hits and returns that artifact,
      unless the marker cannot be read. */
  lemma LaterCallsHit(site: Site, reqs: seq<Request>, i: nat, j: nat, a: Artifact)
    requires Lawful(site.codec) && i < j < |reqs| && Publishes(site, reqs, i, a)
    requires KeyAt(site, reqs[i]) == KeyAt(site, reqs[j])
    ensures OutcomeAt(site, reqs, j) ==
            if reqs[j].world.readError then Failed(ReadFailed) else Returned(a, true)
  {
    PublishedBlocks(site, reqs, i, j, a);
    assert site.codec.decode(site.codec.encode(a)) == Some(a);
  }

  // ----- what is returned ------------------------------------------------

  /** Call `i` was for the key of call `j` and built the artifact `a` is made from. */
  predicate MadeBy(site: Site, reqs: seq<Request>, i: int, j: int, a: Artifact) {
    && 0 <= i <= j < |reqs| && KeyAt(site, reqs[i]) == KeyAt(site, reqs[j])
    && ReadMarker(RunCache(site, reqs[..i]), KeyAt(site, reqs[i])) == None
    && reqs[i].world.build.Built?
    && a.image == reqs[i].world.build.artifact.image && a.vmlinux == reqs[i].world.build.artifact.vmlinux
  }

  /** Over every sequence of calls: what a call returns has the image and the vmlinux that
      a builder reported, in this call if it is no hit and in one earlier one for the same
      key if it is; its hash is the key, and its config the file in the key's entry. */
  lemma ReturnedIsBuilt(site: Site, reqs: seq<Request>, j: nat, a: Artifact, hit: bool) returns (i: nat)
    requires Lawful(site.codec) && j < |reqs| && OutcomeAt(site, reqs, j) == Returned(a, hit)
    ensures MadeBy(site, reqs, i, j, a) && (hit <==> i < j)
    ensures a.hash == KeyAt(site, reqs[j]) && a.config == site.root + "/" + a.hash + "/config"
    ensures forall k ::
              0 <= k < |reqs| && Publishes(site, reqs, k, a) && KeyAt(site, reqs[k]) == KeyAt(site, reqs[j]) ==> k == i
  {
    hide RunCache, ReadMarker;
    if hit {
      i := HitWasPublished(site, reqs, j, a);
    } else {
      i := j;
      MissPublishes(site, reqs, j, a);
    }
    forall k | 0 <= k < |reqs| && Publishes(site, reqs, k, a) && KeyAt(site, reqs[k]) == KeyAt(site, reqs[j])
      ensures k == i
    {
      PublishedOnce(site, reqs, i, k, a, a);
    }
  }

  /** A call that returns without a hit leaves in the entry what the builder wrote, and the
      resolved config unless the builder wrote over it. */
  lemma MissLeavesFiles(site: Site, reqs: seq<Request>, j: nat, a: Artifact)
    requires j < |reqs| && OutcomeAt(site, reqs, j) == Returned(a, false)
    ensures var files := Entry(RunCache(site, reqs[..j + 1]), KeyAt(site, reqs[j]));
            var outputs := reqs[j].world.build.outputs;
            && (forall f :: f in outputs && f != "artifact.json" ==> f in files && files[f] == outputs[f])
            && ("config" !in outputs ==> "config" in files && files["config"] == reqs[j].config)
            && "artifact.json" in files && files["artifact.json"] == site.codec.encode(a)
  {
    hide KeyOf, Complete;
    var now := reqs[..j + 1];
    assert now[..|now| - 1] == reqs[..j] && now[j] == reqs[j];
  }

  /** What is hashed: a text from which the four inputs are read back, in this order; the
      key is the digest in hexadecimal. */
  lemma KeyIsDigest(site: Site, r: Request) returns (text: string)
    ensures DecodeFields(text, 4) == Some([r.spec.ref, r.spec.arch, site.toolchain, r.config])
    ensures ReadHex(KeyAt(site, r)) == Some(site.hash(text))
  {
    var fields := [r.spec.ref, r.spec.arch, site.toolchain, r.config];
    text := EncodeFields(fields);
    DecodeOfEncode(fields);
    ReadHexString(site.hash(text));
  }

  /** Two requests share a key if and only if ref, architecture and config agree, or the
      hash collides on what is hashed for them. */
  lemma SharedKeyIff(site: Site, r: Request, q: Request)
    ensures KeyAt(site, r) == KeyAt(site, q) <==>
            || (r.spec.ref == q.spec.ref && r.spec.arch == q.spec.arch && r.config == q.config)
            || Collision(site.hash, EncodeFields([r.spec.ref, r.spec.arch, site.toolchain, r.config]),
                         EncodeFields([q.spec.ref, q.spec.arch, site.toolchain, q.config]))
  {
    SameKeyIff(site.hash, InputsOf(site, r.spec, r.config), InputsOf(site, q.spec, q.config));
  }

  // ----- agreement with a fresh build ------------------------------------

  /** The result of a build, as a function of what is hashed and where it goes. */
  type Recipe = (Inputs, string) -> Artifact

  function Fresh(site: Site, recipe: Recipe, r: Request): Artifact {
    var key := KeyAt(site, r);
    Complete(site, key, recipe(InputsOf(site, r.spec, r.config), EntryDir(site, key)))
  }

  /** Builds depend on nothing but the hashed inputs and the output directory. */
  ghost predicate Faithful(site: Site, recipe: Recipe, reqs: seq<Request>) {
    forall i :: 0 <= i < |reqs| && reqs[i].world.build.Built? ==>
      reqs[i].world.build.artifact ==
      recipe(InputsOf(site, reqs[i].spec, reqs[i].config), EntryDir(site, KeyAt(site, reqs[i])))
  }

  /** Whatever a call returns is what a fresh build would give, or the run holds a
      collision of the hash. */
  lemma CacheAgreesWithBuild(site: Site, recipe: Recipe, reqs: seq<Request>, j: nat)
    requires Lawful(site.codec) && Faithful(site, recipe, reqs)
    requires j < |reqs| && OutcomeAt(site, reqs, j).Returned?
    ensures || OutcomeAt(site, reqs, j).artifact == Fresh(site, recipe, reqs[j])
            || exists i :: 0 <= i < j &&
                 Collision(site.hash,
                           EncodeFields(FieldsOf(InputsOf(site, reqs[i].spec, reqs[i].config))),
                           EncodeFields(FieldsOf(InputsOf(site, reqs[j].spec, reqs[j].config))))
  {
    var a := OutcomeAt(site, reqs, j).artifact;
    if OutcomeAt(site, reqs, j).hit {
      var i := HitWasPublished(site, reqs, j, a);
      SameKeyIff(site.hash, InputsOf(site, reqs[i].spec, reqs[i].config),
                 InputsOf(site, reqs[j].spec, reqs[j].config));
    }
  }

  /** The base config is not hashed.  Two specs that differ in it alone share an
      entry: the second call returns the first one's build, which is right if and
      only if the two builds give the same image and vmlinux. */
  lemma BaseConfigNotInKey(site: Site, r: Request, base: string, a: Artifact, b: Artifact)
    requires Lawful(site.codec)
    requires r.world.mkdir.Made? && r.world.config.Written? && r.world.marker.Written?
    requires !r.world.readError && r.world.build.Built? && r.world.build.artifact == a
    ensures var r' := r.(spec := r.spec.(baseConfig := base),
                         world := r.world.(build := Built(b, map[])));
            && OutcomeAt(site, [r, r'], 1) == Returned(Complete(site, KeyAt(site, r), a), true)
            && (OutcomeAt(site, [r, r'], 1) == Returned(Complete(site, KeyAt(site, r'), b), true)
                <==> a.image == b.image && a.vmlinux == b.vmlinux)
  {
    var r' := r.(spec := r.spec.(baseConfig := base), world := r.world.(build := Built(b, map[])));
    var reqs := [r, r'];
    assert reqs[..0] == [];
    assert Publishes(site, reqs, 0, Complete(site, KeyAt(site, r), a));
    LaterCallsHit(site, reqs, 0, 1, Complete(site, KeyAt(site, r), a));
  }

  // ----- availability ----------------------------------------------------

  predicate NothingFails(w: World) {
    !w.readError && w.mkdir.Made? && w.config.Written? && w.build.Built? && w.marker.Written?
  }

  lemma OneFaultlessCall(site: Site, cache: Cache, r: Request)
    requires NothingFails(r.world)
    ensures var e := GetEffect(site, cache, r.spec, r.config, r.world);
            var marker := ReadMarker(cache, KeyAt(site, r));
            if marker == None then e.outcome.Returned?
            else if site.codec.decode(marker.value).Some? then e.outcome.Returned?
            else e == Effect(cache, Failed(CorruptMarker))
  {
  }

  /** When nothing fails, a call returns an artifact if and only if the marker is
      absent or whole: a marker cut short by an earlier error or crash blocks its key
      for good. */
  lemma ReturnsIff(site: Site, reqs: seq<Request>, r: Request)
    requires Lawful(site.codec) && NothingFails(r.world)
    ensures var marker := ReadMarker(RunCache(site, reqs), KeyAt(site, r));
            && (OutcomeAt(site, reqs + [r], |reqs|).Returned? <==>
                  marker == None || exists a :: marker.value == site.codec.encode(a))
            && (!OutcomeAt(site, reqs + [r], |reqs|).Returned? ==>
                  OutcomeAt(site, reqs + [r], |reqs|) == Failed(CorruptMarker)
                  && RunCache(site, reqs + [r]) == RunCache(site, reqs))
  {
    var all := reqs + [r];
    assert all[..|reqs|] == reqs;
    var key := KeyAt(site, r);
    var marker := ReadMarker(RunCache(site, reqs), key);
    if marker.Some? {
      var i := MarkerOrigin(site, reqs, key);
      WholeOrNothing(site.codec, Complete(site, key, reqs[i].world.build.artifact), marker.value);
      assert forall b :: site.codec.decode(site.codec.encode(b)) == Some(b);
    }
    OneFaultlessCall(site, RunCache(site, reqs), r);
  }

  /** Every crash or error before the marker is opened leaves the key free: the next
      call that nothing fails in builds it. */
  lemma FailedBuildLeavesNoHit(site: Site, reqs: seq<Request>, r: Request, retry: Request)
    requires Lawful(site.codec) && NothingFails(retry.world)
    requires KeyAt(site, r) == KeyAt(site, retry)
    requires ReadMarker(RunCache(site, reqs), KeyAt(site, r)) == None
    requires r.world.readError || r.world.mkdir.NotMade? || r.world.config.Stopped? ||
             r.world.build.NotBuilt? || r.world.marker == Stopped(None, r.world.marker.Stopped? && r.world.marker.crash)
    ensures OutcomeAt(site, reqs + [r, retry], |reqs| + 1) ==
            Returned(Complete(site, KeyAt(site, retry), retry.world.build.artifact), false)
  {
    var all := reqs + [r, retry];
    var one := reqs + [r];
    assert all[..|reqs| + 1] == one && one[..|one| - 1] == reqs;
    assert ReadMarker(RunCache(site, one), KeyAt(site, r)) == None;
  }

  // ----- the laws of the codec can be met --------------------------------

  lemma {:induction false} NoLeftOver(fields: seq<string>, rest: string)
    ensures DecodeFields(EncodeFields(fields) + rest, |fields|).Some? <==> rest == ""
  {
    if fields == [] {
      assert EncodeFields(fields) + rest == rest;
    } else {
      var tail := EncodeFields(fields[1..]) + rest;
      assert EncodeFields(fields) + rest == Field(fields[0]) + tail;
      DecodeOfField(fields[0], tail);
      NoLeftOver(fields[1..], rest);
    }
  }

  function FieldCodec(): Codec {
    Codec((a: Artifact) => EncodeFields([a.image, a.vmlinux, a.config, a.hash]),
          (s: string) => match DecodeFields(s, 4)
               case None => None
               case Some(f) =>
                 if |f| == 4 then Some(Artifact(f[0], f[1], f[2], f[3])) else None)
  }

  lemma FieldCodecLawful()
    ensures Lawful(FieldCodec())
  {
    var c := FieldCodec();
    forall a ensures c.decode(c.encode(a)) == Some(a) {
      DecodeOfEncode([a.image, a.vmlinux, a.config, a.hash]);
    }
    forall a, k: nat | k < |c.encode(a)| ensures c.decode(c.encode(a)[..k]) == None {
      var whole := c.encode(a);
      var cut := whole[..k];
      if DecodeFields(cut, 4).Some? {
        EncodeOfDecode(cut, 4);
        NoLeftOver(DecodeFields(cut, 4).value, whole[k..]);
        assert cut + whole[k..] == whole;
        DecodeOfEncode([a.image, a.vmlinux, a.config, a.hash]);
        assert false;
      }
    }
  }

  // ----- the second reader -----------------------------------------------

  datatype ResolveError = UnknownKernel | FragmentUnreadable | ImageNotBuilt | CorruptMetadata

  /** The texts of a list of fragment files, if all can be read. */
  function FragmentTexts(paths: seq<string>, readFile: string -> Option<string>): Option<seq<string>> {
    if paths == [] then Some([])
    else
      match readFile(paths[0])
      case None => None
      case Some(text) =>
        match FragmentTexts(paths[1..], readFile)
        case None => None
        case Some(texts) => Some([text] + texts)
  }

  lemma {:induction false} FragmentTextsSnoc(paths: seq<string>, p: string, readFile: string -> Option<string>)
    ensures FragmentTexts(paths + [p], readFile) ==
            if FragmentTexts(paths, readFile) == None || readFile(p) == None then None
            else Some(FragmentTexts(paths, readFile).value + [readFile(p).value])
  {
    if paths == [] {
      assert paths + [p] == [p] && [p][1..] == [];
      assert FragmentTexts([p][1..], readFile) == Some([]);
      if readFile(p).Some? {
        assert [readFile(p).value] + [] == [] + [readFile(p).value];
      }
    } else {
      assert (paths + [p])[1..] == paths[1..] + [p];
      FragmentTextsSnoc(paths[1..], p, readFile);
      assert (paths + [p])[0] == paths[0];
      if readFile(paths[0]).Some? && FragmentTexts(paths[1..], readFile).Some? && readFile(p).Some? {
        var t, ts, x := readFile(paths[0]).value, FragmentTexts(paths[1..], readFile).value, readFile(p).value;
        assert [t] + (ts + [x]) == ([t] + ts) + [x];
      }
    }
  }

  lemma {:induction false} FragmentTextsPrefix(paths: seq<string>, i: nat, readFile: string -> Option<string>)
    requires i <= |paths| && FragmentTexts(paths[..i], readFile) == None
    ensures FragmentTexts(paths, readFile) == None
    decreases |paths| - i
  {
    if i == |paths| {
      assert paths[..i] == paths;
    } else {
      assert paths[..i + 1] == paths[..i] + [paths[i]];
      FragmentTextsSnoc(paths[..i], paths[i], readFile);
      FragmentTextsPrefix(paths, i + 1, readFile);
    }
  }

  /** The texts are those of the files, in order; there are none if a file cannot be read. */
  lemma {:induction false} FragmentTextsAre(paths: seq<string>, readFile: string -> Option<string>)
    ensures FragmentTexts(paths, readFile).Some? <==> forall i :: 0 <= i < |paths| ==> readFile(paths[i]).Some?
    ensures FragmentTexts(paths, readFile).Some? ==>
              && |FragmentTexts(paths, readFile).value| == |paths|
              && forall i :: 0 <= i < |paths| ==> readFile(paths[i]) == Some(FragmentTexts(paths, readFile).value[i])
  {
    if paths != [] {
      FragmentTextsAre(paths[1..], readFile);
      assert forall i :: 0 < i < |paths| ==> paths[i] == paths[1..][i - 1];
    }
  }

  /** A spec resolves to the merge, over nothing, of the texts of its fragments in order,
      if and only if all of them can be read. */
  lemma ResolvedConfigIff(spec: Spec, readFile: string -> Option<string>, config: string)
    ensures ResolvedConfig(spec, readFile) == Some(config) <==>
            exists texts: seq<string> ::
              && |texts| == |spec.fragments| && config == Merge("", texts)
              && forall i :: 0 <= i < |texts| ==> readFile(spec.fragments[i]) == Some(texts[i])
  {
    hide Merge;
    var paths := spec.fragments;
    FragmentTextsAre(paths, readFile);
    forall texts: seq<string> | |texts| == |paths| && config == Merge("", texts)
                                && forall i :: 0 <= i < |texts| ==> readFile(paths[i]) == Some(texts[i])
      ensures ResolvedConfig(spec, readFile) == Some(config)
    {
      var found := FragmentTexts(paths, readFile).value;
      assert forall i :: 0 <= i < |paths| ==> Some(found[i]) == Some(texts[i]);
      assert found == texts;
    }
  }

  ghost function ResolvedConfig(spec: Spec, readFile: string -> Option<string>): Option<string> {
    match FragmentTexts(spec.fragments, readFile)
    case None => None
    case Some(texts) => Some(Merge("", texts))
  }

  /** `resolveConfig`. */
  method ResolveConfig(spec: Spec, readFile: string -> Option<string>) returns (r: Option<string>)
    ensures r == ResolvedConfig(spec, readFile)
  {
    var texts: seq<string> := [];
    for i := 0 to |spec.fragments|
      invariant FragmentTexts(spec.fragments[..i], readFile) == Some(texts)
    {
      var f := spec.fragments[i];
      assert spec.fragments[..i + 1] == spec.fragments[..i] + [f];
      FragmentTextsSnoc(spec.fragments[..i], f, readFile);
      var text := readFile(f);
      if text == None {
        FragmentTextsPrefix(spec.fragments, i + 1, readFile);
        return None;
      }
      texts := texts + [text.value];
    }
    assert spec.fragments[..|spec.fragments|] == spec.fragments;
    var merged := MergeConfig("", texts);
    r := Some(merged);
  }

  /** `readable` says whether reading the marker goes well; the reader reports every
      failure to read as a kernel that is not built. */
  ghost function ResolvedImage(site: Site, cache: Cache, specs: map<string, Spec>, name: string,
                               readFile: string -> Option<string>, readable: bool): Result<string, ResolveError>
  {
    if name !in specs then Err(UnknownKernel)
    else
      match ResolvedConfig(specs[name], readFile)
      case None => Err(FragmentUnreadable)
      case Some(config) =>
        match ReadMarker(cache, KeyOf(site, specs[name], config))
        case None => Err(ImageNotBuilt)
        case Some(data) =>
          if !readable then Err(ImageNotBuilt)
          else
            match site.codec.decode(data)
            case None => Err(CorruptMetadata)
            case Some(a) => Ok(a.image)
  }

  /** `resolveKernelImage`: never builds. */
  method ResolveKernelImage(site: Site, cache: Cache, specs: map<string, Spec>, name: string,
                            readFile: string -> Option<string>, readable: bool)
    returns (r: Result<string, ResolveError>)
    ensures r == ResolvedImage(site, cache, specs, name, readFile, readable)
  {
    if name !in specs { return Err(UnknownKernel); }
    var spec := specs[name];
    var merged := ResolveConfig(spec, readFile);
    if merged == None { return Err(FragmentUnreadable); }
    var key := CacheKey(site.hash, spec.ref, spec.arch, site.toolchain, merged.value);
    var data := ReadMarker(cache, key);
    if data == None || !readable { return Err(ImageNotBuilt); }
    match site.codec.decode(data.value)
    case None => return Err(CorruptMetadata);
    case Some(a) => return Ok(a.image);
  }

  /** Once a call for a named kernel has returned, then after any later calls, the
      second reader with the same toolchain and fragments gives the same image, the one
      that a builder reported, if it can read the marker. */
  lemma ReadersAgree(site: Site, reqs: seq<Request>, j: nat, specs: map<string, Spec>, name: string,
                     readFile: string -> Option<string>, readable: bool)
    requires Lawful(site.codec) && j < |reqs| && OutcomeAt(site, reqs, j).Returned?
    requires name in specs && specs[name] == reqs[j].spec
    requires ResolvedConfig(reqs[j].spec, readFile) == Some(reqs[j].config)
    ensures ResolvedImage(site, RunCache(site, reqs), specs, name, readFile, readable) ==
            if readable then Ok(OutcomeAt(site, reqs, j).artifact.image) else Err(ImageNotBuilt)
    ensures exists i :: MadeBy(site, reqs, i, j, OutcomeAt(site, reqs, j).artifact)
  {
    var a := OutcomeAt(site, reqs, j).artifact;
    if OutcomeAt(site, reqs, j).hit {
      var i := HitWasPublished(site, reqs, j, a);
      PublishedMarker(site, reqs, i, a);
    } else {
      MissPublishes(site, reqs, j, a);
      PublishedMarker(site, reqs, j, a);
    }
    assert site.codec.decode(site.codec.encode(a)) == Some(a);
    var made := ReturnedIsBuilt(site, reqs, j, a, OutcomeAt(site, reqs, j).hit);
  }
}
