/** The `Lock` operations around resolution: writing and re-checking the lock
    file, choosing the platform manifest of a kit, and fetching the locked kits
    into the build's external-kits directory. */
module LockFile {
  import opened Text
  import opened Images
  import opened Results
  import opened Files
  import opened Remote
  import opened Resolver
  import opened Archive

  const LockFileName: string := "Twoliter.lock"

  function LockPath(project: Project): Path {
    project.projectDir + [LockFileName]
  }

  /** The platform `p` is present and names architecture `arch`. */
  predicate IsFor(p: Option<Platform>, arch: string) {
    p.Some? && p.value.architecture == arch
  }

  /** The search of `get_manifest` from index `i` on: the first entry whose
      platform is `arch`. An entry without a platform met before a match is
      the `unwrap` that aborts the search. */
  function FirstFor(list: seq<ManifestView>, arch: string, source: string, i: nat): (r: Result<nat>)
    requires i <= |list|
    ensures r.Success? ==> i <= r.value < |list| && IsFor(list[r.value].platform, arch)
                           && forall j :: i <= j < r.value ==> list[j].platform.Some? && !IsFor(list[j].platform, arch)
    ensures r == Failure(ArchitectureMissing(arch, source)) <==>
              forall j :: i <= j < |list| ==> list[j].platform.Some? && !IsFor(list[j].platform, arch)
    ensures r.Failure? ==> r == Failure(ArchitectureMissing(arch, source)) || r == Failure(MissingPlatform(source))
    decreases |list| - i
  {
    if i == |list| then Failure(ArchitectureMissing(arch, source))
    else if list[i].platform.None? then Failure(MissingPlatform(source))
    else if list[i].platform.value.architecture == arch then Success(i)
    else FirstFor(list, arch, source, i + 1)
  }

  /** `Lock::get_manifest`: fetch the manifest list of the image's tagged
      source, translate the architecture name, and take the first entry for it. */
  function GetManifest(env: Env, image: LockedImage, arch: string): (r: Result<ManifestView>)
    ensures image.source !in env.registry.manifests ==> r == Failure(ManifestUnavailable(image.source))
    ensures r.Success? ==>
              && image.source in env.registry.manifests
              && env.codec.dockerArchitecture(arch).Some?
              && var list := env.codec.parseManifestList(env.registry.manifests[image.source]);
                 list.Some? && r.value in list.value && IsFor(r.value.platform, env.codec.dockerArchitecture(arch).value)
    ensures (&& image.source in env.registry.manifests
             && env.codec.parseManifestList(env.registry.manifests[image.source]).Some?
             && env.codec.dockerArchitecture(arch).None?)
            ==> r == Failure(UnknownArchitecture(arch))
  {
    var bytes :- FetchManifest(env, image.source);
    match env.codec.parseManifestList(bytes)
    case None => Failure(BadManifestList)
    case Some(list) =>
      match env.codec.dockerArchitecture(arch)
      case None => Failure(UnknownArchitecture(arch))
      case Some(dockerArch) =>
        var i :- FirstFor(list, dockerArch, image.source, 0);
        Success(list[i])
  }

  /** When entry `k` names the architecture and every entry before it has a
      platform, the search succeeds at `k` or at an earlier match: the first
      match wins. */
  lemma {:induction false} FirstMatchWins(list: seq<ManifestView>, arch: string, source: string, i: nat, k: nat)
    requires i <= k < |list| && IsFor(list[k].platform, arch)
    requires forall j :: i <= j < k ==> list[j].platform.Some?
    ensures FirstFor(list, arch, source, i).Success?
    ensures FirstFor(list, arch, source, i).value <= k
    decreases k - i
  {
    if i < k && !IsFor(list[i].platform, arch) {
      FirstMatchWins(list, arch, source, i + 1, k);
    }
  }

  /** The directory a kit is extracted to: `VENDOR/NAME/ARCH` below `base`. */
  function KitDir(base: Path, image: LockedImage, arch: string): Path {
    Join(base, image.vendor + "/" + image.name + "/" + arch)
  }

  /** The shared cache of pulled archives below `base`. */
  function CacheDir(base: Path): Path {
    Join(base, "cache")
  }

  /** The archive of the platform manifest a kit is extracted from. */
  function KitArchive(image: LockedImage, manifest: ManifestView, base: Path): OCIArchive {
    OCIArchive(image, manifest.digest, CacheDir(base))
  }

  /** `q` is outside everything extracting `image` may write: its kit
      directory and, when its platform manifest is known, its archive. */
  predicate Spared(env: Env, base: Path, image: LockedImage, arch: string, q: Path) {
    && !Within(q, KitDir(base, image, arch))
    && (GetManifest(env, image, arch).Success? ==>
          !Within(q, ArchivePath(KitArchive(image, GetManifest(env, image, arch).value, base))))
  }

  /** `Lock::extract_kit`: create the kit and cache directories, choose the
      platform manifest, pull its archive once, and unpack it unless the
      kit directory already holds it. */
  function ExtractKit(env: Env, fs: FileSystem, base: Path, image: LockedImage, arch: string): (e: Effect<()>)
    ensures e.result.Success? ==> GetManifest(env, image, arch).Success?
    ensures e.result.Success? ==>
              var d := GetManifest(env, image, arch).value.digest;
              env.codec.decodeText(env.codec.encodeText(d)) == Some(d) ==> Claims(env.codec, e.fs, KitDir(base, image, arch), d)
    ensures forall q :: Spared(env, base, image, arch, q) ==> SameAt(fs, e.fs, q)
  {
    var target := KitDir(base, image, arch);
    var cache := CacheDir(base);
    var madeTarget := CreateDirAll(fs, target);
    if madeTarget.result.Failure? then madeTarget
    else
      var madeCache := CreateDirAll(madeTarget.fs, cache);
      if madeCache.result.Failure? then madeCache
      else
        match GetManifest(env, image, arch)
        case Failure(err) => Effect(madeCache.fs, Failure(err))
        case Success(manifest) =>
          var a := KitArchive(image, manifest, base);
          var pulled := PullImage(env, madeCache.fs, a);
          if pulled.result.Failure? then pulled
          else UnpackLayers(env, pulled.fs, a, target)
  }

  /** A non-empty slash-free string. */
  predicate Plain(s: string) {
    |s| > 0 && '/' !in s
  }

  /** With plain vendor, name and architecture the kit directory is three
      components below `base`, and the cache one. */
  lemma KitDirLayout(base: Path, image: LockedImage, arch: string)
    requires Plain(image.vendor) && Plain(image.name) && Plain(arch)
    ensures KitDir(base, image, arch) == base + [image.vendor, image.name, arch]
    ensures CacheDir(base) == base + ["cache"]
  {
    assert image.vendor + "/" + image.name + "/" + arch == image.vendor + "/" + (image.name + "/" + arch);
    ComponentsOfJoin(image.vendor, image.name + "/" + arch);
    ComponentsOfJoin(image.name, arch);
    ComponentsOfPlain(arch);
    ComponentsOfPlain("cache");
  }

  /** The cache, the archive inside it and their ancestors all lie outside
      the kit directory. */
  lemma ArchiveOutsideKitDir(base: Path, image: LockedImage, arch: string, manifest: ManifestView)
    requires Plain(image.vendor) && Plain(image.name) && Plain(arch) && Plain(manifest.digest)
    ensures forall q :: q in Ancestry(ArchivePath(KitArchive(image, manifest, base))) ==>
              !Within(q, KitDir(base, image, arch))
    ensures forall q :: q in Ancestry(CacheDir(base)) ==> !Within(q, KitDir(base, image, arch))
  {
    KitDirLayout(base, image, arch);
    ArchivePathEscapes(KitArchive(image, manifest, base));
  }

  /** Extracting a kit a second time changes nothing: its directories exist,
      its archive is cached, and its marker records the digest. */
  lemma ExtractKitTwiceIsNoop(env: Env, fs: FileSystem, base: Path, image: LockedImage, arch: string)
    requires Plain(image.vendor) && Plain(image.name) && Plain(arch)
    requires ExtractKit(env, fs, base, image, arch).result.Success?
    requires Plain(GetManifest(env, image, arch).value.digest)
    requires var d := GetManifest(env, image, arch).value.digest;
             env.codec.decodeText(env.codec.encodeText(d)) == Some(d)
    ensures var fs' := ExtractKit(env, fs, base, image, arch).fs;
            ExtractKit(env, fs', base, image, arch) == Effect(fs', Success(()))
  {
    var fs' := ExtractKit(env, fs, base, image, arch).fs;
    ExtractKitLeavesCache(env, fs, base, image, arch);
    ExtractKitAgain(env, fs', base, image, arch);
  }

  /** What a kit extraction finds in place when everything is there already. */
  ghost predicate KitInPlace(env: Env, fs: FileSystem, base: Path, image: LockedImage, arch: string) {
    && GetManifest(env, image, arch).Success?
    && (forall q :: q in Ancestry(KitDir(base, image, arch)) ==> IsDir(fs, q))
    && (forall q :: q in Ancestry(CacheDir(base)) ==> IsDir(fs, q))
    && Exists(fs, ArchivePath(KitArchive(image, GetManifest(env, image, arch).value, base)))
    && Claims(env.codec, fs, KitDir(base, image, arch), GetManifest(env, image, arch).value.digest)
  }

  /** With everything in place, extraction is a no-op. */
  lemma ExtractKitAgain(env: Env, fs: FileSystem, base: Path, image: LockedImage, arch: string)
    requires KitInPlace(env, fs, base, image, arch)
    ensures ExtractKit(env, fs, base, image, arch) == Effect(fs, Success(()))
  {
  }

  /** A successful extraction puts everything in place. */
  lemma ExtractKitLeavesCache(env: Env, fs: FileSystem, base: Path, image: LockedImage, arch: string)
    requires Plain(image.vendor) && Plain(image.name) && Plain(arch)
    requires ExtractKit(env, fs, base, image, arch).result.Success?
    requires Plain(GetManifest(env, image, arch).value.digest)
    requires var d := GetManifest(env, image, arch).value.digest;
             env.codec.decodeText(env.codec.encodeText(d)) == Some(d)
    ensures KitInPlace(env, ExtractKit(env, fs, base, image, arch).fs, base, image, arch)
  {
    var target := KitDir(base, image, arch);
    var cache := CacheDir(base);
    var manifest := GetManifest(env, image, arch).value;
    var a := KitArchive(image, manifest, base);
    var madeTarget := CreateDirAll(fs, target);
    var madeCache := CreateDirAll(madeTarget.fs, cache);
    var pulled := PullImage(env, madeCache.fs, a);
    var unpacked := UnpackLayers(env, pulled.fs, a, target);
    assert unpacked == ExtractKit(env, fs, base, image, arch);
    ArchiveOutsideKitDir(base, image, arch, manifest);
    KitDirLayout(base, image, arch);
    ArchivePathEscapes(a);
    DirsStay(madeTarget.fs, madeCache.fs, Ancestry(target));
    DirsStay(madeTarget.fs, pulled.fs, Ancestry(target));
    DirsStay(madeCache.fs, pulled.fs, Ancestry(cache));
    DirsStayOutside(pulled.fs, unpacked.fs, Ancestry(cache), target);
    ArchiveSurvives(pulled.fs, unpacked.fs, a, target);
  }

  /** Directories stay directories across a step that only adds directories
      and puts no new file on an old directory. */
  lemma DirsStay(before: FileSystem, after: FileSystem, qs: set<Path>)
    requires forall q :: q in qs ==> IsDir(before, q)
    requires before.dirs <= after.dirs
    requires forall q :: q in after.files && q !in before.files ==> q !in before.dirs
    ensures forall q :: q in qs ==> IsDir(after, q)
  {
  }

  /** Directories outside `out` stay directories across an unpack into `out`. */
  lemma DirsStayOutside(before: FileSystem, after: FileSystem, qs: set<Path>, out: Path)
    requires forall q :: q in qs ==> IsDir(before, q) && !Within(q, out)
    requires forall q :: q in before.dirs && !Within(q, out) ==> q in after.dirs
    requires forall q :: !Within(q, out) ==> (q in after.files <==> q in before.files)
    ensures forall q :: q in qs ==> IsDir(after, q)
  {
  }

  /** The pulled archive is still present after an unpack elsewhere. */
  lemma ArchiveSurvives(pulled: FileSystem, after: FileSystem, a: OCIArchive, target: Path)
    requires |ArchivePath(a)| > 0 && !Within(ArchivePath(a), target)
    requires Exists(pulled, ArchivePath(a))
    requires forall q :: q in pulled.dirs && !Within(q, target) ==> q in after.dirs
    requires forall q :: !Within(q, target) ==> (q in after.files <==> q in pulled.files)
    ensures Exists(after, ArchivePath(a))
  {
  }

  /** `external_kit_metadata`. */
  function ExternalOf(lock: Lock): ExternalKitMetadata {
    ExternalKitMetadata(lock.sdk, lock.kit)
  }

  /** The tail of `fetch`: write the metadata file unless it already holds
      exactly these bytes. */
  function WriteMetadata(fs: FileSystem, file: Path, bytes: Bytes): (e: Effect<()>)
    ensures file in fs.files && fs.files[file] == bytes ==> e == Effect(fs, Success(()))
    ensures e.result.Success? ==> file in e.fs.files && e.fs.files[file] == bytes
    ensures e.result.Success? <==> file !in fs.dirs || (file in fs.files && fs.files[file] == bytes)
    ensures forall q :: q != file ==> (q in e.fs.files <==> q in fs.files)
    ensures forall q :: q != file && q in fs.files ==> e.fs.files[q] == fs.files[q]
    ensures e.fs.dirs == fs.dirs
  {
    if Exists(fs, file) then
      match Read(fs, file)
      case Failure(err) => Effect(fs, Failure(err))
      case Success(existing) =>
        if existing == bytes then Effect(fs, Success(())) else Write(fs, file, bytes)
    else Write(fs, file, bytes)
  }

  /** No kit after the `i`-th writes where the `i`-th kit's marker lies. */
  predicate Undisturbed(env: Env, base: Path, kits: seq<LockedImage>, arch: string, i: nat)
    requires i < |kits|
  {
    forall j :: i < j < |kits| ==> Spared(env, base, kits[j], arch, MarkerPath(KitDir(base, kits[i], arch)))
  }

  /** With plain names, no later kit sharing the `i`-th kit's vendor and name,
      and that vendor not called `cache`, no later kit disturbs the `i`-th
      kit's marker. */
  lemma PlainKitsUndisturbed(env: Env, base: Path, kits: seq<LockedImage>, arch: string, i: nat)
    requires i < |kits|
    requires Plain(arch) && forall j :: 0 <= j < |kits| ==> Plain(kits[j].vendor) && Plain(kits[j].name)
    requires kits[i].vendor != "cache"
    requires forall j :: i < j < |kits| ==> (kits[j].vendor, kits[j].name) != (kits[i].vendor, kits[i].name)
    requires forall j :: i < j < |kits| && GetManifest(env, kits[j], arch).Success? ==>
               Plain(GetManifest(env, kits[j], arch).value.digest)
    ensures Undisturbed(env, base, kits, arch, i)
  {
    var m := MarkerPath(KitDir(base, kits[i], arch));
    KitDirLayout(base, kits[i], arch);
    assert m == base + [kits[i].vendor, kits[i].name, arch, MarkerName];
    forall j | i < j < |kits| ensures Spared(env, base, kits[j], arch, m) {
      var kj := KitDir(base, kits[j], arch);
      KitDirLayout(base, kits[j], arch);
      assert m[..|kj|][|base|] == kits[i].vendor && kj[|base|] == kits[j].vendor;
      assert m[..|kj|][|base| + 1] == kits[i].name && kj[|base| + 1] == kits[j].name;
      if GetManifest(env, kits[j], arch).Success? {
        var a := KitArchive(kits[j], GetManifest(env, kits[j], arch).value, base);
        ArchivePathEscapes(a);
        assert ArchivePath(a)[|base|] == "cache";
        assert |ArchivePath(a)| <= |m| ==> m[..|ArchivePath(a)|][|base|] == kits[i].vendor;
      }
    }
  }

  /** Extract the kits one after the other, stopping at the first failure. */
  function ExtractKits(env: Env, fs: FileSystem, base: Path, kits: seq<LockedImage>, arch: string): (e: Effect<()>)
    ensures e.result.Success? ==> forall i :: 0 <= i < |kits| ==> GetManifest(env, kits[i], arch).Success?
    ensures forall q :: (forall j :: 0 <= j < |kits| ==> Spared(env, base, kits[j], arch, q)) ==> SameAt(fs, e.fs, q)
    ensures e.result.Success? ==>
              forall i :: 0 <= i < |kits| && Undisturbed(env, base, kits, arch, i) ==>
                var d := GetManifest(env, kits[i], arch).value.digest;
                env.codec.decodeText(env.codec.encodeText(d)) == Some(d) ==> Claims(env.codec, e.fs, KitDir(base, kits[i], arch), d)
    decreases |kits|
  {
    if |kits| == 0 then Effect(fs, Success(()))
    else
      var first := ExtractKit(env, fs, base, kits[0], arch);
      if first.result.Failure? then first
      else
        var rest := ExtractKits(env, first.fs, base, kits[1..], arch);
        assert forall i :: 1 <= i < |kits| ==> kits[i] == kits[1..][i - 1];
        ExtractKitsFrameStep(env, fs, first.fs, rest.fs, base, kits, arch);
        if rest.result.Failure? then rest
        else
          ExtractKitsClaimsStep(env, first.fs, rest.fs, base, kits, arch);
          rest
  }

  /** The step case of `ExtractKits`' frame: `first` is the state after the
      first kit, `rest` after the others. */
  lemma ExtractKitsFrameStep(env: Env, fs: FileSystem, first: FileSystem, rest: FileSystem, base: Path,
                             kits: seq<LockedImage>, arch: string)
    requires |kits| > 0
    requires forall q :: Spared(env, base, kits[0], arch, q) ==> SameAt(fs, first, q)
    requires forall q :: (forall j :: 0 <= j < |kits[1..]| ==> Spared(env, base, kits[1..][j], arch, q)) ==>
               SameAt(first, rest, q)
    ensures forall q :: (forall j :: 0 <= j < |kits| ==> Spared(env, base, kits[j], arch, q)) ==> SameAt(fs, rest, q)
  {
    forall q | forall j :: 0 <= j < |kits| ==> Spared(env, base, kits[j], arch, q)
      ensures SameAt(fs, rest, q)
    {
      assert Spared(env, base, kits[0], arch, q);
      forall j | 0 <= j < |kits[1..]| ensures Spared(env, base, kits[1..][j], arch, q) {
        assert kits[1..][j] == kits[j + 1];
      }
      assert SameAt(fs, first, q) && SameAt(first, rest, q);
    }
  }

  /** The step case of `ExtractKits`' claims. */
  lemma ExtractKitsClaimsStep(env: Env, first: FileSystem, rest: FileSystem, base: Path,
                              kits: seq<LockedImage>, arch: string)
    requires |kits| > 0
    requires forall i :: 0 <= i < |kits| ==> GetManifest(env, kits[i], arch).Success?
    requires var d := GetManifest(env, kits[0], arch).value.digest;
             env.codec.decodeText(env.codec.encodeText(d)) == Some(d) ==> Claims(env.codec, first, KitDir(base, kits[0], arch), d)
    requires forall q :: (forall j :: 0 <= j < |kits[1..]| ==> Spared(env, base, kits[1..][j], arch, q)) ==>
               SameAt(first, rest, q)
    requires forall i :: 0 <= i < |kits[1..]| && Undisturbed(env, base, kits[1..], arch, i) ==>
               var d := GetManifest(env, kits[1..][i], arch).value.digest;
               env.codec.decodeText(env.codec.encodeText(d)) == Some(d) ==> Claims(env.codec, rest, KitDir(base, kits[1..][i], arch), d)
    ensures forall i :: 0 <= i < |kits| && Undisturbed(env, base, kits, arch, i) ==>
              var d := GetManifest(env, kits[i], arch).value.digest;
              env.codec.decodeText(env.codec.encodeText(d)) == Some(d) ==> Claims(env.codec, rest, KitDir(base, kits[i], arch), d)
  {
    forall i | 0 <= i < |kits| && Undisturbed(env, base, kits, arch, i)
      ensures var d := GetManifest(env, kits[i], arch).value.digest;
              env.codec.decodeText(env.codec.encodeText(d)) == Some(d) ==> Claims(env.codec, rest, KitDir(base, kits[i], arch), d)
    {
      var m := MarkerPath(KitDir(base, kits[i], arch));
      if i == 0 {
        forall j | 0 <= j < |kits[1..]| ensures Spared(env, base, kits[1..][j], arch, m) {
          assert kits[1..][j] == kits[j + 1];
        }
        assert SameAt(first, rest, m);
      } else {
        assert kits[1..][i - 1] == kits[i];
        forall j | i - 1 < j < |kits[1..]| ensures Spared(env, base, kits[1..][j], arch, m) {
          assert kits[1..][j] == kits[j + 1];
        }
        assert Undisturbed(env, base, kits[1..], arch, i - 1);
      }
    }
  }

  /** `Lock::fetch`: create the external-kits directory, extract every locked
      kit for `arch`, then record the SDK and kits in canonical form. */
  function Fetch(env: Env, fs: FileSystem, lock: Lock, project: Project, arch: string): (e: Effect<()>)
    ensures e.result.Success? ==>
              && project.externalKitsMetadata in e.fs.files
              && e.fs.files[project.externalKitsMetadata] == env.codec.serializeExternal(ExternalOf(lock))
    ensures e.result.Success? ==> forall i :: 0 <= i < |lock.kit| ==> GetManifest(env, lock.kit[i], arch).Success?
    ensures e.result.Success? ==>
              forall i :: && 0 <= i < |lock.kit|
                          && Undisturbed(env, project.externalKitsDir, lock.kit, arch, i)
                          && MarkerPath(KitDir(project.externalKitsDir, lock.kit[i], arch)) != project.externalKitsMetadata ==>
                var d := GetManifest(env, lock.kit[i], arch).value.digest;
                env.codec.decodeText(env.codec.encodeText(d)) == Some(d) ==>
                  Claims(env.codec, e.fs, KitDir(project.externalKitsDir, lock.kit[i], arch), d)
    ensures Ancestry(project.externalKitsDir) * fs.files.Keys != {} ==> e == Effect(fs, Failure(NotADirectory(project.externalKitsDir)))
  {
    var made := CreateDirAll(fs, project.externalKitsDir);
    if made.result.Failure? then Effect(fs, made.result)
    else
      var extracted := ExtractKits(env, made.fs, project.externalKitsDir, lock.kit, arch);
      if extracted.result.Failure? then extracted
      else WriteMetadata(extracted.fs, project.externalKitsMetadata, env.codec.serializeExternal(ExternalOf(lock)))
  }

  /** Writing the metadata a second time with the same bytes does nothing. */
  lemma WriteMetadataTwiceIsNoop(fs: FileSystem, file: Path, bytes: Bytes)
    requires WriteMetadata(fs, file, bytes).result.Success?
    ensures var fs' := WriteMetadata(fs, file, bytes).fs;
            WriteMetadata(fs', file, bytes) == Effect(fs', Success(()))
  {
  }

  /** The lock as stored: the file must exist, read as text, parse, and carry
      the one accepted schema version. */
  function Stored(env: Env, fs: FileSystem, project: Project): (r: Result<Lock>)
    ensures !Exists(fs, LockPath(project)) ==> r == Failure(LockFileMissing)
    ensures r.Success? ==> r.value.schemaVersion == LockSchemaVersion
    ensures r.Success? <==>
              && LockPath(project) in fs.files
              && env.codec.decodeText(fs.files[LockPath(project)]).Some?
              && var parsed := env.codec.parseLock(env.codec.decodeText(fs.files[LockPath(project)]).value);
                 parsed.Some? && parsed.value.schemaVersion == LockSchemaVersion
  {
    var path := LockPath(project);
    if !Exists(fs, path) then Failure(LockFileMissing)
    else if path !in fs.files then Failure(LockFileUnreadable)
    else
      match env.codec.decodeText(fs.files[path])
      case None => Failure(LockFileUnreadable)
      case Some(text) =>
        match env.codec.parseLock(text)
        case None => Failure(LockFileMalformed)
        case Some(lock) =>
          if lock.schemaVersion != LockSchemaVersion then Failure(LockFileMalformed) else Success(lock)
  }

  /** `Lock::load`: the stored lock, provided a current resolution of the project
      equals it under `Lock`'s equality. */
  function Load(env: Env, fs: FileSystem, project: Project): (r: Result<Lock>)
    ensures r.Success? <==> && Stored(env, fs, project).Success?
                            && ResolveFn(env, project).Success?
                            && LockEq(ResolveFn(env, project).value, Stored(env, fs, project).value)
    ensures r.Success? ==> r.value == Stored(env, fs, project).value
    ensures Stored(env, fs, project).Success? && ResolveFn(env, project).Success? && r.Failure?
            ==> r.error == LockOutdated
  {
    var stored :- Stored(env, fs, project);
    var current :- ResolveFn(env, project);
    if !LockEq(current, stored) then Failure(LockOutdated) else Success(stored)
  }

  /** `Lock::create`: resolve and write the serialized lock. */
  function Create(env: Env, fs: FileSystem, project: Project): (e: Effect<Lock>)
    ensures e.result.Success? <==> ResolveFn(env, project).Success? && LockPath(project) !in fs.dirs
    ensures e.result.Success? ==> e.result.value == ResolveFn(env, project).value
    ensures e.result.Success? ==>
              && LockPath(project) in e.fs.files
              && e.fs.files[LockPath(project)] == env.codec.encodeText(env.codec.serializeLock(e.result.value))
  {
    match ResolveFn(env, project)
    case Failure(err) => Effect(fs, Failure(err))
    case Success(lock) =>
      var written := Write(fs, LockPath(project), env.codec.encodeText(env.codec.serializeLock(lock)));
      if written.result.Failure? then Effect(written.fs, Failure(written.result.error))
      else Effect(written.fs, Success(lock))
  }

  /** The text and TOML codecs carry a lock back to itself, less the manifests
      serialization skips. */
  predicate RoundTrips(codec: Codec, lock: Lock) {
    && codec.decodeText(codec.encodeText(codec.serializeLock(lock))) == Some(codec.serializeLock(lock))
    && codec.parseLock(codec.serializeLock(lock)) == Some(StrippedLock(lock))
  }

  /** A lock just created loads back (without its manifests) as long as the
      registry has not changed. */
  lemma CreateThenLoad(env: Env, fs: FileSystem, project: Project)
    requires Create(env, fs, project).result.Success?
    requires RoundTrips(env.codec, Create(env, fs, project).result.value)
    ensures Load(env, Create(env, fs, project).fs, project) == Success(StrippedLock(Create(env, fs, project).result.value))
  {
    var lock := Create(env, fs, project).result.value;
    var fs' := Create(env, fs, project).fs;
    ResolvedSchema(env, project);
    StrippedLockEq(lock);
    assert Stored(env, fs', project) == Success(StrippedLock(lock));
  }

  /** Only the identity of the stored lock matters to `load`: two stored locks
      with the same schema, sources and digests load or fail together, and
      a stored lock loads as written even when its names, versions or vendors
      were edited. */
  lemma LoadJudgesIdentityOnly(env: Env, fs1: FileSystem, fs2: FileSystem, project: Project)
    requires Stored(env, fs1, project).Success? && Stored(env, fs2, project).Success?
    requires LockIdentity(Stored(env, fs1, project).value) == LockIdentity(Stored(env, fs2, project).value)
    ensures Load(env, fs1, project).Success? <==> Load(env, fs2, project).Success?
    ensures Load(env, fs2, project).Success? ==> Load(env, fs2, project).value == Stored(env, fs2, project).value
  {
    var s1 := Stored(env, fs1, project).value;
    var s2 := Stored(env, fs2, project).value;
    if ResolveFn(env, project).Success? {
      var current := ResolveFn(env, project).value;
      LockEqIsIdentityEq(current, s1);
      LockEqIsIdentityEq(current, s2);
    }
  }

  /** A stored lock whose kit list pins some kit to another digest than a
      current resolution does is outdated. */
  lemma RepinnedKitIsOutdated(env: Env, fs: FileSystem, project: Project, i: int)
    requires Stored(env, fs, project).Success? && ResolveFn(env, project).Success?
    requires 0 <= i < |Stored(env, fs, project).value.kit| && 0 <= i < |ResolveFn(env, project).value.kit|
    requires Stored(env, fs, project).value.kit[i].digest != ResolveFn(env, project).value.kit[i].digest
    ensures Load(env, fs, project) == Failure(LockOutdated)
  {
  }
}
