/** The content-addressed cache of kit images: an `OCIArchive` is one
    platform manifest of a locked kit, pulled once into a cache directory named
    after its digest, and unpacked into an output directory that records the
    digest it holds in a `digest` marker file, written last. */
module Archive {
  import opened Text
  import opened Images
  import opened Results
  import opened Files
  import opened Remote

  const Sha256Prefix: string := "sha256:"

  /** A layer digest as deserialized: always `sha256:`-prefixed. */
  datatype ContainerDigest = ContainerDigest(value: string)

  /** `ContainerDigest`'s deserializer. */
  function ParseContainerDigest(s: string): (r: Result<ContainerDigest>)
    ensures r.Success? <==> StartsWith(s, Sha256Prefix)
    ensures r.Success? ==> r.value.value == s
    ensures r.Failure? ==> r.error == InvalidLayerDigest(s)
  {
    if StartsWith(s, Sha256Prefix) then Success(ContainerDigest(s)) else Failure(InvalidLayerDigest(s))
  }

  /** The layer list of a `ManifestLayoutView`: deserialization fails at the
      first invalid digest. */
  function ParseLayers(ds: seq<string>): (r: Result<seq<ContainerDigest>>)
    ensures r.Success? <==> forall i :: 0 <= i < |ds| ==> StartsWith(ds[i], Sha256Prefix)
    ensures r.Success? ==> |r.value| == |ds| && forall i :: 0 <= i < |ds| ==> r.value[i].value == ds[i]
    ensures r.Failure? ==> exists i :: 0 <= i < |ds| && !StartsWith(ds[i], Sha256Prefix)
                                       && r.error == InvalidLayerDigest(ds[i])
                                       && forall j :: 0 <= j < i ==> StartsWith(ds[j], Sha256Prefix)
    decreases |ds|
  {
    if |ds| == 0 then Success([])
    else
      var d :- ParseContainerDigest(ds[0]);
      var rest :- ParseLayers(ds[1..]);
      assert forall i :: 1 <= i < |ds| ==> ds[i] == ds[1..][i - 1];
      Success([d] + rest)
  }

  datatype OCIArchive = OCIArchive(image: LockedImage, digest: string, cacheDir: Path)

  /** The directory the archive is cached in: the digest with `:` escaped to `-`. */
  function ArchivePath(a: OCIArchive): Path {
    Join(a.cacheDir, Replace(a.digest, ":", "-"))
  }

  /** A blob of the cached OCI layout, `blobs/ALGORITHM/HEX`. */
  function BlobPath(a: OCIArchive, digest: string): Path {
    Join(ArchivePath(a), "blobs/" + Replace(digest, ":", "/"))
  }

  /** The components the archive path adds hold no `:`; for a digest that is
      one non-empty slash-free component, the path is exactly one component
      below the cache directory. */
  lemma ArchivePathEscapes(a: OCIArchive)
    ensures forall i :: 0 <= i < |Components(Replace(a.digest, ":", "-"))| ==>
              ':' !in Components(Replace(a.digest, ":", "-"))[i]
    ensures |a.digest| > 0 && '/' !in a.digest ==>
              ArchivePath(a) == a.cacheDir + [Replace(a.digest, ":", "-")]
              && ':' !in ArchivePath(a)[|ArchivePath(a)| - 1]
  {
    var escaped := Replace(a.digest, ":", "-");
    ReplaceCharRemoves(a.digest, ':', "-");
    SplitFromChars(escaped, "", ':');
    if |a.digest| > 0 && '/' !in a.digest {
      ReplaceChars(a.digest, ":", "-", '/');
      assert |escaped| > 0 by { ReplaceKeepsNonEmpty(a.digest, ":", "-"); }
      assert escaped[0] != '/';
      ComponentsOfPlain(escaped);
    }
  }

  lemma ReplaceKeepsNonEmpty(s: string, from: string, to: string)
    requires |from| > 0 && |to| > 0 && |s| > 0
    ensures |Replace(s, from, to)| > 0
  {
  }

  /** Two archives of one cache directory with non-empty slash-free digests
      share an archive path exactly when their escaped digests are equal, so
      only digests that differ solely in `:` against `-` collide. */
  lemma ArchivePathInjective(a: OCIArchive, b: OCIArchive)
    requires a.cacheDir == b.cacheDir
    requires |a.digest| > 0 && '/' !in a.digest && |b.digest| > 0 && '/' !in b.digest
    ensures ArchivePath(a) == ArchivePath(b) <==> Replace(a.digest, ":", "-") == Replace(b.digest, ":", "-")
  {
    ArchivePathEscapes(a);
    ArchivePathEscapes(b);
    JoinCancels(a.cacheDir, [Replace(a.digest, ":", "-")], [Replace(b.digest, ":", "-")]);
  }

  /** A `sha256:HEX` digest names the blob `blobs/sha256/HEX` of the archive. */
  lemma BlobPathOfSha256(a: OCIArchive, hex: string)
    requires |hex| > 0 && '/' !in hex && ':' !in hex
    ensures BlobPath(a, Sha256Prefix + hex) == ArchivePath(a) + ["blobs", "sha256", hex]
  {
    Sha256Unescaped(hex);
    assert "blobs/" + ("sha256/" + hex) == "blobs" + "/" + ("sha256" + "/" + hex);
    BlobComponents(hex);
  }

  lemma Sha256Unescaped(hex: string)
    requires ':' !in hex
    ensures Replace(Sha256Prefix + hex, ":", "/") == "sha256/" + hex
  {
    var alg := "sha256";
    assert Sha256Prefix + hex == alg + [':'] + hex;
    assert ':' !in alg;
    ReplaceSeparator(alg, hex, ':', "/");
    assert alg + "/" + hex == "sha256/" + hex;
  }

  lemma BlobComponents(hex: string)
    requires |hex| > 0 && '/' !in hex
    ensures Components("blobs" + "/" + ("sha256" + "/" + hex)) == ["blobs", "sha256", hex]
  {
    ComponentsOfJoin("blobs", "sha256" + "/" + hex);
    ComponentsOfJoin("sha256", hex);
    ComponentsOfPlain(hex);
  }

  /** `pull_image`: when nothing exists at the archive path, create it and have
      the registry write the OCI layout of the digest reference into it;
      otherwise do nothing. */
  function PullImage(env: Env, fs: FileSystem, a: OCIArchive): (e: Effect<()>)
    ensures Exists(fs, ArchivePath(a)) ==> e == Effect(fs, Success(()))
    ensures !Exists(fs, ArchivePath(a)) && e.result.Success? ==>
              && DigestUri(a.image, a.digest) in env.registry.archives
              && (|ArchivePath(a)| > 0 ==> IsDir(e.fs, ArchivePath(a)))
    ensures !Exists(fs, ArchivePath(a)) && Ancestry(ArchivePath(a)) * fs.files.Keys == {}
            && DigestUri(a.image, a.digest) !in env.registry.archives ==>
              e.result == Failure(ArchiveUnavailable(DigestUri(a.image, a.digest)))
    ensures forall q :: !Within(q, ArchivePath(a)) ==> (q in e.fs.files <==> q in fs.files)
    ensures forall q :: !Within(q, ArchivePath(a)) && q in fs.files ==> e.fs.files[q] == fs.files[q]
    ensures fs.dirs <= e.fs.dirs
    ensures forall q :: q in e.fs.files && q !in fs.files ==> q !in fs.dirs
    ensures !Exists(fs, ArchivePath(a)) && Ancestry(ArchivePath(a)) * fs.files.Keys != {} ==>
              e == Effect(fs, Failure(NotADirectory(ArchivePath(a))))
    ensures !Exists(fs, ArchivePath(a)) && Ancestry(ArchivePath(a)) * fs.files.Keys == {} && |ArchivePath(a)| > 0 ==>
              ArchivePath(a) in e.fs.dirs
  {
    var path := ArchivePath(a);
    if Exists(fs, path) then Effect(fs, Success(()))
    else
      var mk := CreateDirAll(fs, path);
      if mk.result.Failure? then mk
      else
        var uri := DigestUri(a.image, a.digest);
        assert |path| > 0 ==> IsDir(mk.fs, path) by {
          if |path| > 0 {
            assert path == path[..|path|];
          }
        }
        if uri !in env.registry.archives then Effect(mk.fs, Failure(ArchiveUnavailable(uri)))
        else ApplyEntries(mk.fs, path, env.registry.archives[uri])
  }

  /** A second pull of the same archive does nothing. */
  lemma PullTwiceIsNoop(env: Env, fs: FileSystem, a: OCIArchive)
    requires |ArchivePath(a)| > 0
    requires PullImage(env, fs, a).result.Success?
    ensures var fs' := PullImage(env, fs, a).fs;
            PullImage(env, fs', a) == Effect(fs', Success(()))
  {
  }

  /** The cache is poisoned by a failed pull: the archive directory is created
      before the registry call, so when that call fails the empty directory
      stays, and every later pull takes it for a cached archive and skips the
      registry, even one that now serves the image, while the layout it
      should hold (`index.json`) is missing. */
  lemma FailedPullPoisonsCache(env: Env, env': Env, fs: FileSystem, a: OCIArchive)
    requires |ArchivePath(a)| > 0 && Ancestry(ArchivePath(a)) * fs.files.Keys == {}
    requires forall q :: Within(q, ArchivePath(a)) ==> !Exists(fs, q)
    requires DigestUri(a.image, a.digest) !in env.registry.archives
    ensures PullImage(env, fs, a).result.Failure?
    ensures var fs' := PullImage(env, fs, a).fs;
            && PullImage(env', fs', a) == Effect(fs', Success(()))
            && LayerDigests(env'.codec, fs', a).Failure?
  {
    var path := ArchivePath(a);
    assert Within(path, path);
    var mk := CreateDirAll(fs, path);
    assert PullImage(env, fs, a) == Effect(mk.fs, Failure(ArchiveUnavailable(DigestUri(a.image, a.digest))));
    assert Within(path + ["index.json"], path);
  }

  /** `pull_image` as evidently intended: a pull that fails after creating the
      archive directory removes it again, so that nothing half-pulled is ever
      taken for a cached archive. */
  function PullImageOrDiscard(env: Env, fs: FileSystem, a: OCIArchive): (e: Effect<()>)
    ensures Exists(fs, ArchivePath(a)) ==> e == Effect(fs, Success(()))
    ensures e.result == PullImage(env, fs, a).result
    ensures e.result.Success? ==> e == PullImage(env, fs, a)
    ensures |ArchivePath(a)| > 0 && !Exists(fs, ArchivePath(a)) && e.result.Failure? ==> !Exists(e.fs, ArchivePath(a))
    ensures forall q :: !Within(q, ArchivePath(a)) ==> (q in e.fs.files <==> q in fs.files)
    ensures forall q :: !Within(q, ArchivePath(a)) && q in fs.files ==> e.fs.files[q] == fs.files[q]
    ensures forall q :: q in fs.dirs && !Within(q, ArchivePath(a)) ==> q in e.fs.dirs
  {
    var pulled := PullImage(env, fs, a);
    if pulled.result.Success? then pulled
    else
      var discarded := RemoveDirAll(pulled.fs, ArchivePath(a));
      assert Within(ArchivePath(a), ArchivePath(a));
      Effect(discarded.fs, pulled.result)
  }

  /** After a failed pull of the corrected kind, the next pull goes back to the
      registry: it succeeds only if the registry serves the archive. */
  lemma RetryAfterFailedPull(env: Env, env': Env, fs: FileSystem, a: OCIArchive)
    requires |ArchivePath(a)| > 0 && !Exists(fs, ArchivePath(a))
    requires PullImageOrDiscard(env, fs, a).result.Failure?
    ensures var fs' := PullImageOrDiscard(env, fs, a).fs;
            PullImageOrDiscard(env', fs', a).result.Success? ==> DigestUri(a.image, a.digest) in env'.registry.archives
  {
    var fs' := PullImageOrDiscard(env, fs, a).fs;
    assert !Exists(fs', ArchivePath(a));
  }

  /** The name of the marker file in an output directory. */
  const MarkerName: string := "digest"

  function MarkerPath(out: Path): Path {
    out + [MarkerName]
  }

  /** The marker records `digest`. */
  ghost predicate Claims(codec: Codec, fs: FileSystem, out: Path, digest: string) {
    MarkerPath(out) in fs.files && codec.decodeText(fs.files[MarkerPath(out)]) == Some(digest)
  }

  /** The marker check of `unpack_layers`: no marker, or a marker that reads as
      text and matches or not; a marker that cannot be read as text is an error. */
  function MarkerMatches(codec: Codec, fs: FileSystem, out: Path, digest: string): (r: Result<bool>)
    ensures r == Success(true) <==> Claims(codec, fs, out, digest)
    ensures !Exists(fs, MarkerPath(out)) ==> r == Success(false)
  {
    var marker := MarkerPath(out);
    if !Exists(fs, marker) then Success(false)
    else
      var bytes :- Read(fs, marker);
      match codec.decodeText(bytes)
      case None => Failure(NotText(marker))
      case Some(text) => Success(text == digest)
  }

  /** The layer digests of the archive: the first manifest of `index.json`,
      its blob, and the layers listed there. */
  function LayerDigests(codec: Codec, fs: FileSystem, a: OCIArchive): (r: Result<seq<ContainerDigest>>)
    ensures r.Success? ==> forall i :: 0 <= i < |r.value| ==> StartsWith(r.value[i].value, Sha256Prefix)
    ensures ArchivePath(a) + ["index.json"] !in fs.files ==> r.Failure?
    ensures r.Success? ==>
              var index := ArchivePath(a) + ["index.json"];
              && index in fs.files
              && codec.parseIndex(fs.files[index]).Some?
              && |codec.parseIndex(fs.files[index]).value| > 0
              && var blob := BlobPath(a, codec.parseIndex(fs.files[index]).value[0].digest);
                 && blob in fs.files
                 && codec.parseLayout(fs.files[blob]).Some?
                 && var listed := codec.parseLayout(fs.files[blob]).value;
                    |r.value| == |listed| && forall i :: 0 <= i < |listed| ==> r.value[i].value == listed[i]
    ensures var index := ArchivePath(a) + ["index.json"];
            index in fs.files && codec.parseIndex(fs.files[index]) == Some([]) ==> r == Failure(EmptyImage)
  {
    var indexBytes :- Read(fs, ArchivePath(a) + ["index.json"]);
    match codec.parseIndex(indexBytes)
    case None => Failure(BadIndex)
    case Some(index) =>
      if |index| == 0 then Failure(EmptyImage)
      else
        var manifestBytes :- Read(fs, BlobPath(a, index[0].digest));
        match codec.parseLayout(manifestBytes)
        case None => Failure(BadLayout)
        case Some(layers) => ParseLayers(layers)
  }

  /** Blobs lie inside the archive directory. */
  lemma BlobWithin(a: OCIArchive, digest: string)
    ensures Within(BlobPath(a, digest), ArchivePath(a))
  {
    var rel := "blobs/" + Replace(digest, ":", "/");
    assert rel[0] == 'b';
    assert !StartsWith(rel, "/");
  }

  /** The two states agree on everything inside the archive directory. */
  ghost predicate SameArchive(fs1: FileSystem, fs2: FileSystem, a: OCIArchive) {
    forall q :: Within(q, ArchivePath(a)) ==> SameAt(fs1, fs2, q)
  }

  /** The layer list depends on the files of the archive directory alone
      (only the kind of error may differ, with the directories). */
  lemma LayerDigestsFrame(codec: Codec, fs1: FileSystem, fs2: FileSystem, a: OCIArchive)
    requires SameArchive(fs1, fs2, a)
    ensures LayerDigests(codec, fs1, a).Success? ==> LayerDigests(codec, fs2, a) == LayerDigests(codec, fs1, a)
  {
    var index := ArchivePath(a) + ["index.json"];
    assert Within(index, ArchivePath(a));
    if index in fs1.files && codec.parseIndex(fs1.files[index]).Some? && |codec.parseIndex(fs1.files[index]).value| > 0 {
      BlobWithin(a, codec.parseIndex(fs1.files[index]).value[0].digest);
    }
  }

  /** The entries of each layer blob, in layer order, when every blob is
      present and unpacks. */
  function LayerFiles(codec: Codec, fs: FileSystem, a: OCIArchive, layers: seq<ContainerDigest>): Option<seq<seq<Entry>>>
    decreases |layers|
  {
    if |layers| == 0 then Some([])
    else
      var blob := BlobPath(a, layers[0].value);
      if blob !in fs.files || codec.untar(fs.files[blob]).None? then None
      else
        match LayerFiles(codec, fs, a, layers[1..])
        case None => None
        case Some(rest) => Some([codec.untar(fs.files[blob]).value] + rest)
  }

  /** The layer entries depend on the archive directory alone. */
  lemma {:induction false} LayerFilesFrame(codec: Codec, fs1: FileSystem, fs2: FileSystem, a: OCIArchive,
                                           layers: seq<ContainerDigest>)
    requires SameArchive(fs1, fs2, a)
    ensures LayerFiles(codec, fs1, a, layers) == LayerFiles(codec, fs2, a, layers)
    decreases |layers|
  {
    if |layers| > 0 {
      BlobWithin(a, layers[0].value);
      LayerFilesFrame(codec, fs1, fs2, a, layers[1..]);
    }
  }

  /** All entries of the archive's image, lowest layer first, when its layer
      list and every layer can be read. */
  function ArchiveEntries(codec: Codec, fs: FileSystem, a: OCIArchive): Option<seq<Entry>> {
    match LayerDigests(codec, fs, a)
    case Failure(_) => None
    case Success(layers) =>
      match LayerFiles(codec, fs, a, layers)
      case None => None
      case Some(archives) => Some(Concat(archives))
  }

  /** Untar each layer blob over `out`, in order, stopping at the first failure. */
  function ExtractLayers(codec: Codec, fs: FileSystem, a: OCIArchive, out: Path,
                         layers: seq<ContainerDigest>): (e: Effect<()>)
    ensures e.fs.dirs == fs.dirs
    ensures forall q :: q in e.fs.files && q !in fs.files ==> q !in fs.dirs
    ensures forall q :: !Within(q, out) ==> (q in e.fs.files <==> q in fs.files)
    ensures forall q :: !Within(q, out) && q in fs.files ==> e.fs.files[q] == fs.files[q]
    decreases |layers|
  {
    if |layers| == 0 then Effect(fs, Success(()))
    else
      var blob := BlobPath(a, layers[0].value);
      match Read(fs, blob)
      case Failure(err) => Effect(fs, Failure(err))
      case Success(bytes) =>
        match codec.untar(bytes)
        case None => Effect(fs, Failure(BadLayer(blob)))
        case Some(entries) =>
          var applied := ApplyEntries(fs, out, entries);
          if applied.result.Failure? then applied
          else ExtractLayers(codec, applied.fs, a, out, layers[1..])
  }

  /** A successful extraction overlays the layers' entries on `out` in layer
      order, the last writer winning, when the archive lies apart from `out`. */
  lemma {:induction false} ExtractLayersOverlays(codec: Codec, fs: FileSystem, a: OCIArchive, out: Path,
                                                 layers: seq<ContainerDigest>)
    requires Apart(ArchivePath(a), out)
    requires ExtractLayers(codec, fs, a, out, layers).result.Success?
    ensures LayerFiles(codec, fs, a, layers).Some?
    ensures Overlaid(fs, ExtractLayers(codec, fs, a, out, layers).fs, out, Concat(LayerFiles(codec, fs, a, layers).value))
    decreases |layers|
  {
    if |layers| == 0 {
      forall rel ensures LastWrite([], rel).None? {
      }
    } else {
      var blob := BlobPath(a, layers[0].value);
      var entries := codec.untar(fs.files[blob]).value;
      var applied := ApplyEntries(fs, out, entries);
      var e := ExtractLayers(codec, applied.fs, a, out, layers[1..]);
      assert e == ExtractLayers(codec, fs, a, out, layers);
      ExtractLayersOverlays(codec, applied.fs, a, out, layers[1..]);
      forall q | Within(q, ArchivePath(a)) ensures SameAt(fs, applied.fs, q) {
        ApartWithin(ArchivePath(a), out, q);
      }
      LayerFilesFrame(codec, fs, applied.fs, a, layers[1..]);
      var rest := LayerFiles(codec, fs, a, layers[1..]).value;
      assert LayerFiles(codec, fs, a, layers).value == [entries] + rest;
      assert ([entries] + rest)[1..] == rest;
      ApplyEntriesOverlays(fs, out, entries);
      OverlaidCompose(fs, applied.fs, e.fs, out, entries, Concat(rest));
    }
  }

  /** Besides the marker, `out` holds exactly the paths the entries name, each
      with the contents of the last entry naming it. */
  ghost predicate HoldsExactly(fs: FileSystem, out: Path, entries: seq<Entry>) {
    forall rel :: rel != [MarkerName] ==>
      && (LastWrite(entries, rel).Some? ==>
            out + rel in fs.files && fs.files[out + rel] == LastWrite(entries, rel).value)
      && (LastWrite(entries, rel).None? ==> out + rel !in fs.files)
  }

  /** No layer the codec can unpack holds a file at relative path `rel`. */
  ghost predicate NoLayerWrites(codec: Codec, rel: Path) {
    forall b :: codec.untar(b).Some? ==> !Touches(codec.untar(b).value, rel)
  }

  /** A path no layer holds is left as it was by the extraction. */
  lemma {:induction false} ExtractLayersLeaves(codec: Codec, fs: FileSystem, a: OCIArchive, out: Path,
                                               layers: seq<ContainerDigest>, rel: Path)
    requires NoLayerWrites(codec, rel)
    ensures var e := ExtractLayers(codec, fs, a, out, layers);
            && (out + rel in e.fs.files <==> out + rel in fs.files)
            && (out + rel in fs.files ==> e.fs.files[out + rel] == fs.files[out + rel])
    decreases |layers|
  {
    if |layers| > 0 {
      var blob := BlobPath(a, layers[0].value);
      if Read(fs, blob).Success? && codec.untar(Read(fs, blob).value).Some? {
        var entries := codec.untar(Read(fs, blob).value).value;
        var applied := ApplyEntries(fs, out, entries);
        if applied.result.Success? {
          ExtractLayersLeaves(codec, applied.fs, a, out, layers[1..], rel);
        }
      }
    }
  }

  /** Clear `out`, unpack the layers into it and record the digest last. */
  function UnpackFresh(env: Env, fs: FileSystem, a: OCIArchive, out: Path): (e: Effect<()>)
    ensures e.result.Success? ==> MarkerPath(out) in e.fs.files
                                  && e.fs.files[MarkerPath(out)] == env.codec.encodeText(a.digest)
    ensures e.result.Success? ==> forall q :: q in Ancestry(out) ==> IsDir(e.fs, q)
    ensures forall q :: !Within(q, out) ==> (q in e.fs.files <==> q in fs.files)
    ensures forall q :: !Within(q, out) && q in fs.files ==> e.fs.files[q] == fs.files[q]
    ensures forall q :: q in fs.dirs && !Within(q, out) ==> q in e.fs.dirs
  {
    var cleared := RemoveDirAll(fs, out);
    if cleared.result.Failure? then cleared
    else
      var made := CreateDirAll(cleared.fs, out);
      if made.result.Failure? then made
      else
        match LayerDigests(env.codec, made.fs, a)
        case Failure(err) => Effect(made.fs, Failure(err))
        case Success(layers) =>
          var extracted := ExtractLayers(env.codec, made.fs, a, out, layers);
          if extracted.result.Failure? then extracted
          else
            assert MarkerPath(out) !in extracted.fs.dirs by {
              assert Within(MarkerPath(out), out);
              assert MarkerPath(out) !in Ancestry(out);
            }
            Write(extracted.fs, MarkerPath(out), env.codec.encodeText(a.digest))
  }

  /** A successful fresh unpack leaves in `out` exactly the image's files, each
      as its topmost layer has it, next to the marker. */
  lemma UnpackFreshOverlays(env: Env, fs: FileSystem, a: OCIArchive, out: Path)
    requires Apart(ArchivePath(a), out)
    requires UnpackFresh(env, fs, a, out).result.Success?
    ensures ArchiveEntries(env.codec, fs, a).Some?
    ensures HoldsExactly(UnpackFresh(env, fs, a, out).fs, out, ArchiveEntries(env.codec, fs, a).value)
  {
    var cleared := RemoveDirAll(fs, out);
    var made := CreateDirAll(cleared.fs, out);
    forall q | Within(q, ArchivePath(a)) ensures SameAt(fs, made.fs, q) {
      ApartWithin(ArchivePath(a), out, q);
    }
    LayerDigestsFrame(env.codec, fs, made.fs, a);
    var layers := LayerDigests(env.codec, made.fs, a).value;
    LayerFilesFrame(env.codec, fs, made.fs, a, layers);
    var extracted := ExtractLayers(env.codec, made.fs, a, out, layers);
    ExtractLayersOverlays(env.codec, made.fs, a, out, layers);
    var entries := ArchiveEntries(env.codec, fs, a).value;
    assert Overlaid(made.fs, extracted.fs, out, entries);
    var e := UnpackFresh(env, fs, a, out);
    forall rel | rel != [MarkerName]
      ensures LastWrite(entries, rel).Some? ==> out + rel in e.fs.files && e.fs.files[out + rel] == LastWrite(entries, rel).value
      ensures LastWrite(entries, rel).None? ==> out + rel !in e.fs.files
    {
      assert Within(out + rel, out);
      JoinCancels(out, rel, [MarkerName]);
    }
  }

  /** `unpack_layers`: nothing to do when the marker already records the
      digest; otherwise unpack afresh. */
  function UnpackLayers(env: Env, fs: FileSystem, a: OCIArchive, out: Path): (e: Effect<()>)
    ensures Claims(env.codec, fs, out, a.digest) ==> e == Effect(fs, Success(()))
    ensures e.result.Success? && env.codec.decodeText(env.codec.encodeText(a.digest)) == Some(a.digest)
            ==> Claims(env.codec, e.fs, out, a.digest)
    ensures forall q :: !Within(q, out) ==> (q in e.fs.files <==> q in fs.files)
    ensures forall q :: !Within(q, out) && q in fs.files ==> e.fs.files[q] == fs.files[q]
    ensures forall q :: q in fs.dirs && !Within(q, out) ==> q in e.fs.dirs
    ensures e.result.Success? && (forall q :: q in Ancestry(out) ==> IsDir(fs, q)) ==>
              forall q :: q in Ancestry(out) ==> IsDir(e.fs, q)
  {
    match MarkerMatches(env.codec, fs, out, a.digest)
    case Failure(err) => Effect(fs, Failure(err))
    case Success(matches) =>
      if matches then Effect(fs, Success(())) else UnpackFresh(env, fs, a, out)
  }

  /** When the marker does not already claim the digest, a successful unpack
      leaves in `out` exactly the image's files next to the marker. */
  lemma UnpackLayersOverlays(env: Env, fs: FileSystem, a: OCIArchive, out: Path)
    requires Apart(ArchivePath(a), out)
    requires !Claims(env.codec, fs, out, a.digest)
    requires UnpackLayers(env, fs, a, out).result.Success?
    ensures ArchiveEntries(env.codec, fs, a).Some?
    ensures HoldsExactly(UnpackLayers(env, fs, a, out).fs, out, ArchiveEntries(env.codec, fs, a).value)
  {
    UnpackFreshOverlays(env, fs, a, out);
  }

  /** Unpacking is idempotent: a second unpack after a successful one does
      nothing, provided the digest survives the text encoding. */
  lemma UnpackTwiceIsNoop(env: Env, fs: FileSystem, a: OCIArchive, out: Path)
    requires UnpackLayers(env, fs, a, out).result.Success?
    requires env.codec.decodeText(env.codec.encodeText(a.digest)) == Some(a.digest)
    ensures var fs' := UnpackLayers(env, fs, a, out).fs;
            UnpackLayers(env, fs', a, out) == Effect(fs', Success(()))
  {
  }

  /** A failed unpack never leaves a marker that claims the digest (as long as
      no layer itself ships a top-level `digest` file): the marker is written
      last, after everything it vouches for. */
  lemma FailedUnpackClaimsNothing(env: Env, fs: FileSystem, a: OCIArchive, out: Path)
    requires NoLayerWrites(env.codec, [MarkerName])
    requires UnpackLayers(env, fs, a, out).result.Failure?
    ensures !Claims(env.codec, UnpackLayers(env, fs, a, out).fs, out, a.digest)
  {
    if MarkerMatches(env.codec, fs, out, a.digest) == Success(false) {
      var cleared := RemoveDirAll(fs, out);
      if cleared.result.Success? {
        assert Within(MarkerPath(out), out);
        var made := CreateDirAll(cleared.fs, out);
        if made.result.Success? && LayerDigests(env.codec, made.fs, a).Success? {
          var layers := LayerDigests(env.codec, made.fs, a).value;
          ExtractLayersLeaves(env.codec, made.fs, a, out, layers, [MarkerName]);
        }
      }
    }
  }

  /** A fresh unpack removes whatever the directory held before, except what
      the layers and the marker put back. */
  lemma UnpackClearsStaleFiles(env: Env, fs: FileSystem, a: OCIArchive, out: Path, rel: Path)
    requires MarkerMatches(env.codec, fs, out, a.digest) == Success(false)
    requires UnpackLayers(env, fs, a, out).result.Success?
    requires rel != [MarkerName] && NoLayerWrites(env.codec, rel)
    ensures out + rel !in UnpackLayers(env, fs, a, out).fs.files
  {
    var cleared := RemoveDirAll(fs, out);
    assert Within(out + rel, out);
    var made := CreateDirAll(cleared.fs, out);
    var layers := LayerDigests(env.codec, made.fs, a).value;
    ExtractLayersLeaves(env.codec, made.fs, a, out, layers, rel);
    JoinCancels(out, rel, [MarkerName]);
  }
}
