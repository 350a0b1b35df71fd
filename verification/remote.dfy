/** The collaborators the engine calls but does not implement: the registry
    client (as finite maps from references to content) and the foreign codecs
    (SHA-256 + base64, JSON, TOML, tar, UTF-8), kept opaque as function-valued
    fields. Also `LockedImage::new`, which pins a reference to a digest. */
module Remote {
  import opened Text
  import opened Images
  import opened Results
  import opened Files

  datatype Platform = Platform(architecture: string)

  /** One entry of a manifest list or of an OCI index. */
  datatype ManifestView = ManifestView(digest: string, platform: Option<Platform>)

  /** The summary of a lock written for the build: the SDK and the kits. */
  datatype ExternalKitMetadata = ExternalKitMetadata(sdk: LockedImage, kits: seq<LockedImage>)

  datatype Codec = Codec(
    /** base64 of the SHA-256 of the manifest bytes */
    manifestDigest: Bytes -> string,
    /** JSON manifest list */
    parseManifestList: Bytes -> Option<seq<ManifestView>>,
    /** base64 then JSON kit metadata */
    decodeMetadata: string -> Option<ImageMetadata>,
    /** `Debug` rendering of decoded metadata */
    renderMetadata: ImageMetadata -> string,
    /** `DockerArchitecture::try_from` */
    dockerArchitecture: string -> Option<string>,
    /** JSON `index.json` of an OCI layout */
    parseIndex: Bytes -> Option<seq<ManifestView>>,
    /** JSON image manifest: its layer digests as written */
    parseLayout: Bytes -> Option<seq<string>>,
    /** the files a tar layer holds, in archive order */
    untar: Bytes -> Option<seq<Entry>>,
    /** UTF-8 */
    encodeText: string -> Bytes,
    decodeText: Bytes -> Option<string>,
    /** TOML lock file */
    serializeLock: Lock -> string,
    parseLock: string -> Option<Lock>,
    /** canonical JSON of the external kit metadata */
    serializeExternal: ExternalKitMetadata -> Bytes)

  /** What the registry serves: manifests by reference, image configuration
      labels by reference, and OCI layouts (relative file entries) by digest
      reference. A missing key is a failed call. */
  datatype Registry = Registry(
    manifests: map<string, Bytes>,
    configs: map<string, map<string, string>>,
    archives: map<string, seq<Entry>>)

  datatype Env = Env(registry: Registry, codec: Codec)

  /** The registry's `get_manifest`. */
  function FetchManifest(env: Env, reference: string): (r: Result<Bytes>)
    ensures r.Success? <==> reference in env.registry.manifests
    ensures r.Success? ==> r.value == env.registry.manifests[reference]
  {
    if reference in env.registry.manifests then Success(env.registry.manifests[reference])
    else Failure(ManifestUnavailable(reference))
  }

  /** `LockedImage::new`: fetch the manifest of `registry/name:vVERSION` and pin
      the image to the digest of those bytes. */
  function NewLockedImage(env: Env, vendor: Vendor, image: Image): (r: Result<LockedImage>)
    ensures r.Success? <==> Source(vendor.registry, image.name, image.version) in env.registry.manifests
    ensures r.Failure? ==> r.error == ManifestUnavailable(Source(vendor.registry, image.name, image.version))
    ensures r.Success? ==> ImageOf(r.value) == image
    ensures r.Success? ==> r.value.source == Source(vendor.registry, image.name, image.version)
    ensures r.Success? ==> r.value.manifest == env.registry.manifests[r.value.source]
    ensures r.Success? ==> r.value.digest == env.codec.manifestDigest(r.value.manifest)
  {
    var source := Source(vendor.registry, image.name, image.version);
    var manifest :- FetchManifest(env, source);
    Success(LockedImage(image.name, image.version, image.vendor, source, env.codec.manifestDigest(manifest), manifest))
  }

  /** The reference of one platform manifest of an image: `registry/name@digest`. */
  function ManifestUri(vendor: Vendor, name: string, digest: string): string {
    vendor.registry + "/" + name + "@" + digest
  }

  /** The two ways the engine names a platform manifest agree: rewriting the
      tag of a freshly locked image gives the `registry/name@digest` form,
      provided `:v` does not already occur in `registry/name`. */
  lemma DigestUriOfLocked(env: Env, vendor: Vendor, image: Image, digest: string)
    requires NewLockedImage(env, vendor, image).Success?
    requires forall i :: !OccursAt(vendor.registry + "/" + image.name, ":v", i)
    ensures DigestUri(NewLockedImage(env, vendor, image).value, digest) == ManifestUri(vendor, image.name, digest)
  {
    var l := NewLockedImage(env, vendor, image).value;
    DigestUriOfSource(vendor.registry, image.name, l, digest);
  }

  /** Resolving one reference against two registry states gives equal locked
      images exactly when the manifest digests agree. */
  lemma LockedImageTracksDigest(env1: Env, env2: Env, vendor: Vendor, image: Image)
    requires env1.codec == env2.codec
    requires NewLockedImage(env1, vendor, image).Success?
    requires NewLockedImage(env2, vendor, image).Success?
    ensures SameImage(NewLockedImage(env1, vendor, image).value, NewLockedImage(env2, vendor, image).value)
            <==> env1.codec.manifestDigest(env1.registry.manifests[Source(vendor.registry, image.name, image.version)])
                 == env2.codec.manifestDigest(env2.registry.manifests[Source(vendor.registry, image.name, image.version)])
  {
  }
}
