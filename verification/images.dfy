/** Identity of resolved dependencies: image references, locked (digest-pinned)
    images, their equality and hash keys, and the persisted `Lock`. */
module Images {
  import opened Text

  /** A semantic version; only its equality and its rendering matter here.
      The pre-release and build parts are kept as their dot-separated text
      (empty when absent) and take part in both. */
  datatype Version = Version(major: nat, minor: nat, patch: nat, pre: string, build: string)

  /** The semantic-version rendering: `MAJOR.MINOR.PATCH`, then `-PRE` and
      `+BUILD` when those parts are present. */
  function VersionString(v: Version): string {
    NatToString(v.major) + "." + NatToString(v.minor) + "." + NatToString(v.patch)
      + (if |v.pre| == 0 then "" else "-" + v.pre)
      + (if |v.build| == 0 then "" else "+" + v.build)
  }

  /** An unresolved image reference as declared by a project or a kit. */
  datatype Image = Image(name: string, version: Version, vendor: string)

  /** A vendor declared by the project: the registry its images live in. */
  datatype Vendor = Vendor(registry: string)

  /** The `(name, vendor)` pair under which the resolver deduplicates. */
  type Key = (string, string)

  function KeyOf(x: Image): Key {
    (x.name, x.vendor)
  }

  /** A resolved dependency pinned to the digest of its manifest bytes. The
      manifest is kept in memory only and never persisted. */
  datatype LockedImage = LockedImage(
    name: string,
    version: Version,
    vendor: string,
    source: string,
    digest: string,
    manifest: Bytes)

  /** The reference a locked image was resolved from. */
  function ImageOf(l: LockedImage): Image {
    Image(l.name, l.version, l.vendor)
  }

  /** The tagged reference `registry/name:vVERSION`. */
  function Source(registry: string, name: string, version: Version): string {
    registry + "/" + name + ":v" + VersionString(version)
  }

  /** The tag suffix that `DigestUri` rewrites. */
  function VersionTag(v: Version): string {
    ":v" + VersionString(v)
  }

  /** `digest_uri`: every occurrence of `:vVERSION` in the source becomes `@digest`. */
  function DigestUri(l: LockedImage, digest: string): string {
    Replace(l.source, VersionTag(l.version), "@" + digest)
  }

  /** `LockedImage`'s equality: source and digest only. */
  predicate SameImage(a: LockedImage, b: LockedImage) {
    a.source == b.source && a.digest == b.digest
  }

  /** What `LockedImage`'s hash reads: name, version and vendor. */
  function HashKey(l: LockedImage): (string, Version, string) {
    (l.name, l.version, l.vendor)
  }

  /** The fields a locked image serializes (the manifest is skipped). */
  function Stripped(l: LockedImage): LockedImage {
    l.(manifest := [])
  }

  /** No two entries share a `(name, vendor)` pair. */
  predicate DistinctKits(kit: seq<LockedImage>) {
    forall i, j :: 0 <= i < j < |kit| ==> KeyOf(ImageOf(kit[i])) != KeyOf(ImageOf(kit[j]))
  }

  /** The resolved kit metadata embedded in a kit image. */
  datatype ImageMetadata = ImageMetadata(name: string, version: Version, sdk: Image, kits: seq<Image>)

  /** The only schema version the lock file format accepts. */
  const LockSchemaVersion: nat := 1

  /** The persisted resolution. */
  datatype Lock = Lock(schemaVersion: nat, sdk: LockedImage, kit: seq<LockedImage>)

  /** `Lock`'s derived equality, which uses `LockedImage`'s equality on the SDK
      and positionally on the kit list. */
  predicate LockEq(a: Lock, b: Lock) {
    && a.schemaVersion == b.schemaVersion
    && SameImage(a.sdk, b.sdk)
    && |a.kit| == |b.kit|
    && forall i :: 0 <= i < |a.kit| ==> SameImage(a.kit[i], b.kit[i])
  }

  function StrippedLock(l: Lock): Lock {
    Lock(l.schemaVersion, Stripped(l.sdk), seq(|l.kit|, i requires 0 <= i < |l.kit| => Stripped(l.kit[i])))
  }

  /** What identifies a lock: its schema and the (source, digest) pairs, in order. */
  function Identity(l: LockedImage): (string, string) {
    (l.source, l.digest)
  }

  function LockIdentity(l: Lock): (nat, (string, string), seq<(string, string)>) {
    (l.schemaVersion, Identity(l.sdk), seq(|l.kit|, i requires 0 <= i < |l.kit| => Identity(l.kit[i])))
  }

  /** Two locked images that agree on source and digest are equal whatever
      their name, version, vendor and manifest. */
  lemma DescriptiveFieldsIgnored(l: LockedImage, name: string, version: Version, vendor: string, manifest: Bytes)
    ensures SameImage(l, l.(name := name, version := version, vendor := vendor, manifest := manifest))
  {
  }

  /** A different digest breaks equality while the hash key stays the same:
      "same dependency, different pin" collides in a hash-set scan. */
  lemma RepinnedImageCollides(l: LockedImage, digest: string)
    requires digest != l.digest
    ensures !SameImage(l, l.(digest := digest))
    ensures HashKey(l) == HashKey(l.(digest := digest))
  {
  }

  /** The hash key does not read the source, digest or manifest. */
  lemma HashIgnoresPin(l: LockedImage, source: string, digest: string, manifest: Bytes)
    ensures HashKey(l.(source := source, digest := digest, manifest := manifest)) == HashKey(l)
  {
  }

  /** Lock equality is exactly equality of the identity projections. */
  lemma LockEqIsIdentityEq(a: Lock, b: Lock)
    ensures LockEq(a, b) <==> LockIdentity(a) == LockIdentity(b)
  {
    var ia := LockIdentity(a).2;
    var ib := LockIdentity(b).2;
    if LockEq(a, b) {
      assert |ia| == |ib|;
      forall i | 0 <= i < |ia| ensures ia[i] == ib[i] {
        assert SameImage(a.kit[i], b.kit[i]);
      }
      assert ia == ib;
    }
    if LockIdentity(a) == LockIdentity(b) {
      assert |a.kit| == |ia| == |ib| == |b.kit|;
      forall i | 0 <= i < |a.kit| ensures SameImage(a.kit[i], b.kit[i]) {
        assert ia[i] == ib[i];
      }
    }
  }

  /** Lock equality is an equivalence relation. */
  lemma LockEqEquivalence(a: Lock, b: Lock, c: Lock)
    ensures LockEq(a, a)
    ensures LockEq(a, b) ==> LockEq(b, a)
    ensures LockEq(a, b) && LockEq(b, c) ==> LockEq(a, c)
  {
    LockEqIsIdentityEq(a, a);
    LockEqIsIdentityEq(a, b);
    LockEqIsIdentityEq(b, a);
    LockEqIsIdentityEq(b, c);
    LockEqIsIdentityEq(a, c);
  }

  /** Dropping manifests (as serialization does) preserves lock equality. */
  lemma StrippedLockEq(l: Lock)
    ensures LockEq(l, StrippedLock(l))
    ensures LockIdentity(StrippedLock(l)) == LockIdentity(l)
  {
    LockEqIsIdentityEq(l, StrippedLock(l));
  }

  /** With a source built as `registry/name:vVERSION` and no `:v` in
      `registry/name`, `DigestUri` yields `registry/name@digest`. */
  lemma {:induction false} DigestUriOfSource(registry: string, name: string, l: LockedImage, digest: string)
    requires l.source == Source(registry, name, l.version)
    requires forall i :: !OccursAt(registry + "/" + name, ":v", i)
    ensures DigestUri(l, digest) == registry + "/" + name + "@" + digest
  {
    var p := registry + "/" + name;
    var pat := VersionTag(l.version);
    assert l.source == p + pat;
    assert pat == ":v" + VersionString(l.version);
    TagOnlyAtEnd(p, pat);
    ReplaceOnlyAtEnd(p, pat, "@" + digest);
  }

  /** A tag starting with `:v` occurs in `p + tag` only at its end when `p`
      holds no `:v`. */
  lemma TagOnlyAtEnd(p: string, tag: string)
    requires |tag| >= 2 && tag[0] == ':' && tag[1] == 'v'
    requires forall i :: !OccursAt(p, ":v", i)
    ensures forall i :: 0 <= i < |p| ==> !OccursAt(p + tag, tag, i)
  {
    forall i | 0 <= i < |p| ensures !OccursAt(p + tag, tag, i) {
      if i + |tag| <= |p + tag| {
        if i + 1 < |p| {
          assert !OccursAt(p, ":v", i);
          assert (p + tag)[i..i + 2] == p[i..i + 2] != tag[..2];
        } else {
          assert (p + tag)[i + 1] == tag[0] != tag[1];
        }
        assert (p + tag)[i..i + |tag|] != tag;
      }
    }
  }
}
