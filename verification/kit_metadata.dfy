/** Kit metadata embedded in kit images: reading the label from an image
    configuration, requiring every platform manifest of a manifest list to carry
    the same encoded label, decoding it, and the never-failing debug renderer. */
module KitMetadata {
  import opened Text
  import opened Images
  import opened Results
  import opened Remote

  /** The image configuration label that holds a kit's metadata. */
  const KitLabel: string := "dev.bottlerocket.kit.v1"

  /** The label value as found: base64 of canonical JSON. Equality is string
      equality on the encoded form. */
  datatype EncodedKitMetadata = EncodedKitMetadata(encoded: string)

  /** `EncodedKitMetadata::try_from_image`: the kit label of the configuration
      of `uri`; an image without it is not a kit. */
  function FetchLabel(env: Env, uri: string): (r: Result<EncodedKitMetadata>)
    ensures r.Success? <==> uri in env.registry.configs && KitLabel in env.registry.configs[uri]
    ensures r.Success? ==> r.value.encoded == env.registry.configs[uri][KitLabel]
    ensures uri !in env.registry.configs ==> r == Failure(ConfigUnavailable(uri))
    ensures uri in env.registry.configs && KitLabel !in env.registry.configs[uri] ==> r == Failure(NotAKit(uri))
  {
    if uri !in env.registry.configs then Failure(ConfigUnavailable(uri))
    else if KitLabel !in env.registry.configs[uri] then Failure(NotAKit(uri))
    else Success(EncodedKitMetadata(env.registry.configs[uri][KitLabel]))
  }

  /** `ImageMetadata::try_from`: decode the label (base64, then JSON). */
  function Decode(codec: Codec, e: EncodedKitMetadata): (r: Result<ImageMetadata>)
    ensures r.Success? <==> codec.decodeMetadata(e.encoded).Some?
    ensures r.Success? ==> Some(r.value) == codec.decodeMetadata(e.encoded)
  {
    match codec.decodeMetadata(e.encoded)
    case None => Failure(BadKitMetadata)
    case Some(md) => Success(md)
  }

  /** The label of one platform manifest of kit `name`. */
  function LabelOf(env: Env, vendor: Vendor, name: string, m: ManifestView): Result<EncodedKitMetadata> {
    FetchLabel(env, ManifestUri(vendor, name, m.digest))
  }

  /** Fetches the labels of the remaining platform manifests one by one and
      stops at the first failure or at the first label that differs from the
      canonical one. */
  function CheckAgreement(env: Env, vendor: Vendor, name: string, canonical: EncodedKitMetadata,
                          rest: seq<ManifestView>): Result<()>
    decreases |rest|
  {
    if |rest| == 0 then Success(())
    else
      var found :- LabelOf(env, vendor, name, rest[0]);
      if found != canonical then Failure(MetadataMismatch)
      else CheckAgreement(env, vendor, name, canonical, rest[1..])
  }

  /** `Lock::find_kit`: the first platform's label is canonical, every later
      one must be the same string, and the canonical label is decoded. */
  function FindKit(env: Env, vendor: Vendor, image: LockedImage): (r: Result<ImageMetadata>)
    ensures env.codec.parseManifestList(image.manifest) == Some([]) ==> r == Failure(NoKitMetadata(image.source))
    ensures env.codec.parseManifestList(image.manifest).None? ==> r == Failure(BadManifestList)
  {
    match env.codec.parseManifestList(image.manifest)
    case None => Failure(BadManifestList)
    case Some(list) =>
      if |list| == 0 then Failure(NoKitMetadata(image.source))
      else
        var canonical :- LabelOf(env, vendor, image.name, list[0]);
        var _ :- CheckAgreement(env, vendor, image.name, canonical, list[1..]);
        Decode(env.codec, canonical)
  }

  /** Every platform manifest of the image carries exactly the label `canonical`. */
  ghost predicate LabelsAgree(env: Env, vendor: Vendor, image: LockedImage, canonical: EncodedKitMetadata) {
    match env.codec.parseManifestList(image.manifest)
    case None => false
    case Some(list) =>
      && |list| > 0
      && forall i :: 0 <= i < |list| ==> LabelOf(env, vendor, image.name, list[i]) == Success(canonical)
  }

  lemma {:induction false} CheckAgreementIff(env: Env, vendor: Vendor, name: string, canonical: EncodedKitMetadata,
                                             rest: seq<ManifestView>)
    ensures CheckAgreement(env, vendor, name, canonical, rest).Success?
            <==> forall i :: 0 <= i < |rest| ==> LabelOf(env, vendor, name, rest[i]) == Success(canonical)
    decreases |rest|
  {
    if |rest| > 0 {
      CheckAgreementIff(env, vendor, name, canonical, rest[1..]);
      if forall i :: 0 <= i < |rest[1..]| ==> LabelOf(env, vendor, name, rest[1..][i]) == Success(canonical) {
        assert forall i :: 1 <= i < |rest| ==> rest[i] == rest[1..][i - 1];
      } else {
        var i :| 0 <= i < |rest[1..]| && LabelOf(env, vendor, name, rest[1..][i]) != Success(canonical);
        assert rest[1..][i] == rest[i + 1];
      }
    }
  }

  /** `find_kit` succeeds exactly when all platform labels are one string that
      decodes, and then yields its decoding. */
  lemma FindKitAgreement(env: Env, vendor: Vendor, image: LockedImage, canonical: EncodedKitMetadata)
    ensures FindKit(env, vendor, image).Success? && LabelsAgree(env, vendor, image, canonical)
            ==> Some(FindKit(env, vendor, image).value) == env.codec.decodeMetadata(canonical.encoded)
    ensures LabelsAgree(env, vendor, image, canonical) && env.codec.decodeMetadata(canonical.encoded).Some?
            ==> FindKit(env, vendor, image).Success?
  {
    match env.codec.parseManifestList(image.manifest)
    case None =>
    case Some(list) =>
      if |list| > 0 {
        CheckAgreementIff(env, vendor, image.name, canonical, list[1..]);
        if LabelsAgree(env, vendor, image, canonical) {
          forall i | 0 <= i < |list[1..]| ensures LabelOf(env, vendor, image.name, list[1..][i]) == Success(canonical) {
            assert list[1..][i] == list[i + 1];
          }
        }
      }
  }

  /** Conversely, a successful `find_kit` implies agreement on some label. */
  lemma FindKitRequiresAgreement(env: Env, vendor: Vendor, image: LockedImage)
    requires FindKit(env, vendor, image).Success?
    ensures exists canonical :: LabelsAgree(env, vendor, image, canonical)
                                && env.codec.decodeMetadata(canonical.encoded) == Some(FindKit(env, vendor, image).value)
  {
    var list := env.codec.parseManifestList(image.manifest).value;
    var canonical := LabelOf(env, vendor, image.name, list[0]).value;
    CheckAgreementIff(env, vendor, image.name, canonical, list[1..]);
    forall i | 0 <= i < |list| ensures LabelOf(env, vendor, image.name, list[i]) == Success(canonical) {
      if i > 0 {
        assert list[i] == list[1..][i - 1];
      }
    }
    assert LabelsAgree(env, vendor, image, canonical);
  }

  /** Two platform labels that are different strings make `find_kit` fail,
      whatever they decode to: agreement is judged on the encoded text. */
  lemma DivergentLabelsFail(env: Env, vendor: Vendor, image: LockedImage, list: seq<ManifestView>, i: int, j: int)
    requires env.codec.parseManifestList(image.manifest) == Some(list)
    requires 0 <= i < |list| && 0 <= j < |list|
    requires LabelOf(env, vendor, image.name, list[i]).Success?
    requires LabelOf(env, vendor, image.name, list[j]).Success?
    requires LabelOf(env, vendor, image.name, list[i]) != LabelOf(env, vendor, image.name, list[j])
    ensures FindKit(env, vendor, image).Failure?
  {
    if FindKit(env, vendor, image).Success? {
      FindKitRequiresAgreement(env, vendor, image);
    }
  }

  /** The entries are examined lazily in order: when entry `k` is the first
      whose label cannot be fetched, its error is the error of `find_kit`. */
  lemma FirstFetchFailureWins(env: Env, vendor: Vendor, image: LockedImage, list: seq<ManifestView>, k: int)
    requires env.codec.parseManifestList(image.manifest) == Some(list)
    requires 0 < k < |list|
    requires LabelOf(env, vendor, image.name, list[0]).Success?
    requires forall i :: 0 < i < k ==> LabelOf(env, vendor, image.name, list[i]) == LabelOf(env, vendor, image.name, list[0])
    requires LabelOf(env, vendor, image.name, list[k]).Failure?
    ensures FindKit(env, vendor, image) == Failure(LabelOf(env, vendor, image.name, list[k]).error)
  {
    var canonical := LabelOf(env, vendor, image.name, list[0]).value;
    AgreementStopsAt(env, vendor, image.name, canonical, list[1..], k - 1);
  }

  lemma {:induction false} AgreementStopsAt(env: Env, vendor: Vendor, name: string, canonical: EncodedKitMetadata,
                                            rest: seq<ManifestView>, k: int)
    requires 0 <= k < |rest|
    requires forall i :: 0 <= i < k ==> LabelOf(env, vendor, name, rest[i]) == Success(canonical)
    requires LabelOf(env, vendor, name, rest[k]).Failure?
    ensures CheckAgreement(env, vendor, name, canonical, rest) == Failure(LabelOf(env, vendor, name, rest[k]).error)
    decreases k
  {
    if k > 0 {
      assert rest[1..][k - 1] == rest[k];
      forall i | 0 <= i < k - 1 ensures LabelOf(env, vendor, name, rest[1..][i]) == Success(canonical) {
        assert rest[1..][i] == rest[i + 1];
      }
      AgreementStopsAt(env, vendor, name, canonical, rest[1..], k - 1);
    }
  }

  /** `debug_image_metadata`: the decoded rendering, when the label decodes. */
  function DebugImageMetadata(codec: Codec, e: EncodedKitMetadata): Option<string> {
    match codec.decodeMetadata(e.encoded)
    case None => None
    case Some(md) => Some("<ImageMetadata(decoded) [" + codec.renderMetadata(md) + "]>")
  }

  const DecodedPrefix: string := "<ImageMetadata(decoded) ["
  const EncodedPrefix: string := "<ImageMetadata(encoded) ["

  /** `try_debug_image_metadata`: never fails; falls back to the encoded text
      with newlines escaped. */
  function TryDebugImageMetadata(codec: Codec, e: EncodedKitMetadata): (r: string)
    ensures StartsWith(r, DecodedPrefix) <==> codec.decodeMetadata(e.encoded).Some?
    ensures codec.decodeMetadata(e.encoded).None? ==> StartsWith(r, EncodedPrefix) && '\n' !in r
    ensures codec.decodeMetadata(e.encoded).None? && '\n' !in e.encoded ==>
              r == EncodedPrefix + e.encoded + "]>"
    ensures codec.decodeMetadata(e.encoded).Some? ==>
              r == DecodedPrefix + codec.renderMetadata(codec.decodeMetadata(e.encoded).value) + "]>"
  {
    match DebugImageMetadata(codec, e)
    case Some(s) => s
    case None =>
      var escaped := Replace(e.encoded, "\n", "\\n");
      ReplaceCharRemoves(e.encoded, '\n', "\\n");
      assert '\n' !in e.encoded ==> escaped == e.encoded by {
        if '\n' !in e.encoded {
          ReplaceCharAbsent(e.encoded, '\n', "\\n");
        }
      }
      var r := EncodedPrefix + escaped + "]>";
      assert r[15] != DecodedPrefix[15];
      assert r[..|EncodedPrefix|] == EncodedPrefix;
      assert forall k :: 0 <= k < |r| ==> r[k] != '\n' by {
        forall k | 0 <= k < |r| ensures r[k] != '\n' {
          if |EncodedPrefix| <= k < |EncodedPrefix| + |escaped| {
            assert r[k] == escaped[k - |EncodedPrefix|];
          }
        }
      }
      r
  }
}
