# Twoliter lock file engine — a Dafny model

This project models the lock file engine of Twoliter (`twoliter/src/lock.rs`).
Given a project's declared kits, vendors and optional SDK, the engine:

- resolves the transitive kit graph against a container registry, pinning every kit image to the digest of its manifest;
- requires one version per `(name, vendor)` pair and a single SDK shared by the project and all kits;
- writes the result as `Twoliter.lock`;
- later re-checks a stored lock against a fresh resolution;
- fetches the locked kits for one architecture into a content-addressed cache of OCI archives;
- unpacks each archive into its kit directory, guarded by a `digest` marker file.

The registry is modelled as finite maps from references to manifests, configuration labels and OCI layouts. The filesystem is modelled as a map of files, a set of directories and a mutation clock. The foreign codecs are opaque function-valued fields of a `Codec`: SHA-256 with base64, JSON, TOML, tar, UTF-8 and canonical JSON. A semantic version keeps its pre-release and build parts, which take part in version equality and in the rendered `:vVERSION` tag. Every operation returns either a value or an `Error`. Filesystem operations also return the state they leave behind, including on failure.

Modules, in dependency order:

- `Text`: Rust's `str::replace` and the splitting done by `Path::join`.
- `Images`: locked images, their equality and hash key, and the lock.
- `Results`: errors and the `Result` type.
- `Files`: the filesystem.
- `Remote`: the registry, the codecs and `LockedImage::new`.
- `KitMetadata`: `find_kit` and the label codec.
- `Walk`: the resolver's worklist, generic in how a kit is visited.
- `Resolver`: `Lock::resolve`.
- `Archive`: `OCIArchive`.
- `LockFile`: `create`, `load`, `fetch`, `get_manifest` and `extract_kit`.

Two consequences of the code worth knowing:

- `load` compares a fresh resolution with the stored lock using `LockedImage`'s equality, which reads only `source` and `digest`. A stored lock whose kit names, versions or vendors were edited by hand therefore still loads (`LockFile.LoadJudgesIdentityOnly`).
- The SDK check in the code is "at most one", followed by "take the first". The net effect is "exactly one", with two distinct errors, and that is what `Resolver.Finish` states.

## Model

| member | source | states |
|---|---|---|
| Images.DescriptiveFieldsIgnored | twoliter/src/lock.rs:44-48 | two locked images with the same source and digest are equal whatever their name, version, vendor and manifest bytes |
| Images.RepinnedImageCollides | twoliter/src/lock.rs:92-99 | re-pinning an image to another digest makes it unequal to the original while its hash key stays the same, so "same kit, new pin" collides in a hash |
| Images.HashIgnoresPin | twoliter/src/lock.rs:93-99 | the hash key does not depend on the source, the digest or the manifest |
| Images.LockEqIsIdentityEq | twoliter/src/lock.rs:351-360 | two locks are equal exactly when their schema versions and their ordered (source, digest) pairs for the SDK and the kits agree |
| Images.LockEqEquivalence | twoliter/src/lock.rs:351-360 | lock equality is reflexive, symmetric and transitive |
| Images.StrippedLockEq | twoliter/src/lock.rs:40-41 | dropping the manifest bytes, which serialization skips, leaves a lock equal to itself and keeps its identity |
| Images.DigestUriOfSource | twoliter/src/lock.rs:75-80 | for a source `registry/name:vVERSION` where `registry/name` holds no `:v`, rewriting the tag gives `registry/name@digest`, whatever pre-release and build parts the version carries |
| Remote.FetchManifest | twoliter/src/lock.rs:54 | fetching a manifest succeeds exactly when the registry serves the reference, and yields the served bytes |
| Remote.NewLockedImage | twoliter/src/lock.rs:51-73 | pinning succeeds exactly when the tagged source `registry/name:vVERSION` is served, and otherwise names that source in the error; the pinned image keeps the reference's name, version and vendor and carries the source, the fetched manifest and the digest of exactly those bytes |
| Remote.DigestUriOfLocked | twoliter/src/lock.rs:75-80 | for a freshly pinned image, `digest_uri` agrees with the `registry/name@digest` form `find_kit` builds |
| Remote.LockedImageTracksDigest | twoliter/src/lock.rs:51-73 | pinning one reference against two registry states gives equal locked images exactly when the two manifests have the same digest |
| KitMetadata.FetchLabel | twoliter/src/lock.rs:133-152 | reading the kit label succeeds exactly when the configuration exists and carries `dev.bottlerocket.kit.v1`, yields that label's value, and distinguishes a missing configuration from a non-kit image |
| KitMetadata.Decode | twoliter/src/lock.rs:116-125 | decoding succeeds exactly when the label decodes, and yields the decoded metadata |
| KitMetadata.FindKit | twoliter/src/lock.rs:591-611 | an unparsable manifest list and an empty one are distinct errors |
| KitMetadata.CheckAgreementIff | twoliter/src/lock.rs:613-623 | the scan of the remaining platform labels succeeds exactly when each one is served and equals the canonical label |
| KitMetadata.FindKitAgreement | twoliter/src/lock.rs:591-628 | `find_kit` succeeds exactly when every platform manifest carries one and the same label string, that string decodes, and the result is its decoding |
| KitMetadata.FindKitRequiresAgreement | twoliter/src/lock.rs:613-623 | a successful `find_kit` implies all platform labels agree on some string |
| KitMetadata.DivergentLabelsFail | twoliter/src/lock.rs:613-622 | two platform manifests whose labels are different strings make `find_kit` fail, whichever positions they hold |
| KitMetadata.FirstFetchFailureWins | twoliter/src/lock.rs:601-614 | labels are fetched lazily in order: the first failed fetch after agreeing ones is the error returned |
| KitMetadata.AgreementStopsAt | twoliter/src/lock.rs:614-622 | the agreement scan returns the error of the first failing fetch when every earlier label agreed |
| KitMetadata.TryDebugImageMetadata | twoliter/src/lock.rs:158-170 | the debug rendering never fails; it is marked decoded exactly when the label decodes, and then shows the decoded rendering; otherwise it is marked encoded, has no raw newline left, and is exactly the encoded label when that label had no newline |
| Walk.Step | twoliter/src/lock.rs:533-561 | a kit already seen with another version fails with both versions named; a kit seen with its own version changes nothing; a new kit succeeds exactly when its visit does, and records its key, its pin, its SDK and its dependencies |
| Walk.ProcessBatch | twoliter/src/lock.rs:531-562 | every key a pass records comes from a successfully visited kit of the batch, and a pass that records nothing leaves the queue unchanged |
| Walk.RunFrom | twoliter/src/lock.rs:529-563 | the loop ends with an empty queue and only records keys of the finite bound |
| Walk.Run | twoliter/src/lock.rs:529-563 | the imperative worklist loop computes the same result as the recursive definition and ends with an empty queue |
| Walk.StepTwiceIsStepOnce | twoliter/src/lock.rs:533-546 | meeting a kit a second time changes nothing |
| Walk.ConflictingPairFails | twoliter/src/lock.rs:537-540 | two versions of one kit in one pass make it fail, whichever comes first |
| Walk.LockedIsReachable | twoliter/src/lock.rs:529-563 | once the queue is empty, the locked kits are exactly those reachable from the project's kits |
| Walk.SingleSdkAgreed | twoliter/src/lock.rs:524-558 | when a finished walk collected one SDK, that SDK is the project's (if it names one) and the one every locked kit declares |
| Walk.WalkSoundAndComplete | twoliter/src/lock.rs:523-567 | a successful walk locks each reachable kit exactly once per `(name, vendor)`, each as its own visit pins it, locks nothing unreachable, and its SDK set is agreed when it is a singleton |
| Walk.AgreedSdkCollected | twoliter/src/lock.rs:524-558 | conversely, when the project and every reachable kit agree on an SDK, a finished walk collected that SDK alone |
| Walk.StepSucceeds | twoliter/src/lock.rs:533-558 | in a resolvable graph the next step cannot fail: the kit is reachable, so its visit succeeds, and a seen kit with its key is reachable too, so the versions agree |
| Walk.BatchSucceeds | twoliter/src/lock.rs:531-562 | in a resolvable graph a pass over a batch that keeps the loop invariant succeeds |
| Walk.RoundAdvances | twoliter/src/lock.rs:529-563 | a successful pass records only keys of the bound, either records a new key or empties the queue, and leaves the loop's outcome unchanged |
| Walk.RoundSucceeds | twoliter/src/lock.rs:529-563 | in a resolvable graph each pass of the outer loop succeeds, keeps the invariant and makes progress |
| Walk.RunSucceeds | twoliter/src/lock.rs:529-563 | in a resolvable graph the loop succeeds from any state that keeps the invariant |
| Walk.WalkSucceeds | twoliter/src/lock.rs:529-563 | the walk succeeds exactly when every reachable kit can be visited and reachable references to one `(name, vendor)` pair agree on the version |
| Walk.WalkNeedsResolvable | twoliter/src/lock.rs:533-558 | a successful walk met no unvisitable reachable kit and no second version of one |
| Walk.CycleWalk | twoliter/src/lock.rs:529-563 | two kits that depend on each other are visited once each, in order, and the walk stops when the cycle returns to a seen kit |
| Walk.TheOnly | twoliter/src/lock.rs:575-578 | the element taken from a one-element SDK set is its only element |
| Resolver.Visit | twoliter/src/lock.rs:547-558 | an undeclared vendor fails with its name; otherwise a visit succeeds exactly when pinning and `find_kit` both succeed, and returns their results |
| Resolver.VisitorWellBehaved | twoliter/src/lock.rs:551-555 | the registry visitor pins the reference it is given and records keys from a finite set, which bounds the loop |
| Resolver.Finish | twoliter/src/lock.rs:565-587 | several SDKs and no SDK are distinct errors; success needs one SDK with a declared vendor, pinned like a kit, and carries the walk's kits and the schema version |
| Resolver.Resolve | twoliter/src/lock.rs:517-588 | the resolve procedure computes the functional resolution |
| Resolver.ResolvedSchema | twoliter/src/lock.rs:583-584 | a resolved lock carries the one accepted schema version |
| Resolver.ResolveSoundAndComplete | twoliter/src/lock.rs:517-588 | a successful resolution locks every reachable kit and nothing else, once per `(name, vendor)`, each pinned as a fresh visit would, and pins the one SDK that the project and all locked kits agree on, with a declared vendor |
| Resolver.ResolveSucceedsWith | twoliter/src/lock.rs:517-588 | when every reachable kit can be visited, reachable references to one kit agree on the version, and the project and all reachable kits agree on an SDK with a declared vendor that can be pinned, resolution succeeds and pins that SDK |
| Resolver.ResolveSucceeds | twoliter/src/lock.rs:517-588 | resolution succeeds exactly when the graph is resolvable and some pinnable SDK with a declared vendor is agreed by the project and every reachable kit |
| Resolver.CycleResolves | twoliter/src/lock.rs:517-588 | a project kit and a kit depending on each other, both built with the project's SDK, resolve to the two kits in visiting order and that SDK |
| Resolver.NothingDeclaredNoSdk | twoliter/src/lock.rs:575-578 | with neither an SDK nor any kit declared, resolution fails for lack of an SDK |
| Resolver.ResolvedKeyDeterminesImage | twoliter/src/lock.rs:533-540 | in a successful resolution a `(name, vendor)` pair determines the reachable reference: one version per kit |
| Resolver.ReachableVersionConflictFails | twoliter/src/lock.rs:533-540 | two reachable references to one kit with different versions make resolution fail, wherever they sit in the graph |
| Resolver.UndeclaredVendorFails | twoliter/src/lock.rs:547-550 | a reachable kit whose vendor is not declared makes resolution fail |
| Resolver.SdkDisagreementFails | twoliter/src/lock.rs:566-574 | a reachable kit built with another SDK than the project's, or two reachable kits built with different SDKs, make resolution fail |
| Files.CreateDirAll | twoliter/src/lock.rs:499-500 | creating a directory succeeds exactly when no ancestor is a file; it leaves every ancestor a directory, adds only ancestors, and is a no-op when they exist |
| Files.RemoveDirAll | twoliter/src/lock.rs:308 | removal succeeds exactly when the directory exists, clears everything below it and leaves the rest alone |
| Files.Read | twoliter/src/lock.rs:310 | reading succeeds exactly for a file and yields its contents |
| Files.Write | twoliter/src/lock.rs:339-344 | writing succeeds exactly when the path is not a directory, leaves the file holding the data and touches nothing else |
| Files.ApplyEntries | twoliter/src/lock.rs:335-337 | unpacking entries below a root changes nothing outside it and adds no directory; a path no entry names is unchanged; on success every entry's path holds the contents of the last entry naming it |
| Files.LastWriteFound | twoliter/src/lock.rs:335-337 | the reference overlay names a path exactly when some entry does, and gives it the contents of an entry after which no other names it |
| Files.LastWriteAppend | twoliter/src/lock.rs:330-338 | for entries applied after others, the later ones win wherever both name a path |
| Files.ApplyEntriesOverlays | twoliter/src/lock.rs:335-337 | a successful unpack of entries is their overlay: a named path holds its last entry's contents, any other path is as it was |
| Files.OverlaidCompose | twoliter/src/lock.rs:330-338 | overlaying two entry lists one after the other is overlaying their concatenation |
| Archive.ParseContainerDigest | twoliter/src/lock.rs:213-227 | a layer digest is accepted exactly when it starts with `sha256:`, and is kept verbatim |
| Archive.ParseLayers | twoliter/src/lock.rs:200-208 | a layer list is accepted exactly when every digest is valid, keeps them in order, and otherwise reports the first invalid one |
| Archive.ArchivePathEscapes | twoliter/src/lock.rs:261-263 | the archive directory name holds no `:`; for a non-empty slash-free digest it is one component below the cache directory |
| Archive.ArchivePathInjective | twoliter/src/lock.rs:261-263 | two archives of one cache directory with slash-free digests share an archive path exactly when their escaped digests are equal |
| Archive.BlobPathOfSha256 | twoliter/src/lock.rs:321-332 | the digest `sha256:HEX` names the blob `blobs/sha256/HEX` of the archive |
| Archive.PullImage | twoliter/src/lock.rs:266-279 | an existing archive path means no registry call and no change; otherwise success means the digest reference was served and the path is a directory; an unserved reference is an error; nothing outside the archive path changes and directories only grow |
| Archive.PullTwiceIsNoop | twoliter/src/lock.rs:270-277 | pulling again after a successful pull does nothing |
| Archive.FailedPullPoisonsCache | twoliter/src/lock.rs:270-274 | after a pull whose registry call fails, the empty archive directory stays, every later pull skips the registry, and the layout it should hold is missing |
| Archive.PullImageOrDiscard | twoliter/src/lock.rs:266-279 | the corrected pull reports what `pull_image` reports and succeeds identically, but a failed pull leaves nothing at the archive path; it stands beside the as-written pull and is not what `LockFile.ExtractKit` calls |
| Archive.RetryAfterFailedPull | twoliter/src/lock.rs:270-274 | after a failed corrected pull, the next pull succeeds only if the registry serves the archive |
| Archive.MarkerMatches | twoliter/src/lock.rs:291-305 | the marker check says "already unpacked" exactly when the marker file reads as the archive's digest, and "no" when there is no marker |
| Archive.LayerDigests | twoliter/src/lock.rs:310-326 | a missing `index.json` and an empty index are errors; on success the layers are those listed, in order, in the blob of the index's first manifest, each `sha256:`-prefixed |
| Archive.LayerDigestsFrame | twoliter/src/lock.rs:310-326 | the layer list depends only on the files inside the archive directory |
| Archive.LayerFilesFrame | twoliter/src/lock.rs:330-332 | the layer blobs' entries depend only on the files inside the archive directory |
| Archive.ExtractLayers | twoliter/src/lock.rs:330-338 | untarring the layers in order leaves the directories as they were, changes nothing outside the output directory, and puts no file on an old directory |
| Archive.ExtractLayersOverlays | twoliter/src/lock.rs:330-338 | with the archive apart from the output directory, a successful extraction read and untarred every layer blob and overlays their entries, lowest layer first, on the output directory |
| Archive.ExtractLayersLeaves | twoliter/src/lock.rs:330-338 | a path no layer holds is left as it was |
| Archive.UnpackFresh | twoliter/src/lock.rs:307-344 | a fresh unpack that succeeds leaves the marker holding the digest and the output directory in place; no file outside it changes and no directory outside it is removed |
| Archive.UnpackFreshOverlays | twoliter/src/lock.rs:307-344 | with the archive apart from the output directory, a successful fresh unpack leaves there exactly the image's files besides the marker, each holding what its topmost layer gives it |
| Archive.UnpackLayers | twoliter/src/lock.rs:286-347 | a marker that already records the digest means no change; a successful unpack leaves such a marker; no file outside the output directory changes and no directory outside it is removed |
| Archive.UnpackLayersOverlays | twoliter/src/lock.rs:286-347 | when the marker does not already claim the digest, a successful unpack leaves exactly the image's files besides the marker |
| Archive.UnpackTwiceIsNoop | twoliter/src/lock.rs:292-304 | unpacking again after a successful unpack does nothing |
| Archive.FailedUnpackClaimsNothing | twoliter/src/lock.rs:339-344 | a failed unpack never leaves a marker claiming the digest, because the marker is written last |
| Archive.UnpackClearsStaleFiles | twoliter/src/lock.rs:308-309 | a fresh unpack removes whatever the output directory held that neither the layers nor the marker put back |
| LockFile.FirstFor | twoliter/src/lock.rs:464-472 | the search returns the first entry for the architecture; it reports the architecture missing exactly when every entry has a platform and none matches; an entry without a platform met first aborts it |
| LockFile.GetManifest | twoliter/src/lock.rs:454-473 | an unserved source and an unknown architecture are errors; a result is an entry of the served manifest list for the translated architecture |
| LockFile.FirstMatchWins | twoliter/src/lock.rs:464-468 | when an entry names the architecture and all earlier ones have platforms, the search succeeds at or before it |
| LockFile.KitDirLayout | twoliter/src/lock.rs:497-498 | the kit directory is `VENDOR/NAME/ARCH` and the cache is `cache`, both below the external-kits directory |
| LockFile.ArchiveOutsideKitDir | twoliter/src/lock.rs:497-504 | the cache, the archive and their ancestors lie outside the kit directory |
| LockFile.ExtractKit | twoliter/src/lock.rs:480-514 | a successful extraction found a manifest for the architecture and leaves the kit directory's marker claiming its digest; no file outside the kit directory and the kit's archive changes |
| LockFile.ExtractKitLeavesCache | twoliter/src/lock.rs:499-511 | a successful extraction leaves both directories, the cached archive and the claiming marker in place |
| LockFile.ExtractKitAgain | twoliter/src/lock.rs:499-511 | with everything in place, extraction is a no-op |
| LockFile.ExtractKitTwiceIsNoop | twoliter/src/lock.rs:480-514 | extracting a kit again after a successful extraction does nothing |
| LockFile.ExtractKits | twoliter/src/lock.rs:421-424 | extracting all kits succeeds only if every kit has a manifest for the architecture; no file outside the kits' directories and archives changes; afterwards the marker of every kit that no later kit writes over claims that kit's digest |
| LockFile.PlainKitsUndisturbed | twoliter/src/lock.rs:497-504 | with slash-free names, no later kit sharing a kit's vendor and name, and no vendor called `cache`, no later kit writes over that kit's marker |
| LockFile.WriteMetadata | twoliter/src/lock.rs:431-450 | equal existing bytes mean no write; success means the file holds the bytes; it fails exactly when the path is a directory not already holding them; nothing else changes |
| LockFile.WriteMetadataTwiceIsNoop | twoliter/src/lock.rs:433-442 | writing the same metadata again does nothing |
| LockFile.Fetch | twoliter/src/lock.rs:409-451 | a successful fetch leaves the metadata file holding the serialized SDK and kits, every kit had a manifest for the architecture, and the marker of every kit that no later kit writes over claims that kit's digest; an unusable external-kits directory fails with nothing changed |
| LockFile.Stored | twoliter/src/lock.rs:380-391 | reading the stored lock succeeds exactly when the file exists, is text, parses and carries the accepted schema version; a missing file is its own error |
| LockFile.Load | twoliter/src/lock.rs:380-398 | `load` succeeds exactly when the stored lock reads, the project resolves and the two are equal, and then yields the stored lock; with both present and unequal it reports the lock outdated |
| LockFile.Create | twoliter/src/lock.rs:365-377 | `create` succeeds exactly when the project resolves and the lock path is not a directory, yields the resolution, and leaves the lock file holding its serialization |
| LockFile.CreateThenLoad | twoliter/src/lock.rs:365-398 | a lock just created loads back, less its manifests, when the codecs round-trip it |
| LockFile.LoadJudgesIdentityOnly | twoliter/src/lock.rs:396 | two stored locks with the same schema, sources and digests load or fail together, and a stored lock loads as written |
| LockFile.RepinnedKitIsOutdated | twoliter/src/lock.rs:396 | a stored lock pinning a kit to another digest than a fresh resolution is reported outdated |

## Left out

- Asynchrony, tracing and logging are not modelled, nor concurrent runs that share a cache directory. Operations run one after another on one filesystem state.
- The `ImageTool` registry client is modelled as three finite maps: manifests, configuration labels and OCI layouts. A missing key is a failed call, and the network is not modelled beyond that.
- SHA-256 with base64, JSON, TOML, tar, UTF-8, canonical JSON and `DockerArchitecture::try_from` are opaque fields of `Codec`. Properties that need a codec to round-trip say so in a `requires`.
- A tar layer is an ordered list of file entries written over the output directory. Directories, links and permissions inside a layer are not modelled.
- The `unwrap` on a manifest entry without a platform in `get_manifest` panics in the source. Here it is the error `MissingPlatform`.
- Serialization failures of the lock and the external metadata cannot happen here: the serializers are total functions.
- `Display`, `Debug` and the ordering traits derived on `Lock` are not modelled. The only rendering kept is `try_debug_image_metadata`.
- Hash/equality consistency is not stated, because the source's hash and equality read disjoint fields by design.
- Fetch: not proved idempotent as a whole; idempotence is proved per kit (`LockFile.ExtractKitTwiceIsNoop`) and for the metadata write (`LockFile.WriteMetadataTwiceIsNoop`).
- Write: succeeds when the parent directory is missing or is a file, where `std::fs::write` would fail; only a path that is itself a directory is refused. So `LockFile.Create` and `LockFile.Fetch` can succeed here where the source fails for a missing project or metadata directory.
- ExtractKits: the claim about a kit's marker is stated for kits that no later kit writes over (`LockFile.Undisturbed`); `LockFile.PlainKitsUndisturbed` gives that condition in plain terms. Fetch adds that the marker is not the metadata file itself.
- UnpackFreshOverlays: requires the archive and the output directory to lie apart, and speaks of files only, since layers carry no directories here.
- PullTwiceIsNoop: requires a non-empty archive path, because the empty path is never a directory in this filesystem.
- ExtractKitTwiceIsNoop: requires slash-free non-empty vendor, name, architecture and digest, and requires that the digest survives the text codec. These guarantee that the kit directory, the cache and the archive are distinct.
- UnpackLayers: the marker guarantee requires that the digest survives the text codec.
- FindKit: its own ensures names only the two manifest-list errors; its full success condition is stated by `KitMetadata.FindKitAgreement`.
- `tools/testsys/src/status.rs`, `tools/buildsys/src/main.rs` and `twoliter/src/cmd/fetch.rs` are callers and unrelated tooling and are not part of this model.

## Findings

| source | as written | input that shows it | evidently intended | confidence | as-written member | corrected member |
|---|---|---|---|---|---|---|
| twoliter/src/lock.rs:270-274 | the archive directory is created before the registry pull, and a failed pull leaves it behind; the next `exists()` test takes it for a cached archive | a first fetch whose pull of the digest reference fails (not served), then any later fetch of the same kit, even with the registry serving it: the pull is skipped and unpacking finds no `index.json` | a failed pull leaves nothing at the archive path, so the next fetch pulls again | medium, not executed | Archive.FailedPullPoisonsCache | Archive.PullImageOrDiscard |

`LockFile.ExtractKit` models `extract_kit` as written, so it calls `Archive.PullImage`. The corrected pull is stated and proved on its own.
