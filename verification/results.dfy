/** Error values of the lock-file engine and the failure-compatible wrappers
    used to propagate them (the model of `anyhow::Result` and `?`). */
module Results {
  import opened Images

  datatype Option<+T> = None | Some(value: T)

  /** One constructor per kind of failure the engine reports. */
  datatype Error =
    // registry calls
    | ManifestUnavailable(reference: string)
    | ConfigUnavailable(reference: string)
    | ArchiveUnavailable(reference: string)
    // kit metadata
    | BadManifestList
    | NotAKit(reference: string)
    | NoKitMetadata(source: string)
    | MetadataMismatch
    | BadKitMetadata
    // declarations
    | VersionConflict(name: string, vendor: string, requested: Version, known: Version)
    | UndeclaredVendor(vendor: string)
    | MultipleSdks(sdks: set<Image>)
    | NoSdk
    // architecture selection
    | UnknownArchitecture(arch: string)
    | ArchitectureMissing(arch: string, source: string)
    | MissingPlatform(source: string)
    // lock file
    | LockFileMissing
    | LockFileUnreadable
    | LockFileMalformed
    | LockOutdated
    // OCI archive layout
    | BadIndex
    | EmptyImage
    | BadLayout
    | InvalidLayerDigest(digest: string)
    | BadLayer(path: seq<string>)
    // filesystem
    | NotFound(path: seq<string>)
    | NotADirectory(path: seq<string>)
    | IsADirectory(path: seq<string>)
    | NotText(path: seq<string>)

  datatype Result<+T> = Success(value: T) | Failure(error: Error) {
    predicate IsFailure() {
      Failure?
    }

    function PropagateFailure<U>(): Result<U>
      requires Failure?
    {
      Failure(error)
    }

    function Extract(): T
      requires Success?
    {
      value
    }
  }
}
