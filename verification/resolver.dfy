/** `Lock::resolve`: the walk of `Walk` instantiated with the registry (a
    kit is visited by looking up its vendor, pinning it, and reading its
    embedded metadata), followed by the choice of the one SDK. */
module Resolver {
  import opened Text
  import opened Images
  import opened Results
  import opened Files
  import opened Remote
  import opened KitMetadata
  import opened Walk

  /** The parts of the project configuration the engine reads. */
  datatype Project = Project(
    vendors: map<string, Vendor>,
    kits: seq<Image>,
    sdk: Option<Image>,
    projectDir: Path,
    externalKitsDir: Path,
    externalKitsMetadata: Path)

  /** The work done for a kit seen for the first time: look up its vendor,
      pin it, and read its embedded metadata. */
  function Visit(env: Env, vendors: map<string, Vendor>, x: Image): (r: Result<Visited>)
    ensures x.vendor !in vendors ==> r == Failure(UndeclaredVendor(x.vendor))
    ensures r.Success? ==> x.vendor in vendors
    ensures r.Success? ==> Success(r.value.locked) == NewLockedImage(env, vendors[x.vendor], x)
    ensures r.Success? ==> Success(r.value.meta) == FindKit(env, vendors[x.vendor], r.value.locked)
    ensures x.vendor in vendors && NewLockedImage(env, vendors[x.vendor], x).Success? ==>
              (r.Success? <==> FindKit(env, vendors[x.vendor], NewLockedImage(env, vendors[x.vendor], x).value).Success?)
  {
    if x.vendor !in vendors then Failure(UndeclaredVendor(x.vendor))
    else
      var locked :- NewLockedImage(env, vendors[x.vendor], x);
      var meta :- FindKit(env, vendors[x.vendor], locked);
      Success(Visited(locked, meta))
  }

  function Visitor(env: Env, vendors: map<string, Vendor>): Walk.Visitor {
    x => Visit(env, vendors, x)
  }

  /** Every `(name, vendor)` pair the resolver can record: the name is a piece
      of some reference the registry serves and the vendor is declared. The
      set is finite, which bounds the walk. */
  ghost function Universe(env: Env, vendors: map<string, Vendor>): set<Key> {
    set m, i, j, vd | m in env.registry.manifests.Keys && vd in vendors.Keys && 0 <= i <= j <= |m| :: (m[i..j], vd)
  }

  lemma VisitedKeyInUniverse(env: Env, vendors: map<string, Vendor>, x: Image)
    requires Visit(env, vendors, x).Success?
    ensures KeyOf(x) in Universe(env, vendors)
  {
    var reg := vendors[x.vendor].registry;
    var m := Source(reg, x.name, x.version);
    assert m == reg + "/" + x.name + ":v" + VersionString(x.version);
    var i := |reg| + 1;
    assert m[i..i + |x.name|] == x.name;
  }

  /** The registry visitor pins what it is given and records finitely many keys. */
  lemma VisitorWellBehaved(env: Env, vendors: map<string, Vendor>)
    ensures Bounded(Visitor(env, vendors), Universe(env, vendors))
    ensures Faithful(Visitor(env, vendors))
  {
    forall x | Visitor(env, vendors)(x).Success? ensures KeyOf(x) in Universe(env, vendors) {
      VisitedKeyInUniverse(env, vendors, x);
    }
  }

  /** After the walk: exactly one SDK must have been named, its vendor must be
      declared, and it is pinned like a kit. */
  function Finish(env: Env, project: Project, s: State): (r: Result<Lock>)
    ensures |s.sdks| > 1 ==> r == Failure(MultipleSdks(s.sdks))
    ensures |s.sdks| == 0 ==> r == Failure(NoSdk)
    ensures r.Success? ==> |s.sdks| == 1 && TheOnly(s.sdks).vendor in project.vendors
                           && NewLockedImage(env, project.vendors[TheOnly(s.sdks).vendor], TheOnly(s.sdks)) == Success(r.value.sdk)
    ensures r.Success? ==> r.value.kit == s.locked && r.value.schemaVersion == LockSchemaVersion
    ensures r.Failure? && |s.sdks| == 1 ==> r.error == UndeclaredVendor(TheOnly(s.sdks).vendor)
                                            || r.error.ManifestUnavailable?
  {
    if |s.sdks| > 1 then Failure(MultipleSdks(s.sdks))
    else if |s.sdks| == 0 then Failure(NoSdk)
    else
      var sdk := TheOnly(s.sdks);
      if sdk.vendor !in project.vendors then Failure(UndeclaredVendor(sdk.vendor))
      else
        var l :- NewLockedImage(env, project.vendors[sdk.vendor], sdk);
        Success(Lock(LockSchemaVersion, l, s.locked))
  }

  /** `Lock::resolve` as a function. */
  function ResolveFn(env: Env, project: Project): Result<Lock> {
    VisitorWellBehaved(env, project.vendors);
    var s :- RunFrom(Visitor(env, project.vendors), Universe(env, project.vendors), Initial(project.kits, project.sdk));
    Finish(env, project, s)
  }

  /** A successful resolution carries the accepted schema version. */
  lemma ResolvedSchema(env: Env, project: Project)
    requires ResolveFn(env, project).Success?
    ensures ResolveFn(env, project).value.schemaVersion == LockSchemaVersion
  {
    VisitorWellBehaved(env, project.vendors);
    var s := RunFrom(Visitor(env, project.vendors), Universe(env, project.vendors), Initial(project.kits, project.sdk)).value;
    assert Finish(env, project, s) == ResolveFn(env, project);
  }

  /** `x` is a project kit or a kit dependency of a reachable kit. */
  ghost predicate ReachableKit(env: Env, project: Project, x: Image) {
    Reachable(Visitor(env, project.vendors), project.kits, x)
  }

  /** The SDK of a successful resolution: the project's, if it names one, and
      the one every reachable kit was built with; its vendor is declared. */
  ghost predicate SdkAgreedFor(env: Env, project: Project, sdk: Image) {
    && Walk.SdkAgreed(Visitor(env, project.vendors), project.kits, project.sdk, sdk)
    && sdk.vendor in project.vendors
  }

  /** `Lock::resolve`: the worklist loop, then the choice of the SDK. */
  method Resolve(env: Env, project: Project) returns (r: Result<Lock>)
    ensures r == ResolveFn(env, project)
  {
    VisitorWellBehaved(env, project.vendors);
    var s :- Run(Visitor(env, project.vendors), Universe(env, project.vendors), project.kits, project.sdk);
    r := Finish(env, project, s);
  }

  /** A successful resolution locks every reachable kit and nothing else,
      once per `(name, vendor)`, each pinned and read as a fresh visit would,
      and pins the one SDK the project and all those kits agree on. */
  lemma ResolveSoundAndComplete(env: Env, project: Project)
    requires ResolveFn(env, project).Success?
    ensures var l := ResolveFn(env, project).value;
            && l.schemaVersion == LockSchemaVersion
            && DistinctKits(l.kit)
            && (forall i :: 0 <= i < |l.kit| ==> VisitedAs(Visitor(env, project.vendors), l.kit[i]))
            && (forall x :: ReachableKit(env, project, x) <==> exists i :: 0 <= i < |l.kit| && ImageOf(l.kit[i]) == x)
            && exists sdk :: SdkAgreedFor(env, project, sdk) && NewLockedImage(env, project.vendors[sdk.vendor], sdk) == Success(l.sdk)
  {
    var visit := Visitor(env, project.vendors);
    var u := Universe(env, project.vendors);
    VisitorWellBehaved(env, project.vendors);
    var s := RunFrom(visit, u, Initial(project.kits, project.sdk)).value;
    assert Finish(env, project, s) == ResolveFn(env, project);
    WalkSoundAndComplete(visit, u, project.kits, project.sdk);
    assert SdkAgreedFor(env, project, TheOnly(s.sdks));
  }

  /** The converse of `ResolveSoundAndComplete`: when every reachable kit can
      be visited, reachable references to one kit agree on the version, and
      the project and all reachable kits agree on a declared SDK that can be
      pinned, resolution succeeds and pins that SDK. */
  lemma ResolveSucceedsWith(env: Env, project: Project, z: Image)
    requires Resolvable(Visitor(env, project.vendors), project.kits)
    requires SdkAgreedFor(env, project, z)
    requires NewLockedImage(env, project.vendors[z.vendor], z).Success?
    ensures ResolveFn(env, project).Success?
    ensures ResolveFn(env, project).value.sdk == NewLockedImage(env, project.vendors[z.vendor], z).value
  {
    var visit := Visitor(env, project.vendors);
    var u := Universe(env, project.vendors);
    VisitorWellBehaved(env, project.vendors);
    WalkSucceeds(visit, u, project.kits, project.sdk);
    var s := RunFrom(visit, u, Initial(project.kits, project.sdk)).value;
    RunFacts(visit, u, project.kits, project.sdk);
    AgreedSdkCollected(visit, project.kits, project.sdk, s, z);
    assert TheOnly(s.sdks) == z;
    assert Finish(env, project, s) == ResolveFn(env, project);
  }

  /** Resolution succeeds exactly when the graph is resolvable and there is
      an SDK everyone agrees on, declared and pinnable. */
  lemma ResolveSucceeds(env: Env, project: Project)
    ensures ResolveFn(env, project).Success? <==>
              && Resolvable(Visitor(env, project.vendors), project.kits)
              && exists z :: SdkAgreedFor(env, project, z) && NewLockedImage(env, project.vendors[z.vendor], z).Success?
  {
    var visit := Visitor(env, project.vendors);
    var u := Universe(env, project.vendors);
    VisitorWellBehaved(env, project.vendors);
    if ResolveFn(env, project).Success? {
      ResolveSoundAndComplete(env, project);
      WalkSucceeds(visit, u, project.kits, project.sdk);
    }
    if && Resolvable(visit, project.kits)
       && exists z :: SdkAgreedFor(env, project, z) && NewLockedImage(env, project.vendors[z.vendor], z).Success? {
      var z :| SdkAgreedFor(env, project, z) && NewLockedImage(env, project.vendors[z.vendor], z).Success?;
      ResolveSucceedsWith(env, project, z);
    }
  }

  /** A project kit `a` and a kit `b` that depend on each other, both built
      with the project's SDK: both are locked once, `a` first. */
  lemma CycleResolves(env: Env, project: Project, a: Image, b: Image, z: Image, va: Visited, vb: Visited)
    requires project.kits == [a] && project.sdk == Some(z)
    requires KeyOf(a) != KeyOf(b)
    requires Visit(env, project.vendors, a) == Success(va) && va.meta.kits == [b] && va.meta.sdk == z
    requires Visit(env, project.vendors, b) == Success(vb) && vb.meta.kits == [a] && vb.meta.sdk == z
    requires z.vendor in project.vendors && NewLockedImage(env, project.vendors[z.vendor], z).Success?
    ensures ResolveFn(env, project)
            == Success(Lock(LockSchemaVersion, NewLockedImage(env, project.vendors[z.vendor], z).value, [va.locked, vb.locked]))
  {
    var visit := Visitor(env, project.vendors);
    var u := Universe(env, project.vendors);
    VisitorWellBehaved(env, project.vendors);
    CycleWalk(visit, u, a, b, z, va, vb);
    var s := RunFrom(visit, u, Initial(project.kits, project.sdk)).value;
    assert s.sdks == {z};
    assert TheOnly(s.sdks) == z;
    assert Finish(env, project, s) == ResolveFn(env, project);
  }

  /** With neither a project SDK nor any kit there is no SDK to choose. */
  lemma NothingDeclaredNoSdk(env: Env, project: Project)
    requires project.sdk.None? && |project.kits| == 0
    ensures ResolveFn(env, project) == Failure(NoSdk)
  {
    VisitorWellBehaved(env, project.vendors);
    assert RunFrom(Visitor(env, project.vendors), Universe(env, project.vendors), Initial(project.kits, project.sdk))
           == Success(Initial(project.kits, project.sdk));
  }

  /** In a successful resolution a `(name, vendor)` pair determines the
      reachable reference: there is one version per kit. */
  lemma ResolvedKeyDeterminesImage(env: Env, project: Project, x: Image, y: Image)
    requires ResolveFn(env, project).Success?
    requires ReachableKit(env, project, x) && ReachableKit(env, project, y)
    requires KeyOf(x) == KeyOf(y)
    ensures x == y
  {
    ResolveSoundAndComplete(env, project);
    var l := ResolveFn(env, project).value;
    var i :| 0 <= i < |l.kit| && ImageOf(l.kit[i]) == x;
    var j :| 0 <= j < |l.kit| && ImageOf(l.kit[j]) == y;
    assert KeyOf(ImageOf(l.kit[i])) == KeyOf(ImageOf(l.kit[j]));
    assert i == j;
  }

  /** Two reachable references to one kit with different versions make the
      resolution fail, wherever in the graph they occur. */
  lemma ReachableVersionConflictFails(env: Env, project: Project, x: Image, y: Image)
    requires ReachableKit(env, project, x) && ReachableKit(env, project, y)
    requires KeyOf(x) == KeyOf(y) && x.version != y.version
    ensures ResolveFn(env, project).Failure?
  {
    if ResolveFn(env, project).Success? {
      ResolvedKeyDeterminesImage(env, project, x, y);
    }
  }

  /** A reachable kit whose vendor the project does not declare makes the
      resolution fail. */
  lemma UndeclaredVendorFails(env: Env, project: Project, x: Image)
    requires ReachableKit(env, project, x)
    requires x.vendor !in project.vendors
    ensures ResolveFn(env, project).Failure?
  {
    if ResolveFn(env, project).Success? {
      ResolveSoundAndComplete(env, project);
    }
  }

  /** Two reachable kits built with different SDKs, or a reachable kit built
      with an SDK other than the project's, make the resolution fail. */
  lemma SdkDisagreementFails(env: Env, project: Project, x: Image, other: Image)
    requires ReachableKit(env, project, x)
    requires DeclaredSdk(Visitor(env, project.vendors), x).Some?
    requires || (project.sdk.Some? && project.sdk.value != DeclaredSdk(Visitor(env, project.vendors), x).value)
             || (ReachableKit(env, project, other)
                 && DeclaredSdk(Visitor(env, project.vendors), other).Some?
                 && DeclaredSdk(Visitor(env, project.vendors), other) != DeclaredSdk(Visitor(env, project.vendors), x))
    ensures ResolveFn(env, project).Failure?
  {
    if ResolveFn(env, project).Success? {
      ResolveSoundAndComplete(env, project);
    }
  }
}
