/** The resolver's breadth-first walk, independent of the registry: a kit is
    "visited" by a function that pins it and yields its metadata (or fails).
    Seen kits are deduplicated on `(name, vendor)`, a second version of a seen
    kit is an error, and the SDKs the visited kits name are collected.

    The module states the loop invariant of the walk and proves that, once
    the queue is empty, exactly the kits reachable from the roots are locked. */
module Walk {
  import opened Images
  import opened Results

  /** A kit image after it was pinned and its metadata read. */
  datatype Visited = Visited(locked: LockedImage, meta: ImageMetadata)

  type Visitor = Image -> Result<Visited>

  /** A visit pins the very reference it was given. */
  ghost predicate Faithful(visit: Visitor) {
    forall x :: visit(x).Success? ==> ImageOf(visit(x).value.locked) == x
  }

  /** The kit dependencies a kit declares; none when it cannot be visited. */
  function Deps(visit: Visitor, x: Image): seq<Image> {
    match visit(x)
    case Success(v) => v.meta.kits
    case Failure(_) => []
  }

  /** The SDK a kit was built with, when it can be visited. */
  function DeclaredSdk(visit: Visitor, x: Image): Option<Image> {
    match visit(x)
    case Success(v) => Some(v.meta.sdk)
    case Failure(_) => None
  }

  /** The working state: the version seen per `(name, vendor)`, the locked kits
      in visiting order, the next batch of work, and the SDKs named so far. */
  datatype State = State(known: map<Key, Version>, locked: seq<LockedImage>, remaining: seq<Image>, sdks: set<Image>)

  /** `x` has been seen, with this very version. */
  predicate Known(s: State, x: Image) {
    KeyOf(x) in s.known && s.known[KeyOf(x)] == x.version
  }

  /** Nothing seen, the roots queued, the project's own SDK (if any) collected. */
  function Initial(roots: seq<Image>, sdk: Option<Image>): State {
    State(map[], [], roots, if sdk.Some? then {sdk.value} else {})
  }

  /** One iteration of the inner loop: a seen kit must repeat its version and
      is then skipped; an unseen one is visited and its dependencies queued. */
  function Step(visit: Visitor, s: State, x: Image): (r: Result<State>)
    ensures KeyOf(x) in s.known && x.version != s.known[KeyOf(x)] ==>
              r == Failure(VersionConflict(x.name, x.vendor, x.version, s.known[KeyOf(x)]))
    ensures Known(s, x) ==> r == Success(s)
    ensures KeyOf(x) !in s.known ==> (r.Success? <==> visit(x).Success?)
    ensures KeyOf(x) !in s.known && visit(x).Failure? ==> r == Failure(visit(x).error)
    ensures KeyOf(x) !in s.known && r.Success? ==>
              && r.value.known == s.known[KeyOf(x) := x.version]
              && r.value.locked == s.locked + [visit(x).value.locked]
              && r.value.remaining == s.remaining + Deps(visit, x)
              && r.value.sdks == s.sdks + {visit(x).value.meta.sdk}
    ensures r.Success? ==> Known(r.value, x)
    ensures r.Success? ==> s.known.Keys <= r.value.known.Keys
    ensures r.Success? && r.value.known.Keys == s.known.Keys ==> r.value == s
  {
    var key := KeyOf(x);
    if key in s.known then
      if x.version != s.known[key] then Failure(VersionConflict(x.name, x.vendor, x.version, s.known[key]))
      else Success(s)
    else
      var v :- visit(x);
      Success(State(s.known[key := x.version], s.locked + [v.locked], s.remaining + v.meta.kits, s.sdks + {v.meta.sdk}))
  }

  /** The inner loop over one batch, stopping at the first failure. New keys
      come from the batch, and only from kits that could be visited. */
  function ProcessBatch(visit: Visitor, s: State, batch: seq<Image>): (r: Result<State>)
    ensures r.Success? ==> s.known.Keys <= r.value.known.Keys
    ensures r.Success? ==> forall k :: k in r.value.known.Keys && k !in s.known.Keys ==>
              exists j :: 0 <= j < |batch| && KeyOf(batch[j]) == k && visit(batch[j]).Success?
    ensures r.Success? && r.value.known.Keys == s.known.Keys ==> r.value.remaining == s.remaining
    decreases |batch|
  {
    if |batch| == 0 then Success(s)
    else
      var s' :- Step(visit, s, batch[0]);
      var r := ProcessBatch(visit, s', batch[1..]);
      assert r.Success? ==> forall k :: k in r.value.known.Keys && k !in s.known.Keys ==>
               exists j :: 0 <= j < |batch| && KeyOf(batch[j]) == k && visit(batch[j]).Success? by {
        if r.Success? {
          forall k | k in r.value.known.Keys && k !in s.known.Keys
            ensures exists j :: 0 <= j < |batch| && KeyOf(batch[j]) == k && visit(batch[j]).Success?
          {
            if k !in s'.known.Keys {
              var j :| 0 <= j < |batch[1..]| && KeyOf(batch[1..][j]) == k && visit(batch[1..][j]).Success?;
              assert batch[1..][j] == batch[j + 1];
            }
          }
        }
      }
      r
  }

  /** Every key a successful visit can record lies in `u`. */
  ghost predicate Bounded(visit: Visitor, u: set<Key>) {
    forall x :: visit(x).Success? ==> KeyOf(x) in u
  }

  lemma FewerUnknown(u: set<Key>, before: set<Key>, after: set<Key>)
    requires before <= after <= u
    requires before != after
    ensures |u - after| < |u - before|
  {
    var k :| k in after && k !in before;
    var a := u - before;
    var b := u - after;
    assert a == (a - {k}) + {k};
    assert a - {k} == b + ((a - {k}) - b);
    assert b * ((a - {k}) - b) == {};
  }

  /** A round records only keys of the bound. */
  lemma BatchStaysBounded(visit: Visitor, u: set<Key>, s: State, batch: seq<Image>)
    requires Bounded(visit, u) && s.known.Keys <= u
    requires ProcessBatch(visit, s, batch).Success?
    ensures ProcessBatch(visit, s, batch).value.known.Keys <= u
  {
    var r := ProcessBatch(visit, s, batch).value;
    forall k | k in r.known.Keys ensures k in u {
      if k !in s.known.Keys {
        var j :| 0 <= j < |batch| && KeyOf(batch[j]) == k && visit(batch[j]).Success?;
      }
    }
  }

  /** The outer loop: take the whole queue as a batch, process it, repeat
      until the queue is empty. Each round either records a new key, of which
      there are finitely many, or empties the queue. */
  function RunFrom(visit: Visitor, ghost u: set<Key>, s: State): (r: Result<State>)
    requires Bounded(visit, u) && s.known.Keys <= u
    ensures r.Success? ==> r.value.remaining == [] && s.known.Keys <= r.value.known.Keys <= u
    decreases |u - s.known.Keys|, |s.remaining|
  {
    if |s.remaining| == 0 then Success(s)
    else
      var s' :- ProcessBatch(visit, s.(remaining := []), s.remaining);
      BatchStaysBounded(visit, u, s.(remaining := []), s.remaining);
      if s'.known.Keys != s.known.Keys then
        FewerUnknown(u, s.known.Keys, s'.known.Keys);
        RunFrom(visit, u, s')
      else
        RunFrom(visit, u, s')
  }

  /** The rest of the computation from the middle of a batch. */
  function Continue(visit: Visitor, ghost u: set<Key>, s: State, batch: seq<Image>): Result<State>
    requires Bounded(visit, u) && s.known.Keys <= u
  {
    var s' :- ProcessBatch(visit, s, batch);
    BatchStaysBounded(visit, u, s, batch);
    RunFrom(visit, u, s')
  }

  /** Visiting a kit a second time changes nothing. */
  lemma StepTwiceIsStepOnce(visit: Visitor, s: State, x: Image)
    requires Step(visit, s, x).Success?
    ensures Step(visit, Step(visit, s, x).value, x) == Step(visit, s, x)
  {
  }

  /** Two versions of one kit in a batch make the batch fail, whichever is
      met first. */
  lemma ConflictingPairFails(visit: Visitor, s: State, x: Image, y: Image)
    requires KeyOf(x) == KeyOf(y) && x.version != y.version
    ensures ProcessBatch(visit, s, [x, y]).Failure?
  {
    assert [x, y][1..] == [y];
    if Step(visit, s, x).Success? {
      var s' := Step(visit, s, x).value;
      assert Step(visit, s', y).Failure?;
    }
  }

  // ---------------------------------------------------------------------
  // Reachability

  /** A chain of kits from a root, each a dependency of the one before. */
  ghost predicate IsPath(visit: Visitor, roots: seq<Image>, p: seq<Image>) {
    && |p| > 0
    && p[0] in roots
    && forall i :: 0 <= i < |p| - 1 ==> p[i + 1] in Deps(visit, p[i])
  }

  ghost predicate Reachable(visit: Visitor, roots: seq<Image>, x: Image) {
    exists p :: IsPath(visit, roots, p) && p[|p| - 1] == x
  }

  lemma RootReachable(visit: Visitor, roots: seq<Image>, x: Image)
    requires x in roots
    ensures Reachable(visit, roots, x)
  {
    assert IsPath(visit, roots, [x]);
  }

  lemma DepReachable(visit: Visitor, roots: seq<Image>, x: Image, d: Image)
    requires Reachable(visit, roots, x)
    requires d in Deps(visit, x)
    ensures Reachable(visit, roots, d)
  {
    var p :| IsPath(visit, roots, p) && p[|p| - 1] == x;
    var q := p + [d];
    assert IsPath(visit, roots, q);
    assert q[|q| - 1] == d;
  }

  // ---------------------------------------------------------------------
  // The loop invariant

  /** `l` is what visiting its own reference pins. */
  predicate VisitedAs(visit: Visitor, l: LockedImage) {
    var r := visit(ImageOf(l));
    r.Success? && r.value.locked == l
  }

  /** `known` and `locked` describe the same kits, each once. */
  ghost predicate Tracked(visit: Visitor, s: State) {
    && (forall i :: 0 <= i < |s.locked| ==> VisitedAs(visit, s.locked[i]) && Known(s, ImageOf(s.locked[i])))
    && (forall k :: k in s.known ==> exists i :: 0 <= i < |s.locked| && KeyOf(ImageOf(s.locked[i])) == k)
    && DistinctKits(s.locked)
  }

  /** Everything locked or queued is reachable. */
  ghost predicate Sound(visit: Visitor, roots: seq<Image>, s: State, pending: seq<Image>) {
    && (forall i :: 0 <= i < |s.locked| ==> Reachable(visit, roots, ImageOf(s.locked[i])))
    && (forall j :: 0 <= j < |pending| ==> Reachable(visit, roots, pending[j]))
  }

  /** Every root and every dependency of a locked kit is queued or seen. */
  ghost predicate Closed(visit: Visitor, roots: seq<Image>, s: State, pending: seq<Image>) {
    && (forall x :: x in roots ==> x in pending || Known(s, x))
    && (forall i, d :: 0 <= i < |s.locked| && d in Deps(visit, ImageOf(s.locked[i])) ==> d in pending || Known(s, d))
  }

  /** The SDK set is the project's SDK plus those of the locked kits. */
  ghost predicate SdksCollected(visit: Visitor, sdk: Option<Image>, s: State) {
    && (sdk.Some? ==> sdk.value in s.sdks)
    && (forall i :: 0 <= i < |s.locked| ==>
          DeclaredSdk(visit, ImageOf(s.locked[i])).Some? && DeclaredSdk(visit, ImageOf(s.locked[i])).value in s.sdks)
    && (forall z :: z in s.sdks ==>
          sdk == Some(z) || exists i :: 0 <= i < |s.locked| && DeclaredSdk(visit, ImageOf(s.locked[i])) == Some(z))
  }

  ghost predicate Inv(visit: Visitor, roots: seq<Image>, sdk: Option<Image>, s: State, pending: seq<Image>) {
    && Tracked(visit, s)
    && Sound(visit, roots, s, pending)
    && Closed(visit, roots, s, pending)
    && SdksCollected(visit, sdk, s)
  }

  lemma InitialInv(visit: Visitor, roots: seq<Image>, sdk: Option<Image>)
    ensures Inv(visit, roots, sdk, Initial(roots, sdk), roots)
  {
    forall j | 0 <= j < |roots| ensures Reachable(visit, roots, roots[j]) {
      RootReachable(visit, roots, roots[j]);
    }
  }

  /** Skipping a kit already seen with its version keeps the invariant. */
  lemma SkipKeepsInv(visit: Visitor, roots: seq<Image>, sdk: Option<Image>, s: State, x: Image, rest: seq<Image>)
    requires Inv(visit, roots, sdk, s, [x] + rest + s.remaining)
    requires Known(s, x)
    ensures Inv(visit, roots, sdk, s, rest + s.remaining)
  {
    var p := [x] + rest + s.remaining;
    var p' := rest + s.remaining;
    assert p == [x] + p';
    PendingStaysReachable(visit, roots, x, p', []);
    assert p' + [] == p';
    forall y | y in p ensures y in p' || Known(s, y) {
      if y != x {
        assert y in p';
      }
    }
  }

  /** Visiting a new kit keeps the invariant, with its dependencies queued. */
  lemma VisitKeepsInv(visit: Visitor, roots: seq<Image>, sdk: Option<Image>, s: State, x: Image, rest: seq<Image>,
                      s': State, p: seq<Image>)
    requires p == [x] + rest + s.remaining
    requires Inv(visit, roots, sdk, s, p)
    requires KeyOf(x) !in s.known
    requires Faithful(visit)
    requires Step(visit, s, x) == Success(s')
    ensures Inv(visit, roots, sdk, s', rest + s'.remaining)
  {
    assert Reachable(visit, roots, x) by { assert p[0] == x; }
    TrackedStep(visit, s, x, s');
    SoundStep(visit, roots, s, x, rest, s');
    ClosedStep(visit, roots, s, x, rest, s');
    SdksStep(visit, sdk, s, x, s');
  }

  lemma TrackedStep(visit: Visitor, s: State, x: Image, s': State)
    requires Tracked(visit, s)
    requires KeyOf(x) !in s.known
    requires Faithful(visit)
    requires Step(visit, s, x) == Success(s')
    ensures Tracked(visit, s')
  {
    LockedStep(visit, s, x, s');
    KeysStep(visit, s, x, s');
    DistinctStep(visit, s, x, s');
  }

  lemma LockedStep(visit: Visitor, s: State, x: Image, s': State)
    requires forall i :: 0 <= i < |s.locked| ==> VisitedAs(visit, s.locked[i]) && Known(s, ImageOf(s.locked[i]))
    requires KeyOf(x) !in s.known
    requires Faithful(visit)
    requires Step(visit, s, x) == Success(s')
    ensures forall i :: 0 <= i < |s'.locked| ==> VisitedAs(visit, s'.locked[i]) && Known(s', ImageOf(s'.locked[i]))
  {
    var n := |s.locked|;
    assert ImageOf(s'.locked[n]) == x;
    forall i | 0 <= i < |s'.locked| ensures VisitedAs(visit, s'.locked[i]) && Known(s', ImageOf(s'.locked[i])) {
      if i < n {
        assert s'.locked[i] == s.locked[i];
      }
    }
  }

  lemma KeysStep(visit: Visitor, s: State, x: Image, s': State)
    requires forall k :: k in s.known ==> exists i :: 0 <= i < |s.locked| && KeyOf(ImageOf(s.locked[i])) == k
    requires KeyOf(x) !in s.known
    requires Faithful(visit)
    requires Step(visit, s, x) == Success(s')
    ensures forall k :: k in s'.known ==> exists i :: 0 <= i < |s'.locked| && KeyOf(ImageOf(s'.locked[i])) == k
  {
    var n := |s.locked|;
    forall k | k in s'.known ensures exists i :: 0 <= i < |s'.locked| && KeyOf(ImageOf(s'.locked[i])) == k {
      if k == KeyOf(x) {
        assert KeyOf(ImageOf(s'.locked[n])) == k;
      } else {
        var i :| 0 <= i < |s.locked| && KeyOf(ImageOf(s.locked[i])) == k;
        assert s'.locked[i] == s.locked[i];
      }
    }
  }

  lemma DistinctStep(visit: Visitor, s: State, x: Image, s': State)
    requires DistinctKits(s.locked)
    requires forall i :: 0 <= i < |s.locked| ==> Known(s, ImageOf(s.locked[i]))
    requires KeyOf(x) !in s.known
    requires Faithful(visit)
    requires Step(visit, s, x) == Success(s')
    ensures DistinctKits(s'.locked)
  {
    var n := |s.locked|;
    assert ImageOf(s'.locked[n]) == x;
    forall i, j | 0 <= i < j < |s'.locked| ensures KeyOf(ImageOf(s'.locked[i])) != KeyOf(ImageOf(s'.locked[j])) {
      assert s'.locked[i] == s.locked[i];
      if j == n {
        assert Known(s, ImageOf(s.locked[i]));
      } else {
        assert s'.locked[j] == s.locked[j];
      }
    }
  }

  lemma SoundStep(visit: Visitor, roots: seq<Image>, s: State, x: Image, rest: seq<Image>, s': State)
    requires Sound(visit, roots, s, [x] + rest + s.remaining)
    requires KeyOf(x) !in s.known
    requires Reachable(visit, roots, x)
    requires Faithful(visit)
    requires Step(visit, s, x) == Success(s')
    ensures Sound(visit, roots, s', rest + s'.remaining)
  {
    var n := |s.locked|;
    forall i | 0 <= i < |s'.locked| ensures Reachable(visit, roots, ImageOf(s'.locked[i])) {
      if i < n {
        assert s'.locked[i] == s.locked[i];
      } else {
        assert ImageOf(s'.locked[i]) == x;
      }
    }
    assert rest + s'.remaining == (rest + s.remaining) + Deps(visit, x);
    assert [x] + (rest + s.remaining) == [x] + rest + s.remaining;
    PendingStaysReachable(visit, roots, x, rest + s.remaining, Deps(visit, x));
  }

  /** Dropping the head of the queue and appending its dependencies keeps
      every queued kit reachable. */
  lemma PendingStaysReachable(visit: Visitor, roots: seq<Image>, x: Image, tail: seq<Image>, deps: seq<Image>)
    requires forall j :: 0 <= j < |[x] + tail| ==> Reachable(visit, roots, ([x] + tail)[j])
    requires deps == Deps(visit, x) || deps == []
    ensures forall j :: 0 <= j < |tail + deps| ==> Reachable(visit, roots, (tail + deps)[j])
  {
    assert Reachable(visit, roots, x) by { assert ([x] + tail)[0] == x; }
    forall j | 0 <= j < |tail + deps| ensures Reachable(visit, roots, (tail + deps)[j]) {
      if j < |tail| {
        assert (tail + deps)[j] == ([x] + tail)[j + 1];
      } else {
        assert (tail + deps)[j] == deps[j - |tail|];
        DepReachable(visit, roots, x, deps[j - |tail|]);
      }
    }
  }

  lemma ClosedStep(visit: Visitor, roots: seq<Image>, s: State, x: Image, rest: seq<Image>, s': State)
    requires Closed(visit, roots, s, [x] + rest + s.remaining)
    requires KeyOf(x) !in s.known
    requires Faithful(visit)
    requires Step(visit, s, x) == Success(s')
    ensures Closed(visit, roots, s', rest + s'.remaining)
  {
    var p := [x] + rest + s.remaining;
    var p' := rest + s'.remaining;
    var n := |s.locked|;
    assert p' == rest + s.remaining + Deps(visit, x);
    forall y | y in p || Known(s, y) ensures y in p' || Known(s', y) {
      if y in p && y != x {
        assert y in rest || y in s.remaining;
      }
    }
    forall i, d | 0 <= i < |s'.locked| && d in Deps(visit, ImageOf(s'.locked[i]))
      ensures d in p' || Known(s', d)
    {
      if i == n {
        assert ImageOf(s'.locked[i]) == x;
      } else {
        assert s'.locked[i] == s.locked[i];
      }
    }
  }

  lemma SdksStep(visit: Visitor, sdk: Option<Image>, s: State, x: Image, s': State)
    requires SdksCollected(visit, sdk, s)
    requires KeyOf(x) !in s.known
    requires Faithful(visit)
    requires Step(visit, s, x) == Success(s')
    ensures SdksCollected(visit, sdk, s')
  {
    var v := visit(x).value;
    var n := |s.locked|;
    assert ImageOf(s'.locked[n]) == x;
    assert DeclaredSdk(visit, x) == Some(v.meta.sdk);
    forall i | 0 <= i < |s'.locked|
      ensures DeclaredSdk(visit, ImageOf(s'.locked[i])).Some? && DeclaredSdk(visit, ImageOf(s'.locked[i])).value in s'.sdks
    {
      if i < n {
        assert s'.locked[i] == s.locked[i];
      }
    }
    forall z | z in s'.sdks
      ensures sdk == Some(z) || exists i :: 0 <= i < |s'.locked| && DeclaredSdk(visit, ImageOf(s'.locked[i])) == Some(z)
    {
      if z == v.meta.sdk {
        assert DeclaredSdk(visit, ImageOf(s'.locked[n])) == Some(z);
      } else if sdk != Some(z) {
        var i :| 0 <= i < |s.locked| && DeclaredSdk(visit, ImageOf(s.locked[i])) == Some(z);
        assert s'.locked[i] == s.locked[i];
      }
    }
  }

  /** Once the queue is empty, the end of every path has been seen. */
  lemma {:induction false} PathEndKnown(visit: Visitor, roots: seq<Image>, sdk: Option<Image>, s: State, p: seq<Image>)
    requires Inv(visit, roots, sdk, s, s.remaining) && s.remaining == []
    requires IsPath(visit, roots, p)
    ensures Known(s, p[|p| - 1])
    decreases |p|
  {
    if |p| > 1 {
      var q := p[..|p| - 1];
      assert IsPath(visit, roots, q) by {
        forall i | 0 <= i < |q| - 1 ensures q[i + 1] in Deps(visit, q[i]) {
          assert q[i + 1] == p[i + 1] && q[i] == p[i];
        }
      }
      PathEndKnown(visit, roots, sdk, s, q);
      var y := q[|q| - 1];
      KnownIsLocked(visit, s, y);
      var i :| 0 <= i < |s.locked| && ImageOf(s.locked[i]) == y;
      assert p[|p| - 1] in Deps(visit, p[|p| - 2]);
    }
  }

  /** A seen kit is a locked one. */
  lemma KnownIsLocked(visit: Visitor, s: State, x: Image)
    requires Tracked(visit, s)
    requires Known(s, x)
    ensures exists i :: 0 <= i < |s.locked| && ImageOf(s.locked[i]) == x
  {
    var i :| 0 <= i < |s.locked| && KeyOf(ImageOf(s.locked[i])) == KeyOf(x);
    assert ImageOf(s.locked[i]) == x;
  }

  /** With the queue empty, the locked kits are exactly the reachable ones. */
  lemma LockedIsReachable(visit: Visitor, roots: seq<Image>, sdk: Option<Image>, s: State)
    requires Inv(visit, roots, sdk, s, s.remaining) && s.remaining == []
    ensures forall x :: Reachable(visit, roots, x) <==> exists i :: 0 <= i < |s.locked| && ImageOf(s.locked[i]) == x
  {
    forall x | Reachable(visit, roots, x) ensures exists i :: 0 <= i < |s.locked| && ImageOf(s.locked[i]) == x {
      var p :| IsPath(visit, roots, p) && p[|p| - 1] == x;
      PathEndKnown(visit, roots, sdk, s, p);
      KnownIsLocked(visit, s, x);
    }
  }
  /** The SDK a closed walk settles on: the project's, if it names one, and
      the one every reachable kit was built with. */
  ghost predicate SdkAgreed(visit: Visitor, roots: seq<Image>, sdk: Option<Image>, z: Image) {
    && (sdk.Some? ==> sdk.value == z)
    && (forall x :: Reachable(visit, roots, x) ==> DeclaredSdk(visit, x) == Some(z))
    && (sdk == Some(z) || exists x :: Reachable(visit, roots, x) && DeclaredSdk(visit, x) == Some(z))
  }

  /** A finished walk that collected a single SDK agrees on it. */
  lemma SingleSdkAgreed(visit: Visitor, roots: seq<Image>, sdk: Option<Image>, s: State, z: Image)
    requires SdksCollected(visit, sdk, s)
    requires forall x :: Reachable(visit, roots, x) <==> exists i :: 0 <= i < |s.locked| && ImageOf(s.locked[i]) == x
    requires s.sdks == {z}
    ensures SdkAgreed(visit, roots, sdk, z)
  {
    forall x | Reachable(visit, roots, x) ensures DeclaredSdk(visit, x) == Some(z) {
      var i :| 0 <= i < |s.locked| && ImageOf(s.locked[i]) == x;
    }
    if sdk != Some(z) {
      var i :| 0 <= i < |s.locked| && DeclaredSdk(visit, ImageOf(s.locked[i])) == Some(z);
      assert Reachable(visit, roots, ImageOf(s.locked[i]));
    }
  }

  /** Conversely, a finished walk over kits that agree on an SDK collected
      that SDK alone. */
  lemma AgreedSdkCollected(visit: Visitor, roots: seq<Image>, sdk: Option<Image>, s: State, z: Image)
    requires SdksCollected(visit, sdk, s)
    requires forall x :: Reachable(visit, roots, x) <==> exists i :: 0 <= i < |s.locked| && ImageOf(s.locked[i]) == x
    requires SdkAgreed(visit, roots, sdk, z)
    ensures s.sdks == {z}
  {
    forall y | y in s.sdks ensures y == z {
      if sdk != Some(y) {
        var i :| 0 <= i < |s.locked| && DeclaredSdk(visit, ImageOf(s.locked[i])) == Some(y);
        assert Reachable(visit, roots, ImageOf(s.locked[i]));
      }
    }
    if sdk != Some(z) {
      var x :| Reachable(visit, roots, x) && DeclaredSdk(visit, x) == Some(z);
      var i :| 0 <= i < |s.locked| && ImageOf(s.locked[i]) == x;
    }
  }

  /** The invariant does not read the state's own queue, so clearing the
      queue and taking it as the batch keeps it. */
  lemma ClearQueueKeepsInv(visit: Visitor, roots: seq<Image>, sdk: Option<Image>, s: State)
    requires Inv(visit, roots, sdk, s, s.remaining)
    ensures Inv(visit, roots, sdk, s.(remaining := []), s.remaining + s.(remaining := []).remaining)
  {
    var t := s.(remaining := []);
    assert s.remaining + t.remaining == s.remaining;
    assert forall x :: Known(t, x) == Known(s, x);
  }

  /** One step keeps the invariant, whether it skips or visits. */
  lemma StepKeepsInv(visit: Visitor, roots: seq<Image>, sdk: Option<Image>, s: State, batch: seq<Image>)
    requires Faithful(visit)
    requires |batch| > 0
    requires Inv(visit, roots, sdk, s, batch + s.remaining)
    requires Step(visit, s, batch[0]).Success?
    ensures Inv(visit, roots, sdk, Step(visit, s, batch[0]).value, batch[1..] + Step(visit, s, batch[0]).value.remaining)
  {
    if KeyOf(batch[0]) in s.known {
      StepSkipKeepsInv(visit, roots, sdk, s, batch);
    } else {
      StepVisitKeepsInv(visit, roots, sdk, s, batch);
    }
  }

  lemma StepSkipKeepsInv(visit: Visitor, roots: seq<Image>, sdk: Option<Image>, s: State, batch: seq<Image>)
    requires |batch| > 0 && KeyOf(batch[0]) in s.known
    requires Inv(visit, roots, sdk, s, batch + s.remaining)
    requires Step(visit, s, batch[0]).Success?
    ensures Inv(visit, roots, sdk, Step(visit, s, batch[0]).value, batch[1..] + Step(visit, s, batch[0]).value.remaining)
  {
    var x := batch[0];
    ConsSplit(batch, s.remaining);
    assert Known(s, x);
    SkipKeepsInv(visit, roots, sdk, s, x, batch[1..]);
  }

  lemma StepVisitKeepsInv(visit: Visitor, roots: seq<Image>, sdk: Option<Image>, s: State, batch: seq<Image>)
    requires Faithful(visit)
    requires |batch| > 0 && KeyOf(batch[0]) !in s.known
    requires Inv(visit, roots, sdk, s, batch + s.remaining)
    requires Step(visit, s, batch[0]).Success?
    ensures Inv(visit, roots, sdk, Step(visit, s, batch[0]).value, batch[1..] + Step(visit, s, batch[0]).value.remaining)
  {
    var x := batch[0];
    ConsSplit(batch, s.remaining);
    VisitKeepsInv(visit, roots, sdk, s, x, batch[1..], Step(visit, s, x).value, batch + s.remaining);
  }

  lemma ConsSplit(batch: seq<Image>, tail: seq<Image>)
    requires |batch| > 0
    ensures batch + tail == [batch[0]] + batch[1..] + tail
  {
  }

  /** Stepping through a batch keeps the invariant. */
  lemma {:induction false} BatchKeepsInv(visit: Visitor, roots: seq<Image>, sdk: Option<Image>, s: State, batch: seq<Image>)
    requires Faithful(visit)
    requires Inv(visit, roots, sdk, s, batch + s.remaining)
    requires ProcessBatch(visit, s, batch).Success?
    ensures Inv(visit, roots, sdk, ProcessBatch(visit, s, batch).value, ProcessBatch(visit, s, batch).value.remaining)
    decreases |batch|
  {
    if |batch| == 0 {
      assert batch + s.remaining == s.remaining;
    } else {
      StepKeepsInv(visit, roots, sdk, s, batch);
      BatchKeepsInv(visit, roots, sdk, Step(visit, s, batch[0]).value, batch[1..]);
    }
  }

  /** One round (the whole queue as a batch) keeps the invariant. */
  lemma RoundKeepsInv(visit: Visitor, roots: seq<Image>, sdk: Option<Image>, s: State) returns (s': State)
    requires Faithful(visit)
    requires Inv(visit, roots, sdk, s, s.remaining)
    requires ProcessBatch(visit, s.(remaining := []), s.remaining).Success?
    ensures s' == ProcessBatch(visit, s.(remaining := []), s.remaining).value
    ensures Inv(visit, roots, sdk, s', s'.remaining)
  {
    ClearQueueKeepsInv(visit, roots, sdk, s);
    BatchKeepsInv(visit, roots, sdk, s.(remaining := []), s.remaining);
    s' := ProcessBatch(visit, s.(remaining := []), s.remaining).value;
  }

  /** One round of a walk that goes on to succeed keeps the invariant and
      makes progress. */
  lemma Round(visit: Visitor, u: set<Key>, roots: seq<Image>, sdk: Option<Image>, s: State) returns (s': State)
    requires Bounded(visit, u) && Faithful(visit) && s.known.Keys <= u
    requires Inv(visit, roots, sdk, s, s.remaining)
    requires |s.remaining| > 0
    requires RunFrom(visit, u, s).Success?
    ensures Inv(visit, roots, sdk, s', s'.remaining)
    ensures s'.known.Keys <= u
    ensures |u - s'.known.Keys| < |u - s.known.Keys|
            || (|u - s'.known.Keys| == |u - s.known.Keys| && |s'.remaining| < |s.remaining|)
    ensures RunFrom(visit, u, s') == RunFrom(visit, u, s)
  {
    assert ProcessBatch(visit, s.(remaining := []), s.remaining).Success?;
    RoundAdvances(visit, u, s);
    s' := RoundKeepsInv(visit, roots, sdk, s);
  }

  /** The whole walk keeps the invariant and ends with an empty queue. */
  lemma {:induction false} RunKeepsInv(visit: Visitor, u: set<Key>, roots: seq<Image>, sdk: Option<Image>, s: State)
    requires Bounded(visit, u) && Faithful(visit) && s.known.Keys <= u
    requires Inv(visit, roots, sdk, s, s.remaining)
    requires RunFrom(visit, u, s).Success?
    ensures Inv(visit, roots, sdk, RunFrom(visit, u, s).value, RunFrom(visit, u, s).value.remaining)
    decreases |u - s.known.Keys|, |s.remaining|
  {
    if |s.remaining| > 0 {
      var s' := Round(visit, u, roots, sdk, s);
      RunKeepsInv(visit, u, roots, sdk, s');
    }
  }

  /** A successful walk locks exactly the kits reachable from the roots,
      each once and each as its visit pinned it, and when it collected a
      single SDK, the project and all those kits agree on it. */
  lemma WalkSoundAndComplete(visit: Visitor, u: set<Key>, roots: seq<Image>, sdk: Option<Image>)
    requires Bounded(visit, u) && Faithful(visit)
    requires RunFrom(visit, u, Initial(roots, sdk)).Success?
    ensures var s := RunFrom(visit, u, Initial(roots, sdk)).value;
            && DistinctKits(s.locked)
            && (forall i :: 0 <= i < |s.locked| ==> VisitedAs(visit, s.locked[i]))
            && (forall x :: Reachable(visit, roots, x) <==> exists i :: 0 <= i < |s.locked| && ImageOf(s.locked[i]) == x)
            && (|s.sdks| == 1 ==> SdkAgreed(visit, roots, sdk, TheOnly(s.sdks)))
  {
    var s := RunFrom(visit, u, Initial(roots, sdk)).value;
    RunFacts(visit, u, roots, sdk);
    if |s.sdks| == 1 {
      SingleSdkAgreed(visit, roots, sdk, s, TheOnly(s.sdks));
    }
  }

  /** What the invariant says of a finished walk. */
  lemma RunFacts(visit: Visitor, u: set<Key>, roots: seq<Image>, sdk: Option<Image>)
    requires Bounded(visit, u) && Faithful(visit)
    requires RunFrom(visit, u, Initial(roots, sdk)).Success?
    ensures var s := RunFrom(visit, u, Initial(roots, sdk)).value;
            && DistinctKits(s.locked)
            && (forall i :: 0 <= i < |s.locked| ==> VisitedAs(visit, s.locked[i]))
            && (forall x :: Reachable(visit, roots, x) <==> exists i :: 0 <= i < |s.locked| && ImageOf(s.locked[i]) == x)
            && SdksCollected(visit, sdk, s)
  {
    var s := RunFrom(visit, u, Initial(roots, sdk)).value;
    InitialInv(visit, roots, sdk);
    RunKeepsInv(visit, u, roots, sdk, Initial(roots, sdk));
    LockedIsReachable(visit, roots, sdk, s);
  }

  // ---------------------------------------------------------------------
  // When the walk succeeds

  /** Every reachable kit can be visited, and reachable references to one
      `(name, vendor)` pair name one version. */
  ghost predicate Resolvable(visit: Visitor, roots: seq<Image>) {
    && (forall x :: Reachable(visit, roots, x) ==> visit(x).Success?)
    && (forall x, y :: Reachable(visit, roots, x) && Reachable(visit, roots, y) && KeyOf(x) == KeyOf(y) ==>
          x.version == y.version)
  }

  /** In a resolvable graph the next step of the walk cannot fail: the kit is
      reachable, so it can be visited, and a seen kit with its key is
      reachable too, so it has the same version. */
  lemma StepSucceeds(visit: Visitor, roots: seq<Image>, s: State, batch: seq<Image>)
    requires Resolvable(visit, roots)
    requires |batch| > 0
    requires Tracked(visit, s) && Sound(visit, roots, s, batch + s.remaining)
    ensures Step(visit, s, batch[0]).Success?
  {
    var x := batch[0];
    assert Reachable(visit, roots, x) by { assert (batch + s.remaining)[0] == x; }
    if KeyOf(x) in s.known {
      var i :| 0 <= i < |s.locked| && KeyOf(ImageOf(s.locked[i])) == KeyOf(x);
      assert Reachable(visit, roots, ImageOf(s.locked[i]));
      assert Known(s, ImageOf(s.locked[i]));
    }
  }

  lemma {:induction false} BatchSucceeds(visit: Visitor, roots: seq<Image>, sdk: Option<Image>, s: State, batch: seq<Image>)
    requires Faithful(visit) && Resolvable(visit, roots)
    requires Inv(visit, roots, sdk, s, batch + s.remaining)
    ensures ProcessBatch(visit, s, batch).Success?
    decreases |batch|
  {
    if |batch| > 0 {
      StepSucceeds(visit, roots, s, batch);
      StepKeepsInv(visit, roots, sdk, s, batch);
      BatchSucceeds(visit, roots, sdk, Step(visit, s, batch[0]).value, batch[1..]);
    }
  }

  lemma {:induction false} RunSucceeds(visit: Visitor, u: set<Key>, roots: seq<Image>, sdk: Option<Image>, s: State)
    requires Bounded(visit, u) && Faithful(visit) && Resolvable(visit, roots) && s.known.Keys <= u
    requires Inv(visit, roots, sdk, s, s.remaining)
    ensures RunFrom(visit, u, s).Success?
    decreases |u - s.known.Keys|, |s.remaining|
  {
    if |s.remaining| > 0 {
      var s' := RoundSucceeds(visit, u, roots, sdk, s);
      RunSucceeds(visit, u, roots, sdk, s');
    }
  }

  /** One round of the walk over a resolvable graph succeeds, keeps the
      invariant and makes progress. */
  lemma RoundSucceeds(visit: Visitor, u: set<Key>, roots: seq<Image>, sdk: Option<Image>, s: State) returns (s': State)
    requires Bounded(visit, u) && Faithful(visit) && Resolvable(visit, roots) && s.known.Keys <= u
    requires Inv(visit, roots, sdk, s, s.remaining)
    requires |s.remaining| > 0
    ensures Inv(visit, roots, sdk, s', s'.remaining)
    ensures s'.known.Keys <= u
    ensures |u - s'.known.Keys| < |u - s.known.Keys|
            || (|u - s'.known.Keys| == |u - s.known.Keys| && |s'.remaining| < |s.remaining|)
    ensures RunFrom(visit, u, s') == RunFrom(visit, u, s)
  {
    RoundBatchSucceeds(visit, roots, sdk, s);
    RoundAdvances(visit, u, s);
    s' := RoundKeepsInv(visit, roots, sdk, s);
  }

  lemma RoundBatchSucceeds(visit: Visitor, roots: seq<Image>, sdk: Option<Image>, s: State)
    requires Faithful(visit) && Resolvable(visit, roots)
    requires Inv(visit, roots, sdk, s, s.remaining)
    ensures ProcessBatch(visit, s.(remaining := []), s.remaining).Success?
  {
    ClearQueueKeepsInv(visit, roots, sdk, s);
    BatchSucceeds(visit, roots, sdk, s.(remaining := []), s.remaining);
  }

  /** A successful round stays within the bound, is smaller in the walk's
      measure, and leads to the same outcome. */
  lemma RoundAdvances(visit: Visitor, u: set<Key>, s: State)
    requires Bounded(visit, u) && s.known.Keys <= u
    requires |s.remaining| > 0
    requires ProcessBatch(visit, s.(remaining := []), s.remaining).Success?
    ensures var s' := ProcessBatch(visit, s.(remaining := []), s.remaining).value;
            && s'.known.Keys <= u
            && (|u - s'.known.Keys| < |u - s.known.Keys|
                || (|u - s'.known.Keys| == |u - s.known.Keys| && |s'.remaining| < |s.remaining|))
            && RunFrom(visit, u, s') == RunFrom(visit, u, s)
  {
    var start := s.(remaining := []);
    BatchStaysBounded(visit, u, start, s.remaining);
    var s' := ProcessBatch(visit, start, s.remaining).value;
    if s'.known.Keys != s.known.Keys {
      FewerUnknown(u, s.known.Keys, s'.known.Keys);
    }
  }

  /** The walk succeeds exactly on resolvable graphs. */
  lemma WalkSucceeds(visit: Visitor, u: set<Key>, roots: seq<Image>, sdk: Option<Image>)
    requires Bounded(visit, u) && Faithful(visit)
    ensures RunFrom(visit, u, Initial(roots, sdk)).Success? <==> Resolvable(visit, roots)
  {
    if Resolvable(visit, roots) {
      InitialInv(visit, roots, sdk);
      RunSucceeds(visit, u, roots, sdk, Initial(roots, sdk));
    }
    if RunFrom(visit, u, Initial(roots, sdk)).Success? {
      WalkNeedsResolvable(visit, u, roots, sdk);
    }
  }

  /** A successful walk met no unvisitable reachable kit and no second
      version of one. */
  lemma WalkNeedsResolvable(visit: Visitor, u: set<Key>, roots: seq<Image>, sdk: Option<Image>)
    requires Bounded(visit, u) && Faithful(visit)
    requires RunFrom(visit, u, Initial(roots, sdk)).Success?
    ensures Resolvable(visit, roots)
  {
    var s := RunFrom(visit, u, Initial(roots, sdk)).value;
    RunFacts(visit, u, roots, sdk);
    forall x | Reachable(visit, roots, x) ensures visit(x).Success? {
      var i :| 0 <= i < |s.locked| && ImageOf(s.locked[i]) == x;
      assert VisitedAs(visit, s.locked[i]);
    }
    forall x, y | Reachable(visit, roots, x) && Reachable(visit, roots, y) && KeyOf(x) == KeyOf(y)
      ensures x.version == y.version
    {
      var i :| 0 <= i < |s.locked| && ImageOf(s.locked[i]) == x;
      var j :| 0 <= j < |s.locked| && ImageOf(s.locked[j]) == y;
      assert KeyOf(ImageOf(s.locked[i])) == KeyOf(ImageOf(s.locked[j]));
    }
  }

  /** Two kits that depend on each other: the walk visits each once, in
      order, and stops when the cycle leads back to a seen kit. */
  lemma CycleWalk(visit: Visitor, u: set<Key>, a: Image, b: Image, z: Image, va: Visited, vb: Visited)
    requires Bounded(visit, u)
    requires KeyOf(a) != KeyOf(b)
    requires visit(a) == Success(va) && va.meta.kits == [b] && va.meta.sdk == z
    requires visit(b) == Success(vb) && vb.meta.kits == [a] && vb.meta.sdk == z
    ensures RunFrom(visit, u, Initial([a], Some(z)))
            == Success(State(map[KeyOf(a) := a.version, KeyOf(b) := b.version], [va.locked, vb.locked], [], {z}))
  {
    var s0 := Initial([a], Some(z));
    var s1 := State(map[KeyOf(a) := a.version], [va.locked], [b], {z});
    var s2 := State(map[KeyOf(a) := a.version, KeyOf(b) := b.version], [va.locked, vb.locked], [a], {z});
    var s3 := s2.(remaining := []);
    assert [a][1..] == [] && [b][1..] == [];
    assert Step(visit, s0.(remaining := []), a) == Success(s1) by {
      var t := s0.(remaining := []);
      assert t.known == map[] && t.locked == [] && t.remaining == [] && t.sdks == {z};
      assert KeyOf(a) !in t.known;
      assert t.known[KeyOf(a) := a.version] == s1.known;
      assert t.locked + [va.locked] == s1.locked;
      assert t.remaining + va.meta.kits == s1.remaining;
      assert t.sdks + {va.meta.sdk} == s1.sdks;
    }
    assert ProcessBatch(visit, s0.(remaining := []), [a]) == Success(s1);
    assert Step(visit, s1.(remaining := []), b) == Success(s2) by {
      var t := s1.(remaining := []);
      assert KeyOf(b) !in t.known;
      assert t.known[KeyOf(b) := b.version] == s2.known;
      assert t.locked + [vb.locked] == s2.locked;
      assert t.remaining + vb.meta.kits == s2.remaining;
      assert t.sdks + {vb.meta.sdk} == s2.sdks;
    }
    assert ProcessBatch(visit, s1.(remaining := []), [b]) == Success(s2);
    assert ProcessBatch(visit, s2.(remaining := []), [a]) == Success(s3);
    assert RunFrom(visit, u, s2) == RunFrom(visit, u, s3);
    assert RunFrom(visit, u, s1) == RunFrom(visit, u, s2);
  }

  /** The single element of a one-element set. */
  function TheOnly(s: set<Image>): (x: Image)
    requires |s| == 1
    ensures s == {x}
  {
    SingletonUnique(s);
    var x :| x in s; SingletonIs(s, x); x
  }

  lemma SingletonIs(s: set<Image>, a: Image)
    requires |s| == 1 && a in s
    ensures s == {a}
  {
    var rest := s - {a};
    assert s == rest + {a};
  }

  lemma SingletonUnique(s: set<Image>)
    requires |s| == 1
    ensures forall x, y :: x in s && y in s ==> x == y
  {
    forall x, y | x in s && y in s ensures x == y {
      SingletonIs(s, x);
    }
  }

  /** The worklist loop: take the whole queue as a batch, step through it
      kit by kit, repeat until the queue is empty. */
  method Run(visit: Visitor, ghost u: set<Key>, roots: seq<Image>, sdk: Option<Image>) returns (r: Result<State>)
    requires Bounded(visit, u)
    ensures r == RunFrom(visit, u, Initial(roots, sdk))
    ensures r.Success? ==> r.value.remaining == []
  {
    ghost var goal := RunFrom(visit, u, Initial(roots, sdk));
    var s := Initial(roots, sdk);
    while |s.remaining| > 0
      invariant s.known.Keys <= u
      invariant RunFrom(visit, u, s) == goal
      decreases |u - s.known.Keys|, |s.remaining|
    {
      var batch := s.remaining;
      ghost var start := s.(remaining := []);
      var i := 0;
      s := s.(remaining := []);
      while i < |batch|
        invariant 0 <= i <= |batch|
        invariant start.known.Keys <= s.known.Keys
        invariant ProcessBatch(visit, s, batch[i..]) == ProcessBatch(visit, start, batch)
        decreases |batch| - i
      {
        assert batch[i..][1..] == batch[i + 1..];
        var step := Step(visit, s, batch[i]);
        if step.Failure? {
          return Failure(step.error);
        }
        s := step.value;
        i := i + 1;
      }
      assert batch[i..] == [];
      BatchStaysBounded(visit, u, start, batch);
      if s.known.Keys != start.known.Keys {
        FewerUnknown(u, start.known.Keys, s.known.Keys);
      }
    }
    r := Success(s);
  }
}
