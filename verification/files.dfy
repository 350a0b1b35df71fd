/** An abstract filesystem: a map from paths to file contents, a set of
    directories, and a clock that every mutation advances (standing for the
    modification times a real filesystem would change). Paths are sequences of
    components. */
module Files {
  import opened Text
  import opened Results

  type Path = seq<string>

  datatype FileSystem = FileSystem(files: map<Path, Bytes>, dirs: set<Path>, clock: nat)

  /** The state after an operation together with its outcome. A failed
      operation still returns the state it left behind. */
  datatype Effect<+T> = Effect(fs: FileSystem, result: Result<T>)

  predicate Exists(fs: FileSystem, p: Path) {
    p in fs.files || p in fs.dirs
  }

  /** `p` is `root` itself or lies below it. */
  predicate Within(p: Path, root: Path) {
    |root| <= |p| && p[..|root|] == root
  }

  /** `p` and every non-empty prefix of it. */
  function Ancestry(p: Path): set<Path> {
    set i | 1 <= i <= |p| :: p[..i]
  }

  /** `q` is a directory and no file shadows it. */
  predicate IsDir(fs: FileSystem, q: Path) {
    q in fs.dirs && q !in fs.files
  }

  /** `create_dir_all`: creates `p` and its ancestors; fails when one of them
      is a file; changes nothing when they all exist already. */
  function CreateDirAll(fs: FileSystem, p: Path): (e: Effect<()>)
    ensures e.result.Success? <==> Ancestry(p) * fs.files.Keys == {}
    ensures e.result.Failure? ==> e == Effect(fs, Failure(NotADirectory(p)))
    ensures e.fs.files == fs.files && fs.dirs <= e.fs.dirs
    ensures e.result.Success? ==> forall q :: q in Ancestry(p) ==> IsDir(e.fs, q)
    ensures e.fs.dirs - fs.dirs <= Ancestry(p)
    ensures (forall q :: q in Ancestry(p) ==> IsDir(fs, q)) ==> e == Effect(fs, Success(()))
  {
    if Ancestry(p) * fs.files.Keys != {} then Effect(fs, Failure(NotADirectory(p)))
    else
      assert forall q :: q in Ancestry(p) ==> q !in fs.files by {
        forall q | q in Ancestry(p) ensures q !in fs.files {
          assert q !in Ancestry(p) * fs.files.Keys;
        }
      }
      if Ancestry(p) <= fs.dirs then Effect(fs, Success(()))
      else Effect(fs.(dirs := fs.dirs + Ancestry(p), clock := fs.clock + 1), Success(()))
  }

  /** `remove_dir_all`: removes the directory `p` with everything below it. */
  function RemoveDirAll(fs: FileSystem, p: Path): (e: Effect<()>)
    ensures e.result.Success? <==> p in fs.dirs
    ensures e.result.Failure? ==> e.fs == fs
    ensures forall q :: !Within(q, p) ==> (q in e.fs.dirs <==> q in fs.dirs)
    ensures forall q :: !Within(q, p) ==> (q in e.fs.files <==> q in fs.files)
    ensures forall q :: !Within(q, p) && q in fs.files ==> e.fs.files[q] == fs.files[q]
    ensures e.result.Success? ==> forall q :: Within(q, p) ==> !Exists(e.fs, q)
  {
    if p !in fs.dirs then Effect(fs, Failure(NotFound(p)))
    else
      var files := map q | q in fs.files && !Within(q, p) :: fs.files[q];
      var dirs := set q | q in fs.dirs && !Within(q, p);
      Effect(FileSystem(files, dirs, fs.clock + 1), Success(()))
  }

  /** `read`: the contents of a file. */
  function Read(fs: FileSystem, p: Path): (r: Result<Bytes>)
    ensures r.Success? <==> p in fs.files
    ensures r.Success? ==> r.value == fs.files[p]
  {
    if p in fs.files then Success(fs.files[p])
    else if p in fs.dirs then Failure(IsADirectory(p))
    else Failure(NotFound(p))
  }

  /** `write`: replaces the contents of `p`; fails on a directory. */
  function Write(fs: FileSystem, p: Path, data: Bytes): (e: Effect<()>)
    ensures e.result.Success? <==> p !in fs.dirs
    ensures e.result.Success? ==> p in e.fs.files && e.fs.files[p] == data
    ensures e.fs.dirs == fs.dirs
    ensures forall q :: q != p ==> (q in e.fs.files <==> q in fs.files)
    ensures forall q :: q != p && q in fs.files ==> e.fs.files[q] == fs.files[q]
    ensures e.result.Failure? ==> e.fs == fs
  {
    if p in fs.dirs then Effect(fs, Failure(IsADirectory(p)))
    else Effect(fs.(files := fs.files[p := data], clock := fs.clock + 1), Success(()))
  }

  /** `Path::join` with a path string: an absolute string replaces the base,
      a relative one appends its components. */
  function Join(base: Path, s: string): Path {
    if StartsWith(s, "/") then Components(s) else base + Components(s)
  }

  /** Neither path lies within the other. */
  predicate Apart(p: Path, q: Path) {
    !Within(p, q) && !Within(q, p)
  }

  /** A path within one of two apart paths is not within the other. */
  lemma ApartWithin(p: Path, q: Path, x: Path)
    requires Apart(p, q) && Within(x, p)
    ensures !Within(x, q)
  {
    if |p| <= |q| {
      if |q| <= |x| {
        assert x[..|q|][..|p|] == p;
      }
    } else {
      assert x[..|q|] == p[..|q|];
    }
  }

  /** The two states hold the same file, or no file, at `q`. */
  predicate SameAt(fs1: FileSystem, fs2: FileSystem, q: Path) {
    && (q in fs1.files <==> q in fs2.files)
    && (q in fs1.files ==> fs1.files[q] == fs2.files[q])
  }

  /** One file of an archive: a path relative to where it is unpacked. */
  datatype Entry = Entry(path: Path, contents: Bytes)

  /** The entries whose relative path is `rel`. */
  predicate Touches(entries: seq<Entry>, rel: Path) {
    exists k :: 0 <= k < |entries| && entries[k].path == rel
  }

  lemma JoinCancels(root: Path, a: Path, b: Path)
    ensures root + a == root + b <==> a == b
  {
    if root + a == root + b {
      assert a == (root + a)[|root|..];
      assert b == (root + b)[|root|..];
    }
  }

  /** Writes the entries below `root` in order, stopping at the first failure.
      Later entries overwrite earlier ones (last writer wins). */
  function ApplyEntries(fs: FileSystem, root: Path, entries: seq<Entry>): (e: Effect<()>)
    ensures e.fs.dirs == fs.dirs
    ensures fs.files.Keys <= e.fs.files.Keys
    ensures forall q :: q in e.fs.files && q !in fs.files ==> q !in fs.dirs
    ensures forall rel :: !Touches(entries, rel) ==>
              && (root + rel in e.fs.files <==> root + rel in fs.files)
              && (root + rel in fs.files ==> e.fs.files[root + rel] == fs.files[root + rel])
    ensures forall q :: !Within(q, root) && q in fs.files ==> e.fs.files[q] == fs.files[q]
    ensures forall q :: !Within(q, root) ==> (q in e.fs.files <==> q in fs.files)
    ensures e.result.Success? ==>
              forall k :: 0 <= k < |entries| && !Touches(entries[k + 1..], entries[k].path) ==>
                root + entries[k].path in e.fs.files && e.fs.files[root + entries[k].path] == entries[k].contents
    decreases |entries|
  {
    if |entries| == 0 then Effect(fs, Success(()))
    else
      var w := Write(fs, root + entries[0].path, entries[0].contents);
      if w.result.Failure? then w
      else
        var e := ApplyEntries(w.fs, root, entries[1..]);
        LastWriterWins(fs, w.fs, e, root, entries);
        e
  }

  /** The step case of `ApplyEntries`' overlay properties: `mid` is the state
      after the first entry, `e` the outcome of applying the rest. */
  lemma LastWriterWins(fs: FileSystem, mid: FileSystem, e: Effect<()>, root: Path, entries: seq<Entry>)
    requires |entries| > 0
    requires Write(fs, root + entries[0].path, entries[0].contents) == Effect(mid, Success(()))
    requires mid.files.Keys <= e.fs.files.Keys
    requires e.result.Success? ==>
              forall k :: 0 <= k < |entries[1..]| && !Touches(entries[1..][k + 1..], entries[1..][k].path) ==>
                root + entries[1..][k].path in e.fs.files && e.fs.files[root + entries[1..][k].path] == entries[1..][k].contents
    requires forall rel :: !Touches(entries[1..], rel) ==>
              && (root + rel in e.fs.files <==> root + rel in mid.files)
              && (root + rel in mid.files ==> e.fs.files[root + rel] == mid.files[root + rel])
    ensures forall rel :: !Touches(entries, rel) ==>
              && (root + rel in e.fs.files <==> root + rel in fs.files)
              && (root + rel in fs.files ==> e.fs.files[root + rel] == fs.files[root + rel])
    ensures e.result.Success? ==>
              forall k :: 0 <= k < |entries| && !Touches(entries[k + 1..], entries[k].path) ==>
                root + entries[k].path in e.fs.files && e.fs.files[root + entries[k].path] == entries[k].contents
  {
    forall rel | !Touches(entries, rel)
      ensures root + rel in e.fs.files <==> root + rel in fs.files
      ensures root + rel in fs.files ==> e.fs.files[root + rel] == fs.files[root + rel]
    {
      JoinCancels(root, rel, entries[0].path);
    }
    if e.result.Success? {
      forall k | 0 <= k < |entries| && !Touches(entries[k + 1..], entries[k].path)
        ensures root + entries[k].path in e.fs.files && e.fs.files[root + entries[k].path] == entries[k].contents
      {
        if k == 0 {
          assert entries[1..] == entries[k + 1..];
        } else {
          assert entries[1..][k - 1] == entries[k];
          assert entries[1..][k - 1 + 1..] == entries[k + 1..];
        }
      }
    }
  }

  /** The contents the last entry naming `rel` gives it, or `None` when no
      entry names it. */
  function LastWrite(entries: seq<Entry>, rel: Path): Option<Bytes>
    decreases |entries|
  {
    if |entries| == 0 then None
    else if entries[|entries| - 1].path == rel then Some(entries[|entries| - 1].contents)
    else LastWrite(entries[..|entries| - 1], rel)
  }

  /** `LastWrite` finds the entry after which no other names `rel`. */
  lemma {:induction false} LastWriteFound(entries: seq<Entry>, rel: Path)
    ensures LastWrite(entries, rel).None? <==> !Touches(entries, rel)
    ensures LastWrite(entries, rel).Some? ==>
              exists k :: && 0 <= k < |entries| && entries[k].path == rel
                          && entries[k].contents == LastWrite(entries, rel).value
                          && !Touches(entries[k + 1..], rel)
    decreases |entries|
  {
    if |entries| > 0 {
      var n := |entries| - 1;
      var init := entries[..n];
      if entries[n].path == rel {
        assert entries[n + 1..] == [];
      } else {
        LastWriteFound(init, rel);
        if Touches(entries, rel) {
          var k :| 0 <= k < |entries| && entries[k].path == rel;
          assert init[k] == entries[k];
        }
        if LastWrite(init, rel).Some? {
          var k :| && 0 <= k < n && init[k].path == rel
                   && init[k].contents == LastWrite(init, rel).value
                   && !Touches(init[k + 1..], rel);
          assert entries[k] == init[k];
          var later := entries[k + 1..];
          forall j | 0 <= j < |later| ensures later[j].path != rel {
            if j < |init[k + 1..]| {
              assert later[j] == init[k + 1..][j];
            } else {
              assert later[j] == entries[n];
            }
          }
        }
      }
    }
  }

  /** Entries applied after others win where both name a path. */
  lemma {:induction false} LastWriteAppend(first: seq<Entry>, second: seq<Entry>, rel: Path)
    ensures LastWrite(first + second, rel)
            == if LastWrite(second, rel).Some? then LastWrite(second, rel) else LastWrite(first, rel)
    decreases |second|
  {
    if |second| == 0 {
      assert first + second == first;
    } else {
      var n := |second| - 1;
      assert (first + second)[|first + second| - 1] == second[n];
      assert (first + second)[..|first + second| - 1] == first + second[..n];
      LastWriteAppend(first, second[..n], rel);
    }
  }

  /** The entries of a sequence of archives, one archive after the other. */
  function Concat(archives: seq<seq<Entry>>): seq<Entry>
    decreases |archives|
  {
    if |archives| == 0 then [] else archives[0] + Concat(archives[1..])
  }

  /** `after` is `before` with `entries` unpacked over `root`: a path some
      entry names holds the last such entry's contents, any other path below
      `root` is as it was. */
  ghost predicate Overlaid(before: FileSystem, after: FileSystem, root: Path, entries: seq<Entry>) {
    forall rel ::
      && (LastWrite(entries, rel).Some? ==>
            root + rel in after.files && after.files[root + rel] == LastWrite(entries, rel).value)
      && (LastWrite(entries, rel).None? ==> SameAt(before, after, root + rel))
  }

  /** A successful `ApplyEntries` overlays the entries, last writer winning. */
  lemma ApplyEntriesOverlays(fs: FileSystem, root: Path, entries: seq<Entry>)
    requires ApplyEntries(fs, root, entries).result.Success?
    ensures Overlaid(fs, ApplyEntries(fs, root, entries).fs, root, entries)
  {
    forall rel {
      LastWriteFound(entries, rel);
    }
  }

  /** Overlaying `first` and then `second` overlays their concatenation. */
  lemma OverlaidCompose(fs0: FileSystem, fs1: FileSystem, fs2: FileSystem, root: Path,
                        first: seq<Entry>, second: seq<Entry>)
    requires Overlaid(fs0, fs1, root, first) && Overlaid(fs1, fs2, root, second)
    ensures Overlaid(fs0, fs2, root, first + second)
  {
    forall rel {
      LastWriteAppend(first, second, rel);
    }
  }
}
