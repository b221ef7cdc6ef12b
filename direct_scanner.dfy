/** The include-closure scanner of `src/direct/scanner.rs`: starting from one
    source file, every file it includes is looked up in a list of context
    directories and include directories, and the closure of all included
    files is collected with a worklist. The file system is a parameter:
    which paths are files, `canonicalize`, and the include list of each file
    (reading the file and parsing it). */
module DirectScanner {
  import opened Common
  import opened Paths
  import Includes

  type Include = Includes.Include<Path>

  /** An `io::Error`, kept opaque. */
  datatype IoError = IoError(path: Path)

  /** The file system as the scanner sees it. `files` is the finite set of
      paths a lookup can produce. */
  datatype FileSystem = FileSystem(
    files: set<Path>,
    isFile: Path -> bool,
    canonicalize: Path -> Result<Path, IoError>,
    includes: Path -> Result<seq<Include>, IoError>)

  /** Every path a lookup or an absolute include yields is in `files`. */
  ghost predicate Closed(fs: FileSystem) {
    (forall p :: fs.canonicalize(p).Ok? ==> fs.canonicalize(p).value in fs.files)
    && (forall f :: fs.includes(f).Ok? ==> AbsoluteIn(fs.includes(f).value, fs.files))
  }

  predicate AbsoluteIn(incs: seq<Include>, files: set<Path>) {
    forall i :: 0 <= i < |incs| ==> IsAbsolute(incs[i].path) ==> incs[i].path in files
  }

  datatype IncludeBehaviour = Clang | VisualStudio

  /** The context directories paired with the source they apply to. */
  datatype CollectTask = CollectTask(context: seq<Path>, source: Path)

  // ------------------------------------------------------------ contexts

  /** The context with every occurrence of `d` removed, others in order. */
  function RemoveAll(c: seq<Path>, d: Path): (r: seq<Path>)
    ensures forall x :: x in r <==> x in c && x != d
    ensures |r| <= |c|
  {
    if c == [] then []
    else if c[0] == d then RemoveAll(c[1..], d)
    else [c[0]] + RemoveAll(c[1..], d)
  }

  /** `RemoveAll` is a filter: it distributes over concatenation. */
  lemma {:induction false} RemoveAllAppend(a: seq<Path>, b: seq<Path>, d: Path)
    ensures RemoveAll(a + b, d) == RemoveAll(a, d) + RemoveAll(b, d)
    decreases |a|
  {
    if a == [] {
      assert a + b == b;
    } else {
      assert (a + b)[1..] == a[1..] + b;
      RemoveAllAppend(a[1..], b, d);
    }
  }

  predicate Distinct(c: seq<Path>) {
    forall i, j :: 0 <= i < j < |c| ==> c[i] != c[j]
  }

  lemma {:induction false} RemoveAllDistinct(c: seq<Path>, d: Path)
    requires Distinct(c)
    ensures Distinct(RemoveAll(c, d))
    decreases |c|
  {
    if c != [] {
      RemoveAllDistinct(c[1..], d);
      assert forall j :: 0 <= j < |c[1..]| ==> c[1..][j] != c[0];
      var r := RemoveAll(c[1..], d);
      assert c[0] !in r;
      if c[0] != d {
        assert forall j :: 0 <= j < |r| ==> ([c[0]] + r)[j + 1] == r[j];
      }
    }
  }

  /** `combine_context`: the context directories an include of `source`
      is searched in. */
  function CombineContext(b: IncludeBehaviour, context: seq<Path>, source: Path): (r: seq<Path>)
  {
    match b
    case Clang =>
      (match Parent(source)
       case Some(d) => [d]
       case None => [])
    case VisualStudio =>
      match Parent(source)
      case None => context
      case Some(d) =>
        if context != [] && context[|context| - 1] == d then context
        else RemoveAll(context, d) + [d]
  }

  /** Clang: the context is the source's directory alone, whatever came before. */
  lemma CombineClang(c1: seq<Path>, c2: seq<Path>, source: Path)
    ensures CombineContext(Clang, c1, source) == CombineContext(Clang, c2, source)
    ensures |CombineContext(Clang, c1, source)| <= 1
    ensures CombineContext(Clang, c1, source) == [] <==> Parent(source).None?
    ensures Parent(source).Some? ==> CombineContext(Clang, c1, source)[0] == Parent(source).value
  {
  }

  /** Visual Studio: unchanged when the source has no directory or its
      directory is already last. */
  lemma CombineVsUnchanged(c: seq<Path>, source: Path)
    requires Parent(source).None? || (c != [] && c[|c| - 1] == Parent(source).value)
    ensures CombineContext(VisualStudio, c, source) == c
  {
  }

  /** Visual Studio otherwise: the source directory moves to the end, once;
      every other directory stays, in order. */
  lemma CombineVsMoves(c: seq<Path>, source: Path)
    requires Parent(source).Some?
    requires c == [] || c[|c| - 1] != Parent(source).value
    ensures var r := CombineContext(VisualStudio, c, source); var d := Parent(source).value;
      r != [] && r[|r| - 1] == d
      && d !in r[..|r| - 1]
      && (forall x :: x in r <==> x in c || x == d)
      && r[..|r| - 1] == RemoveAll(c, d)
  {
    var r := CombineContext(VisualStudio, c, source);
    assert r[..|r| - 1] == RemoveAll(c, Parent(source).value);
  }

  /** Combining twice with the same source changes nothing more. */
  lemma CombineIdempotent(b: IncludeBehaviour, c: seq<Path>, source: Path)
    ensures CombineContext(b, CombineContext(b, c, source), source) == CombineContext(b, c, source)
  {
  }

  lemma DistinctAppend(c: seq<Path>, d: Path)
    requires Distinct(c) && d !in c
    ensures Distinct(c + [d])
  {
  }

  /** Contexts stay free of duplicates. */
  lemma CombineDistinct(b: IncludeBehaviour, c: seq<Path>, source: Path)
    requires Distinct(c)
    ensures Distinct(CombineContext(b, c, source))
  {
    if b == VisualStudio && Parent(source).Some? {
      var d := Parent(source).value;
      if !(c != [] && c[|c| - 1] == d) {
        RemoveAllDistinct(c, d);
        DistinctAppend(RemoveAll(c, d), d);
      }
    }
  }

  // -------------------------------------------------------- include lookup

  function Reverse(c: seq<Path>): (r: seq<Path>)
    ensures |r| == |c|
    ensures forall i :: 0 <= i < |c| ==> r[i] == c[|c| - 1 - i]
  {
    if c == [] then [] else Reverse(c[1..]) + [c[0]]
  }

  /** The directories an include is searched in: for `"..."` the context
      last to first, then the include directories; for `<...>` only the
      include directories. */
  function SearchDirs(inc: Include, context: seq<Path>, includeDir: seq<Path>): (r: seq<Path>)
    ensures inc.Bracket? ==> r == includeDir
    ensures inc.Quote? ==> (|r| == |context| + |includeDir|
      && (forall i :: 0 <= i < |context| ==> r[i] == context[|context| - 1 - i])
      && r[|context|..] == includeDir)
  {
    match inc
    case Quote(_) => Reverse(context) + includeDir
    case Bracket(_) => includeDir
  }

  /** The first directory in which the joined path is a file, canonicalized. */
  function FirstFile(fs: FileSystem, p: Path, dirs: seq<Path>): Option<Result<Path, IoError>>
    decreases |dirs|
  {
    if dirs == [] then None
    else if fs.isFile(Join(dirs[0], p)) then Some(fs.canonicalize(Join(dirs[0], p)))
    else FirstFile(fs, p, dirs[1..])
  }

  /** `solve_include_path`. */
  function SolveIncludePath(fs: FileSystem, p: Path, dirs: seq<Path>): Option<Result<Path, IoError>> {
    if IsAbsolute(p) then Some(Ok(p)) else FirstFile(fs, p, dirs)
  }

  /** An absolute path is returned as is; otherwise the first directory
      where the joined path is a file wins, and no such directory drops the
      include. */
  lemma {:induction false} SolveIncludePathSpec(fs: FileSystem, p: Path, dirs: seq<Path>)
    ensures IsAbsolute(p) ==> SolveIncludePath(fs, p, dirs) == Some(Ok(p))
    ensures !IsAbsolute(p) ==>
      (SolveIncludePath(fs, p, dirs).None? <==> forall i :: 0 <= i < |dirs| ==> !fs.isFile(Join(dirs[i], p)))
    ensures !IsAbsolute(p) && SolveIncludePath(fs, p, dirs).Some? ==>
      exists i :: 0 <= i < |dirs| && fs.isFile(Join(dirs[i], p))
        && (forall j :: 0 <= j < i ==> !fs.isFile(Join(dirs[j], p)))
        && SolveIncludePath(fs, p, dirs) == Some(fs.canonicalize(Join(dirs[i], p)))
  {
    if !IsAbsolute(p) {
      FirstFileSpec(fs, p, dirs);
    }
  }

  lemma {:induction false} FirstFileSpec(fs: FileSystem, p: Path, dirs: seq<Path>)
    ensures FirstFile(fs, p, dirs).None? <==> forall i :: 0 <= i < |dirs| ==> !fs.isFile(Join(dirs[i], p))
    ensures FirstFile(fs, p, dirs).Some? ==>
      exists i :: 0 <= i < |dirs| && fs.isFile(Join(dirs[i], p))
        && (forall j :: 0 <= j < i ==> !fs.isFile(Join(dirs[j], p)))
        && FirstFile(fs, p, dirs) == Some(fs.canonicalize(Join(dirs[i], p)))
    decreases |dirs|
  {
    if dirs != [] && !fs.isFile(Join(dirs[0], p)) {
      FirstFileSpec(fs, p, dirs[1..]);
      if FirstFile(fs, p, dirs).Some? {
        var i :| 0 <= i < |dirs[1..]| && fs.isFile(Join(dirs[1..][i], p))
          && (forall j :: 0 <= j < i ==> !fs.isFile(Join(dirs[1..][j], p)))
          && FirstFile(fs, p, dirs[1..]) == Some(fs.canonicalize(Join(dirs[1..][i], p)));
        assert dirs[i + 1] == dirs[1..][i];
        forall j | 0 <= j < i + 1 ensures !fs.isFile(Join(dirs[j], p)) {
          if j > 0 { assert dirs[j] == dirs[1..][j - 1]; }
        }
      } else {
        forall i | 0 <= i < |dirs| ensures !fs.isFile(Join(dirs[i], p)) {
          if i > 0 { assert dirs[i] == dirs[1..][i - 1]; }
        }
      }
    }
  }

  /** The `filter_map` and `collect` of `file_include_paths`: includes no
      directory has are dropped, the first lookup error ends the list. */
  function ResolveAll(fs: FileSystem, incs: seq<Include>, context: seq<Path>, includeDir: seq<Path>)
    : (r: Result<seq<Path>, IoError>)
    ensures r.Ok? ==> |r.value| <= |incs|
    decreases |incs|
  {
    if incs == [] then Ok([])
    else
      match SolveIncludePath(fs, incs[0].path, SearchDirs(incs[0], context, includeDir))
      case None => ResolveAll(fs, incs[1..], context, includeDir)
      case Some(Err(e)) => Err(e)
      case Some(Ok(p)) =>
        match ResolveAll(fs, incs[1..], context, includeDir)
        case Ok(ps) => Ok([p] + ps)
        case Err(e) => Err(e)
  }

  /** The lookup fails exactly when some include's lookup fails, and then
      with the first such error. */
  lemma {:induction false} ResolveAllFails(fs: FileSystem, incs: seq<Include>, context: seq<Path>, includeDir: seq<Path>)
    ensures ResolveAll(fs, incs, context, includeDir).Err? <==>
      exists i :: 0 <= i < |incs| && Failed(fs, incs[i], context, includeDir)
    decreases |incs|
  {
    if incs != [] {
      ResolveAllFails(fs, incs[1..], context, includeDir);
      if exists i :: 0 <= i < |incs[1..]| && Failed(fs, incs[1..][i], context, includeDir) {
        var i :| 0 <= i < |incs[1..]| && Failed(fs, incs[1..][i], context, includeDir);
        assert incs[i + 1] == incs[1..][i];
      }
      if exists i :: 0 <= i < |incs| && Failed(fs, incs[i], context, includeDir) {
        var i :| 0 <= i < |incs| && Failed(fs, incs[i], context, includeDir);
        if i > 0 {
          assert incs[1..][i - 1] == incs[i];
        }
      }
    }
  }

  predicate Failed(fs: FileSystem, inc: Include, context: seq<Path>, includeDir: seq<Path>) {
    var r := SolveIncludePath(fs, inc.path, SearchDirs(inc, context, includeDir));
    r.Some? && r.value.Err?
  }

  /** Every resolved path is the lookup result of one of the includes. */
  lemma {:induction false} ResolveAllFrom(fs: FileSystem, incs: seq<Include>, context: seq<Path>, includeDir: seq<Path>)
    requires ResolveAll(fs, incs, context, includeDir).Ok?
    ensures var ps := ResolveAll(fs, incs, context, includeDir).value;
      forall k :: 0 <= k < |ps| ==> exists i :: (0 <= i < |incs| &&
        SolveIncludePath(fs, incs[i].path, SearchDirs(incs[i], context, includeDir)) == Some(Ok(ps[k])))
    decreases |incs|
  {
    if incs != [] {
      ResolveAllFrom(fs, incs[1..], context, includeDir);
      var ps := ResolveAll(fs, incs, context, includeDir).value;
      var rest := ResolveAll(fs, incs[1..], context, includeDir).value;
      forall k | 0 <= k < |ps| ensures exists i :: (0 <= i < |incs| &&
        SolveIncludePath(fs, incs[i].path, SearchDirs(incs[i], context, includeDir)) == Some(Ok(ps[k])))
      {
        if SolveIncludePath(fs, incs[0].path, SearchDirs(incs[0], context, includeDir)).None? {
          var i :| 0 <= i < |incs[1..]| &&
            SolveIncludePath(fs, incs[1..][i].path, SearchDirs(incs[1..][i], context, includeDir)) == Some(Ok(rest[k]));
          assert incs[i + 1] == incs[1..][i];
        } else if k > 0 {
          var i :| 0 <= i < |incs[1..]| &&
            SolveIncludePath(fs, incs[1..][i].path, SearchDirs(incs[1..][i], context, includeDir)) == Some(Ok(rest[k - 1]));
          assert incs[i + 1] == incs[1..][i];
        }
      }
    }
  }

  /** `file_include_paths`: the resolved paths of a file's includes. */
  function FileIncludePaths(fs: FileSystem, source: Path, context: seq<Path>, includeDir: seq<Path>)
    : Result<seq<Path>, IoError>
  {
    match fs.includes(source)
    case Err(e) => Err(e)
    case Ok(incs) => ResolveAll(fs, incs, context, includeDir)
  }

  lemma {:induction false} ResolveAllInFiles(fs: FileSystem, incs: seq<Include>, context: seq<Path>, includeDir: seq<Path>)
    requires Closed(fs) && AbsoluteIn(incs, fs.files)
    requires ResolveAll(fs, incs, context, includeDir).Ok?
    ensures forall k :: 0 <= k < |ResolveAll(fs, incs, context, includeDir).value| ==>
      ResolveAll(fs, incs, context, includeDir).value[k] in fs.files
    decreases |incs|
  {
    if incs != [] {
      var dirs := SearchDirs(incs[0], context, includeDir);
      assert AbsoluteIn(incs[1..], fs.files) by {
        forall i | 0 <= i < |incs[1..]| ensures IsAbsolute(incs[1..][i].path) ==> incs[1..][i].path in fs.files {
          assert incs[1..][i] == incs[i + 1];
        }
      }
      ResolveAllInFiles(fs, incs[1..], context, includeDir);
      if !IsAbsolute(incs[0].path) {
        FirstFileInFiles(fs, incs[0].path, dirs);
      }
    }
  }

  lemma {:induction false} FirstFileInFiles(fs: FileSystem, p: Path, dirs: seq<Path>)
    requires Closed(fs)
    ensures FirstFile(fs, p, dirs).Some? && FirstFile(fs, p, dirs).value.Ok? ==>
      FirstFile(fs, p, dirs).value.value in fs.files
    decreases |dirs|
  {
    if dirs != [] && !fs.isFile(Join(dirs[0], p)) {
      FirstFileInFiles(fs, p, dirs[1..]);
    }
  }

  // --------------------------------------------------------------- closure

  /** The directories a context can hold. */
  ghost function Dirs(fs: FileSystem): set<Path> {
    set f | f in fs.files && Parent(f).Some? :: Parent(f).value
  }

  /** All duplicate-free lists over `s`. */
  ghost function Arrangements(s: set<Path>): set<seq<Path>>
    decreases |s|
  {
    {[]} + (set x, c | x in s && c in Arrangements(s - {x}) :: [x] + c)
  }

  lemma {:induction false} ArrangementsComplete(s: set<Path>, c: seq<Path>)
    requires Distinct(c) && forall i :: 0 <= i < |c| ==> c[i] in s
    ensures c in Arrangements(s)
    decreases |s|
  {
    if c != [] {
      var x := c[0];
      forall i | 0 <= i < |c[1..]| ensures c[1..][i] in s - {x} {
        assert c[1..][i] == c[i + 1];
      }
      ArrangementsComplete(s - {x}, c[1..]);
      assert c == [x] + c[1..];
    }
  }

  /** All tasks the scan can meet. */
  ghost function Universe(fs: FileSystem): set<CollectTask> {
    set c, f | c in Arrangements(Dirs(fs)) && f in fs.files :: CollectTask(c, f)
  }

  ghost predicate Admissible(fs: FileSystem, t: CollectTask) {
    Distinct(t.context) && (forall i :: 0 <= i < |t.context| ==> t.context[i] in Dirs(fs))
    && t.source in fs.files
  }

  lemma AdmissibleInUniverse(fs: FileSystem, t: CollectTask)
    requires Admissible(fs, t)
    ensures t in Universe(fs)
  {
    ArrangementsComplete(Dirs(fs), t.context);
  }

  lemma CombineAdmissible(fs: FileSystem, b: IncludeBehaviour, c: seq<Path>, source: Path)
    requires Distinct(c) && (forall i :: 0 <= i < |c| ==> c[i] in Dirs(fs))
    requires source in fs.files
    ensures Admissible(fs, CollectTask(CombineContext(b, c, source), source))
  {
    CombineDistinct(b, c, source);
    var r := CombineContext(b, c, source);
    if Parent(source).Some? {
      assert Parent(source).value in Dirs(fs);
    }
    forall i | 0 <= i < |r| ensures r[i] in Dirs(fs) {
      if b == VisualStudio && Parent(source).Some? && !(c != [] && c[|c| - 1] == Parent(source).value) {
        assert r[i] in RemoveAll(c, Parent(source).value) + [Parent(source).value];
      }
    }
  }

  /** The worklist task a source yields under `task`. */
  function Successor(b: IncludeBehaviour, task: CollectTask, p: Path): CollectTask {
    CollectTask(CombineContext(b, task.context, p), p)
  }

  /** `task` was expanded: its includes resolve, and each successor task is
      among `done` or still `queued`. */
  ghost predicate ExpandedInto(fs: FileSystem, b: IncludeBehaviour, includeDir: seq<Path>,
                               task: CollectTask, done: set<CollectTask>, queued: seq<CollectTask>) {
    var ps := FileIncludePaths(fs, task.source, task.context, includeDir);
    ps.Ok? && forall k :: 0 <= k < |ps.value| ==>
      Successor(b, task, ps.value[k]) in done || Successor(b, task, ps.value[k]) in queued
  }

  /** The root task of a scan. */
  function Root(b: IncludeBehaviour, canon: Path): CollectTask {
    CollectTask(CombineContext(b, [], canon), canon)
  }

  /** Popping `task` into the done set keeps every expansion accounted for. */
  lemma ExpandedPop(fs: FileSystem, b: IncludeBehaviour, includeDir: seq<Path>, t: CollectTask,
                    done: set<CollectTask>, queue: seq<CollectTask>, task: CollectTask)
    requires ExpandedInto(fs, b, includeDir, t, done, queue + [task])
    ensures ExpandedInto(fs, b, includeDir, t, done + {task}, queue)
  {
    var ps := FileIncludePaths(fs, t.source, t.context, includeDir).value;
    forall k | 0 <= k < |ps|
      ensures Successor(b, t, ps[k]) in done + {task} || Successor(b, t, ps[k]) in queue
    {
      assert Successor(b, t, ps[k]) in done || Successor(b, t, ps[k]) in queue + [task];
    }
  }

  /** Queueing more keeps every expansion accounted for. */
  lemma ExpandedMono(fs: FileSystem, b: IncludeBehaviour, includeDir: seq<Path>, t: CollectTask,
                     done: set<CollectTask>, queue: seq<CollectTask>, more: seq<CollectTask>)
    requires ExpandedInto(fs, b, includeDir, t, done, queue)
    requires forall x :: x in queue ==> x in more
    ensures ExpandedInto(fs, b, includeDir, t, done, more)
  {
  }

  /** A finite set holding every admissible task. */
  lemma UniverseOf(fs: FileSystem) returns (u: set<CollectTask>)
    ensures forall t :: Admissible(fs, t) ==> t in u
  {
    u := Universe(fs);
    forall t | Admissible(fs, t) ensures t in u {
      AdmissibleInUniverse(fs, t);
    }
  }

  /** Taking the last task off an admissible queue. */
  lemma Pop(fs: FileSystem, queue: seq<CollectTask>)
    requires queue != [] && forall t :: t in queue ==> Admissible(fs, t)
    ensures queue == queue[..|queue| - 1] + [queue[|queue| - 1]]
    ensures Admissible(fs, queue[|queue| - 1])
    ensures forall t :: t in queue[..|queue| - 1] ==> Admissible(fs, t)
  {
  }

  /** The `for` loop of `collect_includes`: one task per include path. */
  method PushSuccessors(fs: FileSystem, combine: IncludeBehaviour, task: CollectTask, paths: seq<Path>,
                        queue: seq<CollectTask>) returns (q: seq<CollectTask>)
    requires Admissible(fs, task)
    requires forall k :: 0 <= k < |paths| ==> paths[k] in fs.files
    requires forall t :: t in queue ==> Admissible(fs, t)
    ensures |q| == |queue| + |paths| && q[..|queue|] == queue
    ensures forall k :: 0 <= k < |paths| ==> q[|queue| + k] == Successor(combine, task, paths[k])
    ensures forall t :: t in q ==> Admissible(fs, t)
  {
    q := queue;
    var k := 0;
    while k < |paths|
      invariant 0 <= k <= |paths|
      invariant |q| == |queue| + k && forall j :: 0 <= j < |queue| ==> q[j] == queue[j]
      invariant forall j :: 0 <= j < k ==> q[|queue| + j] == Successor(combine, task, paths[j])
      invariant forall t :: t in q ==> Admissible(fs, t)
    {
      PushStep(fs, combine, task, paths, queue, q, k);
      q := q + [Successor(combine, task, paths[k])];
      k := k + 1;
    }
    assert q[..|queue|] == queue;
  }

  /** One iteration of the `for` loop of `collect_includes`. */
  lemma PushStep(fs: FileSystem, combine: IncludeBehaviour, task: CollectTask, paths: seq<Path>,
                 queue: seq<CollectTask>, q: seq<CollectTask>, k: nat)
    requires Admissible(fs, task) && k < |paths| && paths[k] in fs.files
    requires |q| == |queue| + k && forall j :: 0 <= j < |queue| ==> q[j] == queue[j]
    requires forall j :: 0 <= j < k ==> q[|queue| + j] == Successor(combine, task, paths[j])
    requires forall t :: t in q ==> Admissible(fs, t)
    ensures var q' := q + [Successor(combine, task, paths[k])];
      && (forall j :: 0 <= j < |queue| ==> q'[j] == queue[j])
      && (forall j :: 0 <= j < k + 1 ==> q'[|queue| + j] == Successor(combine, task, paths[j]))
      && (forall t :: t in q' ==> Admissible(fs, t))
  {
    var next := Successor(combine, task, paths[k]);
    CombineAdmissible(fs, combine, task.context, paths[k]);
    Push(q, next);
  }

  /** After expanding `task`, every collected task is accounted for. */
  lemma ExpandedAfterExpansion(fs: FileSystem, b: IncludeBehaviour, includeDir: seq<Path>,
                               before: set<CollectTask>, task: CollectTask,
                               queue0: seq<CollectTask>, queue: seq<CollectTask>)
    requires forall t :: t in before ==> ExpandedInto(fs, b, includeDir, t, before, queue0 + [task])
    requires FileIncludePaths(fs, task.source, task.context, includeDir).Ok?
    requires var ps := FileIncludePaths(fs, task.source, task.context, includeDir).value;
      |queue| == |queue0| + |ps| && queue[..|queue0|] == queue0
      && forall k :: 0 <= k < |ps| ==> queue[|queue0| + k] == Successor(b, task, ps[k])
    ensures forall t :: t in before + {task} ==> ExpandedInto(fs, b, includeDir, t, before + {task}, queue)
  {
    var ps := FileIncludePaths(fs, task.source, task.context, includeDir).value;
    forall x | x in queue0 ensures x in queue {
      var i :| 0 <= i < |queue0| && queue0[i] == x;
      assert queue[i] == queue[..|queue0|][i];
    }
    forall t | t in before + {task}
      ensures ExpandedInto(fs, b, includeDir, t, before + {task}, queue)
    {
      if t == task {
        forall k | 0 <= k < |ps| ensures Successor(b, task, ps[k]) in queue {
          assert queue[|queue0| + k] == Successor(b, task, ps[k]);
        }
      } else {
        ExpandedPop(fs, b, includeDir, t, before, queue0, task);
        ExpandedMono(fs, b, includeDir, t, before + {task}, queue0, queue);
      }
    }
  }

  /** A task already collected is dropped from the queue. */
  lemma ExpandedAfterSkip(fs: FileSystem, b: IncludeBehaviour, includeDir: seq<Path>,
                          before: set<CollectTask>, task: CollectTask, queue: seq<CollectTask>)
    requires task in before
    requires forall t :: t in before ==> ExpandedInto(fs, b, includeDir, t, before, queue + [task])
    ensures forall t :: t in before ==> ExpandedInto(fs, b, includeDir, t, before, queue)
  {
    forall t | t in before ensures ExpandedInto(fs, b, includeDir, t, before, queue) {
      ExpandedPop(fs, b, includeDir, t, before, queue, task);
      assert before + {task} == before;
    }
  }

  /** Expanding a new task keeps `order` a duplicate-free listing of `done`. */
  lemma OrderAppend(order: seq<CollectTask>, done: set<CollectTask>, task: CollectTask)
    requires forall i, j :: 0 <= i < j < |order| ==> order[i] != order[j]
    requires forall t :: t in done <==> t in order
    requires task !in done
    ensures forall i, j :: 0 <= i < j < |order + [task]| ==> (order + [task])[i] != (order + [task])[j]
    ensures forall t :: t in done + {task} <==> t in order + [task]
  {
  }

  lemma Push(queue: seq<CollectTask>, x: CollectTask)
    ensures forall t :: t in queue + [x] <==> t in queue || t == x
  {
  }

  lemma PathsInFiles(fs: FileSystem, task: CollectTask, includeDir: seq<Path>)
    requires Closed(fs)
    requires FileIncludePaths(fs, task.source, task.context, includeDir).Ok?
    ensures forall k :: 0 <= k < |FileIncludePaths(fs, task.source, task.context, includeDir).value| ==>
      FileIncludePaths(fs, task.source, task.context, includeDir).value[k] in fs.files
  {
    ResolveAllInFiles(fs, fs.includes(task.source).value, task.context, includeDir);
  }

  /** One new task of `collect_includes`: its include paths resolved and
      a task per path pushed onto the queue, or the error of the
      resolution. */
  method Expand(fs: FileSystem, combine: IncludeBehaviour, includeDir: seq<Path>, task: CollectTask,
                queue: seq<CollectTask>, ghost before: set<CollectTask>) returns (r: Result<seq<CollectTask>, IoError>)
    requires Closed(fs) && Admissible(fs, task)
    requires forall t :: t in queue ==> Admissible(fs, t)
    requires forall t :: t in before ==> ExpandedInto(fs, combine, includeDir, t, before, queue + [task])
    ensures var ps := FileIncludePaths(fs, task.source, task.context, includeDir);
      r.Err? <==> ps.Err? && (r.Err? ==> r.error == ps.error)
    ensures r.Ok? ==> |queue| <= |r.value| && r.value[..|queue|] == queue
    ensures r.Ok? ==> forall t :: t in queue ==> t in r.value
    ensures r.Ok? ==> forall t :: t in r.value ==> Admissible(fs, t)
    ensures r.Ok? ==> forall t :: t in before + {task} ==> ExpandedInto(fs, combine, includeDir, t, before + {task}, r.value)
  {
    var paths := FileIncludePaths(fs, task.source, task.context, includeDir);
    if paths.Err? {
      return Err(paths.error);
    }
    PathsInFiles(fs, task, includeDir);
    var q := PushSuccessors(fs, combine, task, paths.value, queue);
    ExpandedAfterExpansion(fs, combine, includeDir, before, task, queue, q);
    forall t | t in queue ensures t in q {
      var i :| 0 <= i < |queue| && queue[i] == t;
      assert q[i] == q[..|queue|][i];
    }
    r := Ok(q);
  }

  /** The loop invariant of `collect_includes`: the queue holds admissible
      tasks, the root is collected or queued, every collected task has its
      successors collected or queued, and `order` lists the collected
      tasks once each. */
  ghost predicate Collecting(fs: FileSystem, b: IncludeBehaviour, includeDir: seq<Path>, root: CollectTask,
                             queue: seq<CollectTask>, done: set<CollectTask>, order: seq<CollectTask>) {
    && (forall t :: t in queue ==> Admissible(fs, t))
    && (root in done || root in queue)
    && (forall t :: t in done ==> ExpandedInto(fs, b, includeDir, t, done, queue))
    && (forall i, j :: 0 <= i < j < |order| ==> order[i] != order[j])
    && (forall t :: t in done <==> t in order)
  }

  /** Dropping a task that was already collected. */
  lemma CollectSkip(fs: FileSystem, b: IncludeBehaviour, includeDir: seq<Path>, root: CollectTask,
                    queue: seq<CollectTask>, task: CollectTask, done: set<CollectTask>, order: seq<CollectTask>)
    requires Collecting(fs, b, includeDir, root, queue + [task], done, order) && task in done
    ensures Collecting(fs, b, includeDir, root, queue, done, order)
  {
    ExpandedAfterSkip(fs, b, includeDir, done, task, queue);
    Push(queue, task);
  }

  /** Collecting a new task whose successors `next` were queued. */
  lemma CollectNew(fs: FileSystem, b: IncludeBehaviour, includeDir: seq<Path>, root: CollectTask,
                   queue: seq<CollectTask>, task: CollectTask, next: seq<CollectTask>,
                   done: set<CollectTask>, order: seq<CollectTask>)
    requires Collecting(fs, b, includeDir, root, queue + [task], done, order) && task !in done
    requires forall t :: t in queue ==> t in next
    requires forall t :: t in next ==> Admissible(fs, t)
    requires forall t :: t in done + {task} ==> ExpandedInto(fs, b, includeDir, t, done + {task}, next)
    ensures Collecting(fs, b, includeDir, root, next, done + {task}, order + [task])
  {
    OrderAppend(order, done, task);
    Push(queue, task);
  }

  /** One iteration of the `while` loop of `collect_includes`: the last
      queued task is popped and, unless already collected, collected and
      expanded. Either fewer tasks are left to collect, or the queue is
      shorter. */
  method Visit(fs: FileSystem, combine: IncludeBehaviour, includeDir: seq<Path>, root: CollectTask,
               queue: seq<CollectTask>, result: set<CollectTask>, ghost order: seq<CollectTask>,
               ghost universe: set<CollectTask>)
    returns (r: Result<seq<CollectTask>, IoError>, result': set<CollectTask>, ghost order': seq<CollectTask>)
    requires Closed(fs) && queue != [] && result <= universe
    requires forall t :: Admissible(fs, t) ==> t in universe
    requires Collecting(fs, combine, includeDir, root, queue, result, order)
    ensures result' <= universe
    ensures r.Err? ==> var task := queue[|queue| - 1];
      task !in result && FileIncludePaths(fs, task.source, task.context, includeDir).Err?
      && r.error == FileIncludePaths(fs, task.source, task.context, includeDir).error
    ensures r.Ok? ==> Collecting(fs, combine, includeDir, root, r.value, result', order')
    ensures r.Ok? ==> |universe - result'| < |universe - result|
                      || (result' == result && |r.value| < |queue|)
  {
    var task := queue[|queue| - 1];
    var rest := queue[..|queue| - 1];
    Pop(fs, queue);
    if task !in result {
      var next := Expand(fs, combine, includeDir, task, rest, result);
      if next.Err? {
        return Err(next.error), result + {task}, order + [task];
      }
      CollectNew(fs, combine, includeDir, root, rest, task, next.value, result, order);
      assert universe - (result + {task}) == (universe - result) - {task};
      return Ok(next.value), result + {task}, order + [task];
    } else {
      CollectSkip(fs, combine, includeDir, root, rest, task, result, order);
      return Ok(rest), result, order;
    }
  }

  /** `collect_includes`: the sources of all tasks reachable from the
      canonical root. Every task is expanded at most once (`order` lists
      the expansions), and on success the collected tasks contain the root
      and are closed: every include of every collected task is collected. */
  method CollectIncludes(fs: FileSystem, combine: IncludeBehaviour, sourceFile: Path, includeDir: seq<Path>)
    returns (r: Result<set<Path>, IoError>, ghost tasks: set<CollectTask>, ghost order: seq<CollectTask>)
    requires Closed(fs)
    ensures fs.canonicalize(sourceFile).Err? ==> r == Err(fs.canonicalize(sourceFile).error)
    ensures r.Ok? ==> fs.canonicalize(sourceFile).Ok? && Root(combine, fs.canonicalize(sourceFile).value) in tasks
    ensures r.Ok? ==> r.value == (set t | t in tasks :: t.source)
    ensures r.Ok? ==> forall t :: t in tasks ==> ExpandedInto(fs, combine, includeDir, t, tasks, [])
    ensures r.Ok? ==> (forall i, j :: 0 <= i < j < |order| ==> order[i] != order[j])
                      && (forall t :: t in tasks <==> t in order)
  {
    var canon := fs.canonicalize(sourceFile);
    if canon.Err? {
      return Err(canon.error), {}, [];
    }
    var root := Root(combine, canon.value);
    CombineAdmissible(fs, combine, [], canon.value);
    var queue := [root];
    var result: set<CollectTask> := {};
    order := [];
    ghost var universe := UniverseOf(fs);
    while queue != []
      invariant result <= universe
      invariant Collecting(fs, combine, includeDir, root, queue, result, order)
      decreases |universe - result|, |queue|
    {
      var step: Result<seq<CollectTask>, IoError>;
      var result': set<CollectTask>;
      ghost var order': seq<CollectTask>;
      step, result', order' := Visit(fs, combine, includeDir, root, queue, result, order, universe);
      if step.Err? {
        return Err(step.error), result', order';
      }
      queue, result, order := step.value, result', order';
    }
    tasks := result;
    r := Ok(set t | t in result :: t.source);
  }
}
