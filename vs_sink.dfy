/** The writer that `src/vs/compiler.rs` hands to the preprocessed-output
    filter: `VsPreprocessor` collects the output of one source file at a time
    and passes it to the worker callback when the next source starts. The
    callback is modelled by the log `delivered` of everything it received. */
module VsSink {
  import opened Common
  import opened Paths

  /** The output collected so far for one input source. */
  datatype VsContent = VsContent(inputSource: Path, data: seq<byte>)

  /** What the worker callback is given for a source. */
  datatype PreprocessResult =
    | Success(output: seq<byte>)
    | Failed(status: Option<int>, stderr: seq<byte>)

  /** One call of the worker callback. */
  datatype Delivery = Delivery(source: Path, result: PreprocessResult)

  /** The content after `buf` is written: appended when a source is being
      collected, dropped otherwise. */
  function Appended(c: Option<VsContent>, buf: seq<byte>): (r: Option<VsContent>)
    ensures r.Some? <==> c.Some?
    ensures r.Some? ==> r.value.inputSource == c.value.inputSource
    ensures r.Some? ==> r.value.data == c.value.data + buf
  {
    match c
    case None => None
    case Some(v) => Some(VsContent(v.inputSource, v.data + buf))
  }

  lemma AppendedNothing(c: Option<VsContent>)
    ensures Appended(c, []) == c
  {
    if c.Some? {
      assert c.value.data + [] == c.value.data;
    }
  }

  lemma AppendedTwice(c: Option<VsContent>, a: seq<byte>, b: seq<byte>)
    ensures Appended(Appended(c, a), b) == Appended(c, a + b)
  {
    if c.Some? {
      assert c.value.data + a + b == c.value.data + (a + b);
    }
  }

  /** The sources whose output was handed to the worker as a success, in order. */
  function Successes(log: seq<Delivery>): (r: seq<Path>)
    ensures |r| <= |log|
    ensures forall p :: p in r ==> exists i :: 0 <= i < |log| && log[i].source == p && log[i].result.Success?
  {
    if log == [] then []
    else
      var rest := Successes(log[..|log| - 1]);
      var last := log[|log| - 1];
      assert forall i :: 0 <= i < |log| - 1 ==> log[..|log| - 1][i] == log[i];
      if last.result.Success? then rest + [last.source] else rest
  }

  lemma SuccessesAppend(log: seq<Delivery>, d: Delivery)
    ensures Successes(log + [d]) == Successes(log) + (if d.result.Success? then [d.source] else [])
  {
    assert (log + [d])[..|log|] == log;
  }

  predicate Distinct<T(==)>(s: seq<T>) {
    forall i, j :: 0 <= i < j < |s| ==> s[i] != s[j]
  }

  lemma StartedGrows<T>(s: seq<T>, x: T)
    requires Distinct(s) && forall i :: 0 <= i < |s| ==> s[i] != x
    ensures Distinct(s + [x])
  {
  }

  /** Every input source is either still pending or started exactly once,
      and every marker names an input source. */
  ghost predicate Consistent(inputs: set<Path>, pending: set<Path>, sources: map<seq<byte>, Path>, started: seq<Path>) {
    && pending <= inputs
    && (forall k :: k in sources ==> sources[k] in inputs)
    && Distinct(started)
    && (forall i :: 0 <= i < |started| ==> started[i] in inputs && started[i] !in pending)
    && (forall p :: p in inputs ==> p in pending || p in started)
  }

  /** Forgetting a marker keeps the state consistent. */
  lemma ConsistentForget(inputs: set<Path>, pending: set<Path>, sources: map<seq<byte>, Path>, started: seq<Path>, marker: seq<byte>)
    requires Consistent(inputs, pending, sources, started)
    ensures Consistent(inputs, pending, sources - {marker}, started)
  {
  }

  /** Starting a pending source keeps the state consistent. */
  lemma ConsistentStart(inputs: set<Path>, pending: set<Path>, sources: map<seq<byte>, Path>, started: seq<Path>, path: Path)
    requires Consistent(inputs, pending, sources, started) && path in pending
    ensures Consistent(inputs, pending - {path}, sources, started + [path])
  {
    assert forall i :: 0 <= i < |started| ==> started[i] != path;
    StartedGrows(started, path);
    assert forall p :: p in started ==> p in started + [path];
  }

  class VsPreprocessor {
    /** The source being collected and its output so far. */
    var content: Option<VsContent>
    /** Input sources whose first line has not been seen yet. */
    var pending: set<Path>
    /** Separator markers (the path bytes the preprocessor prints) to sources. */
    var sources: map<seq<byte>, Path>
    /** Every call of the worker callback, in order. */
    var delivered: seq<Delivery>
    /** The input sources of the run. */
    ghost const inputs: set<Path>

    /** Sources already started: delivered ones, then the one being collected. */
    ghost function Started(): seq<Path>
      reads this
    {
      Successes(delivered) + (if content.Some? then [content.value.inputSource] else [])
    }

    /** Every input source is either still pending or started exactly once. */
    ghost predicate Valid()
      reads this
    {
      Consistent(inputs, pending, sources, Started())
    }

    constructor (pending: set<Path>, sources: map<seq<byte>, Path>)
      requires forall k :: k in sources ==> sources[k] in pending
      ensures Valid()
      ensures this.content == None && this.pending == pending && this.sources == sources
      ensures this.delivered == [] && inputs == pending
    {
      this.content := None;
      this.pending := pending;
      this.sources := sources;
      this.delivered := [];
      this.inputs := pending;
    }

    /** `exec`: hands the collected content, if any, to the worker. */
    method Exec()
      requires Valid()
      modifies this
      ensures Valid()
      ensures content == None
      ensures delivered == old(delivered) +
        (if old(content).Some? then [Delivery(old(content).value.inputSource, Success(old(content).value.data))] else [])
      ensures Successes(delivered) == old(Started())
      ensures unchanged(this`pending, this`sources)
    {
      match content
      case Some(c) =>
        SuccessesAppend(delivered, Delivery(c.inputSource, Success(c.data)));
        delivered := delivered + [Delivery(c.inputSource, Success(c.data))];
        content := None;
      case None =>
    }

    /** The `Write` implementation: appends to the content, or drops the
        bytes when no source is being collected. */
    method Write(buf: seq<byte>)
      requires Valid()
      modifies this
      ensures Valid()
      ensures content == Appended(old(content), buf)
      ensures unchanged(this`pending, this`sources, this`delivered)
    {
      content := Appended(content, buf);
      assert Started() == old(Started());
    }

    /** `is_source_separator`: the marker is always removed from `sources`;
        only a marker of a still-pending source starts a new one. */
    method IsSourceSeparator(marker: seq<byte>) returns (b: bool)
      requires Valid()
      modifies this
      ensures Valid()
      ensures sources == old(sources) - {marker}
      ensures b <==> marker in old(sources) && old(sources)[marker] in old(pending)
      ensures b ==> pending == old(pending) - {old(sources)[marker]}
      ensures b ==> (delivered == old(delivered) +
        (if old(content).Some? then [Delivery(old(content).value.inputSource, Success(old(content).value.data))] else []))
      ensures b ==> content == Some(VsContent(old(sources)[marker], []))
      ensures !b ==> unchanged(this`pending, this`content, this`delivered)
    {
      if marker !in sources {
        return false;
      }
      var path := sources[marker];
      ConsistentForget(inputs, pending, sources, Started(), marker);
      sources := sources - {marker};
      if path !in pending {
        return false;
      }
      // `exec` does not look at `pending`, so it may run before the removal.
      ghost var before := Started();
      Exec();
      ConsistentStart(inputs, pending, sources, before, path);
      pending := pending - {path};
      content := Some(VsContent(path, []));
      assert Started() == before + [path];
      b := true;
    }

    /** The worker call `execute` makes when the preprocessor exits with failure. */
    method ReportFailure(source: Path, status: Option<int>, stderr: seq<byte>)
      requires Valid()
      modifies this
      ensures Valid()
      ensures delivered == old(delivered) + [Delivery(source, Failed(status, stderr))]
      ensures unchanged(this`pending, this`sources, this`content)
    {
      SuccessesAppend(delivered, Delivery(source, Failed(status, stderr)));
      delivered := delivered + [Delivery(source, Failed(status, stderr))];
    }
  }
}
