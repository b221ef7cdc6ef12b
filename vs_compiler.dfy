/** The `cl.exe` glue of `src/vs/compiler.rs`: the argument lists of the
    preprocessing and compiling runs, the `execute` step that splits the
    preprocessor's output per source, the clean-up of the compiler's
    messages, and the executable header check behind the toolchain's
    identifier. */
module VsCompiler {
  import opened Common
  import opened Paths
  import opened CompilerArgs
  import opened VsSink
  import opened Postprocess

  // ---------------------------------------------------------------------
  // Argument filters

  /** The repository's `filter` helper: `filter_map` collected in order. */
  function FilterMap<T, U>(s: seq<T>, f: T -> Option<U>): (r: seq<U>)
    ensures |r| <= |s|
  {
    if s == [] then []
    else (match f(s[0]) case Some(x) => [x] case None => []) + FilterMap(s[1..], f)
  }

  lemma {:induction false} FilterMapConcat<T, U>(a: seq<T>, b: seq<T>, f: T -> Option<U>)
    ensures FilterMap(a + b, f) == FilterMap(a, f) + FilterMap(b, f)
  {
    if a == [] {
      assert a + b == b;
    } else {
      assert (a + b)[1..] == a[1..] + b;
      FilterMapConcat(a[1..], b, f);
      var h: seq<U> := match f(a[0]) case Some(x) => [x] case None => [];
      ConcatAssoc(h, FilterMap(a[1..], f), FilterMap(b, f));
    }
  }

  lemma {:induction false} FilterMapMember<T, U>(s: seq<T>, f: T -> Option<U>, x: U)
    ensures x in FilterMap(s, f) <==> exists i :: 0 <= i < |s| && f(s[i]) == Some(x)
  {
    if s != [] {
      FilterMapMember(s[1..], f, x);
      if x in FilterMap(s[1..], f) {
        var i :| 0 <= i < |s[1..]| && f(s[1..][i]) == Some(x);
        assert f(s[i + 1]) == Some(x);
      }
      if exists i :: 0 <= i < |s| && f(s[i]) == Some(x) {
        var i :| 0 <= i < |s| && f(s[i]) == Some(x);
        if i > 0 {
          assert f(s[1..][i - 1]) == Some(x);
        }
      }
    }
  }

  predicate IsOption(a: Arg) { a.Flag? || a.Param? }

  /** How a kept option is passed on: `/`, the flag, then a parameter's value. */
  function OptionText(a: Arg): string
    requires IsOption(a)
  {
    "/" + a.flag + (if a.Param? then a.value else "")
  }

  /** The closure of `preprocess_step` (compiler.rs:197-215). */
  function PreprocessArg(a: Arg): Option<string> {
    match a
    case Flag(scope, flag) => if PreprocessorScope(scope) then Some("/" + flag) else None
    case Param(scope, flag, value) => if PreprocessorScope(scope) then Some("/" + flag + value) else None
    case Input(_, _, _) => None
    case Output(_, _, _) => None
  }

  /** The closure of `compile_prepare_step` (compiler.rs:237-261):
      preprocessor options go along only when a precompiled header is
      being created. */
  function CompileArg(a: Arg, precompiled: bool): Option<string> {
    match a
    case Flag(scope, flag) =>
      if CompilerScope(scope) || (scope == Preprocessor && precompiled) then Some("/" + flag) else None
    case Param(scope, flag, value) =>
      if CompilerScope(scope) || (scope == Preprocessor && precompiled) then Some("/" + flag + value) else None
    case Input(_, _, _) => None
    case Output(_, _, _) => None
  }

  /** `join_flag`. */
  function JoinFlag(flag: string, path: Path): string { flag + path }

  /** The arguments of the preprocessing run before the input sources. */
  function PreprocessArgs(args: seq<Arg>, language: string, outputObject: Path): seq<string> {
    FilterMap(args, PreprocessArg) + ["/nologo", "/T" + language, "/E", "/we4002", JoinFlag("/Fo", outputObject)]
  }

  /** The arguments of the compiling run; `precompiled` tells whether the
      task creates a precompiled header. */
  function CompileArgs(args: seq<Arg>, language: string, precompiled: bool): seq<string> {
    FilterMap(args, (a: Arg) => CompileArg(a, precompiled)) + ["/nologo", "/T" + language]
      + (if precompiled then ["/Yc"] else [])
  }

  /** The options the preprocessing run keeps are exactly the texts of the
      preprocessor and shared options. */
  lemma PreprocessArgsKept(args: seq<Arg>, language: string, outputObject: Path, x: string)
    ensures PreprocessArgs(args, language, outputObject)[..|FilterMap(args, PreprocessArg)|] == FilterMap(args, PreprocessArg)
    ensures x in FilterMap(args, PreprocessArg) <==>
      exists i :: 0 <= i < |args| && IsOption(args[i]) && PreprocessorScope(args[i].scope) && OptionText(args[i]) == x
  {
    FilterMapMember(args, PreprocessArg, x);
    forall i | 0 <= i < |args|
      ensures PreprocessArg(args[i]) == Some(x) <==> IsOption(args[i]) && PreprocessorScope(args[i].scope) && OptionText(args[i]) == x
    {
      if args[i].Flag? {
        assert "/" + args[i].flag + "" == "/" + args[i].flag;
      }
    }
  }

  /** The options the compiling run keeps are exactly the texts of the
      compiler and shared options, and of the preprocessor options when a
      precompiled header is created. */
  lemma CompileArgsKept(args: seq<Arg>, language: string, precompiled: bool, x: string)
    ensures var f := (a: Arg) => CompileArg(a, precompiled);
      (x in FilterMap(args, f) <==>
       exists i :: 0 <= i < |args| && IsOption(args[i]) && OptionText(args[i]) == x
         && (CompilerScope(args[i].scope) || (precompiled && args[i].scope == Preprocessor)))
    ensures precompiled <==> CompileArgs(args, language, precompiled)[|CompileArgs(args, language, precompiled)| - 1] == "/Yc"
  {
    var f := (a: Arg) => CompileArg(a, precompiled);
    FilterMapMember(args, f, x);
    forall i | 0 <= i < |args|
      ensures f(args[i]) == Some(x) <==>
        IsOption(args[i]) && OptionText(args[i]) == x && (CompilerScope(args[i].scope) || (precompiled && args[i].scope == Preprocessor))
    {
      if args[i].Flag? {
        assert "/" + args[i].flag + "" == "/" + args[i].flag;
      }
    }
    var n := CompileArgs(args, language, precompiled);
    if !precompiled {
      assert n[|n| - 1] == "/T" + language;
      assert ("/T" + language)[1] == 'T';
    }
  }

  /** Every option that is not ignored reaches one of the two runs; shared
      options reach both; without a precompiled header being created no
      other option reaches both. */
  lemma ScopeRouting(a: Arg, precompiled: bool)
    requires IsOption(a)
    ensures PreprocessArg(a).Some? || CompileArg(a, precompiled).Some? <==> a.scope != Ignore
    ensures PreprocessArg(a).Some? && CompileArg(a, false).Some? <==> a.scope == Shared
    ensures precompiled ==> (CompileArg(a, precompiled).Some? <==> a.scope != Ignore)
  {
  }

  /** `is_eol`. */
  predicate IsEol(c: byte) { c == CR || c == LF }

  // ---------------------------------------------------------------------
  // execute

  datatype ExecuteError =
    | FilterFailed(error: PostprocessError)
    | MissingFileName      // `file_name().unwrap()` on a path without one
    | UnexpectedPending    // "Internal error. Unexpected preprocessor behaviour"

  /** The non-canonical path `execute` gives `cl.exe` for a source, so
      that the first `#line` of each source in the joined output can be
      recognised: the parent, then `.`, then the file name, with
      backslashes turned into slashes. */
  function StrangePath(p: Path): (r: Option<string>)
    ensures Parent(p).None? ==> r == Some(Slashes(p))
    ensures Parent(p).Some? ==> (r.Some? <==> FileName(p).Some?)
  {
    match Parent(p)
    case None => Some(Slashes(p))
    case Some(parent) =>
      match FileName(p)
      case None => None
      case Some(name) => Some(Slashes(Join(Join(parent, "."), name)))
  }

  /** The inserted path component is `.`: the strange path ends with
      `./` and the file name. */
  lemma StrangePathDot(p: Path)
    requires Parent(p).Some? && FileName(p).Some?
    ensures var n := FileName(p).value; var d := Join(Parent(p).value, ".");
      && Join(d, n) == d + "/" + n
      && d[|d| - 1] == '.'
  {
    var n := FileName(p).value;
    var parent := Parent(p).value;
    var d := Join(parent, ".");
    assert !IsAbsolute(".");
    assert n[0] != '/' by {
      assert n[0] in n;
    }
    if parent == "" {
      assert d == ".";
    } else if parent[|parent| - 1] == '/' {
      assert d == parent + ".";
    } else {
      assert d == parent + "/" + ".";
    }
  }
  /** The separator markers of one source: its path in UTF-8 and, when the
      path has one, in the ANSI encoding. */
  method AddMarkers(sources: map<seq<byte>, Path>, path: string, source: Path, ansi: string -> Option<seq<byte>>)
    returns (r: map<seq<byte>, Path>)
    ensures Utf8(path) in r && (ansi(path).Some? ==> ansi(path).value in r)
    ensures forall key :: key in r <==> key in sources || key == Utf8(path) || (ansi(path).Some? && key == ansi(path).value)
    ensures forall key :: key in r ==> r[key] == source || (key in sources && r[key] == sources[key])
  {
    // UTF-8 path
    r := sources[Utf8(path) := source];
    // Local encoding
    var key := ansi(path);
    if key.Some? {
      r := r[key.value := source];
    }
  }

  /** The loop of `execute` over the input sources: each source becomes
      pending, its strange path a command argument, and both encodings of
      that path a separator marker of the source. `strange` is the path
      conversion, `StrangePath` in `Execute`. */
  method CollectSources(inputSources: seq<Path>, strange: Path -> Option<string>, ansi: string -> Option<seq<byte>>)
    returns (ok: bool, pending: set<Path>, sources: map<seq<byte>, Path>, paths: seq<string>)
    ensures ok <==> forall i :: 0 <= i < |inputSources| ==> strange(inputSources[i]).Some?
    ensures ok ==> |paths| == |inputSources| && forall i :: 0 <= i < |inputSources| ==> Some(paths[i]) == strange(inputSources[i])
    ensures ok ==> forall p :: p in pending <==> p in inputSources
    ensures forall key :: key in sources ==> sources[key] in pending
  {
    pending := {};
    sources := map[];
    paths := [];
    for i := 0 to |inputSources|
      invariant pending == Elements(inputSources[..i])
      invariant forall key :: key in sources ==> sources[key] in pending
      invariant |paths| == i && forall k :: 0 <= k < i ==> Some(paths[k]) == strange(inputSources[k])
    {
      var source := inputSources[i];
      pending := pending + {source};
      assert inputSources[..i + 1][..i] == inputSources[..i];
      var path := strange(source);
      if path.None? {
        return false, pending, sources, paths;
      }
      var pathStr := path.value;
      paths := paths + [pathStr];
      sources := AddMarkers(sources, pathStr, source, ansi);
    }
    ok := true;
    assert inputSources[..|inputSources|] == inputSources;
    ElementsIn(inputSources);
  }

  /** The elements of a sequence, gathered from the front. */
  ghost function Elements<T>(s: seq<T>): set<T> {
    if s == [] then {} else Elements(s[..|s| - 1]) + {s[|s| - 1]}
  }

  lemma {:induction false} ElementsIn<T>(s: seq<T>)
    ensures forall x :: x in Elements(s) <==> x in s
  {
    if s != [] {
      ElementsIn(s[..|s| - 1]);
      assert s == s[..|s| - 1] + [s[|s| - 1]];
    }
  }

  /** The preprocessor run of `execute` on the sources `inputSources`,
      given what the process produced: its standard output `stdout`, its
      exit status (`success`, `code`) and its error output `stderr`.
      `ansi` is the system's ANSI encoder. The worker calls are returned
      in `log`; `paths` are the source arguments added to the command. The
      filter is called with the compilation task's marker and keeps the headers when a
      precompiled header is created (see compiler.rs:414-418). */
  method Execute(inputSources: seq<Path>, marker: Option<string>, outputPrecompiled: Option<Path>,
                 ansi: string -> Option<seq<byte>>, stdout: seq<byte>, success: bool, code: Option<int>, stderr: seq<byte>)
    returns (r: Result<(), ExecuteError>, paths: seq<string>, log: seq<Delivery>, ghost filtered: Result<(), PostprocessError>)
    requires |inputSources| > 0
    ensures r == Err(MissingFileName) <==> exists i :: 0 <= i < |inputSources| && StrangePath(inputSources[i]).None?
    ensures r != Err(MissingFileName) ==> (filtered.Err? <==> r.Err? && r.error.FilterFailed?)
    ensures filtered.Err? ==> r == Err(FilterFailed(filtered.error))
    ensures r != Err(MissingFileName) && marker.Some? && !StartsWith(stdout, BOM) && ansi(Slashes(marker.value)).None? ==>
      r == Err(FilterFailed(AnsiEncoding))
    ensures r != Err(MissingFileName) && marker.None? && NoHdrstop(stdout, true) ==> r.Err? && r.error.FilterFailed?
    ensures marker.None? && HdrstopLine(stdout, 0, true) ==> !(r.Err? && r.error.FilterFailed?)
    ensures r != Err(MissingFileName) ==>
      |paths| == |inputSources| && forall i :: 0 <= i < |inputSources| ==> Some(paths[i]) == StrangePath(inputSources[i])
    ensures r == Err(MissingFileName) ==> log == []
    ensures r.Ok? || r == Err(UnexpectedPending) ==>
      && Distinct(Successes(log))
      && (forall p :: p in Successes(log) ==> p in inputSources)
      && (r.Ok? <==> forall p :: p in inputSources ==> p in Successes(log))
      && (!success ==> log != [] && log[|log| - 1] == Delivery(inputSources[0], Failed(code, stderr)))
    ensures outputPrecompiled.None? ==> forall i :: 0 <= i < |log| ==> HeaderFree(log[i].result)
  {
    var ok, pending, sources;
    ok, pending, sources, paths := CollectSources(inputSources, StrangePath, ansi);
    if !ok {
      return Err(MissingFileName), paths, [], Ok(());
    }
    r, log, filtered := SplitOutput(inputSources, pending, sources, marker, outputPrecompiled.Some?, ansi, stdout, success, code, stderr);
  }

  /** The part of `execute` after the command is built: the preprocessor's
      output is filtered into a `VsPreprocessor` that knows the sources'
      markers, then the remaining content and any failure are delivered. */
  method SplitOutput(inputSources: seq<Path>, pending: set<Path>, sources: map<seq<byte>, Path>,
                     marker: Option<string>, keepHeaders: bool, ansi: string -> Option<seq<byte>>,
                     stdout: seq<byte>, success: bool, code: Option<int>, stderr: seq<byte>)
    returns (r: Result<(), ExecuteError>, log: seq<Delivery>, ghost filtered: Result<(), PostprocessError>)
    requires |inputSources| > 0
    requires forall p :: p in pending <==> p in inputSources
    requires forall key :: key in sources ==> sources[key] in pending
    ensures r != Err(MissingFileName)
    ensures filtered.Err? <==> r.Err? && r.error.FilterFailed?
    ensures filtered.Err? ==> r == Err(FilterFailed(filtered.error))
    ensures marker.Some? && !StartsWith(stdout, BOM) && ansi(Slashes(marker.value)).None? ==> r == Err(FilterFailed(AnsiEncoding))
    ensures marker.None? && NoHdrstop(stdout, true) ==> r.Err? && r.error.FilterFailed?
    ensures marker.None? && HdrstopLine(stdout, 0, true) ==> !(r.Err? && r.error.FilterFailed?)
    ensures r.Ok? || r == Err(UnexpectedPending) ==>
      && Distinct(Successes(log))
      && (forall p :: p in Successes(log) ==> p in inputSources)
      && (r.Ok? <==> forall p :: p in inputSources ==> p in Successes(log))
      && (!success ==> log != [] && log[|log| - 1] == Delivery(inputSources[0], Failed(code, stderr)))
    ensures !keepHeaders ==> forall i :: 0 <= i < |log| ==> HeaderFree(log[i].result)
  {
    var writer := new VsPreprocessor(pending, sources);
    var result;
    ghost var completed, done;
    result, completed, done := FilterPreprocessed(stdout, writer, marker, keepHeaders, true, ansi);
    filtered := result;
    if result.Err? {
      return Err(FilterFailed(result.error)), writer.delivered, filtered;
    }
    r := Deliver(writer, inputSources, keepHeaders, done, success, code, stderr);
    log := writer.delivered;
  }

  /** The end of `execute` after the filter: the last source is handed
      over, a failed run is reported against the first source, and a source
      never seen in the output is an internal error. */
  method Deliver(writer: VsPreprocessor, inputSources: seq<Path>, keepHeaders: bool, ghost done: bool,
                 success: bool, code: Option<int>, stderr: seq<byte>)
    returns (r: Result<(), ExecuteError>)
    requires writer.Valid() && |inputSources| > 0
    requires forall p :: p in writer.inputs <==> p in inputSources
    requires !keepHeaders ==> DeliveredHeaderFree(writer.delivered, 0) && ContentHeaderFree(writer.content, done)
    modifies writer
    ensures r.Ok? || r == Err(UnexpectedPending)
    ensures Distinct(Successes(writer.delivered))
    ensures forall p :: p in Successes(writer.delivered) ==> p in inputSources
    ensures r.Ok? <==> forall p :: p in inputSources ==> p in Successes(writer.delivered)
    ensures !success ==>
      writer.delivered != [] && writer.delivered[|writer.delivered| - 1] == Delivery(inputSources[0], Failed(code, stderr))
    ensures !keepHeaders ==> DeliveredHeaderFree(writer.delivered, 0)
  {
    Finish(writer, inputSources[0], keepHeaders, done, success, code, stderr);
    WriterFinished(writer);
    if writer.pending != {} {
      return Err(UnexpectedPending);
    }
    r := Ok(());
  }

  /** The last `exec`, then the failure report against `first`. */
  method Finish(writer: VsPreprocessor, first: Path, keepHeaders: bool, ghost done: bool,
                success: bool, code: Option<int>, stderr: seq<byte>)
    requires writer.Valid()
    requires !keepHeaders ==> DeliveredHeaderFree(writer.delivered, 0) && ContentHeaderFree(writer.content, done)
    modifies writer
    ensures writer.Valid() && writer.content.None?
    ensures !success ==> writer.delivered != [] && writer.delivered[|writer.delivered| - 1] == Delivery(first, Failed(code, stderr))
    ensures !keepHeaders ==> DeliveredHeaderFree(writer.delivered, 0)
  {
    ghost var log := writer.delivered;
    ghost var content := writer.content;
    writer.Exec();
    if !keepHeaders {
      ExecHeaderFree(log, content, done);
    }
    if !success {
      ghost var before := writer.delivered;
      writer.ReportFailure(first, code, stderr);
      if !keepHeaders {
        FailureHeaderFree(before, Delivery(first, Failed(code, stderr)));
      }
    }
  }

  /** A failure report carries no preprocessed output. */
  lemma FailureHeaderFree(log: seq<Delivery>, d: Delivery)
    requires DeliveredHeaderFree(log, 0) && d.result.Failed?
    ensures DeliveredHeaderFree(log + [d], 0)
  {
  }

  /** The content handed over by `exec` keeps the log free of headers. */
  lemma ExecHeaderFree(log: seq<Delivery>, content: Option<VsContent>, done: bool)
    requires DeliveredHeaderFree(log, 0) && ContentHeaderFree(content, done)
    ensures DeliveredHeaderFree(log +
      (if content.Some? then [Delivery(content.value.inputSource, Success(content.value.data))] else []), 0)
  {
  }

  /** Once nothing is being collected, the sources delivered are distinct
      inputs, and all inputs were delivered exactly when none is pending. */
  lemma WriterFinished(w: VsPreprocessor)
    requires w.Valid() && w.content.None?
    ensures Distinct(Successes(w.delivered))
    ensures forall p :: p in Successes(w.delivered) ==> p in w.inputs
    ensures w.pending == {} <==> forall p :: p in w.inputs ==> p in Successes(w.delivered)
  {
    assert w.Started() == Successes(w.delivered);
    if w.pending != {} {
      var p :| p in w.pending;
      assert p !in Successes(w.delivered);
    }
  }

  // ---------------------------------------------------------------------
  // prepare_output

  /** Where the echo of the source name ends: after `line` when the output
      starts with it and a line end follows, at 0 otherwise. */
  function EchoEnd(line: seq<byte>, buffer: seq<byte>): nat {
    if |line| < |buffer| && buffer[..|line|] == line && IsEol(buffer[|line|]) then |line| else 0
  }

  /** The output without the echoed source name and the line ends after it. */
  function Trimmed(line: seq<byte>, buffer: seq<byte>): (r: seq<byte>)
    ensures r == [] || !IsEol(r[0])
    ensures |r| <= |buffer| && r == buffer[|buffer| - |r|..]
  {
    buffer[RunEnd(buffer, EchoEnd(line, buffer), IsEol)..]
  }

  /** `prepare_output`: the compiler's messages without the echoed source
      name and, after a successful run, without C4628 warnings. */
  method PrepareOutput(line: seq<byte>, buffer: seq<byte>, success: bool) returns (r: seq<byte>)
    ensures r == if success then ReplaceC4628(Trimmed(line, buffer)) else Trimmed(line, buffer)
  {
    var begin := if |line| < |buffer| && buffer[..|line|] == line && IsEol(buffer[|line|]) then |line| else 0;
    while begin < |buffer| && IsEol(buffer[begin])
      invariant EchoEnd(line, buffer) <= begin <= |buffer|
      invariant RunEnd(buffer, begin, IsEol) == RunEnd(buffer, EchoEnd(line, buffer), IsEol)
    {
      begin := begin + 1;
    }
    r := buffer[begin..];
    if success {
      r := ReplaceC4628(r);
    }
  }

  /** An echoed name followed by line ends is removed with them. */
  lemma TrimmedEcho(line: seq<byte>, eol: seq<byte>, rest: seq<byte>)
    requires eol != [] && forall m :: 0 <= m < |eol| ==> IsEol(eol[m])
    requires rest == [] || !IsEol(rest[0])
    ensures Trimmed(line, line + eol + rest) == rest
  {
    var b := line + eol + rest;
    assert b[..|line|] == line;
    assert b[|line|] == eol[0];
    forall m | |line| <= m < |line| + |eol|
      ensures IsEol(b[m])
    {
      assert b[m] == eol[m - |line|];
    }
    if rest != [] {
      assert b[|line| + |eol|] == rest[0];
    }
    RunEndAt(b, |line|, |line| + |eol|, IsEol);
    assert b[|line| + |eol|..] == rest;
  }

  /** Output that does not start with the echo loses only its leading line ends. */
  lemma TrimmedNoEcho(line: seq<byte>, buffer: seq<byte>)
    requires !(|line| < |buffer| && buffer[..|line|] == line && IsEol(buffer[|line|]))
    ensures Trimmed(line, buffer) == buffer[RunEnd(buffer, 0, IsEol)..]
  {
  }

  // The C4628 filter: the lines that `(?m)^\S+[^:]*\(\d+\) : warning C4628: .*$\n?` matches.

  const LPAREN: byte := 0x28
  const COLON: byte := 0x3A
  /** `) : warning C4628: ` */
  const WARNING_C4628: seq<byte> :=
    [0x29, 0x20, 0x3A, 0x20, 0x77, 0x61, 0x72, 0x6E, 0x69, 0x6E, 0x67, 0x20, 0x43, 0x34, 0x36, 0x32, 0x38, 0x3A, 0x20]

  /** `\s` on ASCII bytes. */
  predicate IsWhitespace(b: byte) { b == SPACE || (0x09 <= b <= 0x0D) }

  predicate NotWhitespace(b: byte) { !IsWhitespace(b) }

  /** The pattern matches line `l` (without its line feed) with `\S+` over
      `[0, i)`, `[^:]*` over `[i, j)`, `(` at `j`, `\d+` over `(j, k)` and the
      warning text from `k`; `.*` takes the rest of the line. */
  ghost predicate C4628At(l: seq<byte>, i: int, j: int, k: int) {
    && 0 < i <= j && j + 1 < k && k + |WARNING_C4628| <= |l|
    && (forall m :: 0 <= m < i ==> NotWhitespace(l[m]))
    && (forall m :: i <= m < j ==> l[m] != COLON)
    && l[j] == LPAREN
    && (forall m :: j < m < k ==> IsAsciiDigit(l[m]))
    && l[k..k + |WARNING_C4628|] == WARNING_C4628
  }

  ghost predicate C4628Spec(l: seq<byte>) {
    exists i, j, k :: C4628At(l, i, j, k)
  }

  /** The position after the last colon before `j`, or 0. */
  function LastColonEnd(l: seq<byte>, j: nat): (r: nat)
    requires j <= |l|
    ensures r <= j && (r > 0 ==> l[r - 1] == COLON)
    ensures forall m :: r <= m < j ==> l[m] != COLON
  {
    if j == 0 then 0 else if l[j - 1] == COLON then j else LastColonEnd(l, j - 1)
  }

  /** The hand-written matcher for a `(` at `j`: the digits after it must be
      followed by the warning text, and some split point must end a run
      without whitespace from the line start and start a run without colons
      up to `j`. */
  predicate MatchAt(l: seq<byte>, j: nat)
    requires j < |l|
  {
    && l[j] == LPAREN
    && var k := RunEnd(l, j + 1, IsAsciiDigit);
    && j + 1 < k && k + |WARNING_C4628| <= |l| && l[k..k + |WARNING_C4628|] == WARNING_C4628
    && var lo := if LastColonEnd(l, j) < 1 then 1 else LastColonEnd(l, j);
    && var s := RunEnd(l, 0, NotWhitespace);
    && lo <= j && lo <= s
  }

  predicate MatchFrom(l: seq<byte>, j: nat)
    decreases |l| - j
  {
    j < |l| && (MatchAt(l, j) || MatchFrom(l, j + 1))
  }

  predicate IsC4628Line(l: seq<byte>) { MatchFrom(l, 0) }

  /** A match found by the matcher is a match of the pattern. */
  lemma MatchAtSound(l: seq<byte>, j: nat)
    requires j < |l| && MatchAt(l, j)
    ensures C4628At(l, if LastColonEnd(l, j) < 1 then 1 else LastColonEnd(l, j), j, RunEnd(l, j + 1, IsAsciiDigit))
  {
  }

  /** A match of the pattern with `(` at `j` is found by the matcher. */
  lemma MatchAtComplete(l: seq<byte>, i: int, j: nat, k: int)
    requires j < |l| && C4628At(l, i, j, k)
    ensures MatchAt(l, j)
  {
    assert l[k] == WARNING_C4628[0];
    RunEndAt(l, j + 1, k, IsAsciiDigit);
  }

  lemma MatchAtIff(l: seq<byte>, j: nat)
    requires j < |l|
    ensures MatchAt(l, j) <==> exists i, k :: C4628At(l, i, j, k)
  {
    if MatchAt(l, j) {
      MatchAtSound(l, j);
    }
    if exists i, k :: C4628At(l, i, j, k) {
      var i, k :| C4628At(l, i, j, k);
      MatchAtComplete(l, i, j, k);
    }
  }

  lemma {:induction false} MatchFromIff(l: seq<byte>, j0: nat)
    ensures MatchFrom(l, j0) <==> exists i, j, k :: j0 <= j && C4628At(l, i, j, k)
    decreases |l| - j0
  {
    if j0 < |l| {
      MatchAtIff(l, j0);
      MatchFromIff(l, j0 + 1);
      if exists i, j, k :: j0 <= j && C4628At(l, i, j, k) {
        var i, j, k :| j0 <= j && C4628At(l, i, j, k);
        if j == j0 {
          assert MatchAt(l, j0);
        } else {
          assert MatchFrom(l, j0 + 1);
        }
      }
    }
  }

  /** The matcher agrees with the pattern. */
  lemma C4628LineIff(l: seq<byte>)
    ensures IsC4628Line(l) <==> C4628Spec(l)
  {
    MatchFromIff(l, 0);
  }

  /** A line of the shape the repository's test removes. */
  lemma C4628Shape(name: seq<byte>, digits: seq<byte>, text: seq<byte>)
    requires name != [] && forall m :: 0 <= m < |name| ==> NotWhitespace(name[m]) && name[m] != COLON
    requires digits != [] && forall m :: 0 <= m < |digits| ==> IsAsciiDigit(digits[m])
    ensures IsC4628Line(name + [LPAREN] + digits + WARNING_C4628 + text)
  {
    var l := name + [LPAREN] + digits + WARNING_C4628 + text;
    var j := |name|;
    var k := j + 1 + |digits|;
    assert l[j] == LPAREN;
    forall m | 0 <= m < j
      ensures NotWhitespace(l[m])
    {
      assert l[m] == name[m];
    }
    forall m | j < m < k
      ensures IsAsciiDigit(l[m])
    {
      assert l[m] == digits[m - j - 1];
    }
    assert l[k..k + |WARNING_C4628|] == WARNING_C4628;
    assert C4628At(l, j, j, k);
    C4628LineIff(l);
  }

  /** The output with every C4628 line removed, line by line. */
  function RemoveC4628(buf: seq<byte>): (r: seq<byte>)
    ensures |r| <= |buf|
    decreases |buf|
  {
    var n := LineEnd(buf, 0);
    if n == |buf| then (if IsC4628Line(buf) then [] else buf)
    else (if IsC4628Line(buf[..n]) then [] else buf[..n + 1]) + RemoveC4628(buf[n + 1..])
  }

  /** No line of `buf` is a C4628 warning. */
  ghost predicate NoC4628(buf: seq<byte>)
    decreases |buf|
  {
    var n := LineEnd(buf, 0);
    !IsC4628Line(buf[..n]) && (n < |buf| ==> NoC4628(buf[n + 1..]))
  }

  lemma LineSplit(l: seq<byte>, rest: seq<byte>)
    requires forall m :: 0 <= m < |l| ==> l[m] != LF
    ensures var b := l + [LF] + rest; LineEnd(b, 0) == |l| && b[..|l|] == l && b[|l| + 1..] == rest
  {
    var b := l + [LF] + rest;
    forall m | 0 <= m < |l|
      ensures NotLineFeed(b[m])
    {
      assert b[m] == l[m];
    }
    assert b[|l|] == LF;
    RunEndAt(b, 0, |l|, NotLineFeed);
    assert b[|l| + 1..] == rest;
  }

  lemma LineWhole(l: seq<byte>)
    requires forall m :: 0 <= m < |l| ==> l[m] != LF
    ensures LineEnd(l, 0) == |l|
  {
    RunEndAt(l, 0, |l|, NotLineFeed);
  }

  /** What is left has no C4628 line. */
  lemma {:induction false} RemoveC4628Clean(buf: seq<byte>)
    ensures NoC4628(RemoveC4628(buf))
    decreases |buf|
  {
    var n := LineEnd(buf, 0);
    if n == |buf| {
      if IsC4628Line(buf) {
        assert LineEnd([], 0) == 0;
        assert !MatchFrom([], 0);
      } else {
        assert buf[..n] == buf;
      }
    } else {
      var l := buf[..n];
      var r := RemoveC4628(buf[n + 1..]);
      RemoveC4628Clean(buf[n + 1..]);
      if IsC4628Line(l) {
        assert RemoveC4628(buf) == [] + r == r;
      } else {
        assert buf[..n + 1] == l + [LF];
        CleanCons(l, r);
      }
    }
  }

  /** A line that is no C4628 warning, in front of output without one. */
  lemma CleanCons(l: seq<byte>, r: seq<byte>)
    requires forall m :: 0 <= m < |l| ==> l[m] != LF
    requires !IsC4628Line(l) && NoC4628(r)
    ensures NoC4628(l + [LF] + r)
  {
    LineSplit(l, r);
  }

  /** Output without C4628 lines is left as it is. */
  lemma {:induction false} RemoveC4628Keeps(buf: seq<byte>)
    requires NoC4628(buf)
    ensures RemoveC4628(buf) == buf
    decreases |buf|
  {
    var n := LineEnd(buf, 0);
    if n == |buf| {
      assert buf[..n] == buf;
    } else {
      RemoveC4628Keeps(buf[n + 1..]);
      assert buf[..n + 1] + buf[n + 1..] == buf;
    }
  }

  lemma RemoveC4628Idempotent(buf: seq<byte>)
    ensures RemoveC4628(RemoveC4628(buf)) == RemoveC4628(buf)
  {
    RemoveC4628Clean(buf);
    RemoveC4628Keeps(RemoveC4628(buf));
  }

  // The C4628 filter as written: `replace_all` of the pattern over the whole
  // output, where `[^:]*` may run across line feeds.

  /** `^` in multi-line mode: the start of the output or just after a line feed. */
  predicate LineStart(buf: seq<byte>, p: nat) {
    p <= |buf| && (p == 0 || buf[p - 1] == LF)
  }

  /** One way the pattern can match from `p`: `\S+` over `[p, i)`, `[^:]*`
      over `[i, j)`, `(` at `j`, `\d+` over `(j, k)`, the warning text at `k`,
      then `.*` up to `t`, where `$` holds: a line feed or the end. */
  ghost predicate PatternAt(buf: seq<byte>, p: int, i: int, j: int, k: int, t: int) {
    && 0 <= p && LineStart(buf, p)
    && p < i <= j && j + 1 < k && k + |WARNING_C4628| <= t <= |buf|
    && (forall m :: p <= m < i ==> NotWhitespace(buf[m]))
    && (forall m :: i <= m < j ==> buf[m] != COLON)
    && buf[j] == LPAREN
    && (forall m :: j < m < k ==> IsAsciiDigit(buf[m]))
    && buf[k..k + |WARNING_C4628|] == WARNING_C4628
    && (forall m :: k + |WARNING_C4628| <= m < t ==> buf[m] != LF)
    && (t == |buf| || buf[t] == LF)
  }

  /** Where a match whose `.*` stops at `t` ends: `\n?` takes the line feed. */
  function MatchEnd(buf: seq<byte>, t: nat): nat {
    if t < |buf| then t + 1 else t
  }

  /** The match that leftmost-first semantics reports from `p`: greedy `\S+`
      first, then greedy `[^:]*`; the digits and the tail follow from them. */
  ghost predicate PreferredAt(buf: seq<byte>, p: int, i: int, j: int, k: int, t: int) {
    && PatternAt(buf, p, i, j, k, t)
    && forall i', j', k', t' :: PatternAt(buf, p, i', j', k', t') ==> i' < i || (i' == i && j' <= j)
  }

  /** Where the digits after a `(` at `j` end. */
  function DigitsEnd(buf: seq<byte>, j: nat): nat
    requires j < |buf|
  {
    RunEnd(buf, j + 1, IsAsciiDigit)
  }

  /** A `(` at `j`, digits, then the warning text. */
  predicate WarningAt(buf: seq<byte>, j: nat) {
    && j < |buf| && buf[j] == LPAREN
    && var k := DigitsEnd(buf, j);
    && j + 1 < k && k + |WARNING_C4628| <= |buf| && buf[k..k + |WARNING_C4628|] == WARNING_C4628
  }

  /** Where `.*` stops after the warning text of a `(` at `j`. */
  function TailEnd(buf: seq<byte>, j: nat): nat
    requires WarningAt(buf, j)
  {
    LineEnd(buf, DigitsEnd(buf, j) + |WARNING_C4628|)
  }

  /** Where `\S+` stops for a match from `p` with its `(` at `j`: as late as
      it can, at the end of the non-blank run or at `j`. */
  function SplitAt(buf: seq<byte>, p: nat, j: nat): nat
    requires p <= |buf|
  {
    var s := RunEnd(buf, p, NotWhitespace);
    if j < s then j else s
  }

  /** Some match from `p` has its `(` at `j`: `\S+` can stop after the last
      colon before `j`, but neither past `j` nor past the non-blank run from `p`. */
  predicate Feasible(buf: seq<byte>, p: nat, j: nat)
    requires p <= |buf|
  {
    && WarningAt(buf, j)
    && var lo := if LastColonEnd(buf, j) < p + 1 then p + 1 else LastColonEnd(buf, j);
    && lo <= SplitAt(buf, p, j)
  }

  /** The last `j` in `(p, hi)` that is feasible, searching downwards. */
  function LastFeasible(buf: seq<byte>, p: nat, hi: nat): (r: Option<nat>)
    requires p <= |buf| && hi <= |buf|
    ensures r.Some? ==> p < r.value < hi && Feasible(buf, p, r.value)
    ensures r.Some? ==> forall j :: r.value < j < hi ==> !Feasible(buf, p, j)
    ensures r.None? ==> forall j :: p < j < hi ==> !Feasible(buf, p, j)
    decreases hi
  {
    if hi <= p + 1 then None
    else if Feasible(buf, p, hi - 1) then Some(hi - 1)
    else LastFeasible(buf, p, hi - 1)
  }

  /** Where the match from `p` ends, if the pattern matches there. */
  function MatchEndAt(buf: seq<byte>, p: nat): (r: Option<nat>)
    ensures r.Some? ==> p < r.value <= |buf|
  {
    if p < |buf| && LineStart(buf, p) then
      match LastFeasible(buf, p, |buf|)
      case Some(j) => Some(MatchEnd(buf, TailEnd(buf, j)))
      case None => None
    else None
  }

  /** A run reaches at least as far as a stretch where the predicate holds. */
  lemma RunEndReaches(data: seq<byte>, i: nat, j: nat, p: byte -> bool)
    requires i <= j <= |data|
    requires forall m :: i <= m < j ==> p(data[m])
    ensures RunEnd(data, i, p) >= j
  {
  }

  /** Any match of the pattern: its `(` is feasible, `\S+` stops within the
      non-blank run, and the digits and the tail are the longest ones. */
  lemma PatternFeasible(buf: seq<byte>, p: nat, i: int, j: int, k: int, t: int)
    requires PatternAt(buf, p, i, j, k, t)
    ensures Feasible(buf, p, j) && i <= RunEnd(buf, p, NotWhitespace)
    ensures k == DigitsEnd(buf, j) && t == TailEnd(buf, j)
  {
    assert buf[k] == WARNING_C4628[0];
    RunEndAt(buf, j + 1, k, IsAsciiDigit);
    RunEndAt(buf, k + |WARNING_C4628|, t, NotLineFeed);
    RunEndReaches(buf, p, i, NotWhitespace);
  }

  /** A feasible `(` gives a match, with `\S+` as long as it can be. */
  lemma FeasiblePattern(buf: seq<byte>, p: nat, j: nat)
    requires p <= |buf| && LineStart(buf, p) && Feasible(buf, p, j)
    ensures PatternAt(buf, p, SplitAt(buf, p, j), j, DigitsEnd(buf, j), TailEnd(buf, j))
  {
  }

  /** The last feasible `(` gives the preferred match. */
  lemma FeasiblePreferred(buf: seq<byte>, p: nat, j: nat)
    requires p <= |buf| && LineStart(buf, p) && Feasible(buf, p, j)
    requires forall j' :: j < j' < |buf| ==> !Feasible(buf, p, j')
    ensures PreferredAt(buf, p, SplitAt(buf, p, j), j, DigitsEnd(buf, j), TailEnd(buf, j))
  {
    FeasiblePattern(buf, p, j);
    var i := SplitAt(buf, p, j);
    forall i', j', k', t' | PatternAt(buf, p, i', j', k', t')
      ensures i' < i || (i' == i && j' <= j)
    {
      PatternFeasible(buf, p, i', j', k', t');
    }
  }

  /** The match the computation finds is the one the pattern reports. */
  lemma MatchEndAtSound(buf: seq<byte>, p: nat)
    requires MatchEndAt(buf, p).Some?
    ensures exists i, j, k, t :: PreferredAt(buf, p, i, j, k, t) && MatchEndAt(buf, p).value == MatchEnd(buf, t)
  {
    var j := LastFeasible(buf, p, |buf|).value;
    FeasiblePreferred(buf, p, j);
  }

  /** The pattern matches from `p` exactly when the computation finds a match. */
  lemma MatchEndAtComplete(buf: seq<byte>, p: nat, i: int, j: int, k: int, t: int)
    requires PatternAt(buf, p, i, j, k, t)
    ensures MatchEndAt(buf, p).Some?
  {
    PatternFeasible(buf, p, i, j, k, t);
  }

  /** Two preferred matches from the same start end at the same place. */
  lemma PreferredUnique(buf: seq<byte>, p: nat, i: int, j: int, k: int, t: int, i2: int, j2: int, k2: int, t2: int)
    requires PreferredAt(buf, p, i, j, k, t) && PreferredAt(buf, p, i2, j2, k2, t2)
    ensures i == i2 && j == j2 && k == k2 && t == t2
  {
    PatternFeasible(buf, p, i, j, k, t);
    PatternFeasible(buf, p, i2, j2, k2, t2);
  }

  /** The end the computation finds is that of the preferred match. */
  lemma MatchEndAtPreferred(buf: seq<byte>, p: nat, i: int, j: int, k: int, t: int)
    requires PreferredAt(buf, p, i, j, k, t)
    ensures MatchEndAt(buf, p) == Some(MatchEnd(buf, t))
  {
    MatchEndAtComplete(buf, p, i, j, k, t);
    MatchEndAtSound(buf, p);
    var i2, j2, k2, t2 :| PreferredAt(buf, p, i2, j2, k2, t2) && MatchEndAt(buf, p).value == MatchEnd(buf, t2);
    PreferredUnique(buf, p, i, j, k, t, i2, j2, k2, t2);
  }

  /** The leftmost match at or after `pos`: its start and its end. */
  function NextMatch(buf: seq<byte>, pos: nat): (r: Option<(nat, nat)>)
    requires pos <= |buf|
    ensures r.Some? ==> pos <= r.value.0 < r.value.1 <= |buf| && MatchEndAt(buf, r.value.0) == Some(r.value.1)
    ensures r.Some? ==> forall q :: pos <= q < r.value.0 ==> MatchEndAt(buf, q).None?
    ensures r.None? ==> forall q :: pos <= q < |buf| ==> MatchEndAt(buf, q).None?
    decreases |buf| - pos
  {
    if pos == |buf| then None
    else match MatchEndAt(buf, pos)
      case Some(e) => Some((pos, e))
      case None =>
        var r := NextMatch(buf, pos + 1);
        NoMatchBefore(buf, pos, if r.Some? then r.value.0 else |buf|);
        r
  }

  /** No match from `pos` and none in `(pos, hi)`: none in `[pos, hi)`. */
  lemma NoMatchBefore(buf: seq<byte>, pos: nat, hi: nat)
    requires MatchEndAt(buf, pos).None?
    requires forall q :: pos + 1 <= q < hi ==> MatchEndAt(buf, q).None?
    ensures forall q :: pos <= q < hi ==> MatchEndAt(buf, q).None?
  {
  }

  /** `replace_all` with the empty replacement, from `pos` on: each leftmost
      match is cut out and the search goes on where it ended. */
  function ReplaceFrom(buf: seq<byte>, pos: nat): (r: seq<byte>)
    requires pos <= |buf|
    ensures |r| <= |buf| - pos
    decreases |buf| - pos
  {
    match NextMatch(buf, pos)
    case None => buf[pos..]
    case Some((p, e)) => buf[pos..p] + ReplaceFrom(buf, e)
  }

  /** `RE.replace_all(&buffer, NoExpand(b""))`. */
  function ReplaceC4628(buf: seq<byte>): seq<byte> {
    ReplaceFrom(buf, 0)
  }

  /** No match starts at or after `pos`: the rest is kept as it is. */
  lemma ReplaceFromRest(buf: seq<byte>, pos: nat)
    requires pos <= |buf|
    requires forall q, i, j, k, t :: pos <= q ==> !PatternAt(buf, q, i, j, k, t)
    ensures ReplaceFrom(buf, pos) == buf[pos..]
  {
    if NextMatch(buf, pos).Some? {
      var q := NextMatch(buf, pos).value.0;
      MatchEndAtSound(buf, q);
    }
  }

  /** The first match at or after `pos` is the leftmost one the pattern
      admits, and it runs to the end of the preferred match there: the bytes
      before it are kept and the search goes on after it. */
  lemma ReplaceFromMatch(buf: seq<byte>, pos: nat, p: nat, i: int, j: int, k: int, t: int)
    requires pos <= p && PreferredAt(buf, p, i, j, k, t)
    requires forall q, i', j', k', t' :: pos <= q < p ==> !PatternAt(buf, q, i', j', k', t')
    ensures p <= |buf| && MatchEnd(buf, t) <= |buf|
    ensures ReplaceFrom(buf, pos) == buf[pos..p] + ReplaceFrom(buf, MatchEnd(buf, t))
  {
    MatchEndAtPreferred(buf, p, i, j, k, t);
    var r := NextMatch(buf, pos);
    assert r.Some? by {
      assert MatchEndAt(buf, p).Some?;
    }
    var q := r.value.0;
    if q < p {
      MatchEndAtSound(buf, q);
    }
    assert q == p;
  }

  /** The output is left as it is exactly when the pattern matches nowhere. */
  lemma ReplaceC4628Keeps(buf: seq<byte>)
    ensures ReplaceC4628(buf) == buf <==> forall p, i, j, k, t :: !PatternAt(buf, p, i, j, k, t)
  {
    if forall p, i, j, k, t :: !PatternAt(buf, p, i, j, k, t) {
      ReplaceFromRest(buf, 0);
    } else {
      var p, i, j, k, t :| PatternAt(buf, p, i, j, k, t);
      MatchEndAtComplete(buf, p, i, j, k, t);
      assert NextMatch(buf, 0).Some?;
      var m := NextMatch(buf, 0).value;
      assert |ReplaceC4628(buf)| <= m.0 + (|buf| - m.1);
    }
  }

  /** A run stops at or before a byte where the predicate fails. */
  lemma RunEndStops(data: seq<byte>, i: nat, j: nat, p: byte -> bool)
    requires i <= j < |data| && !p(data[j])
    ensures RunEnd(data, i, p) <= j
  {
  }

  /** The first three bytes of the warning text of a match. */
  lemma WarningHead(buf: seq<byte>, p: nat, i: int, j: int, k: int, t: int)
    requires PatternAt(buf, p, i, j, k, t)
    ensures buf[k] == 0x29 && buf[k + 1] == SPACE && buf[k + 2] == COLON
  {
    assert buf[k] == WARNING_C4628[0] && buf[k + 1] == WARNING_C4628[1] && buf[k + 2] == WARNING_C4628[2];
  }

  /** The `(` of a match from `p` lies before the colon that follows the
      first space after `p`. */
  lemma ParenBeforeColon(buf: seq<byte>, p: nat, c: nat, i2: int, j2: int, k2: int, t2: int)
    requires PatternAt(buf, p, i2, j2, k2, t2)
    requires p < c && c + 1 < |buf| && buf[c] == SPACE && buf[c + 1] == COLON
    ensures j2 <= c + 1
  {
    PatternFeasible(buf, p, i2, j2, k2, t2);
    RunEndStops(buf, p, c, NotWhitespace);
  }

  /** Without a `(` between `p` and the `(` of a match, every match from `p`
      has its `(` there: `[^:]*` cannot pass the colon of the warning text. */
  lemma OnlyParen(buf: seq<byte>, p: nat, i: int, j: int, k: int, t: int, i2: int, j2: int, k2: int, t2: int)
    requires PatternAt(buf, p, i, j, k, t) && PatternAt(buf, p, i2, j2, k2, t2)
    requires forall m :: p <= m < j ==> buf[m] != LPAREN
    ensures j2 == j && k2 == k && t2 == t
  {
    WarningHead(buf, p, i, j, k, t);
    ParenBeforeColon(buf, p, k + 1, i2, j2, k2, t2);
    assert buf[j2] == LPAREN;
    assert j <= j2;
    PatternFeasible(buf, p, i, j, k, t);
    PatternFeasible(buf, p, i2, j2, k2, t2);
  }

  /** Such a match is the one reported from `p`. */
  lemma OnlyParenEnd(buf: seq<byte>, p: nat, i: int, j: int, k: int, t: int)
    requires PatternAt(buf, p, i, j, k, t)
    requires forall m :: p <= m < j ==> buf[m] != LPAREN
    ensures MatchEndAt(buf, p) == Some(MatchEnd(buf, t))
  {
    MatchEndAtComplete(buf, p, i, j, k, t);
    MatchEndAtSound(buf, p);
    var i2, j2, k2, t2 :| PreferredAt(buf, p, i2, j2, k2, t2) && MatchEndAt(buf, p).value == MatchEnd(buf, t2);
    OnlyParen(buf, p, i, j, k, t, i2, j2, k2, t2);
  }

  /** A match from the start to the end of the output removes all of it. */
  lemma ReplaceWhole(buf: seq<byte>)
    requires MatchEndAt(buf, 0) == Some(|buf|)
    ensures ReplaceC4628(buf) == []
  {
    assert NextMatch(buf, 0) == Some((0, |buf|));
    assert NextMatch(buf, |buf|) == None;
  }

  /** A line without `(` is no C4628 line on its own. */
  lemma NoParenLine(l: seq<byte>)
    requires LPAREN !in l
    ensures !IsC4628Line(l)
  {
    C4628LineIff(l);
  }

  /** A line without a colon or `(` before a C4628 warning line: the pattern
      as written removes both lines, because `[^:]*` runs across the line
      feed, while the line-by-line filter keeps the first one. This is the
      output `Generating Code...` followed by `foo.c(42) : warning C4628: x`. */
  lemma C4628Spans(first: seq<byte>, second: seq<byte>, name: seq<byte>, digits: seq<byte>, text: seq<byte>)
    requires first != [] && NotWhitespace(first[0])
    requires LF !in first && COLON !in first && LPAREN !in first
    requires name != [] && forall m :: 0 <= m < |name| ==> NotWhitespace(name[m]) && name[m] != COLON && name[m] != LPAREN
    requires digits != [] && forall m :: 0 <= m < |digits| ==> IsAsciiDigit(digits[m])
    requires LF !in text
    requires second == name + [LPAREN] + digits + WARNING_C4628 + text
    ensures ReplaceC4628(first + [LF] + second + [LF]) == []
    ensures RemoveC4628(first + [LF] + second + [LF]) == first + [LF]
  {
    SpansMatch(first, second, name, digits, text);
    ReplaceWhole(first + [LF] + second + [LF]);
    LineWithoutLineFeed(name, digits, text);
    NoParenLine(first);
    C4628Shape(name, digits, text);
    RemoveTwoLines(first, second);
  }

  /** The match of `C4628Spans` runs over the whole output. */
  lemma SpansMatch(first: seq<byte>, second: seq<byte>, name: seq<byte>, digits: seq<byte>, text: seq<byte>)
    requires first != [] && NotWhitespace(first[0])
    requires LF !in first && COLON !in first && LPAREN !in first
    requires name != [] && forall m :: 0 <= m < |name| ==> NotWhitespace(name[m]) && name[m] != COLON && name[m] != LPAREN
    requires digits != [] && forall m :: 0 <= m < |digits| ==> IsAsciiDigit(digits[m])
    requires LF !in text
    requires second == name + [LPAREN] + digits + WARNING_C4628 + text
    ensures MatchEndAt(first + [LF] + second + [LF], 0) == Some(|first + [LF] + second + [LF]|)
  {
    var buf := first + [LF] + second + [LF];
    var j := |first| + 1 + |name|;
    var k := j + 1 + |digits|;
    var w := k + |WARNING_C4628|;
    var t := |buf| - 1;
    forall m | 0 <= m < j
      ensures buf[m] != COLON && buf[m] != LPAREN
    {
      if m < |first| {
        assert buf[m] == first[m] && first[m] in first;
      } else if m > |first| {
        assert buf[m] == second[m - |first| - 1] == name[m - |first| - 1];
      }
    }
    assert buf[0] == first[0];
    assert buf[j] == second[|name|] == LPAREN;
    forall m | j < m < k
      ensures IsAsciiDigit(buf[m])
    {
      assert buf[m] == second[m - |first| - 1] == digits[m - j - 1];
    }
    assert buf[k..w] == second[k - |first| - 1..w - |first| - 1] == WARNING_C4628;
    forall m | w <= m < t
      ensures buf[m] != LF
    {
      assert buf[m] == second[m - |first| - 1] == text[m - w] && text[m - w] in text;
    }
    assert PatternAt(buf, 0, 1, j, k, t);
    OnlyParenEnd(buf, 0, 1, j, k, t);
    assert MatchEndAt(buf, 0) == Some(MatchEnd(buf, t));
    assert MatchEnd(buf, t) == |buf|;
  }

  /** A C4628 line of the shape `C4628Shape` builds holds no line feed. */
  lemma LineWithoutLineFeed(name: seq<byte>, digits: seq<byte>, text: seq<byte>)
    requires forall m :: 0 <= m < |name| ==> NotWhitespace(name[m])
    requires forall m :: 0 <= m < |digits| ==> IsAsciiDigit(digits[m])
    requires LF !in text
    ensures LF !in name + [LPAREN] + digits + WARNING_C4628 + text
  {
  }

  /** The line-by-line filter on two lines, of which only the second is a
      C4628 warning. */
  lemma RemoveTwoLines(first: seq<byte>, second: seq<byte>)
    requires LF !in first && LF !in second
    requires !IsC4628Line(first) && IsC4628Line(second)
    ensures RemoveC4628(first + [LF] + second + [LF]) == first + [LF]
  {
    NoLineFeed(first);
    NoLineFeed(second);
    var tail := second + [LF];
    var b := first + [LF] + tail;
    assert first + [LF] + second + [LF] == b;
    LineSplit(first, tail);
    assert RemoveC4628(b) == b[..|first| + 1] + RemoveC4628(tail);
    LineSplit(second, []);
    assert second + [LF] + [] == tail;
    assert RemoveC4628(tail) == [] + RemoveC4628([]);
  }

  /** `LF !in l` in the form `LineSplit` takes. */
  lemma NoLineFeed(l: seq<byte>)
    requires LF !in l
    ensures forall m :: 0 <= m < |l| ==> l[m] != LF
  {
  }

  /** A C4628 warning line of the shape `C4628Shape` builds, at a line start
      `q` with no match between `pos` and `q`, is cut out with its line feed
      (up to `e`) and the replacement goes on after it, as in the
      repository's `c4628_remove` test. */
  lemma C4628LineRemoved(buf: seq<byte>, pos: nat, q: nat, e: nat, line: seq<byte>, name: seq<byte>, digits: seq<byte>, text: seq<byte>)
    requires name != [] && forall m :: 0 <= m < |name| ==> NotWhitespace(name[m]) && name[m] != LPAREN
    requires digits != [] && forall m :: 0 <= m < |digits| ==> IsAsciiDigit(digits[m])
    requires LF !in text
    requires line == name + [LPAREN] + digits + WARNING_C4628 + text
    requires pos <= q && LineStart(buf, q) && e == q + |line| + 1 <= |buf| && buf[q..e] == line + [LF]
    requires forall q', i, j, k, t :: pos <= q' < q ==> !PatternAt(buf, q', i, j, k, t)
    ensures ReplaceFrom(buf, pos) == buf[pos..q] + ReplaceFrom(buf, e)
  {
    LineMatch(buf, q, e, line, name, digits, text);
    ReplaceFromAt(buf, pos, q, e);
  }

  /** The match `C4628LineRemoved` finds at `q` ends after the line feed. */
  lemma LineMatch(buf: seq<byte>, q: nat, e: nat, line: seq<byte>, name: seq<byte>, digits: seq<byte>, text: seq<byte>)
    requires name != [] && forall m :: 0 <= m < |name| ==> NotWhitespace(name[m]) && name[m] != LPAREN
    requires digits != [] && forall m :: 0 <= m < |digits| ==> IsAsciiDigit(digits[m])
    requires LF !in text
    requires line == name + [LPAREN] + digits + WARNING_C4628 + text
    requires LineStart(buf, q) && e == q + |line| + 1 <= |buf| && buf[q..e] == line + [LF]
    ensures MatchEndAt(buf, q).Some? && MatchEndAt(buf, q).value == e
  {
    var j := q + |name|;
    LinePattern(buf, q, line, name, digits, text);
    OnlyParenEnd(buf, q, j, j, j + 1 + |digits|, q + |line|);
  }

  /** The match reported at `q`, with none between `pos` and `q`, is the
      next one replaced. */
  lemma ReplaceFromAt(buf: seq<byte>, pos: nat, q: nat, e: nat)
    requires pos <= q && MatchEndAt(buf, q).Some? && MatchEndAt(buf, q).value == e
    requires forall q', i, j, k, t :: pos <= q' < q ==> !PatternAt(buf, q', i, j, k, t)
    ensures e <= |buf| && ReplaceFrom(buf, pos) == buf[pos..q] + ReplaceFrom(buf, e)
  {
    MatchEndAtSound(buf, q);
    var i, j, k, t :| PreferredAt(buf, q, i, j, k, t) && e == MatchEnd(buf, t);
    ReplaceFromMatch(buf, pos, q, i, j, k, t);
  }

  /** The match `C4628LineRemoved` finds at `q`. */
  lemma LinePattern(buf: seq<byte>, q: nat, line: seq<byte>, name: seq<byte>, digits: seq<byte>, text: seq<byte>)
    requires name != [] && forall m :: 0 <= m < |name| ==> NotWhitespace(name[m]) && name[m] != LPAREN
    requires digits != [] && forall m :: 0 <= m < |digits| ==> IsAsciiDigit(digits[m])
    requires LF !in text
    requires line == name + [LPAREN] + digits + WARNING_C4628 + text
    requires LineStart(buf, q) && q + |line| < |buf| && buf[q..q + |line| + 1] == line + [LF]
    ensures PatternAt(buf, q, q + |name|, q + |name|, q + |name| + 1 + |digits|, q + |line|)
    ensures forall m :: q <= m < q + |name| ==> buf[m] != LPAREN
  {
    var j := q + |name|;
    var k := j + 1 + |digits|;
    var w := k + |WARNING_C4628|;
    var t := q + |line|;
    forall m | q <= m < j
      ensures NotWhitespace(buf[m]) && buf[m] != LPAREN
    {
      assert buf[m] == line[m - q] == name[m - q];
    }
    assert buf[j] == line[|name|] == LPAREN;
    forall m | j < m < k
      ensures IsAsciiDigit(buf[m])
    {
      assert buf[m] == line[m - q] == digits[m - j - 1];
    }
    forall m | k <= m < w
      ensures buf[m] == WARNING_C4628[m - k]
    {
      assert buf[m] == line[m - q] == WARNING_C4628[m - k];
    }
    assert buf[k..w] == WARNING_C4628;
    forall m | w <= m < t
      ensures buf[m] != LF
    {
      assert buf[m] == line[m - q] == text[m - w] && text[m - w] in text;
    }
    assert buf[t] == (line + [LF])[|line|] == LF;
  }

  /** The shape of the repository's first `prepare_output` test: the echoed
      name and its line end go, the other messages stay. */
  lemma PrepareOutputEcho(line: seq<byte>, rest: seq<byte>)
    requires rest == [] || !IsEol(rest[0])
    requires forall p, i, j, k, t :: !PatternAt(rest, p, i, j, k, t)
    ensures ReplaceC4628(Trimmed(line, line + [LF] + rest)) == rest
  {
    TrimmedEcho(line, [LF], rest);
    ReplaceC4628Keeps(rest);
  }

  // ---------------------------------------------------------------------
  // read_executable_id

  datatype ExeError =
    | ShortFile       // `read_exact` ran out of input
    | NoMzSignature   // "MZ header signature not found"
    | NoPeSignature   // "PE header signature not found"

  const MZ: seq<byte> := [0x4D, 0x5A]
  const PE: seq<byte> := [0x50, 0x45, 0x00, 0x00]

  /** `read_u32::<LittleEndian>` at `at`. */
  function U32At(b: seq<byte>, at: nat): (v: nat)
    requires at + 4 <= |b|
    ensures v < 0x1_0000_0000
  {
    b[at] as nat + 0x100 * (b[at + 1] as nat) + 0x1_0000 * (b[at + 2] as nat) + 0x100_0000 * (b[at + 3] as nat)
  }

  function HexDigit(d: nat, upper: bool): (c: char)
    requires d < 16
  {
    if d < 10 then ('0' as int + d) as char
    else if upper then ('A' as int + d - 10) as char
    else ('a' as int + d - 10) as char
  }

  /** `{:X}` (`upper`) and `{:x}`: hexadecimal without leading zeros. */
  function Hex(n: nat, upper: bool): (s: string)
    ensures |s| >= 1
    decreases n
  {
    if n < 16 then [HexDigit(n, upper)] else Hex(n / 16, upper) + [HexDigit(n % 16, upper)]
  }

  function HexDigitValue(c: char): nat {
    if '0' <= c <= '9' then c as int - '0' as int
    else if 'A' <= c <= 'F' then c as int - 'A' as int + 10
    else if 'a' <= c <= 'f' then c as int - 'a' as int + 10
    else 0
  }

  /** The number a hexadecimal text stands for. */
  function HexValue(s: string): nat {
    if s == [] then 0 else 16 * HexValue(s[..|s| - 1]) + HexDigitValue(s[|s| - 1])
  }

  /** The formatted number reads back as itself. */
  lemma {:induction false} HexRoundTrip(n: nat, upper: bool)
    ensures HexValue(Hex(n, upper)) == n
    decreases n
  {
    var s := Hex(n, upper);
    if n < 16 {
      assert s[..0] == [];
    } else {
      HexRoundTrip(n / 16, upper);
      assert s[..|s| - 1] == Hex(n / 16, upper);
      assert HexDigitValue(HexDigit(n % 16, upper)) == n % 16;
    }
  }

  /** Only zero is written with a leading zero. */
  lemma {:induction false} HexNoLeadingZero(n: nat, upper: bool)
    ensures Hex(n, upper)[0] == '0' <==> n == 0
    decreases n
  {
    if n >= 16 {
      HexNoLeadingZero(n / 16, upper);
    }
  }

  /** `read_executable_id` over the bytes of the file: the MZ signature at 0,
      the PE signature at the offset stored at 0x3C, then the image's time
      stamp in upper-case and its size in lower-case hexadecimal. */
  function ReadExecutableId(file: seq<byte>): (r: Result<string, ExeError>)
    ensures r.Ok? <==>
      && |file| >= 0x40 && file[..2] == MZ
      && U32At(file, 0x3C) + 0x54 <= |file| && file[U32At(file, 0x3C)..U32At(file, 0x3C) + 4] == PE
    ensures |file| < 0x40 ==> r == Err(ShortFile)
    ensures |file| >= 0x40 && file[..2] != MZ ==> r == Err(NoMzSignature)
    ensures r.Ok? ==> var pe := U32At(file, 0x3C);
      r.value == Hex(U32At(file, pe + 0x08), true) + Hex(U32At(file, pe + 0x50), false)
  {
    if |file| < 0x40 then Err(ShortFile)
    else if file[..2] != MZ then Err(NoMzSignature)
    else
      var pe := U32At(file, 0x3C);
      if pe + 0x54 > |file| then Err(ShortFile)
      else if file[pe..pe + 4] != PE then Err(NoPeSignature)
      else Ok(Hex(U32At(file, pe + 0x08), true) + Hex(U32At(file, pe + 0x50), false))
  }
}
