/** Classification of `cl.exe` command-line arguments and construction of a
    compilation task from them (`src/vs/prepare.rs`). */
module VsPrepare {
  import opened Common
  import opened Paths
  import opened CompilerArgs

  /** `ParamValue`: how many arguments a filter selected. */
  datatype ParamValue<T> = NotFound | Single(value: T) | Many(values: seq<T>)

  /** Why a task could not be built. Each constructor stands for one of the
      messages `create_task` returns; the payload is the value it prints. */
  datatype TaskError =
    | UnknownArguments(args: seq<string>)       // "Found unknown command line arguments"
    | NoSourceFile                              // "Can't find source file path."
    | TooManySourceFiles(files: seq<Path>)      // "Found too many source files"
    | TooManyPrecompiledFiles(files: seq<Path>) // "Found too many precompiled header files"
    | TooManyMarkers(joined: string)            // "Found too many precompiled header markers"
    | TooManyObjectFiles(files: seq<string>)    // "Found too many output object files"
    | UnknownLanguage(lang: string)             // "Unknown source language type"
    | UndetectedLanguage(source: Path)          // "Can't detect file language by extension"

  /** An argument that starts with `/` or `-` is an option. */
  predicate HasParamPrefix(arg: string) {
    |arg| > 0 && (arg[0] == '/' || arg[0] == '-')
  }

  /** The prefixes of options whose value may follow as the next argument. */
  predicate AnySpaceablePrefix(flag: string) {
    StartsWith(flag, "D") || StartsWith(flag, "I") || StartsWith(flag, "W")
    || StartsWith(flag, "wd") || StartsWith(flag, "we") || StartsWith(flag, "wo")
    || StartsWith(flag, "w")
  }

  /** The first of `D`, `I`, `W`, `wd`, `we`, `wo`, `w` that `flag` starts
      with, and the scope of that option. */
  function IsSpaceableParam(flag: string): (r: Option<(string, Scope)>)
    ensures r.Some? ==> r.value.1 != Ignore
  {
    if StartsWith(flag, "D") then Some(("D", Shared))
    else if StartsWith(flag, "I") then Some(("I", Preprocessor))
    else if StartsWith(flag, "W") then Some(("W", Compiler))
    else if StartsWith(flag, "wd") then Some(("wd", Compiler))
    else if StartsWith(flag, "we") then Some(("we", Compiler))
    else if StartsWith(flag, "wo") then Some(("wo", Compiler))
    else if StartsWith(flag, "w") then Some(("w", Compiler))
    else None
  }

  /** The earlier prefixes win: `D` is always shared, `I` always for the
      preprocessor, and `w` alone only when neither `wd`, `we` nor `wo`
      matches. */
  lemma IsSpaceableParamSpec(flag: string)
    ensures var r := IsSpaceableParam(flag);
      && (r.None? <==> !AnySpaceablePrefix(flag))
      && (r.Some? ==> StartsWith(flag, r.value.0))
      && (r.Some? ==> (r.value.1 == Shared <==> r.value.0 == "D"))
      && (r.Some? ==> (r.value.1 == Preprocessor <==> r.value.0 == "I"))
      && (StartsWith(flag, "D") ==> r == Some(("D", Shared)))
      && (r == Some(("w", Compiler)) <==>
            (StartsWith(flag, "w") && !StartsWith(flag, "wd")
             && !StartsWith(flag, "we") && !StartsWith(flag, "wo")))
  {
  }

  /** An option without the leading `/` or `-` that is not spaceable; `arg`
      is the whole argument, reported when the option is unknown. */
  function ClassifyFlag(flag: string, arg: string): (r: Result<Arg, string>)
    ensures r.Err? ==> r.error == arg
    ensures r.Ok? && r.value.Input? ==> r.value.inKind != Source
  {
    if flag == "c" || flag == "nologo" then Ok(Flag(Ignore, flag))
    else if flag == "bigobj" then Ok(Flag(Compiler, flag))
    else if StartsWith(flag, "T") then Ok(Param(Ignore, "T", flag[1..]))
    else if StartsWith(flag, "O") || StartsWith(flag, "G") || StartsWith(flag, "RTC")
         || StartsWith(flag, "Z") || StartsWith(flag, "d2Zi+") || StartsWith(flag, "MD")
         || StartsWith(flag, "MT") || StartsWith(flag, "EH") || StartsWith(flag, "fp:")
         || StartsWith(flag, "arch:") || StartsWith(flag, "errorReport:")
    then Ok(Flag(Shared, flag))
    else if StartsWith(flag, "Fo") then Ok(Output(OutputKind.Object, "Fo", flag[2..]))
    else if StartsWith(flag, "Fp") then Ok(Input(InputKind.Precompiled, "Fp", flag[2..]))
    else if StartsWith(flag, "Yc") then Ok(Output(OutputKind.Marker, "Yc", flag[2..]))
    else if StartsWith(flag, "Yu") then Ok(Input(InputKind.Marker, "Yu", flag[2..]))
    else if StartsWith(flag, "Yl") then Ok(Flag(Shared, flag))
    else if StartsWith(flag, "FI") then Ok(Param(Preprocessor, "FI", flag[2..]))
    else Err(arg)
  }

  /** `parse_argument`: classifies the next argument (or the next two, for a
      spaceable option given without its value) and returns what is left.
      None once the arguments are exhausted. */
  function ParseArgument(args: seq<string>): (r: Option<(Result<Arg, string>, seq<string>)>)
    ensures r.None? <==> args == []
    ensures r.Some? ==> r.value.1 == args[1..] || (|args| >= 2 && r.value.1 == args[2..])
  {
    if args == [] then None
    else
      var arg := args[0];
      if HasParamPrefix(arg) then
        var flag := arg[1..];
        match IsSpaceableParam(flag)
        case Some((prefix, scope)) =>
          if flag == prefix then
            if |args| >= 2 then
              if !HasParamPrefix(args[1]) then Some((Ok(Param(scope, prefix, args[1])), args[2..]))
              else Some((Err(arg), args[2..]))
            else Some((Err(arg), args[1..]))
          else Some((Ok(Param(scope, prefix, flag[|prefix|..])), args[1..]))
        case None => Some((ClassifyFlag(flag, arg), args[1..]))
      else Some((Ok(Input(Source, "", arg)), args[1..]))
  }

  /** An unknown argument is reported as written; exactly the arguments
      without an option prefix become source files. */
  lemma ParseArgumentSpec(args: seq<string>)
    requires args != []
    ensures var r := ParseArgument(args).value.0;
      && (r.Err? ==> r.error == args[0])
      && (r.Ok? && r.value.Input? && r.value.inKind == Source <==> !HasParamPrefix(args[0]))
  {
  }

  /** A step that consumes at least one argument and stops only at the end. */
  ghost predicate Consumes(parse: seq<string> -> Option<(Result<Arg, string>, seq<string>)>) {
    forall args: seq<string> ::
      && (parse(args).None? <==> |args| == 0)
      && (parse(args).Some? ==> |parse(args).value.1| < |args|)
  }

  lemma ParseArgumentConsumes()
    ensures Consumes(ParseArgument)
  {
  }

  /** The outcomes of `parse` called until it returns None. */
  function StepsWith(args: seq<string>, parse: seq<string> -> Option<(Result<Arg, string>, seq<string>)>)
    : seq<Result<Arg, string>>
    requires Consumes(parse)
    decreases |args|
  {
    match parse(args)
    case None => []
    case Some((res, rest)) => [res] + StepsWith(rest, parse)
  }

  /** The outcomes of `parse_argument` called until it returns None. */
  function Steps(args: seq<string>): seq<Result<Arg, string>> {
    ParseArgumentConsumes();
    StepsWith(args, ParseArgument)
  }

  function ErrorPart(step: Result<Arg, string>): seq<string> {
    if step.Err? then [step.error] else []
  }

  function OkPart(step: Result<Arg, string>): seq<Arg> {
    if step.Ok? then [step.value] else []
  }

  function ErrorsOf(steps: seq<Result<Arg, string>>): seq<string> {
    if |steps| == 0 then [] else ErrorPart(steps[0]) + ErrorsOf(steps[1..])
  }

  function OksOf(steps: seq<Result<Arg, string>>): seq<Arg> {
    if |steps| == 0 then [] else OkPart(steps[0]) + OksOf(steps[1..])
  }

  /** What `parse_arguments` computes: every unknown argument, in order, or
      else every classified argument, in order. */
  function ParsedArguments(args: seq<string>): Result<seq<Arg>, TaskError> {
    var errs := ErrorsOf(Steps(args));
    if errs != [] then Err(UnknownArguments(errs)) else Ok(OksOf(Steps(args)))
  }

  lemma ErrorsOfCons(res: Result<Arg, string>, tail: seq<Result<Arg, string>>)
    ensures ErrorsOf([res] + tail) == (if res.Err? then [res.error] else []) + ErrorsOf(tail)
    ensures OksOf([res] + tail) == (if res.Ok? then [res.value] else []) + OksOf(tail)
  {
    assert ([res] + tail)[1..] == tail;
  }

  lemma {:induction false} ErrorsOfAppend(a: seq<Result<Arg, string>>, b: seq<Result<Arg, string>>)
    ensures ErrorsOf(a + b) == ErrorsOf(a) + ErrorsOf(b)
  {
    if |a| == 0 {
      assert a + b == b;
    } else {
      assert (a + b)[0] == a[0];
      assert (a + b)[1..] == a[1..] + b;
      assert ErrorsOf(a + b) == ErrorPart(a[0]) + ErrorsOf(a[1..] + b);
      ErrorsOfAppend(a[1..], b);
      assert ErrorsOf(a) == ErrorPart(a[0]) + ErrorsOf(a[1..]);
    }
  }

  lemma {:induction false} OksOfAppend(a: seq<Result<Arg, string>>, b: seq<Result<Arg, string>>)
    ensures OksOf(a + b) == OksOf(a) + OksOf(b)
  {
    if |a| == 0 {
      assert a + b == b;
    } else {
      assert (a + b)[0] == a[0];
      assert (a + b)[1..] == a[1..] + b;
      assert OksOf(a + b) == OkPart(a[0]) + OksOf(a[1..] + b);
      OksOfAppend(a[1..], b);
      assert OksOf(a) == OkPart(a[0]) + OksOf(a[1..]);
    }
  }

  /** The loop of `parse_arguments` over the step `parse`: the unknown
      arguments and the classified ones, each in order. */
  method CollectArguments(args: seq<string>, parse: seq<string> -> Option<(Result<Arg, string>, seq<string>)>)
    returns (errors: seq<string>, result: seq<Arg>)
    requires Consumes(parse)
    ensures errors == ErrorsOf(StepsWith(args, parse))
    ensures result == OksOf(StepsWith(args, parse))
  {
    var it := args;
    result := [];
    errors := [];
    ghost var taken: seq<Result<Arg, string>> := [];
    while true
      invariant StepsWith(args, parse) == taken + StepsWith(it, parse)
      invariant errors == ErrorsOf(taken) && result == OksOf(taken)
      decreases |it|
    {
      var step := parse(it);
      if step.None? {
        assert StepsWith(it, parse) == [];
        assert StepsWith(args, parse) == taken;
        break;
      }
      var res := step.value.0;
      var rest := step.value.1;
      assert StepsWith(it, parse) == [res] + StepsWith(rest, parse);
      assert taken + ([res] + StepsWith(rest, parse)) == (taken + [res]) + StepsWith(rest, parse);
      ErrorsOfAppend(taken, [res]);
      OksOfAppend(taken, [res]);
      if res.Ok? {
        result := result + [res.value];
      } else {
        errors := errors + [res.error];
      }
      taken := taken + [res];
      it := rest;
    }
  }

  /** `parse_arguments`. */
  method ParseArguments(args: seq<string>) returns (r: Result<seq<Arg>, TaskError>)
    ensures r == ParsedArguments(args)
  {
    ParseArgumentConsumes();
    var errors, result := CollectArguments(args, ParseArgument);
    if |errors| > 0 {
      return Err(UnknownArguments(errors));
    }
    return Ok(result);
  }

  /** No step failed exactly when no error was collected. */
  lemma {:induction false} ErrorsOfEmpty(steps: seq<Result<Arg, string>>)
    ensures ErrorsOf(steps) == [] <==> forall i :: 0 <= i < |steps| ==> steps[i].Ok?
    ensures ErrorsOf(steps) == [] ==> |OksOf(steps)| == |steps|
  {
    if steps != [] {
      ErrorsOfEmpty(steps[1..]);
      assert forall i :: 1 <= i < |steps| ==> steps[i] == steps[1..][i - 1];
    }
  }

  /** Parsing fails exactly when some argument is unknown. */
  lemma ParsedArgumentsFails(args: seq<string>)
    ensures ParsedArguments(args).Err?
            <==> exists i :: 0 <= i < |Steps(args)| && Steps(args)[i].Err?
  {
    var s := Steps(args);
    ErrorsOfEmpty(s);
    if ParsedArguments(args).Err? {
      var i :| 0 <= i < |s| && !s[i].Ok?;
      assert s[i].Err?;
    }
  }

  /** Each argument as a source file. */
  function SourceInputs(args: seq<string>): (r: seq<Arg>)
    ensures |r| == |args|
    ensures forall i :: 0 <= i < |args| ==> r[i] == Input(Source, "", args[i])
  {
    seq(|args|, i requires 0 <= i < |args| => Input(Source, "", args[i]))
  }

  lemma SourceInputsCons(args: seq<string>)
    requires |args| > 0
    ensures SourceInputs(args) == [Input(Source, "", args[0])] + SourceInputs(args[1..])
  {
  }

  /** An argument without an option prefix is a source file on its own. */
  lemma PlainArgument(args: seq<string>)
    requires |args| > 0 && !HasParamPrefix(args[0])
    ensures ParseArgument(args) == Some((Ok(Input(Source, "", args[0])), args[1..]))
  {
  }

  lemma StepsCons(args: seq<string>)
    requires ParseArgument(args).Some?
    ensures Steps(args) == [ParseArgument(args).value.0] + Steps(ParseArgument(args).value.1)
  {
    ParseArgumentConsumes();
  }

  /** Arguments that are not options are all source files, kept in order. */
  lemma {:induction false} PlainArgumentsAreSources(args: seq<string>)
    requires forall i :: 0 <= i < |args| ==> !HasParamPrefix(args[i])
    ensures ParsedArguments(args) == Ok(SourceInputs(args))
  {
    if |args| == 0 {
      ParseArgumentConsumes();
      assert Steps(args) == [];
    } else {
      var head := Input(Source, "", args[0]);
      PlainArgumentsAreSources(args[1..]);
      PlainArgument(args);
      StepsCons(args);
      ErrorsOfCons(Ok(head), Steps(args[1..]));
      SourceInputsCons(args);
    }
  }

  /** A spaceable option given alone takes the next argument as its value when
      that argument is not an option, and is reported as unknown otherwise;
      either way both arguments are consumed. As the last argument it is
      reported as unknown. */
  lemma SpaceableSeparateValue(prefix: string, scope: Scope, value: string, rest: seq<string>)
    requires IsSpaceableParam(prefix) == Some((prefix, scope))
    ensures !HasParamPrefix(value) ==>
      ParseArgument(["/" + prefix, value] + rest) == Some((Ok(Param(scope, prefix, value)), rest))
    ensures HasParamPrefix(value) ==>
      ParseArgument(["/" + prefix, value] + rest) == Some((Err("/" + prefix), rest))
    ensures ParseArgument(["/" + prefix]) == Some((Err("/" + prefix), []))
  {
    var args := ["/" + prefix, value] + rest;
    assert args[0][1..] == prefix;
    assert args[2..] == rest;
    assert ["/" + prefix][0][1..] == prefix;
  }

  /** A spaceable option joined to its value is one argument: the value is
      what follows the prefix the option matched, as in `/wd4996` or
      `/Iinclude`. */
  lemma ParseJoinedSpaceable(prefix: string, scope: Scope, value: string, rest: seq<string>)
    requires value != "" && IsSpaceableParam(prefix + value) == Some((prefix, scope))
    ensures ParseArgument(["/" + prefix + value] + rest) == Some((Ok(Param(scope, prefix, value)), rest))
  {
    assert "/" + prefix + value == "/" + (prefix + value);
    OptionArg(prefix, value, rest);
    assert prefix + value != prefix by {
      assert |prefix + value| > |prefix|;
    }
  }

  /** The option forms of the repository's own parser test: `/Yu`, `/Yc`,
      `/Fp` and `/Fo` name files, `/T` the language, and `/D` joined to its
      value is a shared definition. */
  lemma ParseMarkerUse(f: string, rest: seq<string>)
    ensures ParseArgument(["/Yu" + f] + rest) == Some((Ok(Input(InputKind.Marker, "Yu", f)), rest))
  {
    assert "/Yu" + f == "/" + "Yu" + f;
    OptionArg("Yu", f, rest);
    var flag := "Yu" + f;
    assert flag[0] == 'Y' && flag[1] == 'u';
    NotStartsWithAt(flag, "Yc", 1);
    assert IsSpaceableParam(flag) == None;
    assert ClassifyFlag(flag, "/" + flag) == Ok(Input(InputKind.Marker, "Yu", f));
  }

  lemma ParseMarkerCreate(f: string, rest: seq<string>)
    ensures ParseArgument(["/Yc" + f] + rest) == Some((Ok(Output(OutputKind.Marker, "Yc", f)), rest))
  {
    assert "/Yc" + f == "/" + "Yc" + f;
    OptionArg("Yc", f, rest);
    var flag := "Yc" + f;
    assert flag[0] == 'Y' && flag[1..][0] == 'c';
    assert IsSpaceableParam(flag) == None;
    assert ClassifyFlag(flag, "/" + flag) == Ok(Output(OutputKind.Marker, "Yc", f));
  }

  lemma ParsePrecompiledFile(f: string, rest: seq<string>)
    ensures ParseArgument(["/Fp" + f] + rest) == Some((Ok(Input(InputKind.Precompiled, "Fp", f)), rest))
  {
    assert "/Fp" + f == "/" + "Fp" + f;
    OptionArg("Fp", f, rest);
    var flag := "Fp" + f;
    assert flag[0] == 'F' && flag[1] == 'p';
    NotStartsWithAt(flag, "Fo", 1);
    assert IsSpaceableParam(flag) == None;
    assert ClassifyFlag(flag, "/" + flag) == Ok(Input(InputKind.Precompiled, "Fp", f));
  }

  lemma ParseObjectFile(f: string, rest: seq<string>)
    ensures ParseArgument(["/Fo" + f] + rest) == Some((Ok(Output(OutputKind.Object, "Fo", f)), rest))
  {
    assert "/Fo" + f == "/" + "Fo" + f;
    OptionArg("Fo", f, rest);
    var flag := "Fo" + f;
    assert flag[0] == 'F' && flag[1..][0] == 'o';
    assert IsSpaceableParam(flag) == None;
    assert ClassifyFlag(flag, "/" + flag) == Ok(Output(OutputKind.Object, "Fo", f));
  }

  lemma ParseLanguage(f: string, rest: seq<string>)
    ensures ParseArgument(["/T" + f] + rest) == Some((Ok(Param(Ignore, "T", f)), rest))
  {
    assert "/T" + f == "/" + "T" + f;
    OptionArg("T", f, rest);
  }

  lemma ParseJoinedDefine(f: string, rest: seq<string>)
    requires f != ""
    ensures ParseArgument(["/D" + f] + rest) == Some((Ok(Param(Shared, "D", f)), rest))
  {
    assert "/D" + f == "/" + "D" + f;
    OptionArg("D", f, rest);
  }

  lemma OptionArg(p: string, f: string, rest: seq<string>)
    requires |p| > 0
    ensures var args := ["/" + p + f] + rest;
      && args[0][1..] == p + f && args[1..] == rest && args[0][1..][|p|..] == f
      && HasParamPrefix(args[0]) && StartsWith(p + f, p)
  {
    var args := ["/" + p + f] + rest;
    assert args[0] == "/" + (p + f);
    assert args[0][1..] == p + f;
    assert (p + f)[|p|..] == f;
    StartsWithConcat(p, f);
  }

  /** The values `filter` selects, in argument order. */
  function FilterMap<R>(args: seq<Arg>, filter: Arg -> Option<R>): (r: seq<R>)
    ensures |r| <= |args|
  {
    if args == [] then []
    else (match filter(args[0]) case Some(v) => [v] case None => []) + FilterMap(args[1..], filter)
  }

  /** `find_param`: none, exactly one, or all of the selected values. */
  function FindParam<R>(args: seq<Arg>, filter: Arg -> Option<R>): (r: ParamValue<R>)
    ensures r.NotFound? <==> FilterMap(args, filter) == []
    ensures r.Single? <==> |FilterMap(args, filter)| == 1
    ensures r.Single? ==> FilterMap(args, filter) == [r.value]
    ensures r.Many? ==> r.values == FilterMap(args, filter) && |r.values| >= 2
  {
    var found := FilterMap(args, filter);
    if |found| == 0 then NotFound
    else if |found| == 1 then Single(found[0])
    else Many(found)
  }

  function SourceOf(a: Arg): Option<Path> {
    if a.Input? && a.inKind == Source then Some(a.file) else None
  }

  function PrecompiledOf(a: Arg): Option<Path> {
    if a.Input? && a.inKind == InputKind.Precompiled then Some(a.file) else None
  }

  /** A `/Yu` marker is (true, header), a `/Yc` marker (false, header). */
  function MarkerOf(a: Arg): Option<(bool, string)> {
    if a.Input? && a.inKind == InputKind.Marker then Some((true, a.file))
    else if a.Output? && a.outKind == OutputKind.Marker then Some((false, a.file))
    else None
  }

  function ObjectOf(a: Arg): Option<Path> {
    if a.Output? && a.outKind == OutputKind.Object then Some(a.file) else None
  }

  function LanguageOf(a: Arg): Option<string> {
    if a.Param? && a.flag == "T" then Some(a.value) else None
  }

  function JoinPaths(markers: seq<(bool, string)>): string {
    if markers == [] then "" else markers[0].1 + JoinPaths(markers[1..])
  }

  /** The precompiled header file used when no `/Fp` option is given, as
      written: `with_extension(".pch")` puts a second dot before `pch`. */
  function DefaultPrecompiledAsWritten(marker: string): Path {
    WithExtension(marker, ".pch")
  }

  /** For a marker with an extension, the as-written default keeps a dot at
      the end of the stem: `stdafx.h` becomes `stdafx..pch`. */
  lemma DoubleDotName(stem: string)
    requires stem != "" && '/' !in stem
    ensures '/' !in (stem + ".") + ".pch"
    ensures SplitFileAtDot((stem + ".") + ".pch") == (stem + ".", Some("pch"))
  {
    var name := (stem + ".") + ".pch";
    forall j | 0 <= j < |name| ensures name[j] != '/' {
      if j < |stem| { assert name[j] == stem[j]; }
    }
    assert name == (stem + ".") + "." + "pch";
    SplitAppendExtension(stem + ".", "pch");
  }

  lemma DefaultPrecompiledDoubleDot(marker: string)
    requires Extension(marker).Some?
    ensures DefaultPrecompiledAsWritten(marker) == DirPrefix(marker) + ((FileStem(marker).value + ".") + ".pch")
    ensures Extension(DefaultPrecompiledAsWritten(marker)) == Some("pch")
    ensures FileStem(DefaultPrecompiledAsWritten(marker)) == Some(FileStem(marker).value + ".")
  {
    StemHasNoSlash(marker);
    var stem := FileStem(marker).value;
    var d := DirPrefix(marker);
    var name := (stem + ".") + ".pch";
    assert DefaultPrecompiledAsWritten(marker) == (d + stem) + ("." + ".pch");
    ConcatAssoc(stem, ".", ".pch");
    ConcatAssoc(d, stem, "." + ".pch");
    DoubleDotName(stem);
    SegmentsOfAppend(d, name);
    assert |name| >= 3;
  }

  /** The precompiled header file used when no `/Fp` option is given: the
      marker's file name with the extension `pch`. */
  function DefaultPrecompiled(marker: string): (r: Path)
    ensures FileName(marker).Some? ==>
      Extension(r) == Some("pch") && FileStem(r) == FileStem(marker) && DirPrefix(r) == DirPrefix(marker)
    ensures FileName(marker).None? ==> r == marker
  {
    if FileName(marker).Some? then
      WithExtensionRoundTrip(marker, "pch");
      WithExtension(marker, "pch")
    else
      WithExtension(marker, "pch")
  }

  /** The language a source file's extension selects: `P` for `.cpp`, `C` for
      `.c`, compared ignoring ASCII case. */
  function LanguageByExtension(source: Path): Result<string, TaskError> {
    match Extension(source)
    case Some(e) =>
      if StrEqIgnoreAsciiCase(e, "cpp") then Ok("P")
      else if StrEqIgnoreAsciiCase(e, "c") then Ok("C")
      else Err(UndetectedLanguage(source))
    case None => Err(UndetectedLanguage(source))
  }

  /** `P` exactly for a `cpp` extension and `C` exactly for a `c` one, in
      any ASCII case; any other extension, or none, is an error naming the
      source. */
  lemma LanguageByExtensionSpec(source: Path)
    ensures LanguageByExtension(source) == Ok("P") <==>
      Extension(source).Some? && StrEqIgnoreAsciiCase(Extension(source).value, "cpp")
    ensures LanguageByExtension(source) == Ok("C") <==>
      Extension(source).Some? && StrEqIgnoreAsciiCase(Extension(source).value, "c")
    ensures LanguageByExtension(source).Err? ==> LanguageByExtension(source) == Err(UndetectedLanguage(source))
  {
  }

  /** An explicit `/T` value must be `P` or `C`; several `/T` options are an
      error, and without one the extension decides. */
  lemma LanguageStageSpec(parsed: seq<Arg>, source: Path)
    ensures var langs := FilterMap(parsed, LanguageOf);
      && (langs == [] ==> LanguageStage(parsed, source) == LanguageByExtension(source))
      && (|langs| == 1 ==> (LanguageStage(parsed, source).Ok? <==> langs[0] == "P" || langs[0] == "C"))
      && (|langs| == 1 && LanguageStage(parsed, source).Err? ==> LanguageStage(parsed, source) == Err(UnknownLanguage(langs[0])))
      && (|langs| >= 2 ==> LanguageStage(parsed, source).Err?)
  {
  }

  /** The (marker, input precompiled, output precompiled) fields picked by
      the marker options and the `/Fp` file. */
  function PrecompiledFields(found: ParamValue<(bool, string)>, precompiledFile: Option<Path>)
    : Result<(Option<string>, Option<Path>, Option<Path>), TaskError>
  {
    match found
    case NotFound => Ok((None, None, None))
    case Single(m) =>
      var precompiledPath := if precompiledFile.Some? then precompiledFile.value else DefaultPrecompiledAsWritten(m.1);
      var marker := if |m.1| > 0 then Some(m.1) else None;
      if m.0 then Ok((marker, Some(precompiledPath), None))
      else Ok((marker, None, Some(precompiledPath)))
    case Many(v) => Err(TooManyMarkers(JoinPaths(v)))
  }

  function SourceStage(parsed: seq<Arg>): Result<Path, TaskError> {
    match FindParam(parsed, SourceOf)
    case NotFound => Err(NoSourceFile)
    case Single(v) => Ok(v)
    case Many(v) => Err(TooManySourceFiles(v))
  }

  function PrecompiledFileStage(parsed: seq<Arg>): Result<Option<Path>, TaskError> {
    match FindParam(parsed, PrecompiledOf)
    case NotFound => Ok(None)
    case Single(v) => Ok(Some(v))
    case Many(v) => Err(TooManyPrecompiledFiles(v))
  }

  function ObjectStage(parsed: seq<Arg>, inputSource: Path): Result<Path, TaskError> {
    match FindParam(parsed, ObjectOf)
    case NotFound => Ok(WithExtension(inputSource, "obj"))
    case Single(v) => Ok(v)
    case Many(v) => Err(TooManyObjectFiles(v))
  }

  /** Several `/T` options are reported with the object-file message. */
  function LanguageStage(parsed: seq<Arg>, inputSource: Path): Result<string, TaskError> {
    match FindParam(parsed, LanguageOf)
    case NotFound => LanguageByExtension(inputSource)
    case Single(v) => if v == "P" || v == "C" then Ok(v) else Err(UnknownLanguage(v))
    case Many(v) => Err(TooManyObjectFiles(v))
  }

  /** The body of `create_task` that runs on the classified arguments: the
      source, `/Fp`, marker, `/Fo` and `/T` options are checked in turn. */
  function BuildTask(command: CommandInfo, parsed: seq<Arg>): (r: Result<Option<CompilationTask>, TaskError>)
    ensures r.Ok? ==> r.value.Some? && r.value.value.command == command && r.value.value.args == parsed
    ensures r.Err? ==> !r.error.UnknownArguments?
  {
    var inputSource :- SourceStage(parsed);
    var precompiledFile :- PrecompiledFileStage(parsed);
    var markers :- PrecompiledFields(FindParam(parsed, MarkerOf), precompiledFile);
    var outputObject :- ObjectStage(parsed, inputSource);
    var language :- LanguageStage(parsed, inputSource);
    Ok(Some(CompilationTask(command, parsed, language, inputSource, markers.1,
                            outputObject, markers.2, markers.0)))
  }

  /** A task is built only when there is exactly one source file and at most
      one of each other selected option; its language is `P` or `C` and it
      never both reads and writes a precompiled header. */
  lemma BuildTaskUnique(command: CommandInfo, parsed: seq<Arg>)
    requires BuildTask(command, parsed).Ok?
    ensures var t := BuildTask(command, parsed).value.value;
      && FilterMap(parsed, SourceOf) == [t.inputSource]
      && |FilterMap(parsed, PrecompiledOf)| <= 1
      && |FilterMap(parsed, MarkerOf)| <= 1
      && |FilterMap(parsed, ObjectOf)| <= 1
      && |FilterMap(parsed, LanguageOf)| <= 1
      && (t.language == "P" || t.language == "C")
      && !(t.inputPrecompiled.Some? && t.outputPrecompiled.Some?)
  {
  }

  /** The source-file and `/Fp` errors, checked first and in that order. */
  lemma BuildTaskErrors(command: CommandInfo, parsed: seq<Arg>)
    ensures FilterMap(parsed, SourceOf) == [] ==> BuildTask(command, parsed) == Err(NoSourceFile)
    ensures |FilterMap(parsed, SourceOf)| >= 2 ==>
      BuildTask(command, parsed) == Err(TooManySourceFiles(FilterMap(parsed, SourceOf)))
    ensures |FilterMap(parsed, SourceOf)| == 1 && |FilterMap(parsed, PrecompiledOf)| >= 2 ==>
      BuildTask(command, parsed) == Err(TooManyPrecompiledFiles(FilterMap(parsed, PrecompiledOf)))
    ensures |FilterMap(parsed, SourceOf)| == 1 && |FilterMap(parsed, PrecompiledOf)| <= 1
            && |FilterMap(parsed, MarkerOf)| >= 2 ==>
      BuildTask(command, parsed) == Err(TooManyMarkers(JoinPaths(FilterMap(parsed, MarkerOf))))
  {
  }

  /** `create_task` on arguments whose `@file` response files are already
      expanded. */
  function CreateTask(command: CommandInfo, args: seq<string>): (r: Result<Option<CompilationTask>, TaskError>)
    ensures r.Err? && r.error.UnknownArguments? <==> ParsedArguments(args).Err?
    ensures r.Ok? ==> ParsedArguments(args).Ok? && r.value.Some? && r.value.value.args == ParsedArguments(args).value
  {
    var parsed :- ParsedArguments(args);
    BuildTask(command, parsed)
  }

  /** The precompiled-header fields follow the one marker option: a `/Yu`
      marker makes the header an input, a `/Yc` marker an output; the file is
      the `/Fp` file, else the marker with its extension replaced by `.pch`,
      which for a marker with an extension leaves a dot at the end of the
      stem (`stdafx.h` gives `stdafx..pch`); an empty marker name leaves the
      marker unset. Without a marker all three are unset. */
  lemma BuildTaskPrecompiled(command: CommandInfo, parsed: seq<Arg>)
    requires BuildTask(command, parsed).Ok?
    ensures var t := BuildTask(command, parsed).value.value;
      var markers := FilterMap(parsed, MarkerOf);
      var fp := FilterMap(parsed, PrecompiledOf);
      && (markers == [] ==> t.markerPrecompiled.None? && t.inputPrecompiled.None? && t.outputPrecompiled.None?)
      && (markers != [] ==>
            var (input, path) := markers[0];
            var file := if fp == [] then WithExtension(path, ".pch") else fp[0];
            && t.markerPrecompiled == (if path == "" then None else Some(path))
            && (input ==> t.inputPrecompiled == Some(file) && t.outputPrecompiled.None?)
            && (!input ==> t.outputPrecompiled == Some(file) && t.inputPrecompiled.None?)
            && (fp == [] && Extension(path).Some? ==>
                  file == DirPrefix(path) + ((FileStem(path).value + ".") + ".pch")))
  {
    var markers := FilterMap(parsed, MarkerOf);
    if markers != [] && Extension(markers[0].1).Some? {
      DefaultPrecompiledDoubleDot(markers[0].1);
    }
  }

  /** Without `/Fo` the object file is the source file with extension `obj`;
      with `/Fo` it is the given file. */
  lemma BuildTaskObject(command: CommandInfo, parsed: seq<Arg>)
    requires BuildTask(command, parsed).Ok?
    ensures var t := BuildTask(command, parsed).value.value;
      var objects := FilterMap(parsed, ObjectOf);
      && (objects == [] ==> t.outputObject == WithExtension(t.inputSource, "obj"))
      && (objects != [] ==> t.outputObject == objects[0])
  {
    BuildTaskStages(command, parsed);
  }

  /** The compilation task's fields are the values of the individual checks. */
  lemma BuildTaskStages(command: CommandInfo, parsed: seq<Arg>)
    requires BuildTask(command, parsed).Ok?
    ensures var t := BuildTask(command, parsed).value.value;
      && SourceStage(parsed) == Ok(t.inputSource)
      && ObjectStage(parsed, t.inputSource) == Ok(t.outputObject)
      && LanguageStage(parsed, t.inputSource) == Ok(t.language)
  {
  }

  /** Without `/T` the language comes from the source extension; with it the
      value must be `P` or `C`. */
  lemma BuildTaskLanguage(command: CommandInfo, parsed: seq<Arg>)
    requires BuildTask(command, parsed).Ok?
    ensures var t := BuildTask(command, parsed).value.value;
      var langs := FilterMap(parsed, LanguageOf);
      && (langs == [] ==> LanguageByExtension(t.inputSource) == Ok(t.language))
      && (langs != [] ==> t.language == langs[0])
  {
    BuildTaskStages(command, parsed);
  }

  /** A lone `.cpp` source file yields a C++ task that writes the source's
      `.obj` file and uses no precompiled header. */
  lemma CreateTaskSourceOnly(command: CommandInfo, source: Path)
    requires !HasParamPrefix(source) && Extension(source) == Some("cpp")
    ensures CreateTask(command, [source])
         == Ok(Some(CompilationTask(command, [Input(Source, "", source)], "P", source, None,
                                    WithExtension(source, "obj"), None, None)))
  {
    PlainArgumentsAreSources([source]);
    var parsed := [Input(Source, "", source)];
    assert SourceInputs([source]) == parsed;
    SourceOnlyStages(source);
    assert BuildTask(command, parsed)
        == Ok(Some(CompilationTask(command, parsed, "P", source, None,
                                   WithExtension(source, "obj"), None, None)));
  }

  /** The checks of `create_task` on a lone `.cpp` source file. */
  lemma SourceOnlyStages(source: Path)
    requires Extension(source) == Some("cpp")
    ensures var parsed := [Input(Source, "", source)];
      && SourceStage(parsed) == Ok(source)
      && PrecompiledFileStage(parsed) == Ok(None)
      && FindParam(parsed, MarkerOf) == NotFound
      && ObjectStage(parsed, source) == Ok(WithExtension(source, "obj"))
      && LanguageStage(parsed, source) == Ok("P")
  {
    var a := Input(Source, "", source);
    FilterMapSingle(a, SourceOf);
    FilterMapSingle(a, PrecompiledOf);
    FilterMapSingle(a, MarkerOf);
    FilterMapSingle(a, ObjectOf);
    FilterMapSingle(a, LanguageOf);
    assert StrEqIgnoreAsciiCase("cpp", "cpp");
  }

  lemma FilterMapSingle<R>(a: Arg, filter: Arg -> Option<R>)
    ensures FilterMap([a], filter) == if filter(a).Some? then [filter(a).value] else []
  {
    assert [a][1..] == [];
  }
}
