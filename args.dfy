/** The compiler-independent argument and task types shared by the `cl.exe`
    and clang front ends (declared in the repository's `src/compiler.rs`,
    which is not part of this model; their shape is the one their users in
    `src/vs/prepare.rs` and `src/clang/compiler.rs` rely on). */
module CompilerArgs {
  import opened Common
  import opened Paths

  /** Which compiler step an option belongs to. */
  datatype Scope = Preprocessor | Compiler | Shared | Ignore

  datatype InputKind = Source | Marker | Precompiled

  datatype OutputKind = Object | Marker

  /** One classified command-line argument. */
  datatype Arg =
    | Flag(scope: Scope, flag: string)
    | Param(scope: Scope, flag: string, value: string)
    | Input(inKind: InputKind, flag: string, file: string)
    | Output(outKind: OutputKind, flag: string, file: string)

  /** The program being wrapped and its working directory. */
  datatype CommandInfo = CommandInfo(program: Path, currentDir: Option<Path>)

  datatype CompilationTask = CompilationTask(
    command: CommandInfo,
    args: seq<Arg>,
    language: string,
    inputSource: Path,
    inputPrecompiled: Option<Path>,
    outputObject: Path,
    outputPrecompiled: Option<Path>,
    markerPrecompiled: Option<string>)

  /** Options a preprocessor run must see. */
  predicate PreprocessorScope(s: Scope) { s == Preprocessor || s == Shared }

  /** Options a compiler run must see. */
  predicate CompilerScope(s: Scope) { s == Compiler || s == Shared }
}
