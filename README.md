# octobuild compiler front ends, modelled in Dafny

octobuild is a compilation cache and distributed-build helper that sits in
front of `cl.exe` (the Microsoft C/C++ compiler) and clang. For every
compiler command line it works out which arguments belong to preprocessing
and which to compiling. It then runs the preprocessor and splits and filters
its output. The cache key is hashed from that output and the compiling
arguments. This project models that core and proves properties of the model.

The modules follow the repository's files:

- **VsPrepare** (`src/vs/prepare.rs`) classifies `cl.exe` arguments: flags,
  parameters whose value may or may not be separated by a space, inputs and
  outputs, and their scope. It then builds the compilation task. This
  covers the source language, the precompiled-header marker and files
  (`/Yc`, `/Yu`, `/Fp`), the object output and the error for every rejected
  command line.
- **Includes** (`src/filter/includes.rs`) is the `#include` scanner,
  written with nom parser combinators. Each combinator is a Dafny function
  over the remaining input that returns Done, Error or Incomplete. The
  model assumes the nom 2.x semantics of `tag!`, `alt!`, `many0!`,
  `fold_many0!` and `chain!`.
- **Postprocess** (`src/vs/postprocess.rs`) is the filter over the output
  of `cl.exe /E`. It is a `Scanner` class whose methods move the copy and
  read positions over the input. It recognises `#line` and
  `#pragma hdrstop` directives, splits multi-source output at each
  source's `#line 1` separator, and keeps or drops everything before the
  precompiled-header marker. The scanner has a flag `asWritten`: set, it
  reads tokens and path literals as the source does; clear, it has the two
  defects listed under "## Findings" corrected. `execute` sets it.
- **VsSink** (`src/vs/compiler.rs`, `VsPreprocessor`) is the writer that
  filter writes into, and a class too. The worker callback that receives
  each source's output is recorded as a log of deliveries.
- **VsCompiler** (`src/vs/compiler.rs`) holds:
  - the preprocessing and compiling argument lists;
  - `execute`, which collects the sources and markers from the compilation task and
    splits the preprocessor output through the filter;
  - `prepare_output`, with the `replace_all` of the compiler warning C4628
    pattern over the whole output, and beside it the line-by-line removal
    the pattern was evidently meant for;
  - the PE header reading behind `read_executable_id`.
- **ClangCompiler** (`src/clang/compiler.rs`) holds clang's argument lists,
  the files a compile produces, and the bytes the cache-key hasher is fed,
  framed as `write_usize` and `write` calls.
- **DirectScanner** (`src/direct/scanner.rs`) collects the include closure
  of a source file. It searches the context directories and the include
  directories for each include. Its worklist loop is proved to expand each
  task at most once. On success the collected set contains the root and is
  closed: every include of a collected file is collected too.
- **Setup** (`wixcs/setup.cs`) holds the installer's version-line matcher,
  written by hand for `^\s*version\s*=\s*"(\S+)"`, and the fan-out of an
  environment variable into a per-machine and a per-user entry.
- **Paths** and **Common** are the parts of Rust's `std::path` over
  `/`-separated paths, UTF-8 encoding, ASCII helpers, and the Option and
  Result wrappers.
- **CompilerArgs** holds the argument and task types. They are declared in
  `src/compiler.rs`, which is not part of this model. Their shape is the one
  their users above rely on.

The following are parameters of the model rather than modelled code:

- the file system: which paths are files, `canonicalize`, the parsed
  include list of a file;
- the local-codepage (ANSI) encoder;
- what the processes produce: standard output, exit status and standard
  error.

## Model

| member | source | states |
|---|---|---|
| Includes.Include.Map | src/filter/includes.rs:23-29 | the mapped include keeps its variant and holds the mapped path |
| Includes.Tag | src/filter/includes.rs:68 | `tag!`: Done exactly when the input starts with the tag, leaving the bytes after it; Incomplete exactly when the input is a proper prefix of the tag |
| Includes.TagByte | src/filter/includes.rs:88 | a one-byte `tag!`: Done exactly on that byte, Incomplete exactly on empty input |
| Includes.Tag2 | src/filter/includes.rs:36 | a two-byte `tag!`: Done exactly on the two bytes, Incomplete on empty input or the first byte alone |
| Includes.Eof | src/filter/includes.rs:72 | `eof` succeeds only on empty input and consumes nothing |
| Includes.Space | src/filter/includes.rs:47 | `space` consumes at least one byte, is Incomplete exactly on empty input and fails exactly when the first byte is not a space or tab |
| Includes.MultiSpace | src/filter/includes.rs:51 | `multispace` consumes at least one byte, is Incomplete exactly on empty input and fails exactly when the first byte is not a space, tab, CR or LF |
| Includes.NotLineEnding | src/filter/includes.rs:37 | `not_line_ending` always succeeds and stops at the first CR or LF, or the end |
| Includes.TakeUntilEither | src/filter/includes.rs:56 | the value is the bytes before the first delimiter, none of which is a delimiter, and the delimiter is left in the input; Incomplete exactly on empty input |
| Includes.FindCommentEnd | src/filter/includes.rs:43 | the position of the first star-slash pair, or none when there is no such pair |
| Includes.TakeUntilCommentEnd | src/filter/includes.rs:43 | consumes through the terminator (at least two bytes); Incomplete exactly on fewer than two bytes |
| Includes.CommentOneLine | src/filter/includes.rs:34-38 | a line comment consumes `//` and the rest of the line, leaving the CR or LF or nothing |
| Includes.CommentBlock | src/filter/includes.rs:40-44 | a block comment consumes at least its four delimiter bytes |
| Includes.BlankItem | src/filter/includes.rs:47 | an item of `blanks` always consumes input |
| Includes.Blanks | src/filter/includes.rs:46-48 | `blanks` leaves a suffix of the input |
| Includes.OptBlanks | src/filter/includes.rs:69 | `blanks?` leaves a suffix of the input |
| Includes.LineItem | src/filter/includes.rs:51 | an item of `lines` always consumes input |
| Includes.Lines | src/filter/includes.rs:50-52 | `lines` leaves a suffix of the input |
| Includes.IncludeQuote | src/filter/includes.rs:60-64 | a quoted include yields a Quote whose path has no line break and no quote |
| Includes.IncludeBracket | src/filter/includes.rs:54-58 | a bracketed include yields a Bracket whose path has no line break and no `>` |
| Includes.Eol | src/filter/includes.rs:32 | a line end consumes a byte sequence ending in LF; Incomplete exactly on empty input or a lone CR |
| Includes.EolOrEof | src/filter/includes.rs:72 | what `alt!(eol \| eof)` accepts always ends in a line feed, and on empty input it is Incomplete |
| Includes.IncludeTarget | src/filter/includes.rs:70 | either kind of target yields a valid include |
| Includes.IncludeDirective | src/filter/includes.rs:66-73 | an accepted `include` yields a valid include and consumed input ending in a line feed |
| Includes.IsNotCodeSpecial | src/filter/includes.rs:102-111 | always succeeds, skipping exactly the bytes before the first CR, LF, `"` or `/` |
| Includes.TakeTillQuoteSpecial | src/filter/includes.rs:114-124 | skips to the first CR, LF, `"` or backslash, or the end |
| Includes.EscapeItem | src/filter/includes.rs:126-131 | an escape consumes the backslash and the escaped byte at least |
| Includes.Escapes | src/filter/includes.rs:125-132 | the run of escapes leaves a suffix of the input |
| Includes.CodeDoubleQuote | src/filter/includes.rs:121-134 | a literal consumes at least its two quotes |
| Includes.CodeSpecial | src/filter/includes.rs:141 | a literal, a comment or a single slash always consumes input |
| Includes.CodeLineItem | src/filter/includes.rs:140-144 | an item of the code-line loop always consumes input |
| Includes.CodeLineTail | src/filter/includes.rs:139-145 | the code-line loop leaves a suffix of the input |
| Includes.CodeLineTailStops | src/filter/includes.rs:139-145 | the loop stops only at the end of input or at a special byte whose item fails |
| Includes.CodeLineItemErrorStarts | src/filter/includes.rs:140-144 | the item fails only at a CR, an LF or a `"` (a slash always succeeds) |
| Includes.CodeLine | src/filter/includes.rs:136-146 | a code line leaves a suffix of the input |
| Includes.CodeLineRest | src/filter/includes.rs:136-146 | what a code line leaves starts with CR, LF or an unterminated `"`, or is empty |
| Includes.UnknownItem | src/filter/includes.rs:77-81 | an item of `unknown_directive` leaves a suffix of the input |
| Includes.UnknownDirective | src/filter/includes.rs:75-84 | `unknown_directive` leaves a suffix of the input |
| Includes.Directive | src/filter/includes.rs:86-100 | a directive yields an include only when it is a valid `include`, and None for any other directive |
| Includes.ItemHead | src/filter/includes.rs:154-159 | a directive or a code line; only a directive yields an include, and it is valid |
| Includes.IncludeItem | src/filter/includes.rs:153-163 | one fold item, with the line breaks and comments after it; any include it yields is valid |
| Includes.FoldIncludes | src/filter/includes.rs:152-171 | the fold keeps what was collected before as a prefix, and adds only valid includes |
| Includes.WithBom | src/filter/includes.rs:172 | pairs the mark flag with the collected includes and passes Error and Incomplete through |
| Includes.Scan | src/filter/includes.rs:151-172 | after the mark: the flag passed in, and only valid includes |
| Includes.FindIncludes | src/filter/includes.rs:148-174 | on Done the flag is true exactly when the input starts with the UTF-8 byte-order mark, and every include path has no line break and no closing delimiter |
| Includes.BlanksStop | src/filter/includes.rs:46-48 | `blanks` consumes nothing before a byte that is not a space, tab or slash |
| Includes.LinesStop | src/filter/includes.rs:50-52 | `lines` consumes nothing at the end or before a byte that is not white space or a slash |
| Includes.IncludeQuoteDisplay | src/filter/includes.rs:60-64 | `include_quote` reads back exactly the path that `Display` writes between quotes |
| Includes.IncludeBracketDisplay | src/filter/includes.rs:54-58 | `include_bracket` reads back exactly the path that `Display` writes between brackets |
| Includes.IncludeTargetDisplay | src/filter/includes.rs:12-20 | for every valid include, parsing its `Display` form gives it back and leaves what follows |
| Includes.IncludeDirectiveDisplay | src/filter/includes.rs:66-73 | `include`, a space, a displayed target and a line feed are parsed to that target |
| Includes.DirectiveRender | src/filter/includes.rs:86-100 | a rendered `#include` line is one directive yielding its include |
| Includes.FoldRender | src/filter/includes.rs:152-171 | folding over rendered include lines appends exactly those includes, in order, and consumes everything |
| Includes.FoldRenderThen | src/filter/includes.rs:152-171 | folding over rendered include lines and then skipped blank text appends exactly those includes and goes on after the blank text |
| Includes.FindIncludesRender | src/filter/includes.rs:176-184 | round trip: a non-empty source of include lines gives exactly those includes in order, no mark, and no input left |
| Includes.FindIncludesBomRender | src/filter/includes.rs:176-184 | the same round trip behind a byte-order mark, which is reported as true |
| Includes.FindIncludesEmpty | src/filter/includes.rs:150 | on empty input the optional mark parser already answers Incomplete |
| Includes.IncludeAtEndOfInput | src/filter/includes.rs:72 | an include on the last line without a line feed makes the whole scan Incomplete |
| Includes.LinesLineComment | src/filter/includes.rs:34-38 | `lines` skips a line comment up to its line break |
| Includes.LinesBlockComment | src/filter/includes.rs:40-44 | `lines` skips a block comment through its terminator |
| Includes.FindIncludesLineComment | src/filter/includes.rs:206-230 | a leading line comment, even one holding a directive, leaves the result unchanged |
| Includes.FindIncludesBlockComment | src/filter/includes.rs:206-230 | a leading block comment, even one holding directives, leaves the result unchanged |
| Includes.FindIncludesLineCommentBetween | src/filter/includes.rs:206-230 | a line comment between two runs of include lines leaves exactly the includes of both runs, in order |
| Includes.FindIncludesBlockCommentBetween | src/filter/includes.rs:206-230 | a block comment, even one holding directives, between two runs of include lines leaves exactly the includes of both runs, in order |
| Includes.FindIncludesGap | src/filter/includes.rs:148-174 | whatever `lines` skips between two runs of include lines leaves exactly the includes of both runs, in order |
| Includes.CodeDoubleQuoteAccepts | src/filter/includes.rs:196-201 | a literal of plain bytes and backslash escapes of any byte is accepted up to its closing quote |
| Includes.CodeDoubleQuoteLineBreak | src/filter/includes.rs:202 | a raw line break inside a literal is an error |
| Includes.CodeDoubleQuoteUnterminated | src/filter/includes.rs:203 | a literal cut off by the end of input is Incomplete |
| Includes.CodeLineTailStop | src/filter/includes.rs:139-145 | the loop consumes nothing before a line break or at the end |
| Includes.CodeLinePlain | src/filter/includes.rs:188-191 | plain code is consumed up to the line break, which is left over |
| Includes.CodeLineDivision | src/filter/includes.rs:193 | a single slash inside plain code is part of the code line |
| Includes.CodeLineComment | src/filter/includes.rs:190 | a trailing line comment is part of the code line |
| Includes.UnterminatedLiteralFails | src/filter/includes.rs:152-171 | a line starting with a literal that hits a raw line break stops the fold with an error, whatever was collected |
| Includes.DirectiveOther | src/filter/includes.rs:86-100 | a directive other than `include` yields None and leaves its line break |
| Includes.OtherDirectiveSkipped | src/filter/includes.rs:152-171 | after a directive such as `#pragma once` the fold goes on with the includes it had |
| ClangCompiler.OptionWords | src/clang/compiler.rs:36-56 | a kept flag gives `-flag`, a kept parameter gives `-flag` and its value as two words, and everything else (inputs, outputs, other scopes) gives nothing |
| ClangCompiler.OptionListConcat | src/clang/compiler.rs:35-57 | the words of a concatenation are the words of each part, in order, so each argument's words sit where the argument sits |
| ClangCompiler.OptionListDropped | src/clang/compiler.rs:42-55 | arguments of scopes the run does not keep, and inputs and outputs, add no words |
| ClangCompiler.OptionListLength | src/clang/compiler.rs:35-57 | the list is as long as the kept flags plus twice the kept parameters |
| ClangCompiler.AppendOptions | src/clang/compiler.rs:35-57 | the loop appends exactly the words of the arguments, in order, after what was there |
| ClangCompiler.PreprocessArgs | src/clang/compiler.rs:28-62 | the list is `-E -x <language> -frewrite-includes`, the preprocessor and shared options, then `<input> -o -` |
| ClangCompiler.CompileArgs | src/clang/compiler.rs:90-116 | the list is `-c -x <language>` followed by the compiler and shared options |
| ClangCompiler.Outputs | src/clang/compiler.rs:118-125 | the outputs are the object file, followed by the precompiled header exactly when the compilation task has one |
| ClangCompiler.ScopeRouting | src/clang/compiler.rs:37-53 | a flag or parameter reaches the preprocessing run iff its scope is Preprocessor or Shared, and the compiling run iff it is Compiler or Shared |
| ClangCompiler.LittleEndianRoundTrip | src/clang/compiler.rs:152 | the eight length bytes of `write_usize` read back as the length |
| ClangCompiler.Hasher.Write | src/clang/compiler.rs:153 | the bytes are appended to what the hasher was fed |
| ClangCompiler.Hasher.WriteUsize | src/clang/compiler.rs:152 | the length is fed as eight little-endian bytes |
| ClangCompiler.Hasher.WriteIsize | src/clang/compiler.rs:155 | the value is fed as its 64-bit two's complement, little-endian |
| ClangCompiler.FramesAppend | src/clang/compiler.rs:151-154 | one more argument adds its length and then its bytes at the end |
| ClangCompiler.TerminatorBytes | src/clang/compiler.rs:155 | `write_isize(-1)` feeds eight 0xFF bytes, which read as the largest 64-bit value |
| ClangCompiler.ArgBytes | src/clang/compiler.rs:153 | each argument is hashed as its UTF-8 bytes |
| ClangCompiler.HashArgs | src/clang/compiler.rs:149-156 | the hasher is fed a zero byte, each argument's length and bytes in order, then the terminator, after what it had |
| ClangCompiler.ParseFramesStep | src/clang/compiler.rs:151-154 | a frame reads back as its bytes followed by what the rest reads as |
| ClangCompiler.ParseFramesRoundTrip | src/clang/compiler.rs:151-155 | the frames plus terminator read back as exactly the argument list |
| ClangCompiler.FramingRoundTrip | src/clang/compiler.rs:149-156 | what `hash_args` feeds reads back as the argument bytes: the framing is length-prefixed and unambiguous |
| ClangCompiler.FramingInjective | src/clang/compiler.rs:149-156 | two argument lists fed as the same bytes are the same list |
| ClangCompiler.PreprocessStep | src/clang/compiler.rs:27-86 | the preprocessing argument list, and on success (only then) the hashed bytes: a zero byte, the framed arguments, the preprocessed output |
| ClangCompiler.CompileStep | src/clang/compiler.rs:89-146 | the compile argument list, the outputs, the command line `<args> - -o <object>`, and the cache key bytes: the content then the framed arguments |
| ClangCompiler.CompileKey | src/clang/compiler.rs:127-129 | the key is computed over the preprocessed content followed by the framed arguments |
| VsPrepare.IsSpaceableParam | src/vs/prepare.rs:239-256 | a spaceable option is never of the Ignore scope |
| VsPrepare.IsSpaceableParamSpec | src/vs/prepare.rs:239-256 | the first matching prefix wins, in the order `D`, `I`, `W`, `wd`, `we`, `wo`, `w`: `D` is exactly the Shared one, `I` exactly the Preprocessor one, `w` only when no `wd`, `we` or `wo` matches, and none exactly when no prefix matches |
| VsPrepare.ClassifyFlag | src/vs/prepare.rs:206-229 | an unknown option is reported as the whole argument, and an option never yields a source input |
| VsPrepare.ParseArgument | src/vs/prepare.rs:186-237 | nothing exactly when the arguments are exhausted; otherwise one argument is consumed, or two for a spaceable option given alone |
| VsPrepare.ParseArgumentSpec | src/vs/prepare.rs:186-237 | an unknown argument is reported as written, and exactly the arguments without a `/` or `-` prefix become source inputs |
| VsPrepare.ParseArgumentConsumes | src/vs/prepare.rs:186-237 | each call consumes at least one argument and returns nothing only at the end, so the loop of `parse_arguments` ends |
| VsPrepare.ErrorsOfCons | src/vs/prepare.rs:170-173 | an outcome adds its error to the errors or its argument to the results |
| VsPrepare.ErrorsOfAppend | src/vs/prepare.rs:170-173 | the errors of two runs of outcomes are the errors of each, in order |
| VsPrepare.OksOfAppend | src/vs/prepare.rs:170-173 | the results of two runs of outcomes are the results of each, in order |
| VsPrepare.CollectArguments | src/vs/prepare.rs:165-179 | the loop collects every unknown argument and every classified one, each in input order |
| VsPrepare.ParseArguments | src/vs/prepare.rs:164-184 | the result is the list of all unknown arguments when there is one, and the classified arguments in order otherwise |
| VsPrepare.ErrorsOfEmpty | src/vs/prepare.rs:180-183 | no error was collected exactly when every outcome succeeded, and then every outcome is in the result |
| VsPrepare.ParsedArgumentsFails | src/vs/prepare.rs:180-183 | parsing fails exactly when some argument is unknown |
| VsPrepare.SourceInputs | src/vs/prepare.rs:233 | each argument as a source input with an empty flag, in order |
| VsPrepare.PlainArgument | src/vs/prepare.rs:232-233 | an argument without an option prefix is one source input |
| VsPrepare.StepsCons | src/vs/prepare.rs:167-179 | the outcomes are the first call's outcome followed by those of the rest |
| VsPrepare.PlainArgumentsAreSources | src/vs/prepare.rs:164-184 | arguments that are not options all become source inputs, in order |
| VsPrepare.SpaceableSeparateValue | src/vs/prepare.rs:193-201 | a spaceable option given alone takes the next argument as its value unless that starts with `/` or `-`, which makes it unknown, both consumed; as the last argument it is unknown |
| VsPrepare.ParseMarkerUse | src/vs/prepare.rs:225 | `/Yu<f>` is a marker input with file `<f>` |
| VsPrepare.ParseMarkerCreate | src/vs/prepare.rs:224 | `/Yc<f>` is a marker output with file `<f>` |
| VsPrepare.ParsePrecompiledFile | src/vs/prepare.rs:223 | `/Fp<f>` is a precompiled-header input with file `<f>` |
| VsPrepare.ParseObjectFile | src/vs/prepare.rs:222 | `/Fo<f>` is an object output with file `<f>` |
| VsPrepare.ParseLanguage | src/vs/prepare.rs:210 | `/T<x>` is an ignored parameter `T` with value `<x>` |
| VsPrepare.ParseJoinedDefine | src/vs/prepare.rs:202-204 | `/D<x>` with `<x>` not empty is a shared parameter `D` with value `<x>`, the text after the prefix |
| VsPrepare.ParseJoinedSpaceable | src/vs/prepare.rs:202-204 | any spaceable option with its value joined, such as `/wd4996`, is a parameter of its prefix's scope whose value is the text after the prefix |
| VsPrepare.FilterMap | src/vs/prepare.rs:136 | no more values are selected than there are arguments |
| VsPrepare.FindParam | src/vs/prepare.rs:135-142 | none when nothing is selected, the one value when exactly one is, all of them in order when several are |
| VsPrepare.DoubleDotName | src/vs/prepare.rs:63 | a stem followed by `.` and `.pch` splits at the last dot into that stem with a dot, and `pch` |
| VsPrepare.DefaultPrecompiledDoubleDot | src/vs/prepare.rs:63 | as written, a marker `<stem>.<ext>` gives `<stem>..pch`: extension `pch`, but a stem that ends in a dot |
| VsPrepare.DefaultPrecompiled | src/vs/prepare.rs:61-64 | the default precompiled header keeps the marker's directory and stem and has extension `pch` |
| VsPrepare.BuildTask | src/vs/prepare.rs:21-132 | a built task keeps the command and the classified arguments; the errors here are never unknown-argument errors |
| VsPrepare.BuildTaskUnique | src/vs/prepare.rs:23-120 | a task is built only from exactly one source and at most one each of `/Fp`, marker, `/Fo` and `/T`; its language is `P` or `C`; it never both reads and writes a precompiled header |
| VsPrepare.BuildTaskErrors | src/vs/prepare.rs:29-31 | no source, several sources, several `/Fp` files and several markers give their errors, checked in that order (lines 42 and 74-76 for the last two) |
| VsPrepare.CreateTask | src/vs/prepare.rs:17-133 | the unknown-argument error comes exactly from parsing, and a built task carries the parsed arguments |
| VsPrepare.BuildTaskPrecompiled | src/vs/prepare.rs:55-73 | a `/Yu` marker makes only the input header set and a `/Yc` marker only the output header, with the `/Fp` file or else the marker with `with_extension(".pch")`, which for `<stem>.<ext>` is `<stem>..pch`; an empty marker name gives no marker; without a marker no header file is set |
| VsPrepare.BuildTaskObject | src/vs/prepare.rs:79-90 | without `/Fo` the object file is the source with extension `obj`, otherwise the given file |
| VsPrepare.BuildTaskStages | src/vs/prepare.rs:23-120 | the compilation task's source, object file and language are the values of the individual checks |
| VsPrepare.BuildTaskLanguage | src/vs/prepare.rs:93-120 | without `/T` the compilation task's language is the one the source's extension selects; with `/T` it is the given value |
| VsPrepare.LanguageByExtensionSpec | src/vs/prepare.rs:99-110 | `P` exactly for a `cpp` extension and `C` exactly for `c`, ignoring ASCII case; any other extension, or none, is an error naming the source |
| VsPrepare.LanguageStageSpec | src/vs/prepare.rs:93-120 | without `/T` the extension decides; a single `/T` value is accepted exactly when it is `P` or `C`, and is reported otherwise; several `/T` options are an error |
| VsPrepare.CreateTaskSourceOnly | src/vs/prepare.rs:17-133 | a lone `.cpp` source gives a C++ task writing the source's `.obj` file, with no precompiled header |
| VsPrepare.SourceOnlyStages | src/vs/prepare.rs:23-120 | the checks of `create_task` on a lone `.cpp` source: that source, no `/Fp`, no marker, the default object file, language `P` |
| VsPrepare.FilterMapSingle | src/vs/prepare.rs:136 | one argument selects its value or nothing |
| Postprocess.RunEnd | src/vs/postprocess.rs:382-399 | the end of the run of bytes with the property: every byte before it has it and the byte at it does not, or it is the end of the input |
| Postprocess.BomMatched | src/vs/postprocess.rs:200-217 | the number of leading bytes that agree with the byte-order mark, stopping at the first disagreement or at the end of input |
| Postprocess.PathByte | src/vs/postprocess.rs:366-380 | `\n`, `\r` and `\t` stand for LF, CR and TAB, an escaped backslash becomes `/` in the path, and any other escaped byte stands for itself |
| Postprocess.ScanPathWith | src/vs/postprocess.rs:455-491 | the loop ends only with `LiteralEof`, `LiteralEol`, `EscapeEof` or `LiteralTooLong`, or just past the closing quote |
| Postprocess.ScanPathAsWritten | src/vs/postprocess.rs:446-492 | the literal as written: a success ends just past a closing quote after the opening one |
| Postprocess.Escaped | src/vs/postprocess.rs:463-482 | the spelling of a path inside a literal is at least as long as the path |
| Postprocess.ForwardSlashed | src/vs/postprocess.rs:467-470 | turning backslashes into slashes keeps the length |
| Postprocess.ScanEscaped | src/vs/postprocess.rs:455-491 | decoding the spelling of any path that fits gives the path with backslashes turned into slashes, and the raw text is the literal exactly as it appears |
| Postprocess.ScanPathOfLiteral | src/vs/postprocess.rs:446-492 | round trip: the literal of any path short enough for the buffers is read back as that path with forward slashes, and its raw text is the literal itself |
| Postprocess.ScanPathLineEnd | src/vs/postprocess.rs:460-462 | a raw CR or LF before the closing quote is `LiteralEol` |
| Postprocess.ScanPathEndOfInput | src/vs/postprocess.rs:488-490 | input that ends inside a literal is `LiteralEof`, or `EscapeEof` when it ends on a backslash |
| Postprocess.ScanPathTooLong | src/vs/postprocess.rs:484-486 | a literal that does not fit the 0x400-byte buffers is `LiteralTooLong` |
| Postprocess.RawEscapeAsWritten | src/vs/postprocess.rs:463-466 | for `"a\tb"` the raw text as written is `"a\\b"`, while the corrected scan keeps `"a\tb"` |
| Postprocess.EscapeByteScan | src/vs/postprocess.rs:463-482 | the loop reads the spelling of one byte as that byte |
| Postprocess.ScanEscapeStep | src/vs/postprocess.rs:463-472 | one escape adds the decoded byte to the path and the two bytes to the raw text, or fails with `LiteralTooLong` |
| Postprocess.ScanPlainStep | src/vs/postprocess.rs:473-486 | one plain byte is added to both the path and the raw text, or fails with `LiteralTooLong` |
| Postprocess.ScanLiteral | src/vs/postprocess.rs:446-492 | the loop over the two fixed-size buffers computes exactly what the scan function defines, in the raw-text mode the scanner runs in (as written, the escape's backslash is stored twice) |
| Postprocess.ScanPathIn | src/vs/postprocess.rs:446-492 | a successful scan ends just past a closing quote that equals the opening one |
| Postprocess.HdrstopAtEofAsWritten | src/vs/postprocess.rs:420-444 | as written, an output whose last bytes are `hdrstop`, with no `h` before them, reads the token `hdrstop` nowhere, while the corrected read finds it at the end |
| Postprocess.HdrstopOnlyLine | src/vs/postprocess.rs:346-350 | the output `#pragma hdrstop` alone holds no `hdrstop` token as written, and is a header-stop line for the corrected scanner |
| Postprocess.TokenReadShape | src/vs/postprocess.rs:420-444 | a token that fits is read with its own bytes first; it is padded to the whole buffer exactly when read as written at the end of the input |
| Postprocess.PragmaHdrstopScans | src/vs/postprocess.rs:276-292 | a `#pragma hdrstop` at a position is read as `#`, the name `pragma`, the spaces after it and the token `hdrstop`, in either mode |
| Postprocess.FillToken | src/vs/postprocess.rs:420-439 | the buffer holds the token bytes from the start; the loop stops at the first other byte, or with a full buffer before one more token byte |
| Postprocess.SubpathIff | src/vs/postprocess.rs:495-503 | `is_subpath` holds exactly when the path splits into a directory part that is empty or ends in `/`, and a last part equal to the marker up to ASCII case |
| Postprocess.SubpathCaseTest | src/vs/postprocess.rs:654-678 | the marker `STDafx.h` matches `.../StdAfx.h` |
| Postprocess.SubpathNeedsSeparator | src/vs/postprocess.rs:499-501 | a name that only ends with the marker's text, without a `/` before it, is not the marker |
| Postprocess.Mark | src/vs/postprocess.rs:320-327 | the injected text starts with `#pragma hdrstop` |
| Postprocess.Scanner.Flush | src/vs/postprocess.rs:190-198 | the bytes since the last flush go to the writer exactly when headers are kept or the marker has been passed, and they count as handled either way |
| Postprocess.Scanner.Read | src/vs/postprocess.rs:179-188 | flushes, starts a new block and returns whether input is left |
| Postprocess.Scanner.Peek | src/vs/postprocess.rs:143-150 | the byte at the read position, or none at the end of input, reading first when the buffer is used up |
| Postprocess.Scanner.ParseBom | src/vs/postprocess.rs:200-217 | consumes the leading bytes that agree with the mark, and sets `utf8` exactly when all three do |
| Postprocess.Scanner.ParseSpaces | src/vs/postprocess.rs:382-399 | moves past the blanks, tabs and form feeds |
| Postprocess.Scanner.ParseEmpty | src/vs/postprocess.rs:401-418 | also moves past line ends |
| Postprocess.Scanner.ParseToken | src/vs/postprocess.rs:420-444 | the run of `[A-Za-z0-9_]` at the read position when it fits the buffer, `TokenTooLong` exactly when it does not; as written, a token that reaches the end of the input comes back as the whole zero-padded buffer |
| Postprocess.Scanner.NextLine | src/vs/postprocess.rs:231-245 | moves past the next line feed, or to the end of the input |
| Postprocess.Scanner.NextLineEol | src/vs/postprocess.rs:247-274 | the line end passed: CR LF after a carriage return, LF otherwise, nothing at the end of input |
| Postprocess.Scanner.ParsePath | src/vs/postprocess.rs:446-492 | `MissingPath` at the end of the input; otherwise the decoded file name, the literal's raw text and the new read position of the literal scan in the scanner's mode, or its error |
| Postprocess.Scanner.Preload | src/vs/postprocess.rs:158-178 | flushes and starts a new block |
| Postprocess.Scanner.WriteMark | src/vs/postprocess.rs:136-140 | the pending bytes are flushed and the text is written after them |
| Postprocess.Scanner.PassHdrstop | src/vs/postprocess.rs:350-357 | passes the marker, writing `#pragma hdrstop` when headers are not kept and forwarding the pending bytes when they are |
| Postprocess.Scanner.ParseDirectivePragma | src/vs/postprocess.rs:346-364 | the pragma token as the scanner reads it; the first `hdrstop` passes the marker and writes `#pragma hdrstop` when headers are not kept; a token longer than the buffer is `TokenTooLong`; other pragmas change no flag |
| Postprocess.Scanner.LineNumber | src/vs/postprocess.rs:298-300 | the line-number token as the scanner reads it and the spaces around it; a token longer than the buffer is `TokenTooLong` |
| Postprocess.Scanner.FileOperand | src/vs/postprocess.rs:301-302 | the quoted file name as the scan decodes it, and the line end after it |
| Postprocess.Scanner.LineHeader | src/vs/postprocess.rs:294-302 | the operands of `#line` as the directive spells them |
| Postprocess.Scanner.Separate | src/vs/postprocess.rs:303-316 | `#line 1` of a pending source hands the previous output to the worker, clears the flags and drops the directive when headers are not kept; a directive that spans blocks is `TokenTooLong` |
| Postprocess.Scanner.EnterFile | src/vs/postprocess.rs:317-342 | the first file becomes the entry file; a return to it after a marked header writes the mark and passes the marker; a file that ends with the marker sets `headerFound` |
| Postprocess.Scanner.ParseDirectiveLine | src/vs/postprocess.rs:294-344 | the separator, the marker and the injected mark, as the two steps above state them |
| Postprocess.Scanner.ParseDirective | src/vs/postprocess.rs:276-292 | `line` and `pragma` are handled; any other directive is skipped and changes no flag; a `#pragma hdrstop` as the scanner reads it passes the marker and is consumed whole |
| Postprocess.Scanner.DirectiveHead | src/vs/postprocess.rs:277-285 | the flush when the marker is passed, then the directive name: `TokenTooLong` exactly when the name does not fit its 16 bytes, otherwise the name as read |
| Postprocess.Scanner.PreloadIfDone | src/vs/postprocess.rs:277-279 | once the marker is passed, the pending bytes go to the writer and a new block starts; the read position stays |
| Postprocess.Scanner.DirectiveName | src/vs/postprocess.rs:281-285 | moves past `#` and the spaces and reads the name; `TokenTooLong` exactly when it does not fit the buffer |
| Postprocess.Scanner.DirectiveNamed | src/vs/postprocess.rs:285-291 | a failed name read is passed on; a name other than `line` or `pragma` changes no flag; `pragma` before the token `hdrstop` passes the marker |
| Postprocess.Scanner.ParseLine | src/vs/postprocess.rs:219-229 | blank lines are skipped, a line without `#` changes no flag and writes nothing, and a `#pragma hdrstop` line as the scanner reads it passes the marker |
| Postprocess.Scanner.ConvertMarker | src/vs/postprocess.rs:91-99 | the marker is UTF-8 after a byte-order mark, else the ANSI encoding of the path with `\` turned into `/`; a failed encoding is an error |
| Postprocess.Scanner.ScanLines | src/vs/postprocess.rs:100-107 | the loop stops with all input used or with the first error; when the rest of the input is one `#pragma hdrstop` line as the scanner reads it, it ends with the marker passed |
| Postprocess.Scanner.Start | src/vs/postprocess.rs:89-99 | the byte-order mark is consumed and recorded; the marker is its UTF-8 bytes after a mark, else its ANSI encoding with `\` turned into `/`, and `AnsiEncoding` exactly when that encoding fails |
| Postprocess.Scanner.Run | src/vs/postprocess.rs:85-113 | after the whole input, success exactly when the marker was passed, `MarkerNotFound` otherwise; without a marker, input with no `hdrstop` token as read fails, and input that is one `#pragma hdrstop` line succeeds |
| Postprocess.FilterPreprocessed | src/vs/postprocess.rs:62-114 | when headers are not kept, each output handed to the worker is empty or starts with `#pragma hdrstop`; success exactly when the marker was passed; without a marker, no `hdrstop` token as read means failure and a lone `#pragma hdrstop` line means success |
| VsCompiler.FilterMap | src/vs/compiler.rs:196-215 | the `filter` helper never yields more values than there are arguments |
| VsCompiler.FilterMapConcat | src/vs/compiler.rs:196-215 | filtering a concatenation filters each part, keeping the order |
| VsCompiler.FilterMapMember | src/vs/compiler.rs:196-215 | a value is in the result exactly when some argument maps to it |
| VsCompiler.PreprocessArgsKept | src/vs/compiler.rs:196-227 | the preprocessing run starts with exactly the text of each preprocessor and shared option, before its own options |
| VsCompiler.CompileArgsKept | src/vs/compiler.rs:237-269 | the compiling run keeps exactly the compiler and shared options, plus the preprocessor options when a precompiled header is created; `/Yc` comes last exactly then |
| VsCompiler.ScopeRouting | src/vs/compiler.rs:196-262 | every option that is not ignored reaches one of the two runs, shared options reach both, and without a header being created no other option reaches both |
| VsCompiler.StrangePath | src/vs/compiler.rs:367-373 | a path without a parent is passed as it is; one with a parent needs a file name |
| VsCompiler.StrangePathDot | src/vs/compiler.rs:368-369 | the non-canonical path is the parent, then `.`, then `/` and the file name |
| VsCompiler.AddMarkers | src/vs/compiler.rs:374-377 | the UTF-8 spelling of the path, and its ANSI spelling when there is one, become markers of the source; no other key changes |
| VsCompiler.CollectSources | src/vs/compiler.rs:363-380 | every input source becomes pending, each strange path a command argument in order, and every marker names a pending source |
| VsCompiler.ElementsIn | src/vs/compiler.rs:363-366 | the set gathered from the sources holds exactly the sources |
| VsCompiler.Execute | src/vs/compiler.rs:357-435 | when it fails with `MissingFileName` nothing reaches the worker; a filter failure is returned as `FilterFailed` with the filter's error, and only then; without a marker, output with no `hdrstop` token as read fails that way; otherwise every source is delivered at most once, success means every source was delivered, and a failed run ends with its report against the first source |
| VsCompiler.SplitOutput | src/vs/compiler.rs:407-434 | the same guarantees for the part after the command is built, with `FilterFailed` exactly when the filter fails |
| VsCompiler.Deliver | src/vs/compiler.rs:419-434 | after the last hand-over, success exactly when no source is pending, which is when every source was delivered |
| VsCompiler.Finish | src/vs/compiler.rs:419-429 | the last content is handed over and a failure report, if any, comes last |
| VsCompiler.FailureHeaderFree | src/vs/compiler.rs:423-428 | a failure report carries no preprocessed text |
| VsCompiler.ExecHeaderFree | src/vs/compiler.rs:419 | the last hand-over keeps the delivered outputs free of header text |
| VsCompiler.WriterFinished | src/vs/compiler.rs:430-433 | with nothing being collected, the delivered sources are distinct inputs, and none is pending exactly when all were delivered |
| VsCompiler.Trimmed | src/vs/compiler.rs:552-561 | the result is a suffix of the output that does not start with a line end |
| VsCompiler.PrepareOutput | src/vs/compiler.rs:552-570 | the output without the echoed source name and the line ends after it, and after a successful run with the pattern's matches replaced over the whole output |
| VsCompiler.TrimmedEcho | src/vs/compiler.rs:554-561 | an echoed name followed by line ends is removed with them |
| VsCompiler.TrimmedNoEcho | src/vs/compiler.rs:554-561 | output without the echo loses only its leading line ends |
| VsCompiler.LastColonEnd | src/vs/compiler.rs:565 | the position just after the last colon before the given one, or 0 |
| VsCompiler.MatchAtSound | src/vs/compiler.rs:565 | within one line, a match the line matcher finds is a match of the pattern |
| VsCompiler.MatchAtComplete | src/vs/compiler.rs:565 | within one line, every match of the pattern with its `(` at a position is found there |
| VsCompiler.MatchFromIff | src/vs/compiler.rs:565 | within one line, the line matcher succeeds from a position exactly when the pattern has a match with its `(` at or after it |
| VsCompiler.C4628LineIff | src/vs/compiler.rs:565 | one line on its own is a match of the pattern exactly when the line matcher accepts it |
| VsCompiler.C4628Shape | src/vs/compiler.rs:607-619 | a line `name(digits) : warning C4628: ...` is a C4628 line for the line-by-line removal |
| VsCompiler.RemoveC4628 | src/vs/compiler.rs:562-568 | the line-by-line removal never makes the output longer |
| VsCompiler.RemoveC4628Clean | src/vs/compiler.rs:562-568 | no line left by the line-by-line removal is a C4628 warning |
| VsCompiler.RemoveC4628Keeps | src/vs/compiler.rs:562-568 | output without C4628 lines is left as it is by the line-by-line removal |
| VsCompiler.RemoveC4628Idempotent | src/vs/compiler.rs:562-568 | the line-by-line removal done twice is the same as once |
| VsCompiler.LastFeasible | src/vs/compiler.rs:565 | the last `(` before a bound from which the pattern can match at a line start, with none after it, or none at all |
| VsCompiler.PatternFeasible | src/vs/compiler.rs:565 | every match of the pattern from a line start has a feasible `(`, its `\S+` inside the first run of non-blank bytes, and its digits and rest of line fixed by the `(` |
| VsCompiler.FeasiblePreferred | src/vs/compiler.rs:565 | the last feasible `(`, with the longest `\S+`, gives the match the leftmost-first engine prefers |
| VsCompiler.MatchEndAt | src/vs/compiler.rs:565 | a match from a line start ends after it and within the output |
| VsCompiler.MatchEndAtSound | src/vs/compiler.rs:565 | a reported match end is that of the preferred match from that line start |
| VsCompiler.MatchEndAtComplete | src/vs/compiler.rs:565 | a line start from which the pattern matches reports a match |
| VsCompiler.PreferredUnique | src/vs/compiler.rs:565 | there is at most one preferred match from a line start |
| VsCompiler.MatchEndAtPreferred | src/vs/compiler.rs:565 | the preferred match's end is the one reported |
| VsCompiler.NextMatch | src/vs/compiler.rs:565 | the first position from which a match is reported, with none before it, or none at all |
| VsCompiler.ReplaceFrom | src/vs/compiler.rs:565 | `replace_all` from a position never makes the output longer |
| VsCompiler.ReplaceFromRest | src/vs/compiler.rs:565 | without a match from any later position the rest is kept |
| VsCompiler.ReplaceFromMatch | src/vs/compiler.rs:565 | the bytes before the leftmost match are kept, the preferred match is cut, and the replacement goes on after it |
| VsCompiler.ReplaceFromAt | src/vs/compiler.rs:565 | a reported match with no match before it is the next one cut |
| VsCompiler.ReplaceC4628Keeps | src/vs/compiler.rs:565 | `replace_all` leaves the output as it is exactly when the pattern matches nowhere in it |
| VsCompiler.OnlyParenEnd | src/vs/compiler.rs:565 | a match whose `(` is the first one after the line start is the one reported, whatever else follows |
| VsCompiler.C4628Spans | src/vs/compiler.rs:565 | as written, a line without a colon or `(` in front of a C4628 line is removed with it, while the line-by-line removal keeps it |
| VsCompiler.C4628LineRemoved | src/vs/compiler.rs:606-619 | a C4628 line `name(digits) : warning C4628: ...` after lines without a match is cut with its line feed and the rest is processed after it |
| VsCompiler.PrepareOutputEcho | src/vs/compiler.rs:596-605 | the echoed name and its line end go, and output without a match of the pattern stays |
| VsCompiler.U32At | src/vs/compiler.rs:536 | a little-endian 32-bit read is below 2^32 |
| VsCompiler.Hex | src/vs/compiler.rs:549 | a hexadecimal text has at least one digit |
| VsCompiler.HexRoundTrip | src/vs/compiler.rs:549 | the hexadecimal text reads back as the number, in both cases |
| VsCompiler.HexNoLeadingZero | src/vs/compiler.rs:549 | only zero is written with a leading zero |
| VsCompiler.ReadExecutableId | src/vs/compiler.rs:519-550 | success exactly when the file holds the MZ signature and, at the offset stored at 0x3C, the PE signature and a full header; a short file or a missing MZ is reported as such; the text is the time stamp in upper-case hex then the image size in lower-case hex |
| VsSink.Appended | src/vs/compiler.rs:146-152 | written bytes are appended to the content of the source being collected, or dropped when there is none |
| VsSink.AppendedTwice | src/vs/compiler.rs:146-152 | two writes give the same content as one write of both |
| VsSink.Successes | src/vs/compiler.rs:138-143 | the sources delivered as successes, in order |
| VsSink.ConsistentStart | src/vs/compiler.rs:162-178 | starting a pending source keeps every input source pending or started exactly once |
| VsSink.VsPreprocessor.Exec | src/vs/compiler.rs:137-143 | hands the collected content, if any, to the worker as a success and clears it |
| VsSink.VsPreprocessor.Write | src/vs/compiler.rs:146-152 | appends to the current content, or drops the bytes when no source is being collected |
| VsSink.VsPreprocessor.IsSourceSeparator | src/vs/compiler.rs:161-178 | the marker is always removed, and only a marker of a still-pending source delivers the previous content and starts that source |
| VsSink.VsPreprocessor.ReportFailure | src/vs/compiler.rs:421-429 | a failed preprocessor run is reported to the worker for its source, and nothing else changes |
| DirectScanner.RemoveAll | src/direct/scanner.rs:70-72 | the directories of the context other than the source directory, and only those |
| DirectScanner.RemoveAllAppend | src/direct/scanner.rs:70-72 | the removal is a filter: it keeps the relative order of all other directories |
| DirectScanner.RemoveAllDistinct | src/direct/scanner.rs:70-72 | removing a directory keeps a duplicate-free context duplicate-free |
| DirectScanner.CombineClang | src/direct/scanner.rs:63 | the clang context is the source's parent directory alone, or empty when it has none, whatever the context was |
| DirectScanner.CombineVsUnchanged | src/direct/scanner.rs:65-69 | the Visual Studio context is returned unchanged when the source has no parent or its parent is already last (line 76 for the no-parent case) |
| DirectScanner.CombineVsMoves | src/direct/scanner.rs:70-74 | otherwise every occurrence of the source directory is removed, the others keep their order, and it is appended once at the end |
| DirectScanner.CombineIdempotent | src/direct/scanner.rs:61-80 | combining the result with the same source again changes nothing |
| DirectScanner.CombineDistinct | src/direct/scanner.rs:61-80 | a duplicate-free context stays duplicate-free |
| DirectScanner.Reverse | src/direct/scanner.rs:103-105 | the context directories, last to first |
| DirectScanner.SearchDirs | src/direct/scanner.rs:99-108 | a quoted include searches the context last to first and then the include directories; a bracketed one only the include directories |
| DirectScanner.SolveIncludePathSpec | src/direct/scanner.rs:114-127 | an absolute path is returned as it is; otherwise the canonical form of the first directory's joined path that is a file, and nothing exactly when no directory has it as a file |
| DirectScanner.FirstFileSpec | src/direct/scanner.rs:120-126 | the first directory where the joined path is a file wins; none exactly when no directory has it |
| DirectScanner.ResolveAll | src/direct/scanner.rs:97-111 | the resolved paths are never more than the includes |
| DirectScanner.ResolveAllFails | src/direct/scanner.rs:97-111 | the lookup of a file's includes fails exactly when the lookup of one of its includes fails |
| DirectScanner.ResolveAllFrom | src/direct/scanner.rs:97-111 | every resolved path is what the lookup gives for one of the includes |
| DirectScanner.ResolveAllInFiles | src/direct/scanner.rs:97-127 | on a file system whose lookups yield known files, every resolved path is a known file |
| DirectScanner.FirstFileInFiles | src/direct/scanner.rs:120-126 | a successful search yields a known file |
| DirectScanner.CombineAdmissible | src/direct/scanner.rs:45-48 | the worklist task pushed for an include has a duplicate-free context of directories of known files |
| DirectScanner.PushSuccessors | src/direct/scanner.rs:44-49 | one task per include path is pushed after the queue, in order, each with the combined context of the expanded task |
| DirectScanner.PushStep | src/direct/scanner.rs:45-48 | one push keeps the queue prefix, places the new task, and keeps every queued task admissible |
| DirectScanner.ExpandedAfterExpansion | src/direct/scanner.rs:43-49 | after a new task is expanded, every collected task, the new one included, has all its successors collected or queued |
| DirectScanner.ExpandedAfterSkip | src/direct/scanner.rs:43 | dropping a task that was already collected leaves every collected task's successors collected or queued |
| DirectScanner.OrderAppend | src/direct/scanner.rs:43 | a task is expanded only when `insert` finds it new, so the expansions stay a duplicate-free listing of the collected tasks |
| DirectScanner.Expand | src/direct/scanner.rs:44-49 | a new task's include paths are resolved and its successors pushed after the queue, or the loop ends with the resolution's error |
| DirectScanner.CollectSkip | src/direct/scanner.rs:41-43 | popping a collected task keeps the loop invariant |
| DirectScanner.CollectNew | src/direct/scanner.rs:41-49 | collecting and expanding a new task keeps the loop invariant |
| DirectScanner.Visit | src/direct/scanner.rs:41-51 | one step of the loop either collects a new task or shortens the queue, keeps the invariant, and fails only with the lookup error of a new task |
| DirectScanner.CollectIncludes | src/direct/scanner.rs:28-58 | a canonicalization error is returned as it is; on success the result holds the canonical root, is the set of sources of the collected tasks, is closed under includes, and every task was expanded at most once |
| Setup.RunOf | wixcs/setup.cs:18 | the end of the longest run of `\s` (or of `\S`) characters starting at the position |
| Setup.RunOfAt | wixcs/setup.cs:18 | a run ends exactly where the character class first changes |
| Setup.LastQuote | wixcs/setup.cs:18 | the last `"` in a range, or none when the range has no quote |
| Setup.GroupStartSound | wixcs/setup.cs:18 | when the matcher finds a group start, the line begins with whitespace, `version`, whitespace, `=`, whitespace and `"` up to it |
| Setup.GroupStartComplete | wixcs/setup.cs:18 | every way the head `^\s*version\s*=\s*"` can match is found, at the same position |
| Setup.GroupEndSound | wixcs/setup.cs:18 | the group found is non-space characters followed by a `"` |
| Setup.GroupEndGreedy | wixcs/setup.cs:18 | every possible end of `(\S+)"` is found, and the matcher takes the last one, as greedy backtracking does |
| Setup.MatchVersionSound | wixcs/setup.cs:18-25 | what the matcher returns is a capture of the pattern in that line |
| Setup.MatchVersionGreedy | wixcs/setup.cs:18-25 | whenever the pattern can match, the matcher returns a group, and it is the longest possible one |
| Setup.ReadVersion | wixcs/setup.cs:15-29 | the result is the group of the first matching line (later lines are ignored), and nothing exactly when no line matches |
| Setup.HeadShape | wixcs/setup.cs:18 | whitespace, `version = "` is a head of the pattern |
| Setup.GroupShape | wixcs/setup.cs:18 | a quoted token with no spaces or quotes is the group when a space or the line end follows |
| Setup.MatchVersionShape | wixcs/setup.cs:18 | a manifest line `version = "<v>"` gives `<v>`, whatever follows a space after the closing quote |
| Setup.CreateEnvironmentVariables | wixcs/setup.cs:31-51 | exactly two entries: machine-wide with condition `ALLUSERS`, then per-user with `NOT ALLUSERS` |
| Setup.CreateEnvironmentVariablesCopy | wixcs/setup.cs:34-46 | both entries copy feature, name, value, permanence, part and action from the input, and they differ |
| Paths.LastIndexOf | src/direct/scanner.rs:63-65 | the last position holding the character, with none after it, or none at all |
| Paths.LastSegment | src/vs/compiler.rs:369 | the text after the last `/`, which holds no `/` |
| Paths.DirPrefix | src/vs/prepare.rs:85 | the directory part, empty or ending in `/`, which followed by the last segment gives the path back |
| Paths.FileName | src/vs/compiler.rs:369 | `file_name` is the last segment, and none when that is empty, `.` or `..` |
| Paths.Parent | src/vs/compiler.rs:368 | `parent` is shorter than the path, and none for the empty path and the root |
| Paths.SplitFileAtDot | src/vs/prepare.rs:100 | stem and extension split at the last dot, with the stem not empty; a name whose only dot is its first character has no extension |
| Paths.WithExtension | src/vs/prepare.rs:85 | a path without a file name is returned unchanged |
| Paths.WithExtensionRoundTrip | src/vs/prepare.rs:85 | with an extension that holds no `.` or `/`, the new path has exactly that extension and keeps the stem and the directory part |
| Paths.WithExtensionShape | src/vs/prepare.rs:63 | the new path is the directory part, the stem, `.` and the extension |
| Paths.Join | src/direct/scanner.rs:117-121 | an absolute argument replaces the base, and an empty base gives the argument |
| Paths.Slashes | src/vs/compiler.rs:373 | every backslash becomes a slash and nothing else changes |
| Paths.BareFileName | src/vs/compiler.rs:368-370 | a path without separators is its own file name, with an empty directory part |
| Common.ToAsciiLower | src/vs/postprocess.rs:502 | only `A` to `Z` change, each to its lower-case letter |
| Common.EncodeChar | src/vs/postprocess.rs:94 | one to four bytes per character, a single byte exactly for ASCII, and that byte is the character's code |
| Common.Utf8 | src/vs/postprocess.rs:94 | the encoding is at least as long as the text, and exactly as long for ASCII text |
| Common.Utf8Append | src/vs/compiler.rs:375 | the encoding of a concatenation is the concatenation of the encodings |

## Left out

- Buffer refills in `src/vs/postprocess.rs`. The reader is the byte sequence that one `read` delivers whole, so the 64 KiB refill boundaries are not modelled. The `block` counter is kept, and so is the `TokenTooLong` check for a directive started in an earlier block (postprocess.rs:312-314). A directive split across an actual refill is not modelled.
- Postprocess.PostprocessError: `MissingPath` stands for the panic of `unwrap()` on an empty peek after a `#line` number. `AnsiEncoding` stands for the encoder error that `filter_preprocessed` reports outside `PostprocessError`.
- Process spawning, pipes, the stderr reader thread and exit statuses in `execute` are not modelled. They become parameters: the preprocessor's standard output, status and standard error.
- VsCompiler.Execute: `src/vs/compiler.rs:414-418` calls `filter_preprocessed` with five arguments, but the function in `src/vs/postprocess.rs:62-66` takes four. The model passes the marker, and `keep_headers` is whether a precompiled header is being produced.
- The regex engine is not modelled. The two patterns the core uses are matchers written by hand, each against the semantics of its one pattern:
  - compiler warning C4628, matched over the whole output as `replace_all` does (see `VsCompiler.ReplaceC4628` below);
  - the installer's version line, where `\s` is the Unicode class.
- VsCompiler.ReplaceC4628: the pattern's classes are taken on single bytes, with `\s` the ASCII white space and `\d` the ASCII digits. Rust's Unicode mode, where `\S`, `[^:]` and `.` match whole UTF-8 characters and no invalid byte, and `\s` and `\d` are Unicode classes, is not modelled.
- VsCompiler.Execute: the filter runs as written (`asWritten`), so it has both defects listed under "## Findings" for `src/vs/postprocess.rs`. With the marker binding above, a run without a precompiled header has no marker, and if its output holds no `hdrstop` token as the scanner reads it, `Execute` ends in `FilterFailed`. The contract states this.
- C4628LineIff: the equivalence is with the pattern confined to one line, that is the corrected `[^:\n]*` of the last row under "## Findings". The pattern as written also removes a line without a colon together with the C4628 line after it (`VsCompiler.C4628Spans`); `VsCompiler.MatchEndAtSound` and `VsCompiler.MatchEndAtComplete` state the pattern as written over the whole output.
- RemoveC4628Keeps: it is about the corrected line-by-line removal. The output `"Generating\n (42) : warning C4628: x\n"` holds no C4628 line but is removed whole by the pattern as written; `VsCompiler.ReplaceC4628Keeps`, which `prepare_output` uses, leaves output unchanged exactly when the pattern as written matches nowhere in it.
- Postprocess.FilterPreprocessed: without a marker, an output that holds no `hdrstop` token as read is proved to end in an error, but not which one. When the scan uses up the input the error is `MarkerNotFound`. `#pragma hdrstop` alone (`Postprocess.HdrstopOnlyLine`) meets no other error, but the contract does not say so.
- VsSink.VsPreprocessor.Exec: the worker callback's own error is not modelled. Each hand-over is recorded and succeeds, so the `try!` around the worker calls (src/vs/compiler.rs:140, 170 and 423) never fails in the model.
- VsCompiler.StrangePath: where src/vs/compiler.rs:369 panics in `file_name().unwrap()` on a path with a parent and no file name, the model returns `MissingFileName`, next to `MissingPath` for the panic in `src/vs/postprocess.rs`.
- Paths.FileName: Rust normalises a trailing `/` and a trailing `.` component first, so `file_name("/usr/bin/")` is `bin` and `file_name("foo.txt/.")` is `foo.txt`. The model takes the text after the last `/` as it is and gives None for both.
- Paths.Parent: for the same reason Rust's `parent("/usr/bin/")` is `/usr`, while the model gives `/usr/bin`. The paths `execute` and `create_task` see are file paths without a trailing separator.
- Splitting the installer's manifest into lines and reading it from disk are not modelled; `ReadVersion` takes the lines.
- SipHash itself is not modelled. The model keeps only the sequence of bytes given to the hasher, with `write_usize` as 8 little-endian bytes.
- `discovery_toolchains` (the Windows registry), `vs_identifier` (the Win32 version API) and `get_output_object` are not modelled. Neither are `compile_step` and `compile_memory`, which use temporary files and a compiler process. Of the identifier, only the executable-header reading of `read_executable_id` is modelled.
- `load_arguments` in `src/vs/prepare.rs` is not modelled. It reads response files and calls `cmd::native::parse`, which is not part of this model.
- The `println!` trace in `file_include_paths` (`src/direct/scanner.rs:96`) is not modelled.
- `src/direct/scanner.rs:8` imports `source_includes`, which `src/filter/includes.rs` does not define. The parsed include list of a file is a parameter of the file system model.
- Integers are unbounded. Pointer and `usize` arithmetic cannot overflow for inputs that fit in memory, and no wrap-around is modelled.
- Paths use `/` as their only separator. Windows prefixes, drive letters and `\` separators are not modelled.
- Concurrency, the build server, the FFI stubs and the command-line wrappers are not modelled.
- wixcs/setup.cs `Main` and `BroadcastSettingChange` are not modelled: they are the WixSharp package configuration and a P/Invoke call.

## Findings

| source | as written | input that shows it | evidently intended | confidence | as-written member | corrected member |
|---|---|---|---|---|---|---|
| src/vs/postprocess.rs:440-442 | when the input ends inside a token, `parse_token` returns the whole token buffer instead of the part it filled | `#pragma hdrstop` as the last bytes of the output: the pragma token is the 32-byte buffer and not `hdrstop`, so the header stop is missed | return only the part of the buffer filled so far | not executed | Postprocess.HdrstopOnlyLine | Postprocess.Scanner.Run |
| src/vs/postprocess.rs:463-466 | for an escape inside a path literal, the raw copy records the backslash twice and drops the escaped byte | the literal `"a\tb"`: its raw text becomes `"a\\b"`, and the `#line` written after `#pragma hdrstop` names a different file | copy the backslash and then the escaped byte | not executed | Postprocess.RawEscapeAsWritten | Postprocess.ScanPathOfLiteral |
| src/vs/prepare.rs:63 | the default precompiled header is `with_extension(".pch")`, and Rust's `with_extension` adds its own dot | marker `stdafx.h` gives `stdafx..pch` | `with_extension("pch")`, which gives `stdafx.pch` | not executed | VsPrepare.DefaultPrecompiledDoubleDot | VsPrepare.DefaultPrecompiled |
| src/vs/compiler.rs:565 | in `(?m)^\S+[^:]*\(\d+\) : warning C4628: .*$\n?`, `[^:]*` also matches line feeds, so a match can start on an earlier line | `Generating Code...` followed by `foo.c(42) : warning C4628: x`, each ending in a line feed: both lines are removed | remove only the C4628 line, with `[^:\n]*` | not executed | VsCompiler.C4628Spans | VsCompiler.C4628LineIff |
