/** The clang front end of `src/clang/compiler.rs`: the argument lists of
    the preprocessing and compiling runs, the files a compile produces, and
    the bytes fed to the hasher that keys the cache. */
module ClangCompiler {
  import opened Common
  import opened Paths
  import opened CompilerArgs

  // ---------------------------------------------------------------------
  // Argument lists

  /** The words one argument adds to a run that keeps the scopes `keep`:
      `-flag` for a flag; `-flag` and the value, as two words, for a
      parameter; nothing for inputs, outputs and other scopes. */
  function OptionWords(a: Arg, keep: Scope -> bool): (r: seq<string>)
    ensures |r| <= 2
    ensures r != [] <==> (a.Flag? || a.Param?) && keep(a.scope)
    ensures r != [] ==> r[0] == "-" + a.flag && (|r| == 2 <==> a.Param?) && (a.Param? ==> r[1] == a.value)
  {
    match a
    case Flag(scope, flag) => if keep(scope) then ["-" + flag] else []
    case Param(scope, flag, value) => if keep(scope) then ["-" + flag, value] else []
    case Input(_, _, _) => []
    case Output(_, _, _) => []
  }

  /** The words of all arguments, in order. */
  function OptionList(args: seq<Arg>, keep: Scope -> bool): seq<string> {
    if args == [] then [] else OptionList(args[..|args| - 1], keep) + OptionWords(args[|args| - 1], keep)
  }

  /** Each argument's words sit between those of the arguments before and after it. */
  lemma {:induction false} OptionListConcat(a: seq<Arg>, b: seq<Arg>, keep: Scope -> bool)
    ensures OptionList(a + b, keep) == OptionList(a, keep) + OptionList(b, keep)
    decreases |b|
  {
    if b == [] {
      assert a + b == a;
    } else {
      var b' := b[..|b| - 1];
      assert (a + b)[..|a + b| - 1] == a + b';
      OptionListConcat(a, b', keep);
      ConcatAssoc(OptionList(a, keep), OptionList(b', keep), OptionWords(b[|b| - 1], keep));
    }
  }

  /** Arguments the run does not keep add nothing. */
  lemma {:induction false} OptionListDropped(args: seq<Arg>, keep: Scope -> bool)
    requires forall i :: 0 <= i < |args| ==> !((args[i].Flag? || args[i].Param?) && keep(args[i].scope))
    ensures OptionList(args, keep) == []
  {
    if args != [] {
      OptionListDropped(args[..|args| - 1], keep);
    }
  }

  /** A flag adds one word and a parameter two: the list is as long as the
      kept flags plus twice the kept parameters. */
  function KeptWeight(args: seq<Arg>, keep: Scope -> bool): nat {
    if args == [] then 0
    else
      var a := args[|args| - 1];
      KeptWeight(args[..|args| - 1], keep) + (if a.Flag? && keep(a.scope) then 1 else if a.Param? && keep(a.scope) then 2 else 0)
  }

  lemma {:induction false} OptionListLength(args: seq<Arg>, keep: Scope -> bool)
    ensures |OptionList(args, keep)| == KeptWeight(args, keep)
  {
    if args != [] {
      OptionListLength(args[..|args| - 1], keep);
    }
  }

  /** The loop both steps use to turn the compilation task's arguments into words. */
  method AppendOptions(prefix: seq<string>, args: seq<Arg>, keep: Scope -> bool) returns (r: seq<string>)
    ensures r == prefix + OptionList(args, keep)
  {
    r := prefix;
    for i := 0 to |args|
      invariant r == prefix + OptionList(args[..i], keep)
    {
      OptionListStep(args, i, keep);
      ghost var before := r;
      match args[i] {
        case Flag(scope, flag) =>
          if keep(scope) {
            r := r + ["-" + flag];
          }
        case Param(scope, flag, value) =>
          if keep(scope) {
            r := r + ["-" + flag];
            r := r + [value];
            assert r == before + ["-" + flag, value];
          }
        case Input(_, _, _) =>
        case Output(_, _, _) =>
      }
      assert r == before + OptionWords(args[i], keep);
      ConcatAssoc(prefix, OptionList(args[..i], keep), OptionWords(args[i], keep));
    }
    assert args[..|args|] == args;
  }

  lemma OptionListStep(args: seq<Arg>, i: nat, keep: Scope -> bool)
    requires i < |args|
    ensures OptionList(args[..i + 1], keep) == OptionList(args[..i], keep) + OptionWords(args[i], keep)
  {
    assert args[..i + 1][..i] == args[..i];
  }

  /** The argument list of the preprocessing run. */
  method PreprocessArgs(task: CompilationTask) returns (args: seq<string>)
    ensures args == ["-E", "-x", task.language, "-frewrite-includes"]
      + OptionList(task.args, PreprocessorScope) + [task.inputSource, "-o", "-"]
  {
    args := [];
    args := args + ["-E"];
    args := args + ["-x"];
    args := args + [task.language];
    args := args + ["-frewrite-includes"];
    // Make parameters list for preprocessing.
    args := AppendOptions(args, task.args, PreprocessorScope);
    // Add preprocessor parameters.
    args := args + [task.inputSource];
    args := args + ["-o"];
    args := args + ["-"];
  }

  /** The argument list of the compiling run (before the `-` input and the
      `-o` output the command adds). */
  method CompileArgs(task: CompilationTask) returns (args: seq<string>)
    ensures args == ["-c", "-x", task.language] + OptionList(task.args, CompilerScope)
  {
    args := [];
    args := args + ["-c"];
    args := args + ["-x"];
    args := args + [task.language];
    args := AppendOptions(args, task.args, CompilerScope);
  }

  /** The files a compile produces and the cache stores. */
  method Outputs(task: CompilationTask) returns (outputs: seq<Path>)
    ensures |outputs| >= 1 && outputs[0] == task.outputObject
    ensures |outputs| == 2 <==> task.outputPrecompiled.Some?
    ensures |outputs| <= 2 && (|outputs| == 2 ==> outputs[1] == task.outputPrecompiled.value)
  {
    outputs := [];
    outputs := outputs + [task.outputObject];
    match task.outputPrecompiled {
      case Some(path) =>
        outputs := outputs + [path];
      case None =>
    }
  }

  /** Options go to the runs whose scope they name: a shared option to
      both, an ignored one to neither. */
  lemma ScopeRouting(a: Arg)
    requires a.Flag? || a.Param?
    ensures OptionWords(a, PreprocessorScope) != [] <==> a.scope == Preprocessor || a.scope == Shared
    ensures OptionWords(a, CompilerScope) != [] <==> a.scope == Compiler || a.scope == Shared
  {
  }

  // ---------------------------------------------------------------------
  // Hashing

  const WORD: nat := 0x1_0000_0000_0000_0000

  /** `n` as `k` little-endian bytes (above `256^k` the high part is lost). */
  function LittleEndian(n: nat, k: nat): (r: seq<byte>)
    ensures |r| == k
  {
    if k == 0 then [] else [(n % 256) as byte] + LittleEndian(n / 256, k - 1)
  }

  function FromLittleEndian(b: seq<byte>): nat {
    if b == [] then 0 else b[0] as nat + 256 * FromLittleEndian(b[1..])
  }

  function Pow256(k: nat): nat {
    if k == 0 then 1 else 256 * Pow256(k - 1)
  }

  lemma {:induction false} LittleEndianRoundTrip(n: nat, k: nat)
    requires n < Pow256(k)
    ensures FromLittleEndian(LittleEndian(n, k)) == n
  {
    if k > 0 {
      LittleEndianRoundTrip(n / 256, k - 1);
      assert LittleEndian(n, k)[1..] == LittleEndian(n / 256, k - 1);
    }
  }

  lemma Pow256Eight()
    ensures Pow256(8) == WORD
  {
  }

  /** A hasher, modelled by the bytes fed to it; the SipHash state they
      determine is not modelled. */
  class Hasher {
    var fed: seq<byte>

    constructor ()
      ensures fed == []
    {
      fed := [];
    }

    method Write(bytes: seq<byte>)
      modifies this
      ensures fed == old(fed) + bytes
    {
      fed := fed + bytes;
    }

    /** `write_usize` on a 64-bit little-endian target. */
    method WriteUsize(n: nat)
      modifies this
      ensures fed == old(fed) + LittleEndian(n % WORD, 8)
    {
      fed := fed + LittleEndian(n % WORD, 8);
    }

    /** `write_isize`: the two's complement of `n` on 64 bits. */
    method WriteIsize(n: int)
      modifies this
      ensures fed == old(fed) + LittleEndian(n % WORD, 8)
    {
      fed := fed + LittleEndian(n % WORD, 8);
    }
  }

  /** The frames of the byte strings `words`: each one's length, then its bytes. */
  function Frames(words: seq<seq<byte>>): seq<byte> {
    if words == [] then [] else LittleEndian(|words[0]| % WORD, 8) + words[0] + Frames(words[1..])
  }

  lemma {:induction false} FramesAppend(words: seq<seq<byte>>, w: seq<byte>)
    ensures Frames(words + [w]) == Frames(words) + LittleEndian(|w| % WORD, 8) + w
  {
    if words == [] {
      assert [] + [w] == [w];
      assert Frames([w][1..]) == [];
    } else {
      assert (words + [w])[1..] == words[1..] + [w];
      FramesAppend(words[1..], w);
      var h := LittleEndian(|words[0]| % WORD, 8) + words[0];
      ConcatAssoc(h, Frames(words[1..]), LittleEndian(|w| % WORD, 8) + w);
      ConcatAssoc(h + Frames(words[1..]), LittleEndian(|w| % WORD, 8), w);
      ConcatAssoc(h, Frames(words[1..]) + LittleEndian(|w| % WORD, 8), w);
      ConcatAssoc(h, Frames(words[1..]), LittleEndian(|w| % WORD, 8));
    }
  }

  /** The end of the framing: `write_isize(-1)`. */
  const TERMINATOR: seq<byte> := [0xFF, 0xFF, 0xFF, 0xFF, 0xFF, 0xFF, 0xFF, 0xFF]

  lemma TerminatorBytes()
    ensures LittleEndian(-1 % WORD, 8) == TERMINATOR
    ensures FromLittleEndian(TERMINATOR) == WORD - 1
  {
    var m := WORD - 1;
    assert -1 % WORD == m;
    assert LittleEndian(0xFF, 1) == [0xFF];
    assert LittleEndian(0xFFFF, 2) == [0xFF] + LittleEndian(0xFF, 1);
    assert LittleEndian(0xFF_FFFF, 3) == [0xFF] + LittleEndian(0xFFFF, 2);
    assert LittleEndian(0xFFFF_FFFF, 4) == [0xFF] + LittleEndian(0xFF_FFFF, 3);
    assert LittleEndian(0xFF_FFFF_FFFF, 5) == [0xFF] + LittleEndian(0xFFFF_FFFF, 4);
    assert LittleEndian(0xFFFF_FFFF_FFFF, 6) == [0xFF] + LittleEndian(0xFF_FFFF_FFFF, 5);
    assert LittleEndian(0xFF_FFFF_FFFF_FFFF, 7) == [0xFF] + LittleEndian(0xFFFF_FFFF_FFFF, 6);
    assert LittleEndian(m, 8) == [0xFF] + LittleEndian(0xFF_FFFF_FFFF_FFFF, 7);
    assert TERMINATOR[1..] == [0xFF, 0xFF, 0xFF, 0xFF, 0xFF, 0xFF, 0xFF];
  }

  /** What `hash_args` feeds: a zero byte, the frames, the terminator. */
  function Framing(words: seq<seq<byte>>): seq<byte> {
    [0] + Frames(words) + TERMINATOR
  }

  /** The UTF-8 bytes of each argument. */
  function ArgBytes(args: seq<string>): (r: seq<seq<byte>>)
    ensures |r| == |args| && forall i :: 0 <= i < |args| ==> r[i] == Utf8(args[i])
  {
    seq(|args|, i requires 0 <= i < |args| => Utf8(args[i]))
  }

  /** `hash_args`. */
  method HashArgs(hash: Hasher, args: seq<string>)
    modifies hash
    ensures hash.fed == old(hash.fed) + Framing(ArgBytes(args))
  {
    ghost var start := hash.fed + [0];
    hash.Write([0]);
    for i := 0 to |args|
      invariant hash.fed == start + Frames(ArgBytes(args[..i]))
    {
      var bytes := Utf8(args[i]);
      ghost var f := Frames(ArgBytes(args[..i]));
      ghost var len := LittleEndian(|bytes| % WORD, 8);
      hash.WriteUsize(|bytes|);
      hash.Write(bytes);
      assert ArgBytes(args[..i + 1]) == ArgBytes(args[..i]) + [bytes];
      FramesAppend(ArgBytes(args[..i]), bytes);
      ConcatAssoc(start, f, len);
      ConcatAssoc(start, f + len, bytes);
    }
    assert args[..|args|] == args;
    ghost var f := Frames(ArgBytes(args));
    hash.WriteIsize(-1);
    TerminatorBytes();
    assert hash.fed == (start + f) + TERMINATOR;
    ConcatAssoc(old(hash.fed), [0], f);
    ConcatAssoc(old(hash.fed), [0] + f, TERMINATOR);
  }

  // The framing can be read back, so different argument lists are fed as
  // different byte strings.

  /** No byte string is as long as `isize::MAX` allows, so no length reads
      as the terminator. */
  predicate Framable(words: seq<seq<byte>>) {
    forall i :: 0 <= i < |words| ==> |words[i]| < WORD / 2
  }

  /** Reads frames up to the terminator, which must end the input. */
  function ParseFrames(b: seq<byte>): Option<seq<seq<byte>>>
    decreases |b|
  {
    if |b| < 8 then None
    else
      var n := FromLittleEndian(b[..8]);
      if n == WORD - 1 then (if |b| == 8 then Some([]) else None)
      else if 8 + n > |b| then None
      else match ParseFrames(b[8 + n..])
        case None => None
        case Some(rest) => Some([b[8..8 + n]] + rest)
  }

  function Unframe(b: seq<byte>): Option<seq<seq<byte>>> {
    if b == [] || b[0] != 0 then None else ParseFrames(b[1..])
  }

  /** Reading one frame. */
  lemma ParseFramesStep(w: seq<byte>, rest: seq<byte>)
    requires |w| < WORD / 2
    ensures ParseFrames(LittleEndian(|w| % WORD, 8) + w + rest) ==
      match ParseFrames(rest) case None => None case Some(ws) => Some([w] + ws)
  {
    var len := LittleEndian(|w| % WORD, 8);
    var b := len + w + rest;
    Pow256Eight();
    assert |w| % WORD == |w|;
    LittleEndianRoundTrip(|w|, 8);
    assert FromLittleEndian(len) == |w|;
    assert b[..8] == len;
    assert FromLittleEndian(b[..8]) == |w| != WORD - 1;
    assert b[8..8 + |w|] == w;
    assert b[8 + |w|..] == rest;
  }

  lemma {:induction false} ParseFramesRoundTrip(words: seq<seq<byte>>)
    requires Framable(words)
    ensures ParseFrames(Frames(words) + TERMINATOR) == Some(words)
  {
    if words == [] {
      TerminatorBytes();
      assert Frames(words) + TERMINATOR == TERMINATOR;
      assert TERMINATOR[..8] == TERMINATOR;
    } else {
      var w := words[0];
      var len := LittleEndian(|w| % WORD, 8);
      ParseFramesRoundTrip(words[1..]);
      ParseFramesStep(w, Frames(words[1..]) + TERMINATOR);
      ConcatAssoc(len + w, Frames(words[1..]), TERMINATOR);
      assert [w] + words[1..] == words;
    }
  }

  /** `hash_args` input read back gives the argument bytes. */
  lemma FramingRoundTrip(words: seq<seq<byte>>)
    requires Framable(words)
    ensures Unframe(Framing(words)) == Some(words)
  {
    ParseFramesRoundTrip(words);
    var b := Framing(words);
    ConcatAssoc([0], Frames(words), TERMINATOR);
    assert b == [0] + (Frames(words) + TERMINATOR);
    assert b[1..] == Frames(words) + TERMINATOR;
  }

  lemma FramingInjective(a: seq<seq<byte>>, b: seq<seq<byte>>)
    requires Framable(a) && Framable(b)
    requires Framing(a) == Framing(b)
    ensures a == b
  {
    FramingRoundTrip(a);
    FramingRoundTrip(b);
  }

  // ---------------------------------------------------------------------
  // The two steps

  /** `preprocess_step` given what the preprocessor produced: the argument
      list, and on success the bytes hashed into the preprocessed source's
      key (a zero byte, the framed arguments, the output). */
  method PreprocessStep(task: CompilationTask, stdout: seq<byte>, success: bool)
    returns (args: seq<string>, hashed: Option<seq<byte>>)
    ensures args == ["-E", "-x", task.language, "-frewrite-includes"]
      + OptionList(task.args, PreprocessorScope) + [task.inputSource, "-o", "-"]
    ensures hashed.Some? <==> success
    ensures success ==> hashed.value == [0] + Framing(ArgBytes(args)) + stdout
  {
    args := PreprocessArgs(task);
    // Hash data.
    var hash := new Hasher();
    hash.Write([0]);
    HashArgs(hash, args);
    if success {
      hash.Write(stdout);
      hashed := Some(hash.fed);
    } else {
      hashed := None;
    }
  }

  /** `compile_step` up to the cached run: the argument list, the outputs,
      the command line of the run, and the bytes hashed into the cache key
      (the preprocessed content, then the framed arguments). */
  method CompileStep(task: CompilationTask, content: seq<byte>)
    returns (args: seq<string>, outputs: seq<Path>, commandLine: seq<string>, hashed: seq<byte>)
    ensures args == ["-c", "-x", task.language] + OptionList(task.args, CompilerScope)
    ensures |outputs| >= 1 && outputs[0] == task.outputObject
    ensures |outputs| == 2 <==> task.outputPrecompiled.Some?
    ensures |outputs| <= 2 && (|outputs| == 2 ==> outputs[1] == task.outputPrecompiled.value)
    ensures commandLine == args + ["-", "-o", task.outputObject]
    ensures hashed == content + Framing(ArgBytes(args))
  {
    args := CompileArgs(task);
    // Output files.
    outputs := Outputs(task);
    hashed := CompileKey(content, args);
    commandLine := args + ["-", "-o", task.outputObject];
  }

  /** The bytes of the compile step's cache key. */
  method CompileKey(content: seq<byte>, args: seq<string>) returns (hashed: seq<byte>)
    ensures hashed == content + Framing(ArgBytes(args))
  {
    var hash := new Hasher();
    hash.Write(content);
    HashArgs(hash, args);
    hashed := hash.fed;
  }
}
