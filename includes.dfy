/** The `#include` scanner of `src/filter/includes.rs`: a recursive-descent
    grammar written with nom parser combinators. Every parser takes the
    remaining input and answers Done(rest, value), Error, or Incomplete
    (nom's "more input could change the answer"), with the combinator
    semantics nom gives them: `tag!` is Incomplete on a shorter matching
    prefix, `alt!` returns a branch's Incomplete at once, `many0!` and
    `fold_many0!` stop with Done on empty input or on a failing item, pass an
    Incomplete item on, and fail when an item consumes nothing, and `p?`
    inside `chain!` passes an Incomplete on. */
module Includes {
  import opened Common

  datatype Res<T> = Done(rest: seq<byte>, val: T) | Error | Incomplete

  /** `r` is what is left of `s` after consuming a prefix. */
  predicate Suffix(r: seq<byte>, s: seq<byte>) {
    |r| <= |s| && s[|s| - |r|..] == r
  }

  const STAR: byte := 0x2A
  const LT: byte := 0x3C
  const GT: byte := 0x3E
  const INCLUDE: seq<byte> := [0x69, 0x6E, 0x63, 0x6C, 0x75, 0x64, 0x65]  // "include"
  const BOM: seq<byte> := [0xEF, 0xBB, 0xBF]

  /** An include directive target; `T` is the path type. */
  datatype Include<T> = Quote(path: T) | Bracket(path: T) {
    /** `Include::map`: the same variant around the mapped path. */
    function Map<O>(f: T -> O): (r: Include<O>)
      ensures r.Quote? <==> this.Quote?
      ensures r.path == f(path)
    {
      match this
      case Quote(p) => Quote(f(p))
      case Bracket(p) => Bracket(f(p))
    }
  }

  /** `Display`: the path between `""` or `<>`. */
  function Display(inc: Include<seq<byte>>): seq<byte> {
    match inc
    case Quote(p) => [QUOTE] + p + [QUOTE]
    case Bracket(p) => [LT] + p + [GT]
  }

  /** A path the include parsers can return: no line break and no closing
      delimiter of its variant. */
  predicate ValidInclude(inc: Include<seq<byte>>) {
    CR !in inc.path && LF !in inc.path
    && (inc.Quote? ==> QUOTE !in inc.path)
    && (inc.Bracket? ==> GT !in inc.path)
  }

  // ---------------------------------------------------------------- scanning

  /** Length of the longest prefix of `s` with no byte from `stop`. */
  function SpanNot(s: seq<byte>, stop: set<byte>): (k: nat)
    ensures k <= |s|
    ensures forall i :: 0 <= i < k ==> s[i] !in stop
    ensures k < |s| ==> s[k] in stop
  {
    if s == [] || s[0] in stop then 0 else 1 + SpanNot(s[1..], stop)
  }

  /** Length of the longest prefix of `s` made of bytes from `accept`. */
  function SpanIn(s: seq<byte>, accept: set<byte>): (k: nat)
    ensures k <= |s|
    ensures forall i :: 0 <= i < k ==> s[i] in accept
    ensures k < |s| ==> s[k] !in accept
  {
    if s == [] || s[0] !in accept then 0 else 1 + SpanIn(s[1..], accept)
  }

  lemma {:induction false} SpanNotAppend(p: seq<byte>, t: seq<byte>, stop: set<byte>)
    requires forall i :: 0 <= i < |p| ==> p[i] !in stop
    requires t == [] || t[0] in stop
    ensures SpanNot(p + t, stop) == |p|
    decreases |p|
  {
    if p == [] {
      assert p + t == t;
    } else {
      assert (p + t)[1..] == p[1..] + t;
      SpanNotAppend(p[1..], t, stop);
    }
  }

  // ------------------------------------------------------------- primitives

  /** `tag!(t)`. */
  function Tag(s: seq<byte>, t: seq<byte>): (r: Res<()>)
    ensures r.Done? <==> |s| >= |t| && s[..|t|] == t
    ensures r.Done? ==> r.rest == s[|t|..] && Suffix(r.rest, s)
    ensures r.Incomplete? <==> |s| < |t| && s == t[..|s|]
  {
    if |s| >= |t| then (if s[..|t|] == t then Done(s[|t|..], ()) else Error)
    else if s == t[..|s|] then Incomplete
    else Error
  }

  /** `tag!` of a single byte. */
  function TagByte(s: seq<byte>, b: byte): (r: Res<()>)
    ensures r.Done? <==> s != [] && s[0] == b
    ensures r.Done? ==> r.rest == s[1..] && Suffix(r.rest, s)
    ensures r.Incomplete? <==> s == []
  {
    if s == [] then Incomplete else if s[0] == b then Done(s[1..], ()) else Error
  }

  /** `tag!` of two bytes. */
  function Tag2(s: seq<byte>, a: byte, b: byte): (r: Res<()>)
    ensures r.Done? <==> |s| >= 2 && s[0] == a && s[1] == b
    ensures r.Done? ==> r.rest == s[2..] && Suffix(r.rest, s)
    ensures r.Incomplete? <==> s == [] || (|s| == 1 && s[0] == a)
  {
    if s == [] then Incomplete
    else if s[0] != a then Error
    else if |s| == 1 then Incomplete
    else if s[1] != b then Error
    else Done(s[2..], ())
  }

  /** nom's `eof`: Done only on empty input. */
  function Eof(s: seq<byte>): (r: Res<()>)
    ensures r.Done? <==> s == []
    ensures r.Done? ==> r.rest == s
  {
    if s == [] then Done(s, ()) else Error
  }

  /** nom's `space`: one or more spaces or tabs. */
  function Space(s: seq<byte>): (r: Res<()>)
    ensures r.Done? ==> Suffix(r.rest, s) && |r.rest| < |s|
    ensures r.Incomplete? <==> s == []
    ensures r.Error? <==> s != [] && s[0] != SPACE && s[0] != TAB
  {
    if s == [] then Incomplete
    else
      var k := SpanIn(s, {SPACE, TAB});
      if k == 0 then Error else Done(s[k..], ())
  }

  /** nom's `multispace`: one or more spaces, tabs, CRs or LFs. */
  function MultiSpace(s: seq<byte>): (r: Res<()>)
    ensures r.Done? ==> Suffix(r.rest, s) && |r.rest| < |s|
    ensures r.Incomplete? <==> s == []
    ensures r.Error? <==> s != [] && s[0] !in {SPACE, TAB, CR, LF}
  {
    if s == [] then Incomplete
    else
      var k := SpanIn(s, {SPACE, TAB, CR, LF});
      if k == 0 then Error else Done(s[k..], ())
  }

  /** nom's `not_line_ending`: everything up to the first CR or LF. */
  function NotLineEnding(s: seq<byte>): (r: Res<()>)
    ensures r.Done? && Suffix(r.rest, s)
    ensures r.rest == [] || r.rest[0] == CR || r.rest[0] == LF
  {
    Done(s[SpanNot(s, {CR, LF})..], ())
  }

  /** `take_until_either!(delims)`: the bytes before the first delimiter,
      which is left in the input. */
  function TakeUntilEither(s: seq<byte>, delims: set<byte>): (r: Res<seq<byte>>)
    ensures r.Incomplete? <==> s == []
    ensures r.Done? ==> s == r.val + r.rest && r.rest != [] && r.rest[0] in delims
    ensures r.Done? ==> forall i :: 0 <= i < |r.val| ==> r.val[i] !in delims
    ensures r.Done? ==> Suffix(r.rest, s)
  {
    if s == [] then Incomplete
    else
      var k := SpanNot(s, delims);
      if k == |s| then Error
      else
        assert s == s[..k] + s[k..];
        Done(s[k..], s[..k])
  }

  /** First position of the block-comment terminator (star, slash) in `s`. */
  function FindCommentEnd(s: seq<byte>): (r: Option<nat>)
    ensures r.Some? ==> r.value + 1 < |s| && s[r.value] == STAR && s[r.value + 1] == SLASH
    ensures r.Some? ==> forall i :: 0 <= i < r.value ==> !(s[i] == STAR && s[i + 1] == SLASH)
    ensures r.None? ==> forall i :: 0 <= i < |s| - 1 ==> !(s[i] == STAR && s[i + 1] == SLASH)
  {
    if |s| < 2 then None
    else if s[0] == STAR && s[1] == SLASH then Some(0)
    else match FindCommentEnd(s[1..])
      case None => None
      case Some(i) => Some(i + 1)
  }

  /** `take_until_and_consume!` of the block-comment terminator. */
  function TakeUntilCommentEnd(s: seq<byte>): (r: Res<()>)
    ensures r.Done? ==> Suffix(r.rest, s) && |r.rest| + 2 <= |s|
    ensures r.Incomplete? <==> |s| < 2
  {
    if |s| < 2 then Incomplete
    else match FindCommentEnd(s)
      case Some(i) => Done(s[i + 2..], ())
      case None => Error
  }

  // --------------------------------------------------------------- comments

  /** `comment_one_line`: `//` up to the end of the line. */
  function CommentOneLine(s: seq<byte>): (r: Res<()>)
    ensures r.Done? ==> Suffix(r.rest, s) && |r.rest| + 2 <= |s|
    ensures r.Done? ==> r.rest == [] || r.rest[0] == CR || r.rest[0] == LF
  {
    match Tag2(s, SLASH, SLASH)
    case Done(r1, _) => NotLineEnding(r1)
    case Error => Error
    case Incomplete => Incomplete
  }

  /** `comment_block`: slash-star up to and including the next star-slash. */
  function CommentBlock(s: seq<byte>): (r: Res<()>)
    ensures r.Done? ==> Suffix(r.rest, s) && |r.rest| + 4 <= |s|
  {
    match Tag2(s, SLASH, STAR)
    case Done(r1, _) => TakeUntilCommentEnd(r1)
    case Error => Error
    case Incomplete => Incomplete
  }

  /** One item of `blanks`: `alt!(space | comment_one_line | comment_block)`. */
  function BlankItem(s: seq<byte>): (r: Res<()>)
    ensures r.Done? ==> Suffix(r.rest, s) && |r.rest| < |s|
  {
    match Space(s)
    case Done(r1, _) => Done(r1, ())
    case Incomplete => Incomplete
    case Error =>
      match CommentOneLine(s)
      case Done(r1, _) => Done(r1, ())
      case Incomplete => Incomplete
      case Error => CommentBlock(s)
  }

  /** `blanks`: `many0!` of blank items. */
  function Blanks(s: seq<byte>): (r: Res<()>)
    ensures r.Done? ==> Suffix(r.rest, s)
    decreases |s|
  {
    if s == [] then Done(s, ())
    else match BlankItem(s)
      case Error => Done(s, ())
      case Incomplete => Incomplete
      case Done(r1, _) => if r1 == s then Error else Blanks(r1)
  }

  /** `blanks?` inside `chain!`. */
  function OptBlanks(s: seq<byte>): (r: Res<()>)
    ensures r.Done? ==> Suffix(r.rest, s)
  {
    match Blanks(s)
    case Done(r1, _) => Done(r1, ())
    case Error => Done(s, ())
    case Incomplete => Incomplete
  }

  /** One item of `lines`: `alt!(multispace | comment_one_line | comment_block)`. */
  function LineItem(s: seq<byte>): (r: Res<()>)
    ensures r.Done? ==> Suffix(r.rest, s) && |r.rest| < |s|
  {
    match MultiSpace(s)
    case Done(r1, _) => Done(r1, ())
    case Incomplete => Incomplete
    case Error =>
      match CommentOneLine(s)
      case Done(r1, _) => Done(r1, ())
      case Incomplete => Incomplete
      case Error => CommentBlock(s)
  }

  /** `lines`: `many0!` of line items (white space, line breaks, comments). */
  function Lines(s: seq<byte>): (r: Res<()>)
    ensures r.Done? ==> Suffix(r.rest, s)
    decreases |s|
  {
    if s == [] then Done(s, ())
    else match LineItem(s)
      case Error => Done(s, ())
      case Incomplete => Incomplete
      case Done(r1, _) => if r1 == s then Error else Lines(r1)
  }

  // --------------------------------------------------------------- includes

  lemma PathAvoids(p: seq<byte>, delims: set<byte>)
    requires forall i :: 0 <= i < |p| ==> p[i] !in delims
    ensures forall b :: b in delims ==> b !in p
  {
  }

  lemma SuffixChain(a: seq<byte>, b: seq<byte>, c: seq<byte>)
    requires Suffix(a, b) && Suffix(b, c)
    ensures Suffix(a, c)
  {
    assert c[|c| - |a|..] == c[|c| - |b|..][|b| - |a|..];
  }

  /** `include_quote`: `"path"`. */
  function IncludeQuote(s: seq<byte>): (r: Res<Include<seq<byte>>>)
    ensures r.Done? ==> Suffix(r.rest, s) && r.val.Quote? && ValidInclude(r.val)
  {
    match TagByte(s, QUOTE)
    case Incomplete => Incomplete
    case Error => Error
    case Done(r1, _) =>
      match TakeUntilEither(r1, {CR, LF, QUOTE})
      case Incomplete => Incomplete
      case Error => Error
      case Done(r2, p) =>
        match TagByte(r2, QUOTE)
        case Done(r3, _) =>
          PathAvoids(p, {CR, LF, QUOTE});
          SuffixChain(r3, r2, r1);
          SuffixChain(r3, r1, s);
          Done(r3, Quote(p))
        case Error => Error
        case Incomplete => Incomplete
  }

  /** `include_bracket`: `<path>`. */
  function IncludeBracket(s: seq<byte>): (r: Res<Include<seq<byte>>>)
    ensures r.Done? ==> Suffix(r.rest, s) && r.val.Bracket? && ValidInclude(r.val)
  {
    match TagByte(s, LT)
    case Incomplete => Incomplete
    case Error => Error
    case Done(r1, _) =>
      match TakeUntilEither(r1, {CR, LF, GT})
      case Incomplete => Incomplete
      case Error => Error
      case Done(r2, p) =>
        match TagByte(r2, GT)
        case Done(r3, _) =>
          PathAvoids(p, {CR, LF, GT});
          SuffixChain(r3, r2, r1);
          SuffixChain(r3, r1, s);
          Done(r3, Bracket(p))
        case Error => Error
        case Incomplete => Incomplete
  }

  /** `eol`: `alt!(tag!("\n") | tag!("\r\n"))`. */
  function Eol(s: seq<byte>): (r: Res<()>)
    ensures r.Done? ==> Suffix(r.rest, s) && |r.rest| < |s| && s[|s| - |r.rest| - 1] == LF
    ensures r.Incomplete? <==> s == [] || s == [CR]
  {
    match TagByte(s, LF)
    case Done(r1, _) => Done(r1, ())
    case Incomplete => Incomplete
    case Error => Tag2(s, CR, LF)
  }

  /** `alt!(eol | eof)`. Since `eol` is Incomplete on empty input and `alt!`
      returns that at once, the `eof` branch never succeeds: a Done always
      consumed a line feed. */
  function EolOrEof(s: seq<byte>): (r: Res<()>)
    ensures r.Done? ==> Suffix(r.rest, s) && |r.rest| < |s| && s[|s| - |r.rest| - 1] == LF
    ensures s == [] ==> r.Incomplete?
  {
    match Eol(s)
    case Done(r1, _) => Done(r1, ())
    case Incomplete => Incomplete
    case Error => Eof(s)
  }

  /** `alt!(include_quote | include_bracket)`. */
  function IncludeTarget(s: seq<byte>): (r: Res<Include<seq<byte>>>)
    ensures r.Done? ==> Suffix(r.rest, s) && ValidInclude(r.val)
  {
    match IncludeQuote(s)
    case Done(r1, v) => Done(r1, v)
    case Incomplete => Incomplete
    case Error => IncludeBracket(s)
  }

  /** `include`: the word `include`, optional blanks, the target, optional
      blanks, and a line end. What it accepts always ends with a line feed. */
  function IncludeDirective(s: seq<byte>): (r: Res<Include<seq<byte>>>)
    ensures r.Done? ==> Suffix(r.rest, s) && ValidInclude(r.val)
    ensures r.Done? ==> |r.rest| < |s| && s[|s| - |r.rest| - 1] == LF
  {
    match Tag(s, INCLUDE)
    case Incomplete => Incomplete
    case Error => Error
    case Done(r1, _) =>
      match OptBlanks(r1)
      case Incomplete => Incomplete
      case Error => Error
      case Done(r2, _) =>
        match IncludeTarget(r2)
        case Incomplete => Incomplete
        case Error => Error
        case Done(r3, inc) =>
          match OptBlanks(r3)
          case Incomplete => Incomplete
          case Error => Error
          case Done(r4, _) =>
            match EolOrEof(r4)
            case Done(r5, _) => Done(r5, inc)
            case Error => Error
            case Incomplete => Incomplete
  }

  // ------------------------------------------------------------------- code

  /** `is_not_code_special`: splits at the first CR, LF, `"` or `/`. */
  function IsNotCodeSpecial(s: seq<byte>): (r: Res<()>)
    ensures r.Done? && Suffix(r.rest, s)
    ensures forall i :: 0 <= i < |s| - |r.rest| ==> s[i] !in {CR, LF, QUOTE, SLASH}
    ensures r.rest == [] || r.rest[0] in {CR, LF, QUOTE, SLASH}
  {
    Done(s[SpanNot(s, {CR, LF, QUOTE, SLASH})..], ())
  }

  /** `take_till!(is_quote_special)`: up to the first CR, LF, `"` or `\`. */
  function TakeTillQuoteSpecial(s: seq<byte>): (r: seq<byte>)
    ensures Suffix(r, s)
    ensures r == [] || r[0] in {CR, LF, QUOTE, BACKSLASH}
  {
    s[SpanNot(s, {CR, LF, QUOTE, BACKSLASH})..]
  }

  /** One escape inside a literal: `\`, any one byte, then plain bytes. */
  function EscapeItem(s: seq<byte>): (r: Res<()>)
    ensures r.Done? ==> Suffix(r.rest, s) && |r.rest| + 2 <= |s|
  {
    match TagByte(s, BACKSLASH)
    case Incomplete => Incomplete
    case Error => Error
    case Done(r1, _) =>
      if r1 == [] then Incomplete   // take!(1)
      else Done(TakeTillQuoteSpecial(r1[1..]), ())
  }

  /** `many0!` of escapes. */
  function Escapes(s: seq<byte>): (r: Res<()>)
    ensures r.Done? ==> Suffix(r.rest, s)
    decreases |s|
  {
    if s == [] then Done(s, ())
    else match EscapeItem(s)
      case Error => Done(s, ())
      case Incomplete => Incomplete
      case Done(r1, _) =>
        if r1 == s then Error
        else
          var r := Escapes(r1);
          SuffixTrans(r, r1, s);
          r
  }

  lemma SuffixTrans<T>(r: Res<T>, r1: seq<byte>, s: seq<byte>)
    requires Suffix(r1, s)
    requires r.Done? ==> Suffix(r.rest, r1)
    ensures r.Done? ==> Suffix(r.rest, s)
  {
  }

  /** `code_double_quote`: a string literal with backslash escapes. */
  function CodeDoubleQuote(s: seq<byte>): (r: Res<()>)
    ensures r.Done? ==> Suffix(r.rest, s) && |r.rest| + 2 <= |s|
  {
    match TagByte(s, QUOTE)
    case Incomplete => Incomplete
    case Error => Error
    case Done(r1, _) =>
      match Escapes(TakeTillQuoteSpecial(r1))
      case Incomplete => Incomplete
      case Error => Error
      case Done(r3, _) => TagByte(r3, QUOTE)
  }

  /** `alt!(code_double_quote | comment_one_line | comment_block | tag!("/"))`. */
  function CodeSpecial(s: seq<byte>): (r: Res<()>)
    ensures r.Done? ==> Suffix(r.rest, s) && |r.rest| < |s|
  {
    match CodeDoubleQuote(s)
    case Done(r1, _) => Done(r1, ())
    case Incomplete => Incomplete
    case Error =>
      match CommentOneLine(s)
      case Done(r1, _) => Done(r1, ())
      case Incomplete => Incomplete
      case Error =>
        match CommentBlock(s)
        case Done(r1, _) => Done(r1, ())
        case Incomplete => Incomplete
        case Error => TagByte(s, SLASH)
  }

  /** One item of the `many0!` in `code_line`: a special then plain code. */
  function CodeLineItem(s: seq<byte>): (r: Res<()>)
    ensures r.Done? ==> Suffix(r.rest, s) && |r.rest| < |s|
  {
    match CodeSpecial(s)
    case Done(r1, _) => IsNotCodeSpecial(r1)
    case Error => Error
    case Incomplete => Incomplete
  }

  function CodeLineTail(s: seq<byte>): (r: Res<()>)
    ensures r.Done? ==> Suffix(r.rest, s)
    decreases |s|
  {
    if s == [] then Done(s, ())
    else match CodeLineItem(s)
      case Error => Done(s, ())
      case Incomplete => Incomplete
      case Done(r1, _) => if r1 == s then Error else CodeLineTail(r1)
  }

  /** A special the code-line loop stops at: a line break, or a `"` that
      starts no well-formed literal. */
  lemma CodeLineItemErrorStarts(s: seq<byte>)
    requires s != [] && s[0] in {CR, LF, QUOTE, SLASH}
    requires CodeLineItem(s).Error?
    ensures s[0] in {CR, LF, QUOTE}
  {
  }

  /** `code_line`: plain code, then any run of literals, comments and single
      slashes each followed by plain code. */
  function CodeLine(s: seq<byte>): (r: Res<()>)
    ensures r.Done? ==> Suffix(r.rest, s)
  {
    CodeLineTail(IsNotCodeSpecial(s).rest)
  }

  /** What a code line leaves over starts with CR, LF or an unterminated `"`. */
  lemma CodeLineRest(s: seq<byte>)
    requires CodeLine(s).Done?
    ensures var t := CodeLine(s).rest; t == [] || t[0] in {CR, LF, QUOTE}
  {
    var t := CodeLine(s).rest;
    CodeLineTailStops(IsNotCodeSpecial(s).rest);
    if t != [] {
      CodeLineItemErrorStarts(t);
    }
  }

  /** The loop stops only at a failing item (or the end of the input). */
  lemma {:induction false} CodeLineTailStops(s: seq<byte>)
    requires CodeLineTail(s).Done?
    requires s == [] || s[0] in {CR, LF, QUOTE, SLASH}
    ensures var t := CodeLineTail(s).rest; t == [] || (t[0] in {CR, LF, QUOTE, SLASH} && CodeLineItem(t).Error?)
    decreases |s|
  {
    if s != [] {
      match CodeLineItem(s)
      case Error =>
      case Incomplete =>
      case Done(r1, _) =>
        if r1 != s {
          CodeLineTailStops(r1);
        }
    }
  }

  /** One item of `unknown_directive`: plain code, then end of input, a
      literal, a comment or a single slash. */
  function UnknownItem(s: seq<byte>): (r: Res<()>)
    ensures r.Done? ==> Suffix(r.rest, s)
  {
    var r1 := IsNotCodeSpecial(s).rest;
    match Eof(r1)
    case Done(r2, _) => Done(r2, ())
    case Incomplete => Incomplete
    case Error => CodeSpecial(r1)
  }

  /** `unknown_directive`: `fold_many0!` of unknown items. */
  function UnknownDirective(s: seq<byte>): (r: Res<()>)
    ensures r.Done? ==> Suffix(r.rest, s)
    decreases |s|
  {
    if s == [] then Done(s, ())
    else match UnknownItem(s)
      case Error => Done(s, ())
      case Incomplete => Incomplete
      case Done(r1, _) =>
        if r1 == s then Error
        else
          var r := UnknownDirective(r1);
          SuffixTrans(r, r1, s);
          r
  }

  /** `directive`: `#`, optional blanks, then an include or any other
      directive (which yields None). */
  function Directive(s: seq<byte>): (r: Res<Option<Include<seq<byte>>>>)
    ensures r.Done? ==> Suffix(r.rest, s)
    ensures r.Done? && r.val.Some? ==> ValidInclude(r.val.value)
  {
    match TagByte(s, HASH)
    case Incomplete => Incomplete
    case Error => Error
    case Done(r1, _) =>
      match OptBlanks(r1)
      case Incomplete => Incomplete
      case Error => Error
      case Done(r2, _) =>
        match IncludeDirective(r2)
        case Done(r3, inc) => Done(r3, Some(inc))
        case Incomplete => Incomplete
        case Error =>
          match UnknownDirective(r2)
          case Done(r3, _) => Done(r3, None)
          case Incomplete => Incomplete
          case Error => Error
  }

  /** `alt!(directive | map!(code_line, None))`. */
  function ItemHead(s: seq<byte>): (r: Res<Option<Include<seq<byte>>>>)
    ensures r.Done? ==> Suffix(r.rest, s)
    ensures r.Done? && r.val.Some? ==> ValidInclude(r.val.value)
  {
    match Directive(s)
    case Done(r1, o) => Done(r1, o)
    case Incomplete => Incomplete
    case Error =>
      match CodeLine(s)
      case Done(r1, _) => Done(r1, None)
      case Error => Error
      case Incomplete => Incomplete
  }

  /** One item of the fold in `find_includes`: a directive or a code line,
      then `lines`. */
  function IncludeItem(s: seq<byte>): (r: Res<Option<Include<seq<byte>>>>)
    ensures r.Done? ==> Suffix(r.rest, s)
    ensures r.Done? && r.val.Some? ==> ValidInclude(r.val.value)
  {
    match ItemHead(s)
    case Done(r1, o) =>
      (match Lines(r1)
       case Done(r2, _) => Done(r2, o)
       case Error => Error
       case Incomplete => Incomplete)
    case Error => Error
    case Incomplete => Incomplete
  }

  /** The `fold_many0!` of `find_includes`, accumulating the includes. */
  function FoldIncludes(s: seq<byte>, acc: seq<Include<seq<byte>>>): (r: Res<seq<Include<seq<byte>>>>)
    ensures r.Done? ==> Suffix(r.rest, s)
    ensures r.Done? ==> |r.val| >= |acc| && r.val[..|acc|] == acc
    ensures r.Done? && (forall i :: 0 <= i < |acc| ==> ValidInclude(acc[i])) ==>
              forall i :: 0 <= i < |r.val| ==> ValidInclude(r.val[i])
    decreases |s|
  {
    if s == [] then Done(s, acc)
    else match IncludeItem(s)
      case Error => Done(s, acc)
      case Incomplete => Incomplete
      case Done(r1, o) =>
        if r1 == s then Error
        else
          var acc' := acc + (if o.Some? then [o.value] else []);
          AccumulatorGrows(acc, o);
          var r := FoldIncludes(r1, acc');
          if r.Done? then
            PrefixChain(r.val, acc, acc');
            SuffixChain(r.rest, r1, s);
            r
          else r
  }

  /** Adding the include of one item keeps what was collected before. */
  lemma AccumulatorGrows(acc: seq<Include<seq<byte>>>, o: Option<Include<seq<byte>>>)
    requires o.Some? ==> ValidInclude(o.value)
    ensures var acc' := acc + (if o.Some? then [o.value] else []);
      && |acc'| >= |acc| && acc'[..|acc|] == acc
      && ((forall i :: 0 <= i < |acc| ==> ValidInclude(acc[i])) ==> forall i :: 0 <= i < |acc'| ==> ValidInclude(acc'[i]))
  {
    var acc' := acc + (if o.Some? then [o.value] else []);
    assert acc'[..|acc|] == acc;
  }

  lemma PrefixChain<T>(v: seq<T>, a: seq<T>, b: seq<T>)
    requires |v| >= |b| && v[..|b|] == b && |b| >= |a| && b[..|a|] == a
    ensures v[..|a|] == a
  {
    assert v[..|a|] == v[..|b|][..|a|];
  }

  function WithBom(r: Res<seq<Include<seq<byte>>>>, bom: bool): (r': Res<(bool, seq<Include<seq<byte>>>)>)
    ensures r'.Done? <==> r.Done?
    ensures r'.Done? ==> r'.rest == r.rest && r'.val == (bom, r.val)
    ensures r'.Incomplete? <==> r.Incomplete?
  {
    match r
    case Done(rest, incs) => Done(rest, (bom, incs))
    case Error => Error
    case Incomplete => Incomplete
  }

  /** The part of `find_includes` after the byte-order mark: `lines`, then
      the fold. */
  function Scan(s: seq<byte>, bom: bool): (r: Res<(bool, seq<Include<seq<byte>>>)>)
    ensures r.Done? ==> Suffix(r.rest, s) && r.val.0 == bom
    ensures r.Done? ==> forall i :: 0 <= i < |r.val.1| ==> ValidInclude(r.val.1[i])
  {
    match Lines(s)
    case Done(r1, _) => WithBom(FoldIncludes(r1, []), bom)
    case Error => Error
    case Incomplete => Incomplete
  }

  /** `find_includes`: whether the input starts with a UTF-8 byte-order
      mark, and the includes in input order. Every reported path has no
      line break and no closing delimiter. */
  function FindIncludes(s: seq<byte>): (r: Res<(bool, seq<Include<seq<byte>>>)>)
    ensures r.Done? ==> Suffix(r.rest, s)
    ensures r.Done? ==> (r.val.0 <==> |s| >= 3 && s[..3] == BOM)
    ensures r.Done? ==> forall i :: 0 <= i < |r.val.1| ==> ValidInclude(r.val.1[i])
  {
    match Tag(s, BOM)
    case Done(r1, _) => Scan(r1, true)
    case Error => Scan(s, false)
    case Incomplete => Incomplete
  }

  // ------------------------------------------------------------- properties

  /** One rendered include line: `#include "path"` or `#include <path>`. */
  function RenderInclude(inc: Include<seq<byte>>): seq<byte> {
    [HASH] + INCLUDE + [SPACE] + Display(inc) + [LF]
  }

  /** A source made of include lines only. */
  function Render(incs: seq<Include<seq<byte>>>): seq<byte> {
    if incs == [] then [] else RenderInclude(incs[0]) + Render(incs[1..])
  }

  lemma RenderStart(incs: seq<Include<seq<byte>>>)
    ensures Render(incs) == [] || Render(incs)[0] == HASH
    ensures incs != [] ==> Render(incs) != []
  {
  }

  lemma TagPrefix(t: seq<byte>, x: seq<byte>)
    ensures Tag(t + x, t) == Done(x, ())
  {
    assert (t + x)[..|t|] == t;
    assert (t + x)[|t|..] == x;
  }

  /** Blanks stop at once before anything but a space, a tab or a slash. */
  lemma BlanksStop(s: seq<byte>)
    requires s != [] && s[0] != SPACE && s[0] != TAB && s[0] != SLASH
    ensures Blanks(s) == Done(s, ()) && OptBlanks(s) == Done(s, ())
  {
  }

  /** `lines` stops at once at the end of input or before anything but
      white space and a slash. */
  lemma LinesStop(s: seq<byte>)
    requires s == [] || s[0] !in {SPACE, TAB, CR, LF, SLASH}
    ensures Lines(s) == Done(s, ())
  {
  }

  lemma OneSpace(x: seq<byte>)
    requires x != [] && x[0] != SPACE && x[0] != TAB && x[0] != SLASH
    ensures OptBlanks([SPACE] + x) == Done(x, ())
  {
    var s := [SPACE] + x;
    assert s[1..] == x;
    assert SpanIn(s, {SPACE, TAB}) == 1 by {
      assert SpanIn(s[1..], {SPACE, TAB}) == 0;
    }
    BlanksStop(x);
  }

  /** `include_quote` reads back what `Display` writes for a quoted include. */
  lemma IncludeQuoteDisplay(p: seq<byte>, u: seq<byte>)
    requires ValidInclude(Quote(p))
    ensures IncludeQuote(Display(Quote(p)) + u) == Done(u, Quote(p))
  {
    var s := Display(Quote(p)) + u;
    var r1 := p + ([QUOTE] + u);
    assert s[1..] == r1;
    SpanNotAppend(p, [QUOTE] + u, {CR, LF, QUOTE});
    assert r1[..|p|] == p && r1[|p|..] == [QUOTE] + u;
    assert ([QUOTE] + u)[1..] == u;
  }

  /** `include_bracket` reads back what `Display` writes for a bracketed include. */
  lemma IncludeBracketDisplay(p: seq<byte>, u: seq<byte>)
    requires ValidInclude(Bracket(p))
    ensures IncludeBracket(Display(Bracket(p)) + u) == Done(u, Bracket(p))
  {
    var s := Display(Bracket(p)) + u;
    var r1 := p + ([GT] + u);
    assert s[1..] == r1;
    SpanNotAppend(p, [GT] + u, {CR, LF, GT});
    assert r1[..|p|] == p && r1[|p|..] == [GT] + u;
    assert ([GT] + u)[1..] == u;
  }

  /** `Display` is inverted by the target parser, for every valid include. */
  lemma IncludeTargetDisplay(inc: Include<seq<byte>>, u: seq<byte>)
    requires ValidInclude(inc)
    ensures IncludeTarget(Display(inc) + u) == Done(u, inc)
  {
    match inc
    case Quote(p) => IncludeQuoteDisplay(p, u);
    case Bracket(p) =>
      IncludeBracketDisplay(p, u);
      assert (Display(inc) + u)[0] == LT;
  }

  lemma EolLineFeed(t: seq<byte>)
    ensures EolOrEof([LF] + t) == Done(t, ())
  {
    assert ([LF] + t)[1..] == t;
  }

  /** The `include` parser accepts `include <path>` followed by a line feed. */
  lemma IncludeDirectiveDisplay(inc: Include<seq<byte>>, t: seq<byte>)
    requires ValidInclude(inc)
    ensures IncludeDirective(INCLUDE + ([SPACE] + (Display(inc) + ([LF] + t)))) == Done(t, inc)
  {
    var d := Display(inc) + ([LF] + t);
    TagPrefix(INCLUDE, [SPACE] + d);
    assert d[0] == QUOTE || d[0] == LT;
    OneSpace(d);
    IncludeTargetDisplay(inc, [LF] + t);
    BlanksStop([LF] + t);
    EolLineFeed(t);
  }

  lemma RenderIncludeShape(inc: Include<seq<byte>>, t: seq<byte>)
    ensures RenderInclude(inc) + t == [HASH] + (INCLUDE + ([SPACE] + (Display(inc) + ([LF] + t))))
  {
  }

  /** A rendered include line is one include directive. */
  lemma DirectiveRender(inc: Include<seq<byte>>, t: seq<byte>)
    requires ValidInclude(inc)
    ensures Directive(RenderInclude(inc) + t) == Done(t, Some(inc))
  {
    var x := INCLUDE + ([SPACE] + (Display(inc) + ([LF] + t)));
    RenderIncludeShape(inc, t);
    assert ([HASH] + x)[1..] == x;
    BlanksStop(x);
    IncludeDirectiveDisplay(inc, t);
  }

  lemma IncludeItemRender(inc: Include<seq<byte>>, t: seq<byte>)
    requires ValidInclude(inc)
    requires t == [] || t[0] == HASH
    ensures IncludeItem(RenderInclude(inc) + t) == Done(t, Some(inc))
  {
    DirectiveRender(inc, t);
    LinesStop(t);
  }

  /** No byte-order mark: the scan starts at the first byte. */
  lemma NoBom(s: seq<byte>)
    requires s != [] && s[0] != 0xEF
    ensures FindIncludes(s) == Scan(s, false)
  {
    assert !(|s| >= 3 && s[..3] == BOM) by {
      if |s| >= 3 { assert s[..3][0] == s[0]; }
    }
  }

  lemma ScanStop(s: seq<byte>, bom: bool)
    requires s == [] || s[0] !in {SPACE, TAB, CR, LF, SLASH}
    ensures Scan(s, bom) == WithBom(FoldIncludes(s, []), bom)
  {
    LinesStop(s);
  }

  /** One trip of the fold that consumed input. */
  lemma FoldStep(s: seq<byte>, acc: seq<Include<seq<byte>>>)
    requires s != [] && IncludeItem(s).Done? && IncludeItem(s).rest != s
    ensures FoldIncludes(s, acc) ==
      FoldIncludes(IncludeItem(s).rest, acc + (if IncludeItem(s).val.Some? then [IncludeItem(s).val.value] else []))
  {
  }

  /** One trip of the fold over a line without an include. */
  lemma FoldSkip(s: seq<byte>, r: seq<byte>, acc: seq<Include<seq<byte>>>)
    requires s != [] && IncludeItem(s) == Done(r, None) && r != s
    ensures FoldIncludes(s, acc) == FoldIncludes(r, acc)
  {
    assert acc + [] == acc;
  }

  lemma FoldIncomplete(s: seq<byte>, acc: seq<Include<seq<byte>>>)
    requires s != [] && IncludeItem(s).Incomplete?
    ensures FoldIncludes(s, acc).Incomplete?
  {
  }

  lemma {:induction false} FoldRender(incs: seq<Include<seq<byte>>>, acc: seq<Include<seq<byte>>>)
    requires forall i :: 0 <= i < |incs| ==> ValidInclude(incs[i])
    ensures FoldIncludes(Render(incs), acc) == Done([], acc + incs)
    decreases |incs|
  {
    if incs == [] {
      assert acc + incs == acc;
    } else {
      var t := Render(incs[1..]);
      RenderStart(incs[1..]);
      IncludeItemRender(incs[0], t);
      FoldStep(Render(incs), acc);
      FoldRender(incs[1..], acc + [incs[0]]);
      ConsSplit(acc, incs);
    }
  }

  lemma ConsSplit<T>(acc: seq<T>, s: seq<T>)
    requires |s| > 0
    ensures acc + [s[0]] + s[1..] == acc + s
  {
    assert s == [s[0]] + s[1..];
  }

  /** Round trip: a source of include lines yields exactly those includes, in
      order, and no byte-order mark. */
  lemma FindIncludesRender(incs: seq<Include<seq<byte>>>)
    requires incs != []
    requires forall i :: 0 <= i < |incs| ==> ValidInclude(incs[i])
    ensures FindIncludes(Render(incs)) == Done([], (false, incs))
  {
    var s := Render(incs);
    RenderStart(incs);
    NoBom(s);
    ScanStop(s, false);
    FoldRender(incs, []);
  }

  /** Round trip behind a byte-order mark, which is reported. */
  lemma FindIncludesBomRender(incs: seq<Include<seq<byte>>>)
    requires forall i :: 0 <= i < |incs| ==> ValidInclude(incs[i])
    ensures FindIncludes(BOM + Render(incs)) == Done([], (true, incs))
  {
    TagPrefix(BOM, Render(incs));
    RenderStart(incs);
    ScanStop(Render(incs), true);
    FoldRender(incs, []);
  }

  /** Empty input: the optional byte-order mark already asks for more input. */
  lemma FindIncludesEmpty()
    ensures FindIncludes([]).Incomplete?
  {
  }

  /** An include on the last line, without a line feed, makes the whole scan
      Incomplete: `alt!(eol | eof)` returns `eol`'s Incomplete. */
  lemma {:induction false} IncludeAtEndOfInput(inc: Include<seq<byte>>)
    requires ValidInclude(inc)
    ensures FindIncludes([HASH] + INCLUDE + [SPACE] + Display(inc)).Incomplete?
  {
    var s := [HASH] + (INCLUDE + ([SPACE] + Display(inc)));
    assert [HASH] + INCLUDE + [SPACE] + Display(inc) == s;
    DirectiveAtEndOfInput(inc);
    FoldIncomplete(s, []);
    NoBom(s);
    ScanStop(s, false);
  }

  lemma DirectiveAtEndOfInput(inc: Include<seq<byte>>)
    requires ValidInclude(inc)
    ensures IncludeItem([HASH] + (INCLUDE + ([SPACE] + Display(inc)))).Incomplete?
  {
    var x := INCLUDE + ([SPACE] + Display(inc));
    assert ([HASH] + x)[1..] == x;
    BlanksStop(x);
    IncludeDirectiveAtEnd(inc);
  }

  lemma IncludeDirectiveAtEnd(inc: Include<seq<byte>>)
    requires ValidInclude(inc)
    ensures IncludeDirective(INCLUDE + ([SPACE] + Display(inc))).Incomplete?
  {
    var d := Display(inc);
    TagPrefix(INCLUDE, [SPACE] + d);
    assert d[0] == QUOTE || d[0] == LT;
    OneSpace(d);
    IncludeTargetDisplay(inc, []);
    assert d + [] == d;
  }

  /** A line comment is skipped by `lines`. */
  lemma LinesLineComment(c: seq<byte>, t: seq<byte>)
    requires CR !in c && LF !in c
    requires t != [] && (t[0] == CR || t[0] == LF)
    ensures Lines([SLASH, SLASH] + c + t) == Lines(t)
  {
    var s := [SLASH, SLASH] + c + t;
    assert s[2..] == c + t;
    SpanNotAppend(c, t, {CR, LF});
    assert (c + t)[|c|..] == t;
    assert LineItem(s) == Done(t, ());
  }

  /** No `*` `/` pair lies inside `c`. */
  predicate NoCommentEnd(c: seq<byte>) {
    forall i :: 0 <= i < |c| - 1 ==> !(c[i] == STAR && c[i + 1] == SLASH)
  }

  lemma {:induction false} FindCommentEndAppend(c: seq<byte>, t: seq<byte>)
    requires NoCommentEnd(c)
    ensures FindCommentEnd(c + [STAR, SLASH] + t) == Some(|c|)
    decreases |c|
  {
    var s := c + [STAR, SLASH] + t;
    if c != [] {
      assert s[1..] == c[1..] + [STAR, SLASH] + t;
      FindCommentEndAppend(c[1..], t);
      assert !(s[0] == STAR && s[1] == SLASH) by {
        if |c| == 1 { assert s[1] == STAR; } else { assert s[1] == c[1]; }
      }
    }
  }

  /** A block comment is skipped by `lines`. */
  lemma LinesBlockComment(c: seq<byte>, t: seq<byte>)
    requires NoCommentEnd(c)
    requires t != []
    ensures Lines([SLASH, STAR] + c + [STAR, SLASH] + t) == Lines(t)
  {
    var s := [SLASH, STAR] + c + [STAR, SLASH] + t;
    var r := c + [STAR, SLASH] + t;
    assert s[2..] == r;
    FindCommentEndAppend(c, t);
    assert r[|c| + 2..] == t;
    assert LineItem(s) == Done(t, ());
  }

  /** A leading line comment (which may hold a directive) changes nothing. */
  lemma FindIncludesLineComment(c: seq<byte>, t: seq<byte>)
    requires CR !in c && LF !in c
    requires t != [] && (t[0] == CR || t[0] == LF)
    ensures FindIncludes([SLASH, SLASH] + c + t) == FindIncludes(t)
  {
    LinesLineComment(c, t);
    NoBom([SLASH, SLASH] + c + t);
    NoBom(t);
  }

  /** A leading block comment (which may hold directives) changes nothing. */
  lemma FindIncludesBlockComment(c: seq<byte>, t: seq<byte>)
    requires NoCommentEnd(c)
    requires t != [] && t[0] != 0xEF
    ensures FindIncludes([SLASH, STAR] + c + [STAR, SLASH] + t) == FindIncludes(t)
  {
    LinesBlockComment(c, t);
    NoBom([SLASH, STAR] + c + [STAR, SLASH] + t);
    NoBom(t);
  }

  /** A line feed before a directive is skipped by `lines`. */
  lemma LinesLineFeed(t: seq<byte>)
    requires t != [] && t[0] == HASH
    ensures Lines([LF] + t) == Done(t, ())
  {
    var s := [LF] + t;
    assert s[1..] == t;
    assert SpanIn(s, {SPACE, TAB, CR, LF}) == 1 by {
      assert SpanIn(s[1..], {SPACE, TAB, CR, LF}) == 0;
    }
    assert LineItem(s) == Done(t, ());
    LinesStop(t);
  }

  /** A rendered include line followed by anything `lines` accepts. */
  lemma IncludeItemRenderLines(inc: Include<seq<byte>>, t: seq<byte>)
    requires ValidInclude(inc) && Lines(t).Done?
    ensures IncludeItem(RenderInclude(inc) + t) == Done(Lines(t).rest, Some(inc))
  {
    DirectiveRender(inc, t);
  }

  /** The fold over include lines followed by `t`: once the lines are
      folded, `lines` runs on `t` and the fold goes on where it stops. */
  lemma {:induction false} FoldRenderThen(a: seq<Include<seq<byte>>>, t: seq<byte>, acc: seq<Include<seq<byte>>>)
    requires a != []
    requires forall i :: 0 <= i < |a| ==> ValidInclude(a[i])
    requires Lines(t).Done?
    ensures FoldIncludes(Render(a) + t, acc) == FoldIncludes(Lines(t).rest, acc + a)
    decreases |a|
  {
    var rest := Render(a[1..]) + t;
    ConcatAssoc(RenderInclude(a[0]), Render(a[1..]), t);
    if |a| == 1 {
      EmptySplit(t);
      FoldGapLast(a[0], t, acc);
      SingleSplit(acc, a);
    } else {
      RenderStart(a[1..]);
      FoldGapHead(a[0], rest, acc);
      FoldRenderThen(a[1..], t, acc + [a[0]]);
      ConsSplit(acc, a);
    }
  }

  /** The last include line before `t`. */
  lemma FoldGapLast(x: Include<seq<byte>>, t: seq<byte>, acc: seq<Include<seq<byte>>>)
    requires ValidInclude(x) && Lines(t).Done?
    ensures FoldIncludes(RenderInclude(x) + t, acc) == FoldIncludes(Lines(t).rest, acc + [x])
  {
    IncludeItemRenderLines(x, t);
    assert |Lines(t).rest| <= |t|;
    FoldFrom(RenderInclude(x) + t, Lines(t).rest, x, acc);
  }

  /** An include line before more include lines. */
  lemma FoldGapHead(x: Include<seq<byte>>, rest: seq<byte>, acc: seq<Include<seq<byte>>>)
    requires ValidInclude(x) && rest != [] && rest[0] == HASH
    ensures FoldIncludes(RenderInclude(x) + rest, acc) == FoldIncludes(rest, acc + [x])
  {
    IncludeItemRender(x, rest);
    FoldFrom(RenderInclude(x) + rest, rest, x, acc);
  }

  lemma SingleSplit<T>(acc: seq<T>, s: seq<T>)
    requires |s| == 1
    ensures acc + [s[0]] == acc + s
  {
    assert s == [s[0]];
  }

  lemma EmptySplit<T>(s: seq<T>)
    ensures [] + s == s
  {
  }

  /** One trip of the fold over a rendered include line. */
  lemma FoldFrom(s: seq<byte>, r: seq<byte>, inc: Include<seq<byte>>, acc: seq<Include<seq<byte>>>)
    requires |r| < |s| && IncludeItem(s) == Done(r, Some(inc))
    ensures FoldIncludes(s, acc) == FoldIncludes(r, acc + [inc])
  {
  }

  /** Include lines, a gap `m` that `lines` skips up to more include lines,
      and the other include lines. */
  lemma FindIncludesGap(a: seq<Include<seq<byte>>>, m: seq<byte>, b: seq<Include<seq<byte>>>)
    requires a != []
    requires forall i :: 0 <= i < |a| ==> ValidInclude(a[i])
    requires forall i :: 0 <= i < |b| ==> ValidInclude(b[i])
    requires Lines(m + Render(b)) == Done(Render(b), ())
    ensures FindIncludes(Render(a) + m + Render(b)) == Done([], (false, a + b))
  {
    var s := Render(a) + m + Render(b);
    ConcatAssoc(Render(a), m, Render(b));
    FoldRenderThen(a, m + Render(b), []);
    EmptySplit(a);
    FoldRender(b, a);
    RenderStart(a);
    assert s[0] == Render(a)[0];
    NoBom(s);
    ScanStop(s, false);
  }

  /** A line comment between include lines (it may hold a directive) is
      skipped: exactly the includes of the lines around it are reported. */
  lemma FindIncludesLineCommentBetween(a: seq<Include<seq<byte>>>, c: seq<byte>, b: seq<Include<seq<byte>>>)
    requires a != [] && b != []
    requires forall i :: 0 <= i < |a| ==> ValidInclude(a[i])
    requires forall i :: 0 <= i < |b| ==> ValidInclude(b[i])
    requires CR !in c && LF !in c
    ensures FindIncludes(Render(a) + ([SLASH, SLASH] + c + [LF]) + Render(b)) == Done([], (false, a + b))
  {
    var m := [SLASH, SLASH] + c + [LF];
    RenderStart(b);
    LinesLineComment(c, [LF] + Render(b));
    assert m + Render(b) == [SLASH, SLASH] + c + ([LF] + Render(b));
    LinesLineFeed(Render(b));
    FindIncludesGap(a, m, b);
  }

  /** A block comment between include lines (it may hold directives) is
      skipped: exactly the includes of the lines around it are reported. */
  lemma FindIncludesBlockCommentBetween(a: seq<Include<seq<byte>>>, c: seq<byte>, b: seq<Include<seq<byte>>>)
    requires a != [] && b != []
    requires forall i :: 0 <= i < |a| ==> ValidInclude(a[i])
    requires forall i :: 0 <= i < |b| ==> ValidInclude(b[i])
    requires NoCommentEnd(c)
    ensures FindIncludes(Render(a) + ([SLASH, STAR] + c + [STAR, SLASH, LF]) + Render(b)) == Done([], (false, a + b))
  {
    var m := [SLASH, STAR] + c + [STAR, SLASH, LF];
    RenderStart(b);
    LinesBlockComment(c, [LF] + Render(b));
    var q := [SLASH, STAR] + c + [STAR, SLASH];
    assert [STAR, SLASH, LF] == [STAR, SLASH] + [LF];
    ConcatAssoc([SLASH, STAR] + c, [STAR, SLASH], [LF]);
    ConcatAssoc(q, [LF], Render(b));
    LinesLineFeed(Render(b));
    FindIncludesGap(a, m, b);
  }

  // ---------------------------------------------------------- code and literals

  /** Bytes of a string literal that need no escape. */
  predicate PlainLiteral(p: seq<byte>) {
    CR !in p && LF !in p && QUOTE !in p && BACKSLASH !in p
  }

  /** Bytes of code that the code scanner skips outright. */
  predicate PlainCode(p: seq<byte>) {
    CR !in p && LF !in p && QUOTE !in p && SLASH !in p
  }

  /** Escapes (a backslash and any byte), each followed by plain literal bytes. */
  function EscapedBody(es: seq<(byte, seq<byte>)>): seq<byte> {
    if es == [] then [] else [BACKSLASH, es[0].0] + es[0].1 + EscapedBody(es[1..])
  }

  lemma EscapeItemStep(x: byte, p: seq<byte>, rest: seq<byte>)
    requires PlainLiteral(p)
    requires rest != [] && (rest[0] == BACKSLASH || rest[0] == QUOTE)
    ensures EscapeItem([BACKSLASH, x] + (p + rest)) == Done(rest, ())
  {
    var s := [BACKSLASH, x] + (p + rest);
    assert s[1..][1..] == p + rest;
    TakeTillAppend(p, rest);
  }

  /** The plain bytes of a literal are skipped up to the next special byte. */
  lemma TakeTillAppend(p: seq<byte>, rest: seq<byte>)
    requires PlainLiteral(p)
    requires rest == [] || rest[0] in {CR, LF, QUOTE, BACKSLASH}
    ensures TakeTillQuoteSpecial(p + rest) == rest
  {
    SpanNotAppend(p, rest, {CR, LF, QUOTE, BACKSLASH});
    assert (p + rest)[|p|..] == rest;
  }

  lemma TagByteCons(b: byte, x: seq<byte>)
    ensures TagByte([b] + x, b) == Done(x, ())
  {
    assert ([b] + x)[1..] == x;
  }

  lemma EscapesStep(s: seq<byte>)
    requires s != [] && EscapeItem(s).Done? && EscapeItem(s).rest != s
    ensures Escapes(s) == Escapes(EscapeItem(s).rest)
  {
  }

  lemma EscapedBodyShape(es: seq<(byte, seq<byte>)>, u: seq<byte>)
    requires es != []
    ensures EscapedBody(es) + u == [BACKSLASH, es[0].0] + (es[0].1 + (EscapedBody(es[1..]) + u))
  {
  }

  lemma {:induction false} EscapesBody(es: seq<(byte, seq<byte>)>, u: seq<byte>)
    requires forall i :: 0 <= i < |es| ==> PlainLiteral(es[i].1)
    requires u != [] && u[0] == QUOTE
    ensures Escapes(EscapedBody(es) + u) == Done(u, ())
    decreases |es|
  {
    if es == [] {
      assert EscapedBody(es) + u == u;
    } else {
      EscapesBodyStep(es, u);
      EscapesBody(es[1..], u);
    }
  }

  /** The escapes loop takes the first escape and its plain bytes. */
  lemma EscapesBodyStep(es: seq<(byte, seq<byte>)>, u: seq<byte>)
    requires es != [] && PlainLiteral(es[0].1)
    requires u != [] && u[0] == QUOTE
    ensures Escapes(EscapedBody(es) + u) == Escapes(EscapedBody(es[1..]) + u)
  {
    var rest := EscapedBody(es[1..]) + u;
    EscapedBodyShape(es, u);
    EscapedBodyStart(es[1..], u);
    EscapeItemStep(es[0].0, es[0].1, rest);
    EscapesStep(EscapedBody(es) + u);
  }

  lemma EscapedBodyStart(es: seq<(byte, seq<byte>)>, u: seq<byte>)
    requires u != [] && u[0] == QUOTE
    ensures (EscapedBody(es) + u)[0] == BACKSLASH || (EscapedBody(es) + u)[0] == QUOTE
  {
  }

  /** A literal: plain bytes `p`, then `b`, whose escapes end at the closing quote. */
  lemma CodeDoubleQuoteOf(p: seq<byte>, b: seq<byte>, t: seq<byte>)
    requires PlainLiteral(p)
    requires b != [] && (b[0] == BACKSLASH || b[0] == QUOTE)
    requires Escapes(b) == Done([QUOTE] + t, ())
    ensures CodeDoubleQuote([QUOTE] + (p + b)) == Done(t, ())
  {
    TagByteCons(QUOTE, p + b);
    TakeTillAppend(p, b);
    TagByteCons(QUOTE, t);
  }

  /** `code_double_quote` accepts a literal with escapes, which may escape
      any byte, a quote or a line break included. */
  lemma CodeDoubleQuoteAccepts(p: seq<byte>, es: seq<(byte, seq<byte>)>, t: seq<byte>)
    requires PlainLiteral(p)
    requires forall i :: 0 <= i < |es| ==> PlainLiteral(es[i].1)
    ensures CodeDoubleQuote([QUOTE] + (p + (EscapedBody(es) + ([QUOTE] + t)))) == Done(t, ())
  {
    var u := [QUOTE] + t;
    var b := EscapedBody(es) + u;
    assert b[0] == BACKSLASH || b[0] == QUOTE;
    EscapesBody(es, u);
    CodeDoubleQuoteOf(p, b, t);
  }

  /** A raw line break ends a literal with an error. */
  lemma CodeDoubleQuoteLineBreak(p: seq<byte>, t: seq<byte>)
    requires PlainLiteral(p)
    ensures CodeDoubleQuote([QUOTE] + p + [LF] + t).Error?
  {
    var u := [LF] + t;
    assert [QUOTE] + p + [LF] + t == [QUOTE] + (p + u);
    TagByteCons(QUOTE, p + u);
    TakeTillAppend(p, u);
  }

  /** A literal cut off by the end of input asks for more input. */
  lemma CodeDoubleQuoteUnterminated(p: seq<byte>)
    requires PlainLiteral(p)
    ensures CodeDoubleQuote([QUOTE] + p).Incomplete?
  {
    TagByteCons(QUOTE, p);
    assert p + [] == p;
    TakeTillAppend(p, []);
  }

  /** Before a line break (or the end), nothing is special. */
  lemma CodeLineTailStop(t: seq<byte>)
    requires t == [] || t[0] == CR || t[0] == LF
    ensures CodeLineTail(t) == Done(t, ())
  {
  }

  /** Plain code runs up to the line break, which is left over. */
  lemma CodeLinePlain(c: seq<byte>, t: seq<byte>)
    requires PlainCode(c)
    requires t == [] || t[0] == CR || t[0] == LF
    ensures CodeLine(c + t) == Done(t, ())
  {
    SpanNotAppend(c, t, {CR, LF, QUOTE, SLASH});
    assert (c + t)[|c|..] == t;
    CodeLineTailStop(t);
  }

  /** A single slash (a division) is part of the code line. */
  lemma CodeLineDivision(a: seq<byte>, b: seq<byte>, t: seq<byte>)
    requires PlainCode(a) && PlainCode(b)
    requires b != [] && b[0] != STAR
    requires t == [] || t[0] == CR || t[0] == LF
    ensures CodeLine(a + [SLASH] + b + t) == Done(t, ())
  {
    var r := [SLASH] + (b + t);
    assert a + [SLASH] + b + t == a + r;
    CodeLineAfterPlain(a, r);
    CodeSpecialSlash(b + t);
    SpanNotAppend(b, t, {CR, LF, QUOTE, SLASH});
    assert (b + t)[|b|..] == t;
    assert CodeLineItem(r) == Done(t, ());
    CodeLineTailStep(r);
    CodeLineTailStop(t);
  }

  /** A slash that starts no comment is a special on its own. */
  lemma CodeSpecialSlash(x: seq<byte>)
    requires x != [] && x[0] != SLASH && x[0] != STAR
    ensures CodeSpecial([SLASH] + x) == Done(x, ())
  {
    assert ([SLASH] + x)[1..] == x;
  }

  /** Plain code, then the tail loop from the first special byte on. */
  lemma CodeLineAfterPlain(a: seq<byte>, r: seq<byte>)
    requires PlainCode(a)
    requires r == [] || r[0] in {CR, LF, QUOTE, SLASH}
    ensures CodeLine(a + r) == CodeLineTail(r)
  {
    SpanNotAppend(a, r, {CR, LF, QUOTE, SLASH});
    assert (a + r)[|a|..] == r;
  }

  lemma CodeLineTailStep(s: seq<byte>)
    requires s != [] && CodeLineItem(s).Done? && CodeLineItem(s).rest != s
    ensures CodeLineTail(s) == CodeLineTail(CodeLineItem(s).rest)
  {
  }

  lemma CodeSpecialLineComment(c: seq<byte>, t: seq<byte>)
    requires CR !in c && LF !in c
    requires t == [] || t[0] == CR || t[0] == LF
    ensures CodeLineItem([SLASH, SLASH] + (c + t)) == Done(t, ())
  {
    var r := [SLASH, SLASH] + (c + t);
    assert r[2..] == c + t;
    SpanNotAppend(c, t, {CR, LF});
    assert (c + t)[|c|..] == t;
    assert CommentOneLine(r) == Done(t, ());
  }

  /** A trailing line comment is part of the code line. */
  lemma CodeLineComment(a: seq<byte>, c: seq<byte>, t: seq<byte>)
    requires PlainCode(a) && CR !in c && LF !in c
    requires t == [] || t[0] == CR || t[0] == LF
    ensures CodeLine(a + [SLASH, SLASH] + c + t) == Done(t, ())
  {
    var r := [SLASH, SLASH] + (c + t);
    assert a + [SLASH, SLASH] + c + t == a + r;
    CodeLineAfterPlain(a, r);
    CodeSpecialLineComment(c, t);
    CodeLineTailStep(r);
    CodeLineTailStop(t);
  }

  /** A line that reaches an unterminated literal stops the scan with an
      error, whatever was collected before and whatever follows: the code
      line consumes nothing there, so the fold fails. */
  lemma UnterminatedLiteralFails(q: seq<byte>, t: seq<byte>, acc: seq<Include<seq<byte>>>)
    requires PlainLiteral(q)
    ensures FoldIncludes([QUOTE] + q + [LF] + t, acc).Error?
  {
    var s := [QUOTE] + q + [LF] + t;
    CodeDoubleQuoteLineBreak(q, t);
    assert CodeSpecial(s).Error?;
    assert CodeLineTail(s) == Done(s, ());
    assert CodeLine(s) == Done(s, ());
    LinesStop(s);
    assert IncludeItem(s) == Done(s, None);
  }

  /** A directive other than `include` adds nothing. */
  lemma DirectiveOther(w: seq<byte>, u: seq<byte>)
    requires PlainCode(w) && w != [] && w[0] !in {SPACE, TAB, INCLUDE[0]}
    requires u != [] && u[0] == LF
    ensures Directive([HASH] + w + u) == Done(w + u, None)
  {
    var s := w + u;
    assert ([HASH] + w + u)[1..] == s;
    BlanksStop(s);
    assert Tag(s, INCLUDE).Error?;
    SpanNotAppend(w, u, {CR, LF, QUOTE, SLASH});
    assert s[|w|..] == u;
    assert UnknownItem(s).Error?;
  }

  lemma OtherDirectiveItem(w: seq<byte>, u: seq<byte>)
    requires PlainCode(w) && w != [] && w[0] !in {SPACE, TAB, INCLUDE[0]}
    requires u != [] && u[0] == LF
    ensures IncludeItem([HASH] + (w + u)) == Done(w + u, None)
  {
    assert [HASH] + (w + u) == [HASH] + w + u;
    DirectiveOther(w, u);
    LinesStop(w + u);
  }

  lemma PlainLineItem(w: seq<byte>, t: seq<byte>)
    requires PlainCode(w) && w != [] && w[0] != HASH
    requires t == [] || t[0] !in {SPACE, TAB, CR, LF, SLASH}
    ensures IncludeItem(w + ([LF] + t)) == Done(t, None)
  {
    var u := [LF] + t;
    assert Directive(w + u).Error?;
    CodeLinePlain(w, u);
    assert u[1..] == t;
    assert SpanIn(u, {SPACE, TAB, CR, LF}) == 1 by {
      assert SpanIn(u[1..], {SPACE, TAB, CR, LF}) == 0;
    }
    LinesStop(t);
    assert Lines(u) == Done(t, ());
  }

  /** `#pragma once` or `#define X`: the fold goes on after the line with the
      includes it had. */
  lemma OtherDirectiveSkipped(w: seq<byte>, t: seq<byte>, acc: seq<Include<seq<byte>>>)
    requires PlainCode(w) && w != [] && w[0] !in {SPACE, TAB, HASH, INCLUDE[0]}
    requires t == [] || t[0] !in {SPACE, TAB, CR, LF, SLASH}
    ensures FoldIncludes([HASH] + (w + ([LF] + t)), acc) == FoldIncludes(t, acc)
  {
    var u := [LF] + t;
    var s := w + u;
    OtherDirectiveItem(w, u);
    FoldSkip([HASH] + s, s, acc);
    PlainLineItem(w, t);
    FoldSkip(s, t, acc);
  }
}
