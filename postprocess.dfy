/** The preprocessed-output filter of `src/vs/postprocess.rs`: a scanner over
    the output of `cl.exe /E` that finds `#line` and `#pragma` directives,
    splits multi-source output at the `#line 1` of each source, and either
    keeps or suppresses everything before the precompiled-header marker. The
    reader is the byte sequence its first `read` delivers whole; the writer is
    the `VsPreprocessor` of `src/vs/compiler.rs`. */
module Postprocess {
  import opened Common
  import opened Paths
  import opened VsSink

  /** The errors of the filter; the last two stand for failures that
      surface outside `PostprocessError` in the Rust code. */
  datatype PostprocessError =
    | LiteralEol
    | LiteralEof
    | LiteralTooLong
    | EscapeEof
    | MarkerNotFound
    | InvalidLiteral
    | TokenTooLong
    // The local-codepage encoding of the marker failed.
    | AnsiEncoding
    // A `#line` with nothing after its number: `unwrap()` of an empty peek panics.
    | MissingPath

  const BOM: seq<byte> := [0xEF, 0xBB, 0xBF]
  /** `line`, `pragma`, `hdrstop` and `1` as bytes. */
  const LINE: seq<byte> := [0x6C, 0x69, 0x6E, 0x65]
  const PRAGMA: seq<byte> := [0x70, 0x72, 0x61, 0x67, 0x6D, 0x61]
  const HDRSTOP: seq<byte> := [0x68, 0x64, 0x72, 0x73, 0x74, 0x6F, 0x70]
  const ONE: seq<byte> := [0x31]
  /** The texts `#pragma ` and `#pragma hdrstop`. */
  const PRAGMA_PREFIX: seq<byte> := [HASH] + PRAGMA + [SPACE]
  const PRAGMA_HDRSTOP: seq<byte> := PRAGMA_PREFIX + HDRSTOP
  /** The text `#line `. */
  const LINE_PREFIX: seq<byte> := [0x23] + LINE + [SPACE]

  /** Sizes of the token buffers of `parse_directive`, `parse_directive_line`,
      `parse_directive_pragma` and `parse_path`. */
  const DIRECTIVE_TOKEN: nat := 0x10
  const LINE_TOKEN: nat := 0x10
  const PRAGMA_TOKEN: nat := 0x20
  const PATH_BUF: nat := 0x400

  /** A blank, tab or form feed. */
  predicate IsSpace(b: byte) { b == SPACE || b == TAB || b == FF }

  /** What `parse_empty` skips: spaces and line ends. */
  predicate IsBlank(b: byte) { IsSpace(b) || b == LF || b == CR }

  /** `[A-Za-z0-9_]`. */
  predicate IsTokenByte(b: byte) { IsAsciiAlpha(b) || IsAsciiDigit(b) || b == 0x5F }

  predicate NotLineFeed(b: byte) { b != LF }

  /** End of the run of bytes satisfying `p` that starts at `i`. */
  function RunEnd(data: seq<byte>, i: nat, p: byte -> bool): (j: nat)
    requires i <= |data|
    ensures i <= j <= |data|
    ensures forall k :: i <= k < j ==> p(data[k])
    ensures j == |data| || !p(data[j])
    decreases |data| - i
  {
    if i == |data| || !p(data[i]) then i else RunEnd(data, i + 1, p)
  }

  lemma RunEndAt(data: seq<byte>, i: nat, j: nat, p: byte -> bool)
    requires i <= j <= |data|
    requires forall m :: i <= m < j ==> p(data[m])
    requires j == |data| || !p(data[j])
    ensures RunEnd(data, i, p) == j
  {
  }

  /** How many leading bytes of `data` agree with the UTF-8 byte-order mark. */
  function BomMatched(data: seq<byte>): (n: nat)
    ensures n <= 3 && n <= |data| && data[..n] == BOM[..n]
    ensures n < 3 ==> n == |data| || data[n] != BOM[n]
  {
    if |data| == 0 || data[0] != BOM[0] then 0
    else if |data| == 1 || data[1] != BOM[1] then 1
    else if |data| == 2 || data[2] != BOM[2] then 2
    else 3
  }

  // ---------------------------------------------------------------------
  // Quoted paths of `#line` directives

  /** The byte an escape sequence stands for (`parse_escape`). */
  function Unescape(c: byte): byte {
    if c == 0x6E then LF else if c == 0x72 then CR else if c == 0x74 then TAB else c
  }

  /** The byte an escape contributes to the path: an escaped backslash
      becomes a forward slash. */
  function PathByte(c: byte): (r: byte)
    ensures c == BACKSLASH ==> r == SLASH
    ensures c == 0x6E ==> r == LF
    ensures c == 0x72 ==> r == CR
    ensures c == 0x74 ==> r == TAB
    ensures c !in {BACKSLASH, 0x6E, 0x72, 0x74} ==> r == c
  {
    var u := Unescape(c);
    if u == BACKSLASH then SLASH else u
  }

  predicate TooLong(token: seq<byte>, raw: seq<byte>) {
    |raw| >= PATH_BUF - 2 || |token| >= PATH_BUF - 1
  }

  datatype PathScan =
    | PathOk(token: seq<byte>, raw: seq<byte>, next: nat)
    | PathErr(error: PostprocessError)

  /** The loop of `parse_path` from position `i`, with the decoded path
      `token` and the literal's text `raw` collected so far. The escape
      branch records the backslash and then, when `asWritten` is false, the
      escaped byte; `asWritten` records a second backslash instead, as
      postprocess.rs:465 does. */
  function ScanPathWith(data: seq<byte>, i: nat, quote: byte, token: seq<byte>, raw: seq<byte>, asWritten: bool): (r: PathScan)
    requires i <= |data|
    ensures r.PathErr? ==> r.error in {LiteralEof, LiteralEol, EscapeEof, LiteralTooLong}
    ensures r.PathOk? ==> i < r.next <= |data| && data[r.next - 1] == quote
    decreases |data| - i
  {
    if i == |data| then PathErr(LiteralEof)
    else if data[i] == LF || data[i] == CR then PathErr(LiteralEol)
    else if data[i] == BACKSLASH then
      if i + 1 == |data| then PathErr(EscapeEof)
      else
        var raw' := raw + [BACKSLASH, if asWritten then BACKSLASH else data[i + 1]];
        var token' := token + [PathByte(data[i + 1])];
        if TooLong(token', raw') then PathErr(LiteralTooLong)
        else ScanPathWith(data, i + 2, quote, token', raw', asWritten)
    else if data[i] == quote then PathOk(token, raw + [quote], i + 1)
    else
      var raw' := raw + [data[i]];
      var token' := token + [data[i]];
      if TooLong(token', raw') then PathErr(LiteralTooLong)
      else ScanPathWith(data, i + 1, quote, token', raw', asWritten)
  }

  /** `parse_path` on a literal whose opening quote is at `i`, recording
      the raw text as postprocess.rs:464-466 does (`asWritten`) or keeping
      the escape as it appears. */
  function ScanPathIn(data: seq<byte>, i: nat, asWritten: bool): (r: PathScan)
    requires i < |data|
    ensures r.PathOk? ==> i + 1 < r.next <= |data| && data[r.next - 1] == data[i]
  {
    ScanPathWith(data, i + 1, data[i], [], [data[i]], asWritten)
  }

  /** The corrected `parse_path`. */
  function ScanPath(data: seq<byte>, i: nat): (r: PathScan)
    requires i < |data|
  {
    ScanPathIn(data, i, false)
  }

  /** `parse_path` as written. */
  function ScanPathAsWritten(data: seq<byte>, i: nat): (r: PathScan)
    requires i < |data|
  {
    ScanPathIn(data, i, true)
  }

  /** A byte a literal can hold without an escape. */
  predicate Plain(b: byte, quote: byte) { b != LF && b != CR && b != BACKSLASH && b != quote }

  /** How a C string literal spells a byte of a path. */
  function EscapeByte(b: byte): (r: seq<byte>) {
    if b == LF then [BACKSLASH, 0x6E]
    else if b == CR then [BACKSLASH, 0x72]
    else if b == TAB then [BACKSLASH, 0x74]
    else if b == BACKSLASH || b == QUOTE then [BACKSLASH, b]
    else [b]
  }

  /** The body of a double-quoted literal for path `p`. */
  function Escaped(p: seq<byte>): (r: seq<byte>)
    ensures |r| >= |p|
  {
    if p == [] then [] else EscapeByte(p[0]) + Escaped(p[1..])
  }

  /** The path with every backslash turned into a forward slash. */
  function ForwardSlashed(p: seq<byte>): (r: seq<byte>)
    ensures |r| == |p|
  {
    if p == [] then [] else [if p[0] == BACKSLASH then SLASH else p[0]] + ForwardSlashed(p[1..])
  }

  /** `data` holds `w` from position `i` on. */
  predicate HoldsAt(data: seq<byte>, i: nat, w: seq<byte>) {
    i + |w| <= |data| && forall k :: 0 <= k < |w| ==> data[i + k] == w[k]
  }

  lemma EscapeByteScan(data: seq<byte>, i: nat, b: byte, token: seq<byte>, raw: seq<byte>)
    requires HoldsAt(data, i, EscapeByte(b))
    requires !TooLong(token + [if b == BACKSLASH then SLASH else b], raw + EscapeByte(b))
    ensures ScanPathWith(data, i, QUOTE, token, raw, false) ==
      ScanPathWith(data, i + |EscapeByte(b)|, QUOTE, token + [if b == BACKSLASH then SLASH else b], raw + EscapeByte(b), false)
  {
    var e := EscapeByte(b);
    assert data[i] == e[0];
    if |e| == 2 {
      assert data[i + 1] == e[1];
    }
  }

  lemma HoldsAtSplit(data: seq<byte>, i: nat, e: seq<byte>, w: seq<byte>)
    requires HoldsAt(data, i, e + w)
    ensures HoldsAt(data, i, e) && HoldsAt(data, i + |e|, w)
  {
    forall k | 0 <= k < |e| ensures data[i + k] == e[k] {
      assert (e + w)[k] == e[k];
    }
    forall k | 0 <= k < |w| ensures data[i + |e| + k] == w[k] {
      assert (e + w)[|e| + k] == w[k];
    }
  }

  lemma EscapedCons(p: seq<byte>)
    requires p != []
    ensures Escaped(p) + [QUOTE] == EscapeByte(p[0]) + (Escaped(p[1..]) + [QUOTE])
    ensures |Escaped(p)| == |EscapeByte(p[0])| + |Escaped(p[1..])|
  {
    assert Escaped(p) == EscapeByte(p[0]) + Escaped(p[1..]);
  }

  lemma EscapedAccumulate(p: seq<byte>, token: seq<byte>, raw: seq<byte>)
    requires p != []
    ensures token + [if p[0] == BACKSLASH then SLASH else p[0]] + ForwardSlashed(p[1..]) == token + ForwardSlashed(p)
    ensures raw + EscapeByte(p[0]) + Escaped(p[1..]) + [QUOTE] == raw + Escaped(p) + [QUOTE]
  {
    ConcatAssoc(token, [if p[0] == BACKSLASH then SLASH else p[0]], ForwardSlashed(p[1..]));
    ConcatAssoc(raw, EscapeByte(p[0]), Escaped(p[1..]));
  }

  /** Decoding the double-quoted spelling of any short enough path gives the
      path back with backslashes as slashes, and the raw text is the literal
      exactly as it appears, quotes included. */
  lemma {:induction false} ScanEscaped(data: seq<byte>, i: nat, p: seq<byte>, token: seq<byte>, raw: seq<byte>)
    requires HoldsAt(data, i, Escaped(p) + [QUOTE])
    requires |raw| + |Escaped(p)| < PATH_BUF - 2 && |token| + |p| < PATH_BUF - 1
    ensures ScanPathWith(data, i, QUOTE, token, raw, false) ==
      PathOk(token + ForwardSlashed(p), raw + Escaped(p) + [QUOTE], i + |Escaped(p)| + 1)
    decreases |p|
  {
    if p == [] {
      ScanEscapedEmpty(data, i, token, raw);
    } else {
      var e := EscapeByte(p[0]);
      var s := [if p[0] == BACKSLASH then SLASH else p[0]];
      EscapedCons(p);
      ScanEscapedHead(data, i, p, token, raw);
      ScanEscaped(data, i + |e|, p[1..], token + s, raw + e);
      EscapedAccumulate(p, token, raw);
    }
  }

  lemma ScanEscapedEmpty(data: seq<byte>, i: nat, token: seq<byte>, raw: seq<byte>)
    requires HoldsAt(data, i, Escaped([]) + [QUOTE])
    ensures ScanPathWith(data, i, QUOTE, token, raw, false) ==
      PathOk(token + ForwardSlashed([]), raw + Escaped([]) + [QUOTE], i + |Escaped([])| + 1)
  {
    assert data[i] == (Escaped([]) + [QUOTE])[0];
    assert token + ForwardSlashed([]) == token;
    assert raw + Escaped([]) == raw;
  }

  lemma ScanEscapedHead(data: seq<byte>, i: nat, p: seq<byte>, token: seq<byte>, raw: seq<byte>)
    requires p != []
    requires HoldsAt(data, i, Escaped(p) + [QUOTE])
    requires |raw| + |Escaped(p)| < PATH_BUF - 2 && |token| + |p| < PATH_BUF - 1
    ensures HoldsAt(data, i + |EscapeByte(p[0])|, Escaped(p[1..]) + [QUOTE])
    ensures ScanPathWith(data, i, QUOTE, token, raw, false) ==
      ScanPathWith(data, i + |EscapeByte(p[0])|, QUOTE,
        token + [if p[0] == BACKSLASH then SLASH else p[0]], raw + EscapeByte(p[0]), false)
  {
    EscapedCons(p);
    HoldsAtSplit(data, i, EscapeByte(p[0]), Escaped(p[1..]) + [QUOTE]);
    EscapeHeadFits(p, token, raw);
    EscapeByteScan(data, i, p[0], token, raw);
  }

  /** The first byte of a path that fits still fits in the buffers. */
  lemma EscapeHeadFits(p: seq<byte>, token: seq<byte>, raw: seq<byte>)
    requires p != []
    requires |raw| + |Escaped(p)| < PATH_BUF - 2 && |token| + |p| < PATH_BUF - 1
    ensures !TooLong(token + [if p[0] == BACKSLASH then SLASH else p[0]], raw + EscapeByte(p[0]))
  {
    EscapedCons(p);
  }

  /** The literal of a path `p`, followed by anything, is decoded to `p`
      with forward slashes; the raw text is the literal itself. */
  lemma ScanPathOfLiteral(p: seq<byte>, rest: seq<byte>)
    requires |Escaped(p)| < PATH_BUF - 3
    ensures ScanPath([QUOTE] + Escaped(p) + [QUOTE] + rest, 0) ==
      PathOk(ForwardSlashed(p), [QUOTE] + Escaped(p) + [QUOTE], |Escaped(p)| + 2)
  {
    var data := [QUOTE] + Escaped(p) + [QUOTE] + rest;
    forall k | 0 <= k < |Escaped(p) + [QUOTE]| ensures data[1 + k] == (Escaped(p) + [QUOTE])[k] {
    }
    ScanEscaped(data, 1, p, [], [QUOTE]);
    assert [] + ForwardSlashed(p) == ForwardSlashed(p);
  }

  /** A raw line end before the closing quote is `LiteralEol`. */
  lemma {:induction false} ScanPathLineEnd(data: seq<byte>, i: nat, j: nat, quote: byte, token: seq<byte>, raw: seq<byte>, asWritten: bool)
    requires i <= j < |data| && (data[j] == LF || data[j] == CR)
    requires forall k :: i <= k < j ==> Plain(data[k], quote)
    requires |raw| + (j - i) < PATH_BUF - 2 && |token| + (j - i) < PATH_BUF - 1
    ensures ScanPathWith(data, i, quote, token, raw, asWritten) == PathErr(LiteralEol)
    decreases j - i
  {
    if i < j {
      ScanPathLineEnd(data, i + 1, j, quote, token + [data[i]], raw + [data[i]], asWritten);
    }
  }

  /** Input that ends inside the literal is `LiteralEof`, or `EscapeEof`
      when its last byte is a backslash. */
  lemma {:induction false} ScanPathEndOfInput(data: seq<byte>, i: nat, quote: byte, token: seq<byte>, raw: seq<byte>, asWritten: bool)
    requires i <= |data|
    requires forall k :: i <= k < |data| - 1 ==> Plain(data[k], quote)
    requires i < |data| ==> Plain(data[|data| - 1], quote) || data[|data| - 1] == BACKSLASH
    requires |raw| + (|data| - i) < PATH_BUF - 2 && |token| + (|data| - i) < PATH_BUF - 1
    ensures ScanPathWith(data, i, quote, token, raw, asWritten) ==
      if i < |data| && data[|data| - 1] == BACKSLASH then PathErr(EscapeEof) else PathErr(LiteralEof)
    decreases |data| - i
  {
    if i < |data| - 1 {
      ScanPathEndOfInput(data, i + 1, quote, token + [data[i]], raw + [data[i]], asWritten);
    }
  }

  /** A literal longer than the buffers is `LiteralTooLong`: with plain
      bytes, the 0x3FD-th one fills the raw buffer. */
  lemma {:induction false} ScanPathTooLong(data: seq<byte>, i: nat, quote: byte, token: seq<byte>, raw: seq<byte>, asWritten: bool)
    requires |raw| == |token| + 1 && !TooLong(token, raw)
    requires i + (PATH_BUF - 2 - |raw|) <= |data|
    requires forall k :: i <= k < i + (PATH_BUF - 2 - |raw|) ==> Plain(data[k], quote)
    ensures ScanPathWith(data, i, quote, token, raw, asWritten) == PathErr(LiteralTooLong)
    decreases PATH_BUF - |raw|
  {
    var raw' := raw + [data[i]];
    var token' := token + [data[i]];
    if !TooLong(token', raw') {
      ScanPathTooLong(data, i + 1, quote, token', raw', asWritten);
    }
  }

  /** Postprocess finding: the raw text of `"a\tb"` as written is `"a\\b"`,
      which names another file when re-emitted by the `#line` after
      `#pragma hdrstop`; the corrected scan keeps the literal. */
  lemma RawEscapeAsWritten()
    ensures ScanPathAsWritten([QUOTE, 0x61, BACKSLASH, 0x74, 0x62, QUOTE], 0) ==
      PathOk([0x61, TAB, 0x62], [QUOTE, 0x61, BACKSLASH, BACKSLASH, 0x62, QUOTE], 6)
    ensures ScanPath([QUOTE, 0x61, BACKSLASH, 0x74, 0x62, QUOTE], 0) ==
      PathOk([0x61, TAB, 0x62], [QUOTE, 0x61, BACKSLASH, 0x74, 0x62, QUOTE], 6)
  {
    var data: seq<byte> := [QUOTE, 0x61, BACKSLASH, 0x74, 0x62, QUOTE];
    assert PathByte(0x74) == TAB;
    RawEscapeSteps(data, true, BACKSLASH);
    RawEscapeSteps(data, false, 0x74);
  }

  lemma RawEscapeSteps(data: seq<byte>, aw: bool, x: byte)
    requires data == [QUOTE, 0x61, BACKSLASH, 0x74, 0x62, QUOTE]
    requires x == if aw then BACKSLASH else 0x74
    ensures ScanPathWith(data, 1, QUOTE, [], [QUOTE], aw) ==
      PathOk([0x61, TAB, 0x62], [QUOTE, 0x61, BACKSLASH, x, 0x62, QUOTE], 6)
  {
    assert PathByte(0x74) == TAB;
    assert ScanPathWith(data, 5, QUOTE, [0x61, TAB, 0x62], [QUOTE, 0x61, BACKSLASH, x, 0x62], aw)
      == PathOk([0x61, TAB, 0x62], [QUOTE, 0x61, BACKSLASH, x, 0x62, QUOTE], 6);
    assert ScanPathWith(data, 4, QUOTE, [0x61, TAB], [QUOTE, 0x61, BACKSLASH, x], aw)
      == ScanPathWith(data, 5, QUOTE, [0x61, TAB, 0x62], [QUOTE, 0x61, BACKSLASH, x, 0x62], aw);
    assert [] + [data[1]] == [0x61] && [QUOTE] + [data[1]] == [QUOTE, 0x61];
    assert ScanPathWith(data, 1, QUOTE, [], [QUOTE], aw)
      == ScanPathWith(data, 2, QUOTE, [0x61], [QUOTE, 0x61], aw);
    assert data[2] == BACKSLASH && data[3] == 0x74;
    assert [QUOTE, 0x61] + [BACKSLASH, x] == [QUOTE, 0x61, BACKSLASH, x];
    assert [0x61] + [PathByte(data[3])] == [0x61, TAB];
    assert ScanPathWith(data, 2, QUOTE, [0x61], [QUOTE, 0x61], aw)
      == ScanPathWith(data, 4, QUOTE, [0x61, TAB], [QUOTE, 0x61, BACKSLASH, x], aw);
  }

  // ---------------------------------------------------------------------
  // Tokens

  // ---------------------------------------------------------------------
  // Marker matching

  /** `is_subpath`: `child` matches the end of `parent`, ignoring ASCII case,
      and starts there at a path component. */
  predicate IsSubpath(parent: seq<byte>, child: seq<byte>) {
    && |child| <= |parent|
    && (|parent| == |child| || parent[|parent| - |child| - 1] == SLASH)
    && EqIgnoreAsciiCase(child, parent[|parent| - |child|..])
  }

  /** `is_subpath` holds exactly when `parent` splits into a directory part
      that is empty or ends in `/`, and a last part equal to `child` up to
      ASCII case. */
  lemma SubpathIff(parent: seq<byte>, child: seq<byte>)
    ensures IsSubpath(parent, child) <==>
      exists d, t :: parent == d + t && EqIgnoreAsciiCase(t, child) && (d == [] || d[|d| - 1] == SLASH)
  {
    if IsSubpath(parent, child) {
      SubpathSplits(parent, child);
    }
    if exists d, t :: parent == d + t && EqIgnoreAsciiCase(t, child) && (d == [] || d[|d| - 1] == SLASH) {
      var d, t :| parent == d + t && EqIgnoreAsciiCase(t, child) && (d == [] || d[|d| - 1] == SLASH);
      SplitIsSubpath(d, t, child);
    }
  }

  lemma SubpathSplits(parent: seq<byte>, child: seq<byte>)
    requires IsSubpath(parent, child)
    ensures var d := parent[..|parent| - |child|];
      && parent == d + parent[|parent| - |child|..]
      && EqIgnoreAsciiCase(parent[|parent| - |child|..], child)
      && (d == [] || d[|d| - 1] == SLASH)
  {
    var d := parent[..|parent| - |child|];
    assert parent == d + parent[|parent| - |child|..];
  }

  lemma SplitIsSubpath(d: seq<byte>, t: seq<byte>, child: seq<byte>)
    requires EqIgnoreAsciiCase(t, child) && (d == [] || d[|d| - 1] == SLASH)
    ensures IsSubpath(d + t, child)
  {
    var parent := d + t;
    assert parent[|parent| - |child|..] == t;
    if d != [] {
      assert parent[|parent| - |child| - 1] == d[|d| - 1];
    }
  }

  /** The repository's case test: `STDafx.h` marks `.../test_cl/StdAfx.h`. */
  lemma SubpathCaseTest(dir: seq<byte>)
    requires dir == [] || dir[|dir| - 1] == SLASH
    ensures IsSubpath(dir + [0x53, 0x74, 0x64, 0x41, 0x66, 0x78, 0x2E, 0x68],
                      [0x53, 0x54, 0x44, 0x61, 0x66, 0x78, 0x2E, 0x68])
  {
    var parent := dir + [0x53, 0x74, 0x64, 0x41, 0x66, 0x78, 0x2E, 0x68];
    assert parent[|parent| - 8..] == [0x53, 0x74, 0x64, 0x41, 0x66, 0x78, 0x2E, 0x68];
  }

  /** A name that only ends with the marker's text is not the marker. */
  lemma SubpathNeedsSeparator(d: seq<byte>, child: seq<byte>)
    requires d != [] && d[|d| - 1] != SLASH
    ensures !IsSubpath(d + child, child)
  {
    var parent := d + child;
    assert parent[|parent| - |child| - 1] == d[|d| - 1];
  }

  // ---------------------------------------------------------------------
  // Invariants about what reaches the writer

  /** Output handed over for a source when headers are not kept: nothing,
      or text that starts at the injected `#pragma hdrstop`. */
  predicate HeaderFree(r: PreprocessResult) {
    r.Success? ==> r.output == [] || StartsWith(r.output, PRAGMA_HDRSTOP)
  }

  predicate DeliveredHeaderFree(log: seq<Delivery>, from: nat) {
    forall i :: from <= i < |log| ==> HeaderFree(log[i].result)
  }

  /** The content being collected: empty until the marker is passed, then
      starting with `#pragma hdrstop`. */
  predicate ContentHeaderFree(c: Option<VsContent>, done: bool) {
    c.Some? ==> if done then StartsWith(c.value.data, PRAGMA_HDRSTOP) else c.value.data == []
  }

  lemma StartsWithAppend(a: seq<byte>, b: seq<byte>, p: seq<byte>)
    requires StartsWith(a, p)
    ensures StartsWith(a + b, p)
  {
    StartsWithPrefix(a, p);
    StartsWithPrefix(a + b, p);
    assert (a + b)[..|p|] == a[..|p|];
  }

  // ---------------------------------------------------------------------
  // The scanner

  /** `parse_bom` ran into the end of the input after a partial mark. */
  predicate BomHitEnd(data: seq<byte>, n: nat) { 0 < n == |data| < 3 }

  /** `parse_escape` at the backslash at `i`: the byte the escape stands
      for, or `EscapeEof` when the input ends after the backslash. */
  function ParseEscape(data: seq<byte>, i: nat): Result<byte, PostprocessError>
    requires i < |data| && data[i] == BACKSLASH
  {
    if i + 1 < |data| then Ok(Unescape(data[i + 1])) else Err(EscapeEof)
  }

  /** One escape of `parse_path`: the backslash and the byte after it. */
  lemma ScanEscapeStep(data: seq<byte>, i: nat, quote: byte, token: seq<byte>, raw: seq<byte>, asWritten: bool)
    requires i + 1 < |data| && data[i] == BACKSLASH
    ensures var token', raw' := token + [PathByte(data[i + 1])], raw + [BACKSLASH, if asWritten then BACKSLASH else data[i + 1]];
      ScanPathWith(data, i, quote, token, raw, asWritten) ==
        if TooLong(token', raw') then PathErr(LiteralTooLong) else ScanPathWith(data, i + 2, quote, token', raw', asWritten)
  {
  }

  /** One byte of `parse_path` that needs no escape. */
  lemma ScanPlainStep(data: seq<byte>, i: nat, quote: byte, token: seq<byte>, raw: seq<byte>, asWritten: bool)
    requires i < |data| && Plain(data[i], quote)
    ensures ScanPathWith(data, i, quote, token, raw, asWritten) ==
      if TooLong(token + [data[i]], raw + [data[i]]) then PathErr(LiteralTooLong)
      else ScanPathWith(data, i + 1, quote, token + [data[i]], raw + [data[i]], asWritten)
  {
  }

  /** The loop of `parse_path` over the literal starting with the quote
      byte at `start`, on buffers of `PATH_BUF` bytes for the decoded path
      and for the literal's text; `asWritten` stores the escape's backslash
      twice, as postprocess.rs:465 does. */
  method ScanLiteral(data: seq<byte>, start: nat, asWritten: bool) returns (r: PathScan)
    requires start < |data|
    ensures r == ScanPathIn(data, start, asWritten)
  {
    var quote := data[start];
    var token := new byte[PATH_BUF];
    var raw := new byte[PATH_BUF];
    raw[0] := quote;
    assert raw[..1] == [quote];
    var i := start + 1;
    var tOff: nat, rOff: nat := 0, 1;
    while i < |data|
      invariant start < i <= |data| && rOff < PATH_BUF - 2 && tOff < PATH_BUF - 1
      invariant ScanPathWith(data, i, quote, token[..tOff], raw[..rOff], asWritten) == ScanPathIn(data, start, asWritten)
      decreases |data| - i
    {
      ghost var t0, w0 := token[..tOff], raw[..rOff];
      var c := data[i];
      if c == LF || c == CR {
        return PathErr(LiteralEol);
      } else if c == BACKSLASH {
        raw[rOff] := BACKSLASH;
        var e := ParseEscape(data, i);
        if e.Err? {
          return PathErr(e.error);
        }
        raw[rOff + 1] := if asWritten then c else data[i + 1];
        assert raw[..rOff + 2] == w0 + [BACKSLASH, if asWritten then BACKSLASH else data[i + 1]];
        rOff := rOff + 2;
        token[tOff] := if e.value == BACKSLASH then SLASH else e.value;
        assert token[..tOff + 1] == t0 + [PathByte(data[i + 1])];
        tOff := tOff + 1;
        ScanEscapeStep(data, i, quote, t0, w0, asWritten);
        i := i + 2;
      } else {
        i := i + 1;
        raw[rOff] := c;
        assert raw[..rOff + 1] == w0 + [c];
        rOff := rOff + 1;
        if c == quote {
          return PathOk(token[..tOff], raw[..rOff], i);
        }
        token[tOff] := c;
        assert token[..tOff + 1] == t0 + [c];
        tOff := tOff + 1;
        ScanPlainStep(data, i - 1, quote, t0, w0, asWritten);
      }
      if rOff >= PATH_BUF - 2 || tOff >= PATH_BUF - 1 {
        return PathErr(LiteralTooLong);
      }
    }
    r := PathErr(LiteralEof);
  }

  /** Where the run of spaces, of token bytes, or of bytes other than a
      line feed that starts at `i` ends. */
  function SpacesEnd(data: seq<byte>, i: nat): nat
    requires i <= |data|
  {
    RunEnd(data, i, IsSpace)
  }

  function TokenEnd(data: seq<byte>, i: nat): nat
    requires i <= |data|
  {
    RunEnd(data, i, IsTokenByte)
  }

  function LineEnd(data: seq<byte>, i: nat): nat
    requires i <= |data|
  {
    RunEnd(data, i, NotLineFeed)
  }

  /** `n` zero bytes. */
  function Zeros(n: nat): (r: seq<byte>)
    ensures |r| == n && forall k :: 0 <= k < n ==> r[k] == 0
  {
    seq(n, _ => 0)
  }

  /** What `parse_token` returns for the token at `i` when it fits the
      zeroed buffer of `cap` bytes its callers pass. As written, a token
      that runs to the end of the input comes back as the whole buffer,
      its unused tail zero (postprocess.rs:440-442); otherwise, and always
      in the corrected scanner, it is the token itself. */
  function TokenRead(data: seq<byte>, i: nat, cap: nat, asWritten: bool): (r: seq<byte>)
    requires i <= |data|
  {
    var k := TokenEnd(data, i);
    if asWritten && k == |data| && k - i <= cap then data[i..k] + Zeros(cap - (k - i)) else data[i..k]
  }

  /** A token that fits is read with its bytes first; it is padded to the
      buffer's size only by the token read as written, at the end of the
      input. */
  lemma TokenReadShape(data: seq<byte>, i: nat, cap: nat, asWritten: bool)
    requires i <= |data| && TokenEnd(data, i) - i <= cap
    ensures var r, k := TokenRead(data, i, cap, asWritten), TokenEnd(data, i);
      && |r| == (if asWritten && k == |data| then cap else k - i)
      && r[..k - i] == data[i..k]
  {
  }

  /** No position of `data` reads `hdrstop` as a pragma token. */
  ghost predicate NoHdrstop(data: seq<byte>, asWritten: bool) {
    forall j :: 0 <= j <= |data| ==> TokenRead(data, j, PRAGMA_TOKEN, asWritten) != HDRSTOP
  }

  lemma HdrstopTokenBytes(data: seq<byte>, i: nat)
    requires i + |HDRSTOP| == |data| && data[i..] == HDRSTOP
    ensures forall j :: i <= j <= |data| ==> TokenEnd(data, j) == |data|
  {
    forall j | i <= j <= |data| ensures TokenEnd(data, j) == |data| {
      HdrstopTailEnd(data, i, j);
    }
  }

  lemma {:induction false} HdrstopTailEnd(data: seq<byte>, i: nat, j: nat)
    requires i + |HDRSTOP| == |data| && data[i..] == HDRSTOP && i <= j <= |data|
    ensures TokenEnd(data, j) == |data|
    decreases |data| - j
  {
    if j < |data| {
      assert data[j] == HDRSTOP[j - i];
      assert IsTokenByte(data[j]);
      HdrstopTailEnd(data, i, j + 1);
    }
  }

  /** At `i` a `#pragma` directive reads the token `hdrstop`. */
  predicate PragmaHdrstopAt(data: seq<byte>, i: nat, asWritten: bool) {
    && i + |PRAGMA_PREFIX| <= |data| && data[i..i + |PRAGMA_PREFIX|] == PRAGMA_PREFIX
    && TokenRead(data, i + |PRAGMA_PREFIX|, PRAGMA_TOKEN, asWritten) == HDRSTOP
  }

  /** The same, with only blanks after the token. */
  predicate HdrstopLine(data: seq<byte>, i: nat, asWritten: bool) {
    && PragmaHdrstopAt(data, i, asWritten) && i + |PRAGMA_HDRSTOP| <= |data|
    && RunEnd(data, i + |PRAGMA_HDRSTOP|, IsBlank) == |data|
  }

  lemma PragmaPrefixBytes(data: seq<byte>, i: nat)
    requires i + |PRAGMA_PREFIX| <= |data| && data[i..i + |PRAGMA_PREFIX|] == PRAGMA_PREFIX
    ensures data[i] == HASH && data[i + 1..i + 1 + |PRAGMA|] == PRAGMA && data[i + 1 + |PRAGMA|] == SPACE
  {
    assert PRAGMA_PREFIX == [HASH, 0x70, 0x72, 0x61, 0x67, 0x6D, 0x61, SPACE];
    assert data[i] == PRAGMA_PREFIX[0];
    assert data[i + 7] == PRAGMA_PREFIX[7];
    forall m | 0 <= m < |PRAGMA| ensures data[i + 1 + m] == PRAGMA[m] {
      assert data[i + 1 + m] == data[i..i + |PRAGMA_PREFIX|][1 + m];
    }
  }

  /** The directive name of a `#pragma hdrstop`: `pragma`, read whole. */
  lemma PragmaNameRuns(data: seq<byte>, i: nat, asWritten: bool)
    requires PragmaHdrstopAt(data, i, asWritten)
    ensures SpacesEnd(data, i + 1) == i + 1 && TokenEnd(data, i + 1) == i + 1 + |PRAGMA|
    ensures TokenRead(data, i + 1, DIRECTIVE_TOKEN, asWritten) == PRAGMA
  {
    PragmaPrefixBytes(data, i);
    var w := data[i + 1..i + 1 + |PRAGMA|];
    assert w[0] == data[i + 1];
    RunEndAt(data, i + 1, i + 1, IsSpace);
    forall m | i + 1 <= m < i + 1 + |PRAGMA| ensures IsTokenByte(data[m]) {
      assert data[m] == w[m - i - 1];
    }
    RunEndAt(data, i + 1, i + 1 + |PRAGMA|, IsTokenByte);
  }

  /** The pragma token of a `#pragma hdrstop`: the seven bytes after the
      space. */
  lemma HdrstopTokenRuns(data: seq<byte>, i: nat, asWritten: bool)
    requires PragmaHdrstopAt(data, i, asWritten)
    ensures i + |PRAGMA_HDRSTOP| <= |data| && data[i] == HASH
    ensures SpacesEnd(data, i + 1 + |PRAGMA|) == i + |PRAGMA_PREFIX|
    ensures TokenEnd(data, i + |PRAGMA_PREFIX|) == i + |PRAGMA_HDRSTOP|
  {
    var j := i + |PRAGMA_PREFIX|;
    var t := TokenRead(data, j, PRAGMA_TOKEN, asWritten);
    var k := TokenEnd(data, j);
    TokenReadShape(data, j, PRAGMA_TOKEN, asWritten);
    // the token `hdrstop` has seven bytes, so it was not padded
    assert |t| == |HDRSTOP|;
    assert k - j == |HDRSTOP|;
    assert t[0] == data[j];
    assert IsTokenByte(data[j]);
    PragmaPrefixBytes(data, i);
    RunEndAt(data, i + 1 + |PRAGMA|, j, IsSpace);
  }

  /** What the scanner reads from `i` on: the `#`, the name `pragma`
      right after it, the spaces after the name, and then the token
      `hdrstop`. */
  predicate ScansPragmaHdrstop(data: seq<byte>, i: nat, asWritten: bool) {
    && i < |data| && data[i] == HASH
    && SpacesEnd(data, i + 1) == i + 1 && TokenEnd(data, i + 1) == i + 1 + |PRAGMA|
    && TokenRead(data, i + 1, DIRECTIVE_TOKEN, asWritten) == PRAGMA
    && SpacesEnd(data, i + 1 + |PRAGMA|) == i + |PRAGMA_PREFIX|
    && TokenEnd(data, i + |PRAGMA_PREFIX|) == i + |PRAGMA_HDRSTOP|
    && TokenRead(data, i + |PRAGMA_PREFIX|, PRAGMA_TOKEN, asWritten) == HDRSTOP
  }

  /** `#pragma hdrstop` is scanned that way. */
  lemma PragmaHdrstopScans(data: seq<byte>, i: nat, asWritten: bool)
    requires PragmaHdrstopAt(data, i, asWritten)
    ensures ScansPragmaHdrstop(data, i, asWritten)
  {
    PragmaNameRuns(data, i, asWritten);
    HdrstopTokenRuns(data, i, asWritten);
  }

  /** The input `#pragma hdrstop` alone: as written no position reads
      the token `hdrstop`, while the corrected scanner reads it. */
  lemma HdrstopOnlyLine()
    ensures NoHdrstop(PRAGMA_HDRSTOP, true)
    ensures HdrstopLine(PRAGMA_HDRSTOP, 0, false)
  {
    forall m | 0 <= m < |PRAGMA_PREFIX| ensures PRAGMA_PREFIX[m] != HDRSTOP[0] {
    }
    HdrstopAtEofAsWritten(PRAGMA_PREFIX);
    assert PRAGMA_HDRSTOP[0..|PRAGMA_PREFIX|] == PRAGMA_PREFIX;
  }

  /** Postprocess finding: an input whose last line is `#pragma hdrstop`,
      with no other `h` before it, never reads the token `hdrstop` as
      written (the token at the end of the input comes back padded to 32
      bytes), so without a marker `FilterPreprocessed` fails; the corrected
      token read finds it. */
  lemma HdrstopAtEofAsWritten(pre: seq<byte>)
    requires forall m :: 0 <= m < |pre| ==> pre[m] != HDRSTOP[0]
    ensures NoHdrstop(pre + HDRSTOP, true)
    ensures TokenRead(pre + HDRSTOP, |pre|, PRAGMA_TOKEN, false) == HDRSTOP
    ensures !NoHdrstop(pre + HDRSTOP, false)
  {
    var data := pre + HDRSTOP;
    assert data[|pre|..] == HDRSTOP;
    HdrstopTokenBytes(data, |pre|);
    forall j | 0 <= j <= |data| ensures TokenRead(data, j, PRAGMA_TOKEN, true) != HDRSTOP {
      var k := TokenEnd(data, j);
      if j < |pre| {
        assert data[j] == pre[j] != HDRSTOP[0];
        if k > j {
          assert TokenRead(data, j, PRAGMA_TOKEN, true)[0] == data[j];
        }
      } else {
        assert |TokenRead(data, j, PRAGMA_TOKEN, true)| == PRAGMA_TOKEN;
      }
    }
  }

  /** The line end `next_line_eol` reports for a line whose line feed (or
      the end of the input) is at `j`. */
  function EolAt(data: seq<byte>, j: nat): seq<byte>
    requires j <= |data|
  {
    if j == |data| then [] else if j > 0 && data[j - 1] == CR then [CR, LF] else [LF]
  }

  /** The operands of a `#line` directive: the line number token, the
      decoded file name, the literal as written, and the line end. */
  datatype LineDirective = LineDirective(line: seq<byte>, file: seq<byte>, raw: seq<byte>, eol: seq<byte>)

  /** The text injected where the entry file resumes after the marked
      header: `#pragma hdrstop`, then a `#line` that restores the position. */
  function Mark(d: LineDirective): (r: seq<byte>)
    ensures StartsWith(r, PRAGMA_HDRSTOP)
  {
    StartsWithConcat(PRAGMA_HDRSTOP, d.eol + LINE_PREFIX + d.line + [SPACE] + d.raw + d.eol);
    PRAGMA_HDRSTOP + (d.eol + LINE_PREFIX + d.line + [SPACE] + d.raw + d.eol)
  }

  /** `d` is what `parse_directive_line` reads after `#line` from `i`, and
      the line feed that ends the directive (or the end of the input) is
      at `j`. */
  ghost predicate LineDirectiveAt(data: seq<byte>, i: nat, d: LineDirective, j: nat, asWritten: bool)
    requires i <= |data|
  {
    var j1 := SpacesEnd(data, i);
    var k1 := TokenEnd(data, j1);
    var j2 := SpacesEnd(data, k1);
    && k1 - j1 <= LINE_TOKEN && j2 < |data|
    && var s := ScanPathIn(data, j2, asWritten);
    && s.PathOk? && d.line == data[j1..k1] && d.file == s.token && d.raw == s.raw
    && j == LineEnd(data, s.next) && d.eol == EolAt(data, j)
  }

  /** The errors the scan itself can end with. */
  predicate ScanError(e: PostprocessError) { e != MarkerNotFound && e != AnsiEncoding }

  lemma ForwardCompose(data: seq<byte>, fwd: bool, c0: Option<VsContent>, c1: Option<VsContent>, c2: Option<VsContent>, a: nat, b: nat, e: nat)
    requires a <= b <= e <= |data|
    requires c1 == Appended(c0, if fwd then data[a..b] else [])
    requires c2 == Appended(c1, if fwd then data[b..e] else [])
    ensures c2 == Appended(c0, if fwd then data[a..e] else [])
  {
    AppendedTwice(c0, if fwd then data[a..b] else [], if fwd then data[b..e] else []);
    if fwd {
      assert data[a..b] + data[b..e] == data[a..e];
    } else {
      var none: seq<byte> := [];
      assert none + none == none;
    }
  }

  /** The copying loop of `parse_token`: fills a buffer of `cap` bytes
      with the token bytes from `start` on, stopping at the first other
      byte or when the buffer is full. */
  method FillToken(data: seq<byte>, start: nat, cap: nat) returns (token: array<byte>, offset: nat)
    requires start <= |data|
    ensures fresh(token) && token.Length == cap && offset <= cap && start + offset <= |data|
    ensures token[..offset] == data[start..start + offset] && token[offset..] == Zeros(cap - offset)
    ensures var j := RunEnd(data, start, IsTokenByte);
      if j - start <= cap then start + offset == j
      else offset == cap && IsTokenByte(data[start + cap])
  {
    token := new byte[cap](_ => 0);
    offset := 0;
    var i := start;
    while i < |data| && IsTokenByte(data[i]) && offset < cap
      invariant start <= i <= |data| && offset == i - start && offset <= cap
      invariant forall k :: 0 <= k < offset ==> token[k] == data[start + k]
      invariant forall k :: offset <= k < cap ==> token[k] == 0
      invariant RunEnd(data, i, IsTokenByte) == RunEnd(data, start, IsTokenByte)
    {
      token[offset] := data[i];
      offset := offset + 1;
      i := i + 1;
    }
    assert token[..offset] == data[start..start + offset];
    assert token[offset..] == Zeros(cap - offset);
  }

  /** `ScannerState`. Positions are offsets into the whole input; `ptrEnd`
      is 0 until the first `read`, then the input's length. */
  class Scanner {
    const data: seq<byte>
    const keepHeaders: bool
    const writer: VsPreprocessor
    /** The scanner as written, with the token read of postprocess.rs:441
        and the raw escape of postprocess.rs:465; `false` is the corrected
        scanner. */
    const asWritten: bool
    /** Deliveries the writer had made before this scan. */
    ghost const base: nat

    var ptrCopy: nat
    var ptrRead: nat
    var ptrEnd: nat
    var block: int
    var marker: Option<seq<byte>>
    var utf8: bool
    var headerFound: bool
    var entryFile: Option<seq<byte>>
    var done: bool

    /** The positions are ordered, and when headers are not kept nothing
        has reached the writer for the current source before the marker. */
    ghost predicate Valid()
      reads this, writer
    {
      && ptrCopy <= ptrRead <= ptrEnd <= |data|
      && (ptrEnd == 0 || ptrEnd == |data|)
      && writer.Valid()
      && base <= |writer.delivered|
      && (!keepHeaders ==> DeliveredHeaderFree(writer.delivered, base) && ContentHeaderFree(writer.content, done))
    }

    /** There is no marker and no `hdrstop` pragma token, and neither the
        marker nor its header has been passed. */
    ghost predicate Unmarked()
      reads this
    {
      marker.None? && NoHdrstop(data, asWritten) && !done && !headerFound
    }

    /** What a flush now would send to the writer. */
    ghost function Pending(from: nat): seq<byte>
      reads this
      requires from <= ptrRead <= |data|
    {
      if keepHeaders || done then data[from..ptrRead] else []
    }

    /** The effect of a `read` at the end of the input, if one happened. */
    twostate predicate ReadIf(happened: bool)
      reads this, writer
    {
      if happened then
        && block == old(block) + 1 && ptrCopy == ptrRead && old(ptrCopy) <= ptrRead <= |data|
        && writer.content == Appended(old(writer.content), Pending(old(ptrCopy)))
      else
        block == old(block) && ptrCopy == old(ptrCopy) && writer.content == old(writer.content)
    }

    /** Since the old state the copy position only moved forward, and the
        bytes it passed went to the writer exactly when headers are kept or
        the marker has been passed. */
    twostate predicate Forwarded()
      reads this, writer
    {
      && old(ptrCopy) <= ptrCopy <= |data|
      && writer.content == Appended(old(writer.content), if keepHeaders || done then data[old(ptrCopy)..ptrCopy] else [])
    }

    twostate predicate FlagsKept()
      reads this
    {
      unchanged(this`marker, this`utf8, this`headerFound, this`entryFile, this`done)
    }

    twostate predicate WriterKept()
      reads writer
    {
      unchanged(writer`pending, writer`sources, writer`delivered)
    }

    constructor (data: seq<byte>, writer: VsPreprocessor, keepHeaders: bool, asWritten: bool)
      requires writer.Valid()
      requires !keepHeaders ==> ContentHeaderFree(writer.content, false)
      ensures Valid()
      ensures this.data == data && this.writer == writer && this.keepHeaders == keepHeaders && this.asWritten == asWritten
      ensures ptrCopy == 0 && ptrRead == 0 && ptrEnd == 0 && block == 0
      ensures marker == None && !utf8 && !headerFound && entryFile == None && !done
    {
      this.data := data;
      this.writer := writer;
      this.keepHeaders := keepHeaders;
      this.asWritten := asWritten;
      this.base := |writer.delivered|;
      ptrCopy, ptrRead, ptrEnd, block := 0, 0, 0, 0;
      marker, utf8, headerFound, entryFile, done := None, false, false, None, false;
    }

    /** `flush`: the bytes read since the last flush go to the writer only
        when headers are kept or the marker has been passed; they count as
        handled either way. */
    method Flush()
      requires Valid()
      modifies this, writer
      ensures Valid()
      ensures unchanged(this`ptrRead, this`ptrEnd, this`block) && FlagsKept() && WriterKept()
      ensures ptrCopy == ptrRead && old(ptrCopy) <= ptrRead
      ensures writer.content == Appended(old(writer.content), Pending(old(ptrCopy)))
    {
      AppendedNothing(writer.content);
      if ptrCopy != ptrRead {
        if keepHeaders || done {
          ghost var c := writer.content;
          writer.Write(data[ptrCopy..ptrRead]);
          if !keepHeaders && c.Some? {
            StartsWithAppend(c.value.data, data[ptrCopy..ptrRead], PRAGMA_HDRSTOP);
          }
        }
        ptrCopy := ptrRead;
      }
    }

    /** `read`: the first call loads the whole input, later ones find its end. */
    method Read() returns (more: bool)
      requires Valid() && ptrRead == ptrEnd
      modifies this, writer
      ensures Valid() && ptrEnd == |data| && ptrRead == old(ptrRead)
      ensures more <==> ptrRead < |data|
      ensures ReadIf(true) && FlagsKept() && WriterKept()
    {
      Flush();
      block := block + 1;
      ptrEnd := |data|;
      more := ptrRead < ptrEnd;
    }

    /** `peek`: the byte at the read position, reading first when the
        buffer is used up. */
    method Peek() returns (c: Option<byte>)
      requires Valid()
      modifies this, writer
      ensures Valid() && ptrEnd == |data| && ptrRead == old(ptrRead)
      ensures c == if ptrRead < |data| then Some(data[ptrRead]) else None
      ensures ReadIf(old(ptrRead == ptrEnd)) && FlagsKept() && WriterKept() && Forwarded()
    {
      AppendedNothing(writer.content);
      if ptrRead == ptrEnd {
        var more := Read();
        if !more {
          return None;
        }
      }
      c := Some(data[ptrRead]);
    }

    /** `parse_bom`: consumes the leading bytes that agree with the UTF-8
        byte-order mark, and sets `utf8` only when all three do. */
    method ParseBom()
      requires Valid() && ptrRead == 0 && ptrEnd == 0 && !utf8
      modifies this, writer
      ensures Valid() && ptrEnd == |data|
      ensures utf8 <==> |data| >= 3 && data[..3] == BOM
      ensures ptrRead == BomMatched(data)
      ensures block == old(block) + (if BomHitEnd(data, ptrRead) then 2 else 1)
      ensures ptrCopy == (if BomHitEnd(data, ptrRead) then ptrRead else 0)
      ensures writer.content == Appended(old(writer.content), if BomHitEnd(data, ptrRead) then Pending(0) else [])
      ensures unchanged(this`marker, this`headerFound, this`entryFile, this`done) && WriterKept()
    {
      var k := 0;
      while k < 3
        invariant 0 <= k <= 3 && ptrRead == k && k <= |data| && data[..k] == BOM[..k]
        invariant Valid() && (k == 0 ==> ptrEnd == 0 && block == old(block)) && (k > 0 ==> ptrEnd == |data| && block == old(block) + 1)
        invariant ptrCopy == 0 && writer.content == old(writer.content) && !utf8
        invariant unchanged(this`marker, this`headerFound, this`entryFile, this`done) && WriterKept()
      {
        ghost var k0 := k;
        AppendedNothing(writer.content);
        var c := Peek();
        if c != Some(BOM[k]) {
          return;
        }
        ptrRead := ptrRead + 1;
        k := k + 1;
        assert data[..k] == data[..k0] + [data[k0]];
      }
      AppendedNothing(old(writer.content));
      utf8 := true;
    }
  
    /** The loops of `parse_spaces` and `parse_empty`: skip the bytes
        satisfying `p`, reading at the end of the input. */
    method Skip(p: byte -> bool)
      requires Valid() && ptrEnd == |data|
      modifies this, writer
      ensures Valid() && ptrEnd == |data|
      ensures ptrRead == RunEnd(data, old(ptrRead), p)
      ensures ReadIf(ptrRead == |data|) && FlagsKept() && WriterKept() && Forwarded()
    {
      AppendedNothing(writer.content);
      var i := ptrRead;
      while i < |data| && p(data[i])
        invariant old(ptrRead) <= i <= |data|
        invariant RunEnd(data, i, p) == RunEnd(data, old(ptrRead), p)
      {
        i := i + 1;
      }
      ptrRead := i;
      if ptrRead == |data| {
        var _ := Read();
      }
    }

    /** `parse_spaces`: skips blanks, tabs and form feeds. */
    method ParseSpaces()
      requires Valid() && ptrEnd == |data|
      modifies this, writer
      ensures Valid() && ptrEnd == |data|
      ensures ptrRead == SpacesEnd(data, old(ptrRead))
      ensures ReadIf(ptrRead == |data|) && FlagsKept() && WriterKept() && Forwarded()
    {
      Skip(IsSpace);
    }

    /** `parse_empty`: also skips line ends. */
    method ParseEmpty()
      requires Valid() && ptrEnd == |data|
      modifies this, writer
      ensures Valid() && ptrEnd == |data|
      ensures ptrRead == RunEnd(data, old(ptrRead), IsBlank)
      ensures ReadIf(ptrRead == |data|) && FlagsKept() && WriterKept() && Forwarded()
    {
      Skip(IsBlank);
    }

    /** `parse_token` with a buffer of `cap` bytes: the run of `[A-Za-z0-9_]`
        at the read position, or `TokenTooLong` when it does not fit, read
        as `TokenRead` says. */
    method ParseToken(cap: nat) returns (r: Result<seq<byte>, PostprocessError>)
      requires Valid() && ptrEnd == |data|
      modifies this, writer
      ensures Valid() && ptrEnd == |data|
      ensures r.Ok? <==> TokenEnd(data, old(ptrRead)) - old(ptrRead) <= cap
      ensures r.Ok? ==> ptrRead == TokenEnd(data, old(ptrRead)) && r.value == TokenRead(data, old(ptrRead), cap, asWritten)
      ensures r.Err? ==> r.error == TokenTooLong && ptrRead == old(ptrRead) + cap
      ensures ReadIf(r.Ok? && ptrRead == |data|) && FlagsKept() && WriterKept() && Forwarded()
    {
      AppendedNothing(writer.content);
      var token, offset := FillToken(data, ptrRead, cap);
      ptrRead := ptrRead + offset;
      if ptrRead < |data| && IsTokenByte(data[ptrRead]) {
        // the buffer is full and the token goes on
        return Err(TokenTooLong);
      }
      if ptrRead == |data| {
        var more := Read();
        if !more && asWritten {
          // the whole buffer, as postprocess.rs:441 returns it
          assert token[..] == token[..offset] + token[offset..];
          return Ok(token[..]);
        }
      }
      r := Ok(token[..offset]);
    }

    /** `next_line`: moves past the next line feed, or to the end of the input. */
    method NextLine()
      requires Valid() && ptrEnd == |data|
      modifies this, writer
      ensures Valid() && ptrEnd == |data|
      ensures var j := LineEnd(data, old(ptrRead));
        ptrRead == (if j < |data| then j + 1 else |data|) && ReadIf(j == |data|)
      ensures FlagsKept() && WriterKept() && Forwarded()
    {
      AppendedNothing(writer.content);
      var j := LineEnd(data, ptrRead);
      if j < |data| {
        ptrRead := j + 1;
      } else {
        ptrRead := |data|;
        var _ := Read();
      }
    }

    /** `next_line_eol`: like `next_line`, returning the line end it
        passed: CR LF when a carriage return precedes the line feed, LF
        otherwise, nothing at the end of the input. */
    method NextLineEol() returns (eol: seq<byte>)
      requires Valid() && ptrEnd == |data|
      modifies this, writer
      ensures Valid() && ptrEnd == |data|
      ensures var j := LineEnd(data, old(ptrRead));
        && ptrRead == (if j < |data| then j + 1 else |data|) && ReadIf(j == |data|)
        && eol == EolAt(data, j)
      ensures FlagsKept() && WriterKept() && Forwarded()
    {
      AppendedNothing(writer.content);
      var j := LineEnd(data, ptrRead);
      if j < |data| {
        ptrRead := j + 1;
        eol := if j > 0 && data[j - 1] == CR then [CR, LF] else [LF];
      } else {
        ptrRead := |data|;
        var _ := Read();
        eol := [];
      }
    }

    /** `parse_path`: the quoted file name of a `#line` directive as the
        decoded path and the literal's text, the way `ScanPathIn` reads it.
        The reads at the end of the input that the loop makes when the
        literal or an escape is cut off happen once, after `ScanLiteral`. */
    method ParsePath() returns (r: Result<(seq<byte>, seq<byte>), PostprocessError>)
      requires Valid() && ptrEnd == |data|
      modifies this, writer
      ensures Valid() && ptrEnd == |data| && old(ptrRead) <= ptrRead
      ensures old(ptrRead) == |data| ==> r == Err(MissingPath)
      ensures old(ptrRead) < |data| ==> match ScanPathIn(data, old(ptrRead), asWritten)
        case PathOk(t, w, n) => r == Ok((t, w)) && ptrRead == n
        case PathErr(e) => r == Err(e)
      ensures ReadIf(r.Err? && r.error in {MissingPath, LiteralEof, EscapeEof}) && FlagsKept() && WriterKept() && Forwarded()
    {
      var c := Peek();
      if c.None? {
        return Err(MissingPath);
      }
      var s := ScanLiteral(data, ptrRead, asWritten);
      match s
      case PathOk(t, w, n) =>
        ptrRead := n;
        r := Ok((t, w));
      case PathErr(e) =>
        if e == LiteralEof || e == EscapeEof {
          ptrRead := |data|;
          var _ := Read();
        }
        r := Err(e);
    }
  
    /** `preload` before a directive once the marker is passed: the bytes
        so far are flushed and a new block starts. The refill of the buffer
        finds no more input here. */
    method Preload()
      requires Valid() && ptrEnd == |data|
      modifies this, writer
      ensures Valid() && ptrEnd == |data| && ptrRead == old(ptrRead)
      ensures ptrCopy == ptrRead && block == old(block) + 1
      ensures writer.content == Appended(old(writer.content), Pending(old(ptrCopy)))
      ensures FlagsKept() && WriterKept()
    {
      Flush();
      block := block + 1;
    }

    /** `write` of injected text, after which both of its callers set
        `done`: the pending bytes are flushed first. */
    method WriteMark(bytes: seq<byte>)
      requires Valid() && StartsWith(bytes, PRAGMA_HDRSTOP)
      modifies this, writer
      ensures Valid() && done && ptrCopy == ptrRead
      ensures writer.content == Appended(Appended(old(writer.content), old(Pending(ptrCopy))), bytes)
      ensures unchanged(this`ptrRead, this`ptrEnd, this`block, this`marker, this`utf8, this`headerFound, this`entryFile)
      ensures WriterKept()
    {
      Flush();
      ghost var c := writer.content;
      writer.Write(bytes);
      if !keepHeaders && c.Some? && c.value.data != [] {
        StartsWithAppend(c.value.data, bytes, PRAGMA_HDRSTOP);
      }
      if c.Some? && c.value.data == [] {
        assert c.value.data + bytes == bytes;
      }
      done := true;
    }

    /** The `hdrstop` branch of `parse_directive_pragma` before the marker:
        flush, write `#pragma hdrstop` unless headers are kept, set `done`. */
    method PassHdrstop()
      requires Valid() && !done
      modifies this, writer
      ensures Valid() && done && ptrCopy == ptrRead && old(ptrCopy) <= ptrRead
      ensures unchanged(this`ptrRead, this`ptrEnd, this`block, this`marker, this`utf8, this`headerFound, this`entryFile)
      ensures !keepHeaders ==> writer.content == Appended(old(writer.content), PRAGMA_HDRSTOP)
      ensures keepHeaders ==> writer.content == Appended(old(writer.content), data[old(ptrCopy)..ptrRead])
      ensures WriterKept()
    {
      if !keepHeaders {
        StartsWithConcat(PRAGMA_HDRSTOP, []);
        assert PRAGMA_HDRSTOP + [] == PRAGMA_HDRSTOP;
        Flush();
        AppendedNothing(old(writer.content));
        WriteMark(PRAGMA_HDRSTOP);
        AppendedNothing(old(writer.content));
      } else {
        Flush();
        done := true;
      }
    }

    /** `parse_directive_pragma`, after `#pragma`: the first `hdrstop`
        passes the marker, writing `#pragma hdrstop` itself when headers
        are not kept; any other pragma is skipped to the end of its line. */
    method ParseDirectivePragma() returns (r: Result<(), PostprocessError>, ghost token: seq<byte>)
      requires Valid() && ptrEnd == |data|
      modifies this, writer
      ensures Valid() && ptrEnd == |data| && old(ptrRead) <= ptrRead
      ensures unchanged(this`marker, this`utf8, this`headerFound, this`entryFile) && WriterKept()
      ensures r.Err? ==> r.error == TokenTooLong
      ensures r.Ok? ==> var j := SpacesEnd(data, old(ptrRead)); token == TokenRead(data, j, PRAGMA_TOKEN, asWritten)
      ensures r.Ok? ==> done == (old(done) || token == HDRSTOP)
      ensures var j := SpacesEnd(data, old(ptrRead));
        && (r.Ok? <==> TokenEnd(data, j) - j <= PRAGMA_TOKEN)
        && (r.Ok? && token == HDRSTOP ==> ptrRead == TokenEnd(data, j))
      ensures old(Unmarked()) ==> Unmarked()
      ensures r.Ok? && token == HDRSTOP && !old(done) && !keepHeaders ==>
        writer.content == Appended(old(writer.content), PRAGMA_HDRSTOP)
      ensures r.Ok? && token == HDRSTOP && !old(done) && keepHeaders ==>
        ptrCopy == ptrRead && writer.content == Appended(old(writer.content), data[old(ptrCopy)..ptrRead])
    {
      token := [];
      ParseSpaces();
      ghost var c1, p1 := writer.content, ptrCopy;
      var t := ParseToken(PRAGMA_TOKEN);
      if t.Err? {
        return Err(t.error), token;
      }
      token := t.value;
      ghost var fwd := keepHeaders || done;
      ForwardCompose(data, fwd, old(writer.content), c1, writer.content, old(ptrCopy), p1, ptrCopy);
      if t.value == HDRSTOP {
        if !done {
          ghost var c2, p2 := writer.content, ptrCopy;
          PassHdrstop();
          if keepHeaders {
            ForwardCompose(data, fwd, old(writer.content), c2, writer.content, old(ptrCopy), p2, ptrCopy);
          } else {
            AppendedNothing(old(writer.content));
          }
        }
      } else {
        NextLine();
      }
      r := Ok(());
    }

    /** The start of `parse_directive_line`: spaces, the line number token
        and the spaces after it. */
    method LineNumber() returns (r: Result<seq<byte>, PostprocessError>)
      requires Valid() && ptrEnd == |data|
      modifies this, writer
      ensures Valid() && ptrEnd == |data| && old(ptrRead) <= ptrRead
      ensures FlagsKept() && WriterKept() && Forwarded()
      ensures r.Err? ==> r.error == TokenTooLong
      ensures r.Ok? ==> var j1 := SpacesEnd(data, old(ptrRead)); var k1 := TokenEnd(data, j1);
        && k1 - j1 <= LINE_TOKEN && r.value == TokenRead(data, j1, LINE_TOKEN, asWritten) && ptrRead == SpacesEnd(data, k1)
        && (ptrRead < |data| ==> block == old(block))
    {
      ghost var fwd := keepHeaders || done;
      ParseSpaces();
      ghost var c1, p1 := writer.content, ptrCopy;
      r := ParseToken(LINE_TOKEN);
      ForwardCompose(data, fwd, old(writer.content), c1, writer.content, old(ptrCopy), p1, ptrCopy);
      if r.Ok? {
        ghost var c2, p2 := writer.content, ptrCopy;
        ParseSpaces();
        ForwardCompose(data, fwd, old(writer.content), c2, writer.content, old(ptrCopy), p2, ptrCopy);
      }
    }

    /** The rest of `parse_directive_line`'s operands: the quoted file name
        and the line end after it. */
    method FileOperand() returns (r: Result<(seq<byte>, seq<byte>, seq<byte>), PostprocessError>, ghost j: nat)
      requires Valid() && ptrEnd == |data|
      modifies this, writer
      ensures Valid() && ptrEnd == |data| && old(ptrRead) <= ptrRead
      ensures FlagsKept() && WriterKept() && Forwarded()
      ensures r.Err? ==> ScanError(r.error)
      ensures r.Ok? ==> old(ptrRead) < |data| && var s := ScanPathIn(data, old(ptrRead), asWritten);
        && s.PathOk? && r.value.0 == s.token && r.value.1 == s.raw
        && j == LineEnd(data, s.next) && r.value.2 == EolAt(data, j)
        && ptrRead == (if j < |data| then j + 1 else |data|)
        && block == old(block) + (if j == |data| then 1 else 0)
    {
      j := 0;
      ghost var fwd := keepHeaders || done;
      var path := ParsePath();
      if path.Err? {
        return Err(path.error), j;
      }
      ghost var n, c4, p4 := ptrRead, writer.content, ptrCopy;
      j := LineEnd(data, n);
      var eol := NextLineEol();
      ForwardCompose(data, fwd, old(writer.content), c4, writer.content, old(ptrCopy), p4, ptrCopy);
      r := Ok((path.value.0, path.value.1, eol));
    }

    /** The operands of `parse_directive_line`: the line number, the quoted
        file name and the rest of the line. */
    method LineHeader() returns (r: Result<LineDirective, PostprocessError>, ghost j: nat)
      requires Valid() && ptrEnd == |data|
      modifies this, writer
      ensures Valid() && ptrEnd == |data| && old(ptrRead) <= ptrRead
      ensures FlagsKept() && WriterKept() && Forwarded()
      ensures r.Err? ==> ScanError(r.error)
      ensures r.Ok? ==> && LineDirectiveAt(data, old(ptrRead), r.value, j, asWritten)
                        && ptrRead == (if j < |data| then j + 1 else |data|)
                        && block == old(block) + (if j == |data| then 1 else 0)
    {
      j := 0;
      ghost var fwd := keepHeaders || done;
      var line := LineNumber();
      if line.Err? {
        return Err(line.error), j;
      }
      ghost var c3, p3 := writer.content, ptrCopy;
      var file;
      file, j := FileOperand();
      ForwardCompose(data, fwd, old(writer.content), c3, writer.content, old(ptrCopy), p3, ptrCopy);
      if file.Err? {
        return Err(file.error), j;
      }
      r := Ok(LineDirective(line.value, file.value.0, file.value.1, file.value.2));
    }
  
    /** The `#line 1` check of `parse_directive_line`: a separator for a
        pending source hands the previous output to the worker and starts
        afresh, dropping the directive itself when headers are not kept. A
        directive that started in an earlier block is refused. */
    method Separate(blk: int, d: LineDirective) returns (r: Result<(), PostprocessError>, sep: bool)
      requires Valid() && ptrEnd == |data|
      modifies this, writer
      ensures Valid() && ptrEnd == |data|
      ensures unchanged(this`ptrRead, this`ptrEnd, this`block, this`marker, this`utf8)
      ensures sep <==> d.line == ONE && d.file in old(writer.sources) && old(writer.sources)[d.file] in old(writer.pending)
      ensures writer.sources == if d.line == ONE then old(writer.sources) - {d.file} else old(writer.sources)
      ensures sep ==>
        && !done && !headerFound && entryFile == None
        && writer.pending == old(writer.pending) - {old(writer.sources)[d.file]}
        && writer.content == Some(VsContent(old(writer.sources)[d.file], []))
        && ptrCopy == (if keepHeaders then old(ptrCopy) else ptrRead)
        && (r.Ok? <==> block == blk) && (r.Err? ==> r.error == TokenTooLong)
      ensures !sep ==> r.Ok? && unchanged(this`ptrCopy, this`done, this`headerFound, this`entryFile)
      ensures !sep ==> unchanged(writer`pending, writer`content, writer`delivered)
    {
      r, sep := Ok(()), false;
      if d.line == ONE {
        ghost var c, log := writer.content, writer.delivered;
        sep := writer.IsSourceSeparator(d.file);
        if sep {
          if !keepHeaders && c.Some? {
            assert HeaderFree(Success(c.value.data));
            assert writer.delivered == log + [Delivery(c.value.inputSource, Success(c.value.data))];
          }
          done := false;
          headerFound := false;
          entryFile := None;
          if !keepHeaders {
            // Skip current directive.
            ptrCopy := ptrRead;
          }
          if block != blk {
            r := Err(TokenTooLong);
          }
        }
      }
    }

    /** The entry-file bookkeeping of `parse_directive_line`: the first
        `#line` names the entry file; a later one back to it after the
        marked header writes the mark and passes the marker; a file that
        is the marked header sets `headerFound`. */
    method EnterFile(d: LineDirective)
      requires Valid() && ptrEnd == |data|
      modifies this, writer
      ensures Valid() && ptrEnd == |data|
      ensures unchanged(this`ptrRead, this`ptrEnd, this`block, this`marker, this`utf8) && WriterKept()
      ensures old(entryFile).None? ==>
        && entryFile == Some(d.file) && unchanged(this`headerFound, this`done, this`ptrCopy)
        && writer.content == old(writer.content)
      ensures old(entryFile).Some? ==>
        && entryFile == old(entryFile)
        && headerFound == (old(headerFound) || (marker.Some? && IsSubpath(d.file, marker.value)))
        && var mark := old(headerFound) && old(entryFile).value == d.file;
        && done == (old(done) || mark)
        && (mark ==> ptrCopy == ptrRead
                     && writer.content == Appended(Appended(old(writer.content), old(Pending(ptrCopy))), Mark(d)))
        && (!mark ==> ptrCopy == old(ptrCopy) && writer.content == old(writer.content))
    {
      match entryFile
      case Some(path) =>
        if headerFound && path == d.file {
          WriteMark(Mark(d));
        }
        if marker.Some? && IsSubpath(d.file, marker.value) {
          headerFound := true;
        }
      case None =>
        entryFile := Some(d.file);
    }

    /** `parse_directive_line`, after `#line`, for a directive whose block
        was `blk` when it started. */
    method ParseDirectiveLine(blk: int) returns (r: Result<(), PostprocessError>, d: LineDirective, ghost j: nat, ghost sep: bool)
      requires Valid() && ptrEnd == |data|
      modifies this, writer
      ensures Valid() && ptrEnd == |data| && old(ptrRead) <= ptrRead
      ensures unchanged(this`marker, this`utf8)
      ensures r.Err? ==> ScanError(r.error)
      ensures r.Ok? ==> LineDirectiveAt(data, old(ptrRead), d, j, asWritten) && ptrRead == (if j < |data| then j + 1 else |data|)
      ensures r.Ok? ==> (sep <==> d.line == ONE && d.file in old(writer.sources) && old(writer.sources)[d.file] in old(writer.pending))
      ensures r.Ok? && sep ==>
        && entryFile == Some(d.file) && !headerFound && !done
        && writer.pending == old(writer.pending) - {old(writer.sources)[d.file]}
        && writer.content == Some(VsContent(old(writer.sources)[d.file], []))
      ensures r.Ok? && !sep ==> writer.pending == old(writer.pending) && writer.delivered == old(writer.delivered)
      ensures r.Ok? && !sep && old(entryFile).None? ==>
        entryFile == Some(d.file) && headerFound == old(headerFound) && done == old(done)
      ensures r.Ok? && !sep && old(entryFile).Some? ==>
        && entryFile == old(entryFile)
        && headerFound == (old(headerFound) || (marker.Some? && IsSubpath(d.file, marker.value)))
        && done == (old(done) || (old(headerFound) && old(entryFile).value == d.file))
      ensures r.Ok? && !sep && !keepHeaders && !old(done) ==>
        writer.content == if old(entryFile) == Some(d.file) && old(headerFound) then Appended(old(writer.content), Mark(d)) else old(writer.content)
      ensures old(Unmarked()) ==> Unmarked()
    {
      d, sep := LineDirective([], [], [], []), false;
      var h;
      h, j := LineHeader();
      if h.Err? {
        return Err(h.error), d, j, sep;
      }
      d := h.value;
      AppendedNothing(old(writer.content));
      var isSep;
      r, isSep := Separate(blk, d);
      sep := isSep;
      if r.Err? {
        return r, d, j, sep;
      }
      EnterFile(d);
      AppendedNothing(old(writer.content));
    }
  
    /** `parse_directive`, at a `#`: once the marker is passed the bytes
        so far are flushed first; `#line` and `#pragma` are handled, any other
        directive is skipped to the end of its line. */
    method ParseDirective() returns (r: Result<(), PostprocessError>, ghost name: seq<byte>)
      requires Valid() && ptrEnd == |data| && ptrRead < |data| && data[ptrRead] == HASH
      modifies this, writer
      ensures Valid() && ptrEnd == |data| && old(ptrRead) < ptrRead
      ensures unchanged(this`marker, this`utf8)
      ensures r.Err? ==> ScanError(r.error)
      ensures r.Ok? && name != LINE && name != PRAGMA ==>
        unchanged(this`done, this`headerFound, this`entryFile) && WriterKept()
      ensures ScansPragmaHdrstop(data, old(ptrRead), asWritten) ==>
        r.Ok? && done && ptrRead == old(ptrRead) + |PRAGMA_HDRSTOP|
      ensures old(Unmarked()) ==> Unmarked()
    {
      name := [];
      ghost var i0 := ptrRead;
      ghost var hl := ScansPragmaHdrstop(data, i0, asWritten);
      var blk, t := DirectiveHead();
      if t.Ok? {
        name := t.value;
      }
      assert hl ==> t == Ok(PRAGMA) && ptrRead == i0 + 1 + |PRAGMA|;
      r := DirectiveNamed(t, blk);
    }

    /** The head of `parse_directive`: the preload, then the name. */
    method DirectiveHead() returns (blk: int, t: Result<seq<byte>, PostprocessError>)
      requires Valid() && ptrEnd == |data| && ptrRead < |data|
      modifies this, writer
      ensures Valid() && ptrEnd == |data| && old(ptrRead) < ptrRead
      ensures FlagsKept() && WriterKept()
      ensures t.Err? ==> t.error == TokenTooLong
      ensures var j := SpacesEnd(data, old(ptrRead) + 1); t.Ok? <==> TokenEnd(data, j) - j <= DIRECTIVE_TOKEN
      ensures t.Ok? ==> var j := SpacesEnd(data, old(ptrRead) + 1);
        ptrRead == TokenEnd(data, j) && t.value == TokenRead(data, j, DIRECTIVE_TOKEN, asWritten)
    {
      blk := PreloadIfDone();
      t := DirectiveName();
    }

    /** The start of `parse_directive`: a preload once the marker is
        passed; `blk` is the block the directive starts in. */
    method PreloadIfDone() returns (blk: int)
      requires Valid() && ptrEnd == |data|
      modifies this, writer
      ensures Valid() && ptrEnd == |data| && ptrRead == old(ptrRead) && blk == block
      ensures FlagsKept() && WriterKept()
      ensures done ==> ptrCopy == ptrRead && block == old(block) + 1
      ensures done ==> writer.content == Appended(old(writer.content), Pending(old(ptrCopy)))
    {
      if done {
        Preload();
      }
      blk := block;
    }

    /** The name of a directive, after its `#`. */
    method DirectiveName() returns (t: Result<seq<byte>, PostprocessError>)
      requires Valid() && ptrEnd == |data| && ptrRead < |data|
      modifies this, writer
      ensures Valid() && ptrEnd == |data| && old(ptrRead) < ptrRead
      ensures FlagsKept() && WriterKept()
      ensures t.Err? ==> t.error == TokenTooLong
      ensures var j := SpacesEnd(data, old(ptrRead) + 1); t.Ok? <==> TokenEnd(data, j) - j <= DIRECTIVE_TOKEN
      ensures t.Ok? ==> var j := SpacesEnd(data, old(ptrRead) + 1);
        ptrRead == TokenEnd(data, j) && t.value == TokenRead(data, j, DIRECTIVE_TOKEN, asWritten)
    {
      ptrRead := ptrRead + 1;
      ParseSpaces();
      t := ParseToken(DIRECTIVE_TOKEN);
    }

    /** The dispatch of `parse_directive` on the directive's name. */
    method DirectiveNamed(t: Result<seq<byte>, PostprocessError>, blk: int) returns (r: Result<(), PostprocessError>)
      requires Valid() && ptrEnd == |data|
      requires t.Err? ==> t.error == TokenTooLong
      modifies this, writer
      ensures Valid() && ptrEnd == |data| && old(ptrRead) <= ptrRead
      ensures unchanged(this`marker, this`utf8)
      ensures r.Err? ==> ScanError(r.error)
      ensures t.Err? ==> r == Err(t.error)
      ensures r.Ok? && t.Ok? && t.value != LINE && t.value != PRAGMA ==>
        unchanged(this`done, this`headerFound, this`entryFile) && WriterKept()
      ensures var j := SpacesEnd(data, old(ptrRead));
        t == Ok(PRAGMA) && TokenEnd(data, j) - j <= PRAGMA_TOKEN && TokenRead(data, j, PRAGMA_TOKEN, asWritten) == HDRSTOP ==>
          r.Ok? && done && ptrRead == TokenEnd(data, j)
      ensures old(Unmarked()) ==> Unmarked()
    {
      if t.Err? {
        r := Err(t.error);
      } else if t.value == LINE {
        var d;
        ghost var j, sep;
        r, d, j, sep := ParseDirectiveLine(blk);
      } else if t.value == PRAGMA {
        ghost var token;
        r, token := ParseDirectivePragma();
      } else {
        NextLine();
        r := Ok(());
      }
    }

    /** `parse_line`: blank lines are skipped; a line starting with `#` is a
        directive, any other line is skipped whole. */
    method ParseLine() returns (r: Result<(), PostprocessError>)
      requires Valid() && ptrEnd == |data| && ptrRead < |data|
      modifies this, writer
      ensures Valid() && ptrEnd == |data| && old(ptrRead) < ptrRead
      ensures unchanged(this`marker, this`utf8)
      ensures r.Err? ==> ScanError(r.error)
      ensures var i := RunEnd(data, old(ptrRead), IsBlank);
        i == |data| || data[i] != HASH ==> unchanged(this`done, this`headerFound, this`entryFile) && WriterKept()
      ensures RunEnd(data, old(ptrRead), IsBlank) == |data| ==> r.Ok?
      ensures ScansPragmaHdrstop(data, old(ptrRead), asWritten) ==>
        r.Ok? && done && ptrRead == old(ptrRead) + |PRAGMA_HDRSTOP|
      ensures old(Unmarked()) ==> Unmarked()
    {
      if ScansPragmaHdrstop(data, ptrRead, asWritten) {
        RunEndAt(data, ptrRead, ptrRead, IsBlank);
      }
      ParseEmpty();
      var c := Peek();
      match c
      case Some(b) =>
        if b == HASH {
          ghost var name;
          r, name := ParseDirective();
        } else {
          NextLine();
          r := Ok(());
        }
      case None =>
        r := Ok(());
    }

    /** The marker in the encoding of the output: UTF-8 after a BOM, else
        the ANSI encoding of the path with forward slashes. */
    method ConvertMarker(m: Option<string>, ansi: string -> Option<seq<byte>>) returns (r: Result<(), PostprocessError>)
      modifies this`marker
      ensures m.Some? && !utf8 && ansi(Slashes(m.value)).None? <==> r == Err(AnsiEncoding)
      ensures r.Err? ==> r.error == AnsiEncoding
      ensures r.Ok? ==> marker == (if m.None? then None else if utf8 then Some(Utf8(m.value)) else ansi(Slashes(m.value)))
    {
      r := Ok(());
      if m.Some? {
        if utf8 {
          marker := Some(Utf8(m.value));
        } else {
          var bytes := ansi(Slashes(m.value));
          if bytes.None? {
            return Err(AnsiEncoding);
          }
          marker := bytes;
        }
      } else {
        marker := None;
      }
    }

    /** The main loop of `filter_preprocessed`: line after line until a
        read finds the end of the input. */
    method ScanLines() returns (r: Result<(), PostprocessError>)
      requires Valid() && ptrEnd == |data|
      modifies this, writer
      ensures Valid()
      ensures unchanged(this`marker, this`utf8)
      ensures r.Ok? ==> ptrRead == |data|
      ensures r.Err? ==> ScanError(r.error)
      ensures old(Unmarked()) ==> Unmarked()
      ensures HdrstopLine(data, old(ptrRead), asWritten) ==> r.Ok? && done
    {
      while true
        invariant Valid() && ptrEnd == |data|
        invariant unchanged(this`marker, this`utf8)
        invariant old(Unmarked()) ==> Unmarked()
        invariant HdrstopLine(data, old(ptrRead), asWritten) ==>
          ptrRead == old(ptrRead) || (done && ptrRead >= old(ptrRead) + |PRAGMA_HDRSTOP|)
        decreases |data| - ptrRead
      {
        if ptrRead == ptrEnd {
          var more := Read();
          if !more {
            break;
          }
        }
        if HdrstopLine(data, old(ptrRead), asWritten) {
          if ptrRead == old(ptrRead) {
            PragmaHdrstopScans(data, ptrRead, asWritten);
          } else {
            // only blanks are left
            RunEndAt(data, ptrRead, |data|, IsBlank);
          }
        }
        var e := ParseLine();
        if e.Err? {
          return e;
        }
      }
      r := Ok(());
    }

    /** The start of `filter_preprocessed`: the byte-order mark, then the
        marker in the output's encoding. */
    method Start(m: Option<string>, ansi: string -> Option<seq<byte>>) returns (r: Result<(), PostprocessError>)
      requires Valid() && ptrRead == 0 && ptrEnd == 0 && marker == None && !utf8
      modifies this, writer
      ensures Valid() && ptrEnd == |data| && ptrRead == BomMatched(data)
      ensures utf8 <==> |data| >= 3 && data[..3] == BOM
      ensures m.Some? && !utf8 && ansi(Slashes(m.value)).None? <==> r == Err(AnsiEncoding)
      ensures r.Err? ==> r.error == AnsiEncoding
      ensures r.Ok? ==> marker == (if m.None? then None else if utf8 then Some(Utf8(m.value)) else ansi(Slashes(m.value)))
      ensures unchanged(this`headerFound, this`entryFile, this`done)
    {
      ParseBom();
      r := ConvertMarker(m, ansi);
    }

    /** The body of `filter_preprocessed` on a fresh scanner. `completed`
        tells that the input was used up without an error. */
    method Run(m: Option<string>, ansi: string -> Option<seq<byte>>) returns (r: Result<(), PostprocessError>, ghost completed: bool)
      requires Valid() && ptrRead == 0 && ptrEnd == 0 && marker == None && !utf8
      modifies this, writer
      ensures Valid()
      ensures utf8 <==> |data| >= 3 && data[..3] == BOM
      ensures m.Some? && !utf8 && ansi(Slashes(m.value)).None? ==> r == Err(AnsiEncoding) && !completed
      ensures completed ==> marker == (if m.None? then None else if utf8 then Some(Utf8(m.value)) else ansi(Slashes(m.value)))
      ensures completed ==> ptrRead == |data| && (r.Ok? <==> done) && (r.Err? ==> r.error == MarkerNotFound)
      ensures !completed ==> r.Err? && r.error != MarkerNotFound
      ensures m.None? && NoHdrstop(data, asWritten) && !old(done) && !old(headerFound) ==> r.Err?
      ensures m.None? && HdrstopLine(data, 0, asWritten) ==> r.Ok?
    {
      completed := false;
      if HdrstopLine(data, 0, asWritten) {
        HdrstopTokenRuns(data, 0, asWritten);
      }
      r := Start(m, ansi);
      if r.Err? {
        return r, completed;
      }
      var e := ScanLines();
      if e.Err? {
        return e, completed;
      }
      completed := true;
      if done {
        r := Ok(());
      } else {
        r := Err(MarkerNotFound);
      }
    }
  }

  /** `filter_preprocessed`: copies the preprocessed `data` to `writer`,
      dropping everything before the precompiled-header marker unless
      `keepHeaders`. `ansi` is the system's ANSI encoder, used for the
      marker when the output has no BOM; `asWritten` selects the scanner
      as written or the corrected one. Without a marker the filter only
      succeeds past a `#pragma hdrstop`. */
  method FilterPreprocessed(data: seq<byte>, writer: VsPreprocessor, marker: Option<string>, keepHeaders: bool,
                            asWritten: bool, ansi: string -> Option<seq<byte>>)
    returns (r: Result<(), PostprocessError>, ghost completed: bool, ghost done: bool)
    requires writer.Valid()
    requires !keepHeaders ==> ContentHeaderFree(writer.content, false)
    modifies writer
    ensures writer.Valid()
    ensures !keepHeaders ==> DeliveredHeaderFree(writer.delivered, |old(writer.delivered)|) && ContentHeaderFree(writer.content, done)
    ensures marker.Some? && !StartsWith(data, BOM) && ansi(Slashes(marker.value)).None? ==> r == Err(AnsiEncoding) && !completed
    ensures completed ==> (r.Ok? <==> done) && (r.Err? ==> r.error == MarkerNotFound)
    ensures !completed ==> r.Err? && r.error != MarkerNotFound
    ensures marker.None? && NoHdrstop(data, asWritten) ==> r.Err?
    ensures marker.None? && HdrstopLine(data, 0, asWritten) ==> r.Ok?
  {
    var s := new Scanner(data, writer, keepHeaders, asWritten);
    r, completed := s.Run(marker, ansi);
    done := s.done;
    StartsWithPrefix(data, BOM);
  }
}
