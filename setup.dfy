/** The installer helpers of `wixcs/setup.cs`: the version read from the
    package manifest and the environment variable fanned out to a
    per-machine and a per-user installation. */
module Setup {
  import opened Common

  // ---------------------------------------------------------------------
  // ReadVersion: the first line matching ^\s*version\s*=\s*"(\S+)"

  /** `\s`: the control characters U+0009 to U+000D and U+0085, and the
      separators `\p{Z}` (U+0020, U+00A0, U+1680, U+2000 to U+200A, U+2028,
      U+2029, U+202F, U+205F, U+3000). */
  predicate IsSpace(c: char) {
    var n := c as int;
    || (0x09 <= n <= 0x0D) || n == 0x85 || n == 0x20 || n == 0xA0 || n == 0x1680
    || (0x2000 <= n <= 0x200A) || n == 0x2028 || n == 0x2029 || n == 0x202F
    || n == 0x205F || n == 0x3000
  }

  /** End of the run of `\s` (`space`) or `\S` (`!space`) from `i`. */
  function RunOf(l: string, i: nat, space: bool): (j: nat)
    requires i <= |l|
    ensures i <= j <= |l|
    ensures forall k :: i <= k < j ==> IsSpace(l[k]) == space
    ensures j == |l| || IsSpace(l[j]) != space
    decreases |l| - i
  {
    if i == |l| || IsSpace(l[i]) != space then i else RunOf(l, i + 1, space)
  }

  /** A run ends where the character class first changes. */
  lemma RunOfAt(l: string, i: nat, j: nat, space: bool)
    requires i <= j <= |l|
    requires forall k :: i <= k < j ==> IsSpace(l[k]) == space
    requires j == |l| || IsSpace(l[j]) != space
    ensures RunOf(l, i, space) == j
  {
  }

  /** The last `"` in `l[lo..hi]`. */
  function LastQuote(l: string, lo: nat, hi: nat): (r: Option<nat>)
    requires lo <= hi <= |l|
    ensures r.Some? ==> lo <= r.value < hi && l[r.value] == '"'
    ensures r.Some? ==> forall k :: r.value < k < hi ==> l[k] != '"'
    ensures r.None? ==> forall k :: lo <= k < hi ==> l[k] != '"'
    decreases hi
  {
    if hi <= lo then None else if l[hi - 1] == '"' then Some(hi - 1) else LastQuote(l, lo, hi - 1)
  }

  const VERSION: string := "version"

  predicate KeywordAt(line: string, a: nat) {
    a + |VERSION| <= |line| && line[a..a + |VERSION|] == VERSION
  }

  /** The matcher for `^\s*version\s*=\s*"`: where the group starts. */
  function GroupStart(line: string): Option<nat> {
    var a := RunOf(line, 0, true);
    if !KeywordAt(line, a) then None
    else
      var b := RunOf(line, a + |VERSION|, true);
      if !(b < |line| && line[b] == '=') then None
      else
        var c := RunOf(line, b + 1, true);
        if !(c < |line| && line[c] == '"') then None else Some(c + 1)
  }

  /** The head of the pattern matches `line` with the leading whitespace
      ending at `a`, the `=` at `b` and the opening quote just before `s`. */
  ghost predicate HeadAt(line: string, a: nat, b: nat, s: nat) {
    && a + |VERSION| <= b && b + 1 < s <= |line|
    && (forall k :: 0 <= k < a ==> IsSpace(line[k]))
    && KeywordAt(line, a)
    && (forall k :: a + |VERSION| <= k < b ==> IsSpace(line[k]))
    && line[b] == '='
    && (forall k :: b + 1 <= k < s - 1 ==> IsSpace(line[k]))
    && line[s - 1] == '"'
  }

  lemma GroupStartSound(line: string)
    requires GroupStart(line).Some?
    ensures exists a, b :: HeadAt(line, a, b, GroupStart(line).value)
  {
    var a := RunOf(line, 0, true);
    var b := RunOf(line, a + |VERSION|, true);
    assert HeadAt(line, a, b, GroupStart(line).value);
  }

  /** The head can match in one way only, and the matcher finds it. */
  lemma GroupStartComplete(line: string, a: nat, b: nat, s: nat)
    requires HeadAt(line, a, b, s)
    ensures GroupStart(line) == Some(s)
  {
    assert line[a] == VERSION[0];
    RunOfAt(line, 0, a, true);
    RunOfAt(line, a + |VERSION|, b, true);
    RunOfAt(line, b + 1, s - 1, true);
  }

  /** The matcher for `(\S+)"` from `s`: where the group ends. The greedy
      `\S+` takes the whole run of non-space characters and gives
      characters back until a `"` follows, so the group ends at the last
      quote of that run. */
  function GroupEnd(line: string, s: nat): Option<nat>
    requires s <= |line|
  {
    var t := RunOf(line, s, false);
    if t < s + 1 then None else LastQuote(line, s + 1, t)
  }

  /** `line[s..e]` can be the group: non-space characters, then a quote. */
  ghost predicate GroupAt(line: string, s: nat, e: nat) {
    && s < e < |line|
    && (forall k :: s <= k < e ==> !IsSpace(line[k]))
    && line[e] == '"'
  }

  lemma GroupEndSound(line: string, s: nat)
    requires s <= |line| && GroupEnd(line, s).Some?
    ensures GroupAt(line, s, GroupEnd(line, s).value)
  {
  }

  /** Every possible end of the group is found, and the matcher takes the last. */
  lemma GroupEndGreedy(line: string, s: nat, e: nat)
    requires GroupAt(line, s, e)
    ensures GroupEnd(line, s).Some? && GroupEnd(line, s).value >= e
  {
  }

  /** The hand-written matcher: the group the pattern captures in `line`. */
  function MatchVersion(line: string): Option<string> {
    match GroupStart(line)
    case None => None
    case Some(s) =>
      match GroupEnd(line, s)
      case None => None
      case Some(e) => Some(line[s..e])
  }

  /** The pattern matches `line` with its group at `line[s..e]`. */
  ghost predicate CaptureAt(line: string, a: nat, b: nat, s: nat, e: nat) {
    HeadAt(line, a, b, s) && GroupAt(line, s, e)
  }

  /** What the matcher returns is a capture of the pattern. */
  lemma MatchVersionSound(line: string)
    requires MatchVersion(line).Some?
    ensures exists a: nat, b: nat, s: nat, e: nat :: CaptureAt(line, a, b, s, e) && MatchVersion(line).value == line[s..e]
  {
    GroupStartSound(line);
    var s := GroupStart(line).value;
    var a, b :| HeadAt(line, a, b, s);
    GroupEndSound(line, s);
    assert CaptureAt(line, a, b, s, GroupEnd(line, s).value);
  }

  /** Every way the pattern can match is found, and the matcher returns the
      longest group, the one backtracking from the greedy `\S+` yields. */
  lemma MatchVersionGreedy(line: string, a: nat, b: nat, s: nat, e: nat)
    requires CaptureAt(line, a, b, s, e)
    ensures MatchVersion(line).Some?
    ensures |MatchVersion(line).value| >= e - s
    ensures line[s..e] == MatchVersion(line).value[..e - s]
  {
    GroupStartComplete(line, a, b, s);
    GroupEndGreedy(line, s, e);
  }

  /** `ReadVersion` over the lines read from the manifest: the group of
      the first line that matches, or nothing (`null`). */
  method ReadVersion(lines: seq<string>) returns (r: Option<string>)
    ensures r.None? <==> forall i :: 0 <= i < |lines| ==> MatchVersion(lines[i]).None?
    ensures r.Some? ==>
      exists i :: 0 <= i < |lines| && MatchVersion(lines[i]) == r && forall k :: 0 <= k < i ==> MatchVersion(lines[k]).None?
  {
    var i := 0;
    while i < |lines|
      invariant 0 <= i <= |lines|
      invariant forall k :: 0 <= k < i ==> MatchVersion(lines[k]).None?
    {
      var line := lines[i];
      var m := MatchVersion(line);
      if m.Some? {
        return m;
      }
      i := i + 1;
    }
    return None;
  }

  /** The text `version = "` after some whitespace is the head of the pattern. */
  lemma HeadShape(indent: string, tail: string)
    requires forall k :: 0 <= k < |indent| ==> IsSpace(indent[k])
    ensures var head := indent + VERSION + [' ', '=', ' ', '"'];
      HeadAt(head + tail, |indent|, |indent| + |VERSION| + 1, |head|)
  {
    var head := indent + VERSION + [' ', '=', ' ', '"'];
    var line := head + tail;
    var a := |indent|;
    assert line[..a] == indent;
    assert line[a..a + |VERSION|] == VERSION;
    assert line[a + |VERSION|] == ' ' && line[a + |VERSION| + 1] == '=';
    assert line[a + |VERSION| + 2] == ' ' && line[|head| - 1] == '"';
  }

  /** A quoted token without spaces or quotes, followed by a space or the
      end of the line, is the group. */
  lemma GroupShape(head: string, version: string, rest: string)
    requires version != [] && forall k :: 0 <= k < |version| ==> !IsSpace(version[k]) && version[k] != '"'
    requires rest == [] || IsSpace(rest[0])
    ensures GroupEnd(head + version + ['"'] + rest, |head|) == Some(|head| + |version|)
  {
    var line := head + version + ['"'] + rest;
    var s := |head|;
    var e := s + |version|;
    assert line[s..e] == version;
    assert line[e] == '"';
    if rest != [] {
      assert line[e + 1] == rest[0];
    }
    RunOfAt(line, s, e + 1, false);
    assert LastQuote(line, s + 1, e + 1) == Some(e);
  }

  /** A manifest line of the usual shape gives its quoted version. */
  lemma MatchVersionShape(indent: string, version: string, rest: string)
    requires forall k :: 0 <= k < |indent| ==> IsSpace(indent[k])
    requires version != [] && forall k :: 0 <= k < |version| ==> !IsSpace(version[k]) && version[k] != '"'
    requires rest == [] || IsSpace(rest[0])
    ensures MatchVersion(indent + VERSION + [' ', '=', ' ', '"'] + version + ['"'] + rest) == Some(version)
  {
    var head := indent + VERSION + [' ', '=', ' ', '"'];
    var tail := version + ['"'] + rest;
    var line := head + version + ['"'] + rest;
    assert line == head + tail;
    HeadShape(indent, tail);
    GroupStartComplete(line, |indent|, |indent| + |VERSION| + 1, |head|);
    GroupShape(head, version, rest);
    assert line[|head|..|head| + |version|] == version;
  }

  // ---------------------------------------------------------------------
  // CreateEnvironmentVariables

  /** The WixSharp enumerations `EnvVarPart` and `EnvVarAction`. */
  datatype EnvVarPart = All | First | Last
  datatype EnvVarAction = Set | Create | Remove

  /** The fields of a WixSharp `EnvironmentVariable` the installer sets; the
      feature is named by its title. */
  datatype EnvironmentVariable = EnvironmentVariable(
    feature: string,
    name: string,
    value: string,
    permanent: bool,
    part: EnvVarPart,
    action: EnvVarAction,
    system: bool,
    condition: Option<string>)

  /** `CreateEnvironmentVariables`: the variable for machine-wide
      installations, then for per-user ones. */
  function CreateEnvironmentVariables(v: EnvironmentVariable): (r: seq<EnvironmentVariable>)
    ensures |r| == 2
    ensures r[0].system && r[0].condition == Some("ALLUSERS")
    ensures !r[1].system && r[1].condition == Some("NOT ALLUSERS")
  {
    [
      EnvironmentVariable(v.feature, v.name, v.value, v.permanent, v.part, v.action, true, Some("ALLUSERS")),
      EnvironmentVariable(v.feature, v.name, v.value, v.permanent, v.part, v.action, false, Some("NOT ALLUSERS"))
    ]
  }

  /** Both entries are the input except for where it is installed. */
  lemma CreateEnvironmentVariablesCopy(v: EnvironmentVariable)
    ensures forall i :: 0 <= i < 2 ==>
      CreateEnvironmentVariables(v)[i].(system := v.system, condition := v.condition) == v
    ensures CreateEnvironmentVariables(v)[0] != CreateEnvironmentVariables(v)[1]
  {
  }
}
