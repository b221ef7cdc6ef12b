/** The parts of Rust's `std::path` that the core relies on, over paths written
    with `/` as the only separator: `file_name`, `parent`, `extension`,
    `file_stem`, `with_extension`, `join` and `is_absolute`. */
module Paths {
  import opened Common

  type Path = string

  /** Index of the last occurrence of `c` in `s`. */
  function LastIndexOf(s: string, c: char): (r: Option<nat>)
    ensures r.Some? ==> r.value < |s| && s[r.value] == c
    ensures r.Some? ==> forall j :: r.value < j < |s| ==> s[j] != c
    ensures r.None? ==> forall j :: 0 <= j < |s| ==> s[j] != c
  {
    if s == [] then None
    else if s[|s| - 1] == c then Some(|s| - 1)
    else LastIndexOf(s[..|s| - 1], c)
  }

  predicate IsAbsolute(p: Path) { |p| > 0 && p[0] == '/' }

  /** The text after the last separator. */
  function LastSegment(p: Path): (r: string)
    ensures '/' !in r
    ensures |r| <= |p| && r == p[|p| - |r|..]
  {
    match LastIndexOf(p, '/')
    case None => p
    case Some(i) => p[i + 1..]
  }

  /** Everything up to and including the last separator. */
  function DirPrefix(p: Path): (r: string)
    ensures r + LastSegment(p) == p
    ensures r == "" || r[|r| - 1] == '/'
  {
    match LastIndexOf(p, '/')
    case None => ""
    case Some(i) => p[..i + 1]
  }

  /** `Path::file_name`: None for an empty last segment, `.` or `..`. */
  function FileName(p: Path): (r: Option<string>)
    ensures r.Some? ==> r.value == LastSegment(p) && r.value != "" && '/' !in r.value
  {
    var n := LastSegment(p);
    if n == "" || n == "." || n == ".." then None else Some(n)
  }

  /** `Path::parent`: None for the empty path and the root. */
  function Parent(p: Path): (r: Option<Path>)
    ensures r.Some? ==> |r.value| < |p|
    ensures p == "" || p == "/" ==> r.None?
  {
    if p == "" || p == "/" then None
    else match LastIndexOf(p, '/')
      case None => Some("")
      case Some(i) => if i == 0 then Some("/") else Some(p[..i])
  }

  /** Rust's `split_file_at_dot`: (stem, extension) of a file name. A name
      whose only dot is its first character has no extension. */
  function SplitFileAtDot(name: string): (r: (string, Option<string>))
    ensures r.1.None? ==> r.0 == name
    ensures r.1.Some? ==> r.0 + "." + r.1.value == name && r.0 != ""
    ensures r.1.Some? ==> '.' !in r.1.value
  {
    if name == ".." then (name, None)
    else match LastIndexOf(name, '.')
      case None => (name, None)
      case Some(i) =>
        if i == 0 then (name, None)
        else
          assert name == name[..i] + "." + name[i + 1..];
          (name[..i], Some(name[i + 1..]))
  }

  /** `Path::extension`. */
  function Extension(p: Path): Option<string> {
    match FileName(p)
    case None => None
    case Some(n) => SplitFileAtDot(n).1
  }

  /** `Path::file_stem`. */
  function FileStem(p: Path): Option<string> {
    match FileName(p)
    case None => None
    case Some(n) => Some(SplitFileAtDot(n).0)
  }

  /** `Path::with_extension(ext)`: the file name is replaced by its stem,
      followed by `.` and `ext` when `ext` is not empty; a path without a
      file name is returned unchanged. */
  function WithExtension(p: Path, ext: string): (r: Path)
    ensures FileName(p).None? ==> r == p
  {
    match FileStem(p)
    case None => p
    case Some(stem) => DirPrefix(p) + stem + (if ext == "" then "" else "." + ext)
  }

  /** `Path::join`: an absolute argument replaces the base. */
  function Join(base: Path, p: Path): (r: Path)
    ensures IsAbsolute(p) ==> r == p
    ensures !IsAbsolute(p) && base == "" ==> r == p
  {
    if IsAbsolute(p) || base == "" then p
    else if base[|base| - 1] == '/' then base + p
    else base + "/" + p
  }

  /** `str::replace("\\", "/")`: every backslash becomes a slash. */
  function Slashes(s: string): (r: string)
    ensures |r| == |s|
    ensures forall i :: 0 <= i < |s| ==> r[i] == (if s[i] == '\\' then '/' else s[i])
    ensures '\\' !in r
  {
    if s == [] then [] else [if s[0] == '\\' then '/' else s[0]] + Slashes(s[1..])
  }

  lemma {:induction false} LastIndexOfAppendNone(a: string, b: string, c: char)
    requires c !in b
    ensures LastIndexOf(a + b, c) == LastIndexOf(a, c)
    decreases |b|
  {
    if b == [] {
      assert a + b == a;
    } else {
      assert (a + b)[..|a + b| - 1] == a + b[..|b| - 1];
      LastIndexOfAppendNone(a, b[..|b| - 1], c);
    }
  }

  lemma LastIndexOfAppendLast(a: string, b: string, c: char)
    requires c !in b
    ensures LastIndexOf(a + [c] + b, c) == Some(|a|)
  {
    LastIndexOfAppendNone(a + [c], b, c);
  }

  lemma SegmentsOfAppend(d: string, name: string)
    requires d == "" || d[|d| - 1] == '/'
    requires '/' !in name
    ensures LastSegment(d + name) == name
    ensures DirPrefix(d + name) == d
  {
    LastIndexOfAppendNone(d, name, '/');
    match LastIndexOf(d, '/')
    case None =>
      assert d == "";
      assert d + name == name;
    case Some(i) =>
      assert i == |d| - 1;
      assert (d + name)[i + 1..] == name;
      assert (d + name)[..i + 1] == d;
  }

  lemma SplitAppendExtension(stem: string, ext: string)
    requires stem != "" && ext != "" && '.' !in ext
    ensures SplitFileAtDot(stem + "." + ext) == (stem, Some(ext))
  {
    var name := stem + "." + ext;
    LastIndexOfAppendLast(stem, ext, '.');
    assert |name| >= 3;
    assert name[..|stem|] == stem;
    assert name[|stem| + 1..] == ext;
  }

  /** A path without separators is its own file name. */
  lemma BareFileName(p: Path)
    requires '/' !in p && p != "" && p != "." && p != ".."
    ensures LastSegment(p) == p && DirPrefix(p) == "" && FileName(p) == Some(p)
  {
  }

  lemma StemHasNoSlash(p: Path)
    requires FileStem(p).Some?
    ensures '/' !in FileStem(p).value && FileStem(p).value != ""
  {
    var n := FileName(p).value;
    var sp := SplitFileAtDot(n);
    if sp.1.Some? {
      forall j | 0 <= j < |sp.0| ensures sp.0[j] != '/' {
        assert (sp.0 + "." + sp.1.value)[j] == sp.0[j];
      }
    }
  }

  /** With a non-empty extension that holds neither `.` nor `/`, the new
      path's extension is exactly that extension, and the stem and the
      directory part are kept. */
  lemma WithExtensionRoundTrip(p: Path, ext: string)
    requires FileName(p).Some?
    requires ext != "" && '.' !in ext && '/' !in ext
    ensures Extension(WithExtension(p, ext)) == Some(ext)
    ensures FileStem(WithExtension(p, ext)) == FileStem(p)
    ensures DirPrefix(WithExtension(p, ext)) == DirPrefix(p)
  {
    WithExtensionShape(p, ext);
    var stem := FileStem(p).value;
    var name := stem + "." + ext;
    SegmentsOfAppend(DirPrefix(p), name);
    SplitAppendExtension(stem, ext);
  }

  lemma WithExtensionShape(p: Path, ext: string)
    requires FileName(p).Some?
    requires ext != "" && '/' !in ext
    ensures FileStem(p).Some? && FileStem(p).value != ""
    ensures WithExtension(p, ext) == DirPrefix(p) + (FileStem(p).value + "." + ext)
    ensures '/' !in FileStem(p).value + "." + ext
    ensures |FileStem(p).value + "." + ext| >= 3
  {
    StemHasNoSlash(p);
    var stem := FileStem(p).value;
    NoSlashJoin(stem, ext);
    ConcatAssoc(stem, ".", ext);
    ConcatAssoc(DirPrefix(p), stem, "." + ext);
  }

  lemma NoSlashJoin(stem: string, ext: string)
    requires '/' !in stem && '/' !in ext
    ensures '/' !in stem + "." + ext
  {
    var name := stem + "." + ext;
    forall j | 0 <= j < |name| ensures name[j] != '/' {
      if j < |stem| { assert name[j] == stem[j]; }
      else if j > |stem| { assert name[j] == ext[j - |stem| - 1]; }
    }
  }
}
