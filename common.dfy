/** Shared vocabulary of the model: bytes, the Option and Result wrappers the
    Rust code uses for its return values, ASCII helpers and UTF-8 encoding of
    Rust `String`s (the model's `string`). */
module Common {

  newtype byte = x: int | 0 <= x < 256

  const CR: byte := 0x0D
  const LF: byte := 0x0A
  const TAB: byte := 0x09
  const FF: byte := 0x0C
  const SPACE: byte := 0x20
  const QUOTE: byte := 0x22      // '"'
  const SLASH: byte := 0x2F      // '/'
  const BACKSLASH: byte := 0x5C  // '\\'
  const HASH: byte := 0x23       // '#'

  datatype Option<+T> = None | Some(value: T)

  datatype Result<+T, +E> = Ok(value: T) | Err(error: E) {
    predicate IsFailure() { Err? }

    function PropagateFailure<U>(): Result<U, E>
      requires Err?
    {
      Err(error)
    }

    function Extract(): T
      requires Ok?
    {
      value
    }
  }

  /** `s` begins with `p`, compared element by element. */
  predicate StartsWith<T(==)>(s: seq<T>, p: seq<T>)
    ensures StartsWith(s, p) ==> |p| <= |s|
  {
    p == [] || (s != [] && s[0] == p[0] && StartsWith(s[1..], p[1..]))
  }

  lemma {:induction false} StartsWithConcat<T>(p: seq<T>, f: seq<T>)
    ensures StartsWith(p + f, p)
  {
    if p != [] {
      assert (p + f)[1..] == p[1..] + f;
      StartsWithConcat(p[1..], f);
    }
  }

  lemma NotStartsWithAt<T>(s: seq<T>, p: seq<T>, i: nat)
    requires i < |p| && i < |s| && s[i] != p[i]
    ensures !StartsWith(s, p)
  {
    StartsWithPrefix(s, p);
    assert |p| <= |s| ==> s[..|p|][i] == s[i];
  }

  lemma ConcatAssoc<T>(a: seq<T>, b: seq<T>, c: seq<T>)
    ensures a + (b + c) == (a + b) + c
  {
  }

  lemma {:induction false} StartsWithPrefix<T>(s: seq<T>, p: seq<T>)
    ensures StartsWith(s, p) <==> |p| <= |s| && s[..|p|] == p
  {
    if p != [] && s != [] {
      StartsWithPrefix(s[1..], p[1..]);
      if |p| <= |s| && s[..|p|] == p {
        assert s[1..][..|p| - 1] == p[1..];
      }
      if StartsWith(s, p) {
        assert s[..|p|] == [s[0]] + s[1..][..|p| - 1];
      }
    }
  }

  predicate IsAsciiDigit(b: byte) { 0x30 <= b <= 0x39 }

  predicate IsAsciiAlpha(b: byte) { (0x41 <= b <= 0x5A) || (0x61 <= b <= 0x7A) }

  /** Rust's `u8::to_ascii_lowercase`: only `A`..`Z` change. */
  function ToAsciiLower(b: byte): (r: byte)
    ensures 0x41 <= b <= 0x5A ==> r == b + 0x20
    ensures !(0x41 <= b <= 0x5A) ==> r == b
  {
    if 0x41 <= b <= 0x5A then b + 0x20 else b
  }

  /** Rust's `[u8]::eq_ignore_ascii_case`. */
  predicate EqIgnoreAsciiCase(a: seq<byte>, b: seq<byte>) {
    |a| == |b| && forall i :: 0 <= i < |a| ==> ToAsciiLower(a[i]) == ToAsciiLower(b[i])
  }

  /** The same comparison over `str`: `char::to_ascii_lowercase` changes only `A`..`Z`. */
  function CharToAsciiLower(c: char): char {
    if 'A' <= c <= 'Z' then ((c as int) + 32) as char else c
  }

  predicate StrEqIgnoreAsciiCase(a: string, b: string) {
    |a| == |b| && forall i :: 0 <= i < |a| ==> CharToAsciiLower(a[i]) == CharToAsciiLower(b[i])
  }

  /** UTF-8 encoding of one Unicode scalar value. */
  function EncodeChar(c: char): (r: seq<byte>)
    ensures 1 <= |r| <= 4
    ensures (c as int) < 0x80 <==> |r| == 1
    ensures (c as int) < 0x80 ==> r == [c as int as byte]
  {
    var n := c as int;
    if n < 0x80 then [n as byte]
    else if n < 0x800 then [(0xC0 + n / 0x40) as byte, (0x80 + n % 0x40) as byte]
    else if n < 0x10000 then
      [(0xE0 + n / 0x1000) as byte, (0x80 + (n / 0x40) % 0x40) as byte, (0x80 + n % 0x40) as byte]
    else
      [(0xF0 + n / 0x40000) as byte, (0x80 + (n / 0x1000) % 0x40) as byte,
       (0x80 + (n / 0x40) % 0x40) as byte, (0x80 + n % 0x40) as byte]
  }

  /** `str::as_bytes`: the UTF-8 encoding of a string. */
  function Utf8(s: string): (r: seq<byte>)
    ensures |r| >= |s|
    ensures (forall i :: 0 <= i < |s| ==> (s[i] as int) < 0x80) ==> |r| == |s|
  {
    if s == [] then [] else EncodeChar(s[0]) + Utf8(s[1..])
  }

  lemma {:induction false} Utf8Ascii(s: string)
    requires forall i :: 0 <= i < |s| ==> (s[i] as int) < 0x80
    ensures |Utf8(s)| == |s|
    ensures forall i :: 0 <= i < |s| ==> Utf8(s)[i] as int == s[i] as int
  {
    if s != [] {
      Utf8Ascii(s[1..]);
      assert Utf8(s) == [s[0] as int as byte] + Utf8(s[1..]);
    }
  }

  lemma {:induction false} Utf8Append(a: string, b: string)
    ensures Utf8(a + b) == Utf8(a) + Utf8(b)
  {
    if a == [] {
      assert a + b == b;
    } else {
      assert (a + b)[1..] == a[1..] + b;
      Utf8Append(a[1..], b);
    }
  }
}
