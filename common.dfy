/** Values shared by every part of the extractor: optional values, the
    truthiness tests Python applies to them, and the few string operations
    the extractor uses (`lower`, `in`, `strip`, `isalnum`). */
module Common {

  datatype Option<+T> = None | Some(value: T)

  /** Truthiness of an optional string: `None` and `""` are false. */
  predicate Present(s: Option<string>) {
    s.Some? && s.value != ""
  }

  /** Truthiness of an optional number: `None` and `0` are false. */
  predicate NonZero(n: Option<int>) {
    n.Some? && n.value != 0
  }

  /** `s or default` for an optional string. */
  function OrElse(s: Option<string>, default: string): string {
    if Present(s) then s.value else default
  }

  /** How an f-string renders an optional string: `None` becomes "None". */
  function Show(s: Option<string>): string {
    if s.Some? then s.value else "None"
  }

  // ---------------------------------------------------------------------
  // Lower-casing and substring search

  predicate IsAsciiUpper(c: char) {
    'A' <= c <= 'Z'
  }

  function LowerChar(c: char): char {
    if IsAsciiUpper(c) then (c as int + 32) as char else c
  }

  /** `s.lower()`, restricted to the ASCII letters. */
  function Lower(s: string): (r: string)
    ensures |r| == |s|
    ensures forall i :: 0 <= i < |s| ==> r[i] == LowerChar(s[i])
  {
    if s == [] then [] else [LowerChar(s[0])] + Lower(s[1..])
  }

  /** `needle in hay` for strings. */
  predicate Contains(hay: string, needle: string)
    decreases |hay|
  {
    needle <= hay || (hay != [] && Contains(hay[1..], needle))
  }

  /** The case-insensitive test `needle.lower() in hay.lower()`. */
  predicate ContainsIgnoringCase(hay: string, needle: string) {
    Contains(Lower(hay), Lower(needle))
  }

  // ---------------------------------------------------------------------
  // Character classes

  /** `c.isspace()`: the characters Python treats as white space. */
  predicate IsSpace(c: char) {
    c == ' ' || '\t' <= c <= '\r' || '\U{1c}' <= c <= '\U{1f}' ||
    c == '\U{85}' || c == '\U{a0}' || c == '\U{1680}' ||
    '\U{2000}' <= c <= '\U{200a}' || c == '\U{2028}' || c == '\U{2029}' ||
    c == '\U{202f}' || c == '\U{205f}' || c == '\U{3000}'
  }

  /** `c.isalnum()`, restricted to ASCII letters and digits. */
  predicate IsAlnum(c: char) {
    'a' <= c <= 'z' || 'A' <= c <= 'Z' || '0' <= c <= '9'
  }

  // ---------------------------------------------------------------------
  // strip()

  /** The end of the run of white space that starts at `i`. */
  function SkipSpace(s: string, i: nat): (j: nat)
    requires i <= |s|
    ensures i <= j <= |s|
    ensures forall k :: i <= k < j ==> IsSpace(s[k])
    ensures j < |s| ==> !IsSpace(s[j])
    decreases |s| - i
  {
    if i < |s| && IsSpace(s[i]) then SkipSpace(s, i + 1) else i
  }

  /** The start of the run of white space that ends at `j`, not going below `lo`. */
  function SkipSpaceBack(s: string, lo: nat, j: nat): (i: nat)
    requires lo <= j <= |s|
    ensures lo <= i <= j
    ensures forall k :: i <= k < j ==> IsSpace(s[k])
    ensures i > lo ==> !IsSpace(s[i - 1])
    decreases j
  {
    if j > lo && IsSpace(s[j - 1]) then SkipSpaceBack(s, lo, j - 1) else j
  }

  /** `s.strip()`: the characters between the leading and the trailing white space. */
  function Strip(s: string): (r: string)
    ensures exists lo, hi :: 0 <= lo <= hi <= |s| && r == s[lo..hi] &&
              (forall k :: 0 <= k < lo ==> IsSpace(s[k])) &&
              (forall k :: hi <= k < |s| ==> IsSpace(s[k]))
    ensures r != [] ==> !IsSpace(r[0]) && !IsSpace(r[|r| - 1])
  {
    var lo := SkipSpace(s, 0);
    var hi := SkipSpaceBack(s, lo, |s|);
    s[lo..hi]
  }

  // ---------------------------------------------------------------------
  // Lists built row by row

  /** What `f` gives for each element, one after the other, in order. */
  function Concat<R, H>(rows: seq<R>, f: R -> seq<H>): seq<H> {
    if rows == [] then []
    else
      var n := |rows| - 1;
      Concat(rows[..n], f) + f(rows[n])
  }

  lemma {:induction false} ConcatAppend<R, H>(a: seq<R>, b: seq<R>, f: R -> seq<H>)
    ensures Concat(a + b, f) == Concat(a, f) + Concat(b, f)
    decreases |b|
  {
    if b == [] {
      assert a + b == a;
    } else {
      var n := |b| - 1;
      var ab := a + b;
      assert ab[..|ab| - 1] == a + b[..n];
      assert ab[|ab| - 1] == b[n];
      ConcatAppend(a, b[..n], f);
    }
  }

  lemma ConcatSingle<R, H>(x: R, f: R -> seq<H>)
    ensures Concat([x], f) == f(x)
  {
    assert [x][..0] == [];
  }
}
