/**
 * The few JavaScript string operations the session controller relies on:
 * the whitespace set shared by the regular-expression class `\s` and by
 * `String.prototype.trim`, `indexOf`/`includes`, `startsWith`, `split` with
 * a string separator, and `trim`. Strings are sequences of characters; every
 * character these operations single out lies in the Basic Multilingual
 * Plane, so treating a string as code points instead of UTF-16 code units
 * changes none of their answers.
 */
module JsString {
  import opened Wrappers

  /** JavaScript's WhiteSpace and LineTerminator characters: the set matched
      by `\s` and removed by `trim`. */
  predicate IsSpace(c: char): (b: bool)
    ensures b ==> c == ' ' || !(' ' <= c <= '~')
  {
    var n := c as int;
    n == 0x09 || n == 0x0A || n == 0x0B || n == 0x0C || n == 0x0D || n == 0x20 ||
    n == 0xA0 || n == 0x1680 || (0x2000 <= n <= 0x200A) || n == 0x2028 || n == 0x2029 ||
    n == 0x202F || n == 0x205F || n == 0x3000 || n == 0xFEFF
  }

  /** Every character of `s` satisfies `p`. */
  predicate All(s: string, p: char -> bool) {
    forall k :: 0 <= k < |s| ==> p(s[k])
  }

  /** The end of the longest run of characters satisfying `p` that starts at
      index `i`: the greedy `p*` of a regular expression. */
  function Span(s: string, i: nat, p: char -> bool): (k: nat)
    requires i <= |s|
    decreases |s| - i
    ensures i <= k <= |s|
    ensures All(s[i..k], p)
    ensures k == |s| || !p(s[k])
  {
    if i < |s| && p(s[i]) then Span(s, i + 1, p) else i
  }

  /** The start of the longest run of characters satisfying `p` that ends at
      index `hi` and does not reach below `lo`. */
  function SpanBack(s: string, lo: nat, hi: nat, p: char -> bool): (k: nat)
    requires lo <= hi <= |s|
    decreases hi - lo
    ensures lo <= k <= hi
    ensures All(s[k..hi], p)
    ensures k == lo || !p(s[k - 1])
  {
    if lo < hi && p(s[hi - 1]) then
      var k := SpanBack(s, lo, hi - 1, p);
      assert forall j :: k <= j < hi - 1 ==> p(s[j]) by {
        forall j | k <= j < hi - 1 ensures p(s[j]) {
          assert s[k..hi - 1][j - k] == s[j];
        }
      }
      k
    else hi
  }

  /** `sub` occurs in `s` starting at index `i`. */
  predicate OccursAt(s: string, sub: string, i: nat) {
    i + |sub| <= |s| && s[i..i + |sub|] == sub
  }

  /** `s.startsWith(prefix)`. */
  predicate StartsWith(s: string, prefix: string): (b: bool)
    ensures b <==> |prefix| <= |s| && s[..|prefix|] == prefix
    ensures b <==> IndexOf(s, prefix, 0) == Some(0)
  {
    OccursAt(s, prefix, 0)
  }

  /** `s.indexOf(sub, from)`: the first occurrence of `sub` at or after
      `from`, or `None` where JavaScript answers -1. */
  function IndexOf(s: string, sub: string, from: nat): (r: Option<nat>)
    requires from <= |s|
    decreases |s| - from
    ensures r.Some? ==> from <= r.value && OccursAt(s, sub, r.value)
    ensures r.Some? ==> forall j :: from <= j < r.value ==> !OccursAt(s, sub, j)
    ensures r.None? ==> forall j :: from <= j ==> !OccursAt(s, sub, j)
  {
    if OccursAt(s, sub, from) then Some(from)
    else if from == |s| then None
    else IndexOf(s, sub, from + 1)
  }

  /** `s.includes(sub)`. */
  function Contains(s: string, sub: string): (b: bool)
    ensures b <==> exists i: nat :: OccursAt(s, sub, i)
  {
    IndexOf(s, sub, 0).Some?
  }

  /** `s.split(sep)` for a non-empty string separator: the pieces between
      successive non-overlapping occurrences of `sep`, scanning left to right. */
  function Split(s: string, sep: string): (parts: seq<string>)
    requires |sep| > 0
    decreases |s|
    ensures |parts| >= 1
    ensures IndexOf(s, sep, 0).Some? ==> |parts| >= 2
    ensures forall j: nat :: !OccursAt(parts[0], sep, j)
    ensures IndexOf(s, sep, 0).None? ==> parts == [s]
  {
    match IndexOf(s, sep, 0)
    case None => [s]
    case Some(i) =>
      NoOccurrenceInPrefix(s, sep, i);
      [s[..i]] + Split(s[i + |sep|..], sep)
  }

  /** A prefix that ends before the first occurrence of `sep` holds none. */
  lemma NoOccurrenceInPrefix(s: string, sep: string, i: nat)
    requires |sep| > 0 && i <= |s|
    requires forall j :: 0 <= j < i ==> !OccursAt(s, sep, j)
    ensures forall j: nat :: !OccursAt(s[..i], sep, j)
  {
    forall j: nat | OccursAt(s[..i], sep, j)
      ensures false
    {
      assert s[..i][j..j + |sep|] == s[j..j + |sep|];
      assert OccursAt(s, sep, j);
    }
  }

  /** The first piece of a split is the prefix up to the first occurrence of
      the separator, or the whole string when there is none. */
  lemma SplitFirstPiece(s: string, sep: string)
    requires |sep| > 0
    ensures var p := Split(s, sep)[0];
      p == s[..|p|] && (|p| == |s| || OccursAt(s, sep, |p|))
  {
    match IndexOf(s, sep, 0)
    case None =>
    case Some(i) =>
      assert Split(s, sep)[0] == s[..i];
  }

  /** When `s` starts with the separator, the second piece is the first
      piece of what follows that separator. */
  lemma SplitLeadingSeparator(s: string, sep: string)
    requires |sep| > 0 && StartsWith(s, sep)
    ensures |Split(s, sep)| >= 2
    ensures Split(s, sep)[1] == Split(s[|sep|..], sep)[0]
  {
    assert IndexOf(s, sep, 0) == Some(0);
    assert Split(s, sep) == [s[..0]] + Split(s[|sep|..], sep);
  }

  /** `parts.join(sep)`. */
  function Join(parts: seq<string>, sep: string): string
    requires |parts| >= 1
    decreases |parts|
  {
    if |parts| == 1 then parts[0] else parts[0] + sep + Join(parts[1..], sep)
  }

  /** Splitting loses nothing: joining the pieces back with the separator
      gives the original string. */
  lemma {:induction false} SplitJoin(s: string, sep: string)
    requires |sep| > 0
    ensures Join(Split(s, sep), sep) == s
    decreases |s|
  {
    match IndexOf(s, sep, 0)
    case None =>
    case Some(i) =>
      var rest := s[i + |sep|..];
      SplitJoin(rest, sep);
      assert Split(s, sep) == [s[..i]] + Split(rest, sep);
      assert s[i..i + |sep|] == sep;
      assert s == s[..i] + s[i..i + |sep|] + rest;
  }

  /** `s.trim()`: `s` without its leading and trailing whitespace. */
  function Trim(s: string): (r: string)
    ensures exists a, b :: 0 <= a <= b <= |s| && r == s[a..b] && All(s[..a], IsSpace) && All(s[b..], IsSpace)
    ensures r != [] ==> !IsSpace(r[0]) && !IsSpace(r[|r| - 1])
  {
    var a := Span(s, 0, IsSpace);
    var b := SpanBack(s, a, |s|, IsSpace);
    assert All(s[..a], IsSpace) by { assert s[..a] == s[0..a]; }
    assert All(s[b..], IsSpace) by { assert s[b..] == s[b..|s|]; }
    var r := s[a..b];
    assert r != [] ==> !IsSpace(r[0]) && !IsSpace(r[|r| - 1]) by {
      if r != [] {
        assert r[0] == s[a] && r[|r| - 1] == s[b - 1];
      }
    }
    r
  }

  /** Trimming a string that holds no whitespace leaves it as it is. */
  lemma TrimWithoutSpace(s: string)
    requires forall k :: 0 <= k < |s| ==> !IsSpace(s[k])
    ensures Trim(s) == s
  {
    var a := Span(s, 0, IsSpace);
    assert a == 0;
    var b := SpanBack(s, a, |s|, IsSpace);
    assert b == |s|;
  }
}
