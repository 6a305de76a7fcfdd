/**
 * The Python string primitives the extractor relies on, with CPython's semantics:
 * `str.find(sub, start)`, slicing `s[i:j]` with negative and out-of-range bounds,
 * `str.strip()` and `str.strip(chars)`.
 */
module PyText {

  /** `sub` occurs in `s` starting at index `i`. */
  predicate OccursAt(s: string, sub: string, i: int) {
    0 <= i && i + |sub| <= |s| && s[i..i + |sub|] == sub
  }

  /**
   * `s.find(sub, start)` for a non-negative `start`: the lowest index at or after
   * `start` where `sub` occurs, or -1.
   */
  function Find(s: string, sub: string, start: nat): (r: int)
    ensures r == -1 || (start <= r && OccursAt(s, sub, r))
    ensures r == -1 ==> forall i :: start <= i ==> !OccursAt(s, sub, i)
    ensures r != -1 ==> forall i :: start <= i < r ==> !OccursAt(s, sub, i)
    decreases |s| - start
  {
    if start + |sub| > |s| then -1
    else if s[start..start + |sub|] == sub then start
    else Find(s, sub, start + 1)
  }

  /** `Find` returns the first occurrence: the index it is told is first. */
  lemma FindIs(s: string, sub: string, start: nat, i: nat)
    requires start <= i && OccursAt(s, sub, i)
    requires forall j :: start <= j < i ==> !OccursAt(s, sub, j)
    ensures Find(s, sub, start) == i
  {
  }

  /** `Find` returns -1 when there is no occurrence at or after `start`. */
  lemma FindNone(s: string, sub: string, start: nat)
    requires forall j :: start <= j ==> !OccursAt(s, sub, j)
    ensures Find(s, sub, start) == -1
  {
  }

  /** Python's normalisation of a slice bound `i` for a sequence of length `n`. */
  function Bound(i: int, n: nat): (b: nat)
    ensures b <= n
    ensures 0 <= i <= n ==> b == i
    ensures i < 0 && 0 <= i + n ==> b == i + n
    ensures i + n < 0 ==> b == 0
    ensures i > n ==> b == n
  {
    if i < 0 then (if i + n < 0 then 0 else i + n)
    else if i > n then n
    else i
  }

  /**
   * The Python slice `s[i:j]`: the piece of `s` from the normalised start to the
   * normalised end, empty when the end does not come after the start.
   */
  function Slice(s: string, i: int, j: int): (r: string)
    ensures var lo, hi := Bound(i, |s|), Bound(j, |s|);
      |r| == (if lo < hi then hi - lo else 0)
  {
    var lo, hi := Bound(i, |s|), Bound(j, |s|);
    if lo < hi then s[lo..hi] else ""
  }

  /** With in-range bounds a Python slice is Dafny's subsequence (empty when `j <= i`). */
  lemma SliceInRange(s: string, i: nat, j: nat)
    requires i <= |s| && j <= |s|
    ensures Slice(s, i, j) == if i <= j then s[i..j] else ""
  {
  }

  /** A slice ending at -1 stops one short of the end: the last element is dropped. */
  lemma SliceToMinusOne(s: string, i: nat)
    requires i <= |s|
    ensures Slice(s, i, -1) == if i < |s| then s[i..|s| - 1] else ""
  {
  }

  /**
   * The characters `str.isspace()` accepts and `str.strip()` removes:
   * U+0009 to U+000D, U+001C to U+001F, U+0020, U+0085, U+00A0, U+1680,
   * U+2000 to U+200A, U+2028, U+2029, U+202F, U+205F and U+3000.
   */
  predicate IsSpace(c: char) {
    || '\t' <= c <= '\r'
    || '\U{1C}' <= c <= ' '
    || c == '\U{85}' || c == '\U{A0}' || c == '\U{1680}'
    || '\U{2000}' <= c <= '\U{200A}'
    || c == '\U{2028}' || c == '\U{2029}' || c == '\U{202F}' || c == '\U{205F}' || c == '\U{3000}'
  }

  /** Removes the leading characters of `s` that satisfy `drop`. */
  function LStrip(s: string, drop: char -> bool): (r: string)
    ensures |r| <= |s| && r == s[|s| - |r|..]
    ensures forall k :: 0 <= k < |s| - |r| ==> drop(s[k])
    ensures r == "" || !drop(r[0])
  {
    if s == "" || !drop(s[0]) then s else LStrip(s[1..], drop)
  }

  /** Removes the trailing characters of `s` that satisfy `drop`. */
  function RStrip(s: string, drop: char -> bool): (r: string)
    ensures |r| <= |s| && r == s[..|r|]
    ensures forall k :: |r| <= k < |s| ==> drop(s[k])
    ensures r == "" || !drop(r[|r| - 1])
  {
    if s == "" || !drop(s[|s| - 1]) then s else RStrip(s[..|s| - 1], drop)
  }

  /**
   * `s.strip(chars)` where `drop` says which characters `chars` holds: both ends
   * stripped of those characters.
   */
  function StripBy(s: string, drop: char -> bool): (r: string)
    ensures |r| <= |s|
    ensures r == "" || (!drop(r[0]) && !drop(r[|r| - 1]))
  {
    var l := LStrip(s, drop);
    var r := RStrip(l, drop);
    if r == "" then r
    else
      assert r[0] == l[..|r|][0] == l[0];
      r
  }

  /** `s.strip()`: both ends stripped of whitespace. */
  function Strip(s: string): (r: string)
    ensures |r| <= |s|
    ensures r == "" || (!IsSpace(r[0]) && !IsSpace(r[|r| - 1]))
  {
    var r := StripBy(s, IsSpace);
    assert r == "" || (!IsSpace(r[0]) && !IsSpace(r[|r| - 1]));
    r
  }

  /**
   * What stripping leaves: the piece of `s` starting at `lo`, which neither starts
   * nor ends with a dropped character, with only dropped characters cut away on
   * either side.
   */
  lemma {:induction false} StripByShape(s: string, drop: char -> bool) returns (lo: nat)
    ensures var r := StripBy(s, drop); lo + |r| <= |s| && forall k :: 0 <= k < |r| ==> r[k] == s[lo + k]
    ensures forall k :: 0 <= k < lo ==> drop(s[k])
    ensures forall k :: lo + |StripBy(s, drop)| <= k < |s| ==> drop(s[k])
    ensures var r := StripBy(s, drop); r == "" || (!drop(r[0]) && !drop(r[|r| - 1]))
  {
    var l := LStrip(s, drop);
    var r := RStrip(l, drop);
    lo := |s| - |l|;
    assert r == StripBy(s, drop);
    forall k | 0 <= k < |r| ensures r[k] == s[lo + k] {
      assert r[k] == l[k] == s[lo + k];
    }
    forall k | lo + |r| <= k < |s| ensures drop(s[k]) {
      assert s[k] == l[k - lo];
    }
  }

  /** Stripping keeps only characters of the input. */
  lemma StripKeepsChars(s: string, drop: char -> bool)
    ensures forall c :: c in StripBy(s, drop) ==> c in s
  {
    var r := StripBy(s, drop);
    var lo := StripByShape(s, drop);
    forall c | c in r ensures c in s {
      var k :| 0 <= k < |r| && r[k] == c;
      assert s[lo + k] == r[k];
    }
  }

  /** Stripping twice is stripping once. */
  lemma {:induction false} StripIdempotent(s: string)
    ensures Strip(Strip(s)) == Strip(s)
  {
    var r := Strip(s);
    var lo := StripByShape(s, IsSpace);
    LStripNoop(r, IsSpace);
  }

  lemma LStripNoop(s: string, drop: char -> bool)
    requires s == "" || (!drop(s[0]) && !drop(s[|s| - 1]))
    ensures LStrip(s, drop) == s && RStrip(s, drop) == s
  {
  }
}
