// The construct side of `_scan_macros`: the `findall` regex that cuts a file into
// macro/test/materialization blocks, the `match` regex that reads a block's header,
// and the record name derived from the header.
//
// Both regexes are built from lazy quantifiers (`.*?`, `[^ ]*?`), alternations and a
// few greedy ` *`. The first match Python's backtracking engine reports is the one
// whose choices come first in its search order: a lazy quantifier tries lengths in
// increasing order, so each one is modelled by a search for the leftmost position
// at which the rest of the pattern succeeds (`EndFrom`, `BodyFrom` and `CloseFrom`
// for the block regex, `FirstTrue` over the positions where it does for the
// header regex, and `NameFrom` for the character class `[^ ]*?`). The keyword
// alternation can match at most one literal at a position (`KeywordsExclusive`),
// and each greedy ` *` here is followed by a non-space literal, so it can only take
// all the spaces there are, except the last one, before `(.*?) `, which is handled
// in `AdapterClause`.
module Constructs {
  import opened PyText
  import opened Results

  datatype Keyword = Macro | Test | Materialization

  function KeywordText(k: Keyword): string {
    match k
    case Macro => "macro"
    case Test => "test"
    case Materialization => "materialization"
  }

  // `(?:macro|test|materialization)` at `i`: the alternatives are tried in order.
  function KeywordAt(s: string, i: nat): (r: Option<Keyword>) {
    if OccursAt(s, "macro", i) then Some(Macro)
    else if OccursAt(s, "test", i) then Some(Test)
    else if OccursAt(s, "materialization", i) then Some(Materialization)
    else None
  }

  // Which keyword a position can hold is fixed by two characters.
  lemma KeywordByChars(s: string, i: nat, k: Keyword)
    requires OccursAt(s, KeywordText(k), i)
    ensures k == if s[i] == 't' then Test else if s[i + 2] == 'c' then Macro else Materialization
  {
    var w := KeywordText(k);
    assert s[i] == w[0] && s[i + 2] == w[2] by {
      assert s[i..i + |w|] == w;
    }
  }

  // No two keywords match at the same position, so backtracking into the
  // alternation can never pick a different one.
  lemma KeywordsExclusive(s: string, i: nat, k1: Keyword, k2: Keyword)
    requires OccursAt(s, KeywordText(k1), i) && OccursAt(s, KeywordText(k2), i)
    ensures k1 == k2
  {
    KeywordByChars(s, i, k1);
    KeywordByChars(s, i, k2);
  }

  // `KeywordAt` finds whichever keyword occurs at `i`.
  lemma KeywordAtFinds(s: string, i: nat, k: Keyword)
    requires OccursAt(s, KeywordText(k), i)
    ensures KeywordAt(s, i) == Some(k)
  {
    if KeywordAt(s, i).Some? {
      KeywordsExclusive(s, i, k, KeywordAt(s, i).value);
    }
  }

  // What `KeywordAt` reports occurs at `i`.
  lemma KeywordAtOccurs(s: string, i: nat)
    ensures KeywordAt(s, i).Some? ==> OccursAt(s, KeywordText(KeywordAt(s, i).value), i)
  {
  }

  // The index just past a keyword at `i`, or -1.
  function KeywordEnd(s: string, i: nat): (e: int)
    ensures e == -1 || (i < e <= |s| && KeywordAt(s, i).Some?)
    ensures e == -1 <==> KeywordAt(s, i).None?
  {
    match KeywordAt(s, i)
    case Some(k) => i + |KeywordText(k)|
    case None => -1
  }

  // `/*` at `i`, compared character by character.
  predicate OpenAt(s: string, i: int) {
    0 <= i && i + 1 < |s| && s[i] == '/' && s[i + 1] == '*'
  }

  // `*/` at `i`, compared character by character.
  predicate CloseAt(s: string, i: int) {
    0 <= i && i + 1 < |s| && s[i] == '*' && s[i + 1] == '/'
  }

  lemma OpenAtIsOccurrence(s: string, i: nat)
    ensures OpenAt(s, i) <==> OccursAt(s, "/*", i)
  {
    if OccursAt(s, "/*", i) {
      assert s[i..i + 2] == "/*";
      assert s[i] == s[i..i + 2][0] && s[i + 1] == s[i..i + 2][1];
    }
    if OpenAt(s, i) {
      assert s[i..i + 2] == "/*";
    }
  }

  lemma CloseAtIsOccurrence(s: string, i: nat)
    ensures CloseAt(s, i) <==> OccursAt(s, "*/", i)
  {
    if OccursAt(s, "*/", i) {
      assert s[i..i + 2] == "*/";
      assert s[i] == s[i..i + 2][0] && s[i + 1] == s[i..i + 2][1];
    }
    if CloseAt(s, i) {
      assert s[i..i + 2] == "*/";
    }
  }

  // A space at `i`.
  predicate SpaceAt(s: string, i: int) {
    0 <= i < |s| && s[i] == ' '
  }

  // ` (?:macro|test|materialization) ` starting at `q`.
  predicate SpacedKeywordAt(s: string, q: nat) {
    SpaceAt(s, q) && KeywordEnd(s, q + 1) >= 0 && SpaceAt(s, KeywordEnd(s, q + 1))
  }

  // Where the text after ` <keyword> ` starts.
  function AfterKeyword(s: string, q: nat): (r: nat)
    requires SpacedKeywordAt(s, q)
    ensures q + 2 < r <= |s|
  {
    KeywordEnd(s, q + 1) + 1
  }

  // The leftmost index at or after `lo` whose flag is set, or -1: a lazy
  // quantifier, given for each position whether the rest of the pattern matches
  // from there.
  function FirstTrue(flags: seq<bool>, lo: nat): (p: int)
    ensures p == -1 || (lo <= p < |flags| && flags[p])
    ensures forall k :: lo <= k < (if p == -1 then |flags| else p) ==> !flags[k]
    decreases |flags| - lo
  {
    if lo >= |flags| then -1 else if flags[lo] then lo else FirstTrue(flags, lo + 1)
  }

  // ---------------------------------------------------------------------------
  // The block regex (dbtdoc.py line 159), scanned with `re.findall`:
  //   a comment, then ` <keyword> `, then `end<keyword> `, all lazily.
  // ---------------------------------------------------------------------------

  // `end(?:macro|test|materialization) ` at `m`.
  predicate EndMarkerAt(s: string, m: nat) {
    m + 3 <= |s| && s[m] == 'e' && s[m + 1] == 'n' && s[m + 2] == 'd' && KeywordEnd(s, m + 3) >= 0 && SpaceAt(s, KeywordEnd(s, m + 3))
  }

  // `.*?end(?:...) ` from `r`: the lazy `.*?` tries `r`, `r + 1`, ... in turn, so
  // this is the end of the first end marker, or -1.
  function EndFrom(s: string, r: nat): (e: int)
    ensures e == -1 || r < e <= |s|
    decreases |s| - r
  {
    if r >= |s| then -1
    else if EndMarkerAt(s, r) then KeywordEnd(s, r + 3) + 1
    else EndFrom(s, r + 1)
  }

  // `.*?end(?:...) ` fails exactly when no end marker follows.
  lemma {:induction false} EndFromFails(s: string, r: nat)
    ensures EndFrom(s, r) == -1 <==> forall m :: r <= m < |s| ==> !EndMarkerAt(s, m)
    decreases |s| - r
  {
    if r < |s| {
      EndFromFails(s, r + 1);
    }
  }

  // ` <keyword> ` at `q` with an end marker after it.
  predicate KeywordThenEndAt(s: string, q: nat) {
    SpacedKeywordAt(s, q) && EndFrom(s, AfterKeyword(s, q)) >= 0
  }

  // `.*? (?:...) .*?end(?:...) ` from `p`: the first spaced keyword with an end
  // marker after it decides the match; its end, or -1.
  function BodyFrom(s: string, p: nat): (e: int)
    ensures e == -1 || p < e <= |s|
    decreases |s| - p
  {
    if p >= |s| then -1
    else if KeywordThenEndAt(s, p) then EndFrom(s, AfterKeyword(s, p))
    else BodyFrom(s, p + 1)
  }

  // The body fails exactly when no keyword with an end marker after it follows.
  lemma {:induction false} BodyFromFails(s: string, p: nat)
    ensures BodyFrom(s, p) == -1 <==> forall q :: p <= q < |s| ==> !KeywordThenEndAt(s, q)
    decreases |s| - p
  {
    if p < |s| {
      BodyFromFails(s, p + 1);
    }
  }

  // The comment's lazy `.*?\*/` may close at `c`: a `*/` there with a body after it.
  predicate BlockCloseAt(s: string, c: nat) {
    CloseAt(s, c) && BodyFrom(s, c + 2) >= 0
  }

  // `.*?\*/` and the rest of the block regex from `c`: the first `*/` with a body
  // after it decides the match; its end, or -1.
  function CloseFrom(s: string, c: nat): (e: int)
    ensures e == -1 || c + 2 < e <= |s|
    decreases |s| - c
  {
    if c >= |s| then -1
    else if BlockCloseAt(s, c) then BodyFrom(s, c + 2)
    else CloseFrom(s, c + 1)
  }

  // The block regex matched at `i`: the end of the match, or -1.
  function BlockMatchAt(s: string, i: nat): (e: int)
    ensures e == -1 || (i + 2 < e <= |s| && OpenAt(s, i))
  {
    if !OpenAt(s, i) then -1 else CloseFrom(s, i + 2)
  }

  // Where `.*?end(...) ` succeeds from `r`: the end marker it stops at, whose
  // match is the one from `r`.
  lemma {:induction false} EndFromParts(s: string, r: nat) returns (m: nat)
    requires EndFrom(s, r) != -1
    ensures r <= m && EndMarkerAt(s, m) && EndFrom(s, r) == EndFrom(s, m)
    decreases |s| - r
  {
    if !EndMarkerAt(s, r) {
      m := EndFromParts(s, r + 1);
    } else {
      m := r;
    }
  }

  // Where the part after the comment succeeds from `p`: the spaced keyword it uses.
  lemma {:induction false} BodyFromParts(s: string, p: nat) returns (q: nat)
    requires BodyFrom(s, p) != -1
    ensures p <= q && SpacedKeywordAt(s, q) && BodyFrom(s, p) == EndFrom(s, AfterKeyword(s, q))
    decreases |s| - p
  {
    if KeywordThenEndAt(s, p) {
      q := p;
    } else {
      q := BodyFromParts(s, p + 1);
    }
  }

  // Where the comment of a match from `c` closes: a `*/` with a body after it,
  // whose match is the one from `c`.
  lemma {:induction false} CloseFromParts(s: string, c: nat) returns (d: nat)
    requires CloseFrom(s, c) != -1
    ensures c <= d && BlockCloseAt(s, d) && CloseFrom(s, c) == CloseFrom(s, d)
    decreases |s| - c
  {
    if !BlockCloseAt(s, c) {
      d := CloseFromParts(s, c + 1);
    } else {
      d := c;
    }
  }

  // The comment's `.*?\*/` stops at the first `*/` from `c` that has a body after
  // it.
  lemma CloseFromFirst(s: string, c: nat, d: nat)
    requires c <= d && BlockCloseAt(s, d)
    requires forall k :: c <= k < d ==> !BlockCloseAt(s, k)
    ensures CloseFrom(s, c) == BodyFrom(s, d + 2)
  {
    CloseFromSkip(s, c, d);
  }

  // Positions with no `*/` followed by a body are passed over.
  lemma {:induction false} CloseFromSkip(s: string, c: nat, d: nat)
    requires c <= d && forall k :: c <= k < d ==> !BlockCloseAt(s, k)
    ensures CloseFrom(s, c) == CloseFrom(s, d)
    decreases d - c
  {
    if c < d {
      CloseFromSkip(s, c + 1, d);
    }
  }

  // A match is a comment closed by the `*/` at `c`, then the spaced keyword at
  // `q`, then the end marker at `m`, and it ends right after that marker's keyword
  // and space.
  lemma BlockMatchParts(s: string, i: nat) returns (c: nat, q: nat, m: nat)
    requires BlockMatchAt(s, i) != -1
    ensures i + 2 <= c && CloseAt(s, c)
    ensures c + 2 <= q && SpacedKeywordAt(s, q)
    ensures AfterKeyword(s, q) <= m && EndMarkerAt(s, m)
    ensures BlockMatchAt(s, i) == KeywordEnd(s, m + 3) + 1
  {
    c := CloseFromParts(s, i + 2);
    q := BodyFromParts(s, c + 2);
    m := EndFromParts(s, AfterKeyword(s, q));
    assert EndFrom(s, m) == KeywordEnd(s, m + 3) + 1;
  }

  // `.*?end(...) ` stops at the first end marker from `r`: a marker at `m` with
  // none before it in `[r, m)` decides the match.
  lemma {:induction false} EndFromFirst(s: string, r: nat, m: nat)
    requires r <= m && EndMarkerAt(s, m)
    requires forall k :: r <= k < m ==> !EndMarkerAt(s, k)
    ensures EndFrom(s, r) == EndFrom(s, m) == KeywordEnd(s, m + 3) + 1
    decreases m - r
  {
    if r < m {
      EndFromFirst(s, r + 1, m);
    }
  }

  // The part after the comment uses the first spaced keyword from `p` that has an
  // end marker after it.
  lemma BodyFromFirst(s: string, p: nat, q: nat)
    requires p <= q && KeywordThenEndAt(s, q)
    requires forall k :: p <= k < q ==> !KeywordThenEndAt(s, k)
    ensures BodyFrom(s, p) == EndFrom(s, AfterKeyword(s, q))
  {
    BodyFromSkip(s, p, q);
    assert BodyFrom(s, q) == EndFrom(s, AfterKeyword(s, q));
  }

  // Positions with no spaced keyword followed by an end marker are passed over.
  lemma {:induction false} BodyFromSkip(s: string, p: nat, q: nat)
    requires p <= q && forall k :: p <= k < q ==> !KeywordThenEndAt(s, k)
    ensures BodyFrom(s, p) == BodyFrom(s, q)
    decreases q - p
  {
    if p < q {
      BodyFromSkip(s, p + 1, q);
    }
  }

  // The rest of the match from `c` fails exactly when no `*/` from `c` has a body
  // after it.
  lemma {:induction false} CloseFromFails(s: string, c: nat)
    ensures CloseFrom(s, c) == -1 <==> forall k :: c <= k < |s| ==> !BlockCloseAt(s, k)
    decreases |s| - c
  {
    if c < |s| {
      CloseFromFails(s, c + 1);
    }
  }

  // A `/*` at `i`, then a `*/`, a spaced keyword and an end marker, in that order:
  // the block regex matches at `i`.
  lemma BlockMatchFound(s: string, i: nat, c: nat, q: nat, m: nat)
    requires OpenAt(s, i) && i + 2 <= c && CloseAt(s, c)
    requires c + 2 <= q && SpacedKeywordAt(s, q)
    requires AfterKeyword(s, q) <= m && EndMarkerAt(s, m)
    ensures BlockMatchAt(s, i) != -1
  {
    KeywordThenEndFound(s, q, m);
    CloseThenBodyFound(s, c, q);
    OpenThenCloseFound(s, i, c);
  }

  // A spaced keyword with an end marker after it.
  lemma KeywordThenEndFound(s: string, q: nat, m: nat)
    requires SpacedKeywordAt(s, q) && AfterKeyword(s, q) <= m && EndMarkerAt(s, m)
    ensures KeywordThenEndAt(s, q)
  {
    EndFromFails(s, AfterKeyword(s, q));
  }

  // A `*/` with a spaced keyword and an end marker after it.
  lemma CloseThenBodyFound(s: string, c: nat, q: nat)
    requires CloseAt(s, c) && c + 2 <= q && KeywordThenEndAt(s, q)
    ensures BlockCloseAt(s, c)
  {
    BodyFromFails(s, c + 2);
  }

  // A `/*` with such a `*/` after it.
  lemma OpenThenCloseFound(s: string, i: nat, c: nat)
    requires OpenAt(s, i) && i + 2 <= c && BlockCloseAt(s, c)
    ensures BlockMatchAt(s, i) != -1
  {
    CloseFromFails(s, i + 2);
  }

  // No match of the block regex starts in `[lo, hi)`.
  ghost predicate NoMatchIn(s: string, lo: nat, hi: nat)
    decreases hi - lo
  {
    lo >= hi || (BlockMatchAt(s, lo) == -1 && NoMatchIn(s, lo + 1, hi))
  }

  // What `re.findall` reports from `pos`, described independently of the search:
  // the blocks are the successive non-overlapping matches, each the leftmost one
  // at or after the end of the previous, and no match starts after the last.
  ghost predicate Scanned(s: string, pos: nat, blocks: seq<string>)
    decreases |blocks|, 1
  {
    if blocks == [] then NoMatchIn(s, pos, |s|)
    else exists p: nat :: ScannedAt(s, pos, p, blocks)
  }

  // The first block is the match at `p`, the leftmost one from `pos`, and the
  // rest are scanned from its end.
  ghost predicate ScannedAt(s: string, pos: nat, p: nat, blocks: seq<string>)
    requires blocks != []
    decreases |blocks|, 0
  {
    && pos <= p && NoMatchIn(s, pos, p)
    && BlockMatchAt(s, p) != -1 && blocks[0] == s[p..BlockMatchAt(s, p)]
    && Scanned(s, BlockMatchAt(s, p), blocks[1..])
  }

  // `re.findall` from `pos`: the leftmost match, then the search resumes at its end.
  function FindAllFrom(s: string, pos: nat): (blocks: seq<string>)
    decreases |s| - pos
  {
    if pos >= |s| then []
    else
      var e := BlockMatchAt(s, pos);
      if e >= 0 then
        [s[pos..e]] + FindAllFrom(s, e)
      else FindAllFrom(s, pos + 1)
  }

  // Every block `findall` reports is longer than `/*` and starts with it.
  lemma {:induction false} FindAllFromBlocks(s: string, pos: nat)
    ensures forall b <- FindAllFrom(s, pos) :: |b| > 2 && OpenAt(b, 0)
    decreases |s| - pos
  {
    if pos < |s| {
      var e := BlockMatchAt(s, pos);
      if e >= 0 {
        var b0, rest := s[pos..e], FindAllFrom(s, e);
        FindAllFromBlocks(s, e);
        assert FindAllFrom(s, pos) == [b0] + rest;
        assert |b0| > 2 && OpenAt(b0, 0) by {
          assert b0[0] == s[pos] && b0[1] == s[pos + 1];
        }
        forall b <- [b0] + rest ensures |b| > 2 && OpenAt(b, 0) {
          if b != b0 {
            assert b in rest;
          }
        }
      } else {
        assert FindAllFrom(s, pos) == FindAllFrom(s, pos + 1);
        FindAllFromBlocks(s, pos + 1);
      }
    }
  }

  // A match at `pos` ending at `e`: the block it spans, then the blocks scanned
  // from `e`.
  lemma ScannedMatch(s: string, pos: nat, e: nat, rest: seq<string>)
    requires pos < e <= |s| && BlockMatchAt(s, pos) == e && Scanned(s, e, rest)
    ensures Scanned(s, pos, [s[pos..e]] + rest)
  {
    var bs := [s[pos..e]] + rest;
    ConsParts(s[pos..e], rest);
    assert NoMatchIn(s, pos, pos);
    assert ScannedAt(s, pos, pos, bs);
  }

  lemma ConsParts<T>(x: T, rest: seq<T>)
    ensures ([x] + rest)[0] == x && ([x] + rest)[1..] == rest
  {
  }

  // No match at `pos`: what is scanned from `pos + 1` is scanned from `pos`.
  lemma ScannedSkip(s: string, pos: nat)
    requires pos < |s| && BlockMatchAt(s, pos) == -1
    requires Scanned(s, pos + 1, FindAllFrom(s, pos + 1))
    ensures Scanned(s, pos, FindAllFrom(s, pos))
  {
    var bs := FindAllFrom(s, pos + 1);
    assert FindAllFrom(s, pos) == bs;
    if bs != [] {
      var p: nat :| ScannedAt(s, pos + 1, p, bs);
      assert NoMatchIn(s, pos, p);
      assert ScannedAt(s, pos, p, bs);
    }
  }

  // `FindAllFrom` reports exactly the successive leftmost matches.
  lemma {:induction false} FindAllFromScanned(s: string, pos: nat)
    ensures Scanned(s, pos, FindAllFrom(s, pos))
    decreases |s| - pos
  {
    if pos < |s| {
      var e := BlockMatchAt(s, pos);
      if e >= 0 {
        FindAllFromScanned(s, e);
        assert FindAllFrom(s, pos) == [s[pos..e]] + FindAllFrom(s, e);
        ScannedMatch(s, pos, e, FindAllFrom(s, e));
      } else {
        FindAllFromScanned(s, pos + 1);
        ScannedSkip(s, pos);
      }
    }
  }

  // The construct blocks of a file: the successive leftmost matches, in file order.
  function FindAll(s: string): (blocks: seq<string>)
    ensures Scanned(s, 0, blocks)
  {
    FindAllFromScanned(s, 0);
    FindAllFrom(s, 0)
  }

  // A file with no `/*` holds no construct block.
  lemma {:induction false} NoCommentNoBlocks(s: string, pos: nat)
    requires forall i :: !OpenAt(s, i)
    ensures FindAllFrom(s, pos) == []
    decreases |s| - pos
  {
    if pos < |s| {
      NoCommentNoBlocks(s, pos + 1);
    }
  }

  // ---------------------------------------------------------------------------
  // The header regex (dbtdoc.py line 161), applied with `re.match` to one block:
  //   a comment, then lazily ` <keyword> `, a lazy space-free name, and then
  //   either `(` or `, *adapter *= *(.*?) `.
  // ---------------------------------------------------------------------------

  // The first index at or after `i` that is not a space (the greedy ` *`).
  function SkipSpaces(s: string, i: nat): (j: nat)
    requires i <= |s|
    ensures i <= j <= |s|
    ensures forall k :: i <= k < j ==> s[k] == ' '
    ensures j < |s| ==> s[j] != ' '
    decreases |s| - i
  {
    if i < |s| && s[i] == ' ' then SkipSpaces(s, i + 1) else i
  }

  // The first space at or after `i`, or -1.
  function NextSpace(s: string, i: nat): (w: int)
    ensures w == -1 || (i <= w < |s| && s[w] == ' ')
    ensures forall k :: i <= k < (if w == -1 then |s| else w) ==> s[k] != ' '
    decreases |s| - i
  {
    if i >= |s| then -1 else if s[i] == ' ' then i else NextSpace(s, i + 1)
  }

  // `, *adapter *= *(.*?) ` at `t`: the text of group 3, or None. The greedy
  // ` *` after `=` first takes every space, so group 3 is the text up to the next
  // space; when no space follows, it gives one back and group 3 is empty.
  // So group 3 is `s[v..w]`, with `v` the end of the spaces after `=` and `w` the
  // next space from `v`, or "" when spaces follow `=` but no space comes after them.
  function AdapterClause(s: string, t: nat): (g: Option<string>)
    ensures g.Some? ==> t < |s| && s[t] == ',' && ' ' !in g.value
  {
    if !(t < |s| && s[t] == ',') then None
    else
      var u := SkipSpaces(s, t + 1);
      if !OccursAt(s, "adapter", u) then None
      else
        var e := SkipSpaces(s, u + 7);
        if !(e < |s| && s[e] == '=') then None
        else
          var v := SkipSpaces(s, e + 1);
          var w := NextSpace(s, v);
          if w >= 0 then Some(s[v..w])
          else if v > e + 1 then Some("")
          else None
  }

  // `(?:\(|, *adapter *= *(.*?) )` at `t`: Some(None) for the parenthesis,
  // Some(Some(group 3)) for the adapter clause.
  function TailAt(s: string, t: nat): (r: Option<Option<string>>)
    ensures r == Some(None) <==> t < |s| && s[t] == '('
    ensures r.Some? ==> t < |s| && (s[t] == '(' || s[t] == ',')
    ensures r.Some? && r.value.Some? ==> ' ' !in r.value.value
  {
    if t < |s| && s[t] == '(' then Some(None)
    else match AdapterClause(s, t)
      case Some(g) => Some(Some(g))
      case None => None
  }

  // `([^ ]*?)` followed by the tail, with the name grown so far ending at `t`: the
  // tail is tried first, and the name is extended by one non-space character only
  // when it fails. The result is the end of the name.
  function NameFrom(s: string, t: nat): (r: int)
    ensures r == -1 || (t <= r < |s| && TailAt(s, r).Some?)
    ensures r != -1 ==> forall k :: t <= k < r ==> s[k] != ' '
    decreases |s| - t
  {
    if TailAt(s, t).Some? then t
    else if t < |s| && s[t] != ' ' then NameFrom(s, t + 1)
    else -1
  }

  lemma {:induction false} NameFromIsShortest(s: string, t: nat)
    ensures var r := NameFrom(s, t);
      r != -1 ==> forall k :: t <= k < r ==> TailAt(s, k).None?
    decreases |s| - t
  {
    if TailAt(s, t).None? && t < |s| && s[t] != ' ' {
      NameFromIsShortest(s, t + 1);
    }
  }

  // The name part and the tail fail from `t` exactly when no space-free stretch
  // from `t` is followed by the tail.
  lemma {:induction false} NameFromFails(s: string, t: nat)
    ensures NameFrom(s, t) == -1 <==>
      forall r :: t <= r <= |s| && (forall k :: t <= k < r ==> s[k] != ' ') ==> TailAt(s, r).None?
    decreases |s| - t
  {
    if TailAt(s, t).None? && t < |s| && s[t] != ' ' {
      NameFromFails(s, t + 1);
    }
  }

  // What the header regex captures: group 1, group 2 and group 3.
  datatype Header = Header(keyword: Keyword, name: string, adapter: Option<string>)

  // ` <keyword> <name><tail>` at `q`.
  predicate HeaderAt(s: string, q: nat) {
    SpacedKeywordAt(s, q) && NameFrom(s, AfterKeyword(s, q)) >= 0
  }

  function Headers(s: string): (flags: seq<bool>)
    ensures |flags| == |s| && forall k :: 0 <= k < |s| ==> flags[k] == HeaderAt(s, k)
  {
    seq(|s|, k requires 0 <= k < |s| => HeaderAt(s, k))
  }

  // The header found by the lazy `.*?` from `p`: at the first position `q` with a
  // header after it, the keyword at `q + 1`, group 2 the text from after the
  // keyword's space up to the first tail (`NameFrom`), and that tail's group 3.
  function HeaderFrom(s: string, p: nat): (h: Option<Header>)
    ensures h.Some? ==> ' ' !in h.value.name
  {
    var q := FirstTrue(Headers(s), p);
    if q < 0 then None
    else
      var n0 := AfterKeyword(s, q);
      var t := NameFrom(s, n0);
      assert forall k :: 0 <= k < t - n0 ==> s[n0..t][k] == s[n0 + k];
      Some(Header(KeywordAt(s, q + 1).value, s[n0..t], TailAt(s, t).value))
  }

  // The header comment's lazy `.*?\*/` may close at `c`.
  predicate HeaderCloseAt(s: string, c: nat) {
    CloseAt(s, c) && HeaderFrom(s, c + 2).Some?
  }

  function HeaderCloses(s: string): (flags: seq<bool>)
    ensures |flags| == |s| && forall k :: 0 <= k < |s| ==> flags[k] == HeaderCloseAt(s, k)
  {
    seq(|s|, k requires 0 <= k < |s| => HeaderCloseAt(s, k))
  }

  // Where the header comment's `*/` is taken to be: the first one with a header
  // after it, or -1.
  function HeaderClose(block: string): (c: int)
    ensures c == -1 || (2 <= c < |block| && HeaderCloseAt(block, c))
  {
    FirstTrue(HeaderCloses(block), 2)
  }

  // `re.match` of the header regex on a block: the groups, or None.
  function MatchHeader(block: string): (h: Option<Header>)
    ensures h.Some? ==> OpenAt(block, 0) && ' ' !in h.value.name
  {
    if !OpenAt(block, 0) || HeaderClose(block) < 0 then None
    else HeaderFrom(block, HeaderClose(block) + 2)
  }

  // When the header regex matches, its comment ends at the first `*/` from index
  // 2: a header found after a later `*/` is also found after an earlier one, since
  // the lazy `.*?` before the keyword can run over the extra text.
  lemma HeaderCommentEndsAtFirstClose(block: string)
    requires HeaderClose(block) >= 0
    ensures HeaderClose(block) == Find(block, "*/", 2)
  {
    var closes := HeaderCloses(block);
    var c := FirstTrue(closes, 2);
    var q := FirstTrue(Headers(block), c + 2);
    CloseAtIsOccurrence(block, c);
    var f := Find(block, "*/", 2);
    assert 2 <= f <= c;
    CloseAtIsOccurrence(block, f);
    HeaderFromFinds(block, f + 2, q);
    assert closes[f];
  }

  // A header at `q` is found by the search from any `p` up to `q`.
  lemma HeaderFromFinds(s: string, p: nat, q: nat)
    requires p <= q < |s| && HeaderAt(s, q)
    ensures HeaderFrom(s, p).Some?
  {
    var flags := Headers(s);
    assert flags[q];
  }

  // ---------------------------------------------------------------------------
  // What the scanner makes of the groups, and the record name
  // ---------------------------------------------------------------------------

  // The characters `.strip("\ \' \"")` removes: backslash, space, quote, double quote.
  predicate IsConnectorTrim(c: char) {
    c == '\\' || c == ' ' || c == '\'' || c == '"'
  }

  // The connector: group 3 stripped of those characters, or "" when group 3 is
  // missing or empty.
  function Connector(adapter: Option<string>): (c: string)
    ensures c == "" || (!IsConnectorTrim(c[0]) && !IsConnectorTrim(c[|c| - 1]))
    ensures adapter.None? ==> c == ""
    ensures adapter.Some? ==> |c| <= |adapter.value|
  {
    if adapter.Some? && adapter.value != "" then
      StripBy(adapter.value, IsConnectorTrim)
    else ""
  }

  // A construct as the scanner sees it: keyword, stripped base name and connector.
  datatype Construct = Construct(keyword: Keyword, name: string, connector: string)

  // The header of a block, or the failure of the unguarded `rr.group` access.
  function ParseHeader(block: string): (r: Result<Construct>)
    ensures r.Err? <==> MatchHeader(block).None?
    ensures r.Err? ==> r.error == MalformedHeader(block)
    ensures r.Ok? ==>
      && r.value.keyword == MatchHeader(block).value.keyword
      && r.value.name == Strip(MatchHeader(block).value.name)
      && r.value.connector == Connector(MatchHeader(block).value.adapter)
    ensures r.Ok? ==> var n := r.value.name;
      && ' ' !in n && |n| <= |MatchHeader(block).value.name|
      && (n == "" || (!IsSpace(n[0]) && !IsSpace(n[|n| - 1])))
    ensures r.Ok? ==> var c := r.value.connector;
      c == "" || (!IsConnectorTrim(c[0]) && !IsConnectorTrim(c[|c| - 1]))
  {
    match MatchHeader(block)
    case None => Err(MalformedHeader(block))
    case Some(h) =>
      StripKeepsChars(h.name, IsSpace);
      Ok(Construct(h.keyword, Strip(h.name), Connector(h.adapter)))
  }

  // The record name: `materialization_<name>_<connector>`, `test_<name>` or the
  // macro's own name. A test's and a macro's end in the base name, and a
  // materialization's in `_` and the connector.
  function ResourceName(c: Construct): (n: string)
    ensures |n| >= |c.name|
    ensures c.keyword != Materialization ==> n[|n| - |c.name|..] == c.name
    ensures c.keyword == Materialization ==>
      |n| > |c.connector| && n[|n| - |c.connector| - 1..] == "_" + c.connector
  {
    match c.keyword
    case Materialization => "materialization_" + c.name + "_" + c.connector
    case Test => "test_" + c.name
    case Macro => c.name
  }

  // The base name can be read back from the record name of a test or macro, and
  // from a materialization's once its connector is known.
  lemma ResourceNameRecoversBase(c: Construct)
    ensures var n := ResourceName(c);
      match c.keyword
      case Macro => n == c.name
      case Test => |n| == 5 + |c.name| && n[..5] == "test_" && n[5..] == c.name
      case Materialization =>
        |n| == 17 + |c.name| + |c.connector| && n[..16] == "materialization_"
        && n[16..16 + |c.name|] == c.name && n[16 + |c.name|] == '_' && n[17 + |c.name|..] == c.connector
  {
  }

  // Record names of different kinds can collide: a macro named `test_foo` and a
  // test named `foo` both produce `test_foo`.
  lemma MacroAndTestNamesCollide()
    ensures ResourceName(Construct(Macro, "test_foo", "")) == ResourceName(Construct(Test, "foo", ""))
  {
  }

  lemma ResourceNameExamples()
    ensures ResourceName(Construct(Test, "foo", "")) == "test_foo"
    ensures ResourceName(Construct(Materialization, "bar", "snowflake")) == "materialization_bar_snowflake"
    ensures ResourceName(Construct(Macro, "baz", "")) == "baz"
  {
  }
}
