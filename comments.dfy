// The comment/fence splitter of `_read_blocks` (also inlined in `_scan_macros`):
// the description is the text between the first `/*` and the first `*/`; inside
// it, a fence opened by "```dbt" and closed by "```" holds the YAML fragment.
module Comments {
  import opened PyText
  import opened Results

  const FenceOpen := "```dbt"
  const FenceClose := "```"

  // The description and the fragment text (present exactly when the fence opener
  // was found, and then handed to `yaml.load`).
  datatype Split = Split(description: string, fragment: Option<string>)

  // The comment body: a Python slice from just past the first `/*` to the first
  // `*/`, or "" when the text has no `/*`. Both markers are searched from the start
  // of the text, so the `*/` is not looked for after the `/*`, and a missing `*/`
  // makes the slice end at -1, one character short of the end.
  function CommentBody(text: string): (doc: string)
    ensures |doc| <= |text|
  {
    var start := Find(text, "/*", 0);
    var end := Find(text, "*/", 0);
    if start > -1 then Slice(text, start + 2, end) else ""
  }

  // The fence handling applied to a non-empty comment body: the fragment is the
  // text after "```dbt" up to the next "```" and the description is the stripped
  // text before "```dbt". Both slices take the -1 of a failed `find` as an end
  // index. An empty body gives an empty description and no fragment.
  function SplitFence(doc: string): (r: Split)
    ensures doc == "" ==> r == Split("", None)
    ensures r.description == "" || (!IsSpace(r.description[0]) && !IsSpace(r.description[|r.description| - 1]))
  {
    if doc == "" then Split("", None)
    else
      var s := Find(doc, FenceOpen, 0);
      var e := Find(doc, FenceClose, s + |FenceOpen|);
      var fragment := if s > -1 then Some(Slice(doc, s + |FenceOpen|, e)) else None;
      Split(Strip(Slice(doc, 0, s)), fragment)
  }

  // `_read_blocks` on a text, without the file read and the YAML load: a text
  // without a comment body has neither description nor fragment, and the
  // description has no whitespace at either end.
  function ReadBlocks(text: string): (r: Split)
    ensures CommentBody(text) == "" ==> r == Split("", None)
    ensures r.description == "" || (!IsSpace(r.description[0]) && !IsSpace(r.description[|r.description| - 1]))
  {
    SplitFence(CommentBody(text))
  }

  // No `/*` anywhere: empty description and no fragment to parse.
  lemma NoOpeningComment(text: string)
    requires forall i :: !OccursAt(text, "/*", i)
    ensures ReadBlocks(text) == Split("", None)
  {
    FindNone(text, "/*", 0);
  }

  // With a `/*` at `start` (the first one) and the first `*/` at `end`, the body is
  // the text strictly between them when `end` is at or after `start + 2`, and empty
  // when the first `*/` comes earlier (it may precede the `/*`, or overlap it as in
  // "/*/").
  lemma BodyBetweenMarkers(text: string, start: nat, end: nat)
    requires OccursAt(text, "/*", start) && forall i :: 0 <= i < start ==> !OccursAt(text, "/*", i)
    requires OccursAt(text, "*/", end) && forall i :: 0 <= i < end ==> !OccursAt(text, "*/", i)
    ensures CommentBody(text) == if start + 2 <= end then text[start + 2..end] else ""
  {
    FindIs(text, "/*", 0, start);
    FindIs(text, "*/", 0, end);
  }

  // With a `/*` at `start` and no `*/` anywhere, the body runs to the end of the text
  // less its last character.
  lemma BodyUnclosed(text: string, start: nat)
    requires OccursAt(text, "/*", start) && forall i :: 0 <= i < start ==> !OccursAt(text, "/*", i)
    requires forall i :: !OccursAt(text, "*/", i)
    ensures CommentBody(text) == if start + 2 < |text| then text[start + 2..|text| - 1] else ""
  {
    FindIs(text, "/*", 0, start);
    FindNone(text, "*/", 0);
  }

  // With the first "```dbt" at `s`: the description is the stripped text before it,
  // and the fragment runs from after it to the first "```" at or after `s + 6`, or,
  // with no such "```", to the end less the last character.
  lemma {:induction false} FencedSplit(doc: string, s: nat)
    requires OccursAt(doc, FenceOpen, s) && forall i :: 0 <= i < s ==> !OccursAt(doc, FenceOpen, i)
    ensures SplitFence(doc).description == Strip(doc[..s])
    ensures SplitFence(doc).fragment.Some?
    ensures var from, e := s + |FenceOpen|, Find(doc, FenceClose, s + |FenceOpen|);
      SplitFence(doc).fragment.value ==
        if e >= 0 then doc[from..e] else if from < |doc| then doc[from..|doc| - 1] else ""
  {
    FindIs(doc, FenceOpen, 0, s);
    SliceInRange(doc, 0, s);
    var from, e := s + |FenceOpen|, Find(doc, FenceClose, s + |FenceOpen|);
    if e >= 0 {
      SliceInRange(doc, from, e);
    } else {
      SliceToMinusOne(doc, from);
    }
  }

  // Without "```dbt" in a non-empty body there is no fragment, and the description
  // is the body less its last character, stripped: the -1 of the failed `find` is
  // used as the slice end.
  lemma UnfencedSplit(doc: string)
    requires doc != "" && forall i :: !OccursAt(doc, FenceOpen, i)
    ensures SplitFence(doc) == Split(Strip(doc[..|doc| - 1]), None)
  {
    FindNone(doc, FenceOpen, 0);
    SliceToMinusOne(doc, 0);
  }

  // A fragment is only ever produced when the fence opener occurs in the body.
  lemma FragmentNeedsFence(text: string)
    requires ReadBlocks(text).fragment.Some?
    ensures exists i :: OccursAt(CommentBody(text), FenceOpen, i)
  {
    var doc := CommentBody(text);
    var s := Find(doc, FenceOpen, 0);
    assert OccursAt(doc, FenceOpen, s);
  }
}
