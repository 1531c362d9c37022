/**
 The linter's scanner of Rust source: comments, strings and character literals are
 found in one pass and blanked without moving anything.
 */
module RustScanner {
  import opened Wrappers

  datatype Kind = LineComment | BlockComment | RawString | Text | CharLiteral | Lifetime

  /** A piece of the source that is not plain code, from `start` up to `end`. */
  datatype Segment = Segment(start: nat, end: nat, kind: Kind)

  // ---- Where a segment starts ------------------------------------------------------------

  /** `str.startswith` at a position. */
  predicate StartsAt(text: string, p: nat, what: string) {
    p + |what| <= |text| && text[p..p + |what|] == what
  }

  predicate IsWordChar(c: char) {
    'a' <= c <= 'z' || 'A' <= c <= 'Z' || '0' <= c <= '9' || c == '_'
  }

  /** The first position from `p` on that is not `#`. */
  function SkipHashes(text: string, p: nat): (r: nat)
    requires p <= |text|
    ensures p <= r <= |text|
    ensures forall i :: p <= i < r ==> text[i] == '#'
    decreases |text| - p
  {
    if p < |text| && text[p] == '#' then SkipHashes(text, p + 1) else p
  }

  /** A raw string's opening, `b?r#*"`: its end and its hashes. */
  function RawOpening(text: string, p: nat): (r: Option<(nat, nat)>)
    requires p <= |text|
    ensures r.Some? ==> p < r.value.0 <= |text|
  {
    var q := if p < |text| && text[p] == 'b' then p + 1 else p;
    if q >= |text| || text[q] != 'r' || (p > 0 && IsWordChar(text[p - 1])) then None
    else
      var h := SkipHashes(text, q + 1);
      if h < |text| && text[h] == '"' then Some((h + 1, h - (q + 1))) else None
  }

  datatype Start = Start(at: nat, kind: Kind, after: nat, hashes: nat)

  /** What starts at `p`: its kind and where its opening ends. */
  function StartAt(text: string, p: nat): (r: Option<Start>)
    requires p <= |text|
    ensures r.Some? ==> r.value.at == p && p < r.value.after <= |text|
  {
    if StartsAt(text, p, "//") then Some(Start(p, LineComment, p + 2, 0))
    else if StartsAt(text, p, "/*") then Some(Start(p, BlockComment, p + 2, 0))
    else if RawOpening(text, p).Some? then Some(Start(p, RawString, RawOpening(text, p).value.0, RawOpening(text, p).value.1))
    else if p < |text| && text[p] == '"' then Some(Start(p, Text, p + 1, 0))
    else if p < |text| && text[p] == '\'' then Some(Start(p, CharLiteral, p + 1, 0))
    else None
  }

  /** The first start at or after `p`. */
  function Search(text: string, p: nat): (r: Option<Start>)
    requires p <= |text|
    ensures r.Some? ==> p <= r.value.at < r.value.after <= |text| && StartAt(text, r.value.at) == r
    ensures forall q :: p <= q < (if r.Some? then r.value.at else |text|) ==> StartAt(text, q) == None
    decreases |text| - p
  {
    if p == |text| then None
    else if StartAt(text, p).Some? then StartAt(text, p)
    else Search(text, p + 1)
  }

  // ---- Where it ends -------------------------------------------------------------------------

  /** `str.find` from `p` on: the position, the length of the text when there is none. */
  function Find(text: string, p: nat, what: string): (r: nat)
    ensures r <= |text|
    ensures r < |text| ==> p <= r && StartsAt(text, r, what)
    ensures forall q :: p <= q < r ==> !StartsAt(text, q, what)
    decreases |text| - p
  {
    if p >= |text| then |text|
    else if StartsAt(text, p, what) then p
    else Find(text, p + 1, what)
  }

  /** The end of a block comment with `depth` comments open at `j`. */
  function BlockEnd(text: string, j: nat, depth: nat): (r: nat)
    requires j <= |text| && depth > 0
    ensures j <= r <= |text|
    decreases |text| - j
  {
    if StartsAt(text, j, "/*") then BlockEnd(text, j + 2, depth + 1)
    else if StartsAt(text, j, "*/") then if depth == 1 then j + 2 else BlockEnd(text, j + 2, depth - 1)
    else if j == |text| then j
    else BlockEnd(text, j + 1, depth)
  }

  /** The end of a string whose contents go on at `j`. */
  function TextEnd(text: string, j: nat): (r: nat)
    requires j <= |text|
    ensures j <= r <= |text|
    decreases |text| - j
  {
    if j == |text| then j
    else if text[j] == '"' then j + 1
    else if text[j] != '\\' then TextEnd(text, j + 1)
    else if j + 1 < |text| then TextEnd(text, j + 2)
    else |text|
  }

  function Hashes(n: nat): string {
    seq(n, _ => '#')
  }

  function SegmentOf(text: string, s: Start): (r: Segment)
    requires s.at <= |text| && StartAt(text, s.at) == Some(s)
    ensures r.start == s.at && s.at < r.end <= |text|
  {
    match s.kind
    case LineComment =>
      assert text[s.at] == '/' && !StartsAt(text, s.at, "\n");
      Segment(s.at, Find(text, s.at, "\n"), LineComment)
    case BlockComment => Segment(s.at, BlockEnd(text, s.after, 1), BlockComment)
    case RawString =>
      var close := "\"" + Hashes(s.hashes);
      var k := Find(text, s.after, close);
      Segment(s.at, if k < |text| then k + |close| else |text|, RawString)
    case Text => Segment(s.at, TextEnd(text, s.after), Text)
    case _ =>
      if s.at + 1 < |text| && text[s.at + 1] == '\\' then
        var k := Find(text, s.at + 3, "'");
        Segment(s.at, if k < |text| then k + 1 else |text|, CharLiteral)
      else if s.at + 2 < |text| && text[s.at + 2] == '\'' then Segment(s.at, s.at + 3, CharLiteral)
      else Segment(s.at, s.at + 1, Lifetime)
  }

  /** The segments from `pos` on. */
  function Segments(text: string, pos: nat): seq<Segment>
    requires pos <= |text|
    decreases |text| - pos
  {
    match Search(text, pos)
    case None => []
    case Some(s) => [SegmentOf(text, s)] + Segments(text, SegmentOf(text, s).end)
  }

  // ---- What is blanked ------------------------------------------------------------------------

  function Blank(c: char): char {
    if c == '\n' then c else ' '
  }

  function BlankAll(s: string): string {
    seq(|s|, i requires 0 <= i < |s| => Blank(s[i]))
  }

  predicate IsComment(kind: Kind) {
    kind.LineComment? || kind.BlockComment?
  }

  ghost predicate Covers(segments: seq<Segment>, k: nat, comments: bool) {
    exists i :: 0 <= i < |segments| && segments[i].start <= k < segments[i].end
                && (if comments then IsComment(segments[i].kind) else !segments[i].kind.Lifetime?)
  }

  /** `out` is `text` up to `n` with everything in the segments blanked: comments only, or literals too. */
  ghost predicate Blanked(text: string, n: nat, out: string, segments: seq<Segment>, comments: bool)
    requires n <= |text|
  {
    |out| == n && forall k :: 0 <= k < n ==> out[k] == if Covers(segments, k, comments) then Blank(text[k]) else text[k]
  }

  /** The spans of the line comments. */
  function LineComments(segments: seq<Segment>): seq<(nat, nat)> {
    if segments == [] then []
    else
      var last := segments[|segments| - 1];
      LineComments(segments[..|segments| - 1]) + (if last.kind.LineComment? then [(last.start, last.end)] else [])
  }

  ghost predicate Ordered(segments: seq<Segment>, from: nat, to: nat) {
    && (forall i :: 0 <= i < |segments| ==> from <= segments[i].start < segments[i].end <= to)
    && (forall i, j :: 0 <= i < j < |segments| ==> segments[i].end <= segments[j].start)
  }

  lemma {:induction false} SegmentsAreOrdered(text: string, pos: nat)
    requires pos <= |text|
    ensures Ordered(Segments(text, pos), pos, |text|)
    decreases |text| - pos
  {
    hide Search, SegmentOf;
    var s := Search(text, pos);
    if s.Some? {
      SegmentsAreOrdered(text, SegmentOf(text, s.value).end);
    }
  }

  /** More of the text: plain code up to `i`, then one segment. */
  lemma BlankedGrows(text: string, n: nat, out: string, segments: seq<Segment>, comments: bool, seg: Segment, piece: string)
    requires n <= seg.start <= seg.end <= |text| && Ordered(segments, 0, n) && Blanked(text, n, out, segments, comments)
    requires piece == if (if comments then IsComment(seg.kind) else !seg.kind.Lifetime?)
                      then BlankAll(text[seg.start..seg.end]) else text[seg.start..seg.end]
    ensures Blanked(text, seg.end, out + text[n..seg.start] + piece, segments + [seg], comments)
  {
    var out' := out + text[n..seg.start] + piece;
    forall k | 0 <= k < seg.end
      ensures out'[k] == if Covers(segments + [seg], k, comments) then Blank(text[k]) else text[k]
    {
      CoversAppend(segments, seg, k, comments);
      if k >= n {
        assert !Covers(segments, k, comments);
      }
    }
  }

  lemma CoversAppend(segments: seq<Segment>, seg: Segment, k: nat, comments: bool)
    ensures Covers(segments + [seg], k, comments) <==>
      Covers(segments, k, comments)
      || (seg.start <= k < seg.end && (if comments then IsComment(seg.kind) else !seg.kind.Lifetime?))
  {
    var all := segments + [seg];
    if Covers(segments, k, comments) {
      var i :| 0 <= i < |segments| && segments[i].start <= k < segments[i].end
               && (if comments then IsComment(segments[i].kind) else !segments[i].kind.Lifetime?);
      assert all[i] == segments[i];
    }
    assert all[|segments|] == seg;
  }

  /** The next mark of a block comment from `j` on, the length of the text when there is none. */
  function NextMark(text: string, j: nat): (r: nat)
    requires j <= |text|
    ensures j <= r <= |text|
    ensures r < |text| ==> StartsAt(text, r, "/*") || StartsAt(text, r, "*/")
    ensures forall k :: j <= k < r ==> !StartsAt(text, k, "/*") && !StartsAt(text, k, "*/")
    decreases |text| - j
  {
    if j == |text| || StartsAt(text, j, "/*") || StartsAt(text, j, "*/") then j else NextMark(text, j + 1)
  }

  lemma {:induction false} SkipToMark(text: string, j: nat, k: nat, depth: nat)
    requires j <= k <= |text| && depth > 0
    requires forall i :: j <= i < k ==> !StartsAt(text, i, "/*") && !StartsAt(text, i, "*/")
    ensures BlockEnd(text, j, depth) == BlockEnd(text, k, depth)
    decreases k - j
  {
    hide StartsAt;
    if j < k {
      SkipToMark(text, j + 1, k, depth);
    }
  }

  /** The loop over the marks, with the number of comments open. */
  method BlockCommentEnd(text: string, start: nat) returns (j: nat)
    requires start <= |text|
    ensures j == BlockEnd(text, start, 1)
  {
    hide StartsAt;
    var depth := 1;
    j := start;
    while depth > 0
      invariant j <= |text|
      invariant BlockEnd(text, start, 1) == if depth > 0 then BlockEnd(text, j, depth) else j
      decreases |text| - j, depth
    {
      var mark := NextMark(text, j);
      SkipToMark(text, j, mark, depth);
      if mark == |text| {
        NoMarkAtEnd(text);
        j := |text|;
        break;
      }
      MarkIsLong(text, mark);
      depth := if StartsAt(text, mark, "/*") then depth + 1 else depth - 1;
      j := mark + 2;
    }
  }

  lemma NoMarkAtEnd(text: string)
    ensures !StartsAt(text, |text|, "/*") && !StartsAt(text, |text|, "*/")
  {
  }

  lemma MarkIsLong(text: string, p: nat)
    requires StartsAt(text, p, "/*") || StartsAt(text, p, "*/")
    ensures p + 2 <= |text|
  {
  }

  method NextSegment(text: string, s: Start) returns (seg: Segment)
    requires s.at <= |text| && StartAt(text, s.at) == Some(s)
    ensures seg == SegmentOf(text, s)
  {
    hide StartAt, BlockEnd;
    if s.kind == BlockComment {
      var end := BlockCommentEnd(text, s.after);
      seg := Segment(s.at, end, BlockComment);
    } else {
      seg := SegmentOf(text, s);
    }
  }

  lemma OneSegment(text: string, pos: nat, s: Start)
    requires pos <= |text| && Search(text, pos) == Some(s)
    ensures Segments(text, pos) == [SegmentOf(text, s)] + Segments(text, SegmentOf(text, s).end)
  {
  }

  lemma NoSegment(text: string, pos: nat)
    requires pos <= |text| && Search(text, pos) == None
    ensures Segments(text, pos) == []
  {
  }

  /** `scan_rust`. */
  method ScanRust(text: string) returns (code: string, keep: string, comments: seq<(nat, nat)>)
    ensures Blanked(text, |text|, code, Segments(text, 0), false)
    ensures Blanked(text, |text|, keep, Segments(text, 0), true)
    ensures comments == LineComments(Segments(text, 0))
  {
    hide Search, SegmentOf, Blanked, Ordered, BlankAll, LineComments, Segments;
    code, keep, comments := "", "", [];
    var pos := 0;
    ghost var done: seq<Segment> := [];
    NothingBlanked(text);
    while true
      invariant pos <= |text|
      invariant done + Segments(text, pos) == Segments(text, 0) && Ordered(done, 0, pos)
      invariant Blanked(text, pos, code, done, false) && Blanked(text, pos, keep, done, true)
      invariant comments == LineComments(done)
      decreases |text| - pos
    {
      var s := Search(text, pos);
      if s.None? {
        NoSegment(text, pos);
        break;
      }
      var seg := NextSegment(text, s.value);
      var piece := text[seg.start..seg.end];
      var codePiece := if seg.kind.Lifetime? then piece else BlankAll(piece);
      var keepPiece := if IsComment(seg.kind) then BlankAll(piece) else piece;
      BlankedGrows(text, pos, code, done, false, seg, codePiece);
      BlankedGrows(text, pos, keep, done, true, seg, keepPiece);
      code := code + text[pos..seg.start] + codePiece;
      keep := keep + text[pos..seg.start] + keepPiece;
      if seg.kind.LineComment? {
        comments := comments + [(seg.start, seg.end)];
      }
      OneSegment(text, pos, s.value);
      OneMore(done, pos, seg, |text|);
      assert done + ([seg] + Segments(text, seg.end)) == done + [seg] + Segments(text, seg.end);
      done := done + [seg];
      pos := seg.end;
    }
    assert done == Segments(text, 0);
    BlankedTail(text, pos, code, done, false);
    BlankedTail(text, pos, keep, done, true);
    code := code + text[pos..];
    keep := keep + text[pos..];
  }

  lemma OneMore(done: seq<Segment>, pos: nat, seg: Segment, len: nat)
    requires Ordered(done, 0, pos) && pos <= seg.start < seg.end <= len
    ensures Ordered(done + [seg], 0, seg.end)
    ensures LineComments(done + [seg])
         == LineComments(done) + (if seg.kind.LineComment? then [(seg.start, seg.end)] else [])
  {
    assert (done + [seg])[..|done|] == done;
  }

  lemma NothingBlanked(text: string)
    ensures Blanked(text, 0, "", [], false) && Blanked(text, 0, "", [], true) && Ordered([], 0, 0)
    ensures LineComments([]) == []
  {
  }

  lemma BlankedTail(text: string, n: nat, out: string, segments: seq<Segment>, comments: bool)
    requires n <= |text| && Ordered(segments, 0, n) && Blanked(text, n, out, segments, comments)
    ensures Blanked(text, |text|, out + text[n..], segments, comments)
  {
    forall k | n <= k < |text| ensures !Covers(segments, k, comments) {
    }
  }
}
