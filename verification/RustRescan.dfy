/**
 What the linter relies on after a scan: offsets, line ends and the exact place of
 comments; and that a text without its comments scans to the same literals.
 */
module RustRescan {
  import opened Wrappers
  import opened RustScanner

  // ---- Offsets ------------------------------------------------------------------------------

  ghost predicate IsScan(text: string, code: string, keep: string, comments: seq<(nat, nat)>) {
    && Blanked(text, |text|, code, Segments(text, 0), false)
    && Blanked(text, |text|, keep, Segments(text, 0), true)
    && comments == LineComments(Segments(text, 0))
  }

  lemma CommentsAreCovered(segments: seq<Segment>, k: nat)
    requires Covers(segments, k, true)
    ensures Covers(segments, k, false)
  {
    var i :| 0 <= i < |segments| && segments[i].start <= k < segments[i].end && IsComment(segments[i].kind);
    assert !segments[i].kind.Lifetime?;
  }

  /** Nothing moves: every changed character became a space, and what `keep` blanks `code` blanks too. */
  lemma ScanKeepsOffsets(text: string, code: string, keep: string, comments: seq<(nat, nat)>)
    requires IsScan(text, code, keep, comments)
    ensures |code| == |keep| == |text|
    ensures forall k :: 0 <= k < |text| ==> (code[k] == '\n' <==> text[k] == '\n') && (keep[k] == '\n' <==> text[k] == '\n')
    ensures forall k :: 0 <= k < |text| ==> (code[k] == text[k] || code[k] == ' ') && (keep[k] == text[k] || keep[k] == ' ')
    ensures forall k :: 0 <= k < |text| && keep[k] != text[k] ==> Covers(Segments(text, 0), k, true) && code[k] == keep[k]
  {
    hide Covers, Segments;
    forall k | 0 <= k < |text| && keep[k] != text[k]
      ensures Covers(Segments(text, 0), k, true) && code[k] == keep[k]
    {
      CommentsAreCovered(Segments(text, 0), k);
    }
  }

  /** Every segment is what starts at its first character. */
  lemma {:induction false} SegmentStarts(text: string, pos: nat, i: nat)
    requires pos <= |text| && i < |Segments(text, pos)|
    ensures var seg := Segments(text, pos)[i];
      seg.start < |text| && StartAt(text, seg.start).Some? && seg == SegmentOf(text, StartAt(text, seg.start).value)
    decreases |text| - pos
  {
    hide Search, SegmentOf, StartAt;
    var s := Search(text, pos);
    if s.Some? && i > 0 {
      SegmentStarts(text, SegmentOf(text, s.value).end, i - 1);
    }
  }

  /** A line comment starts with two slashes and reaches up to the end of its line, not past it. */
  lemma LineCommentSpan(text: string, s: Start)
    requires s.at <= |text| && StartAt(text, s.at) == Some(s)
    ensures SegmentOf(text, s).kind.LineComment? ==>
      var seg := SegmentOf(text, s);
      && text[seg.start] == '/'
      && (forall k :: seg.start <= k < seg.end ==> text[k] != '\n')
      && (seg.end == |text| || text[seg.end] == '\n')
  {
    hide RawOpening, BlockEnd, TextEnd;
    if StartsAt(text, s.at, "//") {
      var end := Find(text, s.at, "\n");
      forall k | s.at <= k < end ensures text[k] != '\n' {
        assert !StartsAt(text, k, "\n");
        assert text[k..k + 1] == [text[k]];
      }
      assert text[s.at] == text[s.at..s.at + 2][0];
      if end < |text| {
        assert text[end] == text[end..end + 1][0];
      }
    }
  }

  lemma {:induction false} LineCommentIsASegment(segments: seq<Segment>, c: nat) returns (i: nat)
    requires c < |LineComments(segments)|
    ensures i < |segments| && segments[i].kind.LineComment? && LineComments(segments)[c] == (segments[i].start, segments[i].end)
  {
    var n := |segments| - 1;
    if c < |LineComments(segments[..n])| {
      i := LineCommentIsASegment(segments[..n], c);
    } else {
      i := n;
    }
  }

  lemma {:induction false} LineCommentsIncrease(segments: seq<Segment>, from: nat, to: nat)
    requires Ordered(segments, from, to)
    ensures forall c :: 0 <= c < |LineComments(segments)| ==>
      from <= LineComments(segments)[c].0 < LineComments(segments)[c].1 <= to
    ensures forall c, d :: 0 <= c < d < |LineComments(segments)| ==>
      LineComments(segments)[c].1 <= LineComments(segments)[d].0
  {
    if segments != [] {
      var n := |segments| - 1;
      LineCommentsIncrease(segments[..n], from, segments[n].start);
    }
  }

  /** The spans reported are whole line comments, in order and apart, and blank in both outputs. */
  lemma CommentSpansAreBlank(text: string, code: string, keep: string, comments: seq<(nat, nat)>)
    requires IsScan(text, code, keep, comments)
    ensures |code| == |keep| == |text|
    ensures forall c :: 0 <= c < |comments| ==>
      && comments[c].0 < comments[c].1 <= |text|
      && (comments[c].1 == |text| || text[comments[c].1] == '\n')
      && forall k :: comments[c].0 <= k < comments[c].1 ==> text[k] != '\n' && code[k] == keep[k] == ' '
    ensures forall c, d :: 0 <= c < d < |comments| ==> comments[c].1 <= comments[d].0
  {
    hide Segments, SegmentOf, StartAt, Ordered, LineComments;
    var segments := Segments(text, 0);
    SegmentsAreOrdered(text, 0);
    LineCommentsIncrease(segments, 0, |text|);
    forall c | 0 <= c < |comments|
      ensures (comments[c].1 == |text| || text[comments[c].1] == '\n')
              && forall k :: comments[c].0 <= k < comments[c].1 ==> text[k] != '\n' && code[k] == keep[k] == ' '
    {
      var i := LineCommentIsASegment(segments, c);
      SegmentStarts(text, 0, i);
      LineCommentSpan(text, StartAt(text, segments[i].start).value);
      forall k | comments[c].0 <= k < comments[c].1
        ensures text[k] != '\n' && code[k] == keep[k] == ' '
      {
        assert Covers(segments, k, true);
        CommentsAreCovered(segments, k);
      }
    }
  }

  // ---- Scanning again ---------------------------------------------------------------------------

  function Literals(segments: seq<Segment>): seq<Segment> {
    if segments == [] then []
    else (if IsComment(segments[0].kind) then [] else [segments[0]]) + Literals(segments[1..])
  }

  /** `out` is `text` with some characters blanked. */
  predicate OnlyBlanks(text: string, out: string) {
    |out| == |text| && forall k :: 0 <= k < |text| ==> out[k] == text[k] || out[k] == ' ' || out[k] == '\n'
  }

  predicate IsVisible(what: string) {
    forall i :: 0 <= i < |what| ==> what[i] != ' ' && what[i] != '\n'
  }

  predicate Same(text: string, out: string, from: nat, to: nat)
    requires |out| == |text|
  {
    forall k :: from <= k < to && k < |text| ==> out[k] == text[k]
  }

  /** A visible string found in the blanked text was there before. */
  lemma FoundBefore(text: string, out: string, p: nat, what: string)
    requires OnlyBlanks(text, out) && IsVisible(what) && StartsAt(out, p, what)
    ensures StartsAt(text, p, what)
  {
    forall i | 0 <= i < |what| ensures text[p..p + |what|][i] == what[i] {
      assert out[p..p + |what|][i] == what[i];
    }
  }

  lemma FoundStill(text: string, out: string, p: nat, what: string)
    requires OnlyBlanks(text, out) && StartsAt(text, p, what) && Same(text, out, p, p + |what|)
    ensures StartsAt(out, p, what)
  {
    assert out[p..p + |what|] == text[p..p + |what|];
  }

  /** What is found first stays first, when it stays. */
  lemma {:induction false} FindSame(text: string, out: string, p: nat, what: string)
    requires OnlyBlanks(text, out) && IsVisible(what) && what != ""
    requires var k := Find(text, p, what); k < |text| ==> Same(text, out, k, k + |what|)
    ensures Find(out, p, what) == Find(text, p, what)
    decreases |text| - p
  {
    hide StartsAt;
    if p < |text| {
      if StartsAt(text, p, what) {
        FoundStill(text, out, p, what);
      } else {
        if StartsAt(out, p, what) {
          FoundBefore(text, out, p, what);
        }
        FindSame(text, out, p + 1, what);
      }
    }
  }

  lemma {:induction false} TextEndSame(text: string, out: string, j: nat)
    requires OnlyBlanks(text, out) && j <= |text| && Same(text, out, j, TextEnd(text, j))
    ensures TextEnd(out, j) == TextEnd(text, j)
    decreases |text| - j
  {
    if j < |text| && text[j] != '"' {
      if text[j] != '\\' {
        TextEndSame(text, out, j + 1);
      } else if j + 1 < |text| {
        TextEndSame(text, out, j + 2);
      }
    }
  }

  lemma {:induction false} HashesAgree(a: string, b: string, q: nat)
    requires |a| == |b| && q <= |a|
    requires forall k :: q <= k <= SkipHashes(a, q) && k < |a| ==> a[k] == b[k]
    ensures SkipHashes(b, q) == SkipHashes(a, q)
    decreases |a| - q
  {
    if q < |a| && a[q] == '#' {
      HashesAgree(a, b, q + 1);
    }
  }

  /** Raw openings in the blanked text were there before, unless a letter before them was blanked. */
  lemma RawBefore(text: string, out: string, p: nat)
    requires OnlyBlanks(text, out) && p <= |text| && RawOpening(out, p).Some?
    requires p > 0 ==> !IsWordChar(text[p - 1])
    ensures RawOpening(text, p) == RawOpening(out, p)
  {
    hide SkipHashes, IsWordChar;
    var q := if out[p] == 'b' then p + 1 else p;
    HashesAgree(out, text, q + 1);
  }

  lemma RawStill(text: string, out: string, p: nat)
    requires OnlyBlanks(text, out) && p <= |text| && RawOpening(text, p).Some?
    requires Same(text, out, p, RawOpening(text, p).value.0)
    ensures RawOpening(out, p) == RawOpening(text, p)
  {
    var q := if text[p] == 'b' then p + 1 else p;
    HashesAgree(text, out, q + 1);
  }

  lemma TwoChars(text: string, p: nat)
    ensures StartsAt(text, p, "//") <==> p + 2 <= |text| && text[p] == '/' && text[p + 1] == '/'
    ensures StartsAt(text, p, "/*") <==> p + 2 <= |text| && text[p] == '/' && text[p + 1] == '*'
  {
    if p + 2 <= |text| {
      assert text[p..p + 2] == [text[p], text[p + 1]];
    }
  }

  lemma RawFirstChar(text: string, p: nat)
    requires p <= |text| && RawOpening(text, p).Some?
    ensures p < |text| && (text[p] == 'b' || text[p] == 'r')
  {
  }

  /** The blanked text has no starts of its own. */
  lemma StartBefore(text: string, out: string, p: nat)
    requires OnlyBlanks(text, out) && p <= |text| && StartAt(out, p).Some?
    requires p > 0 ==> !IsWordChar(text[p - 1]) || out[p - 1] == text[p - 1]
    ensures StartAt(text, p) == StartAt(out, p)
  {
    hide RawOpening, StartsAt;
    TwoChars(text, p);
    TwoChars(out, p);
    if RawOpening(out, p).Some? {
      RawFirstChar(out, p);
      RawNeedsNoLetter(out, p);
      RawBefore(text, out, p);
    } else if RawOpening(text, p).Some? {
      RawFirstChar(text, p);
    }
  }

  lemma RawNeedsNoLetter(text: string, p: nat)
    requires p <= |text| && RawOpening(text, p).Some?
    ensures p > 0 ==> !IsWordChar(text[p - 1])
  {
  }

  /** What starts a literal still does when its opening is not blanked. */
  lemma StartStill(text: string, out: string, p: nat)
    requires OnlyBlanks(text, out) && p <= |text| && StartAt(text, p).Some?
    requires !IsComment(StartAt(text, p).value.kind) && Same(text, out, p, StartAt(text, p).value.after)
    ensures StartAt(out, p) == StartAt(text, p)
  {
    hide RawOpening, StartsAt;
    TwoChars(text, p);
    TwoChars(out, p);
    if RawOpening(text, p).Some? {
      RawFirstChar(text, p);
      RawStill(text, out, p);
    } else if RawOpening(out, p).Some? {
      RawFirstChar(out, p);
    }
  }

  lemma OpeningWithin(text: string, s: Start)
    requires s.at <= |text| && StartAt(text, s.at) == Some(s) && !IsComment(s.kind)
    ensures s.after <= SegmentOf(text, s).end && !IsComment(SegmentOf(text, s).kind)
  {
    hide RawOpening, StartsAt;
  }

  lemma CommentKinds(text: string, s: Start)
    requires s.at <= |text| && StartAt(text, s.at) == Some(s)
    ensures IsComment(SegmentOf(text, s).kind) <==> IsComment(s.kind)
  {
    hide RawOpening, StartsAt, StartAt;
  }

  /** A literal that is not blanked ends where it did. */
  lemma SegmentSame(text: string, out: string, s: Start)
    requires OnlyBlanks(text, out) && s.at <= |text|
    requires StartAt(text, s.at) == Some(s) && StartAt(out, s.at) == Some(s) && !IsComment(s.kind)
    requires Same(text, out, s.at, SegmentOf(text, s).end)
    ensures SegmentOf(out, s) == SegmentOf(text, s)
  {
    hide StartAt, StartsAt, Find, TextEnd, BlockEnd;
    if s.kind == RawString {
      var close := "\"" + Hashes(s.hashes);
      assert IsVisible(close);
      FindSame(text, out, s.after, close);
    } else if s.kind == Text {
      TextEndSame(text, out, s.after);
    } else if s.at + 1 < |text| && text[s.at + 1] == '\\' {
      FindSame(text, out, s.at + 3, "'");
    }
  }

  lemma {:induction false} SearchSkips(text: string, p: nat, q: nat)
    requires p <= q <= |text| && forall k :: p <= k < q ==> StartAt(text, k) == None
    ensures Search(text, p) == Search(text, q)
    decreases q - p
  {
    hide StartAt;
    if p < q {
      SearchSkips(text, p + 1, q);
    }
  }

  lemma BlankStartsNothing(text: string, p: nat)
    requires p < |text| && (text[p] == ' ' || text[p] == '\n')
    ensures StartAt(text, p) == None
  {
    hide StartsAt, RawOpening;
    TwoChars(text, p);
    if RawOpening(text, p).Some? {
      RawFirstChar(text, p);
    }
  }

  /** From `pos` on, `out` is `text` with the comments blanked. */
  ghost predicate CommentsBlanked(text: string, out: string, pos: nat)
    requires pos <= |text| == |out|
  {
    forall k :: pos <= k < |text| ==>
      out[k] == if Covers(Segments(text, pos), k, true) then Blank(text[k]) else text[k]
  }

  /** A raw string at `pos` is told apart the same way in both texts. */
  predicate SameBefore(text: string, out: string, pos: nat)
    requires pos <= |text| == |out|
  {
    pos == 0 || pos == |text| || text[pos] == '\n' || !IsWordChar(text[pos - 1]) || out[pos - 1] == text[pos - 1]
  }

  lemma GapStartsNothing(text: string, out: string, pos: nat, q: nat, to: nat)
    requires OnlyBlanks(text, out) && pos <= q < to <= |text|
    requires SameBefore(text, out, pos) && Same(text, out, pos, to)
    requires StartAt(text, q) == None
    ensures StartAt(out, q) == None
  {
    hide StartAt;
    if StartAt(out, q).Some? {
      if q == pos && text[q] == '\n' {
        BlankStartsNothing(out, q);
      } else {
        StartBefore(text, out, q);
      }
    }
  }

  lemma CommentEndsInSlash(text: string, j: nat, depth: nat)
    requires j <= |text| && depth > 0
    ensures var end := BlockEnd(text, j, depth); end == |text| || (end > 0 && text[end - 1] == '/')
    decreases |text| - j
  {
    hide StartsAt;
    if StartsAt(text, j, "/*") {
      TwoLong(text, j, "/*");
      CommentEndsInSlash(text, j + 2, depth + 1);
    } else if StartsAt(text, j, "*/") {
      TwoLong(text, j, "*/");
      if depth > 1 {
        CommentEndsInSlash(text, j + 2, depth - 1);
      }
    } else if j < |text| {
      CommentEndsInSlash(text, j + 1, depth);
    }
  }

  lemma TwoLong(text: string, j: nat, what: string)
    requires |what| == 2 && StartsAt(text, j, what)
    ensures j + 2 <= |text| && text[j] == what[0] && text[j + 1] == what[1]
  {
    assert text[j..j + 2][0] == text[j] && text[j..j + 2][1] == text[j + 1];
  }

  /** After a comment comes a line end, the end of the text or a slash's neighbour: no raw string is hidden or made. */
  lemma SameBeforeAfterComment(text: string, out: string, s: Start)
    requires |out| == |text| && s.at <= |text| && StartAt(text, s.at) == Some(s) && IsComment(s.kind)
    ensures SameBefore(text, out, SegmentOf(text, s).end)
  {
    hide StartAt, StartsAt, Find, BlockEnd;
    if s.kind.LineComment? {
      LineCommentSpan(text, s);
    } else {
      CommentEndsInSlash(text, s.after, 1);
    }
  }

  lemma CoversTail(seg: Segment, tail: seq<Segment>, k: nat)
    requires k >= seg.end
    ensures Covers([seg] + tail, k, true) <==> Covers(tail, k, true)
  {
    var all := [seg] + tail;
    if Covers(tail, k, true) {
      var i :| 0 <= i < |tail| && tail[i].start <= k < tail[i].end && IsComment(tail[i].kind);
      assert all[i + 1] == tail[i];
    }
    if Covers(all, k, true) {
      var i :| 0 <= i < |all| && all[i].start <= k < all[i].end && IsComment(all[i].kind);
      assert tail[i - 1] == all[i];
    }
  }

  /** What the first segment and the gap before it look like in the blanked text. */
  lemma FirstSegmentBlanked(text: string, out: string, pos: nat, s: Start)
    requires OnlyBlanks(text, out) && pos <= |text| && CommentsBlanked(text, out, pos) && Search(text, pos) == Some(s)
    ensures var seg := SegmentOf(text, s);
      && Same(text, out, pos, s.at)
      && (IsComment(seg.kind) ==> forall k :: s.at <= k < seg.end ==> out[k] == ' ' || out[k] == '\n')
      && (!IsComment(seg.kind) ==> Same(text, out, s.at, seg.end))
      && CommentsBlanked(text, out, seg.end)
  {
    hide Search, SegmentOf, StartAt, Segments;
    var seg := SegmentOf(text, s);
    var tail := Segments(text, seg.end);
    assert Segments(text, pos) == [seg] + tail by { OneSegment(text, pos, s); }
    SegmentsAreOrdered(text, seg.end);
    forall k | pos <= k < seg.end
      ensures Covers([seg] + tail, k, true) <==> seg.start <= k && IsComment(seg.kind)
    {
      assert ([seg] + tail)[0] == seg;
    }
    forall k | seg.end <= k < |text|
      ensures out[k] == if Covers(tail, k, true) then Blank(text[k]) else text[k]
    {
      CoversTail(seg, tail, k);
    }
  }

  lemma RescanNothing(text: string, out: string, pos: nat)
    requires OnlyBlanks(text, out) && pos <= |text| && CommentsBlanked(text, out, pos) && SameBefore(text, out, pos)
    requires Search(text, pos) == None
    ensures Segments(text, pos) == [] && Segments(out, pos) == []
  {
    hide StartAt, SameBefore;
    assert Same(text, out, pos, |text|);
    forall k | pos <= k < |text| ensures StartAt(out, k) == None {
      GapStartsNothing(text, out, pos, k, |text|);
    }
    SearchSkips(out, pos, |text|);
  }

  lemma GapIsSkipped(text: string, out: string, pos: nat, s: Start)
    requires OnlyBlanks(text, out) && pos <= |text| && SameBefore(text, out, pos)
    requires Search(text, pos) == Some(s) && Same(text, out, pos, s.at)
    ensures forall k :: pos <= k < s.at ==> StartAt(out, k) == None
  {
    hide StartAt, SameBefore, Same;
    forall k | pos <= k < s.at ensures StartAt(out, k) == None {
      GapStartsNothing(text, out, pos, k, s.at);
    }
  }

  lemma RescanComment(text: string, out: string, pos: nat, s: Start)
    requires OnlyBlanks(text, out) && pos <= |text| && SameBefore(text, out, pos)
    requires Search(text, pos) == Some(s) && Same(text, out, pos, s.at)
    requires forall k :: s.at <= k < SegmentOf(text, s).end ==> out[k] == ' ' || out[k] == '\n'
    ensures Segments(out, pos) == Segments(out, SegmentOf(text, s).end)
  {
    hide StartAt, SameBefore, Same, SegmentOf;
    var end := SegmentOf(text, s).end;
    GapIsSkipped(text, out, pos, s);
    forall k | pos <= k < end ensures StartAt(out, k) == None {
      if k >= s.at {
        BlankStartsNothing(out, k);
      }
    }
    SearchSkips(out, pos, end);
  }

  lemma RescanLiteral(text: string, out: string, pos: nat, s: Start)
    requires OnlyBlanks(text, out) && pos <= |text| && SameBefore(text, out, pos)
    requires Search(text, pos) == Some(s) && Same(text, out, pos, s.at)
    requires !IsComment(SegmentOf(text, s).kind) && Same(text, out, s.at, SegmentOf(text, s).end)
    ensures Segments(out, pos) == [SegmentOf(text, s)] + Segments(out, SegmentOf(text, s).end)
    ensures SameBefore(text, out, SegmentOf(text, s).end)
  {
    hide StartAt, SegmentOf;
    var end := SegmentOf(text, s).end;
    GapIsSkipped(text, out, pos, s);
    CommentKinds(text, s);
    OpeningWithin(text, s);
    StartStill(text, out, s.at);
    SearchSkips(out, pos, s.at);
    assert Search(out, s.at) == Some(s);
    SegmentSame(text, out, s);
  }

  lemma {:induction false} Rescan(text: string, out: string, pos: nat)
    requires OnlyBlanks(text, out) && pos <= |text| && CommentsBlanked(text, out, pos) && SameBefore(text, out, pos)
    ensures Segments(out, pos) == Literals(Segments(text, pos))
    decreases |text| - pos
  {
    hide SegmentOf, StartAt, CommentsBlanked, SameBefore, Same;
    match Search(text, pos)
    case None =>
      RescanNothing(text, out, pos);
    case Some(s) =>
      var seg := SegmentOf(text, s);
      FirstSegmentBlanked(text, out, pos, s);
      CommentKinds(text, s);
      if IsComment(seg.kind) {
        RescanComment(text, out, pos, s);
        SameBeforeAfterComment(text, out, s);
      } else {
        RescanLiteral(text, out, pos, s);
      }
      Rescan(text, out, seg.end);
      assert ([seg] + Segments(text, seg.end))[1..] == Segments(text, seg.end);
  }

  /**
   The text without its comments scans to the same literals and no comment: scanning
   it again changes nothing in either output.
   */
  lemma ScanningAgainChangesNothing(text: string, code: string, keep: string, comments: seq<(nat, nat)>,
                                    code': string, keep': string, comments': seq<(nat, nat)>)
    requires IsScan(text, code, keep, comments) && IsScan(keep, code', keep', comments')
    ensures keep' == keep && code' == code && comments' == []
  {
    hide Segments, Covers, LineComments;
    ScanKeepsOffsets(text, code, keep, comments);
    Rescan(text, keep, 0);
    var all, literals := Segments(text, 0), Segments(keep, 0);
    LiteralsHaveNoComments(all);
    NoCommentsNoSpans(literals);
    forall k | 0 <= k < |text| ensures keep'[k] == keep[k] && code'[k] == code[k] {
      LiteralsCover(all, k);
      CommentsOrLiterals(all, k);
    }
  }

  lemma {:induction false} LiteralsHaveNoComments(segments: seq<Segment>)
    ensures forall i :: 0 <= i < |Literals(segments)| ==> !IsComment(Literals(segments)[i].kind)
  {
    if segments != [] {
      LiteralsHaveNoComments(segments[1..]);
    }
  }

  lemma {:induction false} NoCommentsNoSpans(segments: seq<Segment>)
    requires forall i :: 0 <= i < |segments| ==> !IsComment(segments[i].kind)
    ensures LineComments(segments) == []
    ensures forall k :: !Covers(segments, k, true)
  {
    if segments != [] {
      NoCommentsNoSpans(segments[..|segments| - 1]);
    }
  }

  /** A position is in a literal of the literals exactly when it is in one of all segments. */
  ghost predicate InLiteral(segments: seq<Segment>, k: nat) {
    exists i :: 0 <= i < |segments| && segments[i].start <= k < segments[i].end
                && !IsComment(segments[i].kind) && !segments[i].kind.Lifetime?
  }

  lemma {:induction false} LiteralsCover(segments: seq<Segment>, k: nat)
    ensures Covers(Literals(segments), k, false) <==> InLiteral(segments, k)
  {
    if segments != [] {
      var head, tail := segments[0], segments[1..];
      LiteralsCover(tail, k);
      assert segments == [head] + tail;
      assert [] + Literals(tail) == Literals(tail);
      if !IsComment(head.kind) {
        CoversCons(head, Literals(tail), k);
      }
      InLiteralCons(head, tail, k);
    }
  }

  lemma CoversCons(head: Segment, tail: seq<Segment>, k: nat)
    ensures Covers([head] + tail, k, false) <==>
      (head.start <= k < head.end && !head.kind.Lifetime?) || Covers(tail, k, false)
  {
    var all := [head] + tail;
    assert all[0] == head;
    if Covers(tail, k, false) {
      var i :| 0 <= i < |tail| && tail[i].start <= k < tail[i].end && !tail[i].kind.Lifetime?;
      assert all[i + 1] == tail[i];
    }
    if Covers(all, k, false) {
      var i :| 0 <= i < |all| && all[i].start <= k < all[i].end && !all[i].kind.Lifetime?;
      assert i > 0 ==> tail[i - 1] == all[i];
    }
  }

  lemma InLiteralCons(head: Segment, tail: seq<Segment>, k: nat)
    ensures InLiteral([head] + tail, k) <==>
      (head.start <= k < head.end && !IsComment(head.kind) && !head.kind.Lifetime?) || InLiteral(tail, k)
  {
    var all := [head] + tail;
    assert all[0] == head;
    if InLiteral(tail, k) {
      var i :| 0 <= i < |tail| && tail[i].start <= k < tail[i].end && !IsComment(tail[i].kind) && !tail[i].kind.Lifetime?;
      assert all[i + 1] == tail[i];
    }
    if InLiteral(all, k) {
      var i :| 0 <= i < |all| && all[i].start <= k < all[i].end && !IsComment(all[i].kind) && !all[i].kind.Lifetime?;
      assert i > 0 ==> tail[i - 1] == all[i];
    }
  }

  lemma CommentsOrLiterals(segments: seq<Segment>, k: nat)
    ensures Covers(segments, k, false) <==> Covers(segments, k, true) || InLiteral(segments, k)
  {
    if Covers(segments, k, true) {
      CommentsAreCovered(segments, k);
    }
  }

  // ---- The pieces end where Rust ends them ----------------------------------------------------------

  /** A mark read from `start` on at `p`: an opening or closing one that does not begin inside the mark before. */
  predicate IsMark(text: string, start: nat, p: nat) {
    start <= p && (StartsAt(text, p, "/*") || StartsAt(text, p, "*/")) && (p == start || !IsMark(text, start, p - 1))
  }

  /** How many more comments the marks from `start` to `n` open than close. */
  function Opened(text: string, start: nat, n: nat): int {
    if n <= start then 0
    else
      Opened(text, start, n - 1)
      + if !IsMark(text, start, n - 1) then 0 else if StartsAt(text, n - 1, "/*") then 1 else -1
  }

  /**
   The comment opened just before `start` ends at `end`: with the mark that closes it,
   every comment opened inside it closed before, or with the text when there is no such mark.
   */
  ghost predicate IsCommentEnd(text: string, start: nat, end: nat) {
    && start <= end <= |text|
    && (forall n :: start <= n <= end - 2 ==> 1 + Opened(text, start, n) > 0)
    && (end == |text| || (end >= start + 2 && 1 + Opened(text, start, end - 1) == 0))
  }

  lemma {:induction false} BlockEndIsCommentEnd(text: string, start: nat, j: nat, depth: nat)
    requires start <= j <= |text| && depth > 0 && depth == 1 + Opened(text, start, j)
    requires j == start || !IsMark(text, start, j - 1)
    requires forall n :: start <= n <= j ==> 1 + Opened(text, start, n) > 0
    ensures IsCommentEnd(text, start, BlockEnd(text, j, depth))
    decreases |text| - j
  {
    hide StartsAt;
    if j < |text| {
      assert Opened(text, start, j + 1) == Opened(text, start, j)
        + if !IsMark(text, start, j) then 0 else if StartsAt(text, j, "/*") then 1 else -1;
      if StartsAt(text, j, "/*") {
        TwoLong(text, j, "/*");
        assert IsMark(text, start, j) && !IsMark(text, start, j + 1);
        BlockEndIsCommentEnd(text, start, j + 2, depth + 1);
      } else if StartsAt(text, j, "*/") {
        TwoLong(text, j, "*/");
        assert IsMark(text, start, j) && !IsMark(text, start, j + 1);
        if depth > 1 {
          BlockEndIsCommentEnd(text, start, j + 2, depth - 1);
        }
      } else {
        BlockEndIsCommentEnd(text, start, j + 1, depth);
      }
    } else {
      NoMarkAtEnd(text);
    }
  }

  /**
   A block comment is one segment, whatever it holds, and ends at the one place where
   its marks, read from left to right without overlap, balance for the first time, or
   with the text.
   */
  lemma {:induction false} CommentEndsWhereMarksBalance(text: string, p: nat, end: nat)
    requires StartsAt(text, p, "/*")
    ensures p <= |text| && StartAt(text, p).Some?
    ensures SegmentOf(text, StartAt(text, p).value) == Segment(p, end, BlockComment) <==> IsCommentEnd(text, p + 2, end)
  {
    hide BlockEnd, Opened, StartsAt;
    TwoLong(text, p, "/*");
    TwoChars(text, p);
    assert Opened(text, p + 2, p + 2) == 0 by {
      NothingOpened(text, p + 2);
    }
    BlockEndIsCommentEnd(text, p + 2, p + 2, 1);
  }

  lemma NothingOpened(text: string, start: nat)
    ensures Opened(text, start, start) == 0
  {
  }

  /** A string's contents: characters other than quote and backslash, and backslash pairs. */
  predicate IsTextBody(body: string) {
    body == ""
    || (body[0] != '"' && body[0] != '\\' && IsTextBody(body[1..]))
    || (body[0] == '\\' && |body| >= 2 && IsTextBody(body[2..]))
  }

  /** A string ends at its first quote that no backslash escapes. */
  lemma {:induction false} TextEndsAtItsQuote(before: string, body: string, rest: string)
    requires IsTextBody(body)
    ensures TextEnd(before + body + "\"" + rest, |before|) == |before| + |body| + 1
    decreases |body|
  {
    var text := before + body + "\"" + rest;
    if body != "" {
      var n := if body[0] == '\\' then 2 else 1;
      TextEndsAtItsQuote(before + body[..n], body[n..], rest);
      assert before + body[..n] + body[n..] + "\"" + rest == text;
      assert text[|before|] == body[0];
    } else {
      assert text[|before|] == '"';
    }
  }
}
