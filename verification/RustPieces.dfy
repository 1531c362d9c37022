/**
 Which pieces of Rust source are comments and literals, told from the characters alone,
 and that the scanner finds exactly these: each piece is what it begins as, ends where
 that ends, and nothing begins outside the pieces.
 */
module RustPieces {
  import opened Wrappers
  import opened RustScanner
  import opened RustRescan

  predicate At(text: string, p: nat, c: char) {
    p < |text| && text[p] == c
  }

  // ---- What begins at a place ----------------------------------------------------------------

  /** `h` hashes from `p` on, then a quote: the rest of a raw string's opening. */
  predicate HashesAndQuote(text: string, p: nat, h: nat) {
    (forall k :: p <= k < p + h ==> At(text, k, '#')) && At(text, p + h, '"')
  }

  /** An `r` at `q`, which may follow a `b`, and its hashes and quote, no part of a longer word. */
  predicate BeginsRaw(text: string, p: nat, q: nat, h: nat) {
    && At(text, q, 'r') && HashesAndQuote(text, q + 1, h)
    && (q == p || (q == p + 1 && At(text, p, 'b')))
    && (p == 0 || p > |text| || !IsWordChar(text[p - 1]))
  }

  ghost predicate Begins(text: string, p: nat) {
    || (At(text, p, '/') && (At(text, p + 1, '/') || At(text, p + 1, '*')))
    || At(text, p, '"') || At(text, p, '\'')
    || exists q: nat, h: nat :: BeginsRaw(text, p, q, h)
  }

  // ---- Where it ends ---------------------------------------------------------------------------

  /** The first `c` from `from` on, and one past it; the end of the text when there is none. */
  predicate IsPast(text: string, from: nat, c: char, end: nat) {
    || (end > from && At(text, end - 1, c) && forall k :: from <= k < end - 1 ==> !At(text, k, c))
    || (end == |text| && forall k :: from <= k < |text| ==> !At(text, k, c))
  }

  /** A backslash escapes the character at `k`, the contents beginning at `from`. */
  predicate IsEscaped(text: string, from: nat, k: nat) {
    k > from && At(text, k - 1, '\\') && !IsEscaped(text, from, k - 1)
  }

  predicate IsClosingQuote(text: string, from: nat, k: nat) {
    k >= from && At(text, k, '"') && !IsEscaped(text, from, k)
  }

  /** One past the first quote that no backslash escapes. */
  ghost predicate IsTextEnd(text: string, from: nat, end: nat) {
    || (end > from && IsClosingQuote(text, from, end - 1) && forall k :: from <= k < end - 1 ==> !IsClosingQuote(text, from, k))
    || (end == |text| && forall k :: from <= k < |text| ==> !IsClosingQuote(text, from, k))
  }

  /** A quote at `k` and `h` hashes behind it. */
  predicate ClosesRaw(text: string, k: nat, h: nat) {
    At(text, k, '"') && forall j :: k < j <= k + h ==> At(text, j, '#')
  }

  /** One past the first quote with as many hashes behind it as the opening has. */
  ghost predicate IsRawEnd(text: string, from: nat, h: nat, end: nat) {
    || (end >= from + 1 + h && ClosesRaw(text, end - 1 - h, h) && forall k :: from <= k < end - 1 - h ==> !ClosesRaw(text, k, h))
    || (end == |text| && forall k :: from <= k < |text| ==> !ClosesRaw(text, k, h))
  }

  ghost predicate IsPiece(text: string, seg: Segment) {
    var p, end := seg.start, seg.end;
    match seg.kind
    case LineComment =>
      && At(text, p, '/') && At(text, p + 1, '/') && p < end <= |text|
      && (end == |text| || text[end] == '\n') && forall k :: p <= k < end ==> text[k] != '\n'
    case BlockComment => At(text, p, '/') && At(text, p + 1, '*') && IsCommentEnd(text, p + 2, end)
    case RawString => exists q: nat, h: nat :: BeginsRaw(text, p, q, h) && IsRawEnd(text, q + h + 2, h, end)
    case Text => At(text, p, '"') && IsTextEnd(text, p + 1, end)
    case CharLiteral =>
      && At(text, p, '\'')
      && if At(text, p + 1, '\\') then IsPast(text, p + 3, '\'', end) else At(text, p + 2, '\'') && end == p + 3
    case Lifetime => At(text, p, '\'') && !At(text, p + 1, '\\') && !At(text, p + 2, '\'') && end == p + 1
  }

  // ---- The scanner's view --------------------------------------------------------------------------

  lemma {:induction false} FindFirst(text: string, from: nat, c: char)
    ensures var r := Find(text, from, [c]);
      && (r < |text| ==> from <= r && text[r] == c) && r <= |text|
      && forall k :: from <= k < r ==> !At(text, k, c)
  {
    forall k | 0 <= k < |text|
      ensures StartsAt(text, k, [c]) <==> text[k] == c
    {
      assert text[k..k + 1] == [text[k]];
    }
  }

  lemma {:induction false} HashesFrom(text: string, p: nat, h: nat)
    requires p <= |text| && HashesAndQuote(text, p, h)
    ensures SkipHashes(text, p) == p + h
    decreases h
  {
    if h > 0 {
      assert At(text, p, '#');
      HashesFrom(text, p + 1, h - 1);
    }
  }

  lemma {:induction false} RawOpeningIff(text: string, p: nat)
    requires p <= |text|
    ensures RawOpening(text, p).Some? <==> exists q: nat, h: nat :: BeginsRaw(text, p, q, h)
    ensures RawOpening(text, p).Some? ==>
      var (after, h) := RawOpening(text, p).value;
      exists q: nat :: BeginsRaw(text, p, q, h) && after == q + h + 2
  {
    if RawOpening(text, p).Some? {
      var q := if text[p] == 'b' then p + 1 else p;
      var h := RawOpening(text, p).value.1;
      assert BeginsRaw(text, p, q, h);
    }
    if q: nat, h: nat :| BeginsRaw(text, p, q, h) {
      HashesFrom(text, q + 1, h);
    }
  }

  lemma {:induction false} StartsIff(text: string, p: nat)
    requires p <= |text|
    ensures StartAt(text, p).Some? <==> Begins(text, p)
  {
    hide RawOpening;
    TwoChars(text, p);
    RawOpeningIff(text, p);
  }

  lemma {:induction false} RawCloses(text: string, k: nat, h: nat)
    ensures StartsAt(text, k, "\"" + Hashes(h)) <==> ClosesRaw(text, k, h)
  {
    var close := "\"" + Hashes(h);
    if StartsAt(text, k, close) {
      assert forall j :: 0 <= j < |close| ==> text[k + j] == close[j];
      assert forall j :: k < j <= k + h ==> text[j] == close[j - k];
    }
    if ClosesRaw(text, k, h) {
      assert At(text, k + h, if h == 0 then '"' else '#');
      forall j | 0 <= j < |close| ensures text[k..k + |close|][j] == close[j] {
        assert j > 0 ==> At(text, k + j, '#');
      }
    }
  }

  lemma {:induction false} RawEnds(text: string, from: nat, h: nat)
    requires from <= |text|
    ensures var k := Find(text, from, "\"" + Hashes(h));
      IsRawEnd(text, from, h, if k < |text| then k + 1 + h else |text|)
  {
    hide StartsAt, ClosesRaw;
    forall k ensures StartsAt(text, k, "\"" + Hashes(h)) <==> ClosesRaw(text, k, h) {
      RawCloses(text, k, h);
    }
  }

  lemma {:induction false} TextEnds(text: string, from: nat, j: nat)
    requires from <= j <= |text| && !IsEscaped(text, from, j)
    requires forall k :: from <= k < j ==> !IsClosingQuote(text, from, k)
    ensures IsTextEnd(text, from, TextEnd(text, j))
    decreases |text| - j
  {
    if j < |text| && text[j] != '"' {
      if text[j] != '\\' {
        TextEnds(text, from, j + 1);
      } else if j + 1 < |text| {
        assert IsEscaped(text, from, j + 1);
        TextEnds(text, from, j + 2);
      }
    }
  }

  lemma {:induction false} SegmentIsAPiece(text: string, s: Start)
    requires s.at <= |text| && StartAt(text, s.at) == Some(s)
    ensures IsPiece(text, SegmentOf(text, s))
  {
    hide RawOpening, Find, BlockEnd, TextEnd, IsCommentEnd, IsTextEnd, IsRawEnd, BeginsRaw;
    TwoChars(text, s.at);
    RawOpeningIff(text, s.at);
    match s.kind
    case LineComment =>
      assert "\n" == ['\n'];
      FindFirst(text, s.at, '\n');
      forall k | s.at <= k < SegmentOf(text, s).end ensures text[k] != '\n' {
        assert !At(text, k, '\n');
      }
    case BlockComment =>
      CommentEndsWhereMarksBalance(text, s.at, SegmentOf(text, s).end);
    case RawString =>
      RawEnds(text, s.after, s.hashes);
    case Text =>
      TextEnds(text, s.at + 1, s.at + 1);
    case CharLiteral =>
      assert "'" == ['\''];
      FindFirst(text, s.at + 3, '\'');
    case Lifetime =>
  }

  lemma {:induction false} SegmentsAreAll(text: string, pos: nat)
    requires pos <= |text|
    ensures forall i :: 0 <= i < |Segments(text, pos)| ==> IsPiece(text, Segments(text, pos)[i])
    ensures forall k :: pos <= k < |text| && Begins(text, k) ==> InSome(Segments(text, pos), k)
    decreases |text| - pos
  {
    hide SegmentOf, IsPiece, Begins, Search, InSome;
    forall k | 0 <= k <= |text| ensures StartAt(text, k).Some? <==> Begins(text, k) {
      StartsIff(text, k);
    }
    var s := Search(text, pos);
    if s.Some? {
      var seg := SegmentOf(text, s.value);
      SegmentIsAPiece(text, s.value);
      SegmentsAreAll(text, seg.end);
      OneSegment(text, pos, s.value);
      forall k | pos <= k < |text| && Begins(text, k) ensures InSome(Segments(text, pos), k) {
        InSomeCons(seg, Segments(text, seg.end), k);
      }
    } else {
      NoSegment(text, pos);
    }
  }

  ghost predicate InSome(segments: seq<Segment>, k: nat) {
    exists i :: 0 <= i < |segments| && segments[i].start <= k < segments[i].end
  }

  lemma InSomeCons(head: Segment, tail: seq<Segment>, k: nat)
    ensures InSome([head] + tail, k) <==> head.start <= k < head.end || InSome(tail, k)
  {
    var all := [head] + tail;
    assert all[0] == head;
    if InSome(tail, k) {
      var i :| 0 <= i < |tail| && tail[i].start <= k < tail[i].end;
      assert all[i + 1] == tail[i];
    }
    if InSome(all, k) {
      var i :| 0 <= i < |all| && all[i].start <= k < all[i].end;
      assert i > 0 ==> tail[i - 1] == all[i];
    }
  }

  /**
   The scanner takes every text apart in one way: pieces in order and apart, each of them
   what its characters begin and end, and nothing that begins outside them.
   */
  lemma {:induction false} ScanFindsEveryPiece(text: string)
    ensures var pieces := Segments(text, 0);
      && Ordered(pieces, 0, |text|)
      && (forall i :: 0 <= i < |pieces| ==> IsPiece(text, pieces[i]))
      && forall k :: 0 <= k < |text| && Begins(text, k) ==> InSome(pieces, k)
  {
    SegmentsAreOrdered(text, 0);
    SegmentsAreAll(text, 0);
  }
}
