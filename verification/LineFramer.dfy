/**
 The chat client's stream: bytes arrive in chunks cut anywhere, and whole lines go to
 the event parser.

 One `char` below 256 stands for one byte; `parse` stands for the decoding of a line
 and `parse_sse_line`.
 */
module LineFramer {
  import opened Wrappers
  import Utf8

  /** What the network gives next. */
  datatype Chunk = Data(bytes: string) | Failed

  datatype Event = Done(message: string) | Other(text: string)

  // ---- Splitting at newlines --------------------------------------------------------------

  /** The position of the first newline, the length when there is none. */
  function FirstNewline(b: string): (p: nat)
    ensures p <= |b|
    ensures p < |b| ==> b[p] == '\n'
    ensures forall i :: 0 <= i < p ==> b[i] != '\n'
  {
    if b == "" || b[0] == '\n' then 0 else 1 + FirstNewline(b[1..])
  }

  /** The lines that end in a newline, without it. */
  function RawLines(b: string): seq<string> {
    var p := FirstNewline(b);
    if p == |b| then [] else [b[..p]] + RawLines(b[p + 1..])
  }

  /** What stands after the last newline. */
  function Rest(b: string): string {
    var p := FirstNewline(b);
    if p == |b| then b else Rest(b[p + 1..])
  }

  function WithoutCr(line: string): string {
    if line != "" && line[|line| - 1] == '\r' then line[..|line| - 1] else line
  }

  function WithoutCrs(lines: seq<string>): seq<string> {
    seq(|lines|, i requires 0 <= i < |lines| => WithoutCr(lines[i]))
  }

  function Terminated(b: string): seq<string> {
    WithoutCrs(RawLines(b))
  }

  /** The lines of a whole stream: the terminated ones, and what is left when it is not empty. */
  function StreamLines(b: string): seq<string> {
    Terminated(b) + if Rest(b) == "" then [] else [Rest(b)]
  }

  // ---- The splitting is the one there is ----------------------------------------------------

  function Ended(lines: seq<string>): string {
    if lines == [] then "" else lines[0] + "\n" + Ended(lines[1..])
  }

  predicate HasNewline(s: string) {
    exists i :: 0 <= i < |s| && s[i] == '\n'
  }

  lemma EndedCons(line: string, lines: seq<string>)
    ensures Ended([line] + lines) == line + "\n" + Ended(lines)
  {
    assert ([line] + lines)[1..] == lines;
  }

  /** Nothing is lost or added: the raw lines, each with its newline, and the rest make up the bytes. */
  lemma {:induction false} SplittingIsLossless(b: string)
    ensures Ended(RawLines(b)) + Rest(b) == b
    decreases |b|
  {
    hide Ended;
    var p := FirstNewline(b);
    if p == |b| {
      EndedNothing();
    } else {
      var tail := b[p + 1..];
      SplittingIsLossless(tail);
      EndedCons(b[..p], RawLines(tail));
      CutAtNewline(b, p, Ended(RawLines(tail)), Rest(tail));
    }
  }

  lemma EndedNothing()
    ensures Ended([]) == ""
  {
  }

  lemma CutAtNewline(b: string, p: nat, x: string, y: string)
    requires p < |b| && b[p] == '\n' && x + y == b[p + 1..]
    ensures b[..p] + "\n" + x + y == b
  {
  }

  lemma {:induction false} LinesHoldNoNewline(b: string)
    ensures !HasNewline(Rest(b)) && forall i :: 0 <= i < |RawLines(b)| ==> !HasNewline(RawLines(b)[i])
    decreases |b|
  {
    var p := FirstNewline(b);
    if p < |b| {
      LinesHoldNoNewline(b[p + 1..]);
    }
  }

  /** And no other lines and rest do. */
  lemma {:induction false} SplittingIsUnique(lines: seq<string>, rest: string)
    requires !HasNewline(rest) && forall i :: 0 <= i < |lines| ==> !HasNewline(lines[i])
    ensures RawLines(Ended(lines) + rest) == lines && Rest(Ended(lines) + rest) == rest
  {
    var b := Ended(lines) + rest;
    var p := FirstNewline(b);
    if lines == [] {
      assert b == rest;
    } else {
      var line := lines[0];
      assert b == line + "\n" + (Ended(lines[1..]) + rest);
      assert b[|line|] == '\n';
      assert forall i :: 0 <= i < |line| ==> b[i] == line[i];
      assert p == |line|;
      assert b[..p] == line && b[p + 1..] == Ended(lines[1..]) + rest;
      SplittingIsUnique(lines[1..], rest);
    }
  }

  lemma OneLineOff(b: string)
    ensures var p := FirstNewline(b);
      && (p == |b| ==> RawLines(b) == [] && Rest(b) == b)
      && (p < |b| ==> RawLines(b) == [b[..p]] + RawLines(b[p + 1..]) && Rest(b) == Rest(b[p + 1..]))
  {
    hide FirstNewline;
  }

  /** More bytes only continue the rest. */
  lemma {:induction false} MoreBytes(a: string, b: string)
    ensures RawLines(a + b) == RawLines(a) + RawLines(Rest(a) + b)
    ensures Rest(a + b) == Rest(Rest(a) + b)
    decreases |a|
  {
    hide RawLines, Rest, FirstNewline;
    var p := FirstNewline(a);
    OneLineOff(a);
    if p < |a| {
      var tail := a[p + 1..];
      MoreBytes(tail, b);
      NewlineStaysFirst(a, b);
      OneLineOff(a + b);
      assert (a + b)[..p] == a[..p] && (a + b)[p + 1..] == tail + b;
      assert [a[..p]] + (RawLines(tail) + RawLines(Rest(tail) + b)) == [a[..p]] + RawLines(tail) + RawLines(Rest(tail) + b);
    } else {
      assert [] + RawLines(a + b) == RawLines(a + b);
    }
  }

  lemma NewlineStaysFirst(a: string, b: string)
    requires FirstNewline(a) < |a|
    ensures FirstNewline(a + b) == FirstNewline(a)
  {
    var p, q := FirstNewline(a), FirstNewline(a + b);
    assert (a + b)[p] == '\n';
    if q < p {
      assert (a + b)[q] == a[q];
    }
  }

  lemma WithoutCrsConcat(xs: seq<string>, ys: seq<string>)
    ensures WithoutCrs(xs + ys) == WithoutCrs(xs) + WithoutCrs(ys)
  {
    hide WithoutCr;
  }

  lemma MoreTerminated(a: string, b: string)
    ensures Terminated(a + b) == Terminated(a) + Terminated(Rest(a) + b)
  {
    hide RawLines, Rest, WithoutCrs;
    MoreBytes(a, b);
    WithoutCrsConcat(RawLines(a), RawLines(Rest(a) + b));
  }

  lemma WithoutCrsCons(line: string, ys: seq<string>)
    ensures WithoutCrs([line] + ys) == [WithoutCr(line)] + WithoutCrs(ys)
  {
    hide WithoutCr;
  }

  /** One line off the front. */
  lemma DrainLine(b: string)
    requires FirstNewline(b) < |b|
    ensures var p := FirstNewline(b);
      && Terminated(b) == [WithoutCr(b[..p])] + Terminated(b[p + 1..])
      && Rest(b) == Rest(b[p + 1..])
  {
    hide RawLines, Rest, FirstNewline, WithoutCr, WithoutCrs;
    var p := FirstNewline(b);
    OneLineOff(b);
    WithoutCrsCons(b[..p], RawLines(b[p + 1..]));
  }

  // ---- The lines of a stream ------------------------------------------------------------------

  /** `line` handed on: without the one carriage return it may end in. */
  predicate IsLine(raw: string, line: string) {
    raw == line + "\r" || (raw == line && (line == "" || line[|line| - 1] != '\r'))
  }

  lemma WithoutCrIsLine(raw: string)
    ensures IsLine(raw, WithoutCr(raw))
  {
    var n := |raw|;
    if raw != "" && raw[n - 1] == '\r' {
      assert raw == raw[..n - 1] + "\r";
    }
  }

  lemma IsLineIsUnique(raw: string, line: string, line': string)
    requires IsLine(raw, line) && IsLine(raw, line')
    ensures line == line'
  {
    assert |line + "\r"| == |line| + 1 && (line + "\r")[..|line|] == line && (line + "\r")[|line|] == '\r';
    assert (line' + "\r")[..|line'|] == line' && (line' + "\r")[|line'|] == '\r';
  }

  /**
   A stream of lines, each ended by a newline, and a rest: each line is handed on without
   one carriage return at its end, if it has one there, and the rest as it is unless it
   is empty. (`SplittingIsLossless` takes every stream apart like this.)
   */
  lemma {:induction false} StreamLinesAre(lines: seq<string>, rest: string)
    requires !HasNewline(rest) && forall i :: 0 <= i < |lines| ==> !HasNewline(lines[i])
    ensures var all := StreamLines(Ended(lines) + rest);
      && |all| == |lines| + (if rest == "" then 0 else 1)
      && (forall i :: 0 <= i < |lines| ==> IsLine(lines[i], all[i]))
      && (rest != "" ==> all[|lines|] == rest)
  {
    hide RawLines, Rest, Ended, WithoutCr, IsLine, HasNewline;
    SplittingIsUnique(lines, rest);
    forall i | 0 <= i < |lines| ensures IsLine(lines[i], WithoutCr(lines[i])) {
      WithoutCrIsLine(lines[i]);
    }
  }

  // ---- Events ---------------------------------------------------------------------------------

  function Events(lines: seq<string>, parse: string -> Option<Event>): seq<Event> {
    if lines == [] then []
    else
      var event := parse(lines[|lines| - 1]);
      Events(lines[..|lines| - 1], parse) + (if event.Some? then [event.value] else [])
  }

  /** The message of the last `Done` event. */
  function LastDone(events: seq<Event>): Option<string> {
    if events == [] then None
    else
      var last := events[|events| - 1];
      if last.Done? then Some(last.message) else LastDone(events[..|events| - 1])
  }

  /** Each line is parsed once, in order. */
  lemma {:induction false} EventsConcat(a: seq<string>, b: seq<string>, parse: string -> Option<Event>)
    ensures Events(a + b, parse) == Events(a, parse) + Events(b, parse)
  {
    hide Events;
    if b == [] {
      assert a + b == a;
      NoEvents(parse);
    } else {
      var front, last := b[..|b| - 1], b[|b| - 1];
      EventsConcat(a, front, parse);
      OneEvent(a + front, last, parse);
      OneEvent(front, last, parse);
      assert a + b == a + front + [last] && b == front + [last];
    }
  }

  lemma NoEvents(parse: string -> Option<Event>)
    ensures Events([], parse) == []
  {
  }

  lemma OneEvent(lines: seq<string>, line: string, parse: string -> Option<Event>)
    ensures Events(lines + [line], parse) == Events(lines, parse) + if parse(line).Some? then [parse(line).value] else []
  {
    assert (lines + [line])[..|lines|] == lines;
  }

  lemma EventOfOneLine(line: string, parse: string -> Option<Event>)
    ensures Events([line], parse) == if parse(line).Some? then [parse(line).value] else []
  {
    OneEvent([], line, parse);
    NoEvents(parse);
    assert [] + [line] == [line];
  }

  /** The final message is that of the last `Done` event, and missing only when there is none. */
  lemma {:induction false} LastDoneIs(events: seq<Event>)
    ensures LastDone(events).None? <==> forall i :: 0 <= i < |events| ==> !events[i].Done?
    ensures LastDone(events).Some? ==>
      exists i :: 0 <= i < |events| && events[i] == Done(LastDone(events).value)
                  && forall j :: i < j < |events| ==> !events[j].Done?
  {
    if events != [] && !events[|events| - 1].Done? {
      var front := events[..|events| - 1];
      LastDoneIs(front);
      if LastDone(front).Some? {
        var i :| 0 <= i < |front| && front[i] == Done(LastDone(front).value) && forall j :: i < j < |front| ==> !front[j].Done?;
        assert events[i] == Done(LastDone(events).value);
        assert forall j :: i < j < |events| ==> !events[j].Done?;
      }
    }
  }

  /** One more line. */
  lemma NextLine(lines: seq<string>, line: string, parse: string -> Option<Event>)
    ensures var before, after := Events(lines, parse), Events(lines + [line], parse);
      && after == before + (if parse(line).Some? then [parse(line).value] else [])
      && LastDone(after) == if parse(line).Some? && parse(line).value.Done? then Some(parse(line).value.message)
                            else LastDone(before)
  {
    assert (lines + [line])[..|lines|] == lines;
    var before := Events(lines, parse);
    if parse(line).Some? {
      assert (before + [parse(line).value])[..|before|] == before;
    } else {
      assert before + [] == before;
    }
  }

  // ---- The loop ---------------------------------------------------------------------------------

  /** The bytes that arrive before the first failure. */
  function Received(chunks: seq<Chunk>): string {
    if chunks == [] || chunks[0].Failed? then "" else chunks[0].bytes + Received(chunks[1..])
  }

  /** All the bytes that came, in order, up to the first failure. */
  lemma {:induction false} ReceivedIsAll(before: seq<Chunk>, chunk: Chunk, after: seq<Chunk>)
    requires AllArrive(before)
    ensures Received(before + [chunk] + after)
         == Received(before) + if chunk.Failed? then "" else chunk.bytes + Received(after)
    ensures Received([]) == ""
  {
    var all := before + [chunk] + after;
    if before == [] {
      assert all == [chunk] + after && all[1..] == after;
    } else {
      assert all[1..] == before[1..] + [chunk] + after;
      ReceivedIsAll(before[1..], chunk, after);
    }
  }

  predicate AllArrive(chunks: seq<Chunk>) {
    forall i :: 0 <= i < |chunks| ==> chunks[i].Data?
  }

  lemma {:induction false} ReceivedPrefix(chunks: seq<Chunk>, i: nat)
    requires i < |chunks| && AllArrive(chunks[..i])
    ensures chunks[i].Failed? ==> Received(chunks) == Received(chunks[..i])
    ensures chunks[i].Data? ==> Received(chunks[..i + 1]) == Received(chunks[..i]) + chunks[i].bytes
  {
    if i == 0 {
      assert chunks[..1][1..] == [];
    } else {
      assert chunks[..i][0].Data?;
      var front := chunks[1..][..i - 1];
      forall k | 0 <= k < |front| ensures front[k].Data? {
        assert chunks[..i][k + 1].Data?;
      }
      ReceivedPrefix(chunks[1..], i - 1);
      assert chunks[..i][1..] == chunks[1..][..i - 1];
      assert chunks[..i + 1][1..] == chunks[1..][..i];
      if chunks[i].Data? {
        assert Received(chunks[..i + 1]) == chunks[0].bytes + (Received(chunks[..i][1..]) + chunks[i].bytes);
      }
    }
  }

  /**
   The events rendered, and the message of the last `Done` event once the stream ended.
   Both depend on the bytes alone, not on where the chunks were cut: whole lines up to a
   failure, all lines without one.
   */
  method StreamChat(chunks: seq<Chunk>, parse: string -> Option<Event>)
    returns (rendered: seq<Event>, finalMessage: Option<string>)
    ensures AllArrive(chunks) ==>
      rendered == Events(StreamLines(Received(chunks)), parse) && finalMessage == LastDone(rendered)
    ensures !AllArrive(chunks) ==>
      rendered == Events(Terminated(Received(chunks)), parse) && finalMessage == None
  {
    hide Terminated, Rest, Events, LastDone, Received, WithoutCr;
    NothingReceived(parse);
    var buffer := "";
    rendered, finalMessage := [], None;
    for n := 0 to |chunks|
      invariant AllArrive(chunks[..n])
      invariant buffer == Rest(Received(chunks[..n]))
      invariant rendered == Events(Terminated(Received(chunks[..n])), parse)
      invariant finalMessage == LastDone(rendered)
    {
      ReceivedPrefix(chunks, n);
      if chunks[n].Failed? {
        return rendered, None;
      }
      ghost var before, all := Received(chunks[..n]), Received(chunks[..n + 1]);
      MoreTerminated(before, chunks[n].bytes);
      MoreBytes(before, chunks[n].bytes);
      ghost var lines := Terminated(before);
      buffer := buffer + chunks[n].bytes;
      var pos := FirstNewline(buffer);
      while pos < |buffer|
        invariant pos == FirstNewline(buffer)
        invariant lines + Terminated(buffer) == Terminated(all) && Rest(buffer) == Rest(all)
        invariant rendered == Events(lines, parse) && finalMessage == LastDone(rendered)
        decreases |buffer|
      {
        DrainLine(buffer);
        var line := WithoutCr(buffer[..pos]);
        buffer := buffer[pos + 1..];
        NextLine(lines, line, parse);
        lines := lines + [line];
        var event := parse(line);
        if event.Some? {
          if event.value.Done? {
            finalMessage := Some(event.value.message);
          }
          rendered := rendered + [event.value];
        }
        pos := FirstNewline(buffer);
      }
      OnlyRestLeft(buffer);
      assert lines + [] == lines;
    }
    assert chunks[..|chunks|] == chunks;
    if buffer != "" {
      NextLine(Terminated(Received(chunks)), buffer, parse);
      var event := parse(buffer);
      if event.Some? {
        if event.value.Done? {
          finalMessage := Some(event.value.message);
        }
        rendered := rendered + [event.value];
      }
    }
    assert Terminated(Received(chunks)) + [] == Terminated(Received(chunks));
  }

  lemma NothingReceived(parse: string -> Option<Event>)
    ensures Received([]) == "" && Rest("") == "" && Terminated("") == []
    ensures Events([], parse) == [] && LastDone([]) == None
  {
  }

  // ---- No line cuts a character ---------------------------------------------------------------------

  lemma AfterNewline(s: string)
    requires Utf8.Valid(s) && s != "" && s[0] == '\n'
    ensures Utf8.Valid(s[1..])
  {
  }

  lemma LineIsUtf8(b: string)
    requires Utf8.Valid(b) && FirstNewline(b) < |b|
    ensures var p := FirstNewline(b);
      Utf8.Valid(b[..p]) && Utf8.Valid(WithoutCr(b[..p])) && Utf8.Valid(b[p + 1..])
  {
    hide Utf8.Valid;
    var p := FirstNewline(b);
    Utf8.CutAtBoundary(b, p);
    assert b[p..][0] == '\n' && b[p..][1..] == b[p + 1..];
    AfterNewline(b[p..]);
    if p > 0 && b[p - 1] == '\r' {
      Utf8.CutAtBoundary(b, p - 1);
      assert b[..p][..p - 1] == b[..p - 1];
    }
  }

  lemma {:induction false} TerminatedAreUtf8(b: string)
    requires Utf8.Valid(b)
    ensures Utf8.Valid(Rest(b)) && forall i :: 0 <= i < |Terminated(b)| ==> Utf8.Valid(Terminated(b)[i])
    decreases |b|
  {
    hide Utf8.Valid, Terminated, FirstNewline, WithoutCr;
    var p := FirstNewline(b);
    OnlyRestLeft(b);
    if p < |b| {
      LineIsUtf8(b);
      DrainLine(b);
      TerminatedAreUtf8(b[p + 1..]);
    }
  }

  lemma OnlyRestLeft(b: string)
    ensures FirstNewline(b) == |b| ==> Terminated(b) == [] && Rest(b) == b
  {
  }

  /** When the stream is UTF-8 every line is, however the chunks were cut: no line cuts a character. */
  lemma LinesAreUtf8(b: string)
    requires Utf8.Valid(b)
    ensures forall i :: 0 <= i < |StreamLines(b)| ==> Utf8.Valid(StreamLines(b)[i])
  {
    TerminatedAreUtf8(b);
  }
}
