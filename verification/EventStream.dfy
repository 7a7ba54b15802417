// Reading a server-sent event stream: the incremental line scanner of the mobile app
// (mobile/src/api/RealtimeContext.js), the frames the server writes
// (backend/internal/interfaces/http/handler/realtime_handler.go), and, as the reference
// the web app's EventSource follows, the event-stream interpreter of the HTML Living
// Standard, sections 9.2.5 and 9.2.6.
module EventStream {
  import opened Text
  import opened Sequences

  // ---------- JavaScript string operations ----------

  // White space and line terminators, ECMA-262 sections 12.2 and 12.3.
  predicate Space(c: char) {
    var u := c as int;
    9 <= u <= 13 || u == 0x20 || u == 0xA0 || u == 0x1680 || 0x2000 <= u <= 0x200A
    || u == 0x2028 || u == 0x2029 || u == 0x202F || u == 0x205F || u == 0x3000 || u == 0xFEFF
  }

  // Tab to carriage return, space, no-break space, byte order mark, the line and paragraph
  // separators and the other space separators of Unicode.
  lemma SpacesAre(c: char)
    ensures var listed :=
              {0x09, 0x0A, 0x0B, 0x0C, 0x0D, 0x20, 0xA0, 0xFEFF, 0x2028, 0x2029, 0x1680, 0x2000, 0x2001, 0x2002, 0x2003,
               0x2004, 0x2005, 0x2006, 0x2007, 0x2008, 0x2009, 0x200A, 0x202F, 0x205F, 0x3000};
            Space(c) <==> c as int in listed
  {
  }

  function TrimStart(s: string): string { if s != [] && Space(s[0]) then TrimStart(s[1..]) else s }

  function TrimEnd(s: string): string { if s != [] && Space(s[|s| - 1]) then TrimEnd(s[..|s| - 1]) else s }

  function Trim(s: string): string { TrimEnd(TrimStart(s)) }

  predicate Trimmed(s: string) { s == [] || (!Space(s[0]) && !Space(s[|s| - 1])) }

  predicate StartsWith(s: string, prefix: string) { prefix <= s }

  // ---------- What a text contains ----------

  // The complete lines of a text; what follows the last LF is not a line yet.
  function Lines(text: string): seq<string>
    decreases |text|
  {
    var i := IndexOfChar(text, '\n', 0);
    if i == -1 then [] else [text[..i]] + Lines(text[i + 1..])
  }

  // The position just past the last LF.
  function AfterLastLine(text: string): (n: nat)
    ensures n <= |text| && (n == 0 || text[n - 1] == '\n')
    decreases |text|
  {
    var i := IndexOfChar(text, '\n', 0);
    if i == -1 then 0 else i + 1 + AfterLastLine(text[i + 1..])
  }

  // The payload emitted for a line, if any.
  function Payload(line: string): seq<string> {
    if StartsWith(line, "data:") && Trim(line[5..]) != [] then [Trim(line[5..])] else []
  }

  function Payloads(lines: seq<string>): seq<string> {
    if lines == [] then [] else Payload(lines[0]) + Payloads(lines[1..])
  }

  lemma {:induction false} PayloadsConcat(a: seq<string>, b: seq<string>)
    ensures Payloads(a + b) == Payloads(a) + Payloads(b)
  {
    if a == [] {
      assert a + b == b;
    } else {
      hide Payloads, Payload;
      PayloadsConcat(a[1..], b);
      SplitHead(a, b);
      PayloadsOfFirst(a[0], a[1..] + b);
      PayloadsOfFirst(a[0], a[1..]);
      Associate(Payload(a[0]), Payloads(a[1..]), Payloads(b));
    }
  }

  lemma NoPayloads()
    ensures Payloads([]) == []
  {
  }

  lemma PayloadsOfFirst(line: string, rest: seq<string>)
    ensures Payloads([line] + rest) == Payload(line) + Payloads(rest)
  {
    assert ([line] + rest)[1..] == rest;
  }

  // ---------- The scanner ----------

  // One readystatechange event: the ready state and the response text so far.
  datatype Event = Event(readyState: int, text: string)

  datatype Progress = Progress(offset: nat, emitted: seq<string>)

  function Unread(text: string, offset: nat): string { if offset <= |text| then text[offset..] else [] }

  function Step(p: Progress, e: Event): Progress {
    if e.readyState < 3 then p
    else
      var unread := Unread(e.text, p.offset);
      Progress(p.offset + AfterLastLine(unread), p.emitted + Payloads(Lines(unread)))
  }

  function Deliver(p: Progress, events: seq<Event>): Progress {
    if events == [] then p else Step(Deliver(p, events[..|events| - 1]), events[|events| - 1])
  }

  ghost predicate FirstBreak(text: string, i: nat) {
    i < |text| && text[i] == '\n' && forall k :: 0 <= k < i ==> text[k] != '\n'
  }

  lemma FirstLine(text: string, i: nat)
    requires FirstBreak(text, i)
    ensures Lines(text) == [text[..i]] + Lines(text[i + 1..])
    ensures AfterLastLine(text) == i + 1 + AfterLastLine(text[i + 1..])
  {
    assert IndexOfChar(text, '\n', 0) == i;
  }

  lemma LinesAt(text: string, offset: nat)
    requires IndexOfChar(text, '\n', offset) != -1
    ensures var i := IndexOfChar(text, '\n', offset);
            && Lines(text[offset..]) == [text[offset..i]] + Lines(text[i + 1..])
            && offset + AfterLastLine(text[offset..]) == i + 1 + AfterLastLine(text[i + 1..])
  {
    hide Lines, AfterLastLine, IndexOfChar;
    var i := IndexOfChar(text, '\n', offset);
    var unread := text[offset..];
    forall k | 0 <= k < i - offset ensures unread[k] != '\n' {
      assert unread[k] == text[offset + k];
    }
    FirstLine(unread, i - offset);
    SliceAt(text, offset, i);
  }

  lemma NoMoreLines(text: string, offset: nat)
    requires IndexOfChar(text, '\n', offset) == -1
    ensures Lines(Unread(text, offset)) == [] && AfterLastLine(Unread(text, offset)) == 0
  {
    var unread := Unread(text, offset);
    forall k | 0 <= k < |unread| ensures unread[k] != '\n' {
      assert unread[k] == text[offset + k];
    }
  }

  lemma ScanStep(text: string, offset: nat, emitted: seq<string>)
    requires IndexOfChar(text, '\n', offset) != -1
    ensures var i := IndexOfChar(text, '\n', offset);
            && offset + AfterLastLine(Unread(text, offset)) == i + 1 + AfterLastLine(Unread(text, i + 1))
            && emitted + Payloads(Lines(Unread(text, offset)))
            == emitted + Payload(text[offset..i]) + Payloads(Lines(Unread(text, i + 1)))
  {
    hide Lines, AfterLastLine, Payload, Payloads;
    LinesAt(text, offset);
    PayloadsOfFirst(text[offset..IndexOfChar(text, '\n', offset)], Lines(text[IndexOfChar(text, '\n', offset) + 1..]));
  }

  // The reader of one request. `emitted` records the payloads passed to emit, in order.
  class Reader {
    var offset: nat
    var emitted: seq<string>

    constructor ()
      ensures State() == Progress(0, [])
    {
      offset := 0;
      emitted := [];
    }

    ghost function State(): Progress
      reads this
    {
      Progress(offset, emitted)
    }

    method OnReadyStateChange(readyState: int, responseText: string)
      modifies this
      ensures State() == Step(old(State()), Event(readyState, responseText))
    {
      hide Lines, AfterLastLine, Trim, Payloads, Unread, IndexOfChar;
      if readyState < 3 { return; }
      NoPayloads();
      var text := responseText;
      var idx := IndexOfChar(text, '\n', offset);
      while idx != -1
        invariant idx == IndexOfChar(text, '\n', offset)
        invariant offset + AfterLastLine(Unread(text, offset)) == old(offset) + AfterLastLine(Unread(text, old(offset)))
        invariant emitted + Payloads(Lines(Unread(text, offset)))
               == old(emitted) + Payloads(Lines(Unread(text, old(offset))))
        decreases |text| - offset, idx
      {
        ScanStep(text, offset, emitted);
        var line := text[offset..idx];
        offset := idx + 1;
        if StartsWith(line, "data:") {
          var data := Trim(line[5..]);
          if data != [] { emitted := emitted + [data]; }
        }
        idx := IndexOfChar(text, '\n', offset);
      }
      NoMoreLines(text, offset);
    }
  }

  // ---------- Chunking does not matter ----------

  // The response text after some events.
  function Received(events: seq<Event>): string {
    if events == [] then []
    else if events[|events| - 1].readyState < 3 then Received(events[..|events| - 1])
    else events[|events| - 1].text
  }

  // From the first body event on, every response text extends the one before it.
  ghost predicate Growing(events: seq<Event>) {
    events != [] ==>
      && Growing(events[..|events| - 1])
      && Received(events[..|events| - 1]) <= Received(events)
  }

  lemma {:induction false} LinesOfPrefix(a: string, text: string)
    requires a <= text
    ensures var n := AfterLastLine(a);
            && Lines(text) == Lines(a) + Lines(text[n..])
            && AfterLastLine(text) == n + AfterLastLine(text[n..])
    decreases |a|
  {
    hide Lines, AfterLastLine, IndexOfChar;
    var i := IndexOfChar(a, '\n', 0);
    if i == -1 {
      assert Unread(a, 0) == a && text[0..] == text;
      NoMoreLines(a, 0);
    } else {
      SameFirstLine(a, text, i);
      LinesOfPrefix(a[i + 1..], text[i + 1..]);
      LinesAfterFirst(a, text, i);
    }
  }

  lemma SameFirstLine(a: string, text: string, i: nat)
    requires FirstBreak(a, i) && a <= text
    ensures FirstBreak(text, i) && a[..i] == text[..i] && a[i + 1..] <= text[i + 1..]
  {
    assert forall k :: 0 <= k <= i ==> text[k] == a[k];
  }

  lemma LinesAfterFirst(a: string, text: string, i: nat)
    requires FirstBreak(a, i) && FirstBreak(text, i) && a[..i] == text[..i]
    requires var rest, n := text[i + 1..], AfterLastLine(a[i + 1..]);
             && n <= |rest| && Lines(rest) == Lines(a[i + 1..]) + Lines(rest[n..])
             && AfterLastLine(rest) == n + AfterLastLine(rest[n..])
    ensures var n := AfterLastLine(a);
            && n <= |text| && Lines(text) == Lines(a) + Lines(text[n..])
            && AfterLastLine(text) == n + AfterLastLine(text[n..])
  {
    hide Lines, AfterLastLine, FirstBreak;
    FirstLine(a, i);
    FirstLine(text, i);
    TailOfTail(text, i + 1, AfterLastLine(a[i + 1..]));
    Associate([a[..i]], Lines(a[i + 1..]), Lines(text[i + 1 + AfterLastLine(a[i + 1..])..]));
  }

  lemma TailOfTail(text: string, i: nat, n: nat)
    requires i <= |text| && n <= |text| - i
    ensures text[i..][n..] == text[i + n..]
  {
  }

  // However the network cuts the response into chunks, what has been emitted is exactly
  // the payloads of the complete lines received so far, in order and each once, and the
  // scan offset is 0 or just past a line break.
  lemma {:induction false} ChunkingIsInvisible(events: seq<Event>)
    requires Growing(events)
    ensures Deliver(Progress(0, []), events)
         == Progress(AfterLastLine(Received(events)), Payloads(Lines(Received(events))))
    decreases |events|
  {
    hide Lines, AfterLastLine, Payloads;
    if events == [] {
      NoMoreLines("", 0);
      assert Payloads([]) == [] by { NoPayloads(); }
    } else {
      var init, last := events[..|events| - 1], events[|events| - 1];
      ChunkingIsInvisible(init);
      if last.readyState >= 3 {
        var before, text := Received(init), last.text;
        var n := AfterLastLine(before);
        LinesOfPrefix(before, text);
        AfterLastLineBound(before);
        PayloadsConcat(Lines(before), Lines(text[n..]));
      }
    }
  }

  lemma AfterLastLineBound(text: string)
    ensures AfterLastLine(text) <= |text|
  {
  }

  // The readystatechange that abort() fires carries an empty text: it emits nothing.
  lemma AbortEmitsNothing(p: Progress)
    ensures Step(p, Event(4, "")) == p
  {
    NoMoreLines("", p.offset);
  }

  // ---------- Frames ----------

  // What a server may write: comment lines, blank lines, and messages of data lines.
  datatype Frame = Comment(text: string) | Blank | Message(data: seq<string>)

  function DataLines(data: seq<string>): seq<string> {
    if data == [] then [] else ["data: " + data[0]] + DataLines(data[1..])
  }

  function FrameLines(f: Frame): seq<string> {
    match f
    case Comment(text) => [":" + text]
    case Blank => [""]
    case Message(data) => DataLines(data) + [""]
  }

  function StreamLines(frames: seq<Frame>): seq<string> {
    if frames == [] then [] else FrameLines(frames[0]) + StreamLines(frames[1..])
  }

  function Unlines(lines: seq<string>): string {
    if lines == [] then [] else lines[0] + "\n" + Unlines(lines[1..])
  }

  function Encode(frames: seq<Frame>): string { Unlines(StreamLines(frames)) }

  // The frames the handler writes: ": connected" and ": ping" comments and one-line messages.
  function ServerMessage(payload: string): seq<Frame> { [Message([payload])] }

  const PING: seq<Frame> := [Comment(" ping"), Blank]

  lemma UnlinesTwo(line: string)
    ensures Unlines([line, ""]) == line + "\n\n"
  {
    var last: seq<string> := [""];
    assert last[1..] == [] && Unlines(last[1..]) == "";
    assert Unlines(last) == "\n";
    var both := [line, ""];
    assert both[1..] == last;
    assert Unlines(both) == line + "\n" + Unlines(last);
  }

  lemma OneFrame(f: Frame)
    ensures StreamLines([f]) == FrameLines(f)
  {
    assert [f][1..] == [] && StreamLines([]) == [];
    assert FrameLines(f) + [] == FrameLines(f);
  }

  lemma MessageLines(payload: string)
    ensures FrameLines(Message([payload])) == ["data: " + payload, ""]
  {
    var data := [payload];
    assert data[1..] == [] && DataLines([]) == [];
    assert DataLines(data) == ["data: " + payload];
  }

  lemma PingLines()
    ensures StreamLines(PING) == [": ping", ""]
  {
    assert PING[1..] == [Blank];
    OneFrame(Blank);
    assert ":" + " ping" == ": ping";
    assert FrameLines(PING[0]) == [": ping"];
    assert StreamLines(PING) == FrameLines(PING[0]) + [""];
  }

  lemma ServerWrites(payload: string)
    ensures Encode(ServerMessage(payload)) == "data: " + payload + "\n\n"
    ensures Encode(PING) == ": ping\n\n"
  {
    hide StreamLines, FrameLines, Unlines;
    OneFrame(Message([payload]));
    MessageLines(payload);
    UnlinesTwo("data: " + payload);
    PingLines();
    UnlinesTwo(": ping");
    assert ": ping" + "\n\n" == ": ping\n\n";
  }

  predicate GoodPayload(p: string) { p != [] && Trimmed(p) && Avoids(p, '\n') }

  predicate GoodFrame(f: Frame) {
    match f
    case Comment(text) => Avoids(text, '\n')
    case Blank => true
    case Message(data) => data != [] && forall i :: 0 <= i < |data| ==> GoodPayload(data[i])
  }

  predicate GoodFrames(frames: seq<Frame>) { forall i :: 0 <= i < |frames| ==> GoodFrame(frames[i]) }

  // All data lines of the messages, in order.
  function Sent(frames: seq<Frame>): seq<string> {
    if frames == [] then []
    else (if frames[0].Message? then frames[0].data else []) + Sent(frames[1..])
  }

  lemma {:induction false} LinesOfUnlines(lines: seq<string>)
    requires forall i :: 0 <= i < |lines| ==> Avoids(lines[i], '\n')
    ensures Lines(Unlines(lines)) == lines
  {
    hide Lines, AfterLastLine;
    if lines == [] {
      NoMoreLines("", 0);
    } else {
      var text := Unlines(lines);
      var n := |lines[0]|;
      assert Avoids(lines[0], '\n');
      assert forall k :: 0 <= k < n ==> text[k] == lines[0][k];
      FirstLine(text, n);
      assert text[..n] == lines[0] && text[n + 1..] == Unlines(lines[1..]);
      LinesOfUnlines(lines[1..]);
    }
  }

  lemma TrimAfterSpace(p: string)
    requires GoodPayload(p)
    ensures Payload("data: " + p) == [p]
  {
    var line := "data: " + p;
    assert line[..5] == "data:";
    assert line[5..] == " " + p;
    assert (" " + p)[1..] == p;
    assert TrimStart(" " + p) == TrimStart(p) == p;
  }

  lemma {:induction false} PayloadsOfData(data: seq<string>)
    requires forall i :: 0 <= i < |data| ==> GoodPayload(data[i])
    ensures Payloads(DataLines(data)) == data
  {
    if data != [] {
      TrimAfterSpace(data[0]);
      PayloadsOfData(data[1..]);
      assert DataLines(data)[1..] == DataLines(data[1..]);
    }
  }

  lemma {:induction false} DataLinesAvoid(data: seq<string>, c: char)
    requires Avoids("data: ", c) && forall i :: 0 <= i < |data| ==> Avoids(data[i], c)
    ensures forall i :: 0 <= i < |DataLines(data)| ==> Avoids(DataLines(data)[i], c)
  {
    if data != [] { DataLinesAvoid(data[1..], c); }
  }

  predicate FrameAvoids(f: Frame, c: char) {
    match f
    case Comment(text) => Avoids(text, c)
    case Blank => true
    case Message(data) => forall i :: 0 <= i < |data| ==> Avoids(data[i], c)
  }

  lemma {:induction false} StreamLinesAvoid(frames: seq<Frame>, c: char)
    requires c == '\n' || c == '\r'
    requires forall i :: 0 <= i < |frames| ==> FrameAvoids(frames[i], c)
    ensures forall i :: 0 <= i < |StreamLines(frames)| ==> Avoids(StreamLines(frames)[i], c)
  {
    if frames != [] {
      StreamLinesAvoid(frames[1..], c);
      if frames[0].Message? { DataLinesAvoid(frames[0].data, c); }
      assert forall i :: 0 <= i < |FrameLines(frames[0])| ==> Avoids(FrameLines(frames[0])[i], c);
    }
  }

  lemma {:induction false} PayloadsOfFrames(frames: seq<Frame>)
    requires GoodFrames(frames)
    ensures Payloads(StreamLines(frames)) == Sent(frames)
  {
    hide Payload, Payloads, FrameLines, GoodFrame;
    if frames == [] {
      NoPayloads();
    } else {
      assert GoodFrame(frames[0]);
      PayloadsOfFrames(frames[1..]);
      PayloadsConcat(FrameLines(frames[0]), StreamLines(frames[1..]));
      PayloadsOfFrame(frames[0]);
    }
  }

  lemma PayloadsOfFrame(f: Frame)
    requires GoodFrame(f)
    ensures Payloads(FrameLines(f)) == if f.Message? then f.data else []
  {
    hide Payloads;
    NoPayloads();
    match f
    case Comment(text) =>
      var line := ":" + text;
      assert line[0] != "data:"[0];
      PayloadsOfFirst(line, []);
      assert [line] + [] == [line];
    case Blank =>
      PayloadsOfFirst("", []);
      assert [""] + [] == [""];
    case Message(data) =>
      PayloadsOfData(data);
      PayloadsOfFirst("", []);
      assert [""] + [] == [""];
      PayloadsConcat(DataLines(data), [""]);
  }

  // Framing messages, with comments and blank lines anywhere between them, and reading
  // the stream in any chunks returns the payloads.
  lemma FramingRoundTrip(frames: seq<Frame>, events: seq<Event>)
    requires GoodFrames(frames) && Growing(events) && Received(events) == Encode(frames)
    ensures Deliver(Progress(0, []), events).emitted == Sent(frames)
  {
    ChunkingIsInvisible(events);
    forall i | 0 <= i < |frames| ensures FrameAvoids(frames[i], '\n') {
      assert GoodFrame(frames[i]);
      if frames[i].Message? {
        forall j | 0 <= j < |frames[i].data| ensures Avoids(frames[i].data[j], '\n') {
          assert GoodPayload(frames[i].data[j]);
        }
      }
    }
    StreamLinesAvoid(frames, '\n');
    LinesOfUnlines(StreamLines(frames));
    PayloadsOfFrames(frames);
  }

  // ---------- The event-stream interpreter ----------

  // Lines end at CR LF, LF or CR; a trailing unfinished line can dispatch nothing.
  function EventLines(text: string): seq<string>
    decreases |text|
  {
    var i := LineEnd(text);
    if i == |text| then []
    else if text[i] == '\r' && i + 1 < |text| && text[i + 1] == '\n' then [text[..i]] + EventLines(text[i + 2..])
    else [text[..i]] + EventLines(text[i + 1..])
  }

  function LineEnd(text: string): (i: nat)
    ensures i <= |text| && (i < |text| ==> text[i] == '\n' || text[i] == '\r')
    ensures forall k :: 0 <= k < i ==> text[k] != '\n' && text[k] != '\r'
  {
    if text == [] || text[0] == '\n' || text[0] == '\r' then 0 else 1 + LineEnd(text[1..])
  }

  function StripBom(text: string): string {
    if text != [] && text[0] as int == 0xFEFF then text[1..] else text
  }

  // The buffers of section 9.2.6 and the messages dispatched so far, as (type, data).
  datatype Buffers = Buffers(data: string, eventType: string, dispatched: seq<(string, string)>)

  function Dispatch(b: Buffers): Buffers {
    if b.data == [] then Buffers([], [], b.dispatched)
    else
      var data := if b.data[|b.data| - 1] == '\n' then b.data[..|b.data| - 1] else b.data;
      var eventType := if b.eventType == [] then "message" else b.eventType;
      Buffers([], [], b.dispatched + [(eventType, data)])
  }

  // The id and retry fields do not affect the messages' types and data.
  function ProcessField(b: Buffers, field: string, value: string): Buffers {
    if field == "event" then b.(eventType := value)
    else if field == "data" then b.(data := b.data + value + "\n")
    else b
  }

  function ProcessLine(b: Buffers, line: string): Buffers {
    if line == [] then Dispatch(b)
    else
      var colon := IndexOfChar(line, ':', 0);
      if colon == 0 then b
      else if colon == -1 then ProcessField(b, line, [])
      else
        var value := line[colon + 1..];
        ProcessField(b, line[..colon], if value != [] && value[0] == ' ' then value[1..] else value)
  }

  function ProcessLines(b: Buffers, lines: seq<string>): Buffers
    decreases |lines|
  {
    if lines == [] then b
    else ProcessLines(ProcessLine(b, lines[0]), lines[1..])
  }

  // What EventSource hands to onmessage: the data of the events of type "message".
  function OnMessage(events: seq<(string, string)>): seq<string> {
    if events == [] then []
    else (if events[0].0 == "message" then [events[0].1] else []) + OnMessage(events[1..])
  }

  function Interpret(text: string): seq<string> {
    OnMessage(ProcessLines(Buffers([], [], []), EventLines(StripBom(text))).dispatched)
  }

  // The messages the standard's interpreter dispatches: one per frame, lines joined by LF.
  function Joined(frames: seq<Frame>): seq<string>
    requires GoodFrames(frames)
  {
    if frames == [] then []
    else
      assert GoodFrame(frames[0]);
      (if frames[0].Message? then [Join(frames[0].data, "\n")] else []) + Joined(frames[1..])
  }

  predicate CRFree(frames: seq<Frame>) {
    forall i :: 0 <= i < |frames| ==> FrameAvoids(frames[i], '\r')
  }

  predicate OneLineMessages(frames: seq<Frame>) {
    forall i :: 0 <= i < |frames| && frames[i].Message? ==> |frames[i].data| == 1
  }

  lemma NoEventLines()
    ensures EventLines("") == []
  {
  }

  lemma FirstEventLine(text: string, i: nat)
    requires i < |text| && text[i] == '\n' && forall k :: 0 <= k < i ==> text[k] != '\n' && text[k] != '\r'
    ensures EventLines(text) == [text[..i]] + EventLines(text[i + 1..])
  {
    assert LineEnd(text) == i;
  }

  lemma {:induction false} EventLinesOfUnlines(lines: seq<string>)
    requires forall i :: 0 <= i < |lines| ==> Avoids(lines[i], '\n') && Avoids(lines[i], '\r')
    ensures EventLines(Unlines(lines)) == lines
  {
    hide EventLines;
    NoEventLines();
    if lines != [] {
      var text := Unlines(lines);
      var n := |lines[0]|;
      assert Avoids(lines[0], '\n') && Avoids(lines[0], '\r');
      assert forall k :: 0 <= k < n ==> text[k] == lines[0][k];
      FirstEventLine(text, n);
      assert text[..n] == lines[0] && text[n + 1..] == Unlines(lines[1..]);
      EventLinesOfUnlines(lines[1..]);
    }
  }

  lemma {:induction false} ProcessConcat(b: Buffers, x: seq<string>, y: seq<string>)
    ensures ProcessLines(b, x + y) == ProcessLines(ProcessLines(b, x), y)
    decreases |x|
  {
    if x == [] {
      assert x + y == y;
    } else {
      assert (x + y)[1..] == x[1..] + y;
      ProcessConcat(ProcessLine(b, x[0]), x[1..], y);
    }
  }

  lemma ProcessDataLine(b: Buffers, p: string)
    ensures ProcessLine(b, "data: " + p) == b.(data := b.data + p + "\n")
  {
    var line := "data: " + p;
    assert line[4] == ':';
    assert forall k :: 0 <= k < 4 ==> line[k] == "data"[k];
    assert IndexOfChar(line, ':', 0) == 4;
    assert line[..4] == "data" && line[5..] == " " + p && (" " + p)[1..] == p;
  }

  lemma JoinStep(before: string, data: seq<string>)
    requires |data| > 1
    ensures before + data[0] + "\n" + Join(data[1..], "\n") + "\n" == before + Join(data, "\n") + "\n"
  {
  }

  lemma {:induction false} ProcessData(b: Buffers, data: seq<string>)
    requires data != [] && forall i :: 0 <= i < |data| ==> GoodPayload(data[i])
    ensures ProcessLines(b, DataLines(data)) == b.(data := b.data + Join(data, "\n") + "\n")
    decreases |data|
  {
    hide ProcessLine;
    var next := b.(data := b.data + data[0] + "\n");
    ProcessDataLine(b, data[0]);
    assert DataLines(data)[1..] == DataLines(data[1..]);
    if |data| == 1 {
      assert DataLines(data[1..]) == [];
    } else {
      ProcessData(next, data[1..]);
      JoinStep(b.data, data);
    }
  }

  lemma ProcessOne(b: Buffers, line: string)
    ensures ProcessLines(b, [line]) == ProcessLine(b, line)
  {
    assert [line][1..] == [];
  }

  lemma IgnoredLines(events: seq<(string, string)>, text: string)
    ensures ProcessLine(Buffers([], [], events), ":" + text) == Buffers([], [], events)
    ensures ProcessLine(Buffers([], [], events), "") == Buffers([], [], events)
  {
    assert IndexOfChar(":" + text, ':', 0) == 0;
  }

  lemma BlankDispatches(events: seq<(string, string)>, data: string)
    ensures ProcessLine(Buffers(data + "\n", [], events), "") == Buffers([], [], events + [("message", data)])
  {
    assert (data + "\n")[..|data|] == data;
  }

  // A message of another type is dispatched under it, and onmessage does not get it.
  lemma NamedEventIsNoMessage(events: seq<(string, string)>, name: string, data: string)
    ensures var b := ProcessLines(Buffers([], [], events), ["event: " + name, "data: " + data, ""]);
            && b == Buffers([], [], events + [(if name == "" then "message" else name, data)])
            && OnMessage(b.dispatched) == OnMessage(events) + if name == "" || name == "message" then [data] else []
  {
    hide ProcessLines, OnMessage;
    var b, lines := Buffers([], [], events), ["event: " + name, "data: " + data, ""];
    var e := (if name == "" then "message" else name, data);
    ProcessConcat(b, [lines[0]], [lines[1], ""]);
    ProcessConcat(Buffers([], name, events), [lines[1]], [""]);
    assert [lines[0]] + [lines[1], ""] == lines && [lines[1]] + [""] == [lines[1], ""];
    ProcessOne(b, lines[0]);
    EventLine(b, name);
    ProcessOne(Buffers([], name, events), lines[1]);
    ProcessDataLine(Buffers([], name, events), data);
    assert [] + data + "\n" == data + "\n";
    ProcessOne(Buffers(data + "\n", name, events), "");
    assert (data + "\n")[..|data|] == data;
    OnMessageConcat(events, [e]);
    OnMessageFirst(e, []);
    OnMessageOne(data);
    assert [e] + [] == [e];
  }

  lemma EventLine(b: Buffers, name: string)
    ensures ProcessLine(b, "event: " + name) == b.(eventType := name)
  {
    var line := "event: " + name;
    assert line[5] == ':';
    assert forall k :: 0 <= k < 5 ==> line[k] == "event"[k];
    assert IndexOfChar(line, ':', 0) == 5;
    assert line[..5] == "event" && line[6..] == " " + name && (" " + name)[1..] == name;
  }

  lemma ProcessFrame(events: seq<(string, string)>, f: Frame)
    requires GoodFrame(f)
    ensures ProcessLines(Buffers([], [], events), FrameLines(f))
         == Buffers([], [], events + if f.Message? then [("message", Join(f.data, "\n"))] else [])
  {
    hide ProcessLine, ProcessLines, Join, DataLines, GoodPayload;
    var b := Buffers([], [], events);
    assert events + [] == events;
    match f
    case Comment(text) =>
      IgnoredLines(events, text);
      ProcessOne(b, ":" + text);
    case Blank =>
      IgnoredLines(events, "");
      ProcessOne(b, "");
    case Message(data) =>
      ProcessData(b, data);
      ProcessConcat(b, DataLines(data), [""]);
      assert [] + Join(data, "\n") + "\n" == Join(data, "\n") + "\n";
      BlankDispatches(events, Join(data, "\n"));
      ProcessOne(Buffers(Join(data, "\n") + "\n", [], events), "");
  }

  lemma OnMessageFirst(e: (string, string), rest: seq<(string, string)>)
    ensures OnMessage([e] + rest) == (if e.0 == "message" then [e.1] else []) + OnMessage(rest)
  {
    assert ([e] + rest)[1..] == rest;
  }

  lemma {:induction false} OnMessageConcat(a: seq<(string, string)>, b: seq<(string, string)>)
    ensures OnMessage(a + b) == OnMessage(a) + OnMessage(b)
  {
    if a == [] {
      assert a + b == b;
    } else {
      hide OnMessage;
      OnMessageConcat(a[1..], b);
      SplitHead(a, b);
      OnMessageFirst(a[0], a[1..] + b);
      OnMessageFirst(a[0], a[1..]);
      Associate(if a[0].0 == "message" then [a[0].1] else [], OnMessage(a[1..]), OnMessage(b));
    }
  }

  lemma OnMessageOne(data: string)
    ensures OnMessage([]) == [] && OnMessage([("message", data)]) == [data]
  {
    var events := [("message", data)];
    assert events[1..] == [];
  }

  lemma NoLines(b: Buffers)
    ensures ProcessLines(b, []) == b
  {
  }

  lemma {:induction false} ProcessFrames(events: seq<(string, string)>, frames: seq<Frame>)
    requires GoodFrames(frames)
    ensures OnMessage(ProcessLines(Buffers([], [], events), StreamLines(frames)).dispatched)
         == OnMessage(events) + Joined(frames)
    decreases |frames|
  {
    hide ProcessLine, ProcessLines, FrameLines, Join, OnMessage;
    OnMessageOne("");
    NoLines(Buffers([], [], events));
    if frames != [] {
      var f := frames[0];
      assert GoodFrame(f);
      var more := if f.Message? then [("message", Join(f.data, "\n"))] else [];
      ProcessFrame(events, f);
      ProcessConcat(Buffers([], [], events), FrameLines(f), StreamLines(frames[1..]));
      ProcessFrames(events + more, frames[1..]);
      OnMessageConcat(events, more);
      OnMessageOne(if f.Message? then Join(f.data, "\n") else "");
      assert Joined(frames) == (if f.Message? then [Join(f.data, "\n")] else []) + Joined(frames[1..]);
    }
  }

  // On CR-free frames the interpreter dispatches one message per frame.
  lemma InterpretFrames(frames: seq<Frame>)
    requires GoodFrames(frames) && CRFree(frames)
    ensures Interpret(Encode(frames)) == Joined(frames)
  {
    forall i | 0 <= i < |frames| ensures FrameAvoids(frames[i], '\n') {
      assert GoodFrame(frames[i]);
    }
    StreamLinesAvoid(frames, '\n');
    StreamLinesAvoid(frames, '\r');
    EventLinesOfUnlines(StreamLines(frames));
    ProcessFrames([], frames);
    EncodeHasNoBom(frames);
  }

  lemma EncodeHasNoBom(frames: seq<Frame>)
    ensures StripBom(Encode(frames)) == Encode(frames)
  {
    if frames != [] {
      assert StreamLines(frames)[0] == FrameLines(frames[0])[0];
    }
  }

  ghost predicate BuffersAvoidCR(b: Buffers) {
    Avoids(b.data, '\r') && forall i :: 0 <= i < |b.dispatched| ==> Avoids(b.dispatched[i].1, '\r')
  }

  lemma {:induction false} EventLinesAvoidCR(text: string)
    ensures forall i :: 0 <= i < |EventLines(text)| ==> Avoids(EventLines(text)[i], '\r')
    decreases |text|
  {
    var i := LineEnd(text);
    if i != |text| {
      EventLinesAvoidCR(text[i + 1..]);
      if i + 1 < |text| { EventLinesAvoidCR(text[i + 2..]); }
    }
  }

  lemma {:induction false} ProcessAvoidsCR(b: Buffers, lines: seq<string>)
    requires BuffersAvoidCR(b) && forall i :: 0 <= i < |lines| ==> Avoids(lines[i], '\r')
    ensures BuffersAvoidCR(ProcessLines(b, lines))
    decreases |lines|
  {
    if lines != [] {
      assert Avoids(lines[0], '\r');
      ProcessAvoidsCR(ProcessLine(b, lines[0]), lines[1..]);
    }
  }

  lemma {:induction false} OnMessageMembers(events: seq<(string, string)>, i: nat)
    requires i < |OnMessage(events)|
    ensures exists j :: 0 <= j < |events| && events[j].1 == OnMessage(events)[i]
  {
    var head := if events[0].0 == "message" then 1 else 0;
    if i >= head {
      OnMessageMembers(events[1..], i - head);
      var j :| 0 <= j < |events[1..]| && events[1..][j].1 == OnMessage(events[1..])[i - head];
      assert events[j + 1].1 == OnMessage(events)[i];
    }
  }

  // No message dispatched by the interpreter, on any text, contains a CR.
  lemma InterpretAvoidsCR(text: string, i: nat)
    requires i < |Interpret(text)|
    ensures Avoids(Interpret(text)[i], '\r')
  {
    var b := ProcessLines(Buffers([], [], []), EventLines(StripBom(text)));
    EventLinesAvoidCR(StripBom(text));
    ProcessAvoidsCR(Buffers([], [], []), EventLines(StripBom(text)));
    OnMessageMembers(b.dispatched, i);
  }

  lemma {:induction false} SentContains(frames: seq<Frame>, i: nat, j: nat)
    requires i < |frames| && frames[i].Message? && j < |frames[i].data|
    ensures frames[i].data[j] in Sent(frames)
  {
    if i > 0 { SentContains(frames[1..], i - 1, j); }
  }

  lemma {:induction false} JoinedVersusSent(frames: seq<Frame>)
    requires GoodFrames(frames)
    ensures |Joined(frames)| <= |Sent(frames)|
    ensures |Joined(frames)| == |Sent(frames)| <==> OneLineMessages(frames)
    ensures OneLineMessages(frames) ==> Joined(frames) == Sent(frames)
  {
    if frames != [] {
      assert GoodFrame(frames[0]);
      JoinedVersusSent(frames[1..]);
      assert OneLineMessages(frames) <==>
             (frames[0].Message? ==> |frames[0].data| == 1) && OneLineMessages(frames[1..]) by {
        if OneLineMessages(frames[1..]) && (frames[0].Message? ==> |frames[0].data| == 1) {
          forall i | 0 <= i < |frames| && frames[i].Message? ensures |frames[i].data| == 1 {
            if i > 0 { assert frames[1..][i - 1] == frames[i]; }
          }
        }
      }
      if frames[0].Message? && |frames[0].data| == 1 {
        assert frames[0].data == [Join(frames[0].data, "\n")];
      }
    }
  }

  // On framed streams the mobile scanner and the standard's interpreter deliver the same
  // payloads exactly when every message has one data line and no payload contains a CR.
  lemma ScannerMatchesInterpreterIff(frames: seq<Frame>)
    requires GoodFrames(frames)
    requires forall i :: 0 <= i < |frames| && frames[i].Comment? ==> Avoids(frames[i].text, '\r')
    ensures Interpret(Encode(frames)) == Sent(frames) <==> OneLineMessages(frames) && CRFree(frames)
  {
    JoinedVersusSent(frames);
    if CRFree(frames) {
      InterpretFrames(frames);
    } else {
      var i :| 0 <= i < |frames| && !FrameAvoids(frames[i], '\r');
      var j :| 0 <= j < |frames[i].data| && !Avoids(frames[i].data[j], '\r');
      SentContains(frames, i, j);
      if Interpret(Encode(frames)) == Sent(frames) {
        var k :| 0 <= k < |Sent(frames)| && Sent(frames)[k] == frames[i].data[j];
        InterpretAvoidsCR(Encode(frames), k);
      }
    }
  }
}
