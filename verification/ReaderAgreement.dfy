// When the mobile app's scanner and the standard's event-stream interpreter deliver the
// same payloads: for streams of frames with any data lines, white space and carriage
// returns included.
module ReaderAgreement {
  import opened Text
  import opened Sequences
  import opened EventStream
  import opened StreamPieces

  // ---------- What the interpreter can deliver ----------

  predicate Ended(b: Buffers) { b.data == [] || b.data[|b.data| - 1] == '\n' }

  // 1 if the data collected so far would be delivered as a trimmed text that is not empty.
  function Pending(b: Buffers): nat {
    if b.data != [] && GoodPayload(b.data[..|b.data| - 1]) then 1 else 0
  }

  function GoodCount(xs: seq<string>): (n: nat)
    ensures n <= |xs|
  {
    if xs == [] then 0
    else GoodCount(xs[..|xs| - 1]) + if GoodPayload(xs[|xs| - 1]) then 1 else 0
  }

  function Delivered(b: Buffers): seq<string> { OnMessage(b.dispatched) }

  function Score(b: Buffers): nat { GoodCount(Delivered(b)) + Pending(b) }

  predicate AllGood(xs: seq<string>) { forall i :: 0 <= i < |xs| ==> GoodPayload(xs[i]) }

  // 1 for the lines that may add to the score.
  function Weight(line: string): nat {
    if AllSpace(line) || line[0] == ':' || ("data: " <= line && AllSpace(line[6..])) then 0 else 1
  }

  function Weights(lines: seq<string>): nat {
    if lines == [] then 0 else Weight(lines[0]) + Weights(lines[1..])
  }

  lemma GoodCountMore(xs: seq<string>, x: string)
    ensures GoodCount(xs + [x]) == GoodCount(xs) + if GoodPayload(x) then 1 else 0
  {
    assert (xs + [x])[..|xs|] == xs;
  }

  lemma AppendedLine(b: Buffers, line: string) returns (value: string)
    requires line != []
    ensures ProcessLine(b, line).dispatched == b.dispatched
    ensures ProcessLine(b, line).data == b.data || ProcessLine(b, line).data == b.data + value + "\n"
  {
    hide IndexOfChar;
    var colon := IndexOfChar(line, ':', 0);
    value := if colon == -1 then [] else line[colon + 1..];
    if value != [] && value[0] == ' ' { value := value[1..]; }
  }

  lemma SpaceLine(b: Buffers, line: string)
    requires line != [] && AllSpace(line)
    ensures ProcessLine(b, line) == b
  {
    assert Space(line[0]) && forall k :: 0 <= k < |line| ==> Space(line[k]);
    assert !Space(':') && !Space('d') && !Space('e');
  }

  lemma CommentLine(b: Buffers, line: string)
    requires line != [] && line[0] == ':'
    ensures ProcessLine(b, line) == b
  {
    assert IndexOfChar(line, ':', 0) == 0;
  }

  lemma DispatchDelivers(b: Buffers)
    requires Ended(b)
    ensures b.data == [] ==> Delivered(Dispatch(b)) == Delivered(b)
    ensures b.data != [] && b.eventType == [] ==>
              Delivered(Dispatch(b)) == Delivered(b) + [b.data[..|b.data| - 1]]
    ensures Delivered(Dispatch(b)) == Delivered(b)
            || (b.data != [] && Delivered(Dispatch(b)) == Delivered(b) + [b.data[..|b.data| - 1]])
    ensures Dispatch(b).data == [] && Dispatch(b).eventType == []
  {
    hide OnMessage;
    if b.data != [] {
      var e := (if b.eventType == [] then "message" else b.eventType, b.data[..|b.data| - 1]);
      OnMessageConcat(b.dispatched, [e]);
      OnMessageFirst(e, []);
      assert [e] + [] == [e];
      OnMessageOne("");
      assert Delivered(b) + [] == Delivered(b);
    }
  }

  lemma DispatchScore(b: Buffers)
    requires Ended(b)
    ensures Score(Dispatch(b)) <= Score(b)
  {
    hide OnMessage, GoodPayload, GoodCount;
    DispatchDelivers(b);
    if b.data != [] { GoodCountMore(Delivered(b), b.data[..|b.data| - 1]); }
  }

  // More data after some is not a single line any more.
  lemma SecondLineSpoils(data: string, value: string)
    requires data != [] && data[|data| - 1] == '\n'
    ensures !GoodPayload((data + value + "\n")[..|data + value|])
  {
    var all := (data + value + "\n")[..|data + value|];
    assert all[|data| - 1] == '\n';
  }

  lemma SpaceIsNoPayload(value: string)
    requires AllSpace(value)
    ensures !GoodPayload((value + "\n")[..|value|])
  {
    assert (value + "\n")[..|value|] == value;
    if value != [] { assert Space(value[0]); }
  }

  // A data line whose text is white space, or that follows other data, is worth nothing.
  lemma WorthlessData(b: Buffers, value: string)
    requires Ended(b) && (b.data != [] || AllSpace(value))
    ensures Pending(ProcessLine(b, "data: " + value)) == 0
    ensures ProcessLine(b, "data: " + value) == b.(data := b.data + value + "\n")
  {
    ProcessDataLine(b, value);
    hide ProcessLine, GoodPayload, Space;
    if b.data != [] {
      SecondLineSpoils(b.data, value);
    } else {
      SpaceIsNoPayload(value);
      assert [] + value + "\n" == value + "\n";
    }
  }

  lemma DataText(line: string)
    requires "data: " <= line
    ensures line == "data: " + line[6..]
  {
  }

  lemma TextScore(b: Buffers, line: string)
    requires Ended(b) && line != []
    ensures Score(ProcessLine(b, line)) <= Score(b) + Weight(line)
  {
    var v := AppendedLine(b, line);
    if AllSpace(line) {
      SpaceLine(b, line);
    } else if line[0] == ':' {
      CommentLine(b, line);
    } else if Weight(line) == 0 {
      DataText(line);
      hide ProcessLine, GoodPayload, GoodCount, OnMessage, Space;
      WorthlessData(b, line[6..]);
    }
    hide ProcessLine, GoodPayload, GoodCount, OnMessage, Space;
  }

  // No line adds more to the score than its weight, and nothing delivered is taken back.
  lemma {:induction false} LinesScore(b: Buffers, lines: seq<string>)
    requires Ended(b)
    ensures var last := ProcessLines(b, lines);
            Score(last) <= Score(b) + Weights(lines) && Ended(last) && Delivered(b) <= Delivered(last)
    decreases |lines|
  {
    hide Score, Weight, Delivered;
    if lines != [] {
      if lines[0] == [] {
        DispatchScore(b);
        DispatchDelivers(b);
      } else {
        TextScore(b, lines[0]);
        var v := AppendedLine(b, lines[0]);
        SameDelivered(b, ProcessLine(b, lines[0]));
      }
      hide ProcessLine, Ended;
      LinesScore(ProcessLine(b, lines[0]), lines[1..]);
    }
  }

  lemma SameDelivered(b: Buffers, t: Buffers)
    requires b.dispatched == t.dispatched
    ensures Delivered(b) == Delivered(t)
  {
  }

  lemma LineEnded(b: Buffers, line: string)
    requires Ended(b)
    ensures Ended(ProcessLines(b, [line])) && ProcessLines(b, [line]) == ProcessLine(b, line)
  {
    hide ProcessLine;
    LinesScore(b, [line]);
    ProcessOne(b, line);
  }

  lemma PrefixGood(a: seq<string>, b: seq<string>)
    requires a <= b && AllGood(b)
    ensures AllGood(a)
  {
    assert forall i :: 0 <= i < |a| ==> a[i] == b[i];
  }

  // Collected data that cannot become a good delivery, of the default type.
  predicate Spoilt(b: Buffers) { Ended(b) && b.data != [] && Pending(b) == 0 && b.eventType == [] }

  lemma SpoiltLine(b: Buffers, line: string)
    requires Spoilt(b)
    ensures var t := ProcessLine(b, line);
            && (line == [] ==> !AllGood(Delivered(t)))
            && (line != [] ==> Score(t) == Score(b) && Ended(t))
            && (line != [] && Weight(line) == 0 ==> Spoilt(t))
  {
    if line == [] {
      DispatchDelivers(b);
      assert !GoodPayload(Delivered(Dispatch(b))[|Delivered(b)|]);
    } else {
      LineEnded(b, line);
      var v := AppendedLine(b, line);
      SecondLineSpoils(b.data, v);
      if AllSpace(line) {
        SpaceLine(b, line);
      } else if line[0] == ':' {
        CommentLine(b, line);
      } else if Weight(line) == 0 {
        DataText(line);
        WorthlessData(b, line[6..]);
      }
      hide ProcessLine, GoodPayload, GoodCount, OnMessage, Space;
    }
  }

  // Once the data is spoilt, something bad is delivered or some line adds nothing.
  lemma {:induction false} SpoiltLoses(b: Buffers, lines: seq<string>)
    requires Spoilt(b) && "" in lines
    ensures var last := ProcessLines(b, lines);
            AllGood(Delivered(last)) ==> Score(last) < Score(b) + Weights(lines)
    decreases |lines|
  {
    hide ProcessLine, Spoilt, Score, Weight, Delivered, AllGood, Ended;
    var t := ProcessLine(b, lines[0]);
    assert Ended(b) by { SpoiltEnded(b); }
    SpoiltLine(b, lines[0]);
    LineEnded(b, lines[0]);
    LinesScore(t, lines[1..]);
    if lines[0] == [] {
      if AllGood(Delivered(ProcessLines(t, lines[1..]))) {
        PrefixGood(Delivered(t), Delivered(ProcessLines(t, lines[1..])));
      }
    } else if Weight(lines[0]) == 0 {
      SpoiltLoses(t, lines[1..]);
    }
  }

  lemma SpoiltEnded(b: Buffers)
    requires Spoilt(b)
    ensures Ended(b)
  {
  }

  // ---------- A message ----------

  // Nothing collected.
  predicate Empty(b: Buffers) { b.data == [] && b.eventType == [] }

  // All that the lines could add has been added.
  ghost predicate Tight(b: Buffers, lines: seq<string>) {
    var last := ProcessLines(b, lines);
    AllGood(Delivered(last)) && Score(last) >= Score(b) + Weights(lines)
  }

  lemma EmptyThenData(b: Buffers, text: string)
    requires Empty(b)
    ensures var t := ProcessLine(b, "data: " + text);
            && t == Buffers(text + "\n", [], b.dispatched) && Ended(t) && Ended(b)
            && Score(b) == GoodCount(Delivered(b))
            && (GoodPayload(text) ==> Score(t) == Score(b) + 1 && Pending(t) == 1)
            && (!GoodPayload(text) ==> Spoilt(t) && Score(t) == Score(b))
  {
    ProcessDataLine(b, text);
    assert [] + text + "\n" == text + "\n" && (text + "\n")[..|text|] == text;
  }

  lemma WeightOfData(text: string)
    ensures Weight("data: " + text) == if AllSpace(text) then 0 else 1
  {
    var line := "data: " + text;
    assert line[6..] == text && line[0] == 'd' && !Space('d');
  }

  // White space adds nothing but, with an empty line in it, ends the message.
  lemma {:induction false} SpacesEnd(b: Buffers, text: string, lines: seq<string>)
    requires b.data == text + "\n" && b.eventType == []
    requires forall i :: 0 <= i < |lines| ==> AllSpace(lines[i])
    ensures ProcessLines(b, lines)
         == if "" in lines then Buffers([], [], b.dispatched + [("message", text)]) else b
    decreases |lines|
  {
    if lines != [] {
      if lines[0] == [] {
        BlankDispatches(b.dispatched, text);
        SpacesKeepEmpty(ProcessLine(b, lines[0]), lines[1..]);
      } else {
        SpaceLine(b, lines[0]);
        hide ProcessLine;
        SpacesEnd(b, text, lines[1..]);
        assert lines == [lines[0]] + lines[1..];
      }
    }
  }

  lemma {:induction false} SpacesKeepEmpty(b: Buffers, lines: seq<string>)
    requires Empty(b) && forall i :: 0 <= i < |lines| ==> AllSpace(lines[i])
    ensures ProcessLines(b, lines) == b
    decreases |lines|
  {
    if lines != [] {
      if lines[0] != [] { SpaceLine(b, lines[0]); }
      SpacesKeepEmpty(b, lines[1..]);
    }
  }

  lemma {:induction false} SpacesWeigh(lines: seq<string>)
    requires forall i :: 0 <= i < |lines| ==> AllSpace(lines[i])
    ensures Weights(lines) == 0
  {
    if lines != [] { SpacesWeigh(lines[1..]); }
  }

  lemma {:induction false} WeightsConcat(a: seq<string>, b: seq<string>)
    ensures Weights(a + b) == Weights(a) + Weights(b)
  {
    hide Weight;
    if a == [] {
      assert a + b == b;
    } else {
      assert (a + b)[0] == a[0] && (a + b)[1..] == a[1..] + b;
      WeightsConcat(a[1..], b);
    }
  }

  lemma PiecesWeigh(p: string)
    requires !CRInside(p)
    ensures Weights(Pieces(p)) <= if AllSpace(p) then 0 else 1
    decreases |p|
  {
    hide Space, Weight, Find, CRInside;
    var i := Find(p, '\r');
    var head := p[..i];
    if AllSpace(p) {
      PiecesOfSpace(p);
      SpacesWeigh(Pieces(p));
    } else if i + 1 >= |p| {
      WeightAtMostOne(head);
      OneWeight(head);
    } else {
      var tail := p[i + 1..];
      NoCRInTail(p, i);
      PiecesWeigh(tail);
      WeightsConcat([head], Pieces(tail));
      OneWeight(head);
      WeightAtMostOne(head);
      if !AllSpace(head) { SpaceAfterText(p, i); } else { SpaceWeighs(head); }
    }
  }

  lemma OneWeight(line: string)
    ensures Weights([line]) == Weight(line)
  {
    assert [line][1..] == [];
  }

  lemma WeightAtMostOne(line: string)
    ensures Weight(line) <= 1
  {
  }

  lemma SpaceWeighs(line: string)
    requires AllSpace(line)
    ensures Weight(line) == 0
  {
  }

  lemma DataWeighs(p: string)
    requires !CRInside(p)
    ensures Weights(Pieces("data: " + p)) <= |Payload("data: " + p)|
  {
    hide Space, Weight, Find, CRInside, Payload, Pieces;
    PiecesOfData(p);
    WeightsConcat(["data: " + Head(p)], Later(p));
    OneWeight("data: " + Head(p));
    WeightOfData(Head(p));
    LaterWeighs(p);
    if !AllSpace(p) { TextSends(p); }
  }

  lemma LaterWeighs(p: string)
    requires !CRInside(p)
    ensures Weights(Later(p)) <= if AllSpace(p) then 0 else 1
    ensures !AllSpace(Head(p)) ==> Weights(Later(p)) == 0 && AllSpace(Rest(p))
    ensures AllSpace(p) ==> AllSpace(Head(p))
  {
    hide Space, Weight, CRInside, Pieces;
    var i := Find(p, '\r');
    hide Find;
    if i + 1 < |p| {
      NoCRInTail(p, i);
      PiecesWeigh(p[i + 1..]);
      assert AllSpace(p) ==> AllSpace(p[i + 1..]);
    }
    if i < |p| && !AllSpace(Head(p)) { SpaceAfterText(p, i); }
  }

  // The interpreter's lines of a message from its data lines on.
  function MessagePieces(data: seq<string>): seq<string> { AllPieces(DataLines(data)) + [""] }

  lemma MessagePiecesFirst(data: seq<string>)
    requires data != []
    ensures MessagePieces(data) == ["data: " + Head(data[0])] + (Later(data[0]) + MessagePieces(data[1..]))
    ensures Weights(MessagePieces(data))
         == Weight("data: " + Head(data[0])) + Weights(Later(data[0])) + Weights(MessagePieces(data[1..]))
  {
    hide Find, Weight, Pieces, Head, Later;
    var first, later, rest := "data: " + Head(data[0]), Later(data[0]), AllPieces(DataLines(data[1..]));
    assert DataLines(data)[0] == "data: " + data[0] && DataLines(data)[1..] == DataLines(data[1..]);
    PiecesOfData(data[0]);
    Associate([first] + later, rest, [""]);
    Associate([first], later, rest + [""]);
    WeightsConcat([first], later + (rest + [""]));
    WeightsConcat(later, rest + [""]);
    OneWeight(first);
  }

  // From nothing collected, lines that add all they could are those of clean data.
  lemma {:induction false} TightIsClean(b: Buffers, data: seq<string>)
    requires Empty(b) && Tight(b, MessagePieces(data))
    requires forall j :: 0 <= j < |data| ==> Avoids(data[j], '\n') && !CRInside(data[j])
    ensures CleanData(data)
    decreases |data|
  {
    if data != [] {
      hide CRInside, CleanLine, Closes, Empty, Tight, MessagePieces;
      TightFirst(b, data);
      if |data| > 1 {
        var t := TightCloses(b, data);
        TightIsClean(t, data[1..]);
      }
      CleanFirst(data);
    }
  }

  lemma CleanFirst(data: seq<string>)
    requires data != [] && CleanLine(data[0]) && (|data| > 1 ==> Closes(data[0]) && CleanData(data[1..]))
    ensures CleanData(data)
  {
    hide CleanLine, Closes;
    forall j | 0 <= j < |data| ensures CleanLine(data[j]) && (j < |data| - 1 ==> Closes(data[j])) {
      if j > 0 { assert data[1..][j - 1] == data[j]; }
    }
  }

  lemma LastIsBlank(data: seq<string>)
    ensures "" in MessagePieces(data)
  {
    var lines := MessagePieces(data);
    assert lines[|lines| - 1] == "";
  }

  lemma TightFirst(b: Buffers, data: seq<string>)
    requires data != [] && Empty(b) && Tight(b, MessagePieces(data))
    requires Avoids(data[0], '\n') && !CRInside(data[0])
    ensures CleanLine(data[0])
  {
    hide Space, Find, ProcessLine, GoodPayload, GoodCount, Delivered, Pieces, MessagePieces, Later, Weight, CRInside,
      AllGood, Empty, Spoilt, Ended, Score, Pending;
    var head, more := Head(data[0]), Later(data[0]) + MessagePieces(data[1..]);
    var t := ProcessLine(b, "data: " + head);
    MessagePiecesFirst(data);
    WeightsConcat(Later(data[0]), MessagePieces(data[1..]));
    RunFirst(b, "data: " + head, more);
    EmptyThenData(b, head);
    LinesScore(t, more);
    WeightOfData(head);
    if !GoodPayload(head) {
      LastIsBlank(data[1..]);
      SpoiltLoses(t, more);
      assert false;
    }
    GoodIsText(head);
    LaterWeighs(data[0]);
  }

  lemma GoodIsText(p: string)
    requires GoodPayload(p)
    ensures p != [] && Trimmed(p) && !AllSpace(p)
  {
    assert !Space(p[0]);
  }

  lemma RunFirst(b: Buffers, line: string, more: seq<string>)
    ensures ProcessLines(b, [line] + more) == ProcessLines(ProcessLine(b, line), more)
  {
    assert ([line] + more)[1..] == more;
  }

  // Another data line after a clean one must find nothing collected.
  lemma TightCloses(b: Buffers, data: seq<string>) returns (t: Buffers)
    requires |data| > 1 && Empty(b) && Tight(b, MessagePieces(data)) && CleanLine(data[0])
    requires Avoids(data[0], '\n')
    ensures Closes(data[0]) && Empty(t) && Tight(t, MessagePieces(data[1..]))
  {
    hide Space, Find, ProcessLine, GoodPayload, GoodCount, Delivered, Pieces, MessagePieces, Later, Weight, AllGood,
      Spoilt, Ended, Score, Pending, Closes;
    var head, later, rest := Head(data[0]), Later(data[0]), MessagePieces(data[1..]);
    t := CleanLineRuns(b, data[0]);
    MessagePiecesFirst(data);
    RunFirst(b, "data: " + head, later + rest);
    ProcessConcat(ProcessLine(b, "data: " + head), later, rest);
    CleanLineWeighs(data[0]);
    if !Closes(data[0]) {
      SecondDataLoses(t, data[1..]);
      assert false;
    }
  }

  lemma CleanLineWeighs(p: string)
    requires CleanLine(p)
    ensures Weight("data: " + Head(p)) == 1 && Weights(Later(p)) == 0
  {
    WeightOfData(Head(p));
    LaterIsSpace(p);
    SpacesWeigh(Later(p));
    assert !Space(Head(p)[0]);
  }

  lemma HeadAvoidsLF(p: string)
    requires Avoids(p, '\n')
    ensures Avoids(Head(p), '\n')
  {
  }

  // A clean data line is delivered at once if it closes, and is pending otherwise.
  lemma CleanLineRuns(b: Buffers, p: string) returns (t: Buffers)
    requires Empty(b) && CleanLine(p) && Avoids(p, '\n')
    ensures t == ProcessLines(ProcessLine(b, "data: " + Head(p)), Later(p))
    ensures Score(t) == Score(b) + 1
    ensures Closes(p) ==> t == Buffers([], [], b.dispatched + [("message", Head(p))])
    ensures !Closes(p) ==> t == Buffers(Head(p) + "\n", [], b.dispatched) && Pending(t) == 1
    ensures Ended(t)
  {
    hide Space, Find, ProcessLine, GoodCount, Delivered, Pieces, Later, Pending, Trimmed, Head;
    var head := Head(p);
    HeadAvoidsLF(p);
    EmptyThenData(b, head);
    LaterIsSpace(p);
    LaterBlankIff(p);
    t := ProcessLine(b, "data: " + head);
    SpacesEnd(t, head, Later(p));
    t := ProcessLines(t, Later(p));
    if Closes(p) { DeliveredScore(b, head); }
  }

  lemma DeliveredScore(b: Buffers, text: string)
    requires Empty(b) && GoodPayload(text)
    ensures Score(Buffers([], [], b.dispatched + [("message", text)])) == Score(b) + 1
  {
    hide OnMessage, GoodPayload;
    OnMessageConcat(b.dispatched, [("message", text)]);
    OnMessageOne(text);
    GoodCountMore(Delivered(b), text);
  }

  lemma SecondDataLoses(t: Buffers, data: seq<string>)
    requires data != [] && Ended(t) && t.data != [] && Pending(t) == 1
    ensures Score(ProcessLines(t, MessagePieces(data))) < Score(t) + Weights(MessagePieces(data))
  {
    hide Space, Find, ProcessLine, GoodPayload, GoodCount, Pieces, MessagePieces, Later, Weight, Ended, OnMessage;
    var head, more := Head(data[0]), Later(data[0]) + MessagePieces(data[1..]);
    MessagePiecesFirst(data);
    WeightsConcat(Later(data[0]), MessagePieces(data[1..]));
    RunFirst(t, "data: " + head, more);
    WorthlessData(t, head);
    LineEnded(t, "data: " + head);
    LinesScore(ProcessLine(t, "data: " + head), more);
  }

  // ---------- Whole streams ----------

  // The message frames' clean payloads.
  function Heads(data: seq<string>): seq<string> { if data == [] then [] else [Head(data[0])] + Heads(data[1..]) }

  lemma {:induction false} CleanDataRuns(b: Buffers, data: seq<string>)
    requires Empty(b) && CleanData(data) && forall j :: 0 <= j < |data| ==> Avoids(data[j], '\n')
    ensures var last := ProcessLines(b, MessagePieces(data));
            Empty(last) && Delivered(last) == Delivered(b) + Heads(data)
    decreases |data|
  {
    hide Space, Find, ProcessLine, Pieces, Later, CleanLine, Closes, Head, MessagePieces, OnMessage;
    if data == [] {
      NoDataRuns(b);
    } else {
      var head, rest := Head(data[0]), MessagePieces(data[1..]);
      var t := CleanLineRuns(b, data[0]);
      MessagePiecesFirst(data);
      RunFirst(b, "data: " + head, Later(data[0]) + rest);
      ProcessConcat(ProcessLine(b, "data: " + head), Later(data[0]), rest);
      OneMore(b, head);
      if Closes(data[0]) {
        CleanDataRuns(t, data[1..]);
        Associate(Delivered(b), [head], Heads(data[1..]));
      } else {
        assert data[1..] == [];
        NoDataPieces();
        BlankDispatches(b.dispatched, head);
        ProcessOne(t, "");
        assert Heads(data[1..]) == [] && [head] + [] == [head];
      }
    }
  }

  lemma OneMore(b: Buffers, text: string)
    ensures OnMessage(b.dispatched + [("message", text)]) == Delivered(b) + [text]
  {
    hide OnMessage;
    OnMessageConcat(b.dispatched, [("message", text)]);
    OnMessageOne(text);
  }

  lemma NoDataPieces()
    ensures MessagePieces([]) == [""]
  {
    assert DataLines([]) == [] && AllPieces([]) == [];
    assert [] + [""] == [""];
  }

  lemma NoDataRuns(b: Buffers)
    requires Empty(b)
    ensures ProcessLines(b, MessagePieces([])) == b && Delivered(b) + Heads([]) == Delivered(b)
  {
    NoDataPieces();
    ProcessOne(b, "");
  }

  function FramePieces(f: Frame): seq<string> { AllPieces(FrameLines(f)) }

  lemma PiecesOfFrame(f: Frame)
    requires Framed(f)
    ensures f.Comment? ==> FramePieces(f) == [":" + f.text]
    ensures f.Blank? ==> FramePieces(f) == [""]
    ensures f.Message? ==> FramePieces(f) == MessagePieces(f.data)
  {
    hide Find, DataLines;
    match f
    case Comment(text) =>
      assert (":" + text)[0] != '\r' && Avoids(":" + text, '\r');
      OnePiece(":" + text);
    case Blank =>
      OnePiece("");
    case Message(data) =>
      AllPiecesConcat(DataLines(data), [""]);
      OnePiece("");
  }

  lemma OnePiece(line: string)
    requires Avoids(line, '\r')
    ensures AllPieces([line]) == [line]
  {
    FindIs(line, '\r', |line|);
    hide Find;
    assert line[..|line|] == line;
    assert [line][1..] == [] && AllPieces([]) == [];
    assert [line] + [] == [line];
  }

  lemma FrameKeepsEmpty(b: Buffers, f: Frame)
    requires Empty(b) && Framed(f)
    ensures Empty(ProcessLines(b, FramePieces(f)))
    ensures !f.Message? ==> ProcessLines(b, FramePieces(f)) == b
  {
    hide ProcessLine, ProcessLines, MessagePieces, FramePieces, Find, AllPieces;
    PiecesOfFrame(f);
    match f
    case Comment(text) =>
      IgnoredLines(b.dispatched, text);
      ProcessOne(b, ":" + text);
    case Blank =>
      IgnoredLines(b.dispatched, "");
      ProcessOne(b, "");
    case Message(data) =>
      MessageEndsEmpty(b, data);
  }

  lemma MessageEndsEmpty(b: Buffers, data: seq<string>)
    requires Ended(b)
    ensures Empty(ProcessLines(b, MessagePieces(data)))
  {
    hide ProcessLine, AllPieces, DataLines, Score;
    var t := ProcessLines(b, AllPieces(DataLines(data)));
    ProcessConcat(b, AllPieces(DataLines(data)), [""]);
    LinesScore(b, AllPieces(DataLines(data)));
    ProcessOne(t, "");
    BlankEmpties(t);
  }

  lemma BlankEmpties(b: Buffers)
    requires Ended(b)
    ensures Empty(ProcessLine(b, ""))
  {
    DispatchDelivers(b);
  }

  lemma StreamPiecesFirst(frames: seq<Frame>)
    requires frames != []
    ensures AllPieces(StreamLines(frames)) == FramePieces(frames[0]) + AllPieces(StreamLines(frames[1..]))
  {
    AllPiecesConcat(FrameLines(frames[0]), StreamLines(frames[1..]));
  }

  ghost predicate NoCRInside(frames: seq<Frame>) {
    forall i, j :: 0 <= i < |frames| && frames[i].Message? && 0 <= j < |frames[i].data| ==> !CRInside(frames[i].data[j])
  }

  lemma {:induction false} TightStreamIsClean(b: Buffers, frames: seq<Frame>)
    requires Empty(b) && AllFramed(frames) && NoCRInside(frames) && Tight(b, AllPieces(StreamLines(frames)))
    ensures CleanFrames(frames)
    decreases |frames|
  {
    hide Framed, CRInside, Tight, CleanData, AllPieces, StreamLines;
    if frames != [] {
      var f, rest := frames[0], frames[1..];
      var t := ProcessLines(b, FramePieces(f));
      assert Framed(f);
      StreamPiecesFirst(frames);
      FrameKeepsEmpty(b, f);
      TightSplit(b, FramePieces(f), AllPieces(StreamLines(rest)));
      assert NoCRInside(rest) && AllFramed(rest) by { TailFramed(frames); }
      TightStreamIsClean(t, rest);
      if f.Message? {
        PiecesOfFrame(f);
        FramedData(f);
        TightIsClean(b, f.data);
      }
      forall i | 0 <= i < |frames| && frames[i].Message? ensures CleanData(frames[i].data) {
        if i > 0 { assert rest[i - 1] == frames[i]; }
      }
    }
  }

  lemma FramedData(f: Frame)
    requires Framed(f) && f.Message?
    ensures forall j :: 0 <= j < |f.data| ==> Avoids(f.data[j], '\n')
  {
  }

  lemma TailFramed(frames: seq<Frame>)
    requires frames != [] && AllFramed(frames) && NoCRInside(frames)
    ensures AllFramed(frames[1..]) && NoCRInside(frames[1..])
  {
    hide Framed, CRInside;
    assert forall i :: 0 <= i < |frames| - 1 ==> frames[1..][i] == frames[i + 1];
  }

  lemma TightSplit(b: Buffers, x: seq<string>, y: seq<string>)
    requires Ended(b) && Tight(b, x + y)
    ensures Tight(b, x) && Tight(ProcessLines(b, x), y)
  {
    hide ProcessLine, Score, Weight, Delivered, AllGood, Ended;
    var t := ProcessLines(b, x);
    ProcessConcat(b, x, y);
    WeightsConcat(x, y);
    LinesScore(b, x);
    LinesScore(t, y);
    PrefixGood(Delivered(t), Delivered(ProcessLines(t, y)));
  }

  // What the scanner reads from a stream of frames.
  lemma {:induction false} StreamPayloads(frames: seq<Frame>)
    requires AllFramed(frames)
    ensures Lines(Encode(frames)) == StreamLines(frames)
    ensures Interpret(Encode(frames))
         == Delivered(ProcessLines(Buffers([], [], []), AllPieces(StreamLines(frames))))
  {
    hide Lines, EventLines, AllPieces, StreamLines, Unlines, ProcessLines, Delivered, OnMessage, StripBom;
    StreamLinesFramed(frames);
    LinesOfUnlines(StreamLines(frames));
    EventLinesOfLines(StreamLines(frames));
    EncodeHasNoBom(frames);
    assert Delivered(ProcessLines(Buffers([], [], []), AllPieces(StreamLines(frames))))
        == OnMessage(ProcessLines(Buffers([], [], []), AllPieces(StreamLines(frames))).dispatched) by {
      DeliveredIs(ProcessLines(Buffers([], [], []), AllPieces(StreamLines(frames))));
    }
  }

  lemma DeliveredIs(b: Buffers)
    ensures Delivered(b) == OnMessage(b.dispatched)
  {
  }

  lemma StreamLinesFramed(frames: seq<Frame>)
    requires AllFramed(frames)
    ensures forall i :: 0 <= i < |StreamLines(frames)| ==> Avoids(StreamLines(frames)[i], '\n')
  {
    hide StreamLines;
    forall i | 0 <= i < |frames| ensures FrameAvoids(frames[i], '\n') {
      assert Framed(frames[i]);
    }
    StreamLinesAvoid(frames, '\n');
  }

  lemma {:induction false} CleanDataSends(data: seq<string>)
    requires CleanData(data)
    ensures Payloads(DataLines(data)) == Heads(data)
  {
    hide Space, Payload, Head, CleanLine, Closes;
    if data != [] {
      assert CleanLine(data[0]);
      CleanLineSends(data[0]);
      forall j | 0 <= j < |data| - 1
        ensures CleanLine(data[1..][j]) && (j < |data| - 2 ==> Closes(data[1..][j]))
      {
        assert data[1..][j] == data[j + 1];
      }
      CleanDataSends(data[1..]);
      assert DataLines(data)[1..] == DataLines(data[1..]);
    }
  }

  lemma FrameSends(f: Frame)
    ensures Payloads(FrameLines(f)) == if f.Message? then Payloads(DataLines(f.data)) else []
  {
    hide Payloads, DataLines;
    NoPayloads();
    assert [""] + [] == [""];
    PayloadsOfFirst("", []);
    match f
    case Comment(text) =>
      assert (":" + text)[0] != "data:"[0];
      PayloadsOfFirst(":" + text, []);
      assert [":" + text] + [] == [":" + text];
    case Blank =>
    case Message(data) =>
      PayloadsConcat(DataLines(data), [""]);
  }

  lemma {:induction false} CleanStreamAgrees(b: Buffers, frames: seq<Frame>)
    requires Empty(b) && AllFramed(frames) && CleanFrames(frames)
    ensures Delivered(ProcessLines(b, AllPieces(StreamLines(frames))))
         == Delivered(b) + Payloads(StreamLines(frames))
    decreases |frames|
  {
    hide Framed, CleanData, ProcessLines, Delivered, FrameLines, Payloads, AllPieces, FramePieces, Empty;
    if frames == [] {
      EmptyStream(b);
    } else {
      var f, rest := frames[0], frames[1..];
      assert Framed(f);
      StreamPiecesFirst(frames);
      FrameKeepsEmpty(b, f);
      ProcessConcat(b, FramePieces(f), AllPieces(StreamLines(rest)));
      PayloadsConcat(FrameLines(f), StreamLines(rest));
      FrameAgrees(b, f);
      CleanStreamAgrees(ProcessLines(b, FramePieces(f)), rest);
      Associate(Delivered(b), Payloads(FrameLines(f)), Payloads(StreamLines(rest)));
    }
  }

  lemma EmptyStream(b: Buffers)
    ensures Delivered(ProcessLines(b, AllPieces(StreamLines([])))) == Delivered(b) + Payloads(StreamLines([]))
  {
    NoPayloads();
    NoLines(b);
    assert StreamLines([]) == [] && AllPieces([]) == [];
    assert Delivered(b) + [] == Delivered(b);
  }

  lemma FrameAgrees(b: Buffers, f: Frame)
    requires Empty(b) && Framed(f) && (f.Message? ==> CleanData(f.data))
    ensures Delivered(ProcessLines(b, FramePieces(f))) == Delivered(b) + Payloads(FrameLines(f))
  {
    hide ProcessLines, Delivered, FrameLines, Payloads, FramePieces, CleanData, MessagePieces, Empty;
    FrameSends(f);
    FrameKeepsEmpty(b, f);
    if f.Message? {
      PiecesOfFrame(f);
      FramedData(f);
      CleanDataRuns(b, f.data);
      CleanDataSends(f.data);
    } else {
      assert Delivered(b) + [] == Delivered(b);
    }
  }

  lemma {:induction false} MessageWeighs(data: seq<string>)
    requires forall j :: 0 <= j < |data| ==> !CRInside(data[j])
    ensures Weights(AllPieces(DataLines(data))) <= |Payloads(DataLines(data))|
  {
    hide CRInside, Weight, Pieces, Payload;
    if data != [] {
      var line := "data: " + data[0];
      assert DataLines(data)[0] == line && DataLines(data)[1..] == DataLines(data[1..]);
      DataWeighs(data[0]);
      MessageWeighs(data[1..]);
      WeightsConcat(Pieces(line), AllPieces(DataLines(data[1..])));
    }
  }

  lemma FrameWeighs(f: Frame)
    requires Framed(f) && (f.Message? ==> forall j :: 0 <= j < |f.data| ==> !CRInside(f.data[j]))
    ensures Weights(FramePieces(f)) <= |Payloads(FrameLines(f))|
  {
    hide CRInside, Payloads, FrameLines, AllPieces, DataLines;
    PiecesOfFrame(f);
    FrameSends(f);
    OneWeight("");
    SpaceWeighs("");
    match f
    case Comment(text) =>
      OneWeight(":" + text);
      assert Weight(":" + text) == 0;
    case Blank =>
    case Message(data) =>
      MessageWeighs(data);
      WeightsConcat(AllPieces(DataLines(data)), [""]);
  }

  lemma {:induction false} StreamWeighs(frames: seq<Frame>)
    requires AllFramed(frames) && NoCRInside(frames)
    ensures Weights(AllPieces(StreamLines(frames))) <= |Payloads(StreamLines(frames))|
  {
    hide CRInside, Framed, Weight, Payloads, FrameLines, FramePieces;
    if frames == [] {
      assert StreamLines([]) == [] && AllPieces([]) == [];
    } else {
      hide AllPieces;
      assert Framed(frames[0]);
      StreamPiecesFirst(frames);
      FrameWeighs(frames[0]);
      TailFramed(frames);
      StreamWeighs(frames[1..]);
      WeightsConcat(FramePieces(frames[0]), AllPieces(StreamLines(frames[1..])));
      PayloadsConcat(FrameLines(frames[0]), StreamLines(frames[1..]));
    }
  }

  // ---------- What both readers deliver ----------

  lemma {:induction false} PayloadsAreGood(lines: seq<string>)
    requires forall i :: 0 <= i < |lines| ==> Avoids(lines[i], '\n')
    ensures AllGood(Payloads(lines))
  {
    hide Payload, GoodPayload;
    if lines != [] {
      PayloadIsGood(lines[0]);
      PayloadsAreGood(lines[1..]);
    }
  }

  lemma PayloadIsGood(line: string)
    requires Avoids(line, '\n')
    ensures forall i :: 0 <= i < |Payload(line)| ==> GoodPayload(Payload(line)[i])
  {
    if StartsWith(line, "data:") {
      var text := line[5..];
      var lo, hi := TrimCuts(text);
      hide Space, Trim;
      assert forall k :: 0 <= k < hi - lo ==> text[lo..hi][k] == line[k + lo + 5] != '\n';
    }
  }

  lemma {:induction false} AllGoodCount(xs: seq<string>)
    requires AllGood(xs)
    ensures GoodCount(xs) == |xs|
  {
    if xs != [] { AllGoodCount(xs[..|xs| - 1]); }
  }

  lemma {:induction false} PayloadsContain(lines: seq<string>, i: nat, x: string)
    requires i < |lines| && x in Payload(lines[i])
    ensures x in Payloads(lines)
  {
    hide Payload;
    if i > 0 { PayloadsContain(lines[1..], i - 1, x); }
  }

  lemma {:induction false} LineOfData(frames: seq<Frame>, i: nat, j: nat) returns (k: nat)
    requires i < |frames| && frames[i].Message? && j < |frames[i].data|
    ensures k < |StreamLines(frames)| && StreamLines(frames)[k] == "data: " + frames[i].data[j]
    decreases i
  {
    hide FrameLines;
    if i > 0 {
      k := LineOfData(frames[1..], i - 1, j);
      k := k + |FrameLines(frames[0])|;
    } else {
      FrameLineAt(frames[0], j);
      k := j;
    }
  }

  lemma FrameLineAt(f: Frame, j: nat)
    requires f.Message? && j < |f.data|
    ensures j < |FrameLines(f)| && FrameLines(f)[j] == "data: " + f.data[j]
  {
    hide DataLines;
    DataLinesAt(f.data, j);
  }

  lemma {:induction false} DataLinesAt(data: seq<string>, j: nat)
    requires j < |data|
    ensures j < |DataLines(data)| && DataLines(data)[j] == "data: " + data[j]
  {
    if j > 0 { DataLinesAt(data[1..], j - 1); }
  }

  // The interpreter never delivers a CR, so neither does a scanner that agrees with it.
  lemma AgreementHasNoCRInside(frames: seq<Frame>)
    requires Interpret(Encode(frames)) == Payloads(StreamLines(frames))
    ensures NoCRInside(frames)
  {
    hide CRInside, Payload, Payloads, StreamLines, Interpret, Encode;
    forall i, j | 0 <= i < |frames| && frames[i].Message? && 0 <= j < |frames[i].data|
      ensures !CRInside(frames[i].data[j])
    {
      var p := frames[i].data[j];
      if CRInside(p) {
        var x := CRIsSent(p);
        var k := LineOfData(frames, i, j);
        PayloadsContain(StreamLines(frames), k, x);
        var n :| 0 <= n < |Payloads(StreamLines(frames))| && Payloads(StreamLines(frames))[n] == x;
        InterpretAvoidsCR(Encode(frames), n);
        assert false;
      }
    }
  }

  lemma CRIsSent(p: string) returns (x: string)
    requires CRInside(p)
    ensures x in Payload("data: " + p) && !Avoids(x, '\r')
  {
    hide Payload;
    TextSends(p);
    x := Payload("data: " + p)[0];
  }

  // On any stream of frames, delivered in any chunks, the scanner and the interpreter
  // deliver the same payloads exactly when every data line is a trimmed text that is not
  // empty, with at most white space behind it that begins with a CR, and every data line
  // but the last of its message has an empty line in that white space.
  lemma ReadersAgreeIff(frames: seq<Frame>, events: seq<Event>)
    requires AllFramed(frames) && Growing(events) && Received(events) == Encode(frames)
    ensures Interpret(Encode(frames)) == Deliver(Progress(0, []), events).emitted <==> CleanFrames(frames)
  {
    hide Framed, CleanData, Payloads, AllPieces, StreamLines, ProcessLines, Interpret, Encode, Deliver, Received;
    var b, lines := Buffers([], [], []), StreamLines(frames);
    assert Empty(b) && Delivered(b) == [] && [] + Payloads(lines) == Payloads(lines);
    ChunkingIsInvisible(events);
    StreamPayloads(frames);
    if CleanFrames(frames) {
      CleanStreamAgrees(b, frames);
    } else if Interpret(Encode(frames)) == Payloads(lines) {
      AgreementHasNoCRInside(frames);
      AgreementIsTight(b, frames);
      TightStreamIsClean(b, frames);
      assert false;
    }
  }

  lemma AgreementIsTight(b: Buffers, frames: seq<Frame>)
    requires AllFramed(frames) && NoCRInside(frames) && b == Buffers([], [], [])
    requires Delivered(ProcessLines(b, AllPieces(StreamLines(frames)))) == Payloads(StreamLines(frames))
    ensures Tight(b, AllPieces(StreamLines(frames)))
  {
    hide Framed, Payloads, AllPieces, StreamLines, ProcessLines, GoodPayload;
    StreamLinesFramed(frames);
    PayloadsAreGood(StreamLines(frames));
    AllGoodCount(Payloads(StreamLines(frames)));
    StreamWeighs(frames);
    assert Delivered(b) == [] && Score(b) == 0;
  }

  // For data lines without a CR: every message has one data line at most, and it is
  // trimmed and not empty.
  lemma CRFreeReadersAgreeIff(frames: seq<Frame>, events: seq<Event>)
    requires AllFramed(frames) && CRFree(frames) && Growing(events) && Received(events) == Encode(frames)
    ensures Interpret(Encode(frames)) == Deliver(Progress(0, []), events).emitted
       <==> forall i :: 0 <= i < |frames| && frames[i].Message? ==> OneTrimmedLine(frames[i].data)
  {
    ReadersAgreeIff(frames, events);
    forall i | 0 <= i < |frames| && frames[i].Message?
      ensures CleanData(frames[i].data) <==> OneTrimmedLine(frames[i].data)
    {
      assert FrameAvoids(frames[i], '\r');
      CleanWithoutCR(frames[i].data);
    }
  }

  predicate OneTrimmedLine(data: seq<string>) {
    |data| <= 1 && forall j :: 0 <= j < |data| ==> data[j] != [] && Trimmed(data[j])
  }

  lemma CleanWithoutCR(data: seq<string>)
    requires forall j :: 0 <= j < |data| ==> Avoids(data[j], '\r')
    ensures CleanData(data) <==> OneTrimmedLine(data)
  {
    hide Space, Trimmed;
    forall j | 0 <= j < |data| ensures !Closes(data[j]) && Head(data[j]) == data[j] && Rest(data[j]) == [] {
      assert Avoids(data[j], '\r');
    }
    assert |data| > 1 ==> !Closes(data[0]);
    hide Closes, Head, Rest;
    assert forall j :: 0 <= j < |data| ==> (CleanLine(data[j]) <==> data[j] != [] && Trimmed(data[j]));
  }
}
