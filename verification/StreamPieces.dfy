// The lines the standard's event-stream interpreter sees in frames whose data lines may
// contain carriage returns, and what trimming leaves of such a data line.
module StreamPieces {
  import opened Text
  import opened Sequences
  import opened EventStream

  // ---------- The condition ----------

  predicate AllSpace(s: string) { forall i :: 0 <= i < |s| ==> Space(s[i]) }

  // The part of a data line before its first CR, and the rest.
  function Head(p: string): string { p[..Find(p, '\r')] }

  function Rest(p: string): string { p[Find(p, '\r')..] }

  // A trimmed text that is not empty, then nothing but white space beginning with a CR.
  predicate CleanLine(p: string) { Head(p) != [] && Trimmed(Head(p)) && AllSpace(Rest(p)) }

  // Two CRs in a row: an empty line, which ends the message.
  predicate Closes(p: string) { exists k :: 0 <= k < |p| - 1 && p[k] == '\r' && p[k + 1] == '\r' }

  // Every data line is clean, and all but the last end the message they belong to.
  predicate CleanData(data: seq<string>) {
    forall j :: 0 <= j < |data| ==> CleanLine(data[j]) && (j < |data| - 1 ==> Closes(data[j]))
  }

  predicate CleanFrames(frames: seq<Frame>) {
    forall i :: 0 <= i < |frames| && frames[i].Message? ==> CleanData(frames[i].data)
  }

  // Data lines free of LF, and comments free of LF and CR.
  predicate Framed(f: Frame) { FrameAvoids(f, '\n') && (f.Comment? ==> Avoids(f.text, '\r')) }

  predicate AllFramed(frames: seq<Frame>) { forall i :: 0 <= i < |frames| ==> Framed(frames[i]) }

  // ---------- The interpreter's lines ----------

  // The lines the interpreter sees in a line that ends with LF.
  function Pieces(p: string): seq<string>
    decreases |p|
  {
    var i := Find(p, '\r');
    if i + 1 >= |p| then [p[..i]] else [p[..i]] + Pieces(p[i + 1..])
  }

  function AllPieces(lines: seq<string>): seq<string> {
    if lines == [] then [] else Pieces(lines[0]) + AllPieces(lines[1..])
  }

  lemma LineEndIs(text: string, i: nat)
    requires i < |text| && (text[i] == '\n' || text[i] == '\r')
    requires forall k :: 0 <= k < i ==> text[k] != '\n' && text[k] != '\r'
    ensures LineEnd(text) == i
  {
  }

  function AfterBreak(text: string, i: nat): (next: nat)
    requires i < |text|
    ensures i < next <= |text|
  {
    if text[i] == '\r' && i + 1 < |text| && text[i + 1] == '\n' then i + 2 else i + 1
  }

  lemma EventLinesUnfold(text: string)
    requires LineEnd(text) < |text|
    ensures EventLines(text) == [text[..LineEnd(text)]] + EventLines(text[AfterBreak(text, LineEnd(text))..])
  {
    hide LineEnd;
  }

  lemma EventLinesCut(text: string, i: nat)
    requires i < |text| && (text[i] == '\n' || text[i] == '\r')
    requires forall k :: 0 <= k < i ==> text[k] != '\n' && text[k] != '\r'
    ensures EventLines(text) == [text[..i]] + EventLines(text[AfterBreak(text, i)..])
  {
    hide EventLines, LineEnd, AfterBreak;
    LineEndIs(text, i);
    EventLinesUnfold(text);
  }

  lemma {:induction false} EventLinesOfLine(p: string, more: string)
    requires Avoids(p, '\n')
    ensures EventLines(p + "\n" + more) == Pieces(p) + EventLines(more)
    decreases |p|
  {
    hide EventLines, Find;
    var text, i := p + "\n" + more, Find(p, '\r');
    assert forall k :: 0 <= k < |p| ==> text[k] == p[k];
    assert text[|p|] == '\n';
    EventLinesCut(text, i);
    assert text[..i] == p[..i];
    if i + 1 >= |p| {
      assert text[|p| + 1..] == more;
    } else {
      var tail := p[i + 1..];
      assert text[i + 1..] == tail + "\n" + more;
      EventLinesOfLine(tail, more);
      Associate([p[..i]], Pieces(tail), EventLines(more));
    }
  }

  lemma {:induction false} EventLinesOfLines(lines: seq<string>)
    requires forall i :: 0 <= i < |lines| ==> Avoids(lines[i], '\n')
    ensures EventLines(Unlines(lines)) == AllPieces(lines)
  {
    hide EventLines, Pieces;
    NoEventLines();
    if lines != [] {
      EventLinesOfLine(lines[0], Unlines(lines[1..]));
      EventLinesOfLines(lines[1..]);
    }
  }

  lemma {:induction false} AllPiecesConcat(a: seq<string>, b: seq<string>)
    ensures AllPieces(a + b) == AllPieces(a) + AllPieces(b)
  {
    hide Pieces;
    if a == [] {
      assert a + b == b;
    } else {
      AllPiecesConcat(a[1..], b);
      assert (a + b)[1..] == a[1..] + b && (a + b)[0] == a[0];
      Associate(Pieces(a[0]), AllPieces(a[1..]), AllPieces(b));
    }
  }

  // What a data line adds after its first line.
  function Later(p: string): seq<string> {
    var i := Find(p, '\r');
    if i + 1 >= |p| then [] else Pieces(p[i + 1..])
  }

  lemma PiecesOfData(p: string)
    ensures Pieces("data: " + p) == ["data: " + Head(p)] + Later(p)
  {
    var line, i := "data: " + p, Find(p, '\r');
    FindAfterData(p);
    hide Find;
    assert line[..i + 6] == "data: " + p[..i];
    if i + 1 < |p| { assert line[i + 7..] == p[i + 1..]; }
  }

  lemma FindAfterData(p: string)
    ensures Find("data: " + p, '\r') == 6 + Find(p, '\r')
  {
    hide Find;
    var line, i := "data: " + p, Find(p, '\r');
    assert line[..i + 6] == "data: " + p[..i];
    assert Avoids("data: ", '\r') && Avoids(p[..i], '\r');
    FindIs(line, '\r', i + 6);
  }

  // ---------- White space ----------

  lemma {:induction false} TrimStartCut(s: string) returns (n: nat)
    ensures n <= |s| && TrimStart(s) == s[n..] && AllSpace(s[..n]) && (n < |s| ==> !Space(s[n]))
  {
    if s != [] && Space(s[0]) {
      n := TrimStartCut(s[1..]);
      n := n + 1;
      assert s[1..][n - 1..] == s[n..];
      forall i | 0 <= i < n ensures Space(s[i]) {
        if i > 0 { assert s[1..][..n - 1][i - 1] == s[i]; }
      }
    } else {
      n := 0;
      assert s[0..] == s;
    }
  }

  lemma {:induction false} TrimEndCut(s: string) returns (n: nat)
    ensures n <= |s| && TrimEnd(s) == s[..n] && AllSpace(s[n..]) && (n > 0 ==> !Space(s[n - 1]))
  {
    if s != [] && Space(s[|s| - 1]) {
      n := TrimEndCut(s[..|s| - 1]);
      assert s[..|s| - 1][..n] == s[..n];
      forall i | n <= i < |s| ensures Space(s[i]) {
        if i < |s| - 1 { assert s[..|s| - 1][n..][i - n] == s[i]; }
      }
    } else {
      n := |s|;
      assert s[..n] == s;
    }
  }

  // Trimming cuts a text at its first and after its last other character.
  lemma TrimCuts(s: string) returns (lo: nat, hi: nat)
    ensures lo <= hi <= |s| && Trim(s) == s[lo..hi]
    ensures lo < hi ==> !Space(s[lo]) && !Space(s[hi - 1])
    ensures forall i :: 0 <= i < |s| && (i < lo || i >= hi) ==> Space(s[i])
  {
    hide Space, TrimStart, TrimEnd;
    lo := TrimStartCut(s);
    var n := TrimEndCut(s[lo..]);
    hi := lo + n;
    assert s[lo..][..n] == s[lo..hi];
    forall i | 0 <= i < |s| && (i < lo || i >= hi) ensures Space(s[i]) {
      if i < lo { assert s[..lo][i] == s[i]; } else { assert s[lo..][n..][i - hi] == s[i]; }
    }
  }

  lemma TrimUnique(s: string, lo: nat, hi: nat)
    requires lo < hi <= |s| && !Space(s[lo]) && !Space(s[hi - 1])
    requires forall i :: 0 <= i < |s| && (i < lo || i >= hi) ==> Space(s[i])
    ensures Trim(s) == s[lo..hi]
  {
    hide Space, Trim;
    var l, h := TrimCuts(s);
  }

  // A CR between two characters that are not white space survives trimming.
  ghost predicate CRInside(s: string) {
    exists a, k, c :: 0 <= a < k < c < |s| && !Space(s[a]) && s[k] == '\r' && !Space(s[c])
  }

  lemma TrimKeepsCR(s: string)
    requires CRInside(s)
    ensures !Avoids(Trim(s), '\r')
  {
    hide Space, Trim;
    var a, k, c :| 0 <= a < k < c < |s| && !Space(s[a]) && s[k] == '\r' && !Space(s[c]);
    var lo, hi := TrimCuts(s);
    assert s[lo..hi][k - lo] == '\r';
  }

  lemma CRInsideShifts(p: string, s: string, d: nat)
    requires d + |p| <= |s| && s[d..d + |p|] == p
    ensures CRInside(p) ==> CRInside(s)
  {
    hide Space;
    if CRInside(p) {
      var a, k, c :| 0 <= a < k < c < |p| && !Space(p[a]) && p[k] == '\r' && !Space(p[c]);
      assert s[d + a] == p[a] && s[d + k] == p[k] && s[d + c] == p[c];
    }
  }

  lemma NoCRInTail(p: string, i: nat)
    requires i < |p|
    ensures CRInside(p[i + 1..]) ==> CRInside(p)
  {
    CRInsideShifts(p[i + 1..], p, i + 1);
  }

  // If no CR stands between other characters, the first CR after some starts white space.
  lemma SpaceAfterText(p: string, i: nat)
    requires i < |p| && p[i] == '\r' && !AllSpace(p[..i])
    ensures CRInside(p) || (AllSpace(p[i + 1..]) && AllSpace(p[i..]))
  {
    assert Space('\r') by { SpaceIsSpace(); }
    hide Space;
    var a :| 0 <= a < i && !Space(p[..i][a]);
    forall c | i <= c < |p| ensures Space(p[c]) || CRInside(p) {
      if !Space(p[c]) { assert !Space(p[a]) && p[i] == '\r' && !Space(p[c]); }
    }
  }

  lemma {:induction false} PiecesOfSpace(p: string)
    requires AllSpace(p)
    ensures forall i :: 0 <= i < |Pieces(p)| ==> AllSpace(Pieces(p)[i])
    decreases |p|
  {
    hide Find, Space;
    var i := Find(p, '\r');
    if i + 1 < |p| { PiecesOfSpace(p[i + 1..]); }
  }

  lemma LaterIsSpace(p: string)
    requires AllSpace(Rest(p))
    ensures forall i :: 0 <= i < |Later(p)| ==> AllSpace(Later(p)[i])
  {
    hide Find, Space, Pieces;
    var i := Find(p, '\r');
    if i + 1 < |p| {
      assert Rest(p)[1..] == p[i + 1..];
      PiecesOfSpace(p[i + 1..]);
    }
  }

  lemma ClosesLater(p: string)
    requires Find(p, '\r') + 1 < |p|
    ensures var tail := p[Find(p, '\r') + 1..]; Closes(p) <==> tail[0] == '\r' || Closes(tail)
  {
    hide Find;
    var i := Find(p, '\r');
    var tail := p[i + 1..];
    assert forall k :: 0 <= k < |tail| ==> tail[k] == p[i + 1 + k];
    if Closes(p) {
      var k :| 0 <= k < |p| - 1 && p[k] == '\r' && p[k + 1] == '\r';
      if k > i { assert tail[k - i - 1] == '\r' && tail[k - i] == '\r'; }
    }
    if Closes(tail) {
      var k :| 0 <= k < |tail| - 1 && tail[k] == '\r' && tail[k + 1] == '\r';
      assert p[i + 1 + k] == '\r' && p[i + 2 + k] == '\r';
    }
  }

  lemma LastCRClosesNothing(p: string)
    requires Find(p, '\r') + 1 >= |p|
    ensures !Closes(p)
  {
  }

  lemma {:induction false} BlankPieceIff(p: string)
    requires p != []
    ensures "" in Pieces(p) <==> p[0] == '\r' || Closes(p)
    decreases |p|
  {
    hide Find, Closes;
    var i := Find(p, '\r');
    assert i == 0 <==> p[0] == '\r';
    assert p[..i] == "" <==> i == 0;
    if i + 1 < |p| {
      BlankPieceIff(p[i + 1..]);
      ClosesLater(p);
      hide Pieces;
      FirstOrLater("", p[..i], Pieces(p[i + 1..]));
      PiecesFirst(p);
    } else {
      LastCRClosesNothing(p);
      assert Pieces(p) == [p[..i]];
    }
  }

  lemma PiecesFirst(p: string)
    requires Find(p, '\r') + 1 < |p|
    ensures Pieces(p) == [p[..Find(p, '\r')]] + Pieces(p[Find(p, '\r') + 1..])
  {
    hide Find;
  }

  lemma FirstOrLater(x: string, first: string, later: seq<string>)
    ensures x in [first] + later <==> x == first || x in later
  {
  }

  lemma LaterBlankIff(p: string)
    ensures "" in Later(p) <==> Closes(p)
  {
    hide Find, Pieces, Closes;
    if Find(p, '\r') + 1 < |p| {
      BlankPieceIff(p[Find(p, '\r') + 1..]);
      ClosesLater(p);
    } else {
      LastCRClosesNothing(p);
    }
  }

  // ---------- What a data line sends ----------

  lemma PayloadOfData(p: string)
    ensures Payload("data: " + p) == if Trim(" " + p) == [] then [] else [Trim(" " + p)]
  {
    hide Trim;
    assert ("data: " + p)[..5] == "data:" && ("data: " + p)[5..] == " " + p;
  }

  // What the scanner emits for any line: after data:, with or without a space, the text
  // without the white space around it, and nothing for white space alone or another line.
  lemma PayloadOfLine(line: string, left: string, text: string, right: string)
    requires AllSpace(left) && AllSpace(right) && text != [] && Trimmed(text)
    ensures Payload("data:" + (left + text + right)) == [text]
    ensures Payload("data:" + left) == []
    ensures !("data:" <= line) ==> Payload(line) == []
  {
    hide Space, Trim;
    var whole, n := left + text + right, |left|;
    assert ("data:" + whole)[..5] == "data:" && ("data:" + whole)[5..] == whole;
    assert ("data:" + left)[..5] == "data:" && ("data:" + left)[5..] == left;
    assert whole[n] == text[0] && whole[n + |text| - 1] == text[|text| - 1];
    forall i | 0 <= i < |whole| && (i < n || i >= n + |text|) ensures Space(whole[i]) {
      if i < n { assert whole[i] == left[i]; } else { assert whole[i] == right[i - n - |text|]; }
    }
    TrimUnique(whole, n, n + |text|);
    assert whole[n..n + |text|] == text;
    var lo, hi := TrimCuts(left);
    assert lo == hi;
  }

  lemma TextSends(p: string)
    requires !AllSpace(p)
    ensures |Payload("data: " + p)| == 1
    ensures CRInside(p) ==> !Avoids(Payload("data: " + p)[0], '\r')
  {
    hide Space, Trim, Payload, CRInside;
    PayloadOfData(p);
    var s := " " + p;
    var lo, hi := TrimCuts(s);
    var k :| 0 <= k < |p| && !Space(p[k]);
    assert s[k + 1] == p[k];
    if CRInside(p) {
      CRInsideAfterSpace(p);
      TrimKeepsCR(s);
    }
  }

  lemma CRInsideAfterSpace(p: string)
    requires CRInside(p)
    ensures CRInside(" " + p)
  {
    CRInsideShifts(p, " " + p, 1);
  }

  lemma CleanLineSends(p: string)
    requires CleanLine(p)
    ensures Payload("data: " + p) == [Head(p)]
  {
    hide Space, Trim, Payload, Find;
    PayloadOfData(p);
    var s, n := " " + p, |Head(p)|;
    assert Space(' ') by { SpaceIsSpace(); }
    forall i | n <= i < |p| ensures Space(p[i]) {
      assert p[i] == Rest(p)[i - n];
    }
    assert p[0] == Head(p)[0] && p[n - 1] == Head(p)[n - 1];
    TrimUnique(s, 1, n + 1);
    assert s[1..n + 1] == Head(p);
  }

  lemma SpaceIsSpace()
    ensures Space(' ') && Space('\r')
  {
  }
}
