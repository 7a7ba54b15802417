// The hand-written list parsers of the configuration loader
// (backend/internal/config/config.go): getSlice and parseThresholds. Strings are Go byte
// strings, one character per byte.
module Config {
  import opened Text

  const MAX_INT64 := 0x7fff_ffff_ffff_ffff

  // ---------- What the loops compute ----------

  // The stretches of s between commas: one more than there are commas.
  function Pieces(s: string): (p: seq<string>)
    ensures p != []
    decreases |s|
  {
    var i := Find(s, ',');
    if i == |s| then [s] else [s[..i]] + Pieces(s[i + 1..])
  }

  function StripLeft(s: string): string { if s != [] && s[0] == ' ' then StripLeft(s[1..]) else s }

  function StripRight(s: string): string {
    if s != [] && s[|s| - 1] == ' ' then StripRight(s[..|s| - 1]) else s
  }

  function Strip(s: string): string { StripRight(StripLeft(s)) }

  // strconv.ParseInt(s, 10, 64), None standing for a syntax or range error.
  function ParseInt(s: string): Option<int> {
    var negative := s != [] && s[0] == '-';
    var digits := if s != [] && (s[0] == '-' || s[0] == '+') then s[1..] else s;
    if digits == [] || !AllDigits(digits) then None
    else
      var n: int := Value(digits);
      if negative then (if n <= MAX_INT64 + 1 then Some(-n) else None)
      else if n <= MAX_INT64 then Some(n) else None
  }

  // The threshold an entry contributes, after trimming.
  function Entry(item: string): map<string, int> {
    var colon := Find(item, ':');
    if colon == 0 || colon >= |item| - 1 then map[]
    else
      var amount := ParseInt(item[colon + 1..]);
      if amount.None? || amount.value < 0 then map[] else map[item[..colon] := amount.value]
  }

  // The entries in order, later ones overriding earlier ones.
  function Collect(pieces: seq<string>): map<string, int> {
    if pieces == [] then map[]
    else Collect(pieces[..|pieces| - 1]) + Entry(Strip(pieces[|pieces| - 1]))
  }

  function Thresholds(raw: string): map<string, int> { Collect(Pieces(raw)) }

  function NonEmpty(pieces: seq<string>): seq<string> {
    if pieces == [] then []
    else NonEmpty(pieces[..|pieces| - 1]) +
         (if Strip(pieces[|pieces| - 1]) == [] then [] else [Strip(pieces[|pieces| - 1])])
  }

  function Items(v: string): seq<string> { NonEmpty(Pieces(v)) }

  // ---------- The loops ----------

  predicate NoComma(s: string, lo: nat, hi: nat)
    requires hi <= |s|
  {
    forall k :: lo <= k < hi ==> s[k] != ','
  }

  lemma PieceAt(s: string, start: nat, i: nat)
    requires start <= i <= |s| && NoComma(s, start, i) && (i < |s| ==> s[i] == ',')
    ensures Pieces(s[start..]) == if i == |s| then [s[start..]] else [s[start..i]] + Pieces(s[i + 1..])
  {
    hide Pieces, Find;
    var rest := s[start..];
    forall k | 0 <= k < i - start ensures rest[k] != ',' {
      assert rest[k] == s[start + k];
    }
    FirstPiece(rest, i - start);
    if i < |s| { SliceAt(s, start, i); }
  }

  lemma FirstPiece(s: string, i: nat)
    requires i <= |s| && (i < |s| ==> s[i] == ',') && forall k :: 0 <= k < i ==> s[k] != ','
    ensures Pieces(s) == if i == |s| then [s] else [s[..i]] + Pieces(s[i + 1..])
  {
    hide Find;
    assert Find(s, ',') == i;
  }

  // The loops have dealt with the pieces in `done`, and the text from `start` on is left.
  ghost predicate Remaining(s: string, start: nat, done: seq<string>) {
    done + (if start <= |s| then Pieces(s[start..]) else []) == Pieces(s)
  }

  lemma NextPiece(s: string, start: nat, i: nat, done: seq<string>)
    requires start <= i <= |s| && NoComma(s, start, i) && (i < |s| ==> s[i] == ',')
    requires Remaining(s, start, done)
    ensures Remaining(s, i + 1, done + [s[start..i]])
    ensures Collect(done + [s[start..i]]) == Collect(done) + Entry(Strip(s[start..i]))
    ensures NonEmpty(done + [s[start..i]])
         == NonEmpty(done) + if Strip(s[start..i]) == [] then [] else [Strip(s[start..i])]
  {
    hide Pieces, Find, Collect, NonEmpty;
    PieceAt(s, start, i);
    var item := s[start..i];
    OnePieceMore(done, item);
    if i == |s| {
      assert s[start..] == item && done + [item] + [] == done + [item];
    } else {
      assert done + ([item] + Pieces(s[i + 1..])) == (done + [item]) + Pieces(s[i + 1..]);
    }
  }

  lemma OnePieceMore(done: seq<string>, item: string)
    ensures Collect(done + [item]) == Collect(done) + Entry(Strip(item))
    ensures NonEmpty(done + [item]) == NonEmpty(done) + if Strip(item) == [] then [] else [Strip(item)]
  {
    hide Strip, Entry;
    assert (done + [item])[..|done + [item]| - 1] == done;
  }

  // The two trimming loops both parsers contain.
  method TrimSpaces(s: string) returns (item: string)
    ensures item == Strip(s)
  {
    item := s;
    while |item| > 0 && item[0] == ' '
      invariant StripLeft(item) == StripLeft(s)
    {
      item := item[1..];
    }
    while |item| > 0 && item[|item| - 1] == ' '
      invariant StripRight(item) == StripRight(StripLeft(s))
    {
      item := item[..|item| - 1];
    }
  }

  method ParseEntry(item: string, before: map<string, int>) returns (out: map<string, int>)
    ensures out == before + Entry(item)
  {
    hide Find, ParseInt;
    out := before;
    if item == "" {
      assert Find(item, ':') == 0;
      return;
    }
    var colon := -1;
    var j := 0;
    while j < |item|
      invariant 0 <= j <= |item| && colon == -1
      invariant forall k :: 0 <= k < j ==> item[k] != ':'
    {
      if item[j] == ':' {
        colon := j;
        break;
      }
      j := j + 1;
    }
    assert Find(item, ':') == if colon == -1 then |item| else colon;
    if colon <= 0 || colon == |item| - 1 { return; }
    var currency := item[..colon];
    var amount := ParseInt(item[colon + 1..]);
    if amount.None? || amount.value < 0 { return; }
    out := out[currency := amount.value];
  }

  lemma StartOfLoop(s: string)
    ensures Remaining(s, 0, []) && Collect([]) == map[] && NonEmpty([]) == []
  {
    assert s[0..] == s && [] + Pieces(s) == Pieces(s);
  }

  lemma EndOfLoop(s: string, start: nat, done: seq<string>)
    requires start == |s| + 1 && Remaining(s, start, done)
    ensures done == Pieces(s)
  {
    hide Pieces;
    assert done + [] == done;
  }

  method ParseThresholds(raw: string) returns (out: map<string, int>)
    ensures out == Thresholds(raw)
  {
    hide Strip, Entry, Pieces, Collect, Remaining;
    out := map[];
    StartOfLoop(raw);
    if raw == "" {
      EmptyText();
      return;
    }
    var start: nat := 0;
    ghost var done: seq<string> := [];
    for i := 0 to |raw| + 1
      invariant start <= |raw| + 1 && (start == |raw| + 1 <==> i == |raw| + 1)
      invariant start <= |raw| ==> start <= i && NoComma(raw, start, i)
      invariant Remaining(raw, start, done)
      invariant out == Collect(done)
    {
      if i != |raw| && raw[i] != ',' { continue; }
      NextPiece(raw, start, i, done);
      var item := raw[start..i];
      done := done + [item];
      start := i + 1;
      item := TrimSpaces(item);
      out := ParseEntry(item, out);
    }
    EndOfLoop(raw, start, done);
  }

  lemma EmptyText()
    ensures Thresholds("") == map[] && Items("") == []
  {
    var p: seq<string> := [""];
    assert Pieces("") == p && p[..0] == [] && Strip("") == "";
    assert Collect(p) == Collect([]) + Entry("") == map[];
    assert NonEmpty(p) == NonEmpty([]) + [] == [];
  }

  // `env` is the value of the environment variable, None if it is not set.
  method GetSlice(env: Option<string>, fallback: seq<string>) returns (r: seq<string>)
    ensures r == if env.Some? && Items(env.value) != [] then Items(env.value) else fallback
  {
    hide Strip, Pieces, NonEmpty, Remaining;
    EmptyText();
    if env.Some? && env.value != "" {
      var v := env.value;
      var out: seq<string> := [];
      var start: nat := 0;
      ghost var done: seq<string> := [];
      StartOfLoop(v);
      for i := 0 to |v| + 1
        invariant start <= |v| + 1 && (start == |v| + 1 <==> i == |v| + 1)
        invariant start <= |v| ==> start <= i && NoComma(v, start, i)
        invariant Remaining(v, start, done)
        invariant out == NonEmpty(done)
      {
        if i == |v| || v[i] == ',' {
          NextPiece(v, start, i, done);
          done := done + [v[start..i]];
          var item := TrimSpaces(v[start..i]);
          if item != "" { out := out + [item]; }
          start := i + 1;
        }
      }
      EndOfLoop(v, start, done);
      if |out| > 0 { return out; }
    }
    return fallback;
  }

  // ---------- Composition ----------

  lemma {:induction false} PiecesOfConcat(a: string, b: string)
    ensures Pieces(a + "," + b) == Pieces(a) + Pieces(b)
    decreases |a|
  {
    hide Pieces, Find;
    var s := a + "," + b;
    var i := Find(a, ',');
    FirstPiece(a, i);
    assert forall k :: 0 <= k < i ==> s[k] == a[k];
    assert s[i] == ',';
    FirstPiece(s, i);
    if i == |a| {
      assert s[..i] == a && s[i + 1..] == b;
    } else {
      assert s[..i] == a[..i] && s[i + 1..] == a[i + 1..] + "," + b;
      PiecesOfConcat(a[i + 1..], b);
    }
  }

  lemma {:induction false} CollectConcat(x: seq<string>, y: seq<string>)
    ensures Collect(x + y) == Collect(x) + Collect(y)
    decreases |y|
  {
    hide Strip, Entry;
    if y == [] {
      assert x + y == x;
    } else {
      assert (x + y)[..|x + y| - 1] == x + y[..|y| - 1];
      CollectConcat(x, y[..|y| - 1]);
    }
  }

  lemma {:induction false} NonEmptyConcat(x: seq<string>, y: seq<string>)
    ensures NonEmpty(x + y) == NonEmpty(x) + NonEmpty(y)
    decreases |y|
  {
    hide Strip;
    if y == [] {
      assert x + y == x;
    } else {
      assert (x + y)[..|x + y| - 1] == x + y[..|y| - 1];
      NonEmptyConcat(x, y[..|y| - 1]);
    }
  }

  // Parsing a list of lists is parsing each and letting the later override the earlier.
  lemma ThresholdsCompose(a: string, b: string)
    ensures Thresholds(a + "," + b) == Thresholds(a) + Thresholds(b)
  {
    PiecesOfConcat(a, b);
    CollectConcat(Pieces(a), Pieces(b));
  }

  // An entry that contributes nothing can be anywhere without affecting any other.
  lemma MalformedEntryIsIgnored(a: string, bad: string, b: string)
    requires Thresholds(bad) == map[]
    ensures Thresholds(a + "," + bad + "," + b) == Thresholds(a + "," + b)
  {
    ThresholdsCompose(a + "," + bad, b);
    ThresholdsCompose(a, bad);
    ThresholdsCompose(a, b);
  }

  lemma ItemsCompose(a: string, b: string)
    ensures Items(a + "," + b) == Items(a) + Items(b)
  {
    PiecesOfConcat(a, b);
    NonEmptyConcat(Pieces(a), Pieces(b));
  }

  // ---------- Trimming ----------

  function Spaces(n: nat): string { if n == 0 then [] else " " + Spaces(n - 1) }

  lemma {:induction false} StripLeftSpaces(n: nat, s: string)
    requires s == [] || s[0] != ' '
    ensures StripLeft(Spaces(n) + s) == s
  {
    if n == 0 {
      assert Spaces(n) + s == s;
    } else {
      StripLeftSpaces(n - 1, s);
      assert (Spaces(n) + s)[1..] == Spaces(n - 1) + s;
    }
  }

  lemma {:induction false} SpacesEnd(n: nat)
    ensures Spaces(n + 1) == Spaces(n) + " "
  {
    if n > 0 { SpacesEnd(n - 1); }
  }

  lemma StripRightNothing(s: string)
    requires s == [] || s[|s| - 1] != ' '
    ensures StripRight(s) == s
  {
  }

  lemma StripRightSpace(s: string)
    ensures StripRight(s + " ") == StripRight(s)
  {
    assert (s + " ")[..|s|] == s;
  }

  lemma {:induction false} StripRightSpaces(n: nat, s: string)
    requires s == [] || s[|s| - 1] != ' '
    ensures StripRight(s + Spaces(n)) == s
  {
    hide StripRight;
    if n == 0 {
      assert s + Spaces(n) == s;
      StripRightNothing(s);
    } else {
      StripRightSpaces(n - 1, s);
      SpacesEnd(n - 1);
      hide Spaces;
      StripRightSpace(s + Spaces(n - 1));
      assert s + Spaces(n) == (s + Spaces(n - 1)) + " ";
    }
  }

  lemma StripPadding(left: nat, s: string, right: nat)
    requires s != [] && s[0] != ' ' && s[|s| - 1] != ' '
    ensures Strip(Spaces(left) + s + Spaces(right)) == s
  {
    assert Spaces(left) + s + Spaces(right) == Spaces(left) + (s + Spaces(right));
    assert (s + Spaces(right))[0] == s[0];
    StripLeftSpaces(left, s + Spaces(right));
    StripRightSpaces(right, s);
  }

  lemma {:induction false} StripLeftFacts(s: string)
    ensures var t := StripLeft(s);
            (t == [] || t[0] != ' ') && forall c :: Avoids(s, c) ==> Avoids(t, c)
  {
    if s != [] && s[0] == ' ' {
      StripLeftFacts(s[1..]);
      forall c | Avoids(s, c) ensures Avoids(s[1..], c) {}
    }
  }

  lemma {:induction false} StripRightFacts(s: string)
    ensures var t := StripRight(s);
            && t <= s && (t == [] || t[|t| - 1] != ' ') && forall c :: Avoids(s, c) ==> Avoids(t, c)
  {
    if s != [] && s[|s| - 1] == ' ' {
      StripRightFacts(s[..|s| - 1]);
      forall c | Avoids(s, c) ensures Avoids(s[..|s| - 1], c) {}
    }
  }

  lemma StripFacts(s: string)
    ensures var t := Strip(s);
            && (t == [] || (t[0] != ' ' && t[|t| - 1] != ' ')) && forall c :: Avoids(s, c) ==> Avoids(t, c)
  {
    StripLeftFacts(s);
    StripRightFacts(StripLeft(s));
  }

  lemma {:induction false} PiecesHaveNoComma(s: string)
    ensures forall i :: 0 <= i < |Pieces(s)| ==> Avoids(Pieces(s)[i], ',')
    decreases |s|
  {
    var i := Find(s, ',');
    if i < |s| { PiecesHaveNoComma(s[i + 1..]); }
  }

  // ---------- Which maps can be parsed, and how to print them ----------

  predicate GoodKey(key: string) {
    key != [] && Avoids(key, ',') && Avoids(key, ':') && key[0] != ' '
  }

  ghost predicate GoodMap(m: map<string, int>) {
    forall key :: key in m ==> GoodKey(key) && 0 <= m[key] <= MAX_INT64
  }

  lemma EntryIsGood(item: string)
    requires Avoids(item, ',') && (item == [] || item[0] != ' ')
    ensures GoodMap(Entry(item))
  {
    var colon := Find(item, ':');
    if 0 < colon < |item| {
      assert item[..colon][0] == item[0];
      assert Avoids(item[..colon], ',') && Avoids(item[..colon], ':');
    }
  }

  lemma {:induction false} CollectIsGood(pieces: seq<string>)
    requires forall i :: 0 <= i < |pieces| ==> Avoids(pieces[i], ',')
    ensures GoodMap(Collect(pieces))
  {
    if pieces != [] {
      var n := |pieces| - 1;
      CollectIsGood(pieces[..n]);
      StripFacts(pieces[n]);
      EntryIsGood(Strip(pieces[n]));
    }
  }

  // Whatever the input, every parsed key is non-empty, free of commas and colons and does
  // not start with a space, and every parsed amount fits a non-negative int64.
  lemma ParsedMapIsGood(raw: string)
    ensures GoodMap(Thresholds(raw))
  {
    PiecesHaveNoComma(raw);
    CollectIsGood(Pieces(raw));
  }

  // One printed entry: CCC:N with any number of spaces on either side.
  datatype Printed = Printed(key: string, amount: nat, left: nat, right: nat)

  function PrintEntry(e: Printed): string {
    Spaces(e.left) + (e.key + ":" + Decimal(e.amount)) + Spaces(e.right)
  }

  function Print(entries: seq<Printed>): string {
    if entries == [] then []
    else if |entries| == 1 then PrintEntry(entries[0])
    else Print(entries[..|entries| - 1]) + "," + PrintEntry(entries[|entries| - 1])
  }

  lemma ParseIntDecimal(n: nat)
    requires n <= MAX_INT64
    ensures ParseInt(Decimal(n)) == Some(n)
  {
    ValueDecimal(n);
    assert IsDigit(Decimal(n)[0]);
  }

  lemma EntryOfPrinted(key: string, n: nat)
    requires GoodKey(key) && n <= MAX_INT64
    ensures Entry(key + ":" + Decimal(n)) == map[key := n]
  {
    var item := key + ":" + Decimal(n);
    assert forall k :: 0 <= k < |key| ==> item[k] == key[k];
    assert item[|key|] == ':';
    assert Find(item, ':') == |key|;
    assert item[..|key|] == key && item[|key| + 1..] == Decimal(n);
    ParseIntDecimal(n);
  }

  lemma {:induction false} SpacesAvoidComma(n: nat)
    ensures Avoids(Spaces(n), ',')
  {
    if n > 0 { SpacesAvoidComma(n - 1); }
  }

  lemma ThresholdsOfPrintedEntry(e: Printed)
    requires GoodKey(e.key) && e.amount <= MAX_INT64
    ensures Thresholds(PrintEntry(e)) == map[e.key := e.amount]
  {
    var item := e.key + ":" + Decimal(e.amount);
    var text := PrintEntry(e);
    SpacesAvoidComma(e.left);
    SpacesAvoidComma(e.right);
    assert item[0] == e.key[0] && IsDigit(item[|item| - 1]);
    assert Avoids(Decimal(e.amount), ',') by {
      forall k | 0 <= k < |Decimal(e.amount)| ensures Decimal(e.amount)[k] != ',' {
        assert IsDigit(Decimal(e.amount)[k]);
      }
    }
    StripPadding(e.left, item, e.right);
    EntryOfPrinted(e.key, e.amount);
    ThresholdsOfOne(text);
  }

  lemma ThresholdsOfOne(piece: string)
    requires Avoids(piece, ',')
    ensures Thresholds(piece) == Entry(Strip(piece))
  {
    FirstPiece(piece, |piece|);
    assert [piece][..0] == [];
    assert Collect([]) == map[];
  }

  // ---------- What a single entry means ----------

  function Signed(sign: string, digits: string): int
    requires AllDigits(digits)
  {
    var n: int := Value(digits);
    if sign == "-" then -n else n
  }

  // The text of an entry: spaces, a key, a colon, an optional sign and digits, spaces.
  // `n` is the amount; its sign may be negative only if the digits are zeros.
  ghost predicate EntryParts(text: string, left: nat, key: string, sign: string, digits: string, right: nat, n: int) {
    && text == Spaces(left) + (key + ":" + sign + digits) + Spaces(right)
    && key != [] && Avoids(key, ':') && key[0] != ' '
    && sign in ["", "+", "-"] && digits != [] && AllDigits(digits)
    && n == Signed(sign, digits) && 0 <= n <= MAX_INT64
  }

  ghost predicate Denotes(text: string, key: string, n: int) {
    exists left, sign, digits, right :: EntryParts(text, left, key, sign, digits, right, n)
  }

  lemma ParseIntSigned(sign: string, digits: string)
    requires sign in ["", "+", "-"] && digits != [] && AllDigits(digits)
    ensures var n := Signed(sign, digits);
            0 <= n <= MAX_INT64 ==> ParseInt(sign + digits) == Some(n)
  {
    hide Value;
    assert IsDigit(digits[0]);
    if sign == "" { assert sign + digits == digits; } else { assert (sign + digits)[1..] == digits; }
  }

  lemma ParseIntParts(s: string) returns (sign: string, digits: string)
    requires ParseInt(s).Some?
    ensures s == sign + digits && sign in ["", "+", "-"] && digits != [] && AllDigits(digits)
    ensures ParseInt(s).value == Signed(sign, digits)
  {
    hide Value;
    if s[0] == '-' || s[0] == '+' {
      sign, digits := [s[0]], s[1..];
      assert s == sign + digits;
    } else {
      sign, digits := "", s;
      assert "" + s == s;
    }
  }

  lemma ParseIntFits(s: string)
    ensures ParseInt(s).Some? ==> ParseInt(s).value <= MAX_INT64
  {
  }

  lemma {:induction false} StripLeftCuts(s: string) returns (n: nat)
    ensures s == Spaces(n) + StripLeft(s)
  {
    if s != [] && s[0] == ' ' {
      n := StripLeftCuts(s[1..]);
      n := n + 1;
      assert s == " " + s[1..];
    } else {
      n := 0;
    }
  }

  lemma {:induction false} StripRightCuts(s: string) returns (n: nat)
    ensures s == StripRight(s) + Spaces(n)
  {
    if s != [] && s[|s| - 1] == ' ' {
      n := StripRightCuts(s[..|s| - 1]);
      SpacesEnd(n);
      n := n + 1;
      assert s == s[..|s| - 1] + " ";
    } else {
      n := 0;
    }
  }

  lemma StripCuts(s: string) returns (left: nat, right: nat)
    ensures s == Spaces(left) + Strip(s) + Spaces(right)
  {
    left := StripLeftCuts(s);
    right := StripRightCuts(StripLeft(s));
    assert Spaces(left) + (Strip(s) + Spaces(right)) == Spaces(left) + Strip(s) + Spaces(right);
  }

  lemma SplitAtColon(key: string, rest: string)
    requires Avoids(key, ':')
    ensures var item := key + ":" + rest;
            Find(item, ':') == |key| && item[..|key|] == key && item[|key| + 1..] == rest
  {
    var item := key + ":" + rest;
    assert item[..|key|] == key;
    FindIs(item, ':', |key|);
  }

  lemma PartsGiveEntry(text: string, left: nat, key: string, sign: string, digits: string, right: nat, n: int)
    requires EntryParts(text, left, key, sign, digits, right, n)
    ensures Entry(Strip(text)) == map[key := n]
  {
    hide Value, Find, ParseInt, Strip, Spaces;
    var item := key + ":" + (sign + digits);
    assert item == key + ":" + sign + digits;
    assert item[0] == key[0] && item[|item| - 1] == digits[|digits| - 1] && IsDigit(digits[|digits| - 1]);
    StripPadding(left, item, right);
    SplitAtColon(key, sign + digits);
    ParseIntSigned(sign, digits);
  }

  lemma EntryGivesParts(text: string) returns (key: string, n: int)
    requires Entry(Strip(text)) != map[]
    ensures Denotes(text, key, n) && Entry(Strip(text)) == map[key := n]
  {
    hide Value, ParseInt, Strip, Spaces;
    var item, colon := Strip(text), Find(Strip(text), ':');
    hide Find;
    var left, right := StripCuts(text);
    StripFacts(text);
    key := item[..colon];
    n := ParseInt(item[colon + 1..]).value;
    var sign, digits := ParseIntParts(item[colon + 1..]);
    ParseIntFits(item[colon + 1..]);
    assert item == key + ":" + (sign + digits);
    assert key + ":" + (sign + digits) == key + ":" + sign + digits;
    assert key[0] == item[0];
    assert EntryParts(text, left, key, sign, digits, right, n);
  }

  // A text without a comma parses to one threshold exactly when it is a well-formed entry
  // for it, and to nothing exactly when it is no well-formed entry: without a colon, with
  // nothing before or after it, or with an amount that is not a number, negative, or too
  // large for an int64.
  lemma ThresholdsOfOneIff(text: string)
    requires Avoids(text, ',')
    ensures forall key, n :: Thresholds(text) == map[key := n] <==> Denotes(text, key, n)
    ensures Thresholds(text) == map[] <==> forall key, n :: !Denotes(text, key, n)
  {
    hide Entry, Strip, Thresholds, Denotes;
    ThresholdsOfOne(text);
    forall key, n | Denotes(text, key, n) ensures Thresholds(text) == map[key := n] != map[] {
      DenotedIsParsed(text, key, n);
    }
    if Thresholds(text) != map[] {
      var key, n := EntryGivesParts(text);
      forall k, m | Thresholds(text) == map[k := m] ensures Denotes(text, k, m) {
        SingleEntry(key, n, k, m);
      }
    } else {
      forall k: string, m: int ensures map[k := m] != map[] {
        assert k in map[k := m];
      }
    }
  }

  lemma DenotedIsParsed(text: string, key: string, n: int)
    requires Denotes(text, key, n)
    ensures Entry(Strip(text)) == map[key := n] != map[]
  {
    assert key in map[key := n];
    var left, sign, digits, right :| EntryParts(text, left, key, sign, digits, right, n);
    PartsGiveEntry(text, left, key, sign, digits, right, n);
  }

  lemma SingleEntry(a: string, m: int, b: string, n: int)
    requires map[a := m] == map[b := n]
    ensures a == b && m == n
  {
    assert b in map[a := m];
    assert map[b := n][b] == n;
  }

  // The entries list the map: in any order, any of them more than once.
  ghost predicate Lists(entries: seq<Printed>, m: map<string, int>) {
    && (forall i :: 0 <= i < |entries| ==> entries[i].key in m && m[entries[i].key] == entries[i].amount)
    && (forall key :: key in m ==> exists i :: 0 <= i < |entries| && entries[i].key == key)
  }

  function Keys(entries: seq<Printed>): set<string> {
    if entries == [] then {} else Keys(entries[..|entries| - 1]) + {entries[|entries| - 1].key}
  }

  lemma {:induction false} KeysMembers(entries: seq<Printed>)
    ensures forall i :: 0 <= i < |entries| ==> entries[i].key in Keys(entries)
    ensures forall key :: key in Keys(entries) ==> exists i :: 0 <= i < |entries| && entries[i].key == key
  {
    if entries != [] { KeysMembers(entries[..|entries| - 1]); }
  }

  lemma {:induction false} ThresholdsOfPrint(entries: seq<Printed>, m: map<string, int>)
    requires GoodMap(m)
    requires forall i :: 0 <= i < |entries| ==> entries[i].key in m && m[entries[i].key] == entries[i].amount
    ensures var t := Thresholds(Print(entries));
            t.Keys == Keys(entries) && forall key :: key in t ==> key in m && t[key] == m[key]
    decreases |entries|
  {
    hide Thresholds, PrintEntry;
    if entries == [] {
      EmptyText();
    } else {
      var n := |entries| - 1;
      var init, last := entries[..n], entries[n];
      ThresholdsOfPrintedEntry(last);
      if n == 0 {
        assert init == [];
      } else {
        ThresholdsOfPrint(init, m);
        ThresholdsCompose(Print(init), PrintEntry(last));
      }
    }
  }

  // Printing a map, its entries in any order and padded with any spaces, and parsing the
  // text gives the map back.
  lemma PrintThenParse(m: map<string, int>, entries: seq<Printed>)
    requires GoodMap(m) && Lists(entries, m)
    ensures Thresholds(Print(entries)) == m
  {
    ThresholdsOfPrint(entries, m);
    KeysMembers(entries);
    var t := Thresholds(Print(entries));
    forall key ensures key in t <==> key in m {
      if key in m {
        var i :| 0 <= i < |entries| && entries[i].key == key;
      }
    }
  }

  lemma ListsOneMore(others: seq<Printed>, m: map<string, int>, key: string)
    requires GoodMap(m) && key in m && Lists(others, m - {key})
    ensures Lists(others + [Printed(key, m[key], 0, 0)], m)
  {
    var entries := others + [Printed(key, m[key], 0, 0)];
    forall k | k in m ensures exists i :: 0 <= i < |entries| && entries[i].key == k {
      if k == key {
        assert entries[|others|].key == k;
      } else {
        assert k in m - {key};
        var i :| 0 <= i < |others| && others[i].key == k;
        assert entries[i].key == k;
      }
    }
  }

  lemma {:induction false} Enumerate(m: map<string, int>) returns (entries: seq<Printed>)
    requires GoodMap(m)
    ensures Lists(entries, m)
    decreases |m|
  {
    hide GoodKey;
    if m == map[] {
      entries := [];
    } else {
      var key :| key in m;
      var rest := m - {key};
      assert |rest| == |m| - 1;
      var others := Enumerate(rest);
      entries := others + [Printed(key, m[key], 0, 0)];
      ListsOneMore(others, m, key);
    }
  }

  // So the parseable maps are exactly the good ones.
  lemma ParseableIffGood(m: map<string, int>)
    ensures (exists raw :: Thresholds(raw) == m) <==> GoodMap(m)
  {
    if GoodMap(m) {
      var entries := Enumerate(m);
      PrintThenParse(m, entries);
    }
    forall raw | Thresholds(raw) == m ensures GoodMap(m) {
      ParsedMapIsGood(raw);
    }
  }

  // ---------- Lists of items ----------

  predicate GoodItem(item: string) {
    item != [] && Avoids(item, ',') && item[0] != ' ' && item[|item| - 1] != ' '
  }

  lemma {:induction false} NonEmptyIsGood(pieces: seq<string>)
    requires forall i :: 0 <= i < |pieces| ==> Avoids(pieces[i], ',')
    ensures forall i :: 0 <= i < |NonEmpty(pieces)| ==> GoodItem(NonEmpty(pieces)[i])
  {
    if pieces != [] {
      NonEmptyIsGood(pieces[..|pieces| - 1]);
      StripFacts(pieces[|pieces| - 1]);
    }
  }

  // An item with spaces around it is that item, and spaces alone are none.
  lemma ItemsOfPadded(left: nat, item: string, right: nat)
    requires GoodItem(item)
    ensures Items(Spaces(left) + item + Spaces(right)) == [item]
    ensures Items(Spaces(left)) == []
  {
    hide Strip;
    var text := Spaces(left) + item + Spaces(right);
    StripPadding(left, item, right);
    SpacesAvoidComma(left);
    SpacesAvoidComma(right);
    ItemsOfPiece(text);
    ItemsOfPiece(Spaces(left));
    StripSpaces(left);
  }

  lemma ItemsOfPiece(text: string)
    requires Avoids(text, ',')
    ensures Items(text) == if Strip(text) == [] then [] else [Strip(text)]
  {
    hide Strip;
    FirstPiece(text, |text|);
    assert [text][..0] == [] && NonEmpty([]) == [];
  }

  lemma StripSpaces(n: nat)
    ensures Strip(Spaces(n)) == []
  {
    StripLeftSpaces(n, []);
    assert Spaces(n) + [] == Spaces(n);
  }

  lemma ItemsOfOne(item: string)
    requires GoodItem(item)
    ensures Items(item) == [item]
  {
    ItemsOfPadded(0, item, 0);
    assert Spaces(0) + item + Spaces(0) == item;
  }

  lemma {:induction false} ItemsOfJoin(items: seq<string>)
    requires forall i :: 0 <= i < |items| ==> GoodItem(items[i])
    ensures Items(Join(items, ",")) == items
  {
    hide Items, GoodItem;
    if items == [] {
      EmptyText();
    } else {
      ItemsOfOne(items[0]);
      assert items == [items[0]] + items[1..];
      if |items| > 1 {
        ItemsOfJoin(items[1..]);
        ItemsCompose(items[0], Join(items[1..], ","));
      }
    }
  }

  // The items of any value are non-empty, comma-free and without spaces at either end,
  // and joining them with commas is a normal form of the value.
  lemma ItemsNormalForm(v: string)
    ensures forall i :: 0 <= i < |Items(v)| ==> GoodItem(Items(v)[i])
    ensures Items(Join(Items(v), ",")) == Items(v)
  {
    PiecesHaveNoComma(v);
    NonEmptyIsGood(Pieces(v));
    ItemsOfJoin(Items(v));
  }
}
