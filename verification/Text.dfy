// Optional values, and strings as the modelled programs use them: searched for a
// character, compared lexicographically, and holding decimal numerals.
module Text {

  datatype Option<+T> = None | Some(value: T)

  function Min(a: nat, b: nat): nat { if a < b then a else b }

  // ---------- Searching ----------

  predicate Avoids(s: string, c: char) { forall i :: 0 <= i < |s| ==> s[i] != c }

  // The index of the first c, |s| if there is none.
  function Find(s: string, c: char): (i: nat)
    ensures i <= |s| && (i < |s| ==> s[i] == c) && forall k :: 0 <= k < i ==> s[k] != c
  {
    if s == [] || s[0] == c then 0 else 1 + Find(s[1..], c)
  }

  lemma FindIs(s: string, c: char, i: nat)
    requires i <= |s| && (i < |s| ==> s[i] == c) && Avoids(s[..i], c)
    ensures Find(s, c) == i
  {
    hide Find;
    assert forall k :: 0 <= k < i ==> s[..i][k] == s[k];
  }

  // text.indexOf(c, from)
  function IndexOfChar(text: string, c: char, from: nat): (i: int)
    ensures i == -1 ==> forall k :: from <= k < |text| ==> text[k] != c
    ensures i != -1 ==> from <= i < |text| && text[i] == c && forall k :: from <= k < i ==> text[k] != c
    decreases |text| - from
  {
    if from >= |text| then -1
    else if text[from] == c then from
    else IndexOfChar(text, c, from + 1)
  }

  // s.indexOf(pat)
  function IndexOf(s: string, pat: string): (i: int)
    ensures i == -1 || 0 <= i <= |s| - |pat|
  {
    if |s| < |pat| then -1
    else if pat <= s then 0
    else
      var i := if s == [] then -1 else IndexOf(s[1..], pat);
      if i == -1 then -1 else i + 1
  }

  function Join(p: seq<string>, sep: string): string {
    if p == [] then [] else if |p| == 1 then p[0] else p[0] + sep + Join(p[1..], sep)
  }

  // A slice cut at position i of the whole string.
  lemma SliceAt(s: string, start: nat, i: nat)
    requires start <= i < |s|
    ensures s[start..][..i - start] == s[start..i] && s[start..][i - start + 1..] == s[i + 1..]
  {
  }

  // s.slice(0, n)
  function Slice(s: string, n: nat): string { if n == 0 || s == [] then [] else [s[0]] + Slice(s[1..], n - 1) }

  lemma {:induction false} SliceIsPrefix(s: string, n: nat)
    ensures Slice(s, n) == if n <= |s| then s[..n] else s
  {
    if n != 0 && s != [] {
      SliceIsPrefix(s[1..], n - 1);
    }
  }

  // ---------- Lexicographic order (ECMA-262, IsLessThan on strings) ----------

  predicate Less(a: string, b: string) {
    if b == [] then false
    else if a == [] then true
    else if a[0] != b[0] then a[0] < b[0]
    else Less(a[1..], b[1..])
  }

  lemma {:induction false} LessSplit(a: string, b: string, x: string, y: string)
    requires |a| == |b|
    ensures Less(a + x, b + y) <==> Less(a, b) || (a == b && Less(x, y))
  {
    if a == [] {
      assert a + x == x && b + y == y;
    } else {
      assert (a + x)[1..] == a[1..] + x && (b + y)[1..] == b[1..] + y;
      LessSplit(a[1..], b[1..], x, y);
      assert a == b <==> a[0] == b[0] && a[1..] == b[1..] by {
        assert a == [a[0]] + a[1..] && b == [b[0]] + b[1..];
      }
    }
  }

  lemma {:induction false} LessIrreflexive(a: string)
    ensures !Less(a, a)
  {
    if a != [] {
      LessIrreflexive(a[1..]);
    }
  }

  // Three dash-separated fields, the first two of equal width, compare field by field.
  lemma LessDashed(a: string, b: string, c: string, x: string, y: string, z: string)
    requires |a| == |x| && |b| == |y|
    ensures Less(a + "-" + b + "-" + c, x + "-" + y + "-" + z)
       <==> Less(a, x) || (a == x && (Less(b, y) || (b == y && Less(c, z))))
  {
    LessSplit(a + "-" + b + "-", x + "-" + y + "-", c, z);
    LessSplit(a + "-" + b, x + "-" + y, "-", "-");
    LessSplit(a + "-", x + "-", b, y);
    LessSplit(a, x, "-", "-");
    ConcatInjective(a + "-" + b, x + "-" + y, "-", "-");
    ConcatInjective(a + "-", x + "-", b, y);
    ConcatInjective(a, x, "-", "-");
  }

  lemma ConcatInjective(a: string, b: string, x: string, y: string)
    requires |a| == |b|
    ensures a + x == b + y <==> a == b && x == y
  {
    if a + x == b + y {
      assert a == (a + x)[..|a|] && b == (b + y)[..|a|];
      assert x == (a + x)[|a|..] && y == (b + y)[|a|..];
    }
  }

  // ---------- Digits ----------

  predicate IsDigit(c: char) { '0' <= c <= '9' }

  predicate AllDigits(s: string) { forall i :: 0 <= i < |s| ==> IsDigit(s[i]) }

  function Digit(d: int): (c: char)
    requires 0 <= d < 10
    ensures IsDigit(c)
  {
    '0' + d as char
  }

  function DigitValue(c: char): (d: int)
    requires IsDigit(c)
    ensures 0 <= d < 10
  {
    c as int - '0' as int
  }

  function Pow10(k: nat): (p: int)
    ensures p > 0
  {
    if k == 0 then 1 else 10 * Pow10(k - 1)
  }

  // The last `width` decimal digits of n, zero padded.
  function Padded(n: nat, width: nat): (s: string)
    ensures |s| == width && AllDigits(s)
  {
    if width == 0 then [] else Padded(n / 10, width - 1) + [Digit(n % 10)]
  }

  // The number a digit string denotes.
  function Value(s: string): (n: nat)
    requires AllDigits(s)
  {
    if s == [] then 0 else 10 * Value(s[..|s| - 1]) + DigitValue(s[|s| - 1])
  }

  lemma {:induction false} ValuePadded(n: nat, width: nat)
    requires n < Pow10(width)
    ensures Value(Padded(n, width)) == n
  {
    if width != 0 {
      ValuePadded(n / 10, width - 1);
      assert Padded(n, width)[..width - 1] == Padded(n / 10, width - 1);
    }
  }

  lemma {:induction false} PaddedValue(s: string)
    requires AllDigits(s)
    ensures Value(s) < Pow10(|s|) && Padded(Value(s), |s|) == s
  {
    if s != [] {
      PaddedValue(s[..|s| - 1]);
      assert s == s[..|s| - 1] + [s[|s| - 1]];
    }
  }

  lemma TensOrder(a: nat, b: nat)
    ensures a < b <==> a / 10 < b / 10 || (a / 10 == b / 10 && a % 10 < b % 10)
  {
  }

  lemma LessDigit(a: int, b: int)
    requires 0 <= a < 10 && 0 <= b < 10
    ensures Less([Digit(a)], [Digit(b)]) <==> a < b
    ensures [Digit(a)] == [Digit(b)] <==> a == b
  {
    if [Digit(a)] == [Digit(b)] {
      assert [Digit(a)][0] == [Digit(b)][0];
      assert DigitValue(Digit(a)) == DigitValue(Digit(b));
    }
  }

  // Zero-padded numerals of one width compare as strings the way they compare as numbers.
  lemma {:induction false} PaddedOrder(a: nat, b: nat, width: nat)
    requires a < Pow10(width) && b < Pow10(width)
    ensures Less(Padded(a, width), Padded(b, width)) <==> a < b
    ensures Padded(a, width) == Padded(b, width) <==> a == b
  {
    if width != 0 {
      PaddedOrder(a / 10, b / 10, width - 1);
      TensOrder(a, b);
      LessDigit(a % 10, b % 10);
      ConcatInjective(Padded(a / 10, width - 1), Padded(b / 10, width - 1), [Digit(a % 10)], [Digit(b % 10)]);
      LessSplit(Padded(a / 10, width - 1), Padded(b / 10, width - 1), [Digit(a % 10)], [Digit(b % 10)]);
    }
  }

  // ---------- Decimal numerals ----------

  function Decimal(n: nat): (s: string)
    ensures s != [] && AllDigits(s)
  {
    if n < 10 then [Digit(n)] else Decimal(n / 10) + [Digit(n % 10)]
  }

  lemma {:induction false} ValueDecimal(n: nat)
    ensures Value(Decimal(n)) == n
  {
    if n < 10 {
      assert [Digit(n)][..0] == [];
    } else {
      ValueDecimal(n / 10);
      assert Decimal(n)[..|Decimal(n)| - 1] == Decimal(n / 10);
    }
  }

  // Decimal numerals have no leading zeros, and those are all the numerals without any.
  predicate Canonical(s: string) { s != [] && AllDigits(s) && (|s| == 1 || s[0] != '0') }

  lemma {:induction false} DecimalIsCanonical(n: nat)
    ensures Canonical(Decimal(n)) && (n > 0 ==> Decimal(n)[0] != '0')
  {
    if n >= 10 { DecimalIsCanonical(n / 10); }
  }

  lemma {:induction false} ValuePositive(s: string)
    requires AllDigits(s) && s != [] && s[0] != '0'
    ensures Value(s) > 0
  {
    if |s| > 1 { ValuePositive(s[..|s| - 1]); }
  }

  lemma {:induction false} DecimalValue(s: string)
    requires Canonical(s)
    ensures Decimal(Value(s)) == s
  {
    var n := |s| - 1;
    assert s == s[..n] + [s[n]];
    if n == 0 {
      assert Value(s[..0]) == 0;
    } else {
      ValuePositive(s[..n]);
      DecimalValue(s[..n]);
      assert Value(s) / 10 == Value(s[..n]) && Value(s) % 10 == DigitValue(s[n]);
    }
  }
}
