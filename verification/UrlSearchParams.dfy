// URLSearchParams as the search screen uses it: the application/x-www-form-urlencoded
// parser and serializer of the URL Standard, section 5, on ordered name-value lists.
// Strings are UTF-8 byte strings, one character per byte.
module UrlSearchParams {
  import opened Text

  datatype Pair = Pair(name: string, value: string)

  predicate Bytes(s: string) { forall i :: 0 <= i < |s| ==> s[i] as int < 256 }

  predicate BytePairs(pairs: seq<Pair>) {
    forall i :: 0 <= i < |pairs| ==> Bytes(pairs[i].name) && Bytes(pairs[i].value)
  }

  // ---------- Percent coding ----------

  // The bytes the serializer copies: ASCII letters and digits and * - . _
  predicate Unreserved(c: char) {
    IsDigit(c) || 'A' <= c <= 'Z' || 'a' <= c <= 'z' || c == '*' || c == '-' || c == '.' || c == '_'
  }

  predicate IsHex(c: char) { IsDigit(c) || 'A' <= c <= 'F' || 'a' <= c <= 'f' }

  function HexValue(c: char): (v: int)
    requires IsHex(c)
    ensures 0 <= v < 16
  {
    if IsDigit(c) then DigitValue(c)
    else if c <= 'F' then c as int - 'A' as int + 10
    else c as int - 'a' as int + 10
  }

  function HexDigit(v: int): (c: char)
    requires 0 <= v < 16
    ensures IsHex(c) && HexValue(c) == v && Unreserved(c)
  {
    if v < 10 then Digit(v) else ('A' as int + v - 10) as char
  }

  function EncodeByte(c: char): string
    requires c as int < 256
  {
    if c == ' ' then "+"
    else if Unreserved(c) then [c]
    else ['%', HexDigit(c as int / 16), HexDigit(c as int % 16)]
  }

  function Encode(s: string): string
    requires Bytes(s)
  {
    if s == [] then [] else EncodeByte(s[0]) + Encode(s[1..])
  }

  // Plus signs become spaces and %XX becomes the byte XX.
  function Decode(s: string): string
    decreases |s|
  {
    if s == [] then []
    else if s[0] == '+' then " " + Decode(s[1..])
    else if s[0] == '%' && |s| >= 3 && IsHex(s[1]) && IsHex(s[2]) then
      [(16 * HexValue(s[1]) + HexValue(s[2])) as char] + Decode(s[3..])
    else [s[0]] + Decode(s[1..])
  }

  lemma DecodeEncodedByte(c: char, rest: string)
    requires c as int < 256
    ensures Decode(EncodeByte(c) + rest) == [c] + Decode(rest)
  {
    var s := EncodeByte(c) + rest;
    if c == ' ' || Unreserved(c) {
      assert s[1..] == rest;
    } else {
      assert s[3..] == rest;
    }
  }

  lemma {:induction false} DecodeEncode(s: string)
    requires Bytes(s)
    ensures Decode(Encode(s)) == s
  {
    hide Decode, EncodeByte;
    if s == [] {
      DecodeNothing();
    } else {
      DecodeEncode(s[1..]);
      DecodeEncodedByte(s[0], Encode(s[1..]));
      assert s == [s[0]] + s[1..];
    }
  }

  lemma DecodeNothing()
    ensures Decode("") == ""
  {
  }

  lemma {:induction false} DecodeKeepsBytes(s: string)
    requires Bytes(s)
    ensures Bytes(Decode(s))
    decreases |s|
  {
    if s != [] {
      DecodeKeepsBytes(s[1..]);
      if |s| >= 3 { DecodeKeepsBytes(s[3..]); }
    }
  }

  lemma {:induction false} EncodeIsSafe(s: string)
    requires Bytes(s)
    ensures Avoids(Encode(s), '&') && Avoids(Encode(s), '=')
  {
    if s != [] {
      EncodeIsSafe(s[1..]);
      assert Avoids(EncodeByte(s[0]), '&') && Avoids(EncodeByte(s[0]), '=');
    }
  }

  // ---------- Lists ----------

  function SerializePair(p: Pair): string
    requires Bytes(p.name) && Bytes(p.value)
  {
    Encode(p.name) + "=" + Encode(p.value)
  }

  function Serialize(pairs: seq<Pair>): string
    requires BytePairs(pairs)
  {
    if pairs == [] then []
    else if |pairs| == 1 then SerializePair(pairs[0])
    else SerializePair(pairs[0]) + "&" + Serialize(pairs[1..])
  }

  function ParsePair(s: string): Pair {
    var i := Find(s, '=');
    Pair(Decode(s[..i]), Decode(if i < |s| then s[i + 1..] else ""))
  }

  // Empty stretches between ampersands are skipped.
  function Parse(s: string): seq<Pair>
    decreases |s|
  {
    var i := Find(s, '&');
    (if i == 0 then [] else [ParsePair(s[..i])]) + if i < |s| then Parse(s[i + 1..]) else []
  }

  lemma ParseSerializedPair(p: Pair)
    requires Bytes(p.name) && Bytes(p.value)
    ensures ParsePair(SerializePair(p)) == p
    ensures Avoids(SerializePair(p), '&') && SerializePair(p) != []
  {
    hide Find, Decode, Encode;
    var s := SerializePair(p);
    var n := |Encode(p.name)|;
    EncodeIsSafe(p.name);
    EncodeIsSafe(p.value);
    assert s[..n] == Encode(p.name) && s[n + 1..] == Encode(p.value);
    FindIs(s, '=', n);
    DecodeEncode(p.name);
    DecodeEncode(p.value);
  }

  lemma ParseFirst(first: string, rest: string)
    requires Avoids(first, '&') && first != []
    ensures Parse(first) == [ParsePair(first)]
    ensures Parse(first + "&" + rest) == [ParsePair(first)] + Parse(rest)
  {
    hide Find, ParsePair;
    assert first[..|first|] == first;
    FindIs(first, '&', |first|);
    var s := first + "&" + rest;
    assert s[..|first|] == first && s[|first| + 1..] == rest;
    FindIs(s, '&', |first|);
  }

  // Any list of names and values survives being written as a query and read again.
  lemma {:induction false} ParseSerialize(pairs: seq<Pair>)
    requires BytePairs(pairs)
    ensures Parse(Serialize(pairs)) == pairs
  {
    hide Parse, ParsePair, SerializePair;
    if pairs == [] {
      ParseNothing();
    } else {
      var rest := pairs[1..];
      ParseSerializedPair(pairs[0]);
      ParseFirst(SerializePair(pairs[0]), if rest == [] then [] else Serialize(rest));
      assert pairs == [pairs[0]] + rest;
      if rest != [] { ParseSerialize(rest); }
    }
  }

  lemma ParseNothing()
    ensures Parse("") == []
  {
    assert Find("", '&') == 0;
  }

  lemma {:induction false} ParseKeepsBytes(s: string)
    requires Bytes(s)
    ensures BytePairs(Parse(s))
    decreases |s|
  {
    hide Find, ParsePair;
    var i := Find(s, '&');
    ParsePairKeepsBytes(s[..i]);
    if i < |s| { ParseKeepsBytes(s[i + 1..]); }
  }

  lemma ParsePairKeepsBytes(s: string)
    requires Bytes(s)
    ensures Bytes(ParsePair(s).name) && Bytes(ParsePair(s).value)
  {
    var i := Find(s, '=');
    DecodeKeepsBytes(s[..i]);
    if i < |s| { DecodeKeepsBytes(s[i + 1..]); } else { DecodeNothing(); }
  }

  // ---------- The text itself ----------

  lemma {:induction false} UnreservedIsKept(s: string)
    requires forall i :: 0 <= i < |s| ==> Unreserved(s[i])
    ensures Bytes(s) && Encode(s) == s && Decode(s) == s
  {
    if s != [] { UnreservedIsKept(s[1..]); }
  }

  // Names and values of letters, digits and * - . _ are written and read as they are.
  lemma PlainQueryText(name: string, value: string)
    requires forall i :: 0 <= i < |name| ==> Unreserved(name[i])
    requires forall i :: 0 <= i < |value| ==> Unreserved(value[i])
    ensures Bytes(name) && Bytes(value) && Serialize([Pair(name, value)]) == name + "=" + value
  {
    UnreservedIsKept(name);
    UnreservedIsKept(value);
  }

  // Other bytes are written as a plus sign for a space and as a percent sign and two
  // upper-case hexadecimal digits.
  lemma EncodedBytes()
    ensures EncodeByte('A') == "A" && EncodeByte('Z') == "Z" && EncodeByte('a') == "a" && EncodeByte('z') == "z"
    ensures EncodeByte('@') == "%40" && EncodeByte('[') == "%5B" && EncodeByte('`') == "%60" && EncodeByte('{') == "%7B"
    ensures EncodeByte(' ') == "+" && EncodeByte('&') == "%26" && EncodeByte('=') == "%3D" && EncodeByte('+') == "%2B"
    ensures EncodeByte('%') == "%25" && EncodeByte('/') == "%2F" && EncodeByte('~') == "%7E"
  {
  }

  lemma DecodedCode(a: char, b: char, rest: string)
    requires IsHex(a) && IsHex(b)
    ensures Decode(['%', a, b] + rest) == [(16 * HexValue(a) + HexValue(b)) as char] + Decode(rest)
  {
    assert (['%', a, b] + rest)[3..] == rest;
  }

  // Codes are read in either case; a plus sign is a space, and an incomplete code stays.
  lemma DecodedText(rest: string)
    ensures Decode("%aF" + rest) == [0xAF as char] + Decode(rest)
    ensures Decode("%Fa" + rest) == [0xFA as char] + Decode(rest)
    ensures Decode("+" + rest) == " " + Decode(rest)
    ensures Decode("%zz" + rest) == "%" + Decode("zz" + rest)
  {
    DecodedCode('a', 'F', rest);
    DecodedCode('F', 'a', rest);
    assert "%aF" == ['%', 'a', 'F'] && "%Fa" == ['%', 'F', 'a'];
    assert ("+" + rest)[1..] == rest && ("%zz" + rest)[1..] == "zz" + rest;
  }

  // Text between ampersands is a pair, cut at its first equals sign and without a value if
  // it has none; empty text is not.
  lemma ParsedText(name: string, value: string, rest: string)
    requires Avoids(name, '=') && Avoids(name, '&') && Avoids(value, '&')
    ensures Parse(name + "=" + value + "&" + rest) == [Pair(Decode(name), Decode(value))] + Parse(rest)
    ensures name != "" ==> Parse(name + "&" + rest) == [Pair(Decode(name), "")] + Parse(rest)
    ensures Parse("&" + rest) == Parse(rest)
  {
    hide Find, Decode, ParsePair, Parse;
    PairText(name, value);
    ParseFirst(name + "=" + value, rest);
    if name != "" { ParseFirst(name, rest); }
    EmptyStretch(rest);
  }

  lemma PairText(name: string, value: string)
    requires Avoids(name, '=')
    ensures ParsePair(name + "=" + value) == Pair(Decode(name), Decode(value))
    ensures ParsePair(name) == Pair(Decode(name), "")
  {
    hide Find, Decode;
    var text := name + "=" + value;
    assert text[..|name|] == name && text[|name| + 1..] == value && name[..|name|] == name;
    FindIs(text, '=', |name|);
    FindIs(name, '=', |name|);
    DecodeNothing();
  }

  lemma EmptyStretch(rest: string)
    ensures Parse("&" + rest) == Parse(rest)
  {
    hide Find;
    assert ("&" + rest)[1..] == rest;
    FindIs("&" + rest, '&', 0);
  }
}
