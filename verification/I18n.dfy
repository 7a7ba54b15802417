// Translation lookup and interpolation: the `t` functions of the mobile provider
// (mobile/src/i18n/I18nContext.js) and of the web provider (web/src/i18n/I18nContext.jsx),
// the two ways they replace a variable, and the two ways they choose a locale.
module I18n {
  import opened Text
  import opened Sequences

  type Dict = map<string, string>
  type Translations = map<string, Dict>

  // One entry of Object.entries(vars), the value already converted by String().
  datatype Var = Var(name: string, value: string)

  // ---------- Fallback chains ----------

  const SUPPORTED: seq<string> := ["en", "pt", "pt-BR", "es"]

  function FallbackChain(lang: string): seq<string> {
    if lang == "pt" then ["pt", "en"]
    else if lang == "pt-BR" then ["pt-BR", "pt", "en"]
    else if lang == "es" then ["es", "en"]
    else ["en"]
  }

  function DictOf(translations: Translations, code: string): Dict {
    if code in translations then translations[code] else map[]
  }

  // All dictionaries of a chain merged, earlier locales overriding later ones.
  function Merged(translations: Translations, chain: seq<string>): Dict {
    if chain == [] then map[] else Merged(translations, chain[1..]) + DictOf(translations, chain[0])
  }

  function Message(translations: Translations, lang: string, key: string): string {
    var all := Merged(translations, FallbackChain(lang));
    if key in all then all[key] else key
  }

  function TextIn(translations: Translations, code: string, key: string): Option<string> {
    var dict := DictOf(translations, code);
    if key in dict then Some(dict[key]) else None
  }

  function Or(first: Option<string>, fallback: string): string { if first.Some? then first.value else fallback }

  // Brazilian Portuguese falls back to Portuguese and that to English, Spanish and
  // Portuguese fall back to English, every other language is English, and a key that no
  // locale on the way has is shown as it is.
  lemma FallbackOrder(translations: Translations, lang: string, key: string)
    ensures var en := Or(TextIn(translations, "en", key), key);
            var pt := Or(TextIn(translations, "pt", key), en);
            Message(translations, lang, key) ==
            if lang == "pt-BR" then Or(TextIn(translations, "pt-BR", key), pt)
            else if lang == "pt" then pt
            else if lang == "es" then Or(TextIn(translations, "es", key), en)
            else en
  {
    var en, esEn, ptEn, all := ["en"], ["es", "en"], ["pt", "en"], ["pt-BR", "pt", "en"];
    hide DictOf;
    assert en[1..] == [] && esEn[1..] == en && ptEn[1..] == en && all[1..] == ptEn;
    MergedFirst(translations, en, key);
    MergedFirst(translations, esEn, key);
    MergedFirst(translations, ptEn, key);
    MergedFirst(translations, all, key);
    assert key !in Merged(translations, []);
  }

  lemma MergedFirst(translations: Translations, chain: seq<string>, key: string)
    requires chain != []
    ensures var all, rest := Merged(translations, chain), Merged(translations, chain[1..]);
            var first := TextIn(translations, chain[0], key);
            && (key in all <==> first.Some? || key in rest)
            && (key in all ==> all[key] == if first.Some? then first.value else rest[key])
  {
  }

  lemma {:induction false} MergedMisses(translations: Translations, chain: seq<string>, n: nat, key: string)
    requires n <= |chain| && forall i :: 0 <= i < n ==> key !in DictOf(translations, chain[i])
    ensures (key in Merged(translations, chain) <==> key in Merged(translations, chain[n..]))
    ensures key in Merged(translations, chain) ==>
              Merged(translations, chain)[key] == Merged(translations, chain[n..])[key]
    decreases n
  {
    if n == 0 {
      assert chain[0..] == chain;
    } else {
      assert chain[1..][n - 1..] == chain[n..];
      MergedMisses(translations, chain[1..], n - 1, key);
    }
  }

  // The lookup loop both providers share is one lookup in the merged dictionary.
  method Lookup(translations: Translations, lang: string, key: string) returns (msg: string)
    ensures msg == Message(translations, lang, key)
    ensures var all := Merged(translations, FallbackChain(lang));
            msg == key <==> key !in all || all[key] == key
  {
    var chain := FallbackChain(lang);
    msg := key;
    var i := 0;
    while i < |chain|
      invariant 0 <= i <= |chain| && msg == key
      invariant forall j :: 0 <= j < i ==> key !in DictOf(translations, chain[j])
    {
      var code := chain[i];
      if code in translations && key in translations[code] {
        MergedMisses(translations, chain, i, key);
        msg := translations[code][key];
        return;
      }
      i := i + 1;
    }
    MergedMisses(translations, chain, |chain|, key);
  }

  // ---------- String replacement ----------

  // s.split(pat), for a non-empty separator
  function Split(s: string, pat: string): (p: seq<string>)
    requires pat != []
    ensures p != []
    decreases |s|
  {
    var i := IndexOf(s, pat);
    if i == -1 then [s] else [s[..i]] + Split(s[i + |pat|..], pat)
  }

  // Every occurrence of pat, scanning left to right, replaced by value.
  function ReplaceAll(s: string, pat: string, value: string): string
    requires pat != []
    decreases |s|
  {
    if |s| < |pat| then s
    else if pat <= s then value + ReplaceAll(s[|pat|..], pat, value)
    else [s[0]] + ReplaceAll(s[1..], pat, value)
  }

  lemma Unmatched(s: string, pat: string, value: string)
    requires pat != [] && |pat| <= |s| && !(pat <= s)
    ensures ReplaceAll(s, pat, value) == [s[0]] + ReplaceAll(s[1..], pat, value)
    ensures IndexOf(s, pat) == if IndexOf(s[1..], pat) == -1 then -1 else 1 + IndexOf(s[1..], pat)
  {
  }

  lemma ReplaceNow(s: string, pat: string, value: string)
    requires pat != [] && (|s| < |pat| || pat <= s)
    ensures ReplaceAll(s, pat, value) ==
            if |s| < |pat| then s else s[..0] + (value + ReplaceAll(s[|pat|..], pat, value))
    ensures IndexOf(s, pat) == if |s| < |pat| then -1 else 0
  {
  }

  lemma ShiftBy1(s: string, i: nat, rest: string)
    requires i < |s|
    ensures [s[0]] + (s[1..][..i] + rest) == s[..i + 1] + rest
  {
  }

  lemma {:induction false} ReplaceFirst(s: string, pat: string, value: string)
    requires pat != []
    ensures var i := IndexOf(s, pat);
            ReplaceAll(s, pat, value) ==
            if i == -1 then s else s[..i] + (value + ReplaceAll(s[i + |pat|..], pat, value))
    decreases |s|
  {
    hide IndexOf, ReplaceAll;
    if |s| < |pat| || pat <= s {
      ReplaceNow(s, pat, value);
    } else {
      ReplaceFirst(s[1..], pat, value);
      Unmatched(s, pat, value);
      var i := IndexOf(s[1..], pat);
      if i == -1 {
        assert s == [s[0]] + s[1..];
      } else {
        FirstOneLater(s, i, |pat|, value, ReplaceAll(s[1..][i + |pat|..], pat, value));
        SliceOf(s, 1, i, |pat|);
      }
    }
  }

  lemma FirstOneLater(s: string, i: nat, n: nat, value: string, rest: string)
    requires 1 + i + n <= |s|
    ensures [s[0]] + (s[1..][..i] + (value + rest)) == s[..i + 1] + (value + rest)
  {
    ShiftBy1(s, i, value + rest);
  }

  lemma JoinFirst(first: string, rest: seq<string>, sep: string)
    ensures Join([first] + rest, sep) == if rest == [] then first else first + (sep + Join(rest, sep))
  {
    assert ([first] + rest)[1..] == rest;
    if rest != [] { Associate(first, sep, Join(rest, sep)); }
  }

  lemma SplitFirst(s: string, pat: string)
    requires pat != []
    ensures var i := IndexOf(s, pat);
            Split(s, pat) == [if i == -1 then s else s[..i]] + if i == -1 then [] else Split(s[i + |pat|..], pat)
  {
  }

  // The mobile form, split and join, replaces all occurrences by the value as it is.
  lemma {:induction false} SplitJoinReplaces(s: string, pat: string, value: string)
    requires pat != []
    ensures Join(Split(s, pat), value) == ReplaceAll(s, pat, value)
    decreases |s|
  {
    hide Join, ReplaceAll, IndexOf, Split;
    ReplaceFirst(s, pat, value);
    SplitFirst(s, pat);
    var i := IndexOf(s, pat);
    if i == -1 {
      JoinFirst(s, [], value);
    } else {
      SplitJoinReplaces(s[i + |pat|..], pat, value);
      JoinFirst(s[..i], Split(s[i + |pat|..], pat), value);
    }
  }

  // GetSubstitution of ECMA-262 for a string pattern, which has no captures: of the
  // replacement patterns only these four are expanded.
  predicate Special(c: char) { c == '$' || c == '&' || c == '`' || c == '\'' }

  function Substitution(matched: string, before: string, after: string, template: string): string {
    if template == [] then []
    else if |template| >= 2 && template[0] == '$' && Special(template[1]) then
      (match template[1]
       case '$' => "$"
       case '&' => matched
       case '`' => before
       case _ => after) + Substitution(matched, before, after, template[2..])
    else [template[0]] + Substitution(matched, before, after, template[1..])
  }

  // str.replaceAll(pat, template) on the part of str after `end`
  function WebReplaceFrom(str: string, end: nat, pat: string, template: string): string
    requires pat != [] && end <= |str|
    decreases |str| - end
  {
    var i := IndexOf(str[end..], pat);
    if i == -1 then str[end..]
    else
      var position := end + i;
      str[end..position] + Substitution(pat, str[..position], str[position + |pat|..], template)
      + WebReplaceFrom(str, position + |pat|, pat, template)
  }

  function WebReplaceAll(str: string, pat: string, template: string): string
    requires pat != []
  {
    WebReplaceFrom(str, 0, pat, template)
  }

  lemma {:induction false} IndexOfFirst(u: string, pat: string, rest: string)
    requires pat != [] && pat[0] !in u
    ensures IndexOf(u + pat + rest, pat) == |u|
    decreases |u|
  {
    var s := u + pat + rest;
    if u == [] {
      assert s == pat + rest;
    } else {
      assert s[0] == u[0] && s[1..] == u[1..] + pat + rest;
      IndexOfFirst(u[1..], pat, rest);
    }
  }

  lemma {:induction false} IndexOfNone(s: string, pat: string)
    requires pat != [] && pat[0] !in s
    ensures IndexOf(s, pat) == -1
  {
    if |s| >= |pat| { IndexOfNone(s[1..], pat); }
  }

  // A text with two occurrences and no other beginnings of the pattern.
  function Twice(u: string, pat: string, v: string, w: string): string { u + pat + v + pat + w }

  lemma ReplaceTwice(u: string, pat: string, v: string, w: string, template: string)
    requires pat != [] && pat[0] !in u && pat[0] !in v && pat[0] !in w
    ensures WebReplaceAll(Twice(u, pat, v, w), pat, template)
         == u + Substitution(pat, u, v + pat + w, template)
            + (v + Substitution(pat, u + pat + v, w, template) + w)
  {
    hide Substitution, IndexOf;
    var str := Twice(u, pat, v, w);
    var second, end := |u + pat|, |u + pat + v + pat|;
    assert str[0..] == u + pat + (v + pat + w) && str[second..] == v + pat + w && str[end..] == w;
    IndexOfFirst(u, pat, v + pat + w);
    IndexOfFirst(v, pat, w);
    IndexOfNone(w, pat);
    assert str[0..|u|] == u && str[..|u|] == u;
    assert str[second..second + |v|] == v && str[..second + |v|] == u + pat + v;
    assert WebReplaceFrom(str, end, pat, template) == w;
    assert WebReplaceFrom(str, second, pat, template) == v + Substitution(pat, u + pat + v, w, template) + w;
  }

  lemma OnePattern(matched: string, before: string, after: string)
    ensures Substitution(matched, before, after, "$$") == "$" && Substitution(matched, before, after, "$&") == matched
    ensures Substitution(matched, before, after, "$`") == before && Substitution(matched, before, after, "$'") == after
  {
    assert Substitution(matched, before, after, []) == [];
    assert "$$"[2..] == [] && "$&"[2..] == [] && "$`"[2..] == [] && "$'"[2..] == [];
    assert matched + [] == matched && before + [] == before && after + [] == after;
  }

  // What the four patterns put in place of each occurrence: a dollar sign, the placeholder
  // itself, all of the original text before it, and all of the original text after it.
  lemma PatternsMean(u: string, pat: string, v: string, w: string)
    requires pat != [] && pat[0] !in u && pat[0] !in v && pat[0] !in w
    ensures var str := Twice(u, pat, v, w);
            && WebReplaceAll(str, pat, "$$") == Twice(u, "$", v, w)
            && WebReplaceAll(str, pat, "$&") == str
            && WebReplaceAll(str, pat, "$`") == u + u + v + (u + pat + v) + w
            && WebReplaceAll(str, pat, "$'") == u + (v + pat + w) + v + w + w
  {
    hide WebReplaceAll, Substitution;
    ReplaceTwice(u, pat, v, w, "$$");
    ReplaceTwice(u, pat, v, w, "$&");
    ReplaceTwice(u, pat, v, w, "$`");
    ReplaceTwice(u, pat, v, w, "$'");
    OnePattern(pat, u, v + pat + w);
    OnePattern(pat, u + pat + v, w);
    Regroup(u, "$", v, "$", w);
    Regroup(u, pat, v, pat, w);
    Regroup(u, u, v, u + pat + v, w);
    Regroup(u, v + pat + w, v, w, w);
  }

  lemma Regroup(a: string, b: string, c: string, d: string, e: string)
    ensures a + b + (c + d + e) == a + b + c + d + e
  {
  }

  predicate HasPattern(template: string) {
    |template| >= 2 && ((template[0] == '$' && Special(template[1])) || HasPattern(template[1..]))
  }

  lemma {:induction false} PlainSubstitution(matched: string, before: string, after: string, template: string)
    requires !HasPattern(template)
    ensures Substitution(matched, before, after, template) == template
  {
    if template != [] {
      PlainSubstitution(matched, before, after, template[1..]);
    }
  }

  lemma {:induction false} WebReplacesFrom(str: string, end: nat, pat: string, value: string)
    requires pat != [] && end <= |str| && !HasPattern(value)
    ensures WebReplaceFrom(str, end, pat, value) == ReplaceAll(str[end..], pat, value)
    decreases |str| - end
  {
    hide ReplaceAll, Substitution, IndexOf;
    ReplaceFirst(str[end..], pat, value);
    var i := IndexOf(str[end..], pat);
    if i != -1 {
      var position := end + i;
      PlainSubstitution(pat, str[..position], str[position + |pat|..], value);
      WebReplacesFrom(str, position + |pat|, pat, value);
      SliceOf(str, end, i, |pat|);
      Associate(str[end..position], value, ReplaceAll(str[position + |pat|..], pat, value));
    }
  }

  lemma SliceOf(s: string, end: nat, i: nat, n: nat)
    requires end + i + n <= |s|
    ensures s[end..][i + n..] == s[end + i + n..] && s[end..][..i] == s[end..end + i]
  {
  }

  // ---------- The two interpolations ----------

  function Placeholder(name: string): string { "{" + name + "}" }

  function Interpolate(msg: string, vars: seq<Var>): string
    decreases |vars|
  {
    if vars == [] then msg
    else Interpolate(ReplaceAll(msg, Placeholder(vars[0].name), vars[0].value), vars[1..])
  }

  function WebInterpolate(msg: string, vars: seq<Var>): string
    decreases |vars|
  {
    if vars == [] then msg
    else WebInterpolate(WebReplaceAll(msg, Placeholder(vars[0].name), vars[0].value), vars[1..])
  }

  method MobileT(translations: Translations, lang: string, key: string, vars: seq<Var>) returns (msg: string)
    ensures msg == Interpolate(Message(translations, lang, key), vars)
  {
    msg := Lookup(translations, lang, key);
    var i := 0;
    assert vars[0..] == vars;
    while i < |vars|
      invariant 0 <= i <= |vars|
      invariant Interpolate(msg, vars[i..]) == Interpolate(Message(translations, lang, key), vars)
    {
      SplitJoinReplaces(msg, Placeholder(vars[i].name), vars[i].value);
      assert vars[i..][1..] == vars[i + 1..];
      msg := Join(Split(msg, Placeholder(vars[i].name)), vars[i].value);
      i := i + 1;
    }
  }

  method WebT(translations: Translations, lang: string, key: string, vars: seq<Var>) returns (msg: string)
    ensures msg == WebInterpolate(Message(translations, lang, key), vars)
  {
    msg := Lookup(translations, lang, key);
    var i := 0;
    assert vars[0..] == vars;
    while i < |vars|
      invariant 0 <= i <= |vars|
      invariant WebInterpolate(msg, vars[i..]) == WebInterpolate(Message(translations, lang, key), vars)
    {
      assert vars[i..][1..] == vars[i + 1..];
      msg := WebReplaceAll(msg, Placeholder(vars[i].name), vars[i].value);
      i := i + 1;
    }
  }

  // Both providers give the same text whenever no value contains one of the replacement
  // patterns $$, $&, $` and $', in particular whenever no value contains a dollar sign.
  lemma {:induction false} ProvidersAgree(msg: string, vars: seq<Var>)
    requires forall i :: 0 <= i < |vars| ==> !HasPattern(vars[i].value)
    ensures WebInterpolate(msg, vars) == Interpolate(msg, vars)
    decreases |vars|
  {
    if vars != [] {
      WebReplaces(msg, Placeholder(vars[0].name), vars[0].value);
      ProvidersAgree(ReplaceAll(msg, Placeholder(vars[0].name), vars[0].value), vars[1..]);
    }
  }

  predicate BraceFree(s: string) { forall i :: 0 <= i < |s| ==> s[i] != '{' && s[i] != '}' }

  function Dollars(k: nat): string { if k == 0 then [] else "$" + Dollars(k - 1) }

  lemma DollarsNext(k: nat, s: string)
    ensures Dollars(k + 1) + s == "$" + (Dollars(k) + s)
  {
  }

  lemma {:induction false} DollarsShift(k: nat, s: string)
    ensures Dollars(k) + ("$" + s) == "$" + (Dollars(k) + s)
  {
    if k == 0 {
      assert Dollars(0) + s == s && Dollars(0) + ("$" + s) == "$" + s;
    } else {
      DollarsShift(k - 1, s);
      DollarsNext(k - 1, s);
      DollarsNext(k - 1, "$" + s);
    }
  }

  // Between two letters x, no expansion of a text is that text behind further dollars:
  // only $$ leaves a dollar, and it leaves one too few.
  lemma {:induction false} NotShifted(matched: string, k: nat, rest: string)
    requires matched != [] && matched[0] != '$' && k > 0
    ensures Substitution(matched, "x", "x", rest) != Dollars(k) + rest
    decreases |rest|
  {
    assert (Dollars(k) + rest)[0] == '$';
    if |rest| >= 2 && rest[0] == '$' && Special(rest[1]) {
      if rest[1] == '$' {
        hide Dollars;
        NotShifted(matched, k + 1, rest[2..]);
        OneDollarLess(Substitution(matched, "x", "x", rest[2..]), Dollars(k + 1) + rest[2..]);
        DollarsNext(k, rest[2..]);
        DollarsShift(k, rest[2..]);
        DollarsShift(k, "$" + rest[2..]);
        assert rest == "$" + ("$" + rest[2..]);
      }
    } else if rest != [] && rest[0] == '$' {
      hide Dollars;
      NotShifted(matched, k, rest[1..]);
      OneDollarLess(Substitution(matched, "x", "x", rest[1..]), Dollars(k) + rest[1..]);
      DollarsShift(k, rest[1..]);
      assert rest == "$" + rest[1..];
    }
  }

  lemma OneDollarLess(a: string, b: string)
    requires a != b
    ensures "$" + a != "$" + b
  {
    assert ("$" + a)[1..] == a && ("$" + b)[1..] == b;
  }

  // Between two letters x, a template with a replacement pattern does not expand to itself.
  lemma {:induction false} PatternChangesText(matched: string, template: string)
    requires matched != [] && matched[0] != '$' && HasPattern(template)
    ensures Substitution(matched, "x", "x", template) != template
  {
    var rest := template[1..];
    if template[0] == '$' && Special(template[1]) {
      if template[1] == '$' {
        NotShifted(matched, 1, template[2..]);
        assert template == "$" + ("$" + template[2..]) && Dollars(1) == "$" + Dollars(0) == "$";
        OneDollarLess(Substitution(matched, "x", "x", template[2..]), "$" + template[2..]);
      }
    } else {
      PatternChangesText(matched, rest);
      var expanded := Substitution(matched, "x", "x", rest);
      assert ([template[0]] + expanded)[1..] == expanded;
    }
  }

  lemma BetweenLetters(name: string, value: string)
    ensures var pat := Placeholder(name); var msg := "x" + pat + "x";
            && WebReplaceAll(msg, pat, value) == "x" + Substitution(pat, "x", "x", value) + "x"
            && ReplaceAll(msg, pat, value) == "x" + value + "x"
  {
    hide Substitution;
    var pat := Placeholder(name);
    var msg := "x" + pat + "x";
    assert msg[0] != pat[0];
    assert msg[1..] == pat + "x" && msg[1 + |pat|..] == "x" && msg[..1] == "x";
    assert IndexOf(msg[1..], pat) == 0 && IndexOf(msg, pat) == 1 && IndexOf("x", pat) == -1;
    assert msg[0..] == msg && msg[0..1] == "x";
    assert WebReplaceFrom(msg, 1 + |pat|, pat, value) == "x";
    assert (pat + "x")[|pat|..] == "x";
    assert ReplaceAll("x", pat, value) == "x";
    assert ReplaceAll(msg[1..], pat, value) == value + "x";
    assert "x" + (value + "x") == "x" + value + "x";
  }

  lemma ExpansionDiffers(name: string, value: string)
    requires HasPattern(value)
    ensures "x" + Substitution(Placeholder(name), "x", "x", value) + "x" != "x" + value + "x"
  {
    hide Substitution;
    PatternChangesText(Placeholder(name), value);
    var expanded := Substitution(Placeholder(name), "x", "x", value);
    assert ("x" + expanded + "x")[1..1 + |expanded|] == expanded;
    assert ("x" + value + "x")[1..1 + |value|] == value;
  }

  // That is exact: for every name and every value, the two forms agree on every message if
  // and only if the value contains no replacement pattern.
  lemma FormsAgreeIff(name: string, value: string)
    ensures (forall msg :: WebReplaceAll(msg, Placeholder(name), value) == ReplaceAll(msg, Placeholder(name), value))
       <==> !HasPattern(value)
  {
    hide WebReplaceAll, ReplaceAll, Substitution;
    var pat := Placeholder(name);
    if HasPattern(value) {
      BetweenLetters(name, value);
      ExpansionDiffers(name, value);
    } else {
      forall msg ensures WebReplaceAll(msg, pat, value) == ReplaceAll(msg, pat, value) {
        WebReplaces(msg, pat, value);
      }
    }
  }

  lemma WebReplaces(msg: string, pat: string, value: string)
    requires pat != [] && !HasPattern(value)
    ensures WebReplaceAll(msg, pat, value) == ReplaceAll(msg, pat, value)
  {
    WebReplacesFrom(msg, 0, pat, value);
    assert msg[0..] == msg;
  }

  // ---------- Choosing a locale ----------

  // toLowerCase, as far as it affects the ASCII letters of a language tag.
  function Lower(s: string): (r: string)
    ensures |r| == |s|
  {
    if s == [] then []
    else [if 'A' <= s[0] <= 'Z' then (s[0] as int + 32) as char else s[0]] + Lower(s[1..])
  }

  lemma {:induction false} LowerAt(s: string, i: nat)
    requires i < |s|
    ensures Lower(s)[i] as int == if 'A' <= s[i] <= 'Z' then s[i] as int + 32 else s[i] as int
  {
    if i > 0 { LowerAt(s[1..], i - 1); }
  }

  // s.replace('_', '-'): the first underscore only
  function FirstUnderscoreToDash(s: string): string {
    var i := Find(s, '_');
    if i == |s| then s else s[i := '-']
  }

  function Classify(tag: string): string {
    if "pt-br" <= tag then "pt-BR"
    else if "pt" <= tag then "pt"
    else if "es" <= tag then "es"
    else "en"
  }

  function NormaliseLocale(raw: string): string {
    var tag := FirstUnderscoreToDash(Lower(raw));
    if tag == "" then "en" else Classify(tag)
  }

  // detectLang: a stored supported locale, else the browser's language.
  function DetectLang(stored: Option<string>, language: string): string {
    if stored.Some? && stored.value != "" && stored.value in SUPPORTED then stored.value
    else Classify(Lower(if language == "" then "en" else language))
  }

  // The locale a device tag is normalised to: by its beginning, in any case, an underscore
  // in place of the first dash allowed; English for everything else.
  lemma NormalisedLocale(raw: string)
    ensures var tag, locale := Lower(raw), NormaliseLocale(raw);
            && ("pt-br" <= tag || "pt_br" <= tag ==> locale == "pt-BR")
            && ("pt" <= tag && !("pt-br" <= tag) && !("pt_br" <= tag) ==> locale == "pt")
            && ("es" <= tag ==> locale == "es")
            && (!("pt" <= tag) && !("es" <= tag) ==> locale == "en")
  {
    DashKeepsPrefix(Lower(raw));
    Prefix2("pt", Lower(raw));
    Prefix2("es", Lower(raw));
    Prefix5("pt-br", Lower(raw));
  }

  // The web's choice: a stored supported locale, else the browser's language by its
  // beginning, in any case.
  lemma DetectedLocale(stored: Option<string>, language: string)
    ensures var tag, locale := Lower(language), DetectLang(stored, language);
            && (stored.Some? && stored.value in ["en", "pt", "pt-BR", "es"] ==> locale == stored.value)
            && (stored.None? || stored.value !in ["en", "pt", "pt-BR", "es"] ==>
                  && ("pt-br" <= tag ==> locale == "pt-BR")
                  && ("pt" <= tag && !("pt-br" <= tag) ==> locale == "pt")
                  && ("es" <= tag ==> locale == "es")
                  && (!("pt" <= tag) && !("es" <= tag) ==> locale == "en"))
  {
    LowerEn();
    Prefix2("pt", Lower(language));
    Prefix2("es", Lower(language));
    Prefix5("pt-br", Lower(language));
  }

  // The mobile normalisation is described as identical to the web's. It gives the same
  // locale for a tag exactly when the tag does not start with pt_br in some case.
  lemma NormalisationsAgreeIff(raw: string)
    ensures NormaliseLocale(raw) == DetectLang(None, raw) <==> !("pt_br" <= Lower(raw))
  {
    var tag := Lower(raw);
    var dashed := FirstUnderscoreToDash(tag);
    DashKeepsPrefix(tag);
    if raw == "" {
      LowerEn();
      assert Classify("en") == "en";
    } else {
      assert |"pt-BR"| != |"pt"|;
    }
  }

  lemma LowerEn()
    ensures Lower("en") == "en"
  {
    assert "en"[1..] == "n" && "n"[1..] == "";
    assert Lower("n") == "n";
  }

  lemma DashKeepsPrefix(tag: string)
    ensures var dashed := FirstUnderscoreToDash(tag);
            && |dashed| == |tag|
            && ("pt" <= dashed <==> "pt" <= tag)
            && ("es" <= dashed <==> "es" <= tag)
            && ("pt-br" <= dashed <==> "pt-br" <= tag || "pt_br" <= tag)
            && ("pt_br" <= tag ==> "pt" <= tag && !("pt-br" <= tag))
  {
    hide Find;
    var dashed := FirstUnderscoreToDash(tag);
    Prefix2("pt", tag);
    Prefix2("pt", dashed);
    Prefix2("es", tag);
    Prefix2("es", dashed);
    Prefix5("pt-br", tag);
    Prefix5("pt_br", tag);
    Prefix5("pt-br", dashed);
    var i := Find(tag, '_');
    assert "pt_br" <= tag ==> i == 2;
    assert "pt-br" <= tag ==> i >= 5;
    assert "pt-br" <= dashed && i < |tag| && i < 5 ==> i == 2;
  }

  lemma Prefix2(p: string, s: string)
    requires |p| == 2
    ensures p <= s <==> |s| >= 2 && s[0] == p[0] && s[1] == p[1]
  {
  }

  lemma Prefix5(p: string, s: string)
    requires |p| == 5
    ensures p <= s <==>
            |s| >= 5 && s[0] == p[0] && s[1] == p[1] && s[2] == p[2] && s[3] == p[3] && s[4] == p[4]
  {
  }
}
