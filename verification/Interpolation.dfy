// What replacing several variables one after another, as the two `t` functions do, makes of
// a message template, and when the order of the variables or the provider matters.
module Interpolation {
  import opened Text
  import opened Sequences
  import opened I18n

  // ---------- Simultaneous substitution ----------

  datatype Segment = Plain(text: string) | Hole(name: string)

  type Template = seq<Segment>

  predicate FlatSegment(g: Segment) { if g.Plain? then '{' !in g.text else BraceFree(g.name) }

  predicate Flat(t: Template) { forall i :: 0 <= i < |t| ==> FlatSegment(t[i]) }

  function SegmentText(g: Segment): string { if g.Plain? then g.text else Placeholder(g.name) }

  function Render(t: Template): string {
    if t == [] then [] else SegmentText(t[0]) + Render(t[1..])
  }

  // One variable filled in.
  function FillOne(t: Template, name: string, value: string): Template {
    if t == [] then []
    else [if t[0] == Hole(name) then Plain(value) else t[0]] + FillOne(t[1..], name, value)
  }

  // All variables filled in at once; unknown holes stay as they are.
  function Fill(t: Template, values: map<string, string>): string {
    if t == [] then []
    else
      (if t[0].Hole? && t[0].name in values then values[t[0].name] else SegmentText(t[0])) + Fill(t[1..], values)
  }

  // Somewhere in s the pattern stands or, at the end of s, begins.
  predicate Meets(s: string, pat: string) { s != [] && (s <= pat || pat <= s || Meets(s[1..], pat)) }

  lemma {:induction false} NoBraceMeetsNothing(s: string, name: string)
    requires '{' !in s
    ensures !Meets(s, Placeholder(name))
  {
    if s != [] {
      assert s[0] != Placeholder(name)[0];
      NoBraceMeetsNothing(s[1..], name);
    }
  }

  lemma StepOver(s: string, pat: string, value: string)
    requires pat != [] && s != [] && !(pat <= s)
    ensures ReplaceAll(s, pat, value) == [s[0]] + ReplaceAll(s[1..], pat, value)
  {
    if |s| < |pat| { assert [s[0]] + s[1..] == s; }
  }

  // A text the pattern does not meet is kept, whatever follows it.
  lemma {:induction false} SkipText(s: string, rest: string, pat: string, value: string)
    requires pat != [] && !Meets(s, pat)
    ensures ReplaceAll(s + rest, pat, value) == s + ReplaceAll(rest, pat, value)
    decreases |s|
  {
    hide ReplaceAll;
    if s == [] {
      assert s + rest == rest;
    } else {
      NoMatchAcross(s, rest, pat);
      StepOver(s + rest, pat, value);
      assert (s + rest)[1..] == s[1..] + rest;
      SkipText(s[1..], rest, pat, value);
      Associate([s[0]], s[1..], ReplaceAll(rest, pat, value));
      assert [s[0]] + s[1..] == s;
    }
  }

  lemma NoMatchAcross(s: string, rest: string, pat: string)
    ensures pat <= s + rest ==> s <= pat || pat <= s
  {
  }

  lemma PlaceholderMatches(name: string, other: string, rest: string)
    requires BraceFree(name) && BraceFree(other)
    ensures Placeholder(name) <= Placeholder(other) + rest <==> name == other
  {
    var pat, text := Placeholder(name), Placeholder(other) + rest;
    assert forall k :: 0 <= k < |name| ==> pat[k + 1] == name[k];
    assert forall k :: 0 <= k < |other| ==> text[k + 1] == other[k];
    assert pat[|name| + 1] == '}' && text[|other| + 1] == '}';
    assert |name| < |other| ==> text[|name| + 1] == other[|name|] != '}';
    assert |other| < |name| ==> pat[|other| + 1] == name[|other|] != '}';
    if pat <= text {
      assert text[|name| + 1] == pat[|name| + 1];
      assert |other| <= |name| ==> pat[|other| + 1] == text[|other| + 1];
      assert |name| == |other|;
      forall k | 0 <= k < |name| ensures name[k] == other[k] {
        assert pat[k + 1] == text[k + 1];
      }
    }
  }

  lemma PlaceholdersApart(name: string, other: string)
    requires BraceFree(name) && BraceFree(other) && name != other
    ensures !Meets(Placeholder(other), Placeholder(name))
  {
    var hole, pat := Placeholder(other), Placeholder(name);
    PlaceholderMatches(name, other, []);
    PlaceholderMatches(other, name, []);
    assert hole + [] == hole && pat + [] == pat;
    assert hole[1..] == other + "}";
    NoBraceMeetsNothing(hole[1..], name);
  }

  lemma ReplaceHole(name: string, other: string, rest: string, value: string)
    requires BraceFree(name) && BraceFree(other)
    ensures ReplaceAll(Placeholder(other) + rest, Placeholder(name), value)
         == (if name == other then value else Placeholder(other)) + ReplaceAll(rest, Placeholder(name), value)
  {
    hide ReplaceAll, IndexOf, BraceFree, Meets;
    var pat := Placeholder(name);
    if name == other {
      assert (pat + rest)[|pat|..] == rest;
      ReplaceNow(pat + rest, pat, value);
    } else {
      PlaceholdersApart(name, other);
      SkipText(Placeholder(other), rest, pat, value);
    }
  }

  // The text between the holes does not meet the placeholder of the variable.
  predicate Clear(t: Template, name: string) {
    forall i :: 0 <= i < |t| ==> if t[i].Plain? then !Meets(t[i].text, Placeholder(name)) else BraceFree(t[i].name)
  }

  lemma FlatIsClear(t: Template, name: string)
    requires Flat(t)
    ensures Clear(t, name)
  {
    hide Meets;
    forall i | 0 <= i < |t| && t[i].Plain? ensures !Meets(t[i].text, Placeholder(name)) {
      assert FlatSegment(t[i]);
      NoBraceMeetsNothing(t[i].text, name);
    }
    assert forall i :: 0 <= i < |t| ==> FlatSegment(t[i]);
  }

  // Replacing one variable, by any value at all, braces and dollars included, fills
  // exactly its holes.
  lemma {:induction false} OneVariable(t: Template, name: string, value: string)
    requires Clear(t, name) && BraceFree(name)
    ensures ReplaceAll(Render(t), Placeholder(name), value) == Render(FillOne(t, name, value))
  {
    hide Meets;
    if t != [] {
      var g, rest := t[0], Render(t[1..]);
      OneVariable(t[1..], name, value);
      assert FillOne(t, name, value)[1..] == FillOne(t[1..], name, value);
      if g.Plain? {
        SkipText(g.text, rest, Placeholder(name), value);
      } else {
        ReplaceHole(name, g.name, rest, value);
      }
    }
  }

  // In a message, {name} becomes the value.
  lemma NamedValue(u: string, name: string, v: string, value: string)
    requires BraceFree(name) && '{' !in u && '{' !in v
    ensures Interpolate(u + ("{" + name + "}" + v), [Var(name, value)]) == u + (value + v)
  {
    hide ReplaceAll, Meets;
    var pat := Placeholder(name);
    NoBraceMeetsNothing(u, name);
    SkipText(u, pat + v, pat, value);
    ReplaceHole(name, name, v, value);
    ReplaceInPlain(v, Var(name, value));
    assert [Var(name, value)][1..] == [];
    assert Interpolate(u + (value + v), []) == u + (value + v);
  }

  predicate DistinctNames(vars: seq<Var>) {
    forall i, j :: 0 <= i < j < |vars| ==> vars[i].name != vars[j].name
  }

  predicate BraceFreeNames(vars: seq<Var>) { forall i :: 0 <= i < |vars| ==> BraceFree(vars[i].name) }

  function Values(vars: seq<Var>): map<string, string> {
    if vars == [] then map[] else Values(vars[1..])[vars[0].name := vars[0].value]
  }

  lemma {:induction false} UnlistedHasNoValue(vars: seq<Var>, name: string)
    requires forall i :: 0 <= i < |vars| ==> vars[i].name != name
    ensures name !in Values(vars)
  {
    if vars != [] { UnlistedHasNoValue(vars[1..], name); }
  }

  // Replacing v leaves nothing behind for w to replace: v's value does not meet w's
  // placeholder, or w is its own placeholder.
  predicate Passes(v: Var, w: Var) { !Meets(v.value, Placeholder(w.name)) || w.value == Placeholder(w.name) }

  predicate Ready(t: Template, w: Var) { Clear(t, w.name) || w.value == Placeholder(w.name) }

  lemma FillKeepsReady(t: Template, v: Var, w: Var)
    requires Ready(t, w) && Passes(v, w)
    ensures Ready(FillOne(t, v.name, v.value), w)
  {
    hide Meets;
    FillOneAt(t, v.name, v.value);
  }

  lemma {:induction false} FillOneAt(t: Template, name: string, value: string)
    ensures |FillOne(t, name, value)| == |t|
    ensures forall i :: 0 <= i < |t| ==>
              FillOne(t, name, value)[i] == if t[i] == Hole(name) then Plain(value) else t[i]
  {
    if t != [] { FillOneAt(t[1..], name, value); }
  }

  lemma {:induction false} ReplaceBySame(s: string, pat: string)
    requires pat != []
    ensures ReplaceAll(s, pat, pat) == s
    decreases |s|
  {
    if |s| >= |pat| {
      if pat <= s {
        ReplaceBySame(s[|pat|..], pat);
        assert s == pat + s[|pat|..];
      } else {
        ReplaceBySame(s[1..], pat);
        assert s == [s[0]] + s[1..];
      }
    }
  }

  lemma {:induction false} FillBySame(t: Template, name: string)
    ensures Render(FillOne(t, name, Placeholder(name))) == Render(t)
  {
    if t != [] {
      FillBySame(t[1..], name);
      assert FillOne(t, name, Placeholder(name))[1..] == FillOne(t[1..], name, Placeholder(name));
    }
  }

  lemma FillReady(t: Template, v: Var)
    requires Ready(t, v) && BraceFree(v.name)
    ensures ReplaceAll(Render(t), Placeholder(v.name), v.value) == Render(FillOne(t, v.name, v.value))
  {
    if Clear(t, v.name) {
      OneVariable(t, v.name, v.value);
    } else {
      ReplaceBySame(Render(t), v.value);
      FillBySame(t, v.name);
    }
  }

  lemma {:induction false} FillAfterOne(t: Template, name: string, value: string, values: map<string, string>)
    requires name !in values
    ensures Fill(FillOne(t, name, value), values) == Fill(t, values[name := value])
  {
    if t != [] {
      FillAfterOne(t[1..], name, value, values);
      assert FillOne(t, name, value)[1..] == FillOne(t[1..], name, value);
    }
  }

  lemma {:induction false} FillNothing(t: Template)
    ensures Fill(t, map[]) == Render(t)
  {
    if t != [] { FillNothing(t[1..]); }
  }

  ghost predicate PassInTurn(vars: seq<Var>) { forall i, j :: 0 <= i < j < |vars| ==> Passes(vars[i], vars[j]) }

  lemma {:induction false} FillInTurn(t: Template, vars: seq<Var>)
    requires BraceFreeNames(vars) && DistinctNames(vars) && PassInTurn(vars)
    requires forall i :: 0 <= i < |vars| ==> Ready(t, vars[i])
    ensures Interpolate(Render(t), vars) == Fill(t, Values(vars))
    decreases |vars|
  {
    hide Passes, Ready, Clear, FillOne, Fill, Render, ReplaceAll, BraceFree, Placeholder;
    if vars == [] {
      FillNothing(t);
    } else {
      var v, rest := vars[0], vars[1..];
      FillReady(t, v);
      var filled := FillOne(t, v.name, v.value);
      forall i | 0 <= i < |rest| ensures Ready(filled, rest[i]) {
        assert rest[i] == vars[i + 1];
        FillKeepsReady(t, v, rest[i]);
      }
      FillInTurn(filled, rest);
      UnlistedHasNoValue(rest, v.name);
      FillAfterOne(t, v.name, v.value, Values(rest));
    }
  }

  // Replacing the variables of a flat template one after another is substituting all of
  // them at once if no value meets the placeholder of a later variable. The last value is
  // arbitrary, and closing braces never matter.
  lemma SequentialIsSimultaneous(t: Template, vars: seq<Var>)
    requires Flat(t) && BraceFreeNames(vars) && DistinctNames(vars) && PassInTurn(vars)
    ensures Interpolate(Render(t), vars) == Fill(t, Values(vars))
  {
    hide Flat, Clear, Interpolate;
    forall i | 0 <= i < |vars| ensures Ready(t, vars[i]) {
      FlatIsClear(t, vars[i].name);
    }
    FillInTurn(t, vars);
  }

  // ---------- When the order of the variables matters ----------

  lemma {:induction false} ReplaceLength(s: string, pat: string, value: string)
    requires pat != []
    ensures |value| <= |pat| ==> |ReplaceAll(s, pat, value)| <= |s|
    ensures |value| >= |pat| ==> |ReplaceAll(s, pat, value)| >= |s|
    decreases |s|
  {
    if |s| >= |pat| {
      if pat <= s { ReplaceLength(s[|pat|..], pat, value); } else { ReplaceLength(s[1..], pat, value); }
    }
  }

  lemma IndexOfFinds(s: string, pat: string)
    requires IndexOf(s, pat) != -1
    ensures s[IndexOf(s, pat)..][..|pat|] == pat
    decreases |s|
  {
    if !(pat <= s) {
      IndexOfFinds(s[1..], pat);
      assert s[1..][IndexOf(s[1..], pat)..] == s[IndexOf(s, pat)..];
    }
  }

  // Replacing changes every text in which the pattern occurs.
  lemma ReplaceKeepsIff(s: string, pat: string, value: string)
    requires pat != []
    ensures ReplaceAll(s, pat, value) == s <==> value == pat || IndexOf(s, pat) == -1
  {
    hide ReplaceAll, IndexOf;
    ReplaceFirst(s, pat, value);
    var i := IndexOf(s, pat);
    if value == pat {
      ReplaceBySame(s, pat);
    } else if i != -1 {
      var rest := s[i + |pat|..];
      var replaced := ReplaceAll(rest, pat, value);
      ReplaceLength(rest, pat, value);
      if |value| == |pat| {
        IndexOfFinds(s, pat);
        assert (s[..i] + (value + replaced))[i..][..|pat|] == value;
      } else {
        assert |s[..i] + (value + replaced)| == |s| + |value| - |pat| + |replaced| - |rest|;
      }
    }
  }

  // What a value meets, some text without an opening brace completes.
  lemma {:induction false} Complete(s: string, name: string) returns (rest: string)
    requires BraceFree(name) && Meets(s, Placeholder(name))
    ensures '{' !in rest && IndexOf(s + rest, Placeholder(name)) != -1
    decreases |s|
  {
    var pat := Placeholder(name);
    if s <= pat {
      rest := pat[|s|..];
      assert s + rest == pat;
      assert forall k :: |s| <= k < |pat| ==> pat[k] != '{';
    } else if pat <= s {
      rest := [];
      assert s + rest == s;
    } else {
      rest := Complete(s[1..], name);
      assert (s + rest)[1..] == s[1..] + rest;
    }
  }

  lemma InterpolateTwo(msg: string, v: Var, w: Var)
    ensures Interpolate(msg, [v, w])
         == ReplaceAll(ReplaceAll(msg, Placeholder(v.name), v.value), Placeholder(w.name), w.value)
  {
    var both, last := [v, w], [w];
    assert both[1..] == last && last[1..] == [];
    var once := ReplaceAll(msg, Placeholder(v.name), v.value);
    assert Interpolate(once, last) == Interpolate(ReplaceAll(once, Placeholder(w.name), w.value), []);
  }

  lemma ValuesOfTwo(v: Var, w: Var)
    requires v.name != w.name
    ensures Values([v, w]) == map[v.name := v.value, w.name := w.value]
  {
    assert [v, w][1..] == [w] && [w][1..] == [];
    assert Values([w]) == map[w.name := w.value];
  }

  // A hole followed by text.
  function OneHole(name: string, rest: string): Template { [Hole(name), Plain(rest)] }

  lemma RenderOneHole(name: string, rest: string)
    ensures Render(OneHole(name, rest)) == Placeholder(name) + rest
    ensures Render(FillOne(OneHole(name, rest), name, "")) == rest
  {
    var t, tail: Template := OneHole(name, rest), [Plain(rest)];
    assert t[1..] == tail && tail[1..] == [];
    assert Render(tail) == rest;
    assert FillOne(tail, name, "") == tail;
    assert FillOne(t, name, "")[1..] == tail;
  }

  lemma FillOneHole(name: string, rest: string, values: map<string, string>)
    requires name in values
    ensures Fill(OneHole(name, rest), values) == values[name] + rest
  {
    var t, tail: Template := OneHole(name, rest), [Plain(rest)];
    assert t[1..] == tail && tail[1..] == [];
    assert Fill(tail, values) == rest;
  }

  // If v does not pass w, some flat template with one hole comes out wrong when v is
  // replaced first, and right when w is.
  lemma OneOrderFails(v: Var, w: Var) returns (t: Template)
    requires BraceFree(v.name) && BraceFree(w.name) && v.name != w.name && !Passes(v, w)
    ensures Flat(t) && t != [] && t[0] == Hole(v.name) && forall i :: 0 < i < |t| ==> t[i].Plain?
    ensures Interpolate(Render(t), [v, w]) != Fill(t, Values([v, w])) == Interpolate(Render(t), [w, v])
  {
    hide ReplaceAll, IndexOf, Meets, Interpolate, Values, Fill, Render;
    var rest := Complete(v.value, w.name);
    t := OneHole(v.name, rest);
    RenderOneHole(v.name, rest);
    ValuesOfTwo(v, w);
    FillOneHole(v.name, rest, Values([v, w]));
    InterpolateTwo(Render(t), v, w);
    InterpolateTwo(Render(t), w, v);
    ReplaceOneHole(v, rest);
    ReplaceKeepsIff(v.value + rest, Placeholder(w.name), w.value);
    OtherReplaced(v.name, rest, w);
  }

  lemma ReplaceNothing(pat: string, value: string)
    requires pat != []
    ensures ReplaceAll([], pat, value) == []
  {
  }

  lemma ReplaceInPlain(rest: string, w: Var)
    requires '{' !in rest
    ensures ReplaceAll(rest, Placeholder(w.name), w.value) == rest
  {
    NoBraceMeetsNothing(rest, w.name);
    SkipText(rest, [], Placeholder(w.name), w.value);
    ReplaceNothing(Placeholder(w.name), w.value);
    assert rest + [] == rest;
  }

  lemma ReplaceOneHole(v: Var, rest: string)
    requires BraceFree(v.name) && '{' !in rest
    ensures ReplaceAll(Placeholder(v.name) + rest, Placeholder(v.name), v.value) == v.value + rest
  {
    ReplaceHole(v.name, v.name, rest, v.value);
    ReplaceInPlain(rest, v);
  }

  lemma OtherReplaced(name: string, rest: string, w: Var)
    requires BraceFree(name) && BraceFree(w.name) && name != w.name && '{' !in rest
    ensures ReplaceAll(Placeholder(name) + rest, Placeholder(w.name), w.value) == Placeholder(name) + rest
  {
    ReplaceHole(w.name, name, rest, w.value);
    ReplaceInPlain(rest, w);
  }

  // Two variables: replacing them in the given order is filling in both at once, on every
  // flat template, exactly when the first passes the second.
  lemma TwoVariablesIff(v: Var, w: Var)
    requires BraceFree(v.name) && BraceFree(w.name) && v.name != w.name
    ensures (forall t :: Flat(t) ==> Interpolate(Render(t), [v, w]) == Fill(t, Values([v, w]))) <==> Passes(v, w)
  {
    hide Passes, Flat, Interpolate, Fill, Render, Values;
    if Passes(v, w) {
      forall t | Flat(t) ensures Interpolate(Render(t), [v, w]) == Fill(t, Values([v, w])) {
        SequentialIsSimultaneous(t, [v, w]);
      }
    } else {
      var t := OneOrderFails(v, w);
    }
  }

  // The name that follows the last opening brace.
  lemma {:induction false} BraceMeetsSomething(s: string) returns (name: string)
    requires '{' in s
    ensures BraceFree(name) && Meets(s, Placeholder(name))
  {
    var tail := s[1..];
    if '{' in tail {
      name := BraceMeetsSomething(tail);
    } else {
      name := NameAfterBrace(tail);
      assert s == "{" + tail;
    }
  }

  lemma NameAfterBrace(tail: string) returns (name: string)
    requires '{' !in tail
    ensures BraceFree(name) && Meets("{" + tail, Placeholder(name))
  {
    hide Find;
    var s, i := "{" + tail, Find(tail, '}');
    name := tail[..i];
    if i < |tail| {
      assert tail == name + "}" + tail[i + 1..];
      assert s == Placeholder(name) + tail[i + 1..];
      assert Placeholder(name) <= s;
    } else {
      assert Placeholder(name) == s + "}";
      assert s <= Placeholder(name);
    }
  }

  // Which values may precede any other variable: exactly those without an opening brace.
  lemma AnyVariableMayFollowIff(value: string)
    ensures (forall a, w: Var, t ::
               BraceFree(a) && BraceFree(w.name) && a != w.name && Flat(t) ==>
                 Interpolate(Render(t), [Var(a, value), w]) == Fill(t, Values([Var(a, value), w])))
       <==> '{' !in value
  {
    hide Flat, Interpolate, Fill, Render, Values, Meets;
    if '{' in value {
      var name := BraceMeetsSomething(value);
      var a, w := name + "a", Var(name, "");
      assert |a| != |name| && BraceFree(a);
      TwoVariablesIff(Var(a, value), w);
    } else {
      forall a, w: Var, t | BraceFree(a) && BraceFree(w.name) && a != w.name && Flat(t)
        ensures Interpolate(Render(t), [Var(a, value), w]) == Fill(t, Values([Var(a, value), w]))
      {
        NoBraceMeetsNothing(value, w.name);
        TwoVariablesIff(Var(a, value), w);
      }
    }
  }

  // The variables list an assignment, each name once.
  ghost predicate Lists(vars: seq<Var>, values: map<string, string>) {
    DistinctNames(vars) && Values(vars) == values
  }

  // Every variable passes every other.
  ghost predicate Independent(values: map<string, string>) {
    forall a, b :: a in values && b in values && a != b ==> Passes(Var(a, values[a]), Var(b, values[b]))
  }

  lemma {:induction false} ListedValue(vars: seq<Var>, i: nat)
    requires DistinctNames(vars) && i < |vars|
    ensures vars[i].name in Values(vars) && Values(vars)[vars[i].name] == vars[i].value
    decreases |vars|
  {
    if i > 0 { ListedValue(vars[1..], i - 1); }
  }

  lemma ListingFills(t: Template, vars: seq<Var>, values: map<string, string>)
    requires Flat(t) && Lists(vars, values) && Independent(values)
    requires forall name :: name in values ==> BraceFree(name)
    ensures Interpolate(Render(t), vars) == Fill(t, values)
  {
    hide Passes, Flat, Interpolate, Fill, Render, Values, BraceFree;
    forall i | 0 <= i < |vars| ensures vars[i].name in values && values[vars[i].name] == vars[i].value {
      ListedValue(vars, i);
    }
    forall i, j | 0 <= i < j < |vars| ensures Passes(vars[i], vars[j]) {
      assert vars[i] == Var(vars[i].name, values[vars[i].name]);
      assert vars[j] == Var(vars[j].name, values[vars[j].name]);
    }
    SequentialIsSimultaneous(t, vars);
  }

  // So the order in which the variables are listed does not matter.
  lemma OrderDoesNotMatter(t: Template, vars: seq<Var>, others: seq<Var>, values: map<string, string>)
    requires Flat(t) && Lists(vars, values) && Lists(others, values) && Independent(values)
    requires forall name :: name in values ==> BraceFree(name)
    ensures Interpolate(Render(t), vars) == Interpolate(Render(t), others) == Fill(t, values)
  {
    ListingFills(t, vars, values);
    ListingFills(t, others, values);
  }

  lemma {:induction false} ValuesOfMore(vars: seq<Var>, v: Var)
    requires forall i :: 0 <= i < |vars| ==> vars[i].name != v.name
    ensures Values(vars + [v]) == Values(vars)[v.name := v.value]
  {
    if vars == [] {
      assert vars + [v] == [v] && [v][1..] == [];
    } else {
      assert (vars + [v])[1..] == vars[1..] + [v];
      ValuesOfMore(vars[1..], v);
    }
  }

  lemma {:induction false} ValuesNames(vars: seq<Var>, i: nat)
    requires i < |vars|
    ensures vars[i].name in Values(vars)
  {
    if i > 0 { ValuesNames(vars[1..], i - 1); }
  }

  lemma ListOneMore(vars: seq<Var>, values: map<string, string>, v: Var)
    requires Lists(vars, values) && v.name !in values
    ensures Lists(vars + [v], values[v.name := v.value])
  {
    hide Values;
    forall i | 0 <= i < |vars| ensures vars[i].name != v.name { ValuesNames(vars, i); }
    ValuesOfMore(vars, v);
  }

  lemma {:induction false} SomeListing(values: map<string, string>) returns (vars: seq<Var>)
    ensures Lists(vars, values)
    decreases |values|
  {
    if values == map[] {
      vars := [];
    } else {
      var name :| name in values;
      var before := values - {name};
      assert |before| < |values| by { FewerKeys(values, name); }
      assert before[name := values[name]] == values;
      vars := SomeListing(before);
      ListOneMore(vars, before, Var(name, values[name]));
      vars := vars + [Var(name, values[name])];
    }
  }

  lemma FewerKeys(values: map<string, string>, name: string)
    requires name in values
    ensures |values - {name}| < |values|
  {
    assert (values - {name}).Keys == values.Keys - {name};
    assert |(values - {name}).Keys| == |values - {name}| && |values.Keys| == |values|;
  }

  lemma {:induction false} InterpolateConcat(msg: string, a: seq<Var>, b: seq<Var>)
    ensures Interpolate(msg, a + b) == Interpolate(Interpolate(msg, a), b)
    decreases |a|
  {
    hide ReplaceAll;
    if a == [] {
      assert a + b == b;
    } else {
      assert (a + b)[1..] == a[1..] + b;
      InterpolateConcat(ReplaceAll(msg, Placeholder(a[0].name), a[0].value), a[1..], b);
    }
  }

  // The template has no hole of that name.
  ghost predicate Lacks(t: Template, name: string) { forall i :: 0 <= i < |t| ==> t[i] != Hole(name) }

  lemma FillAbsent(t: Template, name: string, value: string)
    requires Lacks(t, name)
    ensures FillOne(t, name, value) == t
  {
    FillOneAt(t, name, value);
  }

  lemma {:induction false} Untouched(t: Template, vars: seq<Var>)
    requires Flat(t) && BraceFreeNames(vars) && forall i :: 0 <= i < |vars| ==> Lacks(t, vars[i].name)
    ensures Interpolate(Render(t), vars) == Render(t)
    decreases |vars|
  {
    hide Flat, Lacks, Render, Clear;
    if vars != [] {
      FlatIsClear(t, vars[0].name);
      OneVariable(t, vars[0].name, vars[0].value);
      FillAbsent(t, vars[0].name, vars[0].value);
      Untouched(t, vars[1..]);
    }
  }

  // That is exact. Every listing of an assignment gives the same text on every flat
  // template if and only if no value meets the placeholder of another variable, a variable
  // whose value is its own placeholder aside.
  lemma AllOrdersAgreeIff(values: map<string, string>)
    requires forall name :: name in values ==> BraceFree(name)
    ensures (forall t, vars, others :: Flat(t) && Lists(vars, values) && Lists(others, values) ==>
               Interpolate(Render(t), vars) == Interpolate(Render(t), others))
       <==> Independent(values)
  {
    hide Passes, Flat, Interpolate, Render, BraceFree, Lists;
    if Independent(values) {
      forall t, vars, others | Flat(t) && Lists(vars, values) && Lists(others, values)
        ensures Interpolate(Render(t), vars) == Interpolate(Render(t), others)
      {
        OrderDoesNotMatter(t, vars, others, values);
      }
    } else {
      var a, b :| a in values && b in values && a != b && !Passes(Var(a, values[a]), Var(b, values[b]));
      var t, vars, others := OrdersDiffer(values, Var(a, values[a]), Var(b, values[b]));
    }
  }

  lemma OrdersDiffer(values: map<string, string>, v: Var, w: Var)
      returns (t: Template, vars: seq<Var>, others: seq<Var>)
    requires forall name :: name in values ==> BraceFree(name)
    requires v.name in values && values[v.name] == v.value && w.name in values && values[w.name] == w.value
    requires v.name != w.name && !Passes(v, w)
    ensures Flat(t) && Lists(vars, values) && Lists(others, values)
    ensures Interpolate(Render(t), vars) != Interpolate(Render(t), others)
  {
    hide Passes, Flat, Interpolate, Render, BraceFree, Lists, Fill;
    t := OneOrderFails(v, w);
    var rest := values - {v.name, w.name};
    var before := SomeListing(rest);
    ListTwoMore(before, rest, v, w);
    ListTwoMore(before, rest, w, v);
    assert rest[v.name := v.value][w.name := w.value] == values == rest[w.name := w.value][v.name := v.value];
    vars, others := before + [v, w], before + [w, v];
    BeforeUntouched(t, before, rest, v);
    InterpolateConcat(Render(t), before, [v, w]);
    InterpolateConcat(Render(t), before, [w, v]);
  }

  lemma ListTwoMore(vars: seq<Var>, values: map<string, string>, v: Var, w: Var)
    requires Lists(vars, values) && v.name !in values && w.name !in values && v.name != w.name
    ensures Lists(vars + [v, w], values[v.name := v.value][w.name := w.value])
  {
    hide Lists;
    ListOneMore(vars, values, v);
    ListOneMore(vars + [v], values[v.name := v.value], w);
    assert vars + [v, w] == vars + [v] + [w];
  }

  lemma BeforeUntouched(t: Template, vars: seq<Var>, values: map<string, string>, v: Var)
    requires Flat(t) && t != [] && t[0] == Hole(v.name) && forall i :: 0 < i < |t| ==> t[i].Plain?
    requires Lists(vars, values) && v.name !in values && forall name :: name in values ==> BraceFree(name)
    ensures Interpolate(Render(t), vars) == Render(t)
  {
    hide Values, Flat, Render, BraceFree, Interpolate;
    forall i | 0 <= i < |vars| ensures BraceFree(vars[i].name) && Lacks(t, vars[i].name) {
      ValuesNames(vars, i);
    }
    Untouched(t, vars);
  }

  // With a placeholder inside a value the order does matter.
  lemma BracedValueOrderMatters(a: string, b: string, x: string)
    requires BraceFree(a) && BraceFree(b) && a != b && x != Placeholder(b)
    ensures Interpolate(Placeholder(a), [Var(a, Placeholder(b)), Var(b, x)]) == x
    ensures Interpolate(Placeholder(a), [Var(b, x), Var(a, Placeholder(b))]) == Placeholder(b)
  {
    var pa, pb := Placeholder(a), Placeholder(b);
    assert pa + [] == pa && pb + [] == pb;
    ReplaceHole(a, a, [], pb);
    ReplaceHole(b, b, [], x);
    ReplaceHole(b, a, [], x);
    assert ReplaceAll([], pa, pb) == [] && ReplaceAll([], pb, x) == [];
    InterpolateTwo(pa, Var(a, pb), Var(b, x));
    InterpolateTwo(pa, Var(b, x), Var(a, pb));
    assert x + [] == x;
  }

  // ---------- When the two providers agree ----------

  lemma {:induction false} WebInterpolateConcat(msg: string, a: seq<Var>, b: seq<Var>)
    ensures WebInterpolate(msg, a + b) == WebInterpolate(WebInterpolate(msg, a), b)
    decreases |a|
  {
    hide WebReplaceAll;
    if a == [] {
      assert a + b == b;
    } else {
      assert (a + b)[1..] == a[1..] + b;
      WebInterpolateConcat(WebReplaceAll(msg, Placeholder(a[0].name), a[0].value), a[1..], b);
    }
  }

  lemma WebKeeps(s: string, pat: string, value: string)
    requires pat != [] && IndexOf(s, pat) == -1
    ensures WebReplaceAll(s, pat, value) == s
  {
    assert s[0..] == s;
  }

  lemma NoOccurrence(t: Template, name: string)
    requires Flat(t) && BraceFree(name) && Lacks(t, name)
    ensures IndexOf(Render(t), Placeholder(name)) == -1
  {
    hide Flat, Clear, Lacks, Render, IndexOf, ReplaceAll;
    FlatIsClear(t, name);
    OneVariable(t, name, "");
    FillAbsent(t, name, "");
    ReplaceKeepsIff(Render(t), Placeholder(name), "");
  }

  lemma {:induction false} WebUntouched(t: Template, vars: seq<Var>)
    requires Flat(t) && BraceFreeNames(vars) && forall i :: 0 <= i < |vars| ==> Lacks(t, vars[i].name)
    ensures WebInterpolate(Render(t), vars) == Render(t)
    decreases |vars|
  {
    hide Flat, Lacks, Render, WebReplaceAll;
    if vars != [] {
      NoOccurrence(t, vars[0].name);
      WebKeeps(Render(t), Placeholder(vars[0].name), vars[0].value);
      WebUntouched(t, vars[1..]);
    }
  }

  ghost predicate OnlyHole(t: Template, name: string) { forall i :: 0 <= i < |t| && t[i].Hole? ==> t[i].name == name }

  lemma RenderFirst(g: Segment, t: Template)
    ensures Render([g] + t) == SegmentText(g) + Render(t)
    ensures FlatSegment(g) && Flat(t) ==> Flat([g] + t)
  {
    assert ([g] + t)[1..] == t;
  }

  // Between two letters x, what a value without opening braces expands to, and the letter
  // after it, is the text of a flat template with no other holes.
  lemma {:induction false} ExpansionIsFlat(name: string, value: string) returns (t: Template)
    requires BraceFree(name) && '{' !in value
    ensures Flat(t) && OnlyHole(t, name)
    ensures Render(t) == Substitution(Placeholder(name), "x", "x", value) + "x"
    decreases |value|
  {
    hide Flat, Render, BraceFree, Placeholder;
    if value == [] {
      t := [Plain("x")];
      RenderFirst(Plain("x"), []);
      assert [Plain("x")] + [] == [Plain("x")] && Render([]) == [] && Flat([]) by { EmptyTemplate(); }
    } else {
      var special := |value| >= 2 && value[0] == '$' && Special(value[1]);
      var g := if !special then Plain([value[0]])
               else match value[1] case '$' => Plain("$") case '&' => Hole(name) case _ => Plain("x");
      var tail := if special then value[2..] else value[1..];
      var rest := ExpansionIsFlat(name, tail);
      t := [g] + rest;
      RenderFirst(g, rest);
      Associate(SegmentText(g), Substitution(Placeholder(name), "x", "x", tail), "x");
    }
  }

  lemma EmptyTemplate()
    ensures Flat([]) && Render([]) == []
  {
  }

  // The templates the two providers are left with after the variable at i.
  lemma PatternShows(vars: seq<Var>, i: nat) returns (t: Template)
    requires BraceFreeNames(vars) && DistinctNames(vars)
    requires i < |vars| && '{' !in vars[i].value && HasPattern(vars[i].value)
    ensures Flat(t) && WebInterpolate(Render(t), vars) != Interpolate(Render(t), vars)
  {
    hide Flat, Render, BraceFree, HasPattern, Substitution, Interpolate, WebInterpolate, WebReplaceAll, ReplaceAll,
      Placeholder;
    var name, value := vars[i].name, vars[i].value;
    var before, after := vars[..i], vars[i + 1..];
    t := LettersTemplate(name);
    OthersUntouched(t, vars, i);
    BetweenLetters(name, value);
    var web := ExpansionIsFlat(name, value);
    web := LetterFirst(web, name);
    OthersUntouched(web, vars, i);
    var mobile := PlainTemplate("x" + value + "x", name);
    OthersUntouched(mobile, vars, i);
    RunThrough(Render(t), vars, i);
    Associate("x", Substitution(Placeholder(name), "x", "x", value), "x");
    ExpansionDiffers(name, value);
  }

  lemma LettersTemplate(name: string) returns (t: Template)
    requires BraceFree(name)
    ensures Flat(t) && OnlyHole(t, name) && Render(t) == "x" + Placeholder(name) + "x"
  {
    t := [Plain("x"), Hole(name), Plain("x")];
    assert t[1..] == [Hole(name), Plain("x")] && t[1..][1..] == [Plain("x")] && t[1..][1..][1..] == [];
    assert Render([Plain("x")]) == "x" + Render([]);
    assert Render(t[1..]) == Placeholder(name) + "x";
  }

  lemma PlainTemplate(text: string, name: string) returns (t: Template)
    requires '{' !in text
    ensures Flat(t) && OnlyHole(t, name) && Render(t) == text
  {
    t := [Plain(text)];
    assert t[1..] == [] && Render([]) == [];
  }

  lemma LetterFirst(t: Template, name: string) returns (r: Template)
    requires Flat(t) && OnlyHole(t, name)
    ensures Flat(r) && OnlyHole(r, name) && Render(r) == "x" + Render(t)
  {
    r := [Plain("x")] + t;
    RenderFirst(Plain("x"), t);
  }

  lemma OthersUntouched(t: Template, vars: seq<Var>, i: nat)
    requires BraceFreeNames(vars) && DistinctNames(vars) && i < |vars| && Flat(t) && OnlyHole(t, vars[i].name)
    ensures Interpolate(Render(t), vars[..i]) == WebInterpolate(Render(t), vars[..i]) == Render(t)
    ensures Interpolate(Render(t), vars[i + 1..]) == WebInterpolate(Render(t), vars[i + 1..]) == Render(t)
  {
    hide Flat, Render, BraceFree;
    Untouched(t, vars[..i]);
    Untouched(t, vars[i + 1..]);
    WebUntouched(t, vars[..i]);
    WebUntouched(t, vars[i + 1..]);
  }

  lemma RunThrough(msg: string, vars: seq<Var>, i: nat)
    requires i < |vars|
    ensures var v, before, after := vars[i], vars[..i], vars[i + 1..];
            && Interpolate(msg, vars)
            == Interpolate(ReplaceAll(Interpolate(msg, before), Placeholder(v.name), v.value), after)
            && WebInterpolate(msg, vars)
            == WebInterpolate(WebReplaceAll(WebInterpolate(msg, before), Placeholder(v.name), v.value), after)
  {
    hide ReplaceAll, WebReplaceAll;
    var rest := vars[i..];
    assert vars == vars[..i] + rest && rest[0] == vars[i] && rest[1..] == vars[i + 1..];
    InterpolateConcat(msg, vars[..i], rest);
    WebInterpolateConcat(msg, vars[..i], rest);
  }

  // Any number of variables, none of whose values has an opening brace: the two providers
  // give the same text for every flat template exactly when no value has a replacement
  // pattern.
  lemma ProvidersAgreeIff(vars: seq<Var>)
    requires BraceFreeNames(vars) && DistinctNames(vars)
    requires forall i :: 0 <= i < |vars| ==> '{' !in vars[i].value
    ensures (forall t :: Flat(t) ==> WebInterpolate(Render(t), vars) == Interpolate(Render(t), vars))
       <==> forall i :: 0 <= i < |vars| ==> !HasPattern(vars[i].value)
  {
    hide HasPattern, Flat, Render, Interpolate, WebInterpolate;
    if i :| 0 <= i < |vars| && HasPattern(vars[i].value) {
      var t := PatternShows(vars, i);
    } else {
      forall t | Flat(t) ensures WebInterpolate(Render(t), vars) == Interpolate(Render(t), vars) {
        ProvidersAgree(Render(t), vars);
      }
    }
  }
}
