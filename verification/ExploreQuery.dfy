// Saved-search queries of the mobile search screen
// (mobile/src/screens/ExploreScreen.js): paramsToQuery and queryToParams.
module ExploreQuery {
  import opened Text
  import opened UrlSearchParams

  // A parameter value: a string, a number given by its String() text, which is never empty
  // (negative numbers, fractions and NaN included), an array of strings, or null or undefined.
  datatype Value = Str(s: string) | Num(numeral: string) | Arr(xs: seq<string>) | Nil

  datatype Entry = Entry(key: string, value: Value)

  // The own enumerable properties of an object, in Object.entries order.
  type Params = seq<Entry>

  // ---------- Property order of JavaScript objects (ECMA-262, section 10.1.11.1) ----------

  function ArrayIndex(key: string): Option<nat> {
    if key != [] && AllDigits(key) && (key == "0" || key[0] != '0') && Text.Value(key) < 4294967295
    then Some(Text.Value(key)) else None
  }

  // The array indices are the decimal numerals of the integers below 2^32 - 1.
  lemma ArrayIndexIff(key: string, n: nat)
    ensures ArrayIndex(key) == Some(n) <==> n < 0xffff_ffff && key == Decimal(n)
  {
    hide Text.Value, Decimal, AllDigits;
    DecimalIsCanonical(n);
    ValueDecimal(n);
    if Canonical(key) { DecimalValue(key); }
    assert |key| == 1 && key[0] == '0' ==> key == "0";
  }

  // Array indices come first, ascending; other keys stay in order of creation.
  predicate MayPrecede(a: string, b: string) {
    ArrayIndex(b).None? || (ArrayIndex(a).Some? && ArrayIndex(a).value <= ArrayIndex(b).value)
  }

  predicate IsObject(params: Params) {
    forall i, j :: 0 <= i < j < |params| ==>
      params[i].key != params[j].key && MayPrecede(params[i].key, params[j].key)
  }

  // Where a new key goes: before the first key that may not precede it.
  function Place(params: Params, key: string): (i: nat)
    ensures i <= |params| && (i < |params| ==> !MayPrecede(params[i].key, key))
    ensures forall k :: 0 <= k < i ==> MayPrecede(params[k].key, key)
  {
    if params == [] || !MayPrecede(params[0].key, key) then 0 else 1 + Place(params[1..], key)
  }

  // params[key] = value for a key that is not a property yet. Assigning a string or an
  // array to __proto__ creates no own property.
  function Assign(params: Params, key: string, value: Value): Params {
    if key == "__proto__" then params
    else
      var i := Place(params, key);
      params[..i] + [Entry(key, value)] + params[i..]
  }

  // ---------- What the two functions compute ----------

  function PairsOf(key: string, xs: seq<string>): seq<Pair> {
    if xs == [] then [] else PairsOf(key, xs[..|xs| - 1]) + [Pair(key, xs[|xs| - 1])]
  }

  // The values an entry contributes to the query.
  function Appended(v: Value): seq<string> {
    match v
    case Arr(xs) => xs
    case Str(s) => if s == "" then [] else [s]
    case Num(numeral) => [numeral]
    case Nil => []
  }

  function ToPairs(params: Params): seq<Pair> {
    if params == [] then []
    else
      var last := params[|params| - 1];
      ToPairs(params[..|params| - 1]) + PairsOf(last.key, Appended(last.value))
  }

  // new Set(sp.keys()): the names in order of first occurrence
  function Names(pairs: seq<Pair>): seq<string> {
    if pairs == [] then []
    else
      var before, name := Names(pairs[..|pairs| - 1]), pairs[|pairs| - 1].name;
      if name in before then before else before + [name]
  }

  // sp.getAll(name)
  function GetAll(pairs: seq<Pair>, name: string): seq<string> {
    if pairs == [] then []
    else
      var last := pairs[|pairs| - 1];
      GetAll(pairs[..|pairs| - 1], name) + if last.name == name then [last.value] else []
  }

  function ValueOf(all: seq<string>): Value {
    if |all| > 1 then Arr(all) else if |all| == 1 then Str(all[0]) else Nil
  }

  function Build(names: seq<string>, pairs: seq<Pair>): Params {
    if names == [] then []
    else
      var name := names[|names| - 1];
      Assign(Build(names[..|names| - 1], pairs), name, ValueOf(GetAll(pairs, name)))
  }

  function FromPairs(pairs: seq<Pair>): Params { Build(Names(pairs), pairs) }

  // ---------- The loops ----------

  method ParamsToPairs(params: Params) returns (sp: seq<Pair>)
    ensures sp == ToPairs(params)
  {
    hide PairsOf;
    sp := [];
    for i := 0 to |params|
      invariant sp == ToPairs(params[..i])
    {
      var k, v := params[i].key, params[i].value;
      ghost var before := sp;
      if v.Arr? {
        PairsOfNone(k);
        for j := 0 to |v.xs|
          invariant sp == before + PairsOf(k, v.xs[..j])
        {
          PairsOfNext(k, v.xs, j);
          sp := sp + [Pair(k, v.xs[j])];
        }
        assert v.xs[..|v.xs|] == v.xs;
      } else if v != Str("") && !v.Nil? {
        sp := sp + [Pair(k, if v.Num? then v.numeral else v.s)];
        PairsOfOne(k, if v.Num? then v.numeral else v.s);
      }
      PairsOfNone(k);
      assert params[..i + 1][..i] == params[..i];
      assert sp == before + PairsOf(k, Appended(v));
    }
    assert params[..|params|] == params;
  }

  lemma PairsOfNone(key: string)
    ensures PairsOf(key, []) == []
  {
  }

  lemma PairsOfNext(key: string, xs: seq<string>, j: nat)
    requires j < |xs|
    ensures PairsOf(key, xs[..j + 1]) == PairsOf(key, xs[..j]) + [Pair(key, xs[j])]
  {
    assert xs[..j + 1][..j] == xs[..j];
  }

  lemma PairsOfOne(key: string, x: string)
    ensures PairsOf(key, [x]) == [Pair(key, x)]
  {
    assert [x][..0] == [];
    assert PairsOf(key, []) == [];
  }

  method PairsToParams(sp: seq<Pair>) returns (out: Params)
    ensures out == FromPairs(sp)
  {
    out := [];
    var names := Names(sp);
    for i := 0 to |names|
      invariant out == Build(names[..i], sp)
    {
      var k := names[i];
      var all := GetAll(sp, k);
      NamesHaveValues(sp, k);
      assert names[..i + 1][..i] == names[..i];
      out := Assign(out, k, if |all| > 1 then Arr(all) else Str(all[0]));
    }
    assert names[..|names|] == names;
  }

  lemma {:induction false} NamesHaveValues(pairs: seq<Pair>, name: string)
    requires name in Names(pairs)
    ensures GetAll(pairs, name) != []
  {
    if pairs[|pairs| - 1].name != name { NamesHaveValues(pairs[..|pairs| - 1], name); }
  }

  method ParamsToQuery(params: Params) returns (query: string)
    requires BytePairs(ToPairs(params))
    ensures query == Serialize(ToPairs(params))
  {
    var sp := ParamsToPairs(params);
    query := Serialize(sp);
  }

  method QueryToParams(query: string) returns (params: Params)
    ensures params == FromPairs(Parse(query))
  {
    params := PairsToParams(Parse(query));
  }

  // ---------- Normal forms ----------

  // The entries a query can express: non-empty strings and arrays of at least two.
  predicate NormalEntry(e: Entry) {
    e.key != "__proto__" && ((e.value.Str? && e.value.s != "") || (e.value.Arr? && |e.value.xs| >= 2))
  }

  predicate Normal(params: Params) { forall i :: 0 <= i < |params| ==> NormalEntry(params[i]) }

  // Entries that parsing can produce; a value may be the empty string.
  predicate ParsedEntry(e: Entry) {
    e.key != "__proto__" && (e.value.Str? || (e.value.Arr? && |e.value.xs| >= 2))
  }

  lemma AssignKeepsObject(params: Params, key: string, value: Value)
    requires IsObject(params) && forall i :: 0 <= i < |params| ==> params[i].key != key
    ensures IsObject(Assign(params, key, value))
  {
    hide ArrayIndex;
    var i := Place(params, key);
    var out := Assign(params, key, value);
    if key != "__proto__" {
      forall k | i <= k < |params| ensures MayPrecede(key, params[k].key) {
        if i < k { assert MayPrecede(params[i].key, params[k].key); }
      }
      forall k | 0 <= k < |out| ensures out[k]
        == if k < i then params[k] else if k == i then Entry(key, value) else params[k - 1] {}
    }
  }

  lemma AssignMembers(params: Params, key: string, value: Value, e: Entry)
    requires key != "__proto__"
    ensures e in Assign(params, key, value) <==> e in params || e == Entry(key, value)
  {
    hide Place;
    var i := Place(params, key);
    assert params == params[..i] + params[i..];
  }

  lemma AssignLast(params: Params, key: string, value: Value)
    requires key != "__proto__" && forall k :: 0 <= k < |params| ==> MayPrecede(params[k].key, key)
    ensures Assign(params, key, value) == params + [Entry(key, value)]
  {
    hide Place, MayPrecede;
    assert params[..|params|] == params && params[|params|..] == [];
  }

  lemma {:induction false} NamesAreDistinct(pairs: seq<Pair>)
    ensures forall i, j :: 0 <= i < j < |Names(pairs)| ==> Names(pairs)[i] != Names(pairs)[j]
  {
    if pairs != [] { NamesAreDistinct(pairs[..|pairs| - 1]); }
  }

  // Building gives an object whose entries are exactly the names with their values.
  lemma {:induction false} BuildIsObject(names: seq<string>, pairs: seq<Pair>)
    requires forall i, j :: 0 <= i < j < |names| ==> names[i] != names[j]
    requires forall i :: 0 <= i < |names| ==> GetAll(pairs, names[i]) != []
    ensures IsObject(Build(names, pairs))
    ensures forall e :: e in Build(names, pairs) ==> e.key in names && ParsedEntry(e)
  {
    hide IsObject, Assign, GetAll;
    if names == [] {
      EmptyIsObject();
    } else {
      var n := |names| - 1;
      var init, name := names[..n], names[n];
      BuildIsObject(init, pairs);
      var before := Build(init, pairs);
      var value := ValueOf(GetAll(pairs, name));
      forall i | 0 <= i < |before| ensures before[i].key != name {
        assert before[i] in before;
      }
      AssignKeepsObject(before, name, value);
      forall e | e in Build(names, pairs) ensures e.key in names && ParsedEntry(e) {
        if name == "__proto__" { AssignProto(before, value); } else { AssignMembers(before, name, value, e); }
      }
    }
  }

  lemma EmptyIsObject()
    ensures IsObject([])
  {
  }

  lemma AssignProto(params: Params, value: Value)
    ensures Assign(params, "__proto__", value) == params
  {
  }

  lemma FromPairsIsObject(pairs: seq<Pair>)
    ensures IsObject(FromPairs(pairs))
    ensures forall e :: e in FromPairs(pairs) ==> ParsedEntry(e)
  {
    NamesAreDistinct(pairs);
    forall i | 0 <= i < |Names(pairs)| ensures GetAll(pairs, Names(pairs)[i]) != [] {
      NamesHaveValues(pairs, Names(pairs)[i]);
    }
    BuildIsObject(Names(pairs), pairs);
  }

  lemma {:induction false} NamesMembers(pairs: seq<Pair>, name: string)
    ensures name in Names(pairs) <==> exists i :: 0 <= i < |pairs| && pairs[i].name == name
  {
    if pairs != [] {
      var n := |pairs| - 1;
      NamesMembers(pairs[..n], name);
      if i :| 0 <= i < |pairs| && pairs[i].name == name {
        if i < n { assert pairs[..n][i].name == name; }
      }
    }
  }

  // Names come in order of their first occurrence: a beginning of the list has a beginning
  // of the names, and of the values under each name.
  lemma {:induction false} FirstOccurrences(pairs: seq<Pair>, n: nat, name: string)
    requires n <= |pairs|
    ensures Names(pairs[..n]) <= Names(pairs) && GetAll(pairs[..n], name) <= GetAll(pairs, name)
    decreases |pairs|
  {
    if n == |pairs| {
      assert pairs[..n] == pairs;
    } else {
      var init := pairs[..|pairs| - 1];
      FirstOccurrences(init, n, name);
      assert init[..n] == pairs[..n];
    }
  }

  // What reading makes of any list of pairs, the pairs of a name wherever they stand: each
  // name but __proto__ with its values.
  lemma ReadEntryIff(pairs: seq<Pair>, e: Entry)
    ensures e in FromPairs(pairs) <==>
            && e.key != "__proto__" && (exists i :: 0 <= i < |pairs| && pairs[i].name == e.key)
            && e.value == ValueOf(GetAll(pairs, e.key))
  {
    hide Names, GetAll, Build, ValueOf;
    NamesMembers(pairs, e.key);
    BuildMembersIff(Names(pairs), pairs, e);
  }

  lemma {:induction false} BuildMembersIff(names: seq<string>, pairs: seq<Pair>, e: Entry)
    ensures e in Build(names, pairs) <==>
            e.key != "__proto__" && e.key in names && e.value == ValueOf(GetAll(pairs, e.key))
  {
    hide Assign, GetAll, ValueOf;
    if names != [] {
      var n := |names| - 1;
      var name, value := names[n], ValueOf(GetAll(pairs, names[n]));
      BuildMembersIff(names[..n], pairs, e);
      assert names == names[..n] + [name];
      if name == "__proto__" {
        AssignProto(Build(names[..n], pairs), value);
      } else {
        AssignMembers(Build(names[..n], pairs), name, value, e);
      }
    }
  }

  // ---------- Reading back what was written ----------

  lemma {:induction false} GetAllConcat(a: seq<Pair>, b: seq<Pair>, name: string)
    ensures GetAll(a + b, name) == GetAll(a, name) + GetAll(b, name)
    decreases |b|
  {
    if b == [] {
      assert a + b == a;
    } else {
      assert (a + b)[..|a + b| - 1] == a + b[..|b| - 1];
      GetAllConcat(a, b[..|b| - 1], name);
    }
  }

  lemma {:induction false} GetAllOfPairs(key: string, xs: seq<string>, name: string)
    ensures GetAll(PairsOf(key, xs), name) == if key == name then xs else []
  {
    if xs != [] {
      var n := |xs| - 1;
      GetAllOfPairs(key, xs[..n], name);
      var before, last := PairsOf(key, xs[..n]), Pair(key, xs[n]);
      assert (before + [last])[..|before + [last]| - 1] == before;
      assert xs == xs[..n] + [xs[n]];
    }
  }

  lemma {:induction false} NamesOfPairs(a: seq<Pair>, key: string, xs: seq<string>)
    requires xs != [] && key !in Names(a)
    ensures Names(a + PairsOf(key, xs)) == Names(a) + [key]
  {
    var n := |xs| - 1;
    var before, last := PairsOf(key, xs[..n]), Pair(key, xs[n]);
    var all := a + PairsOf(key, xs);
    assert all[..|all| - 1] == a + before && all[|all| - 1] == last;
    if n == 0 {
      assert a + before == a;
    } else {
      NamesOfPairs(a, key, xs[..n]);
    }
  }

  function KeysOf(params: Params): seq<string> {
    if params == [] then [] else KeysOf(params[..|params| - 1]) + [params[|params| - 1].key]
  }

  lemma {:induction false} KeysOfAt(params: Params)
    ensures |KeysOf(params)| == |params| && forall i :: 0 <= i < |params| ==> KeysOf(params)[i] == params[i].key
  {
    if params != [] { KeysOfAt(params[..|params| - 1]); }
  }

  // Every entry that contributes something is written under its own name, and reading
  // the names back gives the keys.
  lemma {:induction false} NamesOfToPairs(params: Params)
    requires IsObject(params) && forall i :: 0 <= i < |params| ==> Appended(params[i].value) != []
    ensures Names(ToPairs(params)) == KeysOf(params)
  {
    hide Names, MayPrecede, Appended;
    if params == [] {
      assert Names([]) == [] by { NamesOfNothing(); }
    } else {
      var n := |params| - 1;
      NamesOfToPairs(params[..n]);
      KeysOfAt(params[..n]);
      NamesOfPairs(ToPairs(params[..n]), params[n].key, Appended(params[n].value));
    }
  }

  lemma NamesOfNothing()
    ensures Names([]) == []
  {
  }

  lemma {:induction false} GetAllOfToPairs(params: Params, i: nat)
    requires IsObject(params) && i < |params|
    ensures GetAll(ToPairs(params), params[i].key) == Appended(params[i].value)
  {
    hide GetAll, MayPrecede, Appended;
    var n := |params| - 1;
    var last := params[n];
    GetAllConcat(ToPairs(params[..n]), PairsOf(last.key, Appended(last.value)), params[i].key);
    GetAllOfPairs(last.key, Appended(last.value), params[i].key);
    if i < n {
      GetAllOfToPairs(params[..n], i);
    } else {
      NotWritten(params[..n], last.key);
    }
  }

  lemma {:induction false} NotWritten(params: Params, key: string)
    requires forall i :: 0 <= i < |params| ==> params[i].key != key
    ensures GetAll(ToPairs(params), key) == []
  {
    hide GetAll, Appended;
    if params == [] {
      GetAllOfNothing(key);
    } else {
      var n := |params| - 1;
      NotWritten(params[..n], key);
      GetAllConcat(ToPairs(params[..n]), PairsOf(params[n].key, Appended(params[n].value)), key);
      GetAllOfPairs(params[n].key, Appended(params[n].value), key);
    }
  }

  lemma GetAllOfNothing(key: string)
    ensures GetAll([], key) == []
  {
  }

  // ---------- Reading back any object ----------

  // What a query keeps of an entry: numbers come back as strings and arrays of one as their
  // element.
  function ReadEntry(e: Entry): Entry {
    match e.value
    case Num(numeral) => Entry(e.key, Str(numeral))
    case Arr(xs) => if |xs| == 1 then Entry(e.key, Str(xs[0])) else e
    case _ => e
  }

  predicate Survives(e: Entry) {
    e.key != "__proto__" && e.value != Str("") && e.value != Nil && e.value != Arr([])
  }

  function AfterQuery(params: Params): Params {
    if params == [] then []
    else
      var last := params[|params| - 1];
      AfterQuery(params[..|params| - 1]) + if Survives(last) then [ReadEntry(last)] else []
  }

  // The entries that write anything.
  function Written(params: Params): Params {
    if params == [] then []
    else
      var last := params[|params| - 1];
      Written(params[..|params| - 1]) + if Appended(last.value) == [] then [] else [last]
  }

  lemma ReadBackEntry(e: Entry)
    ensures Appended(e.value) == [] <==> e.value == Str("") || e.value == Nil || e.value == Arr([])
    ensures Appended(e.value) != [] ==> Entry(e.key, ValueOf(Appended(e.value))) == ReadEntry(e)
  {
  }

  lemma AfterOneMore(init: Params, last: Entry)
    ensures AfterQuery(init + [last]) == AfterQuery(init) + if Survives(last) then [ReadEntry(last)] else []
  {
    assert (init + [last])[..|init|] == init;
  }

  // `w` is `params` without entries that write nothing.
  ghost predicate SameQuery(w: Params, params: Params) {
    && ToPairs(w) == ToPairs(params) && AfterQuery(w) == AfterQuery(params) && IsObject(w)
    && (forall e :: e in w ==> e in params) && (forall i :: 0 <= i < |w| ==> Appended(w[i].value) != [])
  }

  lemma {:induction false} WrittenFacts(params: Params)
    requires IsObject(params)
    ensures SameQuery(Written(params), params)
  {
    hide IsObject, SameQuery, Appended;
    if params == [] {
      NothingSame();
    } else {
      var n := |params| - 1;
      var init, last := params[..n], params[n];
      InitIsObject(params);
      WrittenFacts(init);
      assert params == init + [last];
      if Appended(last.value) == [] {
        SkipEntry(Written(init), init, last);
        assert Written(init) + [] == Written(init);
      } else {
        KeepEntry(Written(init), init, last);
      }
    }
  }

  lemma NothingSame()
    ensures SameQuery([], [])
  {
  }

  lemma SkipEntry(w: Params, init: Params, last: Entry)
    requires SameQuery(w, init) && Appended(last.value) == []
    ensures SameQuery(w, init + [last])
  {
    hide IsObject, PairsOf, Appended, Survives, ReadEntry, AfterQuery;
    PairsOfNone(last.key);
    NothingWritten(last);
    AfterOneMore(init, last);
    ToPairsMore(init, last);
    assert ToPairs(init) + [] == ToPairs(init) && AfterQuery(init) + [] == AfterQuery(init);
    hide ToPairs;
  }

  lemma KeepEntry(w: Params, init: Params, last: Entry)
    requires SameQuery(w, init) && Appended(last.value) != [] && IsObject(init + [last])
    ensures SameQuery(w + [last], init + [last])
  {
    hide IsObject, PairsOf, Appended, Survives, ReadEntry, AfterQuery, ToPairs;
    KeepOneMore(init, w, last);
    ToPairsMore(init, last);
    AfterOneMore(init, last);
    AfterOneMore(w, last);
  }

  lemma ToPairsMore(init: Params, last: Entry)
    ensures ToPairs(init + [last]) == ToPairs(init) + PairsOf(last.key, Appended(last.value))
  {
    hide PairsOf, Appended;
    assert (init + [last])[..|init|] == init;
  }

  lemma NothingWritten(e: Entry)
    requires Appended(e.value) == []
    ensures !Survives(e)
  {
  }

  lemma {:induction false} AfterQueryKeys(params: Params, k: nat)
    requires k < |AfterQuery(params)|
    ensures exists i :: 0 <= i < |params| && params[i].key == AfterQuery(params)[k].key
  {
    var n := |params| - 1;
    var before := AfterQuery(params[..n]);
    if k < |before| {
      AfterQueryKeys(params[..n], k);
      var i :| 0 <= i < n && params[..n][i].key == before[k].key;
      assert params[i].key == AfterQuery(params)[k].key;
    } else {
      assert params[n].key == AfterQuery(params)[k].key;
    }
  }

  // Assigning the values of an object's keys one after another, in order, rebuilds it.
  lemma {:induction false} Rebuild(params: Params, pairs: seq<Pair>, n: nat)
    requires IsObject(params) && n <= |params| == |KeysOf(params)|
    requires forall i :: 0 <= i < |params| ==>
               Appended(params[i].value) != [] && GetAll(pairs, params[i].key) == Appended(params[i].value)
    ensures Build(KeysOf(params)[..n], pairs) == AfterQuery(params[..n])
    decreases n
  {
    hide GetAll, Assign, MayPrecede, Appended, ReadEntry, Survives, ValueOf, IsObject, AfterQuery;
    KeysOfAt(params);
    var keys := KeysOf(params);
    if n == 0 {
      assert AfterQuery([]) == [] by { NothingRead(); }
    } else {
      hide Build;
      var e, before := params[n - 1], params[..n - 1];
      Rebuild(params, pairs, n - 1);
      assert keys[..n][..n - 1] == keys[..n - 1];
      BuildLast(keys[..n], pairs);
      assert params[..n] == before + [e];
      AfterOneMore(before, e);
      ReadBackEntry(e);
      AssignRead(before, e, ValueOf(Appended(e.value)), params, n - 1);
    }
  }

  lemma NothingRead()
    ensures AfterQuery([]) == []
  {
  }

  lemma BuildLast(names: seq<string>, pairs: seq<Pair>)
    requires names != []
    ensures var n := |names| - 1;
            Build(names, pairs) == Assign(Build(names[..n], pairs), names[n], ValueOf(GetAll(pairs, names[n])))
  {
  }

  lemma AssignRead(before: Params, e: Entry, value: Value, params: Params, n: nat)
    requires IsObject(params) && n < |params| && before == params[..n] && e == params[n]
    requires Entry(e.key, value) == ReadEntry(e) && Appended(e.value) != []
    ensures Assign(AfterQuery(before), e.key, value)
         == AfterQuery(before) + if Survives(e) then [ReadEntry(e)] else []
  {
    hide MayPrecede, Appended, ReadEntry;
    ReadBackEntry(e);
    if e.key == "__proto__" {
      AssignProto(AfterQuery(before), value);
    } else {
      forall k | 0 <= k < |AfterQuery(before)| ensures MayPrecede(AfterQuery(before)[k].key, e.key) {
        AfterQueryKeys(before, k);
        var i :| 0 <= i < |before| && before[i].key == AfterQuery(before)[k].key;
        assert params[i].key == before[i].key;
      }
      AssignLast(AfterQuery(before), e.key, value);
    }
  }

  lemma PairsReadBack(params: Params)
    requires IsObject(params)
    ensures FromPairs(ToPairs(params)) == AfterQuery(params)
  {
    hide IsObject, GetAll, Names, Build, ToPairs, Appended, AfterQuery;
    WrittenFacts(params);
    var written, pairs := Written(params), ToPairs(params);
    forall i | 0 <= i < |written| ensures GetAll(pairs, written[i].key) == Appended(written[i].value) {
      GetAllOfToPairs(written, i);
    }
    NamesOfToPairs(written);
    KeysOfAt(written);
    Rebuild(written, pairs, |written|);
    assert KeysOf(written)[..|written|] == KeysOf(written) && written[..|written|] == written;
  }

  function ToQuery(params: Params): string
    requires BytePairs(ToPairs(params))
  {
    Serialize(ToPairs(params))
  }

  function FromQuery(query: string): Params { FromPairs(Parse(query)) }

  // Whatever the object: written as a query and read back it is the same object, in the
  // same order, except that numbers have become strings and arrays of one their element,
  // and that empty strings, null, undefined, empty arrays and a __proto__ key are gone.
  lemma QueryReadsBack(params: Params)
    requires IsObject(params) && BytePairs(ToPairs(params))
    ensures FromQuery(ToQuery(params)) == AfterQuery(params)
  {
    hide IsObject, ToPairs, FromPairs;
    ParseSerialize(ToPairs(params));
    PairsReadBack(params);
  }

  lemma {:induction false} UnchangedIff(params: Params)
    ensures |AfterQuery(params)| <= |params|
    ensures AfterQuery(params) == params <==> Normal(params)
  {
    hide NormalEntry, Survives, ReadEntry;
    if params != [] {
      var n := |params| - 1;
      var init, last := params[..n], params[n];
      UnchangedIff(init);
      assert params == init + [last];
      EntryUnchangedIff(last);
      var tail := if Survives(last) then [ReadEntry(last)] else [];
      SameSplit(AfterQuery(init), tail, init, last);
    }
  }

  lemma SameSplit(a: Params, tail: Params, init: Params, last: Entry)
    requires |a| <= |init| && |tail| <= 1
    ensures a + tail == init + [last] <==> a == init && tail == [last]
  {
    if a + tail == init + [last] {
      assert |a| == |init|;
      assert a == (a + tail)[..|a|] && init == (init + [last])[..|init|];
      assert tail == (a + tail)[|a|..] && [last] == (init + [last])[|init|..];
    }
  }

  lemma EntryUnchangedIff(e: Entry)
    ensures NormalEntry(e) <==> Survives(e) && ReadEntry(e) == e
  {
  }

  // So an object survives exactly when every value is a non-empty string or an array of at
  // least two strings and no key is __proto__.
  lemma QueryRoundTripIff(params: Params)
    requires IsObject(params) && BytePairs(ToPairs(params))
    ensures FromQuery(ToQuery(params)) == params <==> Normal(params)
  {
    QueryReadsBack(params);
    UnchangedIff(params);
  }

  // ---------- Idempotence on arbitrary queries ----------

  // What writing keeps of a parsed object: the entries whose value is not empty.
  function Kept(params: Params): Params {
    if params == [] then []
    else
      var last := params[|params| - 1];
      Kept(params[..|params| - 1]) + if last.value == Str("") then [] else [last]
  }

  // Of a parsed object that is what writes anything, in normal form.
  lemma {:induction false} KeptIsWritten(params: Params)
    requires forall e :: e in params ==> ParsedEntry(e)
    ensures Kept(params) == Written(params) && Normal(Kept(params))
  {
    hide ParsedEntry, NormalEntry, Appended;
    if params != [] {
      var n := |params| - 1;
      assert ParsedEntry(params[n]);
      KeptIsNormal(params[n]);
      KeptIsWritten(params[..n]);
    }
  }

  lemma KeptFacts(params: Params)
    requires IsObject(params) && forall e :: e in params ==> ParsedEntry(e)
    ensures ToPairs(Kept(params)) == ToPairs(params)
    ensures IsObject(Kept(params)) && Normal(Kept(params))
    ensures forall e :: e in Kept(params) ==> e in params
  {
    hide IsObject, ToPairs, ParsedEntry, Normal, AfterQuery, Appended;
    WrittenFacts(params);
    KeptIsWritten(params);
  }

  lemma InitIsObject(params: Params)
    requires IsObject(params) && params != []
    ensures IsObject(params[..|params| - 1])
  {
  }

  lemma KeptIsNormal(e: Entry)
    requires ParsedEntry(e)
    ensures if e.value == Str("") then Appended(e.value) == [] else NormalEntry(e) && Appended(e.value) != []
  {
  }

  lemma KeepOneMore(init: Params, before: Params, last: Entry)
    requires IsObject(init + [last]) && IsObject(before) && forall e :: e in before ==> e in init
    ensures IsObject(before + [last])
    ensures ToPairs(before + [last]) == ToPairs(before) + PairsOf(last.key, Appended(last.value))
  {
    hide MayPrecede, PairsOf, Appended;
    var kept := before + [last];
    assert kept[..|kept| - 1] == before;
    forall i | 0 <= i < |before| ensures before[i].key != last.key && MayPrecede(before[i].key, last.key) {
      assert before[i] in before;
      var k :| 0 <= k < |init| && init[k] == before[i];
      assert (init + [last])[k] == before[i] && (init + [last])[|init|] == last;
    }
  }

  lemma {:induction false} PairsOfMembers(key: string, xs: seq<string>, p: Pair)
    requires p in PairsOf(key, xs)
    ensures p.name == key && p.value in xs
  {
    var n := |xs| - 1;
    if p in PairsOf(key, xs[..n]) { PairsOfMembers(key, xs[..n], p); }
  }

  lemma {:induction false} ToPairsMembers(params: Params, p: Pair)
    requires p in ToPairs(params)
    ensures exists e :: e in params && p.name == e.key && p.value in Appended(e.value)
  {
    hide PairsOf, Appended;
    var n := |params| - 1;
    if p in ToPairs(params[..n]) {
      ToPairsMembers(params[..n], p);
    } else {
      PairsOfMembers(params[n].key, Appended(params[n].value), p);
      assert params[n] in params;
    }
  }

  lemma {:induction false} GetAllMembers(pairs: seq<Pair>, name: string, x: string)
    requires x in GetAll(pairs, name)
    ensures Pair(name, x) in pairs
  {
    var n := |pairs| - 1;
    if x in GetAll(pairs[..n], name) { GetAllMembers(pairs[..n], name, x); }
  }

  // Writing what was read writes only pairs that were read.
  lemma RewrittenPairs(pairs: seq<Pair>)
    ensures forall p :: p in ToPairs(FromPairs(pairs)) ==> p in pairs
  {
    hide ToPairs, FromPairs, GetAll, Build, Names;
    forall p | p in ToPairs(FromPairs(pairs)) ensures p in pairs {
      ToPairsMembers(FromPairs(pairs), p);
      var e :| e in FromPairs(pairs) && p.name == e.key && p.value in Appended(e.value);
      FromPairsMembers(pairs, e);
      AppendedValues(GetAll(pairs, e.key), p.value);
      GetAllMembers(pairs, e.key, p.value);
    }
  }

  lemma FromPairsMembers(pairs: seq<Pair>, e: Entry)
    requires e in FromPairs(pairs)
    ensures e.value == ValueOf(GetAll(pairs, e.key))
  {
    BuildMembersIff(Names(pairs), pairs, e);
  }

  lemma AppendedValues(all: seq<string>, x: string)
    requires x in Appended(ValueOf(all))
    ensures x in all
  {
  }

  lemma RewrittenIsBytes(query: string)
    requires Bytes(query)
    ensures BytePairs(ToPairs(FromQuery(query)))
  {
    hide ToPairs, FromPairs, Parse;
    ParseKeepsBytes(query);
    RewrittenPairs(Parse(query));
    var pairs := ToPairs(FromQuery(query));
    forall i | 0 <= i < |pairs| ensures Bytes(pairs[i].name) && Bytes(pairs[i].value) {
      assert pairs[i] in Parse(query);
    }
  }

  // The query written for the object that a query was read into.
  function Rewrite(query: string): string
    requires Bytes(query)
  {
    RewrittenIsBytes(query);
    ToQuery(FromQuery(query))
  }

  // Rewriting any query text at all, malformed or with interleaved repeated keys, reaches
  // a fixed point in one step: reading the rewritten query gives the non-empty entries of
  // the object, and writing them gives the same text.
  lemma RewriteIsIdempotent(query: string)
    requires Bytes(query)
    ensures FromQuery(Rewrite(query)) == Kept(FromQuery(query))
    ensures BytePairs(ToPairs(FromQuery(Rewrite(query))))
    ensures ToQuery(FromQuery(Rewrite(query))) == Rewrite(query)
  {
    hide ToPairs, FromPairs, Parse, Serialize, Kept, IsObject;
    var params := FromQuery(query);
    RewrittenIsBytes(query);
    FromPairsIsObject(Parse(query));
    KeptFacts(params);
    ParseSerialize(ToPairs(params));
    PairsReadBack(Kept(params));
    UnchangedIff(Kept(params));
  }
}
