// Reordering a listing's photos: movePhoto and makeCover of the mobile listing form
// (mobile/src/screens/HostListingFormScreen.js) against the order check of the backend
// (ReorderPhotos in backend/internal/domain/property/property.go).
module ListingPhotos {
  import opened Text
  import opened Sequences

  type Id = string

  datatype Photo = Photo(id: Id, url: string, position: int)

  // photos.map((p) => p.id)
  function IdsOf(photos: seq<Photo>): (ids: seq<Id>)
    ensures |ids| == |photos| && forall i :: 0 <= i < |photos| ==> ids[i] == photos[i].id
  {
    if photos == [] then [] else [photos[0].id] + IdsOf(photos[1..])
  }

  // ---------- The backend's check ----------

  // The photo with an id, as the backend's map from ids to photos finds it.
  ghost predicate IsPhoto(photos: seq<Photo>, id: Id, url: string) {
    exists k :: 0 <= k < |photos| && photos[k].id == id && photos[k].url == url
  }

  // The photos with distinct ids, put in the given order and numbered from 0.
  ghost predicate Reordered(photos: seq<Photo>, ids: seq<Id>, r: seq<Photo>) {
    && IdsOf(r) == ids
    && forall i :: 0 <= i < |r| ==> r[i].position == i && IsPhoto(photos, r[i].id, r[i].url)
  }

  // byID: the photos by id
  method PhotosById(photos: seq<Photo>) returns (byId: map<Id, Photo>)
    ensures forall id :: id in byId <==> id in IdsOf(photos)
    ensures forall id :: id in byId ==> byId[id].id == id && IsPhoto(photos, id, byId[id].url)
  {
    hide IdsOf;
    byId := map[];
    for i := 0 to |photos|
      invariant forall id :: id in byId <==> exists k :: 0 <= k < i && photos[k].id == id
      invariant forall id :: id in byId ==> byId[id].id == id && IsPhoto(photos, id, byId[id].url)
    {
      byId := byId[photos[i].id := photos[i]];
    }
    forall id ensures id in byId <==> id in IdsOf(photos) {
      if id in byId {
        var k :| 0 <= k < |photos| && photos[k].id == id;
        assert IdsOf(photos)[k] == id;
      }
    }
  }

  // renumberPhotos
  method Renumber(photos: seq<Photo>) returns (r: seq<Photo>)
    ensures |r| == |photos| && forall k :: 0 <= k < |r| ==> r[k] == photos[k].(position := k)
  {
    r := photos;
    for i := 0 to |r|
      invariant |r| == |photos|
      invariant forall k :: 0 <= k < |photos| ==> r[k] == if k < i then photos[k].(position := k) else photos[k]
    {
      r := r[i := r[i].(position := i)];
    }
  }

  // An order is accepted exactly when it is a permutation of the current ids.
  method ReorderPhotos(photos: seq<Photo>, orderedIds: seq<Id>) returns (r: Option<seq<Photo>>)
    ensures Distinct(IdsOf(photos)) ==> (r.Some? <==> multiset(orderedIds) == multiset(IdsOf(photos)))
    ensures r.Some? ==> Reordered(photos, orderedIds, r.value)
  {
    hide IdsOf, IsPhoto;
    if |orderedIds| != |photos| {
      assert |multiset(orderedIds)| != |multiset(IdsOf(photos))|;
      return None;
    }
    var byId := PhotosById(photos);
    var reordered: seq<Photo> := [];
    var seen: set<Id> := {};
    for i := 0 to |orderedIds|
      invariant |reordered| == i
      invariant forall k :: 0 <= k < i ==>
        orderedIds[k] in byId && orderedIds[k] in seen && reordered[k] == byId[orderedIds[k]]
      invariant forall id :: id in seen ==> id in orderedIds[..i]
      invariant Distinct(orderedIds[..i])
    {
      var id := orderedIds[i];
      if id !in byId {
        UnknownId(IdsOf(photos), orderedIds, i);
        return None;
      }
      if id in seen {
        RepeatedId(IdsOf(photos), orderedIds, i);
        return None;
      }
      assert orderedIds[..i + 1] == orderedIds[..i] + [id];
      reordered := reordered + [byId[id]];
      seen := seen + {id};
    }
    assert orderedIds[..|orderedIds|] == orderedIds;
    AllListed(orderedIds, IdsOf(photos));
    var numbered := Renumber(reordered);
    assert IdsOf(numbered) == orderedIds;
    return Some(numbered);
  }

  lemma UnknownId(current: seq<Id>, ids: seq<Id>, i: nat)
    requires i < |ids| && ids[i] !in current
    ensures multiset(ids) != multiset(current)
  {
    assert ids[i] in multiset(ids);
  }

  lemma RepeatedId(current: seq<Id>, ids: seq<Id>, i: nat)
    requires i < |ids| && ids[i] in ids[..i]
    ensures Distinct(current) ==> multiset(ids) != multiset(current)
  {
    var k :| 0 <= k < i && ids[k] == ids[i];
    RepeatedOccurs(ids, k, i);
    if Distinct(current) { DistinctOccurOnce(current, ids[i]); }
  }

  // Distinct ids from the current ones, as many as there are, are all of them.
  lemma {:induction false} AllListed(ids: seq<Id>, current: seq<Id>)
    requires |ids| == |current| && Distinct(ids) && forall k :: 0 <= k < |ids| ==> ids[k] in current
    ensures multiset(ids) == multiset(current)
    decreases |ids|
  {
    hide RemoveAt;
    if ids != [] {
      var k :| 0 <= k < |current| && current[k] == ids[0];
      var rest := RemoveAt(current, k);
      forall j | 0 <= j < |ids[1..]| ensures ids[1..][j] in rest {
        var l :| 0 <= l < |current| && current[l] == ids[j + 1];
        assert l != k;
        RemoveAtAt(current, k, if l < k then l else l - 1);
      }
      AllListed(ids[1..], rest);
      assert ids == [ids[0]] + ids[1..];
      RemoveAtMembers(current, k);
    }
  }

  // ---------- Moves ----------

  datatype Move = Move(index: nat, delta: int)

  predicate InRange(ids: seq<Id>, m: Move) {
    m.index < |ids| && 0 <= m.index + m.delta < |ids|
  }

  // The order movePhoto asks for; outside the list it asks for nothing.
  function Moved(ids: seq<Id>, m: Move): (r: seq<Id>)
    requires m.index < |ids|
    ensures |r| == |ids|
  {
    var target := m.index + m.delta;
    if target < 0 || target >= |ids| then ids
    else ids[m.index := ids[target]][target := ids[m.index]]
  }

  // A move within the list exchanges two photos and leaves the others; any other move asks
  // for nothing.
  lemma MovedSwaps(ids: seq<Id>, m: Move, k: nat)
    requires m.index < |ids| && k < |ids|
    ensures InRange(ids, m) ==>
              Moved(ids, m)[k] ==
              if k == m.index then ids[m.index + m.delta] else if k == m.index + m.delta then ids[m.index] else ids[k]
    ensures !InRange(ids, m) ==> Moved(ids, m) == ids
  {
  }

  // The right arrow of a photo does what the left arrow of the next one does, and pressing
  // it there again takes it back.
  lemma RightIsLeftOfNext(ids: seq<Id>, i: nat)
    requires i + 1 < |ids|
    ensures Moved(ids, Move(i, 1)) == Moved(ids, Move(i + 1, -1))
    ensures Moved(Moved(ids, Move(i, 1)), Move(i + 1, -1)) == ids
  {
    var once := Moved(ids, Move(i, 1));
    forall k | 0 <= k < |ids| ensures once[k] == Moved(ids, Move(i + 1, -1))[k] {
      MovedSwaps(ids, Move(i, 1), k);
      MovedSwaps(ids, Move(i + 1, -1), k);
    }
  }

  // The order makeCover asks for.
  function Cover(ids: seq<Id>, id: Id): seq<Id> { [id] + Others(ids, id) }

  // ids.filter((x) => x !== id)
  function Others(ids: seq<Id>, id: Id): seq<Id> {
    if ids == [] then [] else (if ids[0] != id then [ids[0]] else []) + Others(ids[1..], id)
  }

  lemma MovedRows(ids: seq<Id>, m: Move)
    requires m.index < |ids|
    ensures multiset(Moved(ids, m)) == multiset(ids)
  {
  }

  lemma {:induction false} OthersRows(ids: seq<Id>, id: Id)
    ensures multiset(Others(ids, id)) == multiset(ids)[id := 0]
  {
    if ids != [] {
      OthersRows(ids[1..], id);
      assert ids == [ids[0]] + ids[1..];
    }
  }

  // The order makeCover asks for is one the backend accepts exactly when the photo is
  // one of the listing's.
  lemma CoverIsPermutationIff(ids: seq<Id>, id: Id)
    requires Distinct(ids)
    ensures multiset(Cover(ids, id)) == multiset(ids) <==> id in ids
  {
    OthersRows(ids, id);
    DistinctOccurOnce(ids, id);
    assert multiset(Cover(ids, id)) == multiset(ids)[id := 1];
  }

  // ---------- The form ----------

  class Form {
    var photos: seq<Photo>

    constructor (loaded: seq<Photo>)
      ensures photos == loaded
    {
      photos := loaded;
    }

    // `online` says whether the request gets through.
    method MovePhoto(index: nat, delta: int, online: bool)
      requires index < |photos|
      modifies this
      ensures !online || !InRange(old(IdsOf(photos)), Move(index, delta)) ==> photos == old(photos)
      ensures online && InRange(old(IdsOf(photos)), Move(index, delta)) && Distinct(old(IdsOf(photos))) ==>
                Reordered(old(photos), Moved(old(IdsOf(photos)), Move(index, delta)), photos)
    {
      var target := index + delta;
      if target < 0 || target >= |photos| { return; }
      var current := IdsOf(photos);
      var ids := new Id[|current|](i requires 0 <= i < |current| => current[i]);
      assert ids[..] == current;
      ids[index], ids[target] := ids[target], ids[index];
      assert ids[..] == Moved(current, Move(index, delta));
      MovedRows(current, Move(index, delta));
      if online {
        var updated := ReorderPhotos(photos, ids[..]);
        if updated.Some? { photos := updated.value; }
      }
    }

    method MakeCover(photoId: Id, online: bool)
      modifies this
      ensures !online ==> photos == old(photos)
      ensures Distinct(old(IdsOf(photos))) && photoId !in old(IdsOf(photos)) ==> photos == old(photos)
      ensures online && photoId in old(IdsOf(photos)) && Distinct(old(IdsOf(photos))) ==>
                Reordered(old(photos), Cover(old(IdsOf(photos)), photoId), photos)
    {
      var ids := IdsOf(photos);
      var reordered := [photoId] + Others(ids, photoId);
      if Distinct(ids) { CoverIsPermutationIff(ids, photoId); }
      if online {
        var updated := ReorderPhotos(photos, reordered);
        if updated.Some? { photos := updated.value; }
      }
    }
  }

  // ---------- What moves can reach ----------

  // The moves are presses of the two arrows, all of them within the list.
  predicate Presses(ids: seq<Id>, moves: seq<Move>)
    decreases |moves|
  {
    moves != [] ==>
      && InRange(ids, moves[0]) && (moves[0].delta == -1 || moves[0].delta == 1)
      && Presses(Moved(ids, moves[0]), moves[1..])
  }

  function Apply(ids: seq<Id>, moves: seq<Move>): (r: seq<Id>)
    requires Presses(ids, moves)
    ensures |r| == |ids|
    decreases |moves|
  {
    if moves == [] then ids else Apply(Moved(ids, moves[0]), moves[1..])
  }

  lemma {:induction false} ApplyConcat(ids: seq<Id>, a: seq<Move>, b: seq<Move>)
    requires Presses(ids, a) && Presses(Apply(ids, a), b)
    ensures Presses(ids, a + b) && Apply(ids, a + b) == Apply(Apply(ids, a), b)
    decreases |a|
  {
    if a == [] {
      assert a + b == b;
    } else {
      assert (a + b)[1..] == a[1..] + b;
      ApplyConcat(Moved(ids, a[0]), a[1..], b);
    }
  }

  // i presses of the left arrow, starting on the photo at position i.
  function LeftPresses(i: nat): seq<Move> {
    if i == 0 then [] else [Move(i, -1)] + LeftPresses(i - 1)
  }

  function ToFront(ids: seq<Id>, i: nat): seq<Id>
    requires i < |ids|
  {
    [ids[i]] + ids[..i] + ids[i + 1..]
  }

  lemma SameFront(ids: seq<Id>, i: nat)
    requires 0 < i < |ids|
    ensures ToFront(Moved(ids, Move(i, -1)), i - 1) == ToFront(ids, i)
  {
    var once := Moved(ids, Move(i, -1));
    assert once[..i - 1] == ids[..i - 1] && ids[..i] == ids[..i - 1] + [ids[i - 1]];
    assert once[i..] == [ids[i - 1]] + ids[i + 1..];
  }

  lemma PressFirst(ids: seq<Id>, m: Move, rest: seq<Move>)
    requires InRange(ids, m) && m.delta == -1 && Presses(Moved(ids, m), rest)
    ensures Presses(ids, [m] + rest) && Apply(ids, [m] + rest) == Apply(Moved(ids, m), rest)
  {
    assert ([m] + rest)[1..] == rest;
  }

  lemma NoPresses(ids: seq<Id>)
    requires ids != []
    ensures Presses(ids, []) && Apply(ids, []) == ids == ToFront(ids, 0)
  {
  }

  lemma {:induction false} LeftPressesBringToFront(ids: seq<Id>, i: nat)
    requires i < |ids|
    ensures Presses(ids, LeftPresses(i)) && Apply(ids, LeftPresses(i)) == ToFront(ids, i)
    decreases i
  {
    hide Presses, Apply, ToFront, Moved;
    if i == 0 {
      NoPresses(ids);
    } else {
      LeftPressesBringToFront(Moved(ids, Move(i, -1)), i - 1);
      PressFirst(ids, Move(i, -1), LeftPresses(i - 1));
      SameFront(ids, i);
    }
  }

  lemma {:induction false} OthersAround(ids: seq<Id>, i: nat)
    requires Distinct(ids) && i < |ids|
    ensures Others(ids, ids[i]) == ids[..i] + ids[i + 1..]
    decreases |ids|
  {
    if i == 0 {
      OthersOfAbsent(ids[1..], ids[0]);
    } else {
      OthersAround(ids[1..], i - 1);
      assert ids[1..][..i - 1] == ids[1..i] && ids[1..][i..] == ids[i + 1..];
      assert ids[..i] == [ids[0]] + ids[1..i];
    }
  }

  lemma {:induction false} OthersOfAbsent(ids: seq<Id>, id: Id)
    requires id !in ids
    ensures Others(ids, id) == ids
  {
    if ids != [] { OthersOfAbsent(ids[1..], id); }
  }

  // One tap on "make cover" is exactly i presses of the left arrow: the photo comes first
  // and the others keep their order.
  lemma CoverIsLeftPresses(ids: seq<Id>, i: nat)
    requires Distinct(ids) && i < |ids|
    ensures Presses(ids, LeftPresses(i)) && Cover(ids, ids[i]) == Apply(ids, LeftPresses(i)) == ToFront(ids, i)
  {
    hide Others, Presses, Apply, LeftPresses, Distinct;
    LeftPressesBringToFront(ids, i);
    OthersAround(ids, i);
    Associate([ids[i]], ids[..i], ids[i + 1..]);
  }

  // The same presses one place further right.
  function Shifted(moves: seq<Move>): seq<Move> {
    if moves == [] then [] else [Move(moves[0].index + 1, moves[0].delta)] + Shifted(moves[1..])
  }

  lemma {:induction false} ApplyShifted(first: Id, ids: seq<Id>, moves: seq<Move>)
    requires Presses(ids, moves)
    ensures Presses([first] + ids, Shifted(moves))
    ensures Apply([first] + ids, Shifted(moves)) == [first] + Apply(ids, moves)
    decreases |moves|
  {
    if moves != [] {
      var m := moves[0];
      var shifted := Move(m.index + 1, m.delta);
      assert Moved([first] + ids, shifted) == [first] + Moved(ids, m);
      ApplyShifted(first, Moved(ids, m), moves[1..]);
      assert Shifted(moves)[1..] == Shifted(moves[1..]);
    }
  }

  lemma TakeOut(ids: seq<Id>, goal: seq<Id>) returns (i: nat, rest: seq<Id>)
    requires multiset(ids) == multiset(goal) && goal != []
    ensures i < |ids| && ToFront(ids, i) == [goal[0]] + rest && multiset(rest) == multiset(goal[1..])
  {
    hide RemoveAt, ToFront;
    assert goal[0] in multiset(goal);
    i :| 0 <= i < |ids| && ids[i] == goal[0];
    rest := RemoveAt(ids, i);
    FrontAndRest(ids, i);
    SameRest(ids, i, goal);
  }

  lemma FrontAndRest(ids: seq<Id>, i: nat)
    requires i < |ids|
    ensures ToFront(ids, i) == [ids[i]] + RemoveAt(ids, i)
  {
    Associate([ids[i]], ids[..i], ids[i + 1..]);
  }

  lemma SameRest(ids: seq<Id>, i: nat, goal: seq<Id>)
    requires i < |ids| && goal != [] && ids[i] == goal[0] && multiset(ids) == multiset(goal)
    ensures multiset(RemoveAt(ids, i)) == multiset(goal[1..])
  {
    RemoveAtMembers(ids, i);
    RemoveAtMembers(goal, 0);
    assert RemoveAt(goal, 0) == goal[1..];
    hide RemoveAt;
    SameRemainder(multiset(RemoveAt(ids, i)), multiset(goal[1..]), goal[0]);
  }

  // Every permutation of the photos can be reached with the two arrows.
  lemma {:induction false} EveryOrderIsReachable(ids: seq<Id>, goal: seq<Id>) returns (moves: seq<Move>)
    requires multiset(ids) == multiset(goal)
    ensures Presses(ids, moves) && Apply(ids, moves) == goal
    decreases |goal|
  {
    assert |multiset(ids)| == |multiset(goal)|;
    if goal == [] {
      moves := [];
      assert ids == [];
    } else {
      hide Presses, Apply, LeftPresses, Shifted;
      var i, rest := TakeOut(ids, goal);
      var later := EveryOrderIsReachable(rest, goal[1..]);
      LeftPressesBringToFront(ids, i);
      assert goal == [goal[0]] + goal[1..];
      ApplyShifted(goal[0], rest, later);
      ApplyConcat(ids, LeftPresses(i), Shifted(later));
      moves := LeftPresses(i) + Shifted(later);
    }
  }

  // And nothing but permutations: the arrows never lose or repeat a photo.
  lemma {:induction false} PressesPermute(ids: seq<Id>, moves: seq<Move>)
    requires Presses(ids, moves)
    ensures multiset(Apply(ids, moves)) == multiset(ids)
    decreases |moves|
  {
    if moves != [] {
      MovedRows(ids, moves[0]);
      PressesPermute(Moved(ids, moves[0]), moves[1..]);
    }
  }
}
