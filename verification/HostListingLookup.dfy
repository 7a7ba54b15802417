// hostListingLookup.IDsByHost (backend/cmd/api/main.go): walking a host's listings in
// pages of 500.
module HostListingLookup {
  import opened Pagination

  const PAGE_SIZE := 500

  type Id = string

  // A repository that does not change during the walk. It never serves more than `cap`
  // listings per page and fails on the offsets in `fails`.
  datatype Repository = Repository(ids: seq<Id>, cap: nat, fails: set<int>) {

    function Served(): nat { if cap < PAGE_SIZE then cap else PAGE_SIZE }

    function ListByHost(page: Page): PageResult<Id>
      requires 0 <= page.limit && 0 <= page.offset
    {
      Paginate(ids, page.(limit := if cap < page.limit then cap else page.limit))
    }
  }

  // The offsets the walk asks for if nothing fails before them.
  predicate Requested(repo: Repository, offset: int) {
    offset == 0 || (repo.Served() == PAGE_SIZE && 0 < offset < |repo.ids| && offset % PAGE_SIZE == 0)
  }

  // Over any number of listings, exact multiples of the page size included, the walk ends
  // and returns the ids in order, each once: all of them if the repository serves full
  // pages or its first page holds all of them, just that page otherwise, and on an error
  // exactly the ids before it.
  method IDsByHost(repo: Repository) returns (ids: seq<Id>, failed: bool)
    ensures failed <==> exists offset :: offset in repo.fails && Requested(repo, offset)
    ensures failed ==> |ids| in repo.fails && Requested(repo, |ids|) && ids == repo.ids[..|ids|]
    ensures failed ==> forall offset :: 0 <= offset < |ids| && Requested(repo, offset) ==> offset !in repo.fails
    ensures !failed && repo.Served() < PAGE_SIZE ==>
              ids == repo.ids[..if repo.cap < |repo.ids| then repo.cap else |repo.ids|]
    ensures !failed ==> (ids == repo.ids <==> repo.cap >= PAGE_SIZE || |repo.ids| <= repo.cap)
  {
    ids := [];
    failed := false;
    var offset := 0;
    while true
      invariant 0 <= offset <= |repo.ids| && ids == repo.ids[..offset]
      invariant Requested(repo, offset)
      invariant forall o :: 0 <= o < offset && Requested(repo, o) ==> o !in repo.fails
      decreases |repo.ids| - offset
    {
      if offset in repo.fails { return ids, true; }
      var page := repo.ListByHost(Page(PAGE_SIZE, offset));
      assert forall o :: offset < o < offset + PAGE_SIZE ==> !Requested(repo, o) by {
        NothingBetween(repo, offset);
      }
      ids := ids + page.items;
      offset := offset + |page.items|;
      if |page.items| < PAGE_SIZE || offset >= page.total { break; }
    }
    assert forall o :: offset <= o && o != 0 ==> !Requested(repo, o) || offset < |repo.ids|;
  }

  lemma NothingBetween(repo: Repository, offset: nat)
    requires Requested(repo, offset)
    ensures forall o :: offset < o < offset + PAGE_SIZE ==> !Requested(repo, o)
  {
    assert offset % PAGE_SIZE == 0;
    forall o | offset < o < offset + PAGE_SIZE ensures o % PAGE_SIZE != 0 {
      var q := offset / PAGE_SIZE;
      assert offset == PAGE_SIZE * q && o == PAGE_SIZE * q + (o - offset);
    }
  }

  // The walk builds its page request directly. Were it made by NewPage, the limit of 500
  // would become 20, and the first page would hold all listings only of hosts with at most 20.
  lemma NewPageWouldTruncate(ids: seq<Id>)
    ensures var capped := Repository(ids, NewPage(PAGE_SIZE, 0).limit, {});
            capped.Served() == 20
            && (capped.ListByHost(Page(PAGE_SIZE, 0)).items == ids <==> |ids| <= 20)
  {
    var capped := Repository(ids, NewPage(PAGE_SIZE, 0).limit, {});
    var page := capped.ListByHost(Page(PAGE_SIZE, 0));
    if |ids| <= 20 {
      assert page.items == ids[0..|ids|] == ids;
    } else {
      assert |page.items| == 20;
    }
  }
}
