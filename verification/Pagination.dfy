// Limit and offset pages of a list: the normalisation of page requests
// (backend/internal/domain/shared/page.go) and the slice a repository serves for one
// (paginate in backend/internal/infrastructure/persistence/memory/memory.go).
module Pagination {

  datatype Page = Page(limit: int, offset: int)

  datatype PageResult<T> = PageResult(items: seq<T>, total: int)

  function NewPage(limit: int, offset: int): Page {
    Page(if limit <= 0 || limit > 100 then 20 else limit, if offset < 0 then 0 else offset)
  }

  // A normalised request asks for 1 to 100 items from a position in the list, and a request
  // that does already is left as it is; other limits become 20 and other offsets 0.
  lemma NewPageIsNormal(limit: int, offset: int)
    ensures var page := NewPage(limit, offset);
            && 1 <= page.limit <= 100 && 0 <= page.offset && NewPage(page.limit, page.offset) == page
            && (page.limit == limit <==> 1 <= limit <= 100) && (page.limit != limit ==> page.limit == 20)
            && (page.offset == offset <==> 0 <= offset) && (page.offset != offset ==> page.offset == 0)
  {
  }

  function Paginate<T>(items: seq<T>, page: Page): PageResult<T>
    requires 0 <= page.limit && 0 <= page.offset
  {
    var start := if page.offset > |items| then |items| else page.offset;
    var end := if start + page.limit > |items| then |items| else start + page.limit;
    PageResult(items[start..end], |items|)
  }
}
