/** The page structure and page request of shared/Cursor.ts. */
module Cursors {
  import opened Options

  datatype PageInfo = PageInfo(
    totalCount: int,
    startCursor: Option<string>,
    endCursor: Option<string>,
    hasPreviousPage: bool,
    hasNextPage: bool)

  /** One row of a page: the row's search-key value as a resumable cursor, and the row. */
  datatype Edge<T> = Edge(cursor: string, node: T)

  datatype Cursor<T> = Cursor(pageInfo: PageInfo, edges: seq<Edge<T>>)

  datatype Order = Asc | Desc

  /**
   * A page request. An ascending request carries `first` and `after`, a
   * descending one `last` and `before`: the constructors make a mix unrepresentable.
   */
  datatype CursorQuery =
    | CursorQueryAsc(query: Option<string>, first: int, after: Option<string>)
    | CursorQueryDesc(query: Option<string>, last: int, before: Option<string>)
  {
    function Order(): (o: Order)
      ensures o == Asc <==> CursorQueryAsc?
    {
      if CursorQueryAsc? then Asc else Desc
    }
  }

  type AscQuery = q: CursorQuery | q.CursorQueryAsc? witness CursorQueryAsc(None, 0, None)
  type DescQuery = q: CursorQuery | q.CursorQueryDesc? witness CursorQueryDesc(None, 0, None)

  const DefaultPerPage: int := 20

  /** The page of an empty result: nothing counted, no cursors, no neighbours, no edges. */
  function EmptyCursor<T>(): (c: Cursor<T>)
    ensures c.pageInfo.totalCount == 0
    ensures c.pageInfo.startCursor.None? && c.pageInfo.endCursor.None?
    ensures !c.pageInfo.hasPreviousPage && !c.pageInfo.hasNextPage
    ensures c.edges == []
  {
    Cursor(PageInfo(0, None, None, false, false), [])
  }

  /** The first ascending page of `perPage` rows with no search text (20 by default). */
  function EmptyCursorQuery(perPage: int := DefaultPerPage): (q: CursorQuery)
    ensures q.Order() == Asc
    ensures q.query.None? && q.after.None? && q.first == perPage
  {
    CursorQueryAsc(None, perPage, None)
  }

  /** Dispatches on the request's order, invoking exactly the matching case. */
  function FoldCursorQuery<T>(query: CursorQuery, asc: AscQuery -> T, desc: DescQuery -> T): (r: T)
    ensures query.Order() == Asc ==> r == asc(query)
    ensures query.Order() == Desc ==> r == desc(query)
  {
    match query
    case CursorQueryAsc(_, _, _) => asc(query)
    case CursorQueryDesc(_, _, _) => desc(query)
  }

  /** The page size a request asks for: `first` ascending, `last` descending. */
  function Limit(query: CursorQuery): (n: int)
    ensures query.CursorQueryAsc? ==> n == query.first
    ensures query.CursorQueryDesc? ==> n == query.last
  {
    FoldCursorQuery(query, (q: AscQuery) => q.first, (q: DescQuery) => q.last)
  }

  /** The resumption point a request carries: `after` ascending, `before` descending. */
  function Boundary(query: CursorQuery): (b: Option<string>)
    ensures query.CursorQueryAsc? ==> b == query.after
    ensures query.CursorQueryDesc? ==> b == query.before
  {
    FoldCursorQuery(query, (q: AscQuery) => q.after, (q: DescQuery) => q.before)
  }
}
