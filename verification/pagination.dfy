/**
 * The cursor pagination pipeline of `Collection.find`
 * (server/src/database/Collection.ts): filter on the search key, sort, compute
 * the global first/last keys and count over the filtered rows, window the
 * sorted rows with a strict cursor predicate and a limit, and build the edges
 * and page info from the window.
 */
module Pagination {
  import opened Options
  import opened Strings
  import opened Cursors
  import opened Ordering
  import opened Sequences

  // ---------------------------------------------------------------------------
  // Order facts about filtering and extremes

  lemma {:induction false} FilterSorted<T(!new)>(s: seq<T>, p: T -> bool, key: T -> string, order: Order)
    requires SortedBy(s, key, order)
    ensures SortedBy(Filter(s, p), key, order)
    decreases |s|
  {
    if |s| > 0 {
      FilterSorted(s[1..], p, key, order);
      var rest := Filter(s[1..], p);
      if p(s[0]) {
        var r := [s[0]] + rest;
        forall i, j | 0 <= i < j < |r|
          ensures !Before(order, key(r[j]), key(r[i]))
        {
          if i == 0 {
            assert r[j] == rest[j - 1];
            var k :| 0 <= k < |s[1..]| && s[1..][k] == r[j];
            assert s[k + 1] == r[j];
          }
        }
      }
    }
  }

  /** The key of the first element, if any: `$arrayElemAt [$slice [order, 1], 0]`. */
  function FirstKey<T>(s: seq<T>, key: T -> string): (r: Option<string>)
    ensures r.None? <==> |s| == 0
    ensures r.Some? ==> r.value == key(s[0])
  {
    if |s| == 0 then None else Some(key(s[0]))
  }

  /** The key of the last element, if any: `$arrayElemAt [$slice [order, -1], 0]`. */
  function LastKey<T>(s: seq<T>, key: T -> string): (r: Option<string>)
    ensures r.None? <==> |s| == 0
    ensures r.Some? ==> r.value == key(s[|s| - 1])
  {
    if |s| == 0 then None else Some(key(s[|s| - 1]))
  }

  /**
   * The `$group` accumulator: the key that sorts first in `order` (`$min`
   * ascending, `$max` descending), or nothing for an empty input.
   */
  function Extreme<T>(order: Order, s: seq<T>, key: T -> string): (r: Option<string>)
    ensures r.None? <==> |s| == 0
    ensures r.Some? ==> exists i :: 0 <= i < |s| && key(s[i]) == r.value
    ensures r.Some? ==> forall i :: 0 <= i < |s| ==> !Before(order, key(s[i]), r.value)
    decreases |s|
  {
    if |s| == 0 then None
    else
      var rest := Extreme(order, s[1..], key);
      var m := if rest.Some? && Before(order, rest.value, key(s[0])) then rest.value else key(s[0]);
      ExtremeCons(order, s, key, rest, m);
      Some(m)
  }

  lemma ExtremeCons<T>(order: Order, s: seq<T>, key: T -> string, rest: Option<string>, m: string)
    requires |s| > 0
    requires rest.None? <==> |s| == 1
    requires rest.Some? ==> exists i :: 0 <= i < |s[1..]| && key(s[1..][i]) == rest.value
    requires rest.Some? ==> forall i :: 0 <= i < |s[1..]| ==> !Before(order, key(s[1..][i]), rest.value)
    requires m == if rest.Some? && Before(order, rest.value, key(s[0])) then rest.value else key(s[0])
    ensures exists i :: 0 <= i < |s| && key(s[i]) == m
    ensures forall i :: 0 <= i < |s| ==> !Before(order, key(s[i]), m)
  {
    if rest.Some? && Before(order, rest.value, key(s[0])) {
      var j :| 0 <= j < |s[1..]| && key(s[1..][j]) == rest.value;
      assert key(s[j + 1]) == m;
    } else {
      assert key(s[0]) == m;
    }
    forall i | 0 <= i < |s|
      ensures !Before(order, key(s[i]), m)
    {
      if i == 0 {
        if m == key(s[0]) {
          BeforeIrreflexive(order, m);
        } else {
          BeforeAsymmetric(order, m, key(s[0]));
        }
      } else {
        assert s[i] == s[1..][i - 1];
        if m != rest.value {
          NotAfterTransitive(order, m, rest.value, key(s[i]));
        }
      }
    }
  }

  /**
   * The global extreme differs from the key of a given row exactly when some
   * row sorts strictly before it.
   */
  lemma ExtremeDiffers<T>(order: Order, s: seq<T>, key: T -> string, d0: T)
    requires d0 in s
    ensures Extreme(order, s, key) != Some(key(d0)) <==>
      exists d :: d in s && Before(order, key(d), key(d0))
  {
    var m := Extreme(order, s, key);
    var i0 :| 0 <= i0 < |s| && s[i0] == d0;
    assert !Before(order, key(s[i0]), m.value);
    if m.value != key(d0) {
      var i :| 0 <= i < |s| && key(s[i]) == m.value;
      BeforeTotal(order, m.value, key(d0));
      assert s[i] in s;
    }
    if exists d :: d in s && Before(order, key(d), key(d0)) {
      var d :| d in s && Before(order, key(d), key(d0));
      var j :| 0 <= j < |s| && s[j] == d;
      assert !Before(order, key(s[j]), m.value);
    }
  }

  // ---------------------------------------------------------------------------
  // The pipeline stages

  /** A row passes the query match stage: no search text, or the key contains it ignoring case. */
  predicate MatchesQuery<T>(key: T -> string, query: Option<string>, d: T) {
    !Truthy(query) || ContainsIgnoreCase(key(d), query.value)
  }

  function QueryFilter<T>(key: T -> string, query: Option<string>): T -> bool {
    d => MatchesQuery(key, query, d)
  }

  /** The strict cursor predicate of the skip stage: `$gt` ascending, `$lt` descending. */
  function AfterCursor<T>(order: Order, cursor: string, key: T -> string): T -> bool {
    d => Before(order, cursor, key(d))
  }

  /** The `$match` on the search key; an empty or null query adds no stage. */
  function Matched<T(!new)>(docs: seq<T>, key: T -> string, query: Option<string>): (r: seq<T>)
    ensures !Truthy(query) ==> r == docs
    ensures forall i :: 0 <= i < |r| ==> MatchesQuery(key, query, r[i]) && r[i] in docs
    ensures forall x :: multiset(r)[x] == (if MatchesQuery(key, query, x) then multiset(docs)[x] else 0)
  {
    if Truthy(query) then Filter(docs, QueryFilter(key, query)) else docs
  }

  /** The row lies past the cursor, or there is no cursor. */
  predicate AfterCursorOrNone<T>(order: Order, boundary: Option<string>, key: T -> string, d: T) {
    boundary.None? || Before(order, boundary.value, key(d))
  }

  /** With a cursor, only the rows whose key sorts strictly after it. */
  function Remaining<T(!new)>(sorted: seq<T>, key: T -> string, order: Order, boundary: Option<string>): (r: seq<T>)
    requires SortedBy(sorted, key, order)
    ensures SortedBy(r, key, order)
    ensures boundary.None? ==> r == sorted
    ensures forall i :: 0 <= i < |r| ==>
      r[i] in sorted && (boundary.None? || Before(order, boundary.value, key(r[i])))
    ensures forall x :: multiset(r)[x] == (if AfterCursorOrNone(order, boundary, key, x) then multiset(sorted)[x] else 0)
  {
    if boundary.Some? then
      FilterSorted(sorted, AfterCursor(order, boundary.value, key), key, order);
      Filter(sorted, AfterCursor(order, boundary.value, key))
    else sorted
  }

  function Edges<T>(page: seq<T>, key: T -> string): (r: seq<Edge<T>>)
    ensures |r| == |page|
    ensures forall i :: 0 <= i < |r| ==> r[i].node == page[i] && r[i].cursor == key(page[i])
  {
    seq(|page|, i requires 0 <= i < |page| => Edge(key(page[i]), page[i]))
  }

  /** The filtered rows in the request's order. */
  function SortedMatches<T(!new)>(docs: seq<T>, key: T -> string, query: CursorQuery): (r: seq<T>)
    ensures SortedBy(r, key, query.Order())
    ensures multiset(r) == multiset(Matched(docs, key, query.query))
  {
    SortBy(Matched(docs, key, query.query), key, query.Order())
  }

  /** The filtered, sorted rows past the request's cursor. */
  function RemainingOf<T(!new)>(docs: seq<T>, key: T -> string, query: CursorQuery): (r: seq<T>)
    ensures SortedBy(r, key, query.Order())
    ensures forall i :: 0 <= i < |r| ==> r[i] in Matched(docs, key, query.query)
    ensures forall i :: 0 <= i < |r| ==>
      Boundary(query).None? || Before(query.Order(), Boundary(query).value, key(r[i]))
  {
    var sorted := SortedMatches(docs, key, query);
    var r := Remaining(sorted, key, query.Order(), Boundary(query));
    assert forall i :: 0 <= i < |r| ==> r[i] in Matched(docs, key, query.query) by {
      forall i | 0 <= i < |r| ensures r[i] in Matched(docs, key, query.query) {
        assert r[i] in multiset(sorted);
      }
    }
    r
  }

  /** The rows of the page: at most `limit` remaining rows, in sort order. */
  function Window<T(!new)>(docs: seq<T>, key: T -> string, query: CursorQuery, limit: nat): (page: seq<T>)
    ensures |page| <= limit
    ensures SortedBy(page, key, query.Order())
    ensures forall i :: 0 <= i < |page| ==>
      && page[i] in Matched(docs, key, query.query)
      && MatchesQuery(key, query.query, page[i])
      && (Boundary(query).None? || Before(query.Order(), Boundary(query).value, key(page[i])))
  {
    var r := RemainingOf(docs, key, query);
    var page := Take(r, limit);
    WindowFacts(docs, key, query, page);
    page
  }

  /** A prefix of the remaining rows keeps their order and their per-row facts. */
  lemma WindowFacts<T(!new)>(docs: seq<T>, key: T -> string, query: CursorQuery, page: seq<T>)
    requires page <= RemainingOf(docs, key, query)
    ensures SortedBy(page, key, query.Order())
    ensures forall i :: 0 <= i < |page| ==>
      && page[i] in Matched(docs, key, query.query)
      && MatchesQuery(key, query.query, page[i])
      && (Boundary(query).None? || Before(query.Order(), Boundary(query).value, key(page[i])))
  {
    var r := RemainingOf(docs, key, query);
    RemainingMatch(docs, key, query);
    forall i | 0 <= i < |page|
      ensures && page[i] in Matched(docs, key, query.query)
              && MatchesQuery(key, query.query, page[i])
              && (Boundary(query).None? || Before(query.Order(), Boundary(query).value, key(page[i])))
    {
      assert page[i] == r[i];
    }
    forall i, j | 0 <= i < j < |page| ensures !Before(query.Order(), key(page[j]), key(page[i])) {
      assert page[i] == r[i] && page[j] == r[j];
    }
  }

  /** Every remaining row passes the query match stage. */
  lemma RemainingMatch<T(!new)>(docs: seq<T>, key: T -> string, query: CursorQuery)
    ensures forall i :: 0 <= i < |RemainingOf(docs, key, query)| ==>
      MatchesQuery(key, query.query, RemainingOf(docs, key, query)[i])
  {
    var r := RemainingOf(docs, key, query);
    var matched := Matched(docs, key, query.query);
    forall i | 0 <= i < |r| ensures MatchesQuery(key, query.query, r[i]) {
      var k :| 0 <= k < |matched| && matched[k] == r[i];
    }
  }

  /**
   * The single facet document the pipeline produces. The boundary flags
   * compare the page's first and last keys with the global ones; an absent
   * value on either side compares equal only to another absent value.
   */
  function Paginate<T(!new)>(docs: seq<T>, key: T -> string, query: CursorQuery): (c: Cursor<T>)
    requires Limit(query) > 0
    ensures c.pageInfo.totalCount == |Matched(docs, key, query.query)|
    ensures |c.edges| <= Limit(query)
    ensures forall i :: 0 <= i < |c.edges| ==> c.edges[i].cursor == key(c.edges[i].node)
    ensures forall i :: 0 <= i < |c.edges| ==> MatchesQuery(key, query.query, c.edges[i].node)
    ensures forall i :: 0 <= i < |c.edges| ==>
      Boundary(query).None? || Before(query.Order(), Boundary(query).value, c.edges[i].cursor)
    ensures forall i, j :: 0 <= i < j < |c.edges| ==>
      !Before(query.Order(), c.edges[j].cursor, c.edges[i].cursor)
    ensures c.pageInfo.startCursor == (if |c.edges| == 0 then None else Some(c.edges[0].cursor))
    ensures c.pageInfo.endCursor == (if |c.edges| == 0 then None else Some(c.edges[|c.edges| - 1].cursor))
  {
    var order := query.Order();
    var matched := Matched(docs, key, query.query);
    var page := Window(docs, key, query, Limit(query));
    var first := FirstKey(page, key);
    var last := LastKey(page, key);
    var edges := Edges(page, key);
    WindowEdges(docs, key, query, page, edges);
    Cursor(
      PageInfo(
        |matched|,
        first,
        last,
        Extreme(order, matched, key) != first,
        Extreme(Flip(order), matched, key) != last),
      edges)
  }

  /** The edges of a window carry its rows' keys as cursors, matched, past the cursor, in order. */
  lemma WindowEdges<T(!new)>(docs: seq<T>, key: T -> string, query: CursorQuery, page: seq<T>, edges: seq<Edge<T>>)
    requires Limit(query) > 0
    requires page == Window(docs, key, query, Limit(query))
    requires edges == Edges(page, key)
    ensures forall i :: 0 <= i < |edges| ==> edges[i].cursor == key(edges[i].node)
    ensures forall i :: 0 <= i < |edges| ==> MatchesQuery(key, query.query, edges[i].node)
    ensures forall i :: 0 <= i < |edges| ==>
      Boundary(query).None? || Before(query.Order(), Boundary(query).value, edges[i].cursor)
    ensures forall i, j :: 0 <= i < j < |edges| ==>
      !Before(query.Order(), edges[j].cursor, edges[i].cursor)
  {
    forall i, j | 0 <= i < j < |edges|
      ensures !Before(query.Order(), edges[j].cursor, edges[i].cursor)
    {
      assert edges[i].cursor == key(page[i]) && edges[j].cursor == key(page[j]);
    }
  }

  // ---------------------------------------------------------------------------
  // What the page info means

  /**
   * On a non-empty page, `hasPreviousPage` holds exactly when some filtered
   * row sorts strictly before the page's first row, and `hasNextPage` exactly
   * when some filtered row sorts strictly after the page's last row. On an
   * empty page both flags say whether anything matched at all.
   */
  lemma PaginateFlags<T(!new)>(docs: seq<T>, key: T -> string, query: CursorQuery)
    requires Limit(query) > 0
    ensures var c := Paginate(docs, key, query);
      var matched := Matched(docs, key, query.query);
      && (|c.edges| > 0 ==>
           && (c.pageInfo.hasPreviousPage <==>
                exists d :: d in matched && Before(query.Order(), key(d), c.edges[0].cursor))
           && (c.pageInfo.hasNextPage <==>
                exists d :: d in matched && Before(query.Order(), c.edges[|c.edges| - 1].cursor, key(d))))
      && (|c.edges| == 0 ==>
           && (c.pageInfo.hasPreviousPage <==> |matched| > 0)
           && (c.pageInfo.hasNextPage <==> |matched| > 0))
  {
    var order := query.Order();
    var matched := Matched(docs, key, query.query);
    var page := Window(docs, key, query, Limit(query));
    if |page| > 0 {
      var lastNode := page[|page| - 1];
      ExtremeDiffers(order, matched, key, page[0]);
      ExtremeDiffers(Flip(order), matched, key, lastNode);
      forall d | d in matched
        ensures Before(Flip(order), key(d), key(lastNode)) <==> Before(order, key(lastNode), key(d))
      {
        FlipBefore(order, key(d), key(lastNode));
      }
    }
  }

  /** A request without a cursor starts at the beginning: no previous page. */
  lemma FirstPageHasNoPrevious<T(!new)>(docs: seq<T>, key: T -> string, query: CursorQuery)
    requires Limit(query) > 0
    requires Boundary(query).None?
    ensures !Paginate(docs, key, query).pageInfo.hasPreviousPage
  {
    var order := query.Order();
    var matched := Matched(docs, key, query.query);
    var sorted := SortedMatches(docs, key, query);
    var c := Paginate(docs, key, query);
    PaginateFlags(docs, key, query);
    if |c.edges| > 0 {
      assert c.edges[0].node == sorted[0];
      forall d | d in matched
        ensures !Before(order, key(d), key(sorted[0]))
      {
        assert d in multiset(sorted);
        var k :| 0 <= k < |sorted| && sorted[k] == d;
        if k == 0 {
          BeforeIrreflexive(order, key(d));
        }
      }
    } else {
      assert |sorted| == 0;
    }
  }

  /** Every filtered row past the cursor is among the remaining rows. */
  lemma RemainingCovers<T(!new)>(docs: seq<T>, key: T -> string, query: CursorQuery, d: T)
    requires d in Matched(docs, key, query.query)
    ensures d in RemainingOf(docs, key, query) <==>
      Boundary(query).None? || Before(query.Order(), Boundary(query).value, key(d))
  {
    var sorted := SortedMatches(docs, key, query);
    assert d in multiset(sorted);
    var r := Remaining(sorted, key, query.Order(), Boundary(query));
    assert multiset(r)[d] == (if AfterCursorOrNone(query.Order(), Boundary(query), key, d) then multiset(sorted)[d] else 0);
  }

  /** The last row of a sorted sequence sorts no earlier than any of its rows. */
  lemma SortedLastIsMax<T>(r: seq<T>, key: T -> string, order: Order, k: nat)
    requires SortedBy(r, key, order)
    requires k < |r|
    ensures !Before(order, key(r[|r| - 1]), key(r[k]))
  {
    if k == |r| - 1 {
      BeforeIrreflexive(order, key(r[k]));
    }
  }

  /** A sorted sequence whose first row lies past a cursor ends past it. */
  lemma LastPastBoundary<T>(r: seq<T>, key: T -> string, order: Order, b: string)
    requires SortedBy(r, key, order)
    requires |r| > 0 && Before(order, b, key(r[0]))
    ensures Before(order, b, key(r[|r| - 1]))
  {
    SortedLastIsMax(r, key, order, 0);
    BeforeThenNotAfter(order, b, key(r[0]), key(r[|r| - 1]));
  }

  /** No filtered row sorts strictly after the last remaining row. */
  lemma NothingAfterLast<T(!new)>(docs: seq<T>, key: T -> string, query: CursorQuery, d: T)
    requires |RemainingOf(docs, key, query)| > 0
    requires d in Matched(docs, key, query.query)
    ensures var remaining := RemainingOf(docs, key, query);
      !Before(query.Order(), key(remaining[|remaining| - 1]), key(d))
  {
    var order := query.Order();
    var remaining := RemainingOf(docs, key, query);
    var last := key(remaining[|remaining| - 1]);
    RemainingCovers(docs, key, query, d);
    if d in remaining {
      var k :| 0 <= k < |remaining| && remaining[k] == d;
      SortedLastIsMax(remaining, key, order, k);
    } else {
      var b := Boundary(query).value;
      LastPastBoundary(remaining, key, order, b);
      if Before(order, last, key(d)) {
        BeforeTransitive(order, b, last, key(d));
      }
    }
  }

  /** A page that takes every remaining row is the last one: no next page. */
  lemma LastPageHasNoNext<T(!new)>(docs: seq<T>, key: T -> string, query: CursorQuery)
    requires Limit(query) > 0
    requires |RemainingOf(docs, key, query)| <= Limit(query)
    ensures |Paginate(docs, key, query).edges| > 0 ==> !Paginate(docs, key, query).pageInfo.hasNextPage
  {
    var remaining := RemainingOf(docs, key, query);
    var page := Window(docs, key, query, Limit(query));
    assert page == remaining;
    PaginateParts(docs, key, query);
    if |page| > 0 {
      LastRemainingIsExtreme(docs, key, query);
    }
  }

  /** The last remaining row carries the extreme key of the flipped order. */
  lemma LastRemainingIsExtreme<T(!new)>(docs: seq<T>, key: T -> string, query: CursorQuery)
    requires |RemainingOf(docs, key, query)| > 0
    ensures var remaining := RemainingOf(docs, key, query);
      Extreme(Flip(query.Order()), Matched(docs, key, query.query), key) == Some(key(remaining[|remaining| - 1]))
  {
    var matched := Matched(docs, key, query.query);
    var remaining := RemainingOf(docs, key, query);
    var lastNode := remaining[|remaining| - 1];
    assert lastNode in matched;
    ExtremeDiffers(Flip(query.Order()), matched, key, lastNode);
    NothingBeforeLastFlipped(docs, key, query);
  }

  /** The page's edges and its `hasNextPage` flag, in terms of the window. */
  lemma PaginateParts<T(!new)>(docs: seq<T>, key: T -> string, query: CursorQuery)
    requires Limit(query) > 0
    ensures var page := Window(docs, key, query, Limit(query));
      && Paginate(docs, key, query).edges == Edges(page, key)
      && Paginate(docs, key, query).pageInfo.hasNextPage
         == (Extreme(Flip(query.Order()), Matched(docs, key, query.query), key) != LastKey(page, key))
  {
  }

  /** In the flipped order, no filtered row sorts strictly before the last remaining row. */
  lemma NothingBeforeLastFlipped<T(!new)>(docs: seq<T>, key: T -> string, query: CursorQuery)
    requires |RemainingOf(docs, key, query)| > 0
    ensures var remaining := RemainingOf(docs, key, query);
      forall d :: d in Matched(docs, key, query.query) ==>
        !Before(Flip(query.Order()), key(d), key(remaining[|remaining| - 1]))
  {
    var remaining := RemainingOf(docs, key, query);
    var last := key(remaining[|remaining| - 1]);
    forall d | d in Matched(docs, key, query.query)
      ensures !Before(Flip(query.Order()), key(d), last)
    {
      NothingAfterLast(docs, key, query, d);
      FlipBefore(query.Order(), key(d), last);
    }
  }

  /** With no documents at all the result is the empty page. */
  lemma EmptyCollectionGivesEmptyCursor<T(!new)>(key: T -> string, query: CursorQuery)
    requires Limit(query) > 0
    ensures Paginate([], key, query) == EmptyCursor()
  {
  }

  /** The count covers every filtered row, whatever cursor, page size or order is asked for. */
  lemma TotalCountIgnoresWindow<T(!new)>(docs: seq<T>, key: T -> string, q1: CursorQuery, q2: CursorQuery)
    requires Limit(q1) > 0 && Limit(q2) > 0
    requires q1.query == q2.query
    ensures Paginate(docs, key, q1).pageInfo.totalCount == Paginate(docs, key, q2).pageInfo.totalCount
  {
  }

  // ---------------------------------------------------------------------------
  // Walking the pages

  /** No two rows share a search key. */
  ghost predicate DistinctKeys<T>(s: seq<T>, key: T -> string) {
    forall i, j :: 0 <= i < j < |s| ==> key(s[i]) != key(s[j])
  }

  /** Distinct keys survive taking a sub-multiset, so filtering and sorting keep them. */
  lemma DistinctKeysSubMultiset<T>(a: seq<T>, b: seq<T>, key: T -> string)
    requires multiset(a) <= multiset(b)
    requires DistinctKeys(b, key)
    ensures DistinctKeys(a, key)
  {
    forall i, j | 0 <= i < j < |a|
      ensures key(a[i]) != key(a[j])
    {
      if a[i] == a[j] {
        CountTwo(a, i, j);
        TwoOccurrences(b, a[i]);
      } else {
        assert a[i] in multiset(b) && a[j] in multiset(b);
        var p :| 0 <= p < |b| && b[p] == a[i];
        var q :| 0 <= q < |b| && b[q] == a[j];
        assert p != q;
      }
    }
  }

  /** With distinct keys, the rows past the key of row `n - 1` are exactly the rows from `n` on. */
  lemma FilterAfterPrefix<T(!new)>(r: seq<T>, key: T -> string, order: Order, n: nat)
    requires SortedBy(r, key, order)
    requires DistinctKeys(r, key)
    requires 0 < n <= |r|
    ensures Filter(r, AfterCursor(order, key(r[n - 1]), key)) == r[n..]
  {
    var cut := key(r[n - 1]);
    var after := AfterCursor(order, cut, key);
    forall i | 0 <= i < n ensures !after(r[i]) {
      assert after(r[i]) == Before(order, cut, key(r[i]));
      if i == n - 1 {
        BeforeIrreflexive(order, cut);
      } else {
        assert !Before(order, key(r[n - 1]), key(r[i]));
      }
    }
    forall i | n <= i < |r| ensures after(r[i]) {
      assert after(r[i]) == Before(order, cut, key(r[i]));
      assert !Before(order, key(r[i]), key(r[n - 1]));
      assert key(r[n - 1]) != key(r[i]);
      BeforeTotal(order, cut, key(r[i]));
    }
    FilterSuffix(r, after, n);
  }

  /** Moving the cursor forward to a remaining row's key filters the remaining rows again. */
  lemma RemainingAfterCut<T(!new)>(sorted: seq<T>, key: T -> string, order: Order, boundary: Option<string>, k: nat)
    requires SortedBy(sorted, key, order)
    requires k < |Remaining(sorted, key, order, boundary)|
    ensures var remaining := Remaining(sorted, key, order, boundary);
      var cut := key(remaining[k]);
      Remaining(sorted, key, order, Some(cut)) == Filter(remaining, AfterCursor(order, cut, key))
  {
    var remaining := Remaining(sorted, key, order, boundary);
    var cut := key(remaining[k]);
    var after := AfterCursor(order, cut, key);
    if boundary.Some? {
      var before := AfterCursor(order, boundary.value, key);
      assert Before(order, boundary.value, cut);
      forall i | 0 <= i < |sorted| && after(sorted[i]) ensures before(sorted[i]) {
        BeforeTransitive(order, boundary.value, cut, key(sorted[i]));
      }
      FilterFilter(sorted, before, after);
    }
  }

  /**
   * Following `endCursor` forward never skips or repeats a row when the search
   * keys are distinct: the next request's remaining rows are exactly the rows
   * after the current page.
   */
  lemma NextPageContinues<T(!new)>(docs: seq<T>, key: T -> string, query: CursorQuery, next: CursorQuery)
    requires Limit(query) > 0
    requires DistinctKeys(docs, key)
    requires Paginate(docs, key, query).pageInfo.endCursor.Some?
    requires next.Order() == query.Order() && next.query == query.query
    requires Boundary(next) == Paginate(docs, key, query).pageInfo.endCursor
    ensures RemainingOf(docs, key, next) == RemainingOf(docs, key, query)[|Paginate(docs, key, query).edges|..]
  {
    var order := query.Order();
    var sorted := SortedMatches(docs, key, query);
    var remaining := RemainingOf(docs, key, query);
    var n := |Paginate(docs, key, query).edges|;
    PageEndsAt(docs, key, query);
    var cut := key(remaining[n - 1]);
    NextRemaining(docs, key, query, next, cut);
    RemainingAfterCut(sorted, key, order, Boundary(query), n - 1);
    assert multiset(remaining) <= multiset(docs) by {
      forall x ensures multiset(remaining)[x] <= multiset(docs)[x] {
        RemainingCount(docs, key, query, x);
      }
    }
    DistinctKeysSubMultiset(remaining, docs, key);
    FilterAfterPrefix(remaining, key, order, n);
  }

  /** A non-empty page is a prefix of the remaining rows and its end cursor is the key of its last row. */
  lemma PageEndsAt<T(!new)>(docs: seq<T>, key: T -> string, query: CursorQuery)
    requires Limit(query) > 0
    requires Paginate(docs, key, query).pageInfo.endCursor.Some?
    ensures var n := |Paginate(docs, key, query).edges|;
      var remaining := RemainingOf(docs, key, query);
      && 0 < n <= |remaining|
      && Paginate(docs, key, query).pageInfo.endCursor == Some(key(remaining[n - 1]))
  {
    var page := Window(docs, key, query, Limit(query));
    var remaining := RemainingOf(docs, key, query);
    assert Paginate(docs, key, query).edges == Edges(page, key);
    assert page == remaining[..|page|];
  }

  /** A request that differs only in its cursor sees the same sorted rows, cut at that cursor. */
  lemma NextRemaining<T(!new)>(docs: seq<T>, key: T -> string, query: CursorQuery, next: CursorQuery, cut: string)
    requires next.Order() == query.Order() && next.query == query.query
    requires Boundary(next) == Some(cut)
    ensures RemainingOf(docs, key, next) == Remaining(SortedMatches(docs, key, query), key, query.Order(), Some(cut))
    ensures RemainingOf(docs, key, query) == Remaining(SortedMatches(docs, key, query), key, query.Order(), Boundary(query))
  {
    assert SortedMatches(docs, key, next) == SortedMatches(docs, key, query);
  }

  lemma RemainingCount<T(!new)>(docs: seq<T>, key: T -> string, query: CursorQuery, x: T)
    ensures multiset(RemainingOf(docs, key, query))[x] <= multiset(docs)[x]
  {
    var sorted := SortedMatches(docs, key, query);
    var r := Remaining(sorted, key, query.Order(), Boundary(query));
    assert multiset(r)[x] <= multiset(sorted)[x];
    assert multiset(sorted)[x] == multiset(Matched(docs, key, query.query))[x];
  }

  // ---------------------------------------------------------------------------
  // Examples on plain string rows

  /** The search key of a row that is its own key. */
  function Self(d: string): string { d }

  /**
   * Rows that share a key are not told apart: after a one-row page on two rows
   * keyed "a", no next page is reported and the cursor skips the second row.
   */
  lemma TiedKeysHideARow()
    ensures var docs := ["a", "a"];
      var c := Paginate(docs, Self, CursorQueryAsc(None, 1, None));
      && c.pageInfo.totalCount == 2
      && |c.edges| == 1
      && !c.pageInfo.hasNextPage
      && c.pageInfo.endCursor == Some("a")
      && Paginate(docs, Self, CursorQueryAsc(None, 1, Some("a"))).edges == []
  {
    var docs := ["a", "a"];
    LessIrreflexive("a");
    assert SortBy(["a"], Self, Asc) == ["a"];
    assert SortBy(docs, Self, Asc) == docs;
    var rest := Filter(docs[1..], AfterCursor(Asc, "a", Self));
    assert rest == [];
    assert Filter(docs, AfterCursor(Asc, "a", Self)) == [];
    assert Extreme(Desc, docs, Self) == Some("a");
  }

  // ---------------------------------------------------------------------------
  // The skip stage as written

  /**
   * The request the source's skip stage acts on: it tests the cursor for
   * truthiness, so an empty-string cursor is dropped as if none were given.
   */
  function TruthyBoundary(query: CursorQuery): (q: CursorQuery)
    ensures q.Order() == query.Order() && q.query == query.query && Limit(q) == Limit(query)
    ensures Boundary(q) == OrNull(Boundary(query))
  {
    match query
    case CursorQueryAsc(text, first, after) => CursorQueryAsc(text, first, OrNull(after))
    case CursorQueryDesc(text, last, before) => CursorQueryDesc(text, last, OrNull(before))
  }

  /** The pipeline exactly as the source builds it; it differs only on an empty-string cursor. */
  function PaginateAsWritten<T(!new)>(docs: seq<T>, key: T -> string, query: CursorQuery): (c: Cursor<T>)
    requires Limit(query) > 0
    ensures Boundary(query) != Some("") ==> c == Paginate(docs, key, query)
  {
    var q := TruthyBoundary(query);
    assert Boundary(query) != Some("") ==> q == query;
    Paginate(docs, key, q)
  }

  /** On rows "" and "a", the first one-row page ends on the empty key and reports a next page. */
  lemma EmptyKeyFirstPage()
    ensures var c := Paginate(["", "a"], Self, CursorQueryAsc(None, 1, None));
      c.pageInfo.endCursor == Some("") && c.pageInfo.hasNextPage
  {
    var docs := ["", "a"];
    assert Less("", "a");
    assert !Less("a", "");
    assert SortBy([""], Self, Asc) == [""];
    assert SortBy(docs, Self, Asc) == docs;
    LessIrreflexive("");
    assert Extreme(Desc, docs, Self) == Some("a");
  }

  /** Past the empty-string cursor, the next one-row page is the row "a". */
  lemma EmptyKeyNextPage()
    ensures Paginate(["", "a"], Self, CursorQueryAsc(None, 1, Some(""))).edges == [Edge("a", "a")]
  {
    var docs := ["", "a"];
    assert Less("", "a");
    assert !Less("a", "");
    assert SortBy([""], Self, Asc) == [""];
    assert SortBy(docs, Self, Asc) == docs;
    LessIrreflexive("");
    var after := AfterCursor(Asc, "", Self);
    assert Filter(docs[1..], after) == ["a"];
    assert Filter(docs, after) == ["a"];
  }

  /**
   * A row whose key is the empty string ends the first page, and following its
   * cursor as written serves that first page again, forever; the corrected
   * pipeline moves on to the next row.
   */
  lemma EmptyCursorRestartsAsWritten()
    ensures var docs := ["", "a"];
      var first := CursorQueryAsc(None, 1, None);
      var next := CursorQueryAsc(None, 1, Some(""));
      && Paginate(docs, Self, first).pageInfo.endCursor == Some("")
      && Paginate(docs, Self, first).pageInfo.hasNextPage
      && PaginateAsWritten(docs, Self, next) == Paginate(docs, Self, first)
      && Paginate(docs, Self, next).edges == [Edge("a", "a")]
  {
    EmptyKeyFirstPage();
    EmptyKeyNextPage();
    assert TruthyBoundary(CursorQueryAsc(None, 1, Some(""))) == CursorQueryAsc(None, 1, None);
  }
}
