/**
 * Reading the guests collection as a whole: the check-in statistics
 * (server/src/entitites/guest/getStats.ts), the RSVP count (countRsvp.ts) and
 * the paged search by full name (findGuests.ts).
 */
module GuestReports {
  import opened Options
  import opened Results
  import opened Errors
  import opened Strings
  import opened Cursors
  import opened Pagination
  import opened Collections
  import opened Guests
  import opened GuestsCollection

  // ---------------------------------------------------------------------------
  // Counting

  /** The number of stored guests whose status satisfies `p`. */
  function CountWhere(rows: seq<Stored<Guest>>, p: Status -> bool): (n: nat)
    ensures n <= |rows|
  {
    if |rows| == 0 then 0 else CountWhere(rows[..|rows| - 1], p) + (if p(rows[|rows| - 1].doc.status) then 1 else 0)
  }

  function IsCheckedIn(): Status -> bool { (st: Status) => st == CheckedIn }
  function IsNotCheckedIn(): Status -> bool { (st: Status) => st != CheckedIn }
  function IsRsvp(): Status -> bool { (st: Status) => st == Rsvp }

  /** Appending a row adds one to a count exactly when the row's status is counted. */
  lemma CountAppend(rows: seq<Stored<Guest>>, row: Stored<Guest>, p: Status -> bool)
    ensures CountWhere(rows + [row], p) == CountWhere(rows, p) + (if p(row.doc.status) then 1 else 0)
  {
    assert (rows + [row])[..|rows|] == rows;
  }

  /** The count of a predicate and of its negation add up to every row. */
  lemma {:induction false} CountSplits(rows: seq<Stored<Guest>>)
    ensures CountWhere(rows, IsCheckedIn()) + CountWhere(rows, IsNotCheckedIn()) == |rows|
  {
    if |rows| > 0 {
      CountSplits(rows[..|rows| - 1]);
    }
  }

  /** A count is the number of rows whose status is counted. */
  lemma {:induction false} CountIsCardinality(rows: seq<Stored<Guest>>, p: Status -> bool)
    ensures CountWhere(rows, p) == |set i | 0 <= i < |rows| && p(rows[i].doc.status)|
  {
    if |rows| > 0 {
      var init := rows[..|rows| - 1];
      CountIsCardinality(init, p);
      var before := set i | 0 <= i < |init| && p(init[i].doc.status);
      var after := set i | 0 <= i < |rows| && p(rows[i].doc.status);
      if p(rows[|rows| - 1].doc.status) {
        assert after == before + {|rows| - 1};
      } else {
        assert after == before;
      }
    }
  }

  // ---------------------------------------------------------------------------
  // Statistics

  datatype Stats = Stats(totalCount: int, checkedIn: int, notCheckedIn: int)

  /** The `$facet` pipeline: one document with the three counts, each zero when nothing is counted. */
  function StatsPipeline(): seq<Stored<Guest>> -> Attempt<seq<Stats>> {
    rows => Returned([Stats(|rows|, CountWhere(rows, IsCheckedIn()), CountWhere(rows, IsNotCheckedIn()))])
  }

  const EmptyStats := "Unable to get stats: received empty array from aggregation"

  /** `getStats` keeps the aggregation's first document; an empty answer is a 500. */
  function FirstStats(rows: seq<Stats>): (r: Result<ServerError, Stats>)
    ensures |rows| == 0 <==> r == Failure(Plain(500, EmptyStats))
    ensures |rows| > 0 ==> r == Success(rows[0])
  {
    if |rows| > 0 then Success(rows[0]) else Failure(Plain(500, EmptyStats))
  }

  function GetStats(s: Store<Guest>): (r: Result<ServerError, Stats>)
    ensures !s.reachable ==> r == Failure(AggregationFailed(Name, Unreachable))
  {
    Aggregate(Name, s, StatsPipeline()).FlatMap(FirstStats)
  }

  /**
   * On a reachable store the statistics count every guest, the checked-in
   * ones and the others, and the last two add up to the first.
   */
  lemma StatsAddUp(s: Store<Guest>)
    requires s.reachable
    ensures var r := GetStats(s);
            && r.IsSuccess()
            && r.value.totalCount == |s.rows|
            && r.value.checkedIn == |set i | 0 <= i < |s.rows| && s.rows[i].doc.status == CheckedIn|
            && r.value.checkedIn + r.value.notCheckedIn == r.value.totalCount
  {
    CountSplits(s.rows);
    CountIsCardinality(s.rows, IsCheckedIn());
    assert (set i | 0 <= i < |s.rows| && IsCheckedIn()(s.rows[i].doc.status))
        == (set i | 0 <= i < |s.rows| && s.rows[i].doc.status == CheckedIn);
  }

  /** Checking in one more guest moves it from the not-checked-in count to the checked-in one. */
  lemma CheckInMovesCount(rows: seq<Stored<Guest>>, row: Stored<Guest>)
    requires row.doc.status != CheckedIn
    ensures var before := Store(rows + [row], 0, true);
            var after := Store(rows + [row.(doc := row.doc.(status := CheckedIn))], 0, true);
            && GetStats(after).value.checkedIn == GetStats(before).value.checkedIn + 1
            && GetStats(after).value.notCheckedIn == GetStats(before).value.notCheckedIn - 1
            && GetStats(after).value.totalCount == GetStats(before).value.totalCount
  {
    CountAppend(rows, row, IsCheckedIn());
    CountAppend(rows, row, IsNotCheckedIn());
    CountAppend(rows, row.(doc := row.doc.(status := CheckedIn)), IsCheckedIn());
    CountAppend(rows, row.(doc := row.doc.(status := CheckedIn)), IsNotCheckedIn());
  }

  // ---------------------------------------------------------------------------
  // RSVP count

  const CountFailed := "Unable to count RSVP guests"

  /** `countRsvp()`: the number of guests whose status is RSVP. */
  function CountRsvp(s: Store<Guest>): (r: Result<ServerError, nat>)
    ensures s.reachable <==> r.IsSuccess()
    ensures !s.reachable ==> r == Failure(ServerError(500, CountFailed, Some(Unreachable.message)))
  {
    TryCatch(if s.reachable then Returned(CountWhere(s.rows, IsRsvp())) else Threw(Unreachable),
             (e: Exception) => ServerError(500, CountFailed, Some(e.message)))
  }

  /** The count is the number of RSVP rows. */
  lemma CountRsvpCounts(s: Store<Guest>)
    requires s.reachable
    ensures CountRsvp(s) == Success(|set i | 0 <= i < |s.rows| && s.rows[i].doc.status == Rsvp|)
  {
    CountIsCardinality(s.rows, IsRsvp());
    assert (set i | 0 <= i < |s.rows| && IsRsvp()(s.rows[i].doc.status))
        == (set i | 0 <= i < |s.rows| && s.rows[i].doc.status == Rsvp);
  }

  /** Inserting a guest raises the count by one exactly when the stored guest is an RSVP. */
  lemma InsertChangesCount(s: Store<Guest>, doc: Guest, eventDay: bool)
    requires Valid(s) && s.reachable
    ensures var after := InsertGuest(s, doc, eventDay).0;
            CountRsvp(after).value == CountRsvp(s).value + (if !eventDay && doc.status == Rsvp then 1 else 0)
  {
    InsertGuestAnswer(s, doc, eventDay);
    CountAppend(s.rows, Stored(s.nextId, Dated(doc, eventDay)), IsRsvp());
  }

  // ---------------------------------------------------------------------------
  // Search

  /** The search key `$concat: [firstName, ' ', lastName]`. */
  function FullName(g: Guest): (n: string)
    ensures |n| == |g.firstName| + 1 + |g.lastName|
    ensures n[..|g.firstName|] == g.firstName && n[|g.firstName|] == ' ' && n[|g.firstName| + 1..] == g.lastName
  {
    g.firstName + " " + g.lastName
  }

  /** `findGuests(query)`: one page of guests, searched and ordered by full name. */
  function FindGuests(s: Store<Guest>, query: CursorQuery): (r: Result<ServerError, Cursor<Stored<Guest>>>)
    ensures s.reachable && Limit(query) > 0 ==> r.IsSuccess()
  {
    Find(Name, s, FullName, query)
  }

  /**
   * Every guest on a page contains the search text in its full
   * name (ignoring letter case) and has its full name as cursor; the total is
   * the number of matching guests.
   */
  lemma FoundGuestsMatch(s: Store<Guest>, query: CursorQuery)
    requires s.reachable && Limit(query) > 0
    ensures var page := FindGuests(s, query).value;
            && page.pageInfo.totalCount == |Matched(s.rows, DocKey(FullName), query.query)|
            && |page.edges| <= Limit(query)
            && forall i :: 0 <= i < |page.edges| ==>
                 && page.edges[i].cursor == FullName(page.edges[i].node.doc)
                 && (Truthy(query.query) ==> ContainsIgnoreCase(page.edges[i].cursor, query.query.value))
  {
    assert FindGuests(s, query) == Success(Paginate(s.rows, DocKey(FullName), TruthyBoundary(query)));
  }

  /** Without search text every stored guest is counted. */
  lemma UnfilteredTotal(s: Store<Guest>, query: CursorQuery)
    requires s.reachable && Limit(query) > 0 && !Truthy(query.query)
    ensures FindGuests(s, query).value.pageInfo.totalCount == |s.rows|
  {
    assert FindGuests(s, query) == Success(Paginate(s.rows, DocKey(FullName), TruthyBoundary(query)));
  }
}
