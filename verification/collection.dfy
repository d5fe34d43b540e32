/**
 * The generic document collection of server/src/database/Collection.ts over an
 * in-memory model of one database collection. The database driver's calls are
 * modelled as functions that either return or throw; what `Collection` makes of
 * their answers is kept in separate outcome functions, so that the branches the
 * in-memory driver never takes (a short id list, an empty aggregation answer, a
 * modification not acknowledged) are modelled as well.
 */
module Collections {
  import opened Options
  import opened Results
  import opened Errors
  import opened Sequences
  import opened Cursors
  import opened Pagination

  /** A collection is known by its name, which every error message quotes. */
  datatype Collection = Collection(name: string)

  /** A stored document with the id the store gave it. */
  datatype Stored<T> = Stored(id: nat, doc: T)

  /**
   * The rows of one collection in natural (insertion) order, the next id the
   * store hands out, and whether the database answers at all.
   */
  datatype Store<T> = Store(rows: seq<Stored<T>>, nextId: nat, reachable: bool)

  /** Ids are unique and all below the next one to be handed out. */
  predicate Valid<T>(s: Store<T>) {
    && (forall i :: 0 <= i < |s.rows| ==> s.rows[i].id < s.nextId)
    && (forall i, j :: 0 <= i < j < |s.rows| ==> s.rows[i].id != s.rows[j].id)
  }

  function EmptyStore<T>(): (s: Store<T>)
    ensures Valid(s) && s.reachable && s.rows == []
  {
    Store([], 0, true)
  }

  /** Two stored rows with the same id in a valid store are the same row. */
  lemma IdIdentifiesRow<T>(s: Store<T>, a: Stored<T>, b: Stored<T>)
    requires Valid(s)
    requires a in s.rows && b in s.rows && a.id == b.id
    ensures a == b
  {
    var i :| 0 <= i < |s.rows| && s.rows[i] == a;
    var j :| 0 <= j < |s.rows| && s.rows[j] == b;
  }

  // ---------------------------------------------------------------------------
  // The driver

  const Unreachable := Exception("connection refused")

  /** What the driver throws for `insertMany([])`. */
  const EmptyBatch := Exception("Invalid BulkOperation, Batch cannot be empty")

  /** The filter `{ _id }`. */
  function HasId<T>(id: nat): Stored<T> -> bool {
    (r: Stored<T>) => r.id == id
  }

  /** The first row in natural order that passes the filter. */
  function FirstMatch<T>(rows: seq<Stored<T>>, filter: Stored<T> -> bool): (r: Option<Stored<T>>)
    ensures r.Some? ==> r.value in rows && filter(r.value)
    ensures r.None? <==> forall i :: 0 <= i < |rows| ==> !filter(rows[i])
    ensures r.Some? ==> exists k :: 0 <= k < |rows| && rows[k] == r.value && forall i :: 0 <= i < k ==> !filter(rows[i])
    decreases |rows|
  {
    if |rows| == 0 then None
    else if filter(rows[0]) then Some(rows[0])
    else
      var r := FirstMatch(rows[1..], filter);
      assert r.Some? ==> exists k :: 1 <= k < |rows| && rows[k] == r.value && forall i :: 0 <= i < k ==> !filter(rows[i]) by {
        if r.Some? {
          var k :| 0 <= k < |rows[1..]| && rows[1..][k] == r.value && forall i :: 0 <= i < k ==> !filter(rows[1..][i]);
          assert rows[k + 1] == r.value;
          assert forall i :: 1 <= i < k + 1 ==> !filter(rows[i]) by {
            forall i | 1 <= i < k + 1 ensures !filter(rows[i]) {
              assert rows[i] == rows[1..][i - 1];
            }
          }
        }
      }
      assert r.None? ==> forall i :: 1 <= i < |rows| ==> !filter(rows[i]) by {
        if r.None? {
          forall i | 1 <= i < |rows| ensures !filter(rows[i]) {
            assert rows[i] == rows[1..][i - 1];
          }
        }
      }
      r
  }

  function DriverFindOne<T>(s: Store<T>, filter: Stored<T> -> bool): (r: Attempt<Option<Stored<T>>>)
    ensures r.Threw? <==> !s.reachable
  {
    if !s.reachable then Threw(Unreachable) else Returned(FirstMatch(s.rows, filter))
  }

  /** The rows a batch insert appends, numbered from `start`. */
  function NewRows<T>(start: nat, docs: seq<T>): (r: seq<Stored<T>>)
    ensures |r| == |docs|
    ensures forall i :: 0 <= i < |r| ==> r[i] == Stored(start + i, docs[i])
  {
    seq(|docs|, i requires 0 <= i < |docs| => Stored(start + i, docs[i]))
  }

  function IdsOf<T>(rows: seq<Stored<T>>): (ids: seq<nat>)
    ensures |ids| == |rows|
    ensures forall i :: 0 <= i < |rows| ==> ids[i] == rows[i].id
  {
    seq(|rows|, i requires 0 <= i < |rows| => rows[i].id)
  }

  /**
   * `insertMany`: appends the batch with fresh ids and answers the ids. The
   * driver rejects an empty batch.
   */
  function DriverInsertMany<T>(s: Store<T>, docs: seq<T>): (r: Attempt<(Store<T>, seq<nat>)>)
    ensures r.Threw? <==> !s.reachable || |docs| == 0
  {
    if !s.reachable then Threw(Unreachable)
    else if |docs| == 0 then Threw(EmptyBatch)
    else
      var added := NewRows(s.nextId, docs);
      Returned((Store(s.rows + added, s.nextId + |docs|, true), IdsOf(added)))
  }

  /** `find({ _id: { $in: ids } })`: the rows with those ids, in natural order. */
  function DriverFindIds<T(!new)>(s: Store<T>, ids: seq<nat>): (r: Attempt<seq<Stored<T>>>)
    ensures r.Threw? <==> !s.reachable
  {
    if !s.reachable then Threw(Unreachable) else Returned(Filter(s.rows, (r: Stored<T>) => r.id in ids))
  }

  /** A `findOneAndUpdate` / `findOneAndDelete` answer. */
  datatype Modified<T> = Modified(ok: bool, value: Option<Stored<T>>)

  /**
   * Every row with the id gets the new document; the others stay. The source
   * `$set`s each field of the new document except `_id`. That is a replacement
   * for the complete records every caller passes, so the model replaces the
   * whole document.
   */
  function Replace<T>(rows: seq<Stored<T>>, id: nat, doc: T): (r: seq<Stored<T>>)
    ensures |r| == |rows|
    ensures forall i :: 0 <= i < |r| ==> r[i] == (if rows[i].id == id then Stored(id, doc) else rows[i])
  {
    seq(|rows|, i requires 0 <= i < |rows| => if rows[i].id == id then Stored(id, doc) else rows[i])
  }

  function DriverFindOneAndUpdate<T>(s: Store<T>, id: nat, doc: T): (r: Attempt<(Store<T>, Modified<T>)>)
    ensures r.Threw? <==> !s.reachable
  {
    if !s.reachable then Threw(Unreachable)
    else match FirstMatch(s.rows, HasId(id))
      case None => Returned((s, Modified(true, None)))
      case Some(_) => Returned((s.(rows := Replace(s.rows, id, doc)), Modified(true, Some(Stored(id, doc)))))
  }

  function DriverFindOneAndDelete<T(!new)>(s: Store<T>, id: nat): (r: Attempt<(Store<T>, Modified<T>)>)
    ensures r.Threw? <==> !s.reachable
  {
    if !s.reachable then Threw(Unreachable)
    else match FirstMatch(s.rows, HasId(id))
      case None => Returned((s, Modified(true, None)))
      case Some(row) => Returned((s.(rows := Filter(s.rows, WithoutId(id))), Modified(true, Some(row))))
  }

  // ---------------------------------------------------------------------------
  // Reading

  function QueryFailed(c: Collection, e: Exception): (err: ServerError)
    ensures err.status == 500
    ensures err.message == "Unable to execute query on collection \"" + c.name + "\"" && err.extra == Some(e.message)
  {
    ServerError(500, "Unable to execute query on collection \"" + c.name + "\"", Some(e.message))
  }

  /** `findOne`: the first matching row, 404 when none matches, 500 when the query throws. */
  function FindOne<T>(c: Collection, s: Store<T>, filter: Stored<T> -> bool): (r: Result<ServerError, Stored<T>>)
    ensures !s.reachable ==> r == Failure(QueryFailed(c, Unreachable))
    ensures s.reachable ==> (r.IsSuccess() <==> exists i :: 0 <= i < |s.rows| && filter(s.rows[i]))
    ensures s.reachable && r.IsFailure() ==> r.error == Plain(404, NotFoundMessage)
    ensures r.IsSuccess() ==> r.value in s.rows && filter(r.value)
  {
    TryCatch(DriverFindOne(s, filter), (e: Exception) => QueryFailed(c, e))
      .FlatMap((found: Option<Stored<T>>) => if found.None? then Failure(Plain(404, NotFoundMessage)) else Success(found.value))
  }

  /** `findById`: in a valid store, the row with that id, or 404. */
  function FindById<T>(c: Collection, s: Store<T>, id: nat): (r: Result<ServerError, Stored<T>>)
    requires Valid(s)
    ensures !s.reachable ==> r.IsFailure() && r.error.status == 500
    ensures s.reachable ==> (r.IsSuccess() <==> exists i :: 0 <= i < |s.rows| && s.rows[i].id == id)
    ensures s.reachable && r.IsFailure() ==> r.error == Plain(404, NotFoundMessage)
    ensures r.IsSuccess() ==> r.value in s.rows && r.value.id == id
  {
    FindOne(c, s, HasId(id))
  }

  /** A stored row is what `findById` answers for its id. */
  lemma FindByIdFindsRow<T>(c: Collection, s: Store<T>, row: Stored<T>)
    requires Valid(s) && s.reachable
    requires row in s.rows
    ensures FindById(c, s, row.id) == Success(row)
  {
    var i :| 0 <= i < |s.rows| && s.rows[i] == row;
    assert HasId<T>(row.id)(s.rows[i]);
    IdIdentifiesRow(s, FindById(c, s, row.id).value, row);
  }

  // ---------------------------------------------------------------------------
  // Inserting

  /** The first two checks of `insert`: the driver did not throw and answered one id per document. */
  function CheckInserted(c: Collection, count: nat, inserted: Attempt<seq<nat>>): (r: Result<ServerError, seq<nat>>)
    ensures inserted.Threw? ==> r == Failure(ServerError(500,
      "Unable to insert documents in collection " + c.name, Some(inserted.exception.message)))
    ensures inserted.Returned? && |inserted.value| != count ==> r == Failure(ServerError(500,
      "Failed to insert document(s) in collection \"" + c.name + "\"", Some("doc")))
    ensures r.IsSuccess() <==> inserted.Returned? && |inserted.value| == count
    ensures r.IsSuccess() ==> r.value == inserted.value
  {
    TryCatch(inserted, (e: Exception) => ServerError(500, "Unable to insert documents in collection " + c.name, Some(e.message)))
      .FlatMap(ids =>
        if |ids| != count then Failure(ServerError(500, "Failed to insert document(s) in collection \"" + c.name + "\"", Some("doc")))
        else Success(ids))
  }

  /** Re-reading the inserted documents by id. */
  function Reread<T>(c: Collection, reread: Attempt<seq<Stored<T>>>): (r: Result<ServerError, seq<Stored<T>>>)
    ensures reread.Threw? ==> r == Failure(ServerError(500,
      "Unable to execute find in collection " + c.name, Some(reread.exception.message)))
    ensures reread.Returned? ==> r == Success(reread.value)
  {
    TryCatch(reread, (e: Exception) => ServerError(500, "Unable to execute find in collection " + c.name, Some(e.message)))
  }

  /**
   * The single-document form keeps the first re-read row; a failed or empty
   * re-read gives one message, whatever went wrong.
   */
  function FirstInserted<T>(c: Collection, rows: Result<ServerError, seq<Stored<T>>>): (r: Result<ServerError, Stored<T>>)
    ensures r.IsSuccess() <==> rows.IsSuccess() && |rows.value| > 0
    ensures r.IsSuccess() ==> r.value == rows.value[0]
    ensures r.IsFailure() ==> r.error == ServerError(500,
      "Unable to find inserted document in collection " + c.name, Some("doc"))
  {
    var first := rows.Map(rs => if |rs| > 0 then Some(rs[0]) else None).GetOrElse(_ => None);
    if first.Some? then Success(first.value)
    else Failure(ServerError(500, "Unable to find inserted document in collection " + c.name, Some("doc")))
  }

  /** `insert` of an array, given the driver's two answers. */
  function InsertOutcome<T>(c: Collection, count: nat, inserted: Attempt<seq<nat>>, reread: Attempt<seq<Stored<T>>>): (r: Result<ServerError, seq<Stored<T>>>)
    ensures r.IsSuccess() <==> inserted.Returned? && |inserted.value| == count && reread.Returned?
    ensures r.IsFailure() && (inserted.Threw? || |inserted.value| != count) ==> r == CheckInserted(c, count, inserted).Map(_ => [])
    ensures r.IsSuccess() ==> r.value == reread.value
  {
    CheckInserted(c, count, inserted).FlatMap(_ => Reread(c, reread))
  }

  /** `insert` of one document, given the driver's two answers. */
  function InsertOneOutcome<T>(c: Collection, inserted: Attempt<seq<nat>>, reread: Attempt<seq<Stored<T>>>): (r: Result<ServerError, Stored<T>>)
    ensures r.IsSuccess() <==> inserted.Returned? && |inserted.value| == 1 && reread.Returned? && |reread.value| > 0
    ensures r.IsSuccess() ==> r.value == reread.value[0]
    ensures inserted.Threw? || |inserted.value| != 1 ==> r.error == CheckInserted(c, 1, inserted).error
  {
    CheckInserted(c, 1, inserted).FlatMap(_ => FirstInserted(c, Reread(c, reread)))
  }

  /** `insert(docs)` on the store: the store after the call and the answer. */
  function InsertAll<T(!new)>(c: Collection, s: Store<T>, docs: seq<T>): (r: (Store<T>, Result<ServerError, seq<Stored<T>>>))
    ensures !s.reachable || |docs| == 0 ==> r.0 == s && r.1.IsFailure() && r.1.error.status == 500
    ensures s.reachable && |docs| > 0 ==> r.0 == Store(s.rows + NewRows(s.nextId, docs), s.nextId + |docs|, true)
  {
    match DriverInsertMany(s, docs)
    case Threw(e) => (s, InsertOutcome(c, |docs|, Threw(e), Threw(e)))
    case Returned((after, ids)) => (after, InsertOutcome(c, |docs|, Returned(ids), DriverFindIds(after, ids)))
  }

  /** `insert(doc)` on the store. */
  function InsertOne<T(!new)>(c: Collection, s: Store<T>, doc: T): (r: (Store<T>, Result<ServerError, Stored<T>>))
    ensures !s.reachable ==> r.0 == s && r.1.IsFailure() && r.1.error.status == 500
    ensures s.reachable ==> r.0 == Store(s.rows + [Stored(s.nextId, doc)], s.nextId + 1, true)
  {
    match DriverInsertMany(s, [doc])
    case Threw(e) => (s, InsertOneOutcome(c, Threw(e), Threw(e)))
    case Returned((after, ids)) => (after, InsertOneOutcome(c, Returned(ids), DriverFindIds(after, ids)))
  }

  /** The re-read after an insert finds exactly the appended rows, in insertion order. */
  lemma RereadFindsAppended<T(!new)>(s: Store<T>, docs: seq<T>)
    requires Valid(s) && s.reachable && |docs| > 0
    ensures var added := NewRows(s.nextId, docs);
      DriverFindIds(Store(s.rows + added, s.nextId + |docs|, true), IdsOf(added)) == Returned(added)
  {
    var added := NewRows(s.nextId, docs);
    var ids := IdsOf(added);
    var all := s.rows + added;
    var p := (r: Stored<T>) => r.id in ids;
    forall i | 0 <= i < |s.rows| ensures !p(all[i]) {
      assert all[i] == s.rows[i];
    }
    forall i | |s.rows| <= i < |all| ensures p(all[i]) {
      assert all[i] == added[i - |s.rows|];
      assert ids[i - |s.rows|] == all[i].id;
    }
    FilterSuffix(all, p, |s.rows|);
    assert all[|s.rows|..] == added;
  }

  /** The store after an insert, and its answer, on a reachable store and a non-empty batch. */
  lemma InsertAllAnswer<T(!new)>(c: Collection, s: Store<T>, docs: seq<T>)
    requires Valid(s) && s.reachable && |docs| > 0
    ensures var added := NewRows(s.nextId, docs);
      InsertAll(c, s, docs) == (Store(s.rows + added, s.nextId + |docs|, true), Success(added))
  {
    var added := NewRows(s.nextId, docs);
    var after := Store(s.rows + added, s.nextId + |docs|, true);
    assert DriverInsertMany(s, docs) == Returned((after, IdsOf(added)));
    RereadFindsAppended(s, docs);
    assert InsertOutcome(c, |docs|, Returned(IdsOf(added)), Returned(added)) == Success(added);
  }

  /** Appending rows numbered from `nextId` keeps the store valid. */
  lemma AppendKeepsValid<T>(s: Store<T>, docs: seq<T>)
    requires Valid(s)
    ensures Valid(Store(s.rows + NewRows(s.nextId, docs), s.nextId + |docs|, s.reachable))
  {
    var after := Store(s.rows + NewRows(s.nextId, docs), s.nextId + |docs|, s.reachable);
    forall i, j | 0 <= i < j < |after.rows| ensures after.rows[i].id != after.rows[j].id {
      if i < |s.rows| {
        assert after.rows[i] == s.rows[i];
      }
    }
  }

  /**
   * Inserting into a reachable valid store appends the batch with fresh ids,
   * answers the stored rows in the order given, and keeps the store valid.
   */
  lemma InsertAllRoundTrip<T(!new)>(c: Collection, s: Store<T>, docs: seq<T>)
    requires Valid(s) && s.reachable && |docs| > 0
    ensures var (after, r) := InsertAll(c, s, docs);
      && r.IsSuccess()
      && after.rows == s.rows + r.value
      && Valid(after) && after.reachable
      && (forall i :: 0 <= i < |docs| ==> r.value[i].doc == docs[i] && r.value[i].id >= s.nextId)
  {
    InsertAllAnswer(c, s, docs);
    AppendKeepsValid(s, docs);
  }

  /** After inserting into a reachable valid store, `findById` finds each inserted row. */
  lemma InsertAllThenFind<T(!new)>(c: Collection, s: Store<T>, docs: seq<T>)
    requires Valid(s) && s.reachable && |docs| > 0
    ensures var (after, r) := InsertAll(c, s, docs);
      && Valid(after) && r.IsSuccess() && |r.value| == |docs|
      && forall i :: 0 <= i < |docs| ==> FindById(c, after, r.value[i].id) == Success(r.value[i])
  {
    InsertAllAnswer(c, s, docs);
    AppendKeepsValid(s, docs);
    AppendedRowsFound(c, s, docs);
  }

  /** Each appended row is found by its id in the valid store that results. */
  lemma AppendedRowsFound<T>(c: Collection, s: Store<T>, docs: seq<T>)
    requires Valid(s)
    ensures var added := NewRows(s.nextId, docs);
      var after := Store(s.rows + added, s.nextId + |docs|, true);
      forall i :: 0 <= i < |docs| ==> FindById(c, after, added[i].id) == Success(added[i])
  {
    var added := NewRows(s.nextId, docs);
    var after := Store(s.rows + added, s.nextId + |docs|, true);
    AppendKeepsValid(s, docs);
    assert Valid(after);
    forall i | 0 <= i < |docs| ensures FindById(c, after, added[i].id) == Success(added[i]) {
      assert after.rows[|s.rows| + i] == added[i];
      FindByIdFindsRow(c, after, added[i]);
    }
  }

  /** Inserting one document answers the stored row, which `findById` then finds. */
  lemma InsertOneRoundTrip<T(!new)>(c: Collection, s: Store<T>, doc: T)
    requires Valid(s) && s.reachable
    ensures var (after, r) := InsertOne(c, s, doc);
      && r == Success(Stored(s.nextId, doc))
      && after.rows == s.rows + [r.value]
      && FindById(c, after, s.nextId) == r
  {
    var added := NewRows(s.nextId, [doc]);
    assert added == [Stored(s.nextId, doc)];
    var after := Store(s.rows + added, s.nextId + 1, true);
    assert DriverInsertMany(s, [doc]) == Returned((after, IdsOf(added)));
    RereadFindsAppended(s, [doc]);
    assert InsertOneOutcome(c, Returned(IdsOf(added)), Returned(added)) == Success(Stored(s.nextId, doc));
    AppendedRowsFound(c, s, [doc]);
    assert added[0].id == s.nextId;
  }

  /** Inserting nothing, or into an unreachable store, changes nothing and fails with a 500. */
  lemma InsertAllFails<T(!new)>(c: Collection, s: Store<T>, docs: seq<T>)
    requires !s.reachable || |docs| == 0
    ensures InsertAll(c, s, docs).0 == s
    ensures InsertAll(c, s, docs).1.IsFailure()
    ensures InsertAll(c, s, docs).1.error.message == "Unable to insert documents in collection " + c.name
  {
  }

  // ---------------------------------------------------------------------------
  // Modifying

  /** What `update` and `delete` make of the driver's answer: not acknowledged or no document is a 404. */
  function ModifiedOutcome<T>(m: Result<ServerError, Modified<T>>): (r: Result<ServerError, Stored<T>>)
    ensures m.IsFailure() ==> r == Failure(m.error)
    ensures m.IsSuccess() ==> (r.IsSuccess() <==> m.value.ok && m.value.value.Some?)
    ensures m.IsSuccess() && r.IsFailure() ==> r.error == Plain(404, NotFoundMessage)
    ensures r.IsSuccess() ==> r.value == m.value.value.value
  {
    m.FlatMap((result: Modified<T>) =>
      if !result.ok || result.value.None? then Failure(Plain(404, NotFoundMessage))
      else Success(result.value.value))
  }

  function ModifyAttempt<T>(a: Attempt<(Store<T>, Modified<T>)>, message: string): (r: Result<ServerError, Modified<T>>)
    ensures a.Threw? ==> r == Failure(ServerError(500, message, Some(a.exception.message)))
    ensures a.Returned? ==> r == Success(a.value.1)
  {
    TryCatch(a, (e: Exception) => ServerError(500, message, Some(e.message))).Map((p: (Store<T>, Modified<T>)) => p.1)
  }

  function StoreAfter<T>(s: Store<T>, a: Attempt<(Store<T>, Modified<T>)>): (r: Store<T>)
    ensures a.Threw? ==> r == s
    ensures a.Returned? ==> r == a.value.0
  {
    if a.Returned? then a.value.0 else s
  }

  /** `update(id, doc)`: sets the document of the row with that id and answers the new row. */
  function Update<T>(c: Collection, s: Store<T>, id: nat, doc: T): (r: (Store<T>, Result<ServerError, Stored<T>>))
    ensures |r.0.rows| == |s.rows|
    ensures !s.reachable ==> r == (s, Failure(ServerError(500, "Unable to update a document in collection " + c.name, Some(Unreachable.message))))
    ensures r.1.IsSuccess() ==> r.1.value == Stored(id, doc)
  {
    var a := DriverFindOneAndUpdate(s, id, doc);
    (StoreAfter(s, a), ModifiedOutcome(ModifyAttempt(a, "Unable to update a document in collection " + c.name)))
  }

  /** `delete(id)`: removes the row with that id and answers it. */
  function Delete<T(!new)>(c: Collection, s: Store<T>, id: nat): (r: (Store<T>, Result<ServerError, Stored<T>>))
    ensures !s.reachable ==> r == (s, Failure(ServerError(500, "Unable to delete a document in collection " + c.name, Some(Unreachable.message))))
    ensures s.reachable && r.1.IsFailure() ==> r == (s, Failure(Plain(404, NotFoundMessage)))
    ensures r.1.IsSuccess() ==> r.1.value in s.rows && r.1.value.id == id
  {
    var a := DriverFindOneAndDelete(s, id);
    (StoreAfter(s, a), ModifiedOutcome(ModifyAttempt(a, "Unable to delete a document in collection " + c.name)))
  }

  /** No row carries the id: `findById` answers 404. */
  lemma FindByIdAbsent<T>(c: Collection, s: Store<T>, id: nat)
    requires Valid(s) && s.reachable
    requires forall i :: 0 <= i < |s.rows| ==> s.rows[i].id != id
    ensures FindById(c, s, id) == Failure(Plain(404, NotFoundMessage))
  {
  }

  /**
   * When every row with id `other` is in both stores, and every row of the
   * second store with that id comes from the first, `findById(other)` agrees.
   */
  lemma FindByIdAgrees<T>(c: Collection, s: Store<T>, t: Store<T>, other: nat)
    requires Valid(s) && Valid(t) && s.reachable && t.reachable
    requires forall i :: 0 <= i < |s.rows| && s.rows[i].id == other ==> s.rows[i] in t.rows
    requires forall i :: 0 <= i < |t.rows| && t.rows[i].id == other ==> t.rows[i] in s.rows
    ensures FindById(c, t, other) == FindById(c, s, other)
  {
    var before := FindById(c, s, other);
    if before.IsSuccess() {
      FindByIdFindsRow(c, t, before.value);
    } else {
      forall k | 0 <= k < |t.rows| ensures t.rows[k].id != other {
      }
      FindByIdAbsent(c, t, other);
    }
  }

  /** Replacing a row's document keeps the store valid: ids do not change. */
  lemma ReplaceKeepsValid<T>(s: Store<T>, id: nat, doc: T)
    requires Valid(s)
    ensures Valid(s.(rows := Replace(s.rows, id, doc)))
  {
    var rows := Replace(s.rows, id, doc);
    assert forall k :: 0 <= k < |rows| ==> rows[k].id == s.rows[k].id;
  }

  /** Updating an existing row answers the new row and replaces that row only. */
  lemma UpdateAnswer<T>(c: Collection, s: Store<T>, id: nat, doc: T)
    requires s.reachable
    requires exists i :: 0 <= i < |s.rows| && s.rows[i].id == id
    ensures Update(c, s, id, doc) == (s.(rows := Replace(s.rows, id, doc)), Success(Stored(id, doc)))
  {
    var i :| 0 <= i < |s.rows| && s.rows[i].id == id;
    assert HasId<T>(id)(s.rows[i]);
    var after := s.(rows := Replace(s.rows, id, doc));
    var m := Modified(true, Some(Stored(id, doc)));
    var a := DriverFindOneAndUpdate(s, id, doc);
    assert a == Returned((after, m));
    assert ModifyAttempt(a, "Unable to update a document in collection " + c.name) == Success(m);
  }

  /** After replacing the row with id `id`, `findById(id)` finds the new row. */
  lemma ReplaceThenFind<T>(c: Collection, s: Store<T>, id: nat, doc: T)
    requires Valid(s) && s.reachable
    requires exists i :: 0 <= i < |s.rows| && s.rows[i].id == id
    ensures Valid(s.(rows := Replace(s.rows, id, doc)))
    ensures FindById(c, s.(rows := Replace(s.rows, id, doc)), id) == Success(Stored(id, doc))
  {
    var after := s.(rows := Replace(s.rows, id, doc));
    ReplaceKeepsValid(s, id, doc);
    var i :| 0 <= i < |s.rows| && s.rows[i].id == id;
    assert after.rows[i] == Stored(id, doc);
    FindByIdFindsRow(c, after, Stored(id, doc));
  }

  /** Replacing the row with id `id` changes nothing `findById` answers for another id. */
  lemma ReplaceKeepsOthers<T>(c: Collection, s: Store<T>, id: nat, doc: T, other: nat)
    requires Valid(s) && s.reachable && other != id
    ensures Valid(s.(rows := Replace(s.rows, id, doc)))
    ensures FindById(c, s.(rows := Replace(s.rows, id, doc)), other) == FindById(c, s, other)
  {
    var after := s.(rows := Replace(s.rows, id, doc));
    ReplaceKeepsValid(s, id, doc);
    forall k | 0 <= k < |s.rows| && s.rows[k].id == other ensures s.rows[k] in after.rows {
      assert after.rows[k] == s.rows[k];
    }
    forall k | 0 <= k < |after.rows| && after.rows[k].id == other ensures after.rows[k] in s.rows {
      assert after.rows[k] == s.rows[k];
    }
    FindByIdAgrees(c, s, after, other);
  }

  /**
   * Updating an existing row answers the new row, which `findById` then finds;
   * every other id finds what it found before.
   */
  lemma UpdateThenFind<T>(c: Collection, s: Store<T>, id: nat, doc: T, other: nat)
    requires Valid(s) && s.reachable
    requires exists i :: 0 <= i < |s.rows| && s.rows[i].id == id
    requires other != id
    ensures var (after, r) := Update(c, s, id, doc);
      && r == Success(Stored(id, doc))
      && Valid(after) && after.reachable && after.nextId == s.nextId
      && FindById(c, after, id) == r
      && FindById(c, after, other) == FindById(c, s, other)
  {
    UpdateAnswer(c, s, id, doc);
    ReplaceThenFind(c, s, id, doc);
    ReplaceKeepsOthers(c, s, id, doc, other);
  }

  /** Updating a missing id leaves the store as it was and answers 404. */
  lemma UpdateMissing<T>(c: Collection, s: Store<T>, id: nat, doc: T)
    requires s.reachable
    requires forall i :: 0 <= i < |s.rows| ==> s.rows[i].id != id
    ensures Update(c, s, id, doc) == (s, Failure(Plain(404, NotFoundMessage)))
  {
    assert forall i :: 0 <= i < |s.rows| ==> !HasId<T>(id)(s.rows[i]);
  }

  /**
   * `update` handed a filter object where the id belongs, as in
   * `update({ emailHash }, doc)`: the driver's filter becomes
   * `{ _id: { emailHash } }`, which no stored id equals, so nothing matches.
   */
  function UpdateWithFilterObject<T>(c: Collection, s: Store<T>, doc: T): (r: (Store<T>, Result<ServerError, Stored<T>>))
    ensures r.0 == s
    ensures s.reachable ==> r.1 == Failure(Plain(404, NotFoundMessage))
    ensures !s.reachable ==> r.1.IsFailure() && r.1.error.status == 500
  {
    var a: Attempt<(Store<T>, Modified<T>)> := if !s.reachable then Threw(Unreachable) else Returned((s, Modified(true, None)));
    (StoreAfter(s, a), ModifiedOutcome(ModifyAttempt(a, "Unable to update a document in collection " + c.name)))
  }

  function WithoutId<T>(id: nat): Stored<T> -> bool {
    (r: Stored<T>) => r.id != id
  }

  /** Deleting an existing row answers it and keeps every other row. */
  lemma DeleteAnswer<T(!new)>(c: Collection, s: Store<T>, id: nat)
    requires Valid(s) && s.reachable
    requires exists i :: 0 <= i < |s.rows| && s.rows[i].id == id
    ensures var (after, r) := Delete(c, s, id);
      && after == s.(rows := Filter(s.rows, WithoutId(id)))
      && r.IsSuccess() && r.value in s.rows && r.value.id == id
  {
    var i :| 0 <= i < |s.rows| && s.rows[i].id == id;
    assert HasId<T>(id)(s.rows[i]);
  }

  /** Deleting an id no row carries answers 404 and changes nothing. */
  lemma DeleteMissing<T(!new)>(c: Collection, s: Store<T>, id: nat)
    requires s.reachable
    requires forall i :: 0 <= i < |s.rows| ==> s.rows[i].id != id
    ensures Delete(c, s, id) == (s, Failure(Plain(404, NotFoundMessage)))
  {
    assert forall i :: 0 <= i < |s.rows| ==> !HasId<T>(id)(s.rows[i]);
  }

  /**
   * Deleting an existing row answers it, leaves one row fewer, makes its id a
   * 404, and every other id finds what it found before.
   */
  lemma DeleteThenFind<T(!new)>(c: Collection, s: Store<T>, id: nat, other: nat)
    requires Valid(s) && s.reachable
    requires exists i :: 0 <= i < |s.rows| && s.rows[i].id == id
    requires other != id
    ensures var (after, r) := Delete(c, s, id);
      && r.IsSuccess() && r.value in s.rows && r.value.id == id
      && Valid(after) && after.reachable
      && |after.rows| == |s.rows| - 1
      && FindById(c, after, id) == Failure(Plain(404, NotFoundMessage))
      && FindById(c, after, other) == FindById(c, s, other)
  {
    DeleteAnswer(c, s, id);
    var after := s.(rows := Filter(s.rows, WithoutId(id)));
    DeleteKeepsValid(s, id);
    var i :| 0 <= i < |s.rows| && s.rows[i].id == id;
    RemovesOneRow(s, id, i);
    FindByIdAbsent(c, after, id);
    DeleteKeepsOthers(s, id, other);
    FindByIdAgrees(c, s, after, other);
  }

  lemma DeleteKeepsValid<T(!new)>(s: Store<T>, id: nat)
    requires Valid(s)
    ensures Valid(s.(rows := Filter(s.rows, WithoutId(id))))
  {
    var after := s.(rows := Filter(s.rows, WithoutId(id)));
    forall a, b | 0 <= a < b < |after.rows| ensures after.rows[a].id != after.rows[b].id {
      FilterKeepsDistinctIds(s, WithoutId(id), a, b);
    }
  }

  /** Rows with any other id survive the delete. */
  lemma DeleteKeepsOthers<T(!new)>(s: Store<T>, id: nat, other: nat)
    requires other != id
    ensures var rows := Filter(s.rows, WithoutId(id));
      forall k :: 0 <= k < |s.rows| && s.rows[k].id == other ==> s.rows[k] in rows
  {
    var rows := Filter(s.rows, WithoutId(id));
    forall k | 0 <= k < |s.rows| && s.rows[k].id == other ensures s.rows[k] in rows {
      assert WithoutId<T>(id)(s.rows[k]);
      assert s.rows[k] in multiset(s.rows);
      assert multiset(rows)[s.rows[k]] == multiset(s.rows)[s.rows[k]];
    }
  }

  lemma FilterKeepsDistinctIds<T(!new)>(s: Store<T>, keep: Stored<T> -> bool, a: nat, b: nat)
    requires Valid(s)
    requires a < b < |Filter(s.rows, keep)|
    ensures Filter(s.rows, keep)[a].id != Filter(s.rows, keep)[b].id
  {
    var f := Filter(s.rows, keep);
    var x := f[a];
    var y := f[b];
    if x.id == y.id {
      IdIdentifiesRow(s, x, y);
      CountTwo(f, a, b);
      TwoOccurrences(s.rows, x);
    }
  }

  /** A row of a valid store occurs in it once. */
  lemma RowOccursOnce<T>(s: Store<T>, i: nat)
    requires Valid(s) && i < |s.rows|
    ensures multiset(s.rows)[s.rows[i]] == 1
  {
    var row := s.rows[i];
    if multiset(s.rows)[row] >= 2 {
      TwoOccurrences(s.rows, row);
      assert false;
    }
  }

  /** Removing the rows with one id from a valid store removes exactly one row. */
  lemma RemovesOneRow<T(!new)>(s: Store<T>, id: nat, i: nat)
    requires Valid(s)
    requires i < |s.rows| && s.rows[i].id == id
    ensures |Filter(s.rows, WithoutId(id))| == |s.rows| - 1
  {
    var f := Filter(s.rows, WithoutId(id));
    var row := s.rows[i];
    RowOccursOnce(s, i);
    assert multiset(f) == multiset(s.rows) - multiset{row} by {
      forall x ensures multiset(f)[x] == (multiset(s.rows) - multiset{row})[x] {
        if x.id == id && x in s.rows {
          IdIdentifiesRow(s, x, row);
        }
      }
    }
    assert |multiset(f)| == |multiset(s.rows)| - 1;
  }

  // ---------------------------------------------------------------------------
  // Aggregating

  function AggregationFailed(c: Collection, e: Exception): (err: ServerError)
    ensures err.status == 500
    ensures err.message == "Unable to perform aggregation on collection \"" + c.name + "\"" && err.extra == Some(e.message)
  {
    ServerError(500, "Unable to perform aggregation on collection \"" + c.name + "\"", Some(e.message))
  }

  /** `aggregate(pipeline)`: the pipeline's rows, or a 500 when it throws. */
  function Aggregate<T, R>(c: Collection, s: Store<T>, pipeline: seq<Stored<T>> -> Attempt<seq<R>>): (r: Result<ServerError, seq<R>>)
    ensures !s.reachable ==> r == Failure(AggregationFailed(c, Unreachable))
    ensures s.reachable && pipeline(s.rows).Threw? ==> r == Failure(AggregationFailed(c, pipeline(s.rows).exception))
    ensures s.reachable && pipeline(s.rows).Returned? ==> r == Success(pipeline(s.rows).value)
  {
    TryCatch(if s.reachable then pipeline(s.rows) else Threw(Unreachable), (e: Exception) => AggregationFailed(c, e))
  }

  /** The search key of a stored row: the key of its document. */
  function DocKey<T>(key: T -> string): Stored<T> -> string {
    (r: Stored<T>) => key(r.doc)
  }

  /** `$limit` only accepts a positive count; otherwise the whole aggregation fails. */
  const NonPositiveLimit := Exception("the limit must be positive")

  /** The `find` pipeline as the database runs it, skip stage as written: one facet document. */
  function FindPipeline<T(!new)>(key: T -> string, query: CursorQuery): seq<Stored<T>> -> Attempt<seq<Cursor<Stored<T>>>> {
    rows => if Limit(query) <= 0 then Threw(NonPositiveLimit) else Returned([PaginateAsWritten(rows, DocKey(key), query)])
  }

  /** `find` keeps the first aggregation row; an empty answer is a 500. */
  function FirstFacet<T>(c: Collection, rows: seq<Cursor<T>>): (r: Result<ServerError, Cursor<T>>)
    ensures |rows| == 0 ==> r == Failure(ServerError(500, "Empty response for find in collection \"" + c.name + "\"", Some("query")))
    ensures |rows| > 0 ==> r == Success(rows[0])
  {
    if |rows| == 0 then Failure(ServerError(500, "Empty response for find in collection \"" + c.name + "\"", Some("query")))
    else Success(rows[0])
  }

  /**
   * `find(searchField)(query)`: the page the pagination pipeline computes over
   * the stored rows, keyed by the search field of each document. The skip
   * stage is the one the source builds, which ignores an empty-string cursor;
   * for every other request this is the corrected page.
   */
  function Find<T(!new)>(c: Collection, s: Store<T>, key: T -> string, query: CursorQuery): (r: Result<ServerError, Cursor<Stored<T>>>)
    ensures s.reachable && Limit(query) > 0 ==> r == Success(PaginateAsWritten(s.rows, DocKey(key), query))
    ensures s.reachable && Limit(query) > 0 && Boundary(query) != Some("") ==> r == Success(Paginate(s.rows, DocKey(key), query))
    ensures !s.reachable ==> r == Failure(AggregationFailed(c, Unreachable))
    ensures s.reachable && Limit(query) <= 0 ==> r == Failure(AggregationFailed(c, NonPositiveLimit))
  {
    Aggregate(c, s, FindPipeline(key, query)).FlatMap(rows => FirstFacet(c, rows))
  }

  /** An empty collection answers the empty page for any positive page size. */
  lemma FindOnEmptyStore<T(!new)>(c: Collection, key: T -> string, query: CursorQuery)
    requires Limit(query) > 0
    ensures Find(c, EmptyStore<T>(), key, query) == Success(EmptyCursor())
  {
    EmptyCollectionGivesEmptyCursor(DocKey(key), query);
  }
}
