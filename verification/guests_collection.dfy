/**
 * The guests collection of server/src/entitites/guest/guestsCollection.ts: the
 * generic collection named "guests", whose insert forces every guest's status
 * to CHECKED_IN on the day of the event. Whether today is the event day is an
 * input (the source compares the configured event date with the clock).
 */
module GuestsCollection {
  import opened Options
  import opened Results
  import opened Errors
  import opened Collections
  import opened Guests

  const Name := Collection("guests")

  const UniqueEmailIndexName := "uniqueEmail"
  const UniqueEmailHashIndexName := "uniqueEmailHash"

  /** The filter `{ emailHash }`. */
  function ByHash(emailHash: string): Stored<Guest> -> bool {
    (r: Stored<Guest>) => r.doc.emailHash == emailHash
  }

  /** `guestsCollection.findOne({ emailHash })`. */
  function FindByHash(s: Store<Guest>, emailHash: string): (r: Result<ServerError, Stored<Guest>>)
    ensures s.reachable ==> (r.IsSuccess() <==> exists i :: 0 <= i < |s.rows| && s.rows[i].doc.emailHash == emailHash)
    ensures s.reachable && r.IsFailure() ==> r.error == Plain(404, NotFoundMessage)
    ensures !s.reachable ==> r.IsFailure() && r.error.status == 500
    ensures r.IsSuccess() ==> r.value in s.rows && r.value.doc.emailHash == emailHash
  {
    FindOne(Name, s, ByHash(emailHash))
  }

  /** No stored guest carries the hash. */
  predicate HashAbsent(s: Store<Guest>, emailHash: string) {
    forall i :: 0 <= i < |s.rows| ==> s.rows[i].doc.emailHash != emailHash
  }

  /** The stored form of a guest inserted on a given day. */
  function Dated(doc: Guest, eventDay: bool): (g: Guest)
    ensures eventDay ==> g.status == CheckedIn
    ensures !eventDay ==> g == doc
    ensures g == doc.(status := g.status)
  {
    doc.(status := if eventDay then CheckedIn else doc.status)
  }

  /** The status override of `insert`: on the event day every guest is checked in. */
  function ForceStatus(docs: seq<Guest>, eventDay: bool): (r: seq<Guest>)
    ensures |r| == |docs|
    ensures forall i :: 0 <= i < |r| ==> r[i] == Dated(docs[i], eventDay)
  {
    seq(|docs|, i requires 0 <= i < |docs| => Dated(docs[i], eventDay))
  }

  /** Off the event day the override is the identity; on it, applying it twice is applying it once. */
  lemma ForceStatusIdempotent(docs: seq<Guest>, eventDay: bool)
    ensures !eventDay ==> ForceStatus(docs, eventDay) == docs
    ensures ForceStatus(ForceStatus(docs, eventDay), eventDay) == ForceStatus(docs, eventDay)
  {
  }

  /** `insert(docs)` with an array: the base collection's answer, after the status override. */
  function InsertGuests(s: Store<Guest>, docs: seq<Guest>, eventDay: bool): (r: (Store<Guest>, Result<ServerError, seq<Stored<Guest>>>))
    ensures !s.reachable || |docs| == 0 ==> r.0 == s && r.1.IsFailure() && r.1.error.status == 500
    ensures s.reachable && |docs| > 0 ==>
              r.0 == Store(s.rows + NewRows(s.nextId, ForceStatus(docs, eventDay)), s.nextId + |docs|, true)
  {
    InsertAll(Name, s, ForceStatus(docs, eventDay))
  }

  /** The single-document form keeps the first inserted guest; none at all is a 500. */
  function FirstGuest(result: Result<ServerError, seq<Stored<Guest>>>): (r: Result<ServerError, Stored<Guest>>)
    ensures result.IsFailure() ==> r == Failure(result.error)
    ensures result.IsSuccess() && |result.value| == 0 ==> r == Failure(ServerError(500, "Unable to insert guest", Some("result")))
    ensures result.IsSuccess() && |result.value| > 0 ==> r == Success(result.value[0])
  {
    result.Map((docs: seq<Stored<Guest>>) => if |docs| > 0 then Some(docs[0]) else None)
      .FlatMap((doc: Option<Stored<Guest>>) =>
        if doc.None? then Failure(ServerError(500, "Unable to insert guest", Some("result"))) else Success(doc.value))
  }

  /** `insert(doc)` with one guest. */
  function InsertGuest(s: Store<Guest>, doc: Guest, eventDay: bool): (r: (Store<Guest>, Result<ServerError, Stored<Guest>>))
    ensures !s.reachable ==> r.0 == s && r.1.IsFailure() && r.1.error.status == 500
    ensures s.reachable ==> r.0 == Store(s.rows + [Stored(s.nextId, Dated(doc, eventDay))], s.nextId + 1, true)
  {
    assert ForceStatus([doc], eventDay) == [Dated(doc, eventDay)];
    assert NewRows(s.nextId, [Dated(doc, eventDay)]) == [Stored(s.nextId, Dated(doc, eventDay))];
    var (after, result) := InsertGuests(s, [doc], eventDay);
    (after, FirstGuest(result))
  }

  /** Inserting one guest into a reachable valid store appends it with the next id, forced to CHECKED_IN on the event day. */
  lemma InsertGuestAnswer(s: Store<Guest>, doc: Guest, eventDay: bool)
    requires Valid(s) && s.reachable
    ensures InsertGuest(s, doc, eventDay)
            == (Store(s.rows + [Stored(s.nextId, Dated(doc, eventDay))], s.nextId + 1, true),
                Success(Stored(s.nextId, Dated(doc, eventDay))))
    ensures Valid(InsertGuest(s, doc, eventDay).0)
  {
    var forced := ForceStatus([doc], eventDay);
    var row := Stored(s.nextId, Dated(doc, eventDay));
    assert forced == [Dated(doc, eventDay)];
    assert NewRows(s.nextId, forced) == [row];
    InsertAllAnswer(Name, s, forced);
    assert InsertGuests(s, [doc], eventDay) == (Store(s.rows + [row], s.nextId + 1, true), Success([row]));
    AppendKeepsValid(s, forced);
  }

  /** A guest whose hash was new is what looking the hash up finds after the insert. */
  lemma InsertGuestRoundTrip(s: Store<Guest>, doc: Guest, eventDay: bool)
    requires Valid(s) && s.reachable && HashAbsent(s, doc.emailHash)
    ensures var (after, r) := InsertGuest(s, doc, eventDay);
            r.IsSuccess() && FindByHash(after, doc.emailHash) == r
  {
    InsertGuestAnswer(s, doc, eventDay);
    var row := Stored(s.nextId, Dated(doc, eventDay));
    var rows := s.rows + [row];
    assert rows[|s.rows|] == row;
    assert ByHash(doc.emailHash)(rows[|s.rows|]);
    forall i | 0 <= i < |s.rows| ensures !ByHash(doc.emailHash)(rows[i]) {
      assert rows[i] == s.rows[i];
    }
    assert FirstMatch(rows, ByHash(doc.emailHash)) == Some(row);
    assert FindByHash(Store(rows, s.nextId + 1, true), doc.emailHash) == Success(row);
  }

  /** Inserting an array answers the stored guests, in order, each with the override applied. */
  lemma InsertGuestsRoundTrip(s: Store<Guest>, docs: seq<Guest>, eventDay: bool)
    requires Valid(s) && s.reachable && |docs| > 0
    ensures var (after, r) := InsertGuests(s, docs, eventDay);
            && r.IsSuccess() && |r.value| == |docs|
            && after.rows == s.rows + r.value && Valid(after)
            && (forall i :: 0 <= i < |docs| ==> r.value[i].doc == Dated(docs[i], eventDay))
  {
    var forced := ForceStatus(docs, eventDay);
    InsertAllRoundTrip(Name, s, forced);
    var r := InsertAll(Name, s, forced).1;
    forall i | 0 <= i < |docs| ensures r.value[i].doc == Dated(docs[i], eventDay) {
      assert r.value[i].doc == forced[i];
    }
  }

  /** `createGuestsCollectionIndexes`: a failure to create the unique indexes is a 500. */
  function CreateIndexes(created: Attempt<()>): (r: Result<ServerError, ()>)
    ensures r.IsSuccess() <==> created.Returned?
    ensures r.IsFailure() ==> r.error == Plain(500, "Unable to create index on guests collection")
  {
    TryCatch(created, (_: Exception) => Plain(500, "Unable to create index on guests collection")).Map((_: ()) => ())
  }
}
