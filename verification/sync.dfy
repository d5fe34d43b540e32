/**
 * Synchronising the guests collection with the event list: reading every
 * member page by page (server/src/entitites/guest/utils/fetchMailchimpMembers.ts),
 * deleting the guests no longer on the list, and merging the list into the
 * collection (syncGuestsDatabase.ts).
 */
module Sync {
  import opened Options
  import opened Results
  import opened Errors
  import opened Sequences
  import opened Collections
  import opened Mailchimp
  import opened Guests
  import opened GuestsCollection

  // ---------------------------------------------------------------------------
  // Reading the whole list

  const PageSize: nat := 200
  const FetchFailed := "Unable to get memebers from MailChimp"

  /**
   * `getMailchimpMembers(accumulator)`: asks for the page at offset
   * `|accumulator|` and stops once the gathered members reach the list's
   * reported size. The source recurses without bound; `fuel` caps the number
   * of requests, and `None` means the cap was reached first.
   */
  function FetchMembers(api: Api, listId: string, acc: seq<Member>, fuel: nat): (r: Option<Result<ServerError, seq<Member>>>)
    ensures r.Some? && r.value.IsFailure() ==> r.value.error == Plain(500, FetchFailed)
    ensures r.Some? && r.value.IsSuccess() ==> |acc| <= |r.value.value|
    decreases fuel
  {
    if fuel == 0 then None
    else
      match TryCatch(api.getListMembersInfo(listId, PageSize, |acc|), (_: Exception) => Plain(500, FetchFailed))
      case Failure(e) => Some(Failure(e))
      case Success(page) =>
        var result := acc + page.members;
        if |result| >= page.totalItems then Some(Success(result))
        else FetchMembers(api, listId, result, fuel - 1)
  }

  /** `fetchMailchimpMembers(listId)`: the members of the list, starting from none. */
  function FetchAll(api: Api, listId: string, fuel: nat): (r: Option<Result<ServerError, seq<Member>>>)
    ensures r.Some? && r.value.IsFailure() ==> r.value.error == Plain(500, FetchFailed)
    ensures fuel == 0 ==> r.None?
  {
    FetchMembers(api, listId, [], fuel)
  }

  /** An answer reached within some number of requests stays the answer when more are allowed. */
  lemma {:induction false} MoreFuelSameAnswer(api: Api, listId: string, acc: seq<Member>, fuel: nat, more: nat)
    requires FetchMembers(api, listId, acc, fuel).Some?
    requires fuel <= more
    ensures FetchMembers(api, listId, acc, more) == FetchMembers(api, listId, acc, fuel)
    decreases fuel
  {
    var attempt := api.getListMembersInfo(listId, PageSize, |acc|);
    if attempt.Returned? && |acc + attempt.value.members| < attempt.value.totalItems {
      MoreFuelSameAnswer(api, listId, acc + attempt.value.members, fuel - 1, more - 1);
    }
  }

  /** The gathered members start with the accumulator: pages are only ever appended. */
  lemma {:induction false} FetchExtendsAccumulator(api: Api, listId: string, acc: seq<Member>, fuel: nat)
    requires FetchMembers(api, listId, acc, fuel).Some?
    requires FetchMembers(api, listId, acc, fuel).value.IsSuccess()
    ensures var members := FetchMembers(api, listId, acc, fuel).value.value;
            |acc| <= |members| && members[..|acc|] == acc
    decreases fuel
  {
    var page := api.getListMembersInfo(listId, PageSize, |acc|).value;
    var result := acc + page.members;
    if |result| < page.totalItems {
      FetchExtendsAccumulator(api, listId, result, fuel - 1);
      var members := FetchMembers(api, listId, result, fuel - 1).value.value;
      assert members[..|acc|] == members[..|result|][..|acc|];
    }
  }

  /** Mailchimp answering pages of a fixed list `all`, reporting its size. */
  ghost predicate ServesList(api: Api, listId: string, all: seq<Member>) {
    forall offset: nat | offset <= |all| ::
      api.getListMembersInfo(listId, PageSize, offset)
        == Returned(MembersPage(all[offset..if offset + PageSize < |all| then offset + PageSize else |all|], |all|))
  }

  /**
   * When Mailchimp serves a fixed list, paging from a prefix of it gathers
   * the whole list, given one request per page and one more.
   */
  lemma {:induction false} FetchesWholeList(api: Api, listId: string, all: seq<Member>, acc: seq<Member>, fuel: nat)
    requires ServesList(api, listId, all)
    requires |acc| <= |all| && acc == all[..|acc|]
    requires fuel >= (|all| - |acc|) / PageSize + 1
    ensures FetchMembers(api, listId, acc, fuel) == Some(Success(all))
    decreases fuel
  {
    var end := if |acc| + PageSize < |all| then |acc| + PageSize else |all|;
    assert api.getListMembersInfo(listId, PageSize, |acc|) == Returned(MembersPage(all[|acc|..end], |all|));
    var result := acc + all[|acc|..end];
    assert result == all[..end];
    if end < |all| {
      FetchesWholeList(api, listId, all, result, fuel - 1);
    } else {
      assert result == all;
    }
  }

  /**
   * A page that adds nobody while the reported size is larger asks for the
   * same page again: the reading never ends, however many requests are allowed.
   */
  lemma {:induction false} StalledPagingNeverEnds(api: Api, listId: string, acc: seq<Member>, total: int, fuel: nat)
    requires api.getListMembersInfo(listId, PageSize, |acc|) == Returned(MembersPage([], total))
    requires total > |acc|
    ensures FetchMembers(api, listId, acc, fuel).None?
    decreases fuel
  {
    if fuel > 0 {
      assert acc + [] == acc;
      StalledPagingNeverEnds(api, listId, acc, total, fuel - 1);
    }
  }

  /** A failing request ends the reading with the 500, whatever was gathered before. */
  lemma FailedPageFails(api: Api, listId: string, acc: seq<Member>, fuel: nat)
    requires fuel > 0 && api.getListMembersInfo(listId, PageSize, |acc|).Threw?
    ensures FetchMembers(api, listId, acc, fuel) == Some(Failure(Plain(500, FetchFailed)))
  {
  }

  // ---------------------------------------------------------------------------
  // Cleaning

  /** The answer of `deleteMany`. */
  datatype DeleteResult = DeleteResult(acknowledged: bool, deletedCount: nat)

  const CleanFailed := "Unable to clean guests database"
  const NotAcknowledged := "Clean operation was not aknowledged by database"

  /** The addresses of the members. */
  function Emails(members: seq<Member>): (r: set<string>)
    ensures forall i :: 0 <= i < |members| ==> members[i].emailAddress in r
    ensures forall e :: e in r ==> exists i :: 0 <= i < |members| && members[i].emailAddress == e
  {
    set i | 0 <= i < |members| :: members[i].emailAddress
  }

  /** The filter `{ email: { $in: emails } }`; `deleteMany` removes its complement. */
  function Listed(emails: set<string>): Stored<Guest> -> bool {
    (r: Stored<Guest>) => r.doc.email in emails
  }

  /** `deleteMany({ email: { $nin: emails } })` as the driver runs it; `acknowledged` is the write concern's answer. */
  function DriverDeleteUnlisted(s: Store<Guest>, emails: set<string>, acknowledged: bool): (r: Attempt<(Store<Guest>, DeleteResult)>)
    ensures r.Threw? <==> !s.reachable
  {
    if !s.reachable then Threw(Unreachable)
    else
      var kept := Filter(s.rows, Listed(emails));
      Returned((s.(rows := kept), DeleteResult(acknowledged, |s.rows| - |kept|)))
  }

  /** What the clean makes of the deletion: a throw or an unacknowledged deletion is a 500. */
  function CleanOutcome(deleted: Attempt<(Store<Guest>, DeleteResult)>): (r: Result<ServerError, nat>)
    ensures deleted.Threw? ==> r == Failure(ServerError(500, CleanFailed, Some(deleted.exception.message)))
    ensures deleted.Returned? && !deleted.value.1.acknowledged ==> r == Failure(Plain(500, NotAcknowledged))
    ensures deleted.Returned? && deleted.value.1.acknowledged ==> r == Success(deleted.value.1.deletedCount)
  {
    TryCatch(deleted, (e: Exception) => ServerError(500, CleanFailed, Some(e.message)))
      .FlatMap((p: (Store<Guest>, DeleteResult)) =>
        if !p.1.acknowledged then Failure(Plain(500, NotAcknowledged)) else Success(p.1.deletedCount))
  }

  /** The deletion step of `cleanGuestsDatabase`, once the members are known. */
  function DeleteUnlisted(s: Store<Guest>, members: seq<Member>, acknowledged: bool): (r: (Store<Guest>, Result<ServerError, nat>))
    ensures !s.reachable ==> r == (s, Failure(ServerError(500, CleanFailed, Some(Unreachable.message))))
    ensures s.reachable ==> r.0 == s.(rows := Filter(s.rows, Listed(Emails(members))))
    ensures s.reachable && !acknowledged ==> r.1 == Failure(Plain(500, NotAcknowledged))
  {
    var deleted := DriverDeleteUnlisted(s, Emails(members), acknowledged);
    (if deleted.Returned? then deleted.value.0 else s, CleanOutcome(deleted))
  }

  /**
   * `cleanGuestsDatabase()`: reads the event list, then deletes every guest
   * whose address is not a member's; answers how many were deleted.
   */
  function Clean(env: Env, s: Store<Guest>, api: Api, fuel: nat, acknowledged: bool): (r: Option<(Store<Guest>, Result<ServerError, nat>)>)
    ensures FetchAll(api, env.eventListId, fuel).None? <==> r.None?
    ensures FetchAll(api, env.eventListId, fuel).Some? && FetchAll(api, env.eventListId, fuel).value.IsFailure() ==>
              r == Some((s, Failure(FetchAll(api, env.eventListId, fuel).value.error)))
    ensures FetchAll(api, env.eventListId, fuel).Some? && FetchAll(api, env.eventListId, fuel).value.IsSuccess() ==>
              r == Some(DeleteUnlisted(s, FetchAll(api, env.eventListId, fuel).value.value, acknowledged))
  {
    match FetchAll(api, env.eventListId, fuel)
    case None => None
    case Some(Failure(e)) => Some((s, Failure(e)))
    case Some(Success(members)) => Some(DeleteUnlisted(s, members, acknowledged))
  }

  /**
   * Cleaning keeps exactly the guests whose address is a member's, in their
   * order, and answers the number of guests removed.
   */
  lemma CleanKeepsExactlyListed(s: Store<Guest>, members: seq<Member>)
    requires s.reachable
    ensures var (after, r) := DeleteUnlisted(s, members, true);
            && r == Success(|s.rows| - |after.rows|)
            && after.rows == Filter(s.rows, Listed(Emails(members)))
            && (forall row :: row in after.rows <==> row in s.rows && row.doc.email in Emails(members))
  {
    var kept := Filter(s.rows, Listed(Emails(members)));
    forall row ensures row in kept <==> row in s.rows && row.doc.email in Emails(members) {
      assert row in kept <==> row in multiset(kept);
      assert row in s.rows <==> row in multiset(s.rows);
    }
  }

  /** Cleaning keeps the store's ids unique. */
  lemma CleanKeepsValid(s: Store<Guest>, members: seq<Member>, acknowledged: bool)
    requires Valid(s)
    ensures Valid(DeleteUnlisted(s, members, acknowledged).0)
  {
    if s.reachable {
      var after := DeleteUnlisted(s, members, acknowledged).0;
      forall a, b | 0 <= a < b < |after.rows| ensures after.rows[a].id != after.rows[b].id {
        FilterKeepsDistinctIds(s, Listed(Emails(members)), a, b);
      }
      forall a | 0 <= a < |after.rows| ensures after.rows[a].id < after.nextId {
        var k :| 0 <= k < |s.rows| && s.rows[k] == after.rows[a];
      }
    }
  }

  /** Cleaning twice with the same members deletes nothing the second time. */
  lemma CleanIdempotent(s: Store<Guest>, members: seq<Member>)
    requires s.reachable
    ensures var once := DeleteUnlisted(s, members, true).0;
            DeleteUnlisted(once, members, true) == (once, Success(0))
  {
    var p := Listed(Emails(members));
    FilterFilter(s.rows, p, p);
  }

  // ---------------------------------------------------------------------------
  // Upserting

  /** The guests the synchronisation writes for the members, all stamped `now`. */
  function SyncGuests(env: Env, members: seq<Member>, now: int): (r: seq<Guest>)
    ensures |r| == |members|
    ensures forall i :: 0 <= i < |r| ==> r[i] == SyncMemberToGuest(env, members[i], now)
  {
    seq(|members|, i requires 0 <= i < |members| => SyncMemberToGuest(env, members[i], now))
  }

  /** The `whenMatched` stage: names, company and update time come from the list. */
  function MergeFields(stored: Guest, incoming: Guest): (g: Guest)
    ensures g.firstName == incoming.firstName && g.lastName == incoming.lastName
    ensures g.companyName == incoming.companyName && g.updatedAt == incoming.updatedAt
    ensures g == stored.(firstName := g.firstName, lastName := g.lastName, companyName := g.companyName, updatedAt := g.updatedAt)
  {
    stored.(firstName := incoming.firstName, lastName := incoming.lastName,
            companyName := incoming.companyName, updatedAt := incoming.updatedAt)
  }

  predicate HasHash(rows: seq<Stored<Guest>>, emailHash: string) {
    exists i :: 0 <= i < |rows| && rows[i].doc.emailHash == emailHash
  }

  /** `$merge` of one document on `emailHash`: a matching guest is updated, otherwise the document is inserted. */
  function MergeOne(s: Store<Guest>, incoming: Guest): (t: Store<Guest>)
    ensures t.reachable == s.reachable
    ensures |t.rows| == if HasHash(s.rows, incoming.emailHash) then |s.rows| else |s.rows| + 1
    ensures forall i :: 0 <= i < |s.rows| ==> t.rows[i].id == s.rows[i].id
  {
    if HasHash(s.rows, incoming.emailHash) then
      s.(rows := seq(|s.rows|, i requires 0 <= i < |s.rows| =>
        if s.rows[i].doc.emailHash == incoming.emailHash then Stored(s.rows[i].id, MergeFields(s.rows[i].doc, incoming))
        else s.rows[i]))
    else Store(s.rows + [Stored(s.nextId, incoming)], s.nextId + 1, s.reachable)
  }

  /** The temporary collection merged into the guests, document by document. */
  function MergeAll(s: Store<Guest>, docs: seq<Guest>): (t: Store<Guest>)
    ensures t.reachable == s.reachable
    ensures |s.rows| <= |t.rows| <= |s.rows| + |docs|
    ensures forall i :: 0 <= i < |s.rows| ==> t.rows[i].id == s.rows[i].id
    decreases |docs|
  {
    if |docs| == 0 then s else MergeAll(MergeOne(s, docs[0]), docs[1..])
  }

  /** What a merge never touches: the guest's address, status, origin and creation time. */
  predicate SameIdentity(a: Guest, b: Guest) {
    && a.email == b.email && a.emailHash == b.emailHash
    && a.status == b.status && a.source == b.source
    && a.accountManager == b.accountManager && a.referrerId == b.referrerId
    && a.createdAt == b.createdAt
  }

  /** Every row of `s` is still at its place in `t`, with the same id and identity. */
  predicate Preserves(s: Store<Guest>, t: Store<Guest>) {
    && |s.rows| <= |t.rows|
    && forall i :: 0 <= i < |s.rows| ==> t.rows[i].id == s.rows[i].id && SameIdentity(s.rows[i].doc, t.rows[i].doc)
  }

  /** Rows of `s` whose hash is not in `hashes` are left exactly as they were. */
  predicate UntouchedOutside(s: Store<Guest>, t: Store<Guest>, hashes: set<string>) {
    |s.rows| <= |t.rows| && forall i :: 0 <= i < |s.rows| && s.rows[i].doc.emailHash !in hashes ==> t.rows[i] == s.rows[i]
  }

  function Hashes(docs: seq<Guest>): set<string> {
    set i | 0 <= i < |docs| :: docs[i].emailHash
  }

  /**
   * One merge keeps ids unique, keeps every row's identity, and leaves the
   * incoming hash stored: a guest with that hash takes the incoming names,
   * company and update time, and without one the document is appended as it is.
   */
  lemma MergeOneFacts(s: Store<Guest>, incoming: Guest)
    requires Valid(s)
    ensures var t := MergeOne(s, incoming);
            && Valid(t) && t.reachable == s.reachable
            && Preserves(s, t) && HasHash(t.rows, incoming.emailHash)
            && UntouchedOutside(s, t, {incoming.emailHash})
    ensures var t := MergeOne(s, incoming);
            forall i :: 0 <= i < |s.rows| && s.rows[i].doc.emailHash == incoming.emailHash ==>
              t.rows[i] == Stored(s.rows[i].id, MergeFields(s.rows[i].doc, incoming))
    ensures !HasHash(s.rows, incoming.emailHash) ==> MergeOne(s, incoming).rows == s.rows + [Stored(s.nextId, incoming)]
  {
    var t := MergeOne(s, incoming);
    if HasHash(s.rows, incoming.emailHash) {
      var k :| 0 <= k < |s.rows| && s.rows[k].doc.emailHash == incoming.emailHash;
      assert t.rows[k].doc.emailHash == incoming.emailHash;
    } else {
      assert t.rows[|s.rows|].doc.emailHash == incoming.emailHash;
    }
  }

  lemma PreservesTransitive(a: Store<Guest>, b: Store<Guest>, c: Store<Guest>)
    requires Preserves(a, b) && Preserves(b, c)
    ensures Preserves(a, c)
  {
  }

  /**
   * Merging the list keeps ids unique, never removes a guest nor changes its
   * address, status, origin or creation time, leaves the guests no document
   * names untouched, and leaves every document's hash stored.
   */
  lemma {:induction false} MergeAllFacts(s: Store<Guest>, docs: seq<Guest>)
    requires Valid(s)
    ensures var t := MergeAll(s, docs);
            && Valid(t) && t.reachable == s.reachable
            && Preserves(s, t)
            && UntouchedOutside(s, t, Hashes(docs))
            && forall k :: 0 <= k < |docs| ==> HasHash(t.rows, docs[k].emailHash)
    decreases |docs|
  {
    if |docs| > 0 {
      var mid := MergeOne(s, docs[0]);
      var t := MergeAll(mid, docs[1..]);
      MergeOneFacts(s, docs[0]);
      MergeAllFacts(mid, docs[1..]);
      PreservesTransitive(s, mid, t);
      HashesCons(docs);
      UntouchedCompose(s, mid, t, {docs[0].emailHash}, Hashes(docs[1..]));
      forall k | 0 <= k < |docs| ensures HasHash(t.rows, docs[k].emailHash) {
        if k == 0 {
          HashKept(mid, t, docs[0].emailHash);
        } else {
          assert docs[k] == docs[1..][k - 1];
        }
      }
    }
  }

  /** No other document of `docs` carries the hash of document `k`. */
  predicate UniqueHashAt(docs: seq<Guest>, k: nat)
    requires k < |docs|
  {
    forall m :: 0 <= m < |docs| && m != k ==> docs[m].emailHash != docs[k].emailHash
  }

  /**
   * What merging the list writes for a document whose hash no other document
   * shares: a stored guest with that hash ends with the document's names,
   * company and update time; without one, the document itself was appended.
   */
  lemma {:induction false} MergeAllWrites(s: Store<Guest>, docs: seq<Guest>, k: nat)
    requires Valid(s) && k < |docs| && UniqueHashAt(docs, k)
    ensures var t := MergeAll(s, docs);
            && (forall i :: 0 <= i < |s.rows| && s.rows[i].doc.emailHash == docs[k].emailHash ==>
                  t.rows[i] == Stored(s.rows[i].id, MergeFields(s.rows[i].doc, docs[k])))
            && (!HasHash(s.rows, docs[k].emailHash) ==> exists j :: |s.rows| <= j < |t.rows| && t.rows[j].doc == docs[k])
    decreases |docs|
  {
    if k == 0 {
      MergeFirstWrites(s, docs);
    } else {
      var mid := MergeOne(s, docs[0]);
      MergeOneFacts(s, docs[0]);
      assert docs[k] == docs[1..][k - 1];
      assert UniqueHashAt(docs[1..], k - 1) by {
        forall m | 0 <= m < |docs[1..]| && m != k - 1 ensures docs[1..][m].emailHash != docs[k].emailHash {
          assert docs[1..][m] == docs[m + 1];
        }
      }
      MergeAllWrites(mid, docs[1..], k - 1);
      assert MergeAll(s, docs) == MergeAll(mid, docs[1..]);
      MergeLaterWrites(s, docs[0], MergeAll(mid, docs[1..]), docs[k]);
    }
  }

  /** `MergeAllWrites` for the first document: the later ones, with other hashes, leave its row alone. */
  lemma MergeFirstWrites(s: Store<Guest>, docs: seq<Guest>)
    requires Valid(s) && |docs| > 0 && UniqueHashAt(docs, 0)
    ensures var t := MergeAll(s, docs);
            && (forall i :: 0 <= i < |s.rows| && s.rows[i].doc.emailHash == docs[0].emailHash ==>
                  t.rows[i] == Stored(s.rows[i].id, MergeFields(s.rows[i].doc, docs[0])))
            && (!HasHash(s.rows, docs[0].emailHash) ==> exists j :: |s.rows| <= j < |t.rows| && t.rows[j].doc == docs[0])
  {
    var h := docs[0].emailHash;
    var mid := MergeOne(s, docs[0]);
    var t := MergeAll(mid, docs[1..]);
    assert MergeAll(s, docs) == t;
    MergeOneFacts(s, docs[0]);
    MergeAllFacts(mid, docs[1..]);
    assert h !in Hashes(docs[1..]) by {
      forall m | 0 <= m < |docs[1..]| ensures docs[1..][m].emailHash != h {
        assert docs[1..][m] == docs[m + 1];
      }
    }
    forall i | 0 <= i < |s.rows| && s.rows[i].doc.emailHash == h
      ensures t.rows[i] == Stored(s.rows[i].id, MergeFields(s.rows[i].doc, docs[0]))
    {
      assert mid.rows[i].doc.emailHash == h;
    }
    if !HasHash(s.rows, h) {
      assert mid.rows[|s.rows|] == Stored(s.nextId, docs[0]);
      assert t.rows[|s.rows|] == mid.rows[|s.rows|];
    }
  }

  /**
   * What the rest of the merge wrote for `doc` after `first` was merged
   * holds of the store before `first`, when the two hashes differ.
   */
  lemma MergeLaterWrites(s: Store<Guest>, first: Guest, t: Store<Guest>, doc: Guest)
    requires Valid(s) && first.emailHash != doc.emailHash
    requires var mid := MergeOne(s, first);
             && |mid.rows| <= |t.rows|
             && (forall i :: 0 <= i < |mid.rows| && mid.rows[i].doc.emailHash == doc.emailHash ==>
                   t.rows[i] == Stored(mid.rows[i].id, MergeFields(mid.rows[i].doc, doc)))
             && (!HasHash(mid.rows, doc.emailHash) ==> exists j :: |mid.rows| <= j < |t.rows| && t.rows[j].doc == doc)
    ensures forall i :: 0 <= i < |s.rows| && s.rows[i].doc.emailHash == doc.emailHash ==>
              t.rows[i] == Stored(s.rows[i].id, MergeFields(s.rows[i].doc, doc))
    ensures !HasHash(s.rows, doc.emailHash) ==> exists j :: |s.rows| <= j < |t.rows| && t.rows[j].doc == doc
  {
    var h := doc.emailHash;
    var mid := MergeOne(s, first);
    MergeOneFacts(s, first);
    forall i | 0 <= i < |s.rows| && s.rows[i].doc.emailHash == h
      ensures t.rows[i] == Stored(s.rows[i].id, MergeFields(s.rows[i].doc, doc))
    {
      assert mid.rows[i] == s.rows[i];
    }
    if !HasHash(s.rows, h) {
      forall i | 0 <= i < |mid.rows| ensures mid.rows[i].doc.emailHash != h {
        if i < |s.rows| {
          assert SameIdentity(s.rows[i].doc, mid.rows[i].doc);
        } else {
          assert mid.rows == s.rows + [Stored(s.nextId, first)];
        }
      }
      assert !HasHash(mid.rows, h);
    }
  }

  lemma HashesCons(docs: seq<Guest>)
    requires |docs| > 0
    ensures Hashes(docs) == {docs[0].emailHash} + Hashes(docs[1..])
  {
    assert forall k :: 0 < k < |docs| ==> docs[k] == docs[1..][k - 1];
  }

  lemma UntouchedCompose(a: Store<Guest>, b: Store<Guest>, c: Store<Guest>, h1: set<string>, h2: set<string>)
    requires UntouchedOutside(a, b, h1) && UntouchedOutside(b, c, h2)
    ensures UntouchedOutside(a, c, h1 + h2)
  {
  }

  /** A store that keeps every row's identity keeps every hash it stored. */
  lemma HashKept(s: Store<Guest>, t: Store<Guest>, h: string)
    requires Preserves(s, t) && HasHash(s.rows, h)
    ensures HasHash(t.rows, h)
  {
    var j :| 0 <= j < |s.rows| && s.rows[j].doc.emailHash == h;
    assert t.rows[j].doc.emailHash == h;
  }

  /** The steps of the upsert, in the order the database sees them. */
  datatype UpsertStep = CheckIndex | CreateIndex | FillTemporary | MergeTemporary | DropTemporary

  /**
   * What the database answers to the steps that do not touch the guests:
   * whether the unique hash index exists, creating it, filling the temporary
   * collection, and dropping it.
   */
  datatype UpsertDriver = UpsertDriver(indexExists: Attempt<bool>, createIndex: Attempt<()>, fillTemporary: Attempt<()>, drop: Attempt<()>)

  /** The guests afterwards, the steps taken, and the answer; a throwing drop rejects the whole call. */
  datatype UpsertRun = UpsertRun(store: Store<Guest>, steps: seq<UpsertStep>, outcome: Attempt<Result<ServerError, ()>>)

  const IndexCheckFailed := "Unable to verify index on guests collection"
  const TemporaryFailed := "Unable to create temporary collection for upserting"
  const MergeFailed := "Unable to perform upsert aggregation"

  /** The index check and, when the index is missing, its creation. */
  function EnsureIndex(d: UpsertDriver): (r: Result<ServerError, ()>)
    ensures d.indexExists.Threw? ==> r == Failure(ServerError(500, IndexCheckFailed, Some(d.indexExists.exception.message)))
    ensures d.indexExists == Returned(true) ==> r == Success(())
    ensures d.indexExists == Returned(false) ==> r == CreateIndexes(d.createIndex)
  {
    TryCatch(d.indexExists, (e: Exception) => ServerError(500, IndexCheckFailed, Some(e.message)))
      .FlatMap((has: bool) => if !has then CreateIndexes(d.createIndex) else Success(()))
  }

  /**
   * The body of `upsertGuestsDatabase` once the members are known. Each step
   * runs only if the previous one succeeded; the temporary collection is
   * dropped in every case.
   */
  function UpsertMembers(env: Env, s: Store<Guest>, members: seq<Member>, now: int, d: UpsertDriver): (r: UpsertRun)
    ensures r.outcome.Threw? <==> d.drop.Threw?
    ensures r.outcome == Returned(Success(())) ==> r.store == MergeAll(s, SyncGuests(env, members, now))
    ensures r.store == s || r.store == MergeAll(s, SyncGuests(env, members, now))
  {
    var docs := SyncGuests(env, members, now);
    var indexed := EnsureIndex(d);
    var filled := indexed.FlatMap((_: ()) =>
      TryCatch(if |docs| == 0 then Threw(EmptyBatch) else d.fillTemporary, (e: Exception) => ServerError(500, TemporaryFailed, Some(e.message))));
    var merged := filled.FlatMap((_: ()) =>
      TryCatch(if s.reachable then Returned(()) else Threw(Unreachable), (e: Exception) => ServerError(500, MergeFailed, Some(e.message))));
    var steps := [CheckIndex]
      + (if d.indexExists == Returned(false) then [CreateIndex] else [])
      + (if indexed.IsSuccess() then [FillTemporary] else [])
      + (if filled.IsSuccess() then [MergeTemporary] else [])
      + [DropTemporary];
    UpsertRun(if merged.IsSuccess() then MergeAll(s, docs) else s, steps,
              if d.drop.Threw? then Threw(d.drop.exception) else Returned(merged))
  }

  /** `upsertGuestsDatabase()`: reads the event list, then merges it into the guests. */
  function Upsert(env: Env, s: Store<Guest>, api: Api, fuel: nat, now: int, d: UpsertDriver): (r: Option<UpsertRun>)
    ensures FetchAll(api, env.eventListId, fuel).None? <==> r.None?
    ensures FetchAll(api, env.eventListId, fuel).Some? && FetchAll(api, env.eventListId, fuel).value.IsFailure() ==>
              r == Some(UpsertRun(s, [], Returned(Failure(FetchAll(api, env.eventListId, fuel).value.error))))
    ensures FetchAll(api, env.eventListId, fuel).Some? && FetchAll(api, env.eventListId, fuel).value.IsSuccess() ==>
              r == Some(UpsertMembers(env, s, FetchAll(api, env.eventListId, fuel).value.value, now, d))
  {
    match FetchAll(api, env.eventListId, fuel)
    case None => None
    case Some(Failure(e)) => Some(UpsertRun(s, [], Returned(Failure(e))))
    case Some(Success(members)) => Some(UpsertMembers(env, s, members, now, d))
  }

  /**
   * The index is checked first and the temporary collection dropped last,
   * whatever failed; the index is created exactly when it was reported
   * missing, and the guests change only when the merge ran.
   */
  lemma UpsertStepOrder(env: Env, s: Store<Guest>, members: seq<Member>, now: int, d: UpsertDriver)
    ensures var r := UpsertMembers(env, s, members, now, d);
            && |r.steps| >= 2 && r.steps[0] == CheckIndex && r.steps[|r.steps| - 1] == DropTemporary
            && (CreateIndex in r.steps <==> d.indexExists == Returned(false))
            && (MergeTemporary in r.steps <==>
                  EnsureIndex(d).IsSuccess() && |members| > 0 && d.fillTemporary.Returned?)
            && r.store == (if MergeTemporary in r.steps && s.reachable then MergeAll(s, SyncGuests(env, members, now)) else s)
  {
  }

  /**
   * The upsert answers success exactly when every step succeeded: the index
   * was there or got created, the batch was not empty, the temporary
   * collection was filled, the guests were reachable and the drop returned.
   */
  lemma UpsertSucceedsIff(env: Env, s: Store<Guest>, members: seq<Member>, now: int, d: UpsertDriver)
    ensures UpsertMembers(env, s, members, now, d).outcome == Returned(Success(()))
            <==> && (d.indexExists == Returned(true) || (d.indexExists == Returned(false) && d.createIndex.Returned?))
                 && |members| > 0 && d.fillTemporary.Returned? && s.reachable && d.drop.Returned?
  {
    var docs := SyncGuests(env, members, now);
    var indexed := EnsureIndex(d);
    assert indexed.IsSuccess()
           <==> d.indexExists == Returned(true) || (d.indexExists == Returned(false) && d.createIndex.Returned?) by {
      match d.indexExists
      case Threw(_) =>
      case Returned(has) => if !has { assert indexed == CreateIndexes(d.createIndex); }
    }
    var filled := indexed.FlatMap((_: ()) =>
      TryCatch(if |docs| == 0 then Threw(EmptyBatch) else d.fillTemporary, (e: Exception) => ServerError(500, TemporaryFailed, Some(e.message))));
    assert filled.IsSuccess() <==> indexed.IsSuccess() && |members| > 0 && d.fillTemporary.Returned?;
  }

  /** No other member's address has the hash of member `k`'s. */
  predicate UniqueMember(env: Env, members: seq<Member>, k: nat)
    requires k < |members|
  {
    forall m :: 0 <= m < |members| && m != k ==> HashEmail(env, members[m].emailAddress) != HashEmail(env, members[k].emailAddress)
  }

  /**
   * What `$merge` wrote into `t` for the members whose address hash no other
   * member shares: a guest of `s` with that hash carries the member's names,
   * company and update time, and a new address is a row holding the member's
   * SYNC document.
   */
  ghost predicate MergesMembers(env: Env, s: Store<Guest>, t: Store<Guest>, members: seq<Member>, now: int)
    requires |s.rows| <= |t.rows|
  {
    && (forall k, i ::
          (0 <= k < |members| && UniqueMember(env, members, k) && 0 <= i < |s.rows|
           && s.rows[i].doc.emailHash == HashEmail(env, members[k].emailAddress))
          ==> t.rows[i] == Stored(s.rows[i].id, MergeFields(s.rows[i].doc, SyncMemberToGuest(env, members[k], now))))
    && (forall k ::
          (0 <= k < |members| && UniqueMember(env, members, k) && !HasHash(s.rows, HashEmail(env, members[k].emailAddress)))
          ==> exists j :: |s.rows| <= j < |t.rows| && t.rows[j].doc == SyncMemberToGuest(env, members[k], now))
  }

  /** Merging the members' SYNC documents writes what `MergesMembers` describes. */
  lemma MergeMembers(env: Env, s: Store<Guest>, members: seq<Member>, now: int)
    requires Valid(s)
    ensures MergesMembers(env, s, MergeAll(s, SyncGuests(env, members, now)), members, now)
  {
    var docs := SyncGuests(env, members, now);
    var t := MergeAll(s, docs);
    forall k | 0 <= k < |members| && UniqueMember(env, members, k)
      ensures forall i :: 0 <= i < |s.rows| && s.rows[i].doc.emailHash == HashEmail(env, members[k].emailAddress) ==>
                t.rows[i] == Stored(s.rows[i].id, MergeFields(s.rows[i].doc, SyncMemberToGuest(env, members[k], now)))
      ensures !HasHash(s.rows, HashEmail(env, members[k].emailAddress)) ==>
                exists j :: |s.rows| <= j < |t.rows| && t.rows[j].doc == SyncMemberToGuest(env, members[k], now)
    {
      assert docs[k] == SyncMemberToGuest(env, members[k], now);
      assert UniqueHashAt(docs, k) by {
        forall m | 0 <= m < |docs| && m != k ensures docs[m].emailHash != docs[k].emailHash {
          assert docs[m].emailHash == HashEmail(env, members[m].emailAddress);
        }
      }
      MergeAllWrites(s, docs, k);
    }
  }

  /**
   * After a successful upsert every member of the list is a stored guest, no
   * guest was removed, and no guest's address, status, origin or creation
   * time changed: a checked-in guest stays checked in. For a member whose
   * address hash no other member shares, a stored guest with that hash now
   * carries the member's names and company, and a new address was stored as
   * the member's SYNC document.
   */
  lemma UpsertKeepsGuests(env: Env, s: Store<Guest>, members: seq<Member>, now: int, d: UpsertDriver)
    requires Valid(s)
    requires UpsertMembers(env, s, members, now, d).outcome == Returned(Success(()))
    ensures var t := UpsertMembers(env, s, members, now, d).store;
            && Valid(t) && Preserves(s, t)
            && (forall k :: 0 <= k < |members| ==> HasHash(t.rows, HashEmail(env, members[k].emailAddress)))
            && (forall i :: 0 <= i < |s.rows| && s.rows[i].doc.status == CheckedIn ==> t.rows[i].doc.status == CheckedIn)
            && MergesMembers(env, s, t, members, now)
  {
    var docs := SyncGuests(env, members, now);
    MergeAllFacts(s, docs);
    MergeMembers(env, s, members, now);
    forall k | 0 <= k < |members| ensures HasHash(MergeAll(s, docs).rows, HashEmail(env, members[k].emailAddress)) {
      assert docs[k].emailHash == HashEmail(env, members[k].emailAddress);
    }
  }

  /** A failure before the merge leaves the guests as they were. */
  lemma FailedUpsertChangesNothing(env: Env, s: Store<Guest>, members: seq<Member>, now: int, d: UpsertDriver)
    requires EnsureIndex(d).IsFailure() || |members| == 0 || d.fillTemporary.Threw? || !s.reachable
    ensures UpsertMembers(env, s, members, now, d).store == s
  {
  }
}
