/**
 * Looking a guest up by address hash, locally first and in Mailchimp's
 * database list second (server/src/entitites/guest/utils/fetchGuest.ts,
 * findGuest.ts, addToWaitlist.ts), and checking a guest in (checkInGuest.ts).
 */
module GuestLookup {
  import opened Options
  import opened Results
  import opened Errors
  import opened Collections
  import opened Mailchimp
  import opened Guests
  import opened GuestsCollection

  const SubscriberNotFound := "MailChimp subscriber not found"
  const SubscriberError := "Error in getting subscriber from MailChimp"
  const TagFailed := "Unable to set tag on source list for waiting guest"
  const GuestNotFound := "Guest not found"

  /** What the member lookup makes of Mailchimp's answer: a throw is a 404, a non-member answer a 500. */
  function RemoteMember(answer: Attempt<Option<Member>>): (r: Result<ServerError, Member>)
    ensures r.IsSuccess() <==> answer.Returned? && answer.value.Some?
    ensures r.IsSuccess() ==> r.value == answer.value.value
    ensures answer.Threw? ==> r == Failure(ServerError(404, SubscriberNotFound, Some(answer.exception.message)))
    ensures answer.Returned? && answer.value.None? ==> r == Failure(ServerError(500, SubscriberError, Some("response")))
  {
    TryCatch(answer, (e: Exception) => ServerError(404, SubscriberNotFound, Some(e.message)))
      .FlatMap((response: Option<Member>) =>
        if response.Some? then Success(response.value) else Failure(ServerError(500, SubscriberError, Some("response"))))
  }

  /**
   * `fetchGuest(emailHash, listId, toGuest)`: the local guest with that hash;
   * if there is none (and only then), the list member with that hash, mapped
   * and inserted. A local error other than 404 is answered as it is.
   */
  function FetchGuest(s: Store<Guest>, eventDay: bool, api: Api, emailHash: string, listId: string, toGuest: Member -> Guest)
    : (r: (Store<Guest>, Result<ServerError, Stored<Guest>>))
    ensures FindByHash(s, emailHash).IsSuccess() ==> r == (s, FindByHash(s, emailHash))
    ensures FindByHash(s, emailHash).IsFailure() && FindByHash(s, emailHash).error.status != 404 ==> r == (s, FindByHash(s, emailHash))
    ensures FindByHash(s, emailHash).IsFailure() && FindByHash(s, emailHash).error.status == 404 ==>
              var remote := RemoteMember(api.getListMember(listId, emailHash));
              r == if remote.IsFailure() then (s, Failure(remote.error)) else InsertGuest(s, toGuest(remote.value), eventDay)
  {
    match FindByHash(s, emailHash)
    case Success(guest) => (s, Success(guest))
    case Failure(error) =>
      if error.status != 404 then (s, Failure(error))
      else
        match RemoteMember(api.getListMember(listId, emailHash))
        case Failure(e) => (s, Failure(e))
        case Success(member) => InsertGuest(s, toGuest(member), eventDay)
  }

  /** A guest found locally is answered whatever Mailchimp would say: the remote lookup is not made. */
  lemma LocalHitIgnoresRemote(s: Store<Guest>, eventDay: bool, api: Api, other: Api, emailHash: string, listId: string, toGuest: Member -> Guest)
    requires FindByHash(s, emailHash).IsSuccess()
    ensures FetchGuest(s, eventDay, api, emailHash, listId, toGuest) == FetchGuest(s, eventDay, other, emailHash, listId, toGuest)
    ensures FetchGuest(s, eventDay, api, emailHash, listId, toGuest).0 == s
  {
  }

  /** A local error other than "not found" is answered unchanged, also without asking Mailchimp. */
  lemma LocalErrorIgnoresRemote(s: Store<Guest>, eventDay: bool, api: Api, other: Api, emailHash: string, listId: string, toGuest: Member -> Guest)
    requires FindByHash(s, emailHash).IsFailure() && FindByHash(s, emailHash).error.status != 404
    ensures FetchGuest(s, eventDay, api, emailHash, listId, toGuest) == FetchGuest(s, eventDay, other, emailHash, listId, toGuest)
    ensures FetchGuest(s, eventDay, api, emailHash, listId, toGuest).1 == FindByHash(s, emailHash)
  {
  }

  /**
   * Fetching is idempotent: once a guest was fetched from Mailchimp (under a
   * mapper that keeps the hash), fetching it again finds it locally and leaves
   * the store alone.
   */
  lemma FetchTwiceFindsLocally(s: Store<Guest>, eventDay: bool, api: Api, emailHash: string, listId: string, toGuest: Member -> Guest)
    requires Valid(s) && s.reachable && HashAbsent(s, emailHash)
    requires api.getListMember(listId, emailHash).Returned? && api.getListMember(listId, emailHash).value.Some?
    requires toGuest(api.getListMember(listId, emailHash).value.value).emailHash == emailHash
    ensures var (after, first) := FetchGuest(s, eventDay, api, emailHash, listId, toGuest);
            && first.IsSuccess()
            && first.value.doc == Dated(toGuest(api.getListMember(listId, emailHash).value.value), eventDay)
            && FetchGuest(after, eventDay, api, emailHash, listId, toGuest) == (after, first)
  {
    var m := api.getListMember(listId, emailHash).value.value;
    assert FindByHash(s, emailHash) == Failure(Plain(404, NotFoundMessage));
    InsertGuestAnswer(s, toGuest(m), eventDay);
    InsertGuestRoundTrip(s, toGuest(m), eventDay);
  }

  /** `findGuest(email)`: a lookup of the address's hash in the database list, mapping MMERGE7 to the company. */
  function FindGuest(env: Env, s: Store<Guest>, eventDay: bool, api: Api, email: string): (r: (Store<Guest>, Result<ServerError, Stored<Guest>>))
    ensures var local := FindByHash(s, HashEmail(env, email));
            && (local.IsSuccess() ==> r == (s, local))
            && (r.0 != s ==> local.IsFailure() && local.error.status == 404)
  {
    var emailHash := HashEmail(env, email);
    FetchGuest(s, eventDay, api, emailHash, env.databaseListId, (m: Member) => RsvpMemberToGuest(emailHash, m))
  }

  /** The address's letter case does not matter to `findGuest`. */
  lemma FindGuestIgnoresCase(env: Env, s: Store<Guest>, eventDay: bool, api: Api, a: string, b: string)
    requires Strings.Lower(a) == Strings.Lower(b)
    ensures FindGuest(env, s, eventDay, api, a) == FindGuest(env, s, eventDay, api, b)
  {
    HashIgnoresCase(env, a, b);
  }

  /** A guest not stored locally but on the list is stored as an RSVP with the MMERGE7 company. */
  lemma FindGuestFromList(env: Env, s: Store<Guest>, api: Api, email: string)
    requires Valid(s) && s.reachable && HashAbsent(s, HashEmail(env, email))
    requires api.getListMember(env.databaseListId, HashEmail(env, email)).Returned?
    requires api.getListMember(env.databaseListId, HashEmail(env, email)).value.Some?
    ensures var m := api.getListMember(env.databaseListId, HashEmail(env, email)).value.value;
            var r := FindGuest(env, s, false, api, email).1;
            && r.IsSuccess()
            && r.value.doc == RsvpMemberToGuest(HashEmail(env, email), m)
            && r.value.doc.status == Rsvp && r.value.doc.source == RsvpList
            && r.value.doc.accountManager.None?
  {
    var h := HashEmail(env, email);
    var m := api.getListMember(env.databaseListId, h).value.value;
    assert FindByHash(s, h) == Failure(Plain(404, NotFoundMessage));
    InsertGuestAnswer(s, RsvpMemberToGuest(h, m), false);
  }

  /** The mapper `addToWaitlist` passes: the database-list guest, waiting. */
  function WaitingGuest(emailHash: string): (f: Member -> Guest)
    ensures forall m :: f(m).status == Waiting && f(m).emailHash == emailHash
    ensures forall m :: f(m).companyName == OrNull(MergeField(m, "AZIENDA")) && f(m).accountManager == OrNull(MergeField(m, "REFERENTE"))
  {
    (m: Member) => DatabaseMemberToGuest(emailHash, m).(status := Waiting)
  }

  /** Setting the waiting-list tag on a waiting guest; a throw is a 500. */
  function TagWaiting(env: Env, api: Api, guest: Stored<Guest>): (r: Result<ServerError, Stored<Guest>>)
    ensures var answer := api.updateListMemberTags(env.databaseListId, guest.doc.emailHash, env.waitingListTag);
            && (answer.Returned? ==> r == Success(guest))
            && (answer.Threw? ==> r == Failure(ServerError(500, TagFailed, Some(answer.exception.message))))
  {
    TryCatch(api.updateListMemberTags(env.databaseListId, guest.doc.emailHash, env.waitingListTag),
             (e: Exception) => ServerError(500, TagFailed, Some(e.message)))
      .Map((_: ()) => guest)
  }

  /**
   * `addToWaitlist(email)`: fetches the guest, taking a list member in as
   * WAITING; the answered guest, if waiting, then gets the waiting-list tag.
   */
  function AddToWaitlist(env: Env, s: Store<Guest>, eventDay: bool, api: Api, email: string): (r: (Store<Guest>, Result<ServerError, Stored<Guest>>))
    ensures var (after, fetched) := FetchGuest(s, eventDay, api, HashEmail(env, email), env.databaseListId, WaitingGuest(HashEmail(env, email)));
            && r.0 == after
            && (fetched.IsFailure() ==> r.1 == fetched)
            && (fetched.IsSuccess() && fetched.value.doc.status != Waiting ==> r.1 == fetched)
            && (fetched.IsSuccess() && fetched.value.doc.status == Waiting ==> r.1 == TagWaiting(env, api, fetched.value))
  {
    var emailHash := HashEmail(env, email);
    var (after, fetched) := FetchGuest(s, eventDay, api, emailHash, env.databaseListId, WaitingGuest(emailHash));
    (after, fetched.FlatMap((guest: Stored<Guest>) => if guest.doc.status != Waiting then Success(guest) else TagWaiting(env, api, guest)))
  }

  /** The tag call is made only for a waiting guest: otherwise its answer cannot matter. */
  lemma NoTagUnlessWaiting(env: Env, s: Store<Guest>, eventDay: bool, api: Api, tags: (string, string, string) -> Attempt<()>, email: string)
    requires var fetched := FetchGuest(s, eventDay, api, HashEmail(env, email), env.databaseListId, WaitingGuest(HashEmail(env, email))).1;
             fetched.IsFailure() || fetched.value.doc.status != Waiting
    ensures AddToWaitlist(env, s, eventDay, api, email) == AddToWaitlist(env, s, eventDay, api.(updateListMemberTags := tags), email)
  {
  }

  /**
   * A guest known only to the list joins the waiting list: off the event day
   * it is stored WAITING and answered once the tag is set. On the event day the
   * insert checks it in instead, and no tag is set.
   */
  lemma RemoteGuestWaits(env: Env, s: Store<Guest>, eventDay: bool, api: Api, email: string)
    requires Valid(s) && s.reachable && HashAbsent(s, HashEmail(env, email))
    requires api.getListMember(env.databaseListId, HashEmail(env, email)).Returned?
    requires api.getListMember(env.databaseListId, HashEmail(env, email)).value.Some?
    ensures var m := api.getListMember(env.databaseListId, HashEmail(env, email)).value.value;
            var guest := Stored(s.nextId, Dated(WaitingGuest(HashEmail(env, email))(m), eventDay));
            var (after, r) := AddToWaitlist(env, s, eventDay, api, email);
            && after.rows == s.rows + [guest]
            && (eventDay ==> r == Success(guest) && guest.doc.status == CheckedIn)
            && (!eventDay ==> guest.doc.status == Waiting && r == TagWaiting(env, api, guest))
  {
    var h := HashEmail(env, email);
    var m := api.getListMember(env.databaseListId, h).value.value;
    assert FindByHash(s, h) == Failure(Plain(404, NotFoundMessage));
    InsertGuestAnswer(s, WaitingGuest(h)(m), eventDay);
  }

  /** A stored guest that is not waiting is answered unchanged, and the store stays as it was. */
  lemma LocalGuestUnchanged(env: Env, s: Store<Guest>, eventDay: bool, api: Api, email: string)
    requires FindByHash(s, HashEmail(env, email)).IsSuccess()
    requires FindByHash(s, HashEmail(env, email)).value.doc.status != Waiting
    ensures AddToWaitlist(env, s, eventDay, api, email) == (s, FindByHash(s, HashEmail(env, email)))
  {
  }

  /** The 404 of check-in is reworded, keeping its payload; any other error passes through. */
  function CheckInError(e: ServerError): (r: ServerError)
    ensures e.status == 404 ==> r == ServerError(404, GuestNotFound, e.extra)
    ensures e.status != 404 ==> r == e
  {
    if e.status == 404 then ServerError(404, GuestNotFound, e.extra) else e
  }

  /**
   * `checkInGuest(emailHash)`: the guest with that hash, updated to
   * CHECKED_IN through its own id, every other field kept.
   */
  function CheckIn(s: Store<Guest>, emailHash: string): (r: (Store<Guest>, Result<ServerError, Stored<Guest>>))
    ensures FindByHash(s, emailHash).IsFailure() ==> r == (s, Failure(CheckInError(FindByHash(s, emailHash).error)))
    ensures FindByHash(s, emailHash).IsSuccess() ==>
              var guest := FindByHash(s, emailHash).value;
              var (after, updated) := Update(Name, s, guest.id, guest.doc.(status := CheckedIn));
              r == (after, updated.MapError(CheckInError))
  {
    match FindByHash(s, emailHash)
    case Failure(e) => (s, Failure(CheckInError(e)))
    case Success(guest) =>
      var (after, updated) := Update(Name, s, guest.id, guest.doc.(status := CheckedIn));
      (after, updated.MapError(CheckInError))
  }

  /**
   * Checking in a stored guest answers it CHECKED_IN with every other field
   * as it was; a later lookup by hash finds the checked-in guest.
   */
  lemma CheckInStoredGuest(s: Store<Guest>, emailHash: string)
    requires Valid(s) && s.reachable
    requires FindByHash(s, emailHash).IsSuccess()
    ensures var guest := FindByHash(s, emailHash).value;
            var (after, r) := CheckIn(s, emailHash);
            && r == Success(Stored(guest.id, guest.doc.(status := CheckedIn)))
            && Valid(after)
            && FindById(Name, after, guest.id) == r
  {
    var guest := FindByHash(s, emailHash).value;
    var i :| 0 <= i < |s.rows| && s.rows[i] == guest;
    UpdateThenFind(Name, s, guest.id, guest.doc.(status := CheckedIn), guest.id + 1);
  }

  /** An unknown hash is "Guest not found", and nothing is updated. */
  lemma CheckInUnknownGuest(s: Store<Guest>, emailHash: string)
    requires s.reachable && HashAbsent(s, emailHash)
    ensures CheckIn(s, emailHash) == (s, Failure(Plain(404, GuestNotFound)))
  {
  }

  /**
   * `checkInGuest` as written passes `{ _id: guest._id }` where `update` takes
   * the id itself, so its filter matches no stored guest.
   */
  function CheckInAsWritten(s: Store<Guest>, emailHash: string): (r: (Store<Guest>, Result<ServerError, Stored<Guest>>))
    ensures FindByHash(s, emailHash).IsFailure() ==> r == CheckIn(s, emailHash)
  {
    match FindByHash(s, emailHash)
    case Failure(e) => (s, Failure(CheckInError(e)))
    case Success(guest) =>
      var (after, updated) := UpdateWithFilterObject(Name, s, guest.doc.(status := CheckedIn));
      (after, updated.MapError(CheckInError))
  }

  /** As written, checking in a stored guest answers "Guest not found" and checks nobody in. */
  lemma CheckInAsWrittenMissesStoredGuest(s: Store<Guest>, emailHash: string)
    requires s.reachable && FindByHash(s, emailHash).IsSuccess()
    ensures CheckInAsWritten(s, emailHash) == (s, Failure(Plain(404, GuestNotFound)))
    ensures CheckIn(s, emailHash).1.IsSuccess() || !Valid(s)
  {
    if Valid(s) {
      CheckInStoredGuest(s, emailHash);
    }
  }
}
