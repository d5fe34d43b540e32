/**
 * Adding guests: subscribing one to the event list
 * (server/src/entitites/guest/utils/subscribeGuest.ts), creating one by hand or
 * by referral (createGuest.ts), and uploading a batch (uploadGuests.ts).
 */
module GuestCreation {
  import opened Options
  import opened Results
  import opened Errors
  import opened Collections
  import opened Mailchimp
  import opened Guests
  import opened GuestsCollection

  // ---------------------------------------------------------------------------
  // Subscribing

  /** The guest fields a subscription reads. */
  datatype Subscriber = Subscriber(firstName: string, lastName: string, email: string, emailHash: string, companyName: Option<string>)

  const AddFailed := "Unable to add guest to the destination list"
  const AddRejected := "Error in adding guest to destination list"

  /** The answer to `addListMember`: a throw or a non-member answer is a 500. */
  function AddOutcome(sub: Subscriber, answer: Attempt<Option<Member>>): (r: Result<ServerError, Subscriber>)
    ensures r.IsSuccess() <==> answer.Returned? && answer.value.Some?
    ensures r.IsSuccess() ==> r.value == sub
    ensures answer.Threw? ==> r == Failure(ServerError(500, AddFailed, Some(answer.exception.message)))
    ensures answer.Returned? && answer.value.None? ==> r == Failure(ServerError(500, AddRejected, Some("response")))
  {
    TryCatch(answer, (e: Exception) => ServerError(500, AddFailed, Some(e.message)))
      .FlatMap((response: Option<Member>) =>
        if response.Some? then Success(sub) else Failure(ServerError(500, AddRejected, Some("response"))))
  }

  /**
   * `subscribeGuest(guest)`: a guest already a member of the event list is
   * answered as it is; any other lookup outcome, a throw included, leads to
   * adding it as a subscribed member.
   */
  function Subscribe(env: Env, api: Api, sub: Subscriber): (r: Result<ServerError, Subscriber>)
    ensures r.IsSuccess() ==> r.value == sub
    ensures var found := api.getListMember(env.eventListId, sub.emailHash);
            && (found.Returned? && found.value.Some? ==> r == Success(sub))
            && (!(found.Returned? && found.value.Some?) ==>
                  r == AddOutcome(sub, api.addListMember(env.eventListId, GuestToListMember(sub.firstName, sub.lastName, sub.email, sub.companyName))))
  {
    var found := api.getListMember(env.eventListId, sub.emailHash);
    if found.Returned? && found.value.Some? then Success(sub)
    else AddOutcome(sub, api.addListMember(env.eventListId, GuestToListMember(sub.firstName, sub.lastName, sub.email, sub.companyName)))
  }

  /** A member already on the list is never added again: what adding would answer cannot matter. */
  lemma MemberIsNotAddedAgain(env: Env, api: Api, add: (string, ListMember) -> Attempt<Option<Member>>, sub: Subscriber)
    requires api.getListMember(env.eventListId, sub.emailHash).Returned?
    requires api.getListMember(env.eventListId, sub.emailHash).value.Some?
    ensures Subscribe(env, api, sub) == Subscribe(env, api.(addListMember := add), sub) == Success(sub)
  {
  }

  /** When the member is not on the list, the subscription succeeds exactly when the addition answers a member. */
  lemma SubscribeAddsMissingMember(env: Env, api: Api, sub: Subscriber)
    requires !(api.getListMember(env.eventListId, sub.emailHash).Returned? && api.getListMember(env.eventListId, sub.emailHash).value.Some?)
    ensures var added := api.addListMember(env.eventListId, GuestToListMember(sub.firstName, sub.lastName, sub.email, sub.companyName));
            Subscribe(env, api, sub).IsSuccess() <==> added.Returned? && added.value.Some?
  {
  }

  // ---------------------------------------------------------------------------
  // Creating one guest

  /** The request body of guest creation. */
  datatype CreationInput = CreationInput(firstName: string, lastName: string, email: string, companyName: Option<string>, accountManager: Option<string>)

  /** `{ ...guest, ...body }`: every field the body carries replaces the stored one. */
  function Overridden(guest: Guest, body: CreationInput): (g: Guest)
    ensures g.firstName == body.firstName && g.lastName == body.lastName && g.email == body.email
    ensures g.companyName == body.companyName && g.accountManager == body.accountManager
    ensures g.emailHash == guest.emailHash && g.source == guest.source && g.status == guest.status
    ensures g.referrerId == guest.referrerId && g.createdAt == guest.createdAt && g.updatedAt == guest.updatedAt
  {
    guest.(firstName := body.firstName, lastName := body.lastName, email := body.email,
           companyName := body.companyName, accountManager := body.accountManager)
  }

  /** A new guest from the body: an empty company becomes null, the status is RSVP. */
  function NewGuest(body: CreationInput, emailHash: string, source: Source, referrerId: Option<nat>): (g: Guest)
    ensures g.email == body.email && g.emailHash == emailHash
    ensures g.firstName == body.firstName && g.lastName == body.lastName
    ensures g.companyName == OrNull(body.companyName) && g.accountManager == body.accountManager
    ensures g.source == source && g.status == Rsvp && g.referrerId == referrerId
    ensures g.createdAt.None? && g.updatedAt.None?
  {
    Guest(body.email, emailHash, body.firstName, body.lastName, OrNull(body.companyName), body.accountManager,
          source, Rsvp, referrerId, None, None)
  }

  /** The subscription `createGuest` asks for: the body's fields and the address's hash. */
  function BodySubscriber(env: Env, body: CreationInput): (sub: Subscriber)
    ensures sub.emailHash == HashEmail(env, body.email) && sub.companyName == OrNull(body.companyName)
    ensures sub.firstName == body.firstName && sub.lastName == body.lastName && sub.email == body.email
  {
    Subscriber(body.firstName, body.lastName, body.email, HashEmail(env, body.email), OrNull(body.companyName))
  }

  /**
   * Saving a changed stored guest. The source hands `update` the filter
   * `{ emailHash }` where the guest's id belongs (`asWritten`); the corrected
   * form passes the id of the guest it found.
   */
  function SaveExisting(s: Store<Guest>, local: Stored<Guest>, doc: Guest, asWritten: bool): (r: (Store<Guest>, Result<ServerError, Stored<Guest>>))
    ensures asWritten ==> r.0 == s && r.1.IsFailure()
    ensures !s.reachable ==> r.0 == s && r.1.IsFailure() && r.1.error.status == 500
    ensures r.1.IsSuccess() ==> r.1.value == Stored(local.id, doc)
  {
    if asWritten then UpdateWithFilterObject(Name, s, doc) else Update(Name, s, local.id, doc)
  }

  /**
   * The steps after a successful subscription: with a truthy referrer address
   * the referrer must be stored, and the guest is saved with source REFERRER
   * and the referrer's id; otherwise a stored guest takes the body's fields
   * and a new one is inserted with source MANUAL.
   */
  function SaveGuest(env: Env, s: Store<Guest>, eventDay: bool, body: CreationInput, referrerEmail: Option<string>,
                     local: Result<ServerError, Stored<Guest>>, asWritten: bool): (r: (Store<Guest>, Result<ServerError, Stored<Guest>>))
    ensures !s.reachable ==> r.0 == s && r.1.IsFailure()
    ensures Truthy(referrerEmail) ==>
              var referrer := FindByHash(s, HashEmail(env, referrerEmail.value));
              referrer.IsFailure() ==> r == (s, Failure(referrer.error))
    ensures local.IsSuccess() && r.1.IsSuccess() ==>
              && r.1.value.id == local.value.id && r.1.value.doc.emailHash == local.value.doc.emailHash
              && r.1.value.doc.firstName == body.firstName && r.1.value.doc.lastName == body.lastName
              && r.1.value.doc.email == body.email
    ensures Truthy(referrerEmail) && local.IsSuccess() && r.1.IsSuccess() ==>
              var referrer := FindByHash(s, HashEmail(env, referrerEmail.value));
              r.1.value.doc.source == Referrer && r.1.value.doc.referrerId == Some(referrer.value.id)
  {
    var emailHash := HashEmail(env, body.email);
    if Truthy(referrerEmail) then
      match FindByHash(s, HashEmail(env, referrerEmail.value))
      case Failure(e) => (s, Failure(e))
      case Success(referrer) =>
        if local.IsSuccess() then
          SaveExisting(s, local.value, Overridden(local.value.doc, body).(source := Referrer, referrerId := Some(referrer.id)), asWritten)
        else
          InsertGuest(s, NewGuest(body, emailHash, Referrer, Some(referrer.id)), eventDay)
    else if local.IsSuccess() then
      SaveExisting(s, local.value, Overridden(local.value.doc, body), asWritten)
    else
      InsertGuest(s, NewGuest(body, emailHash, Manual, None), eventDay)
  }

  /**
   * `createGuest(body, referrerEmail)`, with the update fixed to use the
   * stored guest's id. A guest not found locally, for whatever reason, is
   * first subscribed to the event list, and a failed subscription is the answer.
   */
  function CreateGuest(env: Env, s: Store<Guest>, eventDay: bool, api: Api, body: CreationInput, referrerEmail: Option<string>)
    : (r: (Store<Guest>, Result<ServerError, Stored<Guest>>))
    ensures var local := FindByHash(s, HashEmail(env, body.email));
            var subscribed := Subscribe(env, api, BodySubscriber(env, body));
            && (local.IsFailure() && subscribed.IsFailure() ==> r == (s, Failure(subscribed.error)))
            && (local.IsSuccess() || subscribed.IsSuccess() ==> r == SaveGuest(env, s, eventDay, body, referrerEmail, local, false))
  {
    Create(env, s, eventDay, api, body, referrerEmail, false)
  }

  /** `createGuest` as written: a stored guest is saved through the filter object. */
  function CreateGuestAsWritten(env: Env, s: Store<Guest>, eventDay: bool, api: Api, body: CreationInput, referrerEmail: Option<string>)
    : (r: (Store<Guest>, Result<ServerError, Stored<Guest>>))
    ensures FindByHash(s, HashEmail(env, body.email)).IsFailure() ==>
              r == CreateGuest(env, s, eventDay, api, body, referrerEmail)
  {
    Create(env, s, eventDay, api, body, referrerEmail, true)
  }

  function Create(env: Env, s: Store<Guest>, eventDay: bool, api: Api, body: CreationInput, referrerEmail: Option<string>, asWritten: bool)
    : (r: (Store<Guest>, Result<ServerError, Stored<Guest>>))
    ensures !s.reachable ==> r.0 == s && r.1.IsFailure()
    ensures var local := FindByHash(s, HashEmail(env, body.email));
            local.IsSuccess() ==> r == SaveGuest(env, s, eventDay, body, referrerEmail, local, asWritten)
    ensures var subscribed := Subscribe(env, api, BodySubscriber(env, body));
            FindByHash(s, HashEmail(env, body.email)).IsFailure() && subscribed.IsFailure() ==> r == (s, Failure(subscribed.error))
  {
    var local := FindByHash(s, HashEmail(env, body.email));
    var subscribed := if local.IsSuccess() then Success(BodySubscriber(env, body)) else Subscribe(env, api, BodySubscriber(env, body));
    if subscribed.IsFailure() then (s, Failure(subscribed.error))
    else SaveGuest(env, s, eventDay, body, referrerEmail, local, asWritten)
  }

  /**
   * A new address without a referrer, once subscribed, is stored as a MANUAL
   * RSVP guest with the body's fields, which a later lookup by hash finds.
   */
  lemma CreateNewManualGuest(env: Env, s: Store<Guest>, eventDay: bool, api: Api, body: CreationInput, referrerEmail: Option<string>)
    requires Valid(s) && s.reachable && HashAbsent(s, HashEmail(env, body.email))
    requires !Truthy(referrerEmail)
    requires Subscribe(env, api, BodySubscriber(env, body)).IsSuccess()
    ensures var (after, r) := CreateGuest(env, s, eventDay, api, body, referrerEmail);
            && r == Success(Stored(s.nextId, Dated(NewGuest(body, HashEmail(env, body.email), Manual, None), eventDay)))
            && after.rows == s.rows + [r.value]
            && FindByHash(after, HashEmail(env, body.email)) == r
  {
    var g := NewGuest(body, HashEmail(env, body.email), Manual, None);
    assert FindByHash(s, HashEmail(env, body.email)).IsFailure();
    InsertGuestAnswer(s, g, eventDay);
    InsertGuestRoundTrip(s, g, eventDay);
  }

  /** A new address whose subscription fails is not stored, and the subscription's error is the answer. */
  lemma FailedSubscriptionStoresNothing(env: Env, s: Store<Guest>, eventDay: bool, api: Api, body: CreationInput, referrerEmail: Option<string>)
    requires FindByHash(s, HashEmail(env, body.email)).IsFailure()
    requires Subscribe(env, api, BodySubscriber(env, body)).IsFailure()
    ensures CreateGuest(env, s, eventDay, api, body, referrerEmail)
            == (s, Failure(Subscribe(env, api, BodySubscriber(env, body)).error))
  {
  }

  /**
   * A stored address is not subscribed again, whatever Mailchimp would
   * answer; without a referrer it takes the body's fields and keeps its id,
   * hash, source and status.
   */
  lemma CreateExistingGuest(env: Env, s: Store<Guest>, eventDay: bool, api: Api, other: Api, body: CreationInput, referrerEmail: Option<string>)
    requires Valid(s) && s.reachable
    requires FindByHash(s, HashEmail(env, body.email)).IsSuccess()
    requires !Truthy(referrerEmail)
    ensures CreateGuest(env, s, eventDay, api, body, referrerEmail) == CreateGuest(env, s, eventDay, other, body, referrerEmail)
    ensures var local := FindByHash(s, HashEmail(env, body.email)).value;
            var (after, r) := CreateGuest(env, s, eventDay, api, body, referrerEmail);
            && r == Success(Stored(local.id, Overridden(local.doc, body)))
            && Valid(after) && FindById(Name, after, local.id) == r
  {
    var local := FindByHash(s, HashEmail(env, body.email)).value;
    var i :| 0 <= i < |s.rows| && s.rows[i] == local;
    UpdateThenFind(Name, s, local.id, Overridden(local.doc, body), local.id + 1);
  }

  /** A stored guest who is referred takes the body's fields, source REFERRER and the referrer's id, keeping its own id. */
  lemma ReferExistingGuest(env: Env, s: Store<Guest>, eventDay: bool, api: Api, body: CreationInput, referrerEmail: Option<string>)
    requires Valid(s) && s.reachable && Truthy(referrerEmail)
    requires FindByHash(s, HashEmail(env, body.email)).IsSuccess()
    requires FindByHash(s, HashEmail(env, referrerEmail.value)).IsSuccess()
    ensures var local := FindByHash(s, HashEmail(env, body.email)).value;
            var referrer := FindByHash(s, HashEmail(env, referrerEmail.value)).value;
            var (after, r) := CreateGuest(env, s, eventDay, api, body, referrerEmail);
            && r == Success(Stored(local.id, Overridden(local.doc, body).(source := Referrer, referrerId := Some(referrer.id))))
            && Valid(after) && FindById(Name, after, local.id) == r
  {
    var local := FindByHash(s, HashEmail(env, body.email)).value;
    var referrer := FindByHash(s, HashEmail(env, referrerEmail.value)).value;
    var i :| 0 <= i < |s.rows| && s.rows[i] == local;
    UpdateThenFind(Name, s, local.id, Overridden(local.doc, body).(source := Referrer, referrerId := Some(referrer.id)), local.id + 1);
  }

  /** As written, creating a guest whose address is already stored answers "Document not found" and changes nothing. */
  lemma CreateExistingGuestAsWritten(env: Env, s: Store<Guest>, eventDay: bool, api: Api, body: CreationInput, referrerEmail: Option<string>)
    requires s.reachable
    requires FindByHash(s, HashEmail(env, body.email)).IsSuccess()
    requires !Truthy(referrerEmail)
    ensures CreateGuestAsWritten(env, s, eventDay, api, body, referrerEmail) == (s, Failure(Plain(404, NotFoundMessage)))
  {
  }

  /** A truthy referrer address that is not stored stops the creation with 404, after the subscription. */
  lemma UnknownReferrer(env: Env, s: Store<Guest>, eventDay: bool, api: Api, body: CreationInput, referrerEmail: Option<string>)
    requires s.reachable && Truthy(referrerEmail)
    requires HashAbsent(s, HashEmail(env, referrerEmail.value))
    requires FindByHash(s, HashEmail(env, body.email)).IsSuccess() || Subscribe(env, api, BodySubscriber(env, body)).IsSuccess()
    ensures CreateGuest(env, s, eventDay, api, body, referrerEmail) == (s, Failure(Plain(404, NotFoundMessage)))
  {
  }

  /** A referred new guest is inserted with source REFERRER and the referrer's id. */
  lemma CreateReferredGuest(env: Env, s: Store<Guest>, eventDay: bool, api: Api, body: CreationInput, referrerEmail: Option<string>)
    requires Valid(s) && s.reachable && Truthy(referrerEmail)
    requires HashAbsent(s, HashEmail(env, body.email))
    requires FindByHash(s, HashEmail(env, referrerEmail.value)).IsSuccess()
    requires Subscribe(env, api, BodySubscriber(env, body)).IsSuccess()
    ensures var referrer := FindByHash(s, HashEmail(env, referrerEmail.value)).value;
            var (after, r) := CreateGuest(env, s, eventDay, api, body, referrerEmail);
            && r.IsSuccess()
            && r.value.doc == Dated(NewGuest(body, HashEmail(env, body.email), Referrer, Some(referrer.id)), eventDay)
            && r.value.doc.referrerId == Some(referrer.id) && referrer in s.rows
            && after.rows == s.rows + [r.value]
  {
    var referrer := FindByHash(s, HashEmail(env, referrerEmail.value)).value;
    assert FindByHash(s, HashEmail(env, body.email)).IsFailure();
    InsertGuestAnswer(s, NewGuest(body, HashEmail(env, body.email), Referrer, Some(referrer.id)), eventDay);
  }

  // ---------------------------------------------------------------------------
  // Uploading

  /** One row of an uploaded file. */
  datatype UploadRow = UploadRow(firstName: string, lastName: string, email: string, companyName: Option<string>)

  /** What Mailchimp's batch answered, and how many rows were read. */
  datatype UploadResult = UploadResult(processedCount: nat, uploadedCount: int, createdCount: int, updatedCount: int,
                                       errorsCount: int, errors: seq<BatchError>)

  const InvalidFormat := "Invalid data format"
  const BatchFailed := "Unable to get current guests from MailChimp API"

  /** The list member a row is subscribed as: an empty company becomes null. */
  function RowMember(row: UploadRow): (lm: ListMember)
    ensures lm.emailAddress == row.email && lm.status == "subscribed"
    ensures lm.fname == row.firstName && lm.lname == row.lastName && lm.mmerge3 == OrNull(row.companyName)
  {
    GuestToListMember(row.firstName, row.lastName, row.email, OrNull(row.companyName))
  }

  /** The guest a row is stored as: source UPLOAD, status RSVP, no account manager. */
  function RowGuest(env: Env, row: UploadRow): (g: Guest)
    ensures g.email == row.email && g.emailHash == HashEmail(env, row.email)
    ensures g.firstName == row.firstName && g.lastName == row.lastName
    ensures g.companyName == OrNull(row.companyName) && g.accountManager.None?
    ensures g.source == Upload && g.status == Rsvp && g.referrerId.None?
  {
    Guest(row.email, HashEmail(env, row.email), row.firstName, row.lastName, OrNull(row.companyName), None, Upload, Rsvp, None, None, None)
  }

  function RowMembers(rows: seq<UploadRow>): (r: seq<ListMember>)
    ensures |r| == |rows| && forall i :: 0 <= i < |rows| ==> r[i] == RowMember(rows[i])
  {
    seq(|rows|, i requires 0 <= i < |rows| => RowMember(rows[i]))
  }

  function RowGuests(env: Env, rows: seq<UploadRow>): (r: seq<Guest>)
    ensures |r| == |rows| && forall i :: 0 <= i < |rows| ==> r[i] == RowGuest(env, rows[i])
  {
    seq(|rows|, i requires 0 <= i < |rows| => RowGuest(env, rows[i]))
  }

  /** The counts reported for a batch answer. */
  function Report(rowCount: nat, response: BatchResponse): (u: UploadResult)
    ensures u.processedCount == rowCount
    ensures u.uploadedCount == u.createdCount + u.updatedCount
    ensures u.createdCount == response.totalCreated && u.updatedCount == response.totalUpdated
    ensures u.errorsCount == response.errorCount && u.errors == response.errors
  {
    UploadResult(rowCount, response.totalCreated + response.totalUpdated, response.totalCreated,
                 response.totalUpdated, response.errorCount, response.errors)
  }

  /**
   * `uploadGuests(file)`: a body that does not parse (`None`) is a 400; the
   * rows are batch-subscribed to the event list, then inserted locally, and
   * the batch's counts are answered.
   */
  function UploadGuests(env: Env, s: Store<Guest>, eventDay: bool, api: Api, file: Option<seq<UploadRow>>)
    : (r: (Store<Guest>, Result<ServerError, UploadResult>))
    ensures file.None? ==> r == (s, Failure(ServerError(400, InvalidFormat, Some("error"))))
    ensures file.Some? && api.batchListMembers(env.eventListId, RowMembers(file.value)).Threw? ==>
              r == (s, Failure(ServerError(500, BatchFailed, Some(api.batchListMembers(env.eventListId, RowMembers(file.value)).exception.message))))
    ensures file.Some? && api.batchListMembers(env.eventListId, RowMembers(file.value)).Returned? ==>
              var (after, inserted) := InsertGuests(s, RowGuests(env, file.value), eventDay);
              r == (after, inserted.Map((_: seq<Stored<Guest>>) => Report(|file.value|, api.batchListMembers(env.eventListId, RowMembers(file.value)).value)))
  {
    match file
    case None => (s, Failure(ServerError(400, InvalidFormat, Some("error"))))
    case Some(rows) =>
      match TryCatch(api.batchListMembers(env.eventListId, RowMembers(rows)), (e: Exception) => ServerError(500, BatchFailed, Some(e.message)))
      case Failure(e) => (s, Failure(e))
      case Success(response) =>
        var (after, inserted) := InsertGuests(s, RowGuests(env, rows), eventDay);
        (after, inserted.Map((_: seq<Stored<Guest>>) => Report(|rows|, response)))
  }

  /**
   * Uploading rows to a reachable store appends one guest per row, in order,
   * and answers the batch's counts.
   */
  lemma UploadStoresEveryRow(env: Env, s: Store<Guest>, eventDay: bool, api: Api, rows: seq<UploadRow>)
    requires Valid(s) && s.reachable && |rows| > 0
    requires api.batchListMembers(env.eventListId, RowMembers(rows)).Returned?
    ensures var (after, r) := UploadGuests(env, s, eventDay, api, Some(rows));
            && r == Success(Report(|rows|, api.batchListMembers(env.eventListId, RowMembers(rows)).value))
            && |after.rows| == |s.rows| + |rows| && after.rows[..|s.rows|] == s.rows && Valid(after)
            && forall i :: 0 <= i < |rows| ==> after.rows[|s.rows| + i].doc == Dated(RowGuest(env, rows[i]), eventDay)
  {
    var docs := RowGuests(env, rows);
    var response := api.batchListMembers(env.eventListId, RowMembers(rows)).value;
    InsertGuestsRoundTrip(s, docs, eventDay);
    var ins := InsertGuests(s, docs, eventDay);
    var upload := UploadGuests(env, s, eventDay, api, Some(rows));
    assert upload.0 == ins.0;
    assert upload.1 == Success(Report(|rows|, response));
    assert ins.0.rows[..|s.rows|] == s.rows;
    forall i | 0 <= i < |rows| ensures ins.0.rows[|s.rows| + i].doc == Dated(RowGuest(env, rows[i]), eventDay) {
      assert ins.0.rows[|s.rows| + i] == ins.1.value[i];
      assert docs[i] == RowGuest(env, rows[i]);
    }
  }

  /** An empty file is subscribed as an empty batch but then fails to insert, storing nothing. */
  lemma EmptyUploadFails(env: Env, s: Store<Guest>, eventDay: bool, api: Api)
    requires api.batchListMembers(env.eventListId, []).Returned?
    ensures var (after, r) := UploadGuests(env, s, eventDay, api, Some([]));
            after == s && r.IsFailure() && r.error.status == 500
  {
    assert RowMembers([]) == [];
    assert ForceStatus(RowGuests(env, []), eventDay) == [];
    InsertAllFails(Name, s, []);
  }
}
