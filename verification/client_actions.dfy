/**
 * The guest store's actions in the browser client (src/stores/guest/actions.ts):
 * the three status toggles behind the check-in screen, the ticket check, the
 * tagging guard and the one-time initialisation.
 *
 * Each HTTP call is a parameter of the action: a function from the request to
 * an `Attempt`, which is `Threw` when axios rejects. The server URL and logging
 * do not affect any result and are left out.
 */
module ClientActions {
  import opened Options
  import opened Results
  import opened Guests

  /** The part of a listed guest the actions read and write. */
  datatype GuestNode = GuestNode(emailHash: string, status: Status)

  datatype State = State(initialized: bool, guests: seq<GuestNode>)

  /** `PUT api/guests/:emailHash` with a new status; it returns nothing or throws. */
  type StatusPut = (string, Status) -> Attempt<()>

  // ---------------------------------------------------------------------------
  // Status toggles

  /** The status a toggle between `home` and `away` moves to: `away` from `home`, `home` from anything else. */
  function Toggle(status: Status, home: Status, away: Status): (r: Status)
    requires home != away
    ensures r == home || r == away
    ensures r == away <==> status == home
  {
    if status == home then away else home
  }

  /**
   * Sends the toggled status for the guest and, only when the request
   * resolves, writes the same status into the local copy.
   */
  function Send(item: GuestNode, target: Status, put: StatusPut): (r: GuestNode)
    ensures r.emailHash == item.emailHash
    ensures put(item.emailHash, target).Returned? ==> r.status == target
    ensures put(item.emailHash, target).Threw? ==> r == item
  {
    match put(item.emailHash, target)
    case Returned(_) => item.(status := target)
    case Threw(_) => item
  }

  /** `changeCheckin`: RSVP becomes CHECKED_IN, anything else RSVP. */
  function ChangeCheckin(item: GuestNode, put: StatusPut): (r: GuestNode)
    ensures r.emailHash == item.emailHash
    ensures r.status == item.status || put(item.emailHash, r.status).Returned?
  {
    Send(item, Toggle(item.status, Rsvp, CheckedIn), put)
  }

  /** `changeWaitingList`: WAITING becomes RSVP, anything else WAITING. */
  function ChangeWaitingList(item: GuestNode, put: StatusPut): (r: GuestNode)
    ensures r.emailHash == item.emailHash
    ensures r.status == item.status || put(item.emailHash, r.status).Returned?
  {
    Send(item, Toggle(item.status, Waiting, Rsvp), put)
  }

  /** `removeGuest`: REMOVED becomes RSVP, anything else REMOVED. */
  function RemoveGuest(item: GuestNode, put: StatusPut): (r: GuestNode)
    ensures r.emailHash == item.emailHash
    ensures r.status == item.status || put(item.emailHash, r.status).Returned?
  {
    Send(item, Toggle(item.status, Removed, Rsvp), put)
  }

  /** The targets of the three toggles, status by status. */
  lemma ToggleTargets(item: GuestNode, put: StatusPut)
    requires forall h, st :: put(h, st).Returned?
    ensures ChangeCheckin(item, put).status == (if item.status == Rsvp then CheckedIn else Rsvp)
    ensures ChangeWaitingList(item, put).status == (if item.status == Waiting then Rsvp else Waiting)
    ensures RemoveGuest(item, put).status == (if item.status == Removed then Rsvp else Removed)
  {
  }

  /** A rejected request leaves the local copy as it was. */
  lemma FailedToggleKeepsStatus(item: GuestNode, put: StatusPut)
    requires forall st :: put(item.emailHash, st).Threw?
    ensures ChangeCheckin(item, put) == item
    ensures ChangeWaitingList(item, put) == item
    ensures RemoveGuest(item, put) == item
  {
    assert put(item.emailHash, Toggle(item.status, Rsvp, CheckedIn)).Threw?;
    assert put(item.emailHash, Toggle(item.status, Waiting, Rsvp)).Threw?;
    assert put(item.emailHash, Toggle(item.status, Removed, Rsvp)).Threw?;
  }

  /**
   * Toggling twice is the identity on the toggle's two states and lands on
   * `away` from any other state.
   */
  lemma ToggleTwice(status: Status, home: Status, away: Status)
    requires home != away
    ensures Toggle(Toggle(status, home, away), home, away)
            == (if status == home || status == away then status else away)
  {
  }

  /** With requests that resolve, two check-in toggles restore RSVP and CHECKED_IN and turn any other status into CHECKED_IN. */
  lemma ChangeCheckinTwice(item: GuestNode, put: StatusPut)
    requires forall h, st :: put(h, st).Returned?
    ensures ChangeCheckin(ChangeCheckin(item, put), put).status
            == (if item.status == Rsvp || item.status == CheckedIn then item.status else CheckedIn)
  {
    ToggleTwice(item.status, Rsvp, CheckedIn);
  }

  /** With requests that resolve, two waiting-list toggles restore WAITING and RSVP and turn any other status into RSVP. */
  lemma ChangeWaitingListTwice(item: GuestNode, put: StatusPut)
    requires forall h, st :: put(h, st).Returned?
    ensures ChangeWaitingList(ChangeWaitingList(item, put), put).status
            == (if item.status == Waiting || item.status == Rsvp then item.status else Rsvp)
  {
    ToggleTwice(item.status, Waiting, Rsvp);
  }

  /** With requests that resolve, two removal toggles restore REMOVED and RSVP and turn any other status into RSVP. */
  lemma RemoveGuestTwice(item: GuestNode, put: StatusPut)
    requires forall h, st :: put(h, st).Returned?
    ensures RemoveGuest(RemoveGuest(item, put), put).status
            == (if item.status == Removed || item.status == Rsvp then item.status else Rsvp)
  {
    ToggleTwice(item.status, Removed, Rsvp);
  }

  // ---------------------------------------------------------------------------
  // Ticket availability

  /**
   * `isTicketAvailable`: the RSVP count comes from `GET api/guests/count-rsvp`
   * and is compared with the `VUE_APP_MAX_GUESTS` setting, a string that
   * JavaScript converts to a number. `max` is None when that conversion gives
   * NaN (an unset or non-numeric setting), and every comparison with NaN is
   * false; an empty or blank setting converts to 0, so `max` is Some(0). A
   * fractional setting m stands as its ceiling: an integer count is below m
   * exactly when it is below the ceiling of m. A rejected request answers false.
   */
  function IsTicketAvailable(count: Attempt<Option<int>>, max: Option<int>): (r: bool)
    ensures r <==> count.Returned? && count.value.Some? && max.Some? && count.value.value < max.value
  {
    match count
    case Threw(_) => false
    case Returned(c) => c.Some? && max.Some? && c.value < max.value
  }

  /** Fewer RSVPs never take a ticket away, and a full event has none. */
  lemma TicketAvailabilityMonotone(c1: int, c2: int, max: int)
    requires c1 <= c2
    ensures IsTicketAvailable(Returned(Some(c2)), Some(max)) ==> IsTicketAvailable(Returned(Some(c1)), Some(max))
    ensures c2 >= max ==> !IsTicketAvailable(Returned(Some(c2)), Some(max))
  {
  }

  // ---------------------------------------------------------------------------
  // Tagging

  datatype Tagging = Skipped | Sent

  /**
   * `addTag(email, tag)`: an undefined or empty email returns before any
   * request; otherwise `PUT api/guests/tag/` with the email and tag, whose
   * rejection is rethrown as a new error with the text `describe` gives the
   * original (the template-literal conversion of the caught value).
   */
  function AddTag(email: Option<string>, tag: string, put: (string, string) -> Attempt<()>,
                  describe: Exception -> string): (r: Attempt<Tagging>)
    ensures r == Returned(Skipped) <==> !Truthy(email)
    ensures r.Threw? ==> email.Some? && put(email.value, tag).Threw?
                         && r.exception == Exception(describe(put(email.value, tag).exception))
    ensures r == Returned(Sent) <==> Truthy(email) && put(email.value, tag).Returned?
  {
    if !Truthy(email) then Returned(Skipped)
    else match put(email.value, tag)
      case Returned(_) => Returned(Sent)
      case Threw(e) => Threw(Exception(describe(e)))
  }

  /** Without an email the request function is never consulted. */
  lemma NoEmailNoRequest(email: Option<string>, tag: string, put1: (string, string) -> Attempt<()>,
                         put2: (string, string) -> Attempt<()>, describe: Exception -> string)
    requires !Truthy(email)
    ensures AddTag(email, tag, put1, describe) == AddTag(email, tag, put2, describe) == Returned(Skipped)
  {
  }

  // ---------------------------------------------------------------------------
  // Initialisation and loading

  /** `initData`: marks the store initialised and reports the flag; it changes nothing else. */
  function InitData(s: State): (r: (State, bool))
    ensures r.0.initialized && r.1
    ensures r.0.guests == s.guests
  {
    if s.initialized then (s, s.initialized) else (s.(initialized := true), true)
  }

  /** Initialising again is a no-op. */
  lemma InitDataIdempotent(s: State)
    ensures InitData(InitData(s).0) == InitData(s)
  {
  }

  /** `setStore(data)`: the listed guests become a copy of `data`. */
  function SetStore(s: State, data: seq<GuestNode>): (r: State)
    ensures r.guests == data && r.initialized == s.initialized
  {
    s.(guests := data)
  }

  /** Loading the list leaves the store initialised once it was. */
  lemma SetStoreKeepsInitialised(s: State, data: seq<GuestNode>)
    ensures InitData(SetStore(InitData(s).0, data)).0 == SetStore(InitData(s).0, data)
  {
  }
}
