/**
 * The guest record the server stores and the pure mappings between guests and
 * Mailchimp members (server/src/entitites/guest/utils and the mapper inside
 * findGuest.ts, createGuest.ts and syncGuestsDatabase.ts).
 */
module Guests {
  import opened Options
  import opened Strings
  import opened Mailchimp

  datatype Status = Rsvp | CheckedIn | Waiting | Removed

  /** Where a guest came from; `RsvpList` is the source written 'RSVP'. */
  datatype Source = RsvpList | Manual | Referrer | Sync | Upload

  /**
   * A stored guest. Timestamps are only set by the synchronisation, which
   * writes documents without going through the collection; `referrerId` is
   * the store id of the guest who referred this one.
   */
  datatype Guest = Guest(
    email: string,
    emailHash: string,
    firstName: string,
    lastName: string,
    companyName: Option<string>,
    accountManager: Option<string>,
    source: Source,
    status: Status,
    referrerId: Option<nat>,
    createdAt: Option<int>,
    updatedAt: Option<int>)

  /**
   * The server settings the guest operations read. `hash` is the digest
   * `hashGuestEmail` applies to the lower-cased address; it is kept abstract.
   */
  datatype Env = Env(hash: string -> string, databaseListId: string, eventListId: string, waitingListTag: string)

  /** `hashGuestEmail`: the digest of the lower-cased address. */
  function HashEmail(env: Env, email: string): (h: string)
    ensures forall other :: Lower(other) == Lower(email) ==> h == env.hash(Lower(other))
  {
    env.hash(Lower(email))
  }

  lemma {:induction false} LowerIdempotent(s: string)
    ensures Lower(Lower(s)) == Lower(s)
  {
    forall i | 0 <= i < |s| ensures Lower(Lower(s))[i] == Lower(s)[i] {
      assert LowerChar(LowerChar(s[i])) == LowerChar(s[i]);
    }
  }

  /** Addresses that differ only in ASCII letter case hash alike, and an address hashes as its lower-case form. */
  lemma HashIgnoresCase(env: Env, a: string, b: string)
    requires Lower(a) == Lower(b)
    ensures HashEmail(env, a) == HashEmail(env, b)
    ensures HashEmail(env, Lower(a)) == HashEmail(env, a)
  {
    LowerIdempotent(a);
  }

  /** A guest as the database-list mapper builds it before the optional fields are applied. */
  function Basic(emailHash: string, m: Member, source: Source): (g: Guest)
    ensures g.email == m.emailAddress && g.emailHash == emailHash
    ensures g.firstName == m.fname && g.lastName == m.lname
    ensures g.source == source && g.status == Rsvp
    ensures g.companyName.None? && g.accountManager.None? && g.referrerId.None?
    ensures g.createdAt.None? && g.updatedAt.None?
  {
    Guest(m.emailAddress, emailHash, m.fname, m.lname, None, None, source, Rsvp, None, None, None)
  }

  /**
   * `mailchimpDatabaseListMemberToGuest(emailHash)`: an RSVP guest, with the
   * company from AZIENDA and the account manager from REFERENTE when those are
   * non-empty. The hash is the one given, not recomputed.
   */
  function DatabaseMemberToGuest(emailHash: string, m: Member): (g: Guest)
    ensures g.companyName == OrNull(MergeField(m, "AZIENDA"))
    ensures g.accountManager == OrNull(MergeField(m, "REFERENTE"))
    ensures g == Basic(emailHash, m, RsvpList).(companyName := g.companyName, accountManager := g.accountManager)
  {
    var base := Basic(emailHash, m, RsvpList);
    var withManager := if Truthy(MergeField(m, "REFERENTE")) then base.(accountManager := MergeField(m, "REFERENTE")) else base;
    if Truthy(MergeField(m, "AZIENDA")) then withManager.(companyName := MergeField(m, "AZIENDA")) else withManager
  }

  /** The mapper `findGuest` passes: the company comes from MMERGE7, there is never an account manager. */
  function RsvpMemberToGuest(emailHash: string, m: Member): (g: Guest)
    ensures g.companyName == OrNull(MergeField(m, "MMERGE7"))
    ensures g == Basic(emailHash, m, RsvpList).(companyName := g.companyName)
  {
    var base := Basic(emailHash, m, RsvpList);
    if Truthy(MergeField(m, "MMERGE7")) then base.(companyName := MergeField(m, "MMERGE7")) else base
  }

  /**
   * The guest the synchronisation writes for an event-list member: hashed from
   * the member's address, source SYNC, company from MMERGE4 or null, both
   * timestamps `now`.
   */
  function SyncMemberToGuest(env: Env, m: Member, now: int): (g: Guest)
    ensures g.emailHash == HashEmail(env, m.emailAddress)
    ensures g.companyName == OrNull(MergeField(m, "MMERGE4"))
    ensures g.source == Sync && g.status == Rsvp && g.accountManager.None?
    ensures g.firstName == m.fname && g.lastName == m.lname && g.email == m.emailAddress
    ensures g.createdAt == Some(now) && g.updatedAt == Some(now) && g.referrerId.None?
  {
    Basic(HashEmail(env, m.emailAddress), m, Sync).(
      companyName := OrNull(MergeField(m, "MMERGE4")),
      createdAt := Some(now),
      updatedAt := Some(now))
  }

  /** `guestToMailchimpListMember`: subscribes the address with FNAME, LNAME and the company as MMERGE3. */
  function GuestToListMember(firstName: string, lastName: string, email: string, companyName: Option<string>): (lm: ListMember)
    ensures lm.emailAddress == email && lm.status == "subscribed"
    ensures lm.fname == firstName && lm.lname == lastName && lm.mmerge3 == companyName
  {
    ListMember(email, "subscribed", firstName, lastName, companyName)
  }

  /**
   * A member mapped to a guest and back to a subscription keeps its address and
   * names; the company travels only when AZIENDA is non-empty.
   */
  lemma MemberRoundTrip(emailHash: string, m: Member)
    ensures var g := DatabaseMemberToGuest(emailHash, m);
            var lm := GuestToListMember(g.firstName, g.lastName, g.email, g.companyName);
            lm.emailAddress == m.emailAddress && lm.fname == m.fname && lm.lname == m.lname
            && (lm.mmerge3.Some? <==> Truthy(MergeField(m, "AZIENDA")))
            && (lm.mmerge3.Some? ==> lm.mmerge3 == MergeField(m, "AZIENDA"))
  {
  }

  /** The two lookup mappers differ only in where the company and account manager come from. */
  lemma MappersAgreeOnIdentity(emailHash: string, m: Member)
    ensures DatabaseMemberToGuest(emailHash, m).(companyName := None, accountManager := None)
            == RsvpMemberToGuest(emailHash, m).(companyName := None)
  {
  }
}
