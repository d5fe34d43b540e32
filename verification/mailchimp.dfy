/**
 * The Mailchimp marketing API as the guest operations call it. Every call is
 * a function that returns or throws; what a call answers is an input of the
 * model, never computed by it.
 */
module Mailchimp {
  import opened Options
  import opened Results

  /**
   * A list member as Mailchimp answers it: the address, the FNAME and LNAME
   * merge fields, and every other merge field by tag.
   */
  datatype Member = Member(emailAddress: string, fname: string, lname: string, mergeFields: map<string, string>)

  /** A merge field other than FNAME and LNAME; `None` when the member does not carry it. */
  function MergeField(m: Member, tag: string): (r: Option<string>)
    ensures r.Some? <==> tag in m.mergeFields
    ensures r.Some? ==> r.value == m.mergeFields[tag]
  {
    if tag in m.mergeFields then Some(m.mergeFields[tag]) else None
  }

  /** The body of an add-member request: the address, the status, FNAME, LNAME and MMERGE3. */
  datatype ListMember = ListMember(emailAddress: string, status: string, fname: string, lname: string, mmerge3: Option<string>)

  /** One page of a list's members and the list's size as Mailchimp reports it. */
  datatype MembersPage = MembersPage(members: seq<Member>, totalItems: int)

  datatype BatchError = BatchError(emailAddress: string, error: string, errorCode: string, field: string, fieldMessage: string)

  /** The answer to a batch subscription. */
  datatype BatchResponse = BatchResponse(totalCreated: int, totalUpdated: int, errorCount: int, errors: seq<BatchError>)

  /**
   * The calls the server makes. A member lookup or addition that returns an
   * answer without a string `status` (not a member) is `Returned(None)`.
   * `getListMembersInfo(list, count, offset)` answers one page.
   */
  datatype Api = Api(
    getListMember: (string, string) -> Attempt<Option<Member>>,
    addListMember: (string, ListMember) -> Attempt<Option<Member>>,
    updateListMemberTags: (string, string, string) -> Attempt<()>,
    batchListMembers: (string, seq<ListMember>) -> Attempt<BatchResponse>,
    getListMembersInfo: (string, nat, nat) -> Attempt<MembersPage>)
}
