/** The error every server-side Result carries (server/src/ServerError.ts). */
module Errors {
  import opened Options

  /**
   * An HTTP-style status, a message, and an optional diagnostic payload. The
   * payload's content is kept abstract: only whether one is attached matters.
   */
  datatype ServerError = ServerError(status: int, message: string, extra: Option<string>)

  /** `new ServerError(status, message)` without a payload. */
  function Plain(status: int, message: string): (e: ServerError)
    ensures e.status == status && e.message == message && e.extra.None?
  {
    ServerError(status, message, None)
  }

  const NotFoundMessage := "Document not found"
}
