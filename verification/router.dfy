/**
 * The typed handler-list builder of server/src/routing/Router.ts and the way
 * its restful handlers' outcomes become HTTP responses. Registering handlers
 * with an Express app (`attachTo`) is not part of this model.
 */
module Routing {
  import opened Results
  import opened Errors
  import opened Paths

  datatype Method = GET | POST | PUT | DELETE

  /** What a handler throws: a `ServerError` instance, or any other error. */
  datatype Thrown = ThrownServerError(error: ServerError) | ThrownOther(message: string)

  /** The settled promise a restful handler returns. */
  datatype Outcome<Out> = Resolved(result: Result<ServerError, Out>) | Rejected(thrown: Thrown)

  /** An HTTP response body: none (`end()`), a JSON value, or `{ error: message }`. */
  datatype Body<Out> = NoBody | Json(value: Out) | ErrorJson(error: string)

  datatype Response<Out> = Response(status: int, body: Body<Out>)

  /**
   * A registered handler. A restful one computes a Result; a custom one is an
   * Express handler that writes its own response.
   */
  datatype Handler<!Req, Out> =
    | Restful(verb: Method, path: Path, run: Req -> Outcome<Out>)
    | Custom(verb: Method, path: Path, respond: Req -> Response<Out>)

  datatype Router<!Req, Out> = Router(prefix: string, handlers: seq<Handler<Req, Out>>)

  /** `Router.make(path)`. */
  function Make<Req, Out>(prefix: string): (r: Router<Req, Out>)
    ensures r.prefix == prefix && r.handlers == []
  {
    Router(prefix, [])
  }

  /** Every builder returns a new router with the handler appended last. */
  function Add<Req, Out>(r: Router<Req, Out>, h: Handler<Req, Out>): (r': Router<Req, Out>)
    ensures r'.prefix == r.prefix
    ensures |r'.handlers| == |r.handlers| + 1
    ensures r'.handlers[..|r.handlers|] == r.handlers && r'.handlers[|r.handlers|] == h
  {
    Router(r.prefix, r.handlers + [h])
  }

  function Get<Req, Out>(r: Router<Req, Out>, path: Path, handler: Req -> Outcome<Out>): (r': Router<Req, Out>)
    ensures r'.prefix == r.prefix && r'.handlers == r.handlers + [Restful(GET, path, handler)]
  {
    Add(r, Restful(GET, path, handler))
  }

  function Post<Req, Out>(r: Router<Req, Out>, path: Path, handler: Req -> Outcome<Out>): (r': Router<Req, Out>)
    ensures r'.prefix == r.prefix && r'.handlers == r.handlers + [Restful(POST, path, handler)]
  {
    Add(r, Restful(POST, path, handler))
  }

  function Put<Req, Out>(r: Router<Req, Out>, path: Path, handler: Req -> Outcome<Out>): (r': Router<Req, Out>)
    ensures r'.prefix == r.prefix && r'.handlers == r.handlers + [Restful(PUT, path, handler)]
  {
    Add(r, Restful(PUT, path, handler))
  }

  function Delete<Req, Out>(r: Router<Req, Out>, path: Path, handler: Req -> Outcome<Out>): (r': Router<Req, Out>)
    ensures r'.prefix == r.prefix && r'.handlers == r.handlers + [Restful(DELETE, path, handler)]
  {
    Add(r, Restful(DELETE, path, handler))
  }

  function CustomRoute<Req, Out>(r: Router<Req, Out>, verb: Method, path: Path, handler: Req -> Response<Out>): (r': Router<Req, Out>)
    ensures r'.prefix == r.prefix && r'.handlers == r.handlers + [Custom(verb, path, handler)]
  {
    Add(r, Custom(verb, path, handler))
  }

  /** A chain of builder calls, one per handler, in order. */
  function Chain<Req, Out>(r: Router<Req, Out>, hs: seq<Handler<Req, Out>>): Router<Req, Out>
    decreases |hs|
  {
    if |hs| == 0 then r else Chain(Add(r, hs[0]), hs[1..])
  }

  /** Chaining keeps the prefix and lists the handlers in registration order after the existing ones. */
  lemma {:induction false} ChainAppends<Req, Out>(r: Router<Req, Out>, hs: seq<Handler<Req, Out>>)
    ensures Chain(r, hs).prefix == r.prefix
    ensures Chain(r, hs).handlers == r.handlers + hs
    decreases |hs|
  {
    if |hs| > 0 {
      ChainAppends(Add(r, hs[0]), hs[1..]);
      assert r.handlers + [hs[0]] + hs[1..] == r.handlers + hs;
    }
  }

  /** A router built from `make(p)` holds exactly the registered handlers. */
  lemma MadeRouterHolds<Req, Out>(prefix: string, hs: seq<Handler<Req, Out>>)
    ensures Chain(Make(prefix), hs) == Router(prefix, hs)
  {
    ChainAppends(Make(prefix), hs);
  }

  /**
   * `Router.handleError`: a 500 ServerError and any other error give a bare
   * 500; a ServerError with another status gives that status and its message.
   */
  function HandleError<Out>(t: Thrown): (resp: Response<Out>)
    ensures t.ThrownServerError? && t.error.status == 500 ==> resp == Response(500, NoBody)
    ensures t.ThrownServerError? && t.error.status != 500 ==> resp == Response(t.error.status, ErrorJson(t.error.message))
    ensures t.ThrownOther? ==> resp == Response(500, NoBody)
  {
    match t
    case ThrownServerError(e) =>
      if e.status == 500 then Response(500, NoBody) else Response(e.status, ErrorJson(e.message))
    case ThrownOther(_) => Response(500, NoBody)
  }

  /** The response a restful handler's outcome becomes: success as JSON, anything else through `HandleError`. */
  function Respond<Out>(o: Outcome<Out>): (resp: Response<Out>)
    ensures o.Resolved? && o.result.Success? ==> resp == Response(200, Json(o.result.value))
    ensures o.Resolved? && o.result.Failure? ==> resp == HandleError(ThrownServerError(o.result.error))
    ensures o.Rejected? ==> resp == HandleError(o.thrown)
  {
    match o
    case Resolved(result) => result.Fold(e => HandleError(ThrownServerError(e)), v => Response(200, Json(v)))
    case Rejected(t) => HandleError(t)
  }

  /** An error message reaches the client exactly when it comes from a ServerError whose status is not 500. */
  lemma ErrorMessageExposedIff<Out>(t: Thrown)
    ensures HandleError<Out>(t).body.ErrorJson?
            <==> t.ThrownServerError? && t.error.status != 500
    ensures HandleError<Out>(t).body.ErrorJson? ==> HandleError<Out>(t).body.error == t.error.message
    ensures HandleError<Out>(t).body.NoBody? <==> HandleError<Out>(t).status == 500
  {
  }

  /** A JSON value is sent exactly when the handler resolved to a success; a thrown ServerError and a returned one answer alike. */
  lemma JsonIffSuccess<Out>(o: Outcome<Out>)
    ensures Respond(o).body.Json? <==> o.Resolved? && o.result.Success?
    ensures o.Resolved? && o.result.Failure? ==> Respond(o) == Respond(Rejected(ThrownServerError(o.result.error)))
  {
  }
}
