/**
 * The railway-oriented Result of shared/Result.ts. The source builds every Result
 * from a sync or async thunk; here the two forms are the same, and a thunk that
 * throws (or a promise that rejects) is an `Attempt` that ended in `Threw`.
 */
module Results {

  /** An exception value thrown by foreign code, identified by its message. */
  datatype Exception = Exception(message: string)

  /** The outcome of calling a fallible foreign function: it returns or it throws. */
  datatype Attempt<A> = Returned(value: A) | Threw(exception: Exception)

  datatype Result<E, A> = Success(value: A) | Failure(error: E) {

    predicate IsSuccess() {
      Success?
    }

    predicate IsFailure() {
      Failure?
    }

    /** Test-only extraction: throws on a Failure. */
    function UnsafeGetValue(): (r: Attempt<A>)
      ensures r.Returned? <==> IsSuccess()
      ensures r.Returned? ==> r.value == value
      ensures r.Threw? ==> r.exception.message == "Trying to get the value of a failed Result"
    {
      match this
      case Failure(_) => Threw(Exception("Trying to get the value of a failed Result"))
      case Success(v) => Returned(v)
    }

    /** Test-only extraction: throws on a Success. */
    function UnsafeGetError(): (r: Attempt<E>)
      ensures r.Returned? <==> IsFailure()
      ensures r.Returned? ==> r.value == error
      ensures r.Threw? ==> r.exception.message == "Trying to get the error of a succeeded Result"
    {
      match this
      case Failure(e) => Returned(e)
      case Success(_) => Threw(Exception("Trying to get the error of a succeeded Result"))
    }

    /** Calls exactly one of the two continuations, chosen by the arm. */
    function Fold<T>(whenFailure: E -> T, whenSuccess: A -> T): (r: T)
      ensures IsSuccess() ==> r == whenSuccess(value)
      ensures IsFailure() ==> r == whenFailure(error)
    {
      match this
      case Failure(e) => whenFailure(e)
      case Success(v) => whenSuccess(v)
    }

    function Bimap<E1, B>(whenFailure: E -> E1, whenSuccess: A -> B): (r: Result<E1, B>)
      ensures r.IsSuccess() <==> IsSuccess()
      ensures IsSuccess() ==> r.value == whenSuccess(value)
      ensures IsFailure() ==> r.error == whenFailure(error)
    {
      Fold(e => Failure(whenFailure(e)), v => Success(whenSuccess(v)))
    }

    /** Transforms a success value and leaves a failure's error unaltered. */
    function Map<B>(fn: A -> B): (r: Result<E, B>)
      ensures IsSuccess() ==> r == Success(fn(value))
      ensures IsFailure() ==> r == Failure(error)
    {
      Bimap(e => e, fn)
    }

    /** Transforms a failure's error and leaves a success value unaltered. */
    function MapError<E1>(fn: E -> E1): (r: Result<E1, A>)
      ensures IsSuccess() ==> r == Success(value)
      ensures IsFailure() ==> r == Failure(fn(error))
    {
      Bimap(fn, v => v)
    }

    /** Chains a dependent step; a failure short-circuits and keeps its error. */
    function FlatMap<B>(fn: A -> Result<E, B>): (r: Result<E, B>)
      ensures IsSuccess() ==> r == fn(value)
      ensures IsFailure() ==> r == Failure(error)
    {
      Fold(e => Failure(e), fn)
    }

    /** Chains a recovery step; a success short-circuits and keeps its value. */
    function FlatMapError<E1>(fn: E -> Result<E1, A>): (r: Result<E1, A>)
      ensures IsSuccess() ==> r == Success(value)
      ensures IsFailure() ==> r == fn(error)
    {
      Fold(fn, v => Success(v))
    }

    /** The success value, or the default computed from the error. */
    function GetOrElse(defaultValue: E -> A): (r: A)
      ensures IsSuccess() ==> r == value
      ensures IsFailure() ==> r == defaultValue(error)
    {
      Fold(defaultValue, v => v)
    }
  }

  /**
   * Runs a fallible operation: a throw becomes a Failure carrying the handler's
   * mapping of the exception, a return becomes a Success. It never throws.
   */
  function TryCatch<E, A>(fn: Attempt<A>, errorHandler: Exception -> E): (r: Result<E, A>)
    ensures r.IsFailure() <==> fn.Threw?
    ensures fn.Threw? ==> r.error == errorHandler(fn.exception)
    ensures fn.Returned? ==> r.value == fn.value
  {
    match fn
    case Returned(v) => Success(v)
    case Threw(e) => Failure(errorHandler(e))
  }

  /** A Result is never both or neither. */
  lemma ExactlyOneArm<E, A>(r: Result<E, A>)
    ensures r.IsSuccess() != r.IsFailure()
  {
  }

  lemma MapIdentity<E, A>(r: Result<E, A>)
    ensures r.Map(x => x) == r
  {
  }

  lemma MapComposition<E, A, B, C>(r: Result<E, A>, f: A -> B, g: B -> C)
    ensures r.Map(f).Map(g) == r.Map(x => g(f(x)))
  {
  }

  lemma FlatMapLeftIdentity<E, A, B>(a: A, f: A -> Result<E, B>)
    ensures Success(a).FlatMap(f) == f(a)
  {
  }

  lemma FlatMapRightIdentity<E, A>(r: Result<E, A>)
    ensures r.FlatMap(x => Success(x)) == r
  {
  }

  lemma FlatMapAssociativity<E, A, B, C>(r: Result<E, A>, f: A -> Result<E, B>, g: B -> Result<E, C>)
    ensures r.FlatMap(f).FlatMap(g) == r.FlatMap(x => f(x).FlatMap(g))
  {
  }

  /** On a failure the continuation is never consulted: any two give the same result. */
  lemma FlatMapFailureIgnoresContinuation<E, A, B>(e: E, f: A -> Result<E, B>, g: A -> Result<E, B>)
    ensures Failure(e).FlatMap(f) == Failure(e).FlatMap(g) == Failure(e)
  {
  }

  /** On a success the recovery is never consulted. */
  lemma FlatMapErrorSuccessIgnoresRecovery<E, E1, A>(a: A, f: E -> Result<E1, A>, g: E -> Result<E1, A>)
    ensures Success(a).FlatMapError(f) == Success(a).FlatMapError(g) == Success(a)
  {
  }

  /** Map is FlatMap followed by Success; MapError is FlatMapError followed by Failure. */
  lemma MapIsFlatMapOfSuccess<E, A, B>(r: Result<E, A>, f: A -> B)
    ensures r.Map(f) == r.FlatMap(x => Success(f(x)))
    ensures r.MapError(e => e) == r.FlatMapError(e => Failure(e))
  {
  }
}
