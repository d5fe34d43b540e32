/**
 * The lazily acquired, memoised resource of server/src/resources/Resource.ts.
 * The first `use` (or `release`) acquires the resource and caches it; later
 * calls reuse the cache for as long as the cached value is truthy. Calls are
 * taken one at a time: two racing first calls are not modelled.
 */
module Resources {
  import opened Options
  import opened Results

  /**
   * A resource together with its cache. `acquireFn(n)` is what the n-th call
   * to the acquire function (counting from 0) resolves or rejects with;
   * `truthy` is JavaScript truthiness on the resource's type.
   */
  datatype Resource<!T, M> = Resource(
    acquireFn: nat -> Attempt<T>,
    releaseFn: T -> Attempt<()>,
    mapFn: T -> Attempt<M>,
    truthy: T -> bool,
    cached: Option<T>,
    acquireCalls: nat)
  {
    /** The cache holds a value `||` keeps, so acquire is skipped. */
    predicate Holds() {
      cached.Some? && truthy(cached.value)
    }
  }

  /** A resource whose users see the raw value: `mapFn` defaults to the identity. */
  function Identity<T>(): T -> Attempt<T> {
    (x: T) => Returned(x)
  }

  /** `Resource.make`: nothing is cached and acquire has not been called. */
  function Make<T, M>(acquire: nat -> Attempt<T>, release: T -> Attempt<()>, mapFn: T -> Attempt<M>, truthy: T -> bool): (r: Resource<T, M>)
    ensures r.cached.None? && r.acquireCalls == 0
    ensures r.acquireFn == acquire && r.releaseFn == release && r.mapFn == mapFn && r.truthy == truthy
  {
    Resource(acquire, release, mapFn, truthy, None, 0)
  }

  /** `Resource.make` without a map function. */
  function MakeDefault<T>(acquire: nat -> Attempt<T>, release: T -> Attempt<()>, truthy: T -> bool): (r: Resource<T, T>)
    ensures r.cached.None? && r.acquireCalls == 0
    ensures r.mapFn == Identity()
  {
    Make(acquire, release, Identity(), truthy)
  }

  /**
   * `this.resource = this.resource || await this.acquireFn()`: a truthy cache is
   * used as is; otherwise acquire is called once, a resolved value is cached
   * (even a falsy one) and a rejection leaves the cache as it was.
   */
  function Acquire<T, M>(r: Resource<T, M>): (out: (Resource<T, M>, Attempt<T>))
    ensures r.Holds() ==> out.0 == r && out.1 == Returned(r.cached.value)
    ensures !r.Holds() ==> out.1 == r.acquireFn(r.acquireCalls) && out.0.acquireCalls == r.acquireCalls + 1
    ensures !r.Holds() && out.1.Returned? ==> out.0.cached == Some(out.1.value)
    ensures !r.Holds() && out.1.Threw? ==> out.0.cached == r.cached
    ensures out.0.acquireFn == r.acquireFn && out.0.releaseFn == r.releaseFn
    ensures out.0.mapFn == r.mapFn && out.0.truthy == r.truthy
  {
    if r.Holds() then (r, Returned(r.cached.value))
    else
      var next := r.(acquireCalls := r.acquireCalls + 1);
      match r.acquireFn(r.acquireCalls)
      case Threw(e) => (next, Threw(e))
      case Returned(v) => (next.(cached := Some(v)), Returned(v))
  }

  /**
   * `use(op)`: acquires if needed, then hands `mapFn(resource)` to `op` and
   * returns whatever `op` returns; a rejection at any step is the answer.
   */
  function Use<T, M, R>(r: Resource<T, M>, op: M -> Attempt<R>): (out: (Resource<T, M>, Attempt<R>))
    ensures out.0 == Acquire(r).0
    ensures Acquire(r).1.Threw? ==> out.1 == Threw(Acquire(r).1.exception)
    ensures Acquire(r).1.Returned? && r.mapFn(Acquire(r).1.value).Threw? ==> out.1 == Threw(r.mapFn(Acquire(r).1.value).exception)
    ensures Acquire(r).1.Returned? && r.mapFn(Acquire(r).1.value).Returned? ==> out.1 == op(r.mapFn(Acquire(r).1.value).value)
  {
    var (next, acquired) := Acquire(r);
    match acquired
    case Threw(e) => (next, Threw(e))
    case Returned(v) =>
      match r.mapFn(v)
      case Threw(e) => (next, Threw(e))
      case Returned(m) => (next, op(m))
  }

  /** `release()`: acquires if needed, then passes the resource to the release function; the cache is kept. */
  function Release<T, M>(r: Resource<T, M>): (out: (Resource<T, M>, Attempt<()>))
    ensures out.0 == Acquire(r).0
    ensures Acquire(r).1.Threw? ==> out.1 == Threw(Acquire(r).1.exception)
    ensures Acquire(r).1.Returned? ==> out.1 == r.releaseFn(Acquire(r).1.value)
  {
    var (next, acquired) := Acquire(r);
    match acquired
    case Threw(e) => (next, Threw(e))
    case Returned(v) => (next, r.releaseFn(v))
  }

  /** A scripted sequence of calls on one resource. */
  datatype Call<!M, R> = UseCall(op: M -> Attempt<R>) | ReleaseCall

  function Step<T, M, R>(r: Resource<T, M>, call: Call<M, R>): Resource<T, M> {
    match call
    case UseCall(op) => Use(r, op).0
    case ReleaseCall => Release(r).0
  }

  /** The resource after each call of the script in turn. */
  function Run<T, M, R>(r: Resource<T, M>, calls: seq<Call<M, R>>): Resource<T, M>
    decreases |calls|
  {
    if |calls| == 0 then r else Run(Step(r, calls[0]), calls[1..])
  }

  /**
   * Once a truthy value is cached, no call of any kind acquires again or
   * changes the cache: in particular `release` does not clear it.
   */
  lemma {:induction false} HeldCacheIsKept<T, M, R>(r: Resource<T, M>, calls: seq<Call<M, R>>)
    requires r.Holds()
    ensures Run(r, calls) == r
    decreases |calls|
  {
    if |calls| > 0 {
      assert Step(r, calls[0]) == r;
      HeldCacheIsKept(r, calls[1..]);
    }
  }

  /** Every call acquires at most once, so a script of n calls acquires at most n times. */
  lemma {:induction false} AcquiresAtMostOncePerCall<T, M, R>(r: Resource<T, M>, calls: seq<Call<M, R>>)
    ensures r.acquireCalls <= Run(r, calls).acquireCalls <= r.acquireCalls + |calls|
    ensures Run(r, calls).acquireFn == r.acquireFn && Run(r, calls).truthy == r.truthy
    decreases |calls|
  {
    if |calls| > 0 {
      AcquiresAtMostOncePerCall(Step(r, calls[0]), calls[1..]);
    }
  }

  /** Three uses of a fresh resource whose acquire resolves to a truthy value acquire once. */
  lemma ThreeUsesAcquireOnce<T, M, R>(acquire: nat -> Attempt<T>, release: T -> Attempt<()>, mapFn: T -> Attempt<M>, truthy: T -> bool, op1: M -> Attempt<R>, op2: M -> Attempt<R>, op3: M -> Attempt<R>)
    requires acquire(0).Returned? && truthy(acquire(0).value)
    ensures var r0 := Make(acquire, release, mapFn, truthy);
            var r1 := Use(r0, op1).0;
            var r2 := Use(r1, op2).0;
            var r3 := Use(r2, op3).0;
            r3.acquireCalls == 1 && r3.cached == Some(acquire(0).value)
  {
    var r0 := Make(acquire, release, mapFn, truthy);
    var r1 := Use(r0, op1).0;
    assert r1.Holds() && r1.acquireCalls == 1;
    HeldCacheIsKept(r1, [UseCall(op2), UseCall(op3)]);
    assert Run(r1, [UseCall(op2), UseCall(op3)]) == Use(Use(r1, op2).0, op3).0;
  }

  /** `op` receives the mapped resource, and its answer is returned unchanged. */
  lemma OpGetsMappedResource<T, M, R>(r: Resource<T, M>, op: M -> Attempt<R>, v: T)
    requires Acquire(r).1 == Returned(v) && r.mapFn(v).Returned?
    ensures Use(r, op).1 == op(r.mapFn(v).value)
  {
  }

  /** Without a map function `op` receives the acquired resource itself. */
  lemma DefaultMapIsIdentity<T, R>(acquire: nat -> Attempt<T>, release: T -> Attempt<()>, truthy: T -> bool, op: T -> Attempt<R>)
    requires acquire(0).Returned?
    ensures Use(MakeDefault(acquire, release, truthy), op).1 == op(acquire(0).value)
  {
  }

  /** A rejected acquire caches nothing, so the next use calls acquire again. */
  lemma RejectedAcquireRetries<T, M, R>(r: Resource<T, M>, op1: M -> Attempt<R>, op2: M -> Attempt<R>)
    requires r.cached.None? && r.acquireFn(r.acquireCalls).Threw?
    ensures Use(r, op1).1 == Threw(r.acquireFn(r.acquireCalls).exception)
    ensures Use(r, op1).0.cached.None?
    ensures Acquire(Use(r, op1).0).1 == r.acquireFn(r.acquireCalls + 1)
    ensures Use(Use(r, op1).0, op2).0.acquireCalls == r.acquireCalls + 2
  {
  }

  /** `release` keeps what it acquired: a use after it does not call acquire. */
  lemma ReleaseThenUseAcquiresOnce<T, M, R>(r: Resource<T, M>, op: M -> Attempt<R>)
    requires r.cached.None? && r.acquireFn(r.acquireCalls).Returned?
    requires r.truthy(r.acquireFn(r.acquireCalls).value)
    ensures Release(r).1 == r.releaseFn(r.acquireFn(r.acquireCalls).value)
    ensures Use(Release(r).0, op).0.acquireCalls == r.acquireCalls + 1
    ensures Use(Release(r).0, op).0.cached == Some(r.acquireFn(r.acquireCalls).value)
  {
  }

  /** A cached falsy value counts as absent: the next use acquires and replaces it. */
  lemma FalsyCacheIsReacquired<T, M, R>(r: Resource<T, M>, op: M -> Attempt<R>)
    requires r.cached.Some? && !r.truthy(r.cached.value)
    requires r.acquireFn(r.acquireCalls).Returned?
    ensures Use(r, op).0.acquireCalls == r.acquireCalls + 1
    ensures Use(r, op).0.cached == Some(r.acquireFn(r.acquireCalls).value)
  {
  }
}
