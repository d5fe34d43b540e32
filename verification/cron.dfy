/**
 * The request middleware of server/src/cron.ts: at most once every two hours
 * it runs the guest upsert, then always passes control on. The clock is an
 * input, read once when the middleware starts (`now`) and once after the
 * upsert settles (`finished`). Acquiring the environment resource it runs
 * inside is taken to succeed.
 */
module Cron {
  import opened Options
  import opened Results
  import opened Errors

  /** Two hours in milliseconds. */
  const UpsertInterval: int := 1000 * 60 * 60 * 2

  /** The module-level `cronState`; `None` until the first upsert. */
  datatype CronState = CronState(upsertLastRun: Option<int>)

  const Initial := CronState(None)

  /** What one invocation did. `thrown` is set when the upsert's promise rejected. */
  datatype Tick = Tick(state: CronState, upsertCalled: bool, nextCalled: bool, thrown: Option<Exception>)

  /** The upsert is due when strictly more than two hours passed since the last run (time 0 if none). */
  predicate Due(s: CronState, now: int) {
    now - s.upsertLastRun.GetOr(0) > UpsertInterval
  }

  /**
   * One invocation. When due, the upsert runs and, once it settles with any
   * Result, the state records `finished`; a rejected upsert propagates out of
   * the middleware, so neither the state nor `next` is reached.
   */
  function Invoke(s: CronState, now: int, finished: int, upsert: Attempt<Result<ServerError, ()>>): (t: Tick)
    ensures !Due(s, now) ==> t == Tick(s, false, true, None)
    ensures Due(s, now) && upsert.Returned? ==> t == Tick(CronState(Some(finished)), true, true, None)
    ensures Due(s, now) && upsert.Threw? ==> t == Tick(s, true, false, Some(upsert.exception))
  {
    if !Due(s, now) then Tick(s, false, true, None)
    else
      match upsert
      case Threw(e) => Tick(s, true, false, Some(e))
      case Returned(_) => Tick(CronState(Some(finished)), true, true, None)
  }

  /** The first invocation after a start at a time past two hours runs the upsert. */
  lemma FirstCallRuns(now: int, finished: int, upsert: Attempt<Result<ServerError, ()>>)
    requires now > UpsertInterval
    ensures Invoke(Initial, now, finished, upsert).upsertCalled
  {
  }

  /** Each settled invocation calls `next` exactly once, whether or not the upsert ran or failed. */
  lemma NextIffSettled(s: CronState, now: int, finished: int, upsert: Attempt<Result<ServerError, ()>>)
    ensures Invoke(s, now, finished, upsert).nextCalled <==> Invoke(s, now, finished, upsert).thrown.None?
    ensures Invoke(s, now, finished, upsert).upsertCalled <==> Due(s, now)
  {
  }

  /** An invocation within the window changes nothing. */
  lemma WithinWindowIsIdle(s: CronState, now: int, finished: int, upsert: Attempt<Result<ServerError, ()>>)
    requires s.upsertLastRun.Some? && now - s.upsertLastRun.value <= UpsertInterval
    ensures Invoke(s, now, finished, upsert).state == s
    ensures !Invoke(s, now, finished, upsert).upsertCalled
  {
  }

  /** A call of the schedule: the two clock readings and how the upsert would settle. */
  datatype Request = Request(now: int, finished: int, upsert: Attempt<Result<ServerError, ()>>)

  /** Clock readings never go backwards, within a call and from one call to the next. */
  ghost predicate Monotone(rs: seq<Request>) {
    (forall i :: 0 <= i < |rs| ==> rs[i].now <= rs[i].finished)
    && (forall i :: 0 <= i < |rs| - 1 ==> rs[i].finished <= rs[i + 1].now)
  }

  /** The start times of the invocations that called the upsert, over a sequence of settled calls. */
  function Runs(s: CronState, rs: seq<Request>): (starts: seq<int>)
    decreases |rs|
  {
    if |rs| == 0 then []
    else
      var t := Invoke(s, rs[0].now, rs[0].finished, rs[0].upsert);
      (if t.upsertCalled then [rs[0].now] else []) + Runs(t.state, rs[1..])
  }

  /** The rest of a schedule keeps its clocks monotone. */
  lemma MonotoneTail(rs: seq<Request>)
    requires Monotone(rs) && |rs| > 0
    ensures Monotone(rs[1..])
  {
    var rest := rs[1..];
    forall i | 0 <= i < |rest| - 1 ensures rest[i].finished <= rest[i + 1].now {
      assert rest[i] == rs[i + 1] && rest[i + 1] == rs[i + 2];
    }
  }

  /** The clock never reads earlier than the state's last run at the start of the schedule. */
  ghost predicate StartsAfter(s: CronState, rs: seq<Request>) {
    s.upsertLastRun.Some? && |rs| > 0 ==> s.upsertLastRun.value <= rs[0].now
  }

  /** One settled invocation hands the next one a state it does not precede. */
  lemma StepStartsAfter(s: CronState, rs: seq<Request>)
    requires Monotone(rs) && |rs| > 0 && rs[0].upsert.Returned?
    ensures StartsAfter(Invoke(s, rs[0].now, rs[0].finished, rs[0].upsert).state, rs[1..]) || !StartsAfter(s, rs)
  {
    if |rs| > 1 {
      assert rs[1..][0] == rs[1];
    }
  }

  /** Every run of a settled schedule is due with respect to the state the schedule starts in. */
  lemma {:induction false} RunsDue(s: CronState, rs: seq<Request>)
    requires Monotone(rs) && StartsAfter(s, rs)
    requires forall i :: 0 <= i < |rs| ==> rs[i].upsert.Returned?
    ensures forall x :: x in Runs(s, rs) ==> Due(s, x)
    decreases |rs|
  {
    if |rs| > 0 {
      var t := Invoke(s, rs[0].now, rs[0].finished, rs[0].upsert);
      MonotoneTail(rs);
      StepStartsAfter(s, rs);
      RunsDue(t.state, rs[1..]);
      if t.upsertCalled {
        assert Runs(s, rs) == [rs[0].now] + Runs(t.state, rs[1..]);
        assert s.upsertLastRun.GetOr(0) <= rs[0].finished;
      } else {
        assert Runs(s, rs) == Runs(t.state, rs[1..]);
      }
    }
  }

  /** Upserts that settle are throttled: every two consecutive runs start more than two hours apart. */
  lemma {:induction false} RunsAreSpaced(s: CronState, rs: seq<Request>)
    requires Monotone(rs) && StartsAfter(s, rs)
    requires forall i :: 0 <= i < |rs| ==> rs[i].upsert.Returned?
    ensures forall i :: 0 <= i < |Runs(s, rs)| - 1 ==> Runs(s, rs)[i + 1] - Runs(s, rs)[i] > UpsertInterval
    decreases |rs|
  {
    if |rs| > 0 {
      var t := Invoke(s, rs[0].now, rs[0].finished, rs[0].upsert);
      var rest := rs[1..];
      MonotoneTail(rs);
      StepStartsAfter(s, rs);
      RunsAreSpaced(t.state, rest);
      var tail := Runs(t.state, rest);
      var all := Runs(s, rs);
      if t.upsertCalled {
        assert all == [rs[0].now] + tail;
        if |tail| > 0 {
          RunsDue(t.state, rest);
          assert tail[0] in tail;
          assert t.state.upsertLastRun == Some(rs[0].finished);
        }
        forall i | 0 <= i < |all| - 1 ensures all[i + 1] - all[i] > UpsertInterval {
          if i > 0 {
            assert all[i] == tail[i - 1] && all[i + 1] == tail[i];
          }
        }
      } else {
        assert all == tail;
      }
    }
  }

  /** The throttle seen in practice: 9:30 runs, 11:29 does not, 11:31 does. */
  lemma TwoHourWindow(ok: Attempt<Result<ServerError, ()>>)
    requires ok.Returned?
    ensures var t0 := 9 * 3600000 + 30 * 60000;
            var first := Invoke(Initial, t0, t0, ok);
            var second := Invoke(first.state, t0 + 119 * 60000, t0 + 119 * 60000, ok);
            var third := Invoke(second.state, t0 + 121 * 60000, t0 + 121 * 60000, ok);
            first.upsertCalled && !second.upsertCalled && third.upsertCalled
            && first.nextCalled && second.nextCalled && third.nextCalled
  {
  }
}
