/**
  The delivery subscription under concurrency: any number of Receive calls, the background fetch and
  Shutdown, interleaved in every way.
 */
module SubscriptionSystem {
  import opened Wrappers
  import opened Batches
  import opened Controller
  import opened Subscription

  /** A Receive call: at the top of its loop, blocked on a wait channel, or returned. */
  datatype Phase<E> = Top | Blocked(c: nat) | Returned(outcome: Outcome<E, nat>)

  /** Wait channels are numbered as they are made; `closes` counts the times each was closed.
      `fetch` is what the running fetch asked for.  History: `delivered` and `fetched` events, the
      queue length at the last measurement (`base`), what arrived since (`gained`), and whether
      Shutdown was ever called. */
  datatype Sys<E> = Sys(
    sub: Sub<E, nat>,
    closes: seq<nat>,
    fetch: Option<int>,
    receivers: seq<Phase<E>>,
    delivered: seq<E>,
    fetched: seq<E>,
    base: nat,
    gained: nat,
    stopped: bool)

  datatype Action<E> =
    | Call
    | Turn(r: nat, done: bool, now: real)
    | Wake(r: nat)
    | GiveUp(r: nat)
    | FetchEnds(calls: seq<Completion<E>>)
    | Stop

  function Init<E>(): Sys<E> {
    Sys(Initial(), [], None, [], [], [], 0, 0, false)
  }

  predicate Enabled<E>(s: Sys<E>, opts: Option<Options>, a: Action<E>) {
    match a
    case Call => true
    case Turn(r, _, _) => r < |s.receivers| && s.receivers[r].Top?
    case Wake(r) =>
      && r < |s.receivers| && s.receivers[r].Blocked?
      && s.receivers[r].c < |s.closes| && s.closes[s.receivers[r].c] > 0
    case GiveUp(r) => r < |s.receivers| && s.receivers[r].Blocked?
    case FetchEnds(calls) =>
      && s.fetch.Some? && s.sub.waitc.Some? && s.sub.waitc.value < |s.closes|
      && multiset(Asked(calls)) == multiset(SplitSizes(s.fetch.value, opts))
    case Stop => true
  }

  /** A receiver's pass through the loop.  A wait on a missing channel would block forever. */
  function TurnStep<E>(s: Sys<E>, opts: Option<Options>, r: nat, done: bool, now: real): Sys<E>
    requires r < |s.receivers|
  {
    var p := Pass(s.sub, opts, done, now, Some(|s.closes|));
    var phase := if p.outcome.Wait? && p.outcome.waitc.Some? then Blocked(p.outcome.waitc.value)
                 else Returned(p.outcome);
    var measured := p.fetch.Some? && !OneByOne(opts);
    s.(sub := p.sub,
       closes := if p.fetch.Some? then s.closes + [0] else s.closes,
       fetch := if p.fetch.Some? then p.fetch else s.fetch,
       receivers := s.receivers[r := phase],
       delivered := if p.outcome.Received? then s.delivered + [p.outcome.event] else s.delivered,
       base := if measured then |s.sub.q| else s.base,
       gained := if measured then 0 else s.gained)
  }

  function Step<E>(s: Sys<E>, opts: Option<Options>, a: Action<E>): Sys<E>
    requires Enabled(s, opts, a)
  {
    match a
    case Call => s.(receivers := s.receivers + [Top])
    case Turn(r, done, now) => TurnStep(s, opts, r, done, now)
    case Wake(r) => s.(receivers := s.receivers[r := Top])
    case GiveUp(r) => s.(receivers := s.receivers[r := Returned(Cancelled)])
    case FetchEnds(calls) =>
      var c, result := s.sub.waitc.value, Gather(calls);
      s.(sub := Complete(s.sub, result),
         closes := s.closes[c := s.closes[c] + 1],
         fetch := None,
         fetched := if result.Ok? then s.fetched + result.value else s.fetched,
         gained := if result.Ok? then s.gained + |result.value| else s.gained)
    case Stop => s.(sub := s.sub.(err := Some(WasShutDown)), stopped := true)
  }

  function Exec<E>(s: Sys<E>, opts: Option<Options>, run: seq<Action<E>>): Option<Sys<E>> {
    if run == [] then Some(s)
    else
      var before := Exec(s, opts, run[..|run|-1]);
      if before.Some? && Enabled(before.value, opts, run[|run|-1])
      then Some(Step(before.value, opts, run[|run|-1]))
      else None
  }

  // ---- what every run keeps ----------------------------------------------------------------------

  /** A fetch is running exactly while there is a wait channel, which is the newest and still open;
      every older channel was closed exactly once; blocked receivers wait on existing channels; what
      was delivered followed by the queue is what successful fetches brought, in order. */
  ghost predicate Inv<E>(s: Sys<E>) {
    && s.sub.running > 0.0
    && (s.fetch.Some? <==> s.sub.waitc.Some?)
    && (s.sub.waitc.Some? ==> s.closes != [] && s.sub.waitc.value == |s.closes| - 1)
    && (forall c :: 0 <= c < |s.closes| ==> s.closes[c] == if s.sub.waitc == Some(c) then 0 else 1)
    && (forall r :: 0 <= r < |s.receivers| ==>
          && (s.receivers[r].Blocked? ==> s.receivers[r].c < |s.closes|)
          && (s.receivers[r].Returned? ==> !s.receivers[r].outcome.Wait?))
    && s.delivered + s.sub.q == s.fetched
    && (s.fetch.Some? ==> 1 <= s.fetch.value <= 3000)
    && (s.sub.err.Some? && s.fetch.Some? ==> s.stopped)
  }

  lemma AdjustPositive(running: real, ideal: real)
    requires running > 0.0 && ideal >= 0.0
    ensures 0.0 < Adjust(running, ideal) <= 2.0 * running
  {
  }

  lemma UpdateFacts<E>(s: Sub<E, nat>, opts: Option<Options>, now: real)
    requires s.running > 0.0
    ensures var (t, n) := Update(s, opts, now);
            && 1 <= n <= 3000 && t.running > 0.0
            && t == s.(running := t.running, start := t.start, count := t.count)
  {
    if s.start.Some? {
      IdealBound(s.count, now - s.start.value);
      AdjustPositive(s.running, Ideal(s.count, now - s.start.value));
    }
  }

  lemma StepKeeps<E>(s: Sys<E>, opts: Option<Options>, a: Action<E>)
    requires Inv(s) && Enabled(s, opts, a)
    ensures Inv(Step(s, opts, a))
  {
    hide TurnStep, Gather;
    match a
    case Turn(r, done, now) => TurnKeeps(s, opts, r, done, now);
    case FetchEnds(calls) => FetchEndsKeeps(s, opts, calls);
    case _ =>
  }

  lemma FetchEndsKeeps<E>(s: Sys<E>, opts: Option<Options>, calls: seq<Completion<E>>)
    requires Inv(s) && Enabled(s, opts, FetchEnds(calls))
    ensures Inv(Step(s, opts, FetchEnds(calls)))
  {
    hide Gather, SplitSizes;
    var result := Gather(calls);
    if result.Ok? {
      assert s.delivered + (s.sub.q + result.value) == s.delivered + s.sub.q + result.value;
    }
  }

  /** What one pass does to the guarded fields, leaving the controller's arithmetic aside. */
  lemma PassFacts<E>(s: Sub<E, nat>, opts: Option<Options>, done: bool, now: real, made: nat)
    requires s.running > 0.0
    ensures var p := Pass(s, opts, done, now, Some(made));
            && p.sub.running > 0.0 && p.sub.err == s.err
            && (if p.fetch.Some? then s.waitc.None? && p.sub.waitc == Some(made) && 1 <= p.fetch.value <= 3000
                else p.sub.waitc == s.waitc)
            && (s.err.Some? ==> p.fetch.None? && !p.outcome.Received?)
            && (if p.outcome.Received? then s.q == [p.outcome.event] + p.sub.q else p.sub.q == s.q)
            && (p.outcome.Wait? ==> p.outcome.waitc == p.sub.waitc && p.sub.waitc.Some?)
  {
    UpdateFacts(s.(waitc := Some(made)), opts, now);
    hide Update;
    assert s.q != [] ==> s.q == [s.q[0]] + s.q[1..];
  }

  lemma TurnKeeps<E>(s: Sys<E>, opts: Option<Options>, r: nat, done: bool, now: real)
    requires Inv(s) && r < |s.receivers| && s.receivers[r].Top?
    ensures Inv(TurnStep(s, opts, r, done, now))
  {
    hide Pass;
    PassFacts(s.sub, opts, done, now, |s.closes|);
    var p := Pass(s.sub, opts, done, now, Some(|s.closes|));
    if p.outcome.Received? {
      assert s.delivered + ([p.outcome.event] + p.sub.q) == s.delivered + [p.outcome.event] + p.sub.q;
    }
  }

  lemma {:induction false} RunKeeps<E>(s: Sys<E>, opts: Option<Options>, run: seq<Action<E>>)
    requires Inv(s) && Exec(s, opts, run).Some?
    ensures Inv(Exec(s, opts, run).value)
  {
    hide Inv, Step, Enabled;
    if run != [] {
      RunKeeps(s, opts, run[..|run|-1]);
      StepKeeps(Exec(s, opts, run[..|run|-1]).value, opts, run[|run|-1]);
    }
  }

  /** The queue protocol, in every state of every run. */
  lemma Protocol<E>(opts: Option<Options>, run: seq<Action<E>>)
    requires Exec(Init<E>(), opts, run).Some?
    ensures var s := Exec(Init<E>(), opts, run).value;
            && (s.fetch.Some? <==> s.sub.waitc.Some?)
            && s.delivered + s.sub.q == s.fetched
            && (forall c :: 0 <= c < |s.closes| ==> s.closes[c] == if s.sub.waitc == Some(c) then 0 else 1)
  {
    assert Inv(Init<E>());
    RunKeeps(Init<E>(), opts, run);
  }

  /** No lost wake-up: a receiver that has to wait always has a channel, and a blocked one can either
      wake now or its channel is the one the running fetch will close. */
  lemma NeverStranded<E>(opts: Option<Options>, run: seq<Action<E>>, r: nat)
    requires Exec(Init<E>(), opts, run).Some? && r < |Exec(Init<E>(), opts, run).value.receivers|
    ensures var s := Exec(Init<E>(), opts, run).value;
            && (s.receivers[r].Returned? ==> !s.receivers[r].outcome.Wait?)
            && (s.receivers[r].Blocked? ==>
                  Enabled(s, opts, Wake(r)) || (s.sub.waitc == Some(s.receivers[r].c) && s.fetch.Some?))
  {
    assert Inv(Init<E>());
    RunKeeps(Init<E>(), opts, run);
  }

  // ---- what a Receive does ------------------------------------------------------------------------

  /** A pass of Receive from s to t, in cases and numbers.  An error comes first, then the context.
      Otherwise a fetch starts exactly when none is running and the queue is at most half the size;
      then the first event of the queue is returned, or, when there is none, the receiver waits for the
      fetch that is running. */
  ghost predicate IsPass<E>(s: Sys<E>, t: Sys<E>, opts: Option<Options>, r: nat, done: bool, now: real)
    requires r < |s.receivers|
  {
    if s.sub.err.Some? then t == s.(receivers := s.receivers[r := Returned(Failed(s.sub.err.value))])
    else if done then t == s.(receivers := s.receivers[r := Returned(Cancelled)])
    else
      && var starts := s.fetch.None? && 2.0 * |s.sub.q| as real <= s.sub.running;
      && (if starts then Starts(s, t, opts, now)
          else t.fetch == s.fetch && t.closes == s.closes && t.sub.running == s.sub.running)
      && t.sub.count == (if starts && !OneAtATime(opts) then 0 else s.sub.count) + (if s.sub.q != [] then 1 else 0)
      && t.fetched == s.fetched && t.sub.err == None
      && if s.sub.q != [] then
           && t.receivers == s.receivers[r := Returned(Received(s.sub.q[0]))]
           && t.sub.q == s.sub.q[1..] && t.delivered == s.delivered + [s.sub.q[0]]
         else
           && t.closes != [] && t.fetch.Some? && t.sub.waitc == Some(|t.closes| - 1)
           && t.receivers == s.receivers[r := Blocked(|t.closes| - 1)]
           && t.sub.q == [] && t.delivered == s.delivered
  }

  /** Every pass of every Receive of every run is one of these. */
  lemma ReceiveIs<E>(opts: Option<Options>, run: seq<Action<E>>, r: nat, done: bool, now: real)
    requires Exec(Init<E>(), opts, run).Some? && Enabled(Exec(Init<E>(), opts, run).value, opts, Turn(r, done, now))
    ensures var s := Exec(Init<E>(), opts, run).value;
            IsPass(s, Step(s, opts, Turn(r, done, now)), opts, r, done, now)
  {
    assert Inv(Init<E>());
    RunKeeps(Init<E>(), opts, run);
    PassIs(Exec(Init<E>(), opts, run).value, opts, r, done, now);
  }

  /** The very first fetch is for one message. */
  lemma FirstFetch<E>(opts: Option<Options>, now: real)
    ensures var s := Exec(Init<E>(), opts, [Call, Turn(0, false, now)]);
            s.Some? && s.value.fetch == Some(1) && s.value.receivers == [Blocked(0)]
  {
    var calls: seq<Action<E>> := [Call];
    ExecSnoc(Init<E>(), opts, [], calls, Call);
    ExecSnoc(Init<E>(), opts, calls, [Call, Turn(0, false, now)], Turn(0, false, now));
  }

  /** The end of a fetch, in every reachable state: the messages go to the end of the queue, or the error
      is set, and everyone who waited for it can wake. */
  lemma FetchEndIs<E>(opts: Option<Options>, run: seq<Action<E>>, calls: seq<Completion<E>>, r: nat)
    requires Exec(Init<E>(), opts, run).Some? && Enabled(Exec(Init<E>(), opts, run).value, opts, FetchEnds(calls))
    ensures var s := Exec(Init<E>(), opts, run).value;
            var t := Step(s, opts, FetchEnds(calls));
            && t.fetch.None? && t.receivers == s.receivers && t.delivered == s.delivered
            && (match Gather(calls)
                case Ok(ms) => t.sub == s.sub.(q := s.sub.q + ms, waitc := None)
                case Err(code) => t.sub == s.sub.(err := Some(FetchFailed(code)), waitc := None))
            && (r < |t.receivers| && t.receivers[r].Blocked? ==> Enabled(t, opts, Wake(r)))
  {
    hide Gather, SplitSizes, Step, Enabled, Inv;
    assert Inv(Init<E>()) by { InitKeeps<E>(); }
    RunKeeps(Init<E>(), opts, run);
    EndIs(Exec(Init<E>(), opts, run).value, opts, calls, r);
  }

  lemma InitKeeps<E>()
    ensures Inv(Init<E>())
  {
  }

  lemma EndIs<E>(s: Sys<E>, opts: Option<Options>, calls: seq<Completion<E>>, r: nat)
    requires Inv(s) && Enabled(s, opts, FetchEnds(calls))
    ensures var t := Step(s, opts, FetchEnds(calls));
            && t.fetch.None? && t.receivers == s.receivers && t.delivered == s.delivered
            && (match Gather(calls)
                case Ok(ms) => t.sub == s.sub.(q := s.sub.q + ms, waitc := None)
                case Err(code) => t.sub == s.sub.(err := Some(FetchFailed(code)), waitc := None))
            && (r < |t.receivers| && t.receivers[r].Blocked? ==> Enabled(t, opts, Wake(r)))
  {
    hide Gather, SplitSizes, TurnStep;
  }

  /** A fetch starts, with a new open channel, for as many messages as the new size says: the size,
      at most 3000, rounded up; always one when messages are taken one by one. */
  ghost predicate Starts<E>(s: Sys<E>, t: Sys<E>, opts: Option<Options>, now: real) {
    && t.fetch.Some? && t.closes == s.closes + [0]
    && (OneAtATime(opts) ==> t.fetch.value == 1 && t.sub.running == s.sub.running)
    && (!OneAtATime(opts) ==>
          && t.fetch.value as real - 1.0 < (if t.sub.running < 3000.0 then t.sub.running else 3000.0)
             <= t.fetch.value as real
          && t.sub.start == Some(now)
          && (s.sub.start.None? ==> t.sub.running == s.sub.running)
          && forall rate: real ::
               IsRate(s, now, rate) ==> t.sub.running == Clamp((s.sub.running + 2.0 * rate) / 2.0, s.sub.running))
  }

  /** Single messages by a single handler. */
  predicate OneAtATime(opts: Option<Options>) {
    opts.Some? && opts.value.maxBatchSize == 1 && opts.value.maxHandlers == 1
  }

  /** The rate at which events were handed out since the last measurement. */
  predicate IsRate<E>(s: Sys<E>, now: real, rate: real) {
    && s.sub.start.Some?
    && rate * (if now - s.sub.start.value < 0.1 then 0.1 else now - s.sub.start.value) == s.sub.count as real
  }

  lemma PassIs<E>(s: Sys<E>, opts: Option<Options>, r: nat, done: bool, now: real)
    requires Inv(s) && Enabled(s, opts, Turn(r, done, now))
    ensures IsPass(s, Step(s, opts, Turn(r, done, now)), opts, r, done, now)
  {
    if s.sub.err.None? && !done && NeedsFetch(s.sub) {
      FetchPass(s, opts, r, now);
    } else {
      hide Update, Starts;
    }
  }

  lemma FetchPass<E>(s: Sys<E>, opts: Option<Options>, r: nat, now: real)
    requires Inv(s) && Enabled(s, opts, Turn(r, false, now)) && s.sub.err.None? && NeedsFetch(s.sub)
    ensures IsPass(s, Step(s, opts, Turn(r, false, now)), opts, r, false, now)
  {
    var u := s.sub.(waitc := Some(|s.closes|));
    var (v, n) := Update(u, opts, now);
    var t := Step(s, opts, Turn(r, false, now));
    UpdateFacts(u, opts, now);
    hide Update;
    assert t.sub.running == v.running && t.sub.start == v.start && t.fetch == Some(n);
    StartsIs(s, t, opts, now);
    hide Starts;
  }

  lemma StartsIs<E>(s: Sys<E>, t: Sys<E>, opts: Option<Options>, now: real)
    requires t.closes == s.closes + [0]
    requires var (v, n) := Update(s.sub.(waitc := Some(|s.closes|)), opts, now);
             t.sub.running == v.running && t.sub.start == v.start && t.fetch == Some(n)
    ensures Starts(s, t, opts, now)
  {
    var u := s.sub.(waitc := Some(|s.closes|));
    if OneByOne(opts) {
      return;
    }
    RequestIsCeiling(t.sub.running);
    forall rate: real | IsRate(s, now, rate)
      ensures t.sub.running == Clamp((s.sub.running + 2.0 * rate) / 2.0, s.sub.running)
    {
      UpdateIs(u, opts, now, rate);
    }
    hide Clamp, Request, IsRate, Adjust, Ideal;
  }

  // ---- the permanent error -----------------------------------------------------------------------

  /** Any Receive that gets its turn returns the error. */
  ghost predicate AnswersWith<E>(s: Sys<E>, opts: Option<Options>, err: SubError) {
    forall r: nat, done, now :: Enabled(s, opts, Turn(r, done, now)) ==>
      TurnStep(s, opts, r, done, now).receivers[r] == Returned(Failed(err))
  }

  /** Once there is an error nothing more is delivered and no fetch starts, whatever happens next; every
      pass of every Receive returns the error there is. */
  lemma {:induction false} AfterError<E>(s: Sys<E>, opts: Option<Options>, run: seq<Action<E>>)
    requires s.sub.err.Some? && Exec(s, opts, run).Some?
    ensures var t := Exec(s, opts, run).value;
            && t.sub.err.Some?
            && t.delivered == s.delivered
            && |t.closes| == |s.closes| && (t.fetch.None? || t.fetch == s.fetch)
            && AnswersWith(t, opts, t.sub.err.value)
  {
    hide Step, Enabled, AnswersWith;
    if run != [] {
      AfterError(s, opts, run[..|run|-1]);
      StepAfterError(Exec(s, opts, run[..|run|-1]).value, opts, run[|run|-1]);
    }
    TurnsAfterError(Exec(s, opts, run).value, opts);
  }

  lemma StepAfterError<E>(s: Sys<E>, opts: Option<Options>, a: Action<E>)
    requires s.sub.err.Some? && Enabled(s, opts, a)
    ensures var t := Step(s, opts, a);
            && t.sub.err.Some? && t.delivered == s.delivered
            && |t.closes| == |s.closes| && (t.fetch.None? || t.fetch == s.fetch)
  {
  }

  lemma TurnsAfterError<E>(s: Sys<E>, opts: Option<Options>)
    requires s.sub.err.Some?
    ensures AnswersWith(s, opts, s.sub.err.value)
  {
  }

  /** Exactly what changes an error that is set: Shutdown, unless it had set it, and a failing fetch
      that was still running. */
  lemma ErrorChanges<E>(s: Sys<E>, opts: Option<Options>, a: Action<E>)
    requires s.sub.err.Some? && Enabled(s, opts, a)
    ensures Step(s, opts, a).sub.err != s.sub.err <==>
            || (a.Stop? && s.sub.err != Some(WasShutDown))
            || (a.FetchEnds? && Gather(a.calls).Err? && s.sub.err != Some(FetchFailed(Gather(a.calls).error)))
  {
  }

  predicate NoStop<E>(run: seq<Action<E>>) {
    forall i :: 0 <= i < |run| ==> !run[i].Stop?
  }

  /** The error after any continuation is the one there was. */
  ghost predicate Final<E(!new)>(s: Sys<E>, opts: Option<Options>) {
    forall run :: Exec(s, opts, run).Some? ==> Exec(s, opts, run).value.sub.err == s.sub.err
  }

  ghost predicate FinalUnlessStopped<E(!new)>(s: Sys<E>, opts: Option<Options>) {
    forall run :: Exec(s, opts, run).Some? && NoStop(run) ==> Exec(s, opts, run).value.sub.err == s.sub.err
  }

  /** A driver call is outstanding: a fetch is running, and it makes calls because one message is enough
      for a batch. */
  predicate CallOutstanding<E>(s: Sys<E>, opts: Option<Options>) {
    s.fetch.Some? && WithDefaults(opts).minBatchSize == 1
  }

  /** Exactly when Receive returns the same error from then on.  Until Shutdown is called (again), just
      when no driver call is outstanding; whatever is called, just when, besides, the error is that of
      Shutdown. */
  lemma {:induction false} ErrorIsFinal<E(!new)>(opts: Option<Options>, run: seq<Action<E>>)
    requires Exec(Init<E>(), opts, run).Some? && Exec(Init<E>(), opts, run).value.sub.err.Some?
    ensures var s := Exec(Init<E>(), opts, run).value;
            && (FinalUnlessStopped(s, opts) <==> !CallOutstanding(s, opts))
            && (Final(s, opts) <==> !CallOutstanding(s, opts) && s.sub.err == Some(WasShutDown))
  {
    var s := Exec(Init<E>(), opts, run).value;
    assert Inv(Init<E>());
    RunKeeps(Init<E>(), opts, run);
    FetchesNeedMinimumOne(opts, run);
    hide Inv, Enabled, Step, SplitSizes;
    if CallOutstanding(s, opts) {
      var calls := FailingCalls(s, opts);
      OneStep(s, opts, FetchEnds(calls));
      assert NoStop([FetchEnds(calls)]);
    } else {
      forall after | Exec(s, opts, after).Some? && (NoStop(after) || s.sub.err == Some(WasShutDown))
        ensures Exec(s, opts, after).value.sub.err == s.sub.err
      {
        SameError(s, opts, after);
      }
      StopEnabled(s, opts);
      OneStep(s, opts, Stop);
    }
  }

  lemma StopEnabled<E>(s: Sys<E>, opts: Option<Options>)
    ensures Enabled(s, opts, Stop) && Step(s, opts, Stop).sub.err == Some(WasShutDown)
  {
  }

  /** Calls the running fetch could end with that set another error. */
  lemma FailingCalls<E>(s: Sys<E>, opts: Option<Options>) returns (calls: seq<Completion<E>>)
    requires Inv(s) && s.sub.err.Some? && s.fetch.Some? && SplitSizes(s.fetch.value, opts) != []
    ensures Enabled(s, opts, FetchEnds(calls))
    ensures Step(s, opts, FetchEnds(calls)).sub.err != s.sub.err
  {
    var batches := SplitSizes(s.fetch.value, opts);
    var code := if s.sub.err == Some(FetchFailed(0)) then 1 else 0;
    var failed: Result<seq<E>, int> := Err(code);
    calls := seq(|batches|, i requires 0 <= i < |batches| => Completion(batches[i], failed));
    assert Asked(calls) == batches;
    GatherIs(calls);
    assert calls[0].result == failed;
  }

  lemma OneStep<E>(s: Sys<E>, opts: Option<Options>, a: Action<E>)
    requires Enabled(s, opts, a)
    ensures Exec(s, opts, [a]) == Some(Step(s, opts, a))
  {
    ExecSnoc(s, opts, [], [a], a);
  }

  lemma {:induction false} SameError<E>(s: Sys<E>, opts: Option<Options>, run: seq<Action<E>>)
    requires s.sub.err.Some? && Exec(s, opts, run).Some?
    requires s.fetch.Some? ==> SplitSizes(s.fetch.value, opts) == []
    requires NoStop(run) || s.sub.err == Some(WasShutDown)
    ensures Exec(s, opts, run).value.sub.err == s.sub.err
  {
    hide SplitSizes, Step;
    if run != [] {
      var before, a := run[..|run|-1], run[|run|-1];
      var t := Exec(s, opts, before).value;
      SameError(s, opts, before);
      AfterError(s, opts, before);
      ErrorChanges(t, opts, a);
      if a.FetchEnds? {
        NoCalls(a.calls);
      }
    }
  }

  lemma NoCalls<E>(calls: seq<Completion<E>>)
    ensures multiset(Asked(calls)) == multiset([]) ==> Gather(calls) == Ok([])
  {
    assert |multiset(Asked(calls))| == |calls|;
  }

  /** If Shutdown is never called, the error, once set, stays the same. */
  lemma {:induction false} ErrorIsPermanent<E(!new)>(opts: Option<Options>, before: seq<Action<E>>)
    requires Exec(Init<E>(), opts, before).Some? && NoStop(before)
    requires Exec(Init<E>(), opts, before).value.sub.err.Some?
    ensures FinalUnlessStopped(Exec(Init<E>(), opts, before).value, opts)
  {
    assert Inv(Init<E>());
    RunKeeps(Init<E>(), opts, before);
    NotStopped(Init<E>(), opts, before);
    ErrorIsFinal(opts, before);
  }

  lemma {:induction false} NotStopped<E>(s: Sys<E>, opts: Option<Options>, run: seq<Action<E>>)
    requires NoStop(run) && Exec(s, opts, run).Some?
    ensures Exec(s, opts, run).value.stopped == s.stopped
  {
    if run != [] {
      NotStopped(s, opts, run[..|run|-1]);
    }
  }

  /** With Shutdown it can change: a fetch that was running replaces the shutdown error. */
  lemma ShutdownErrorIsReplaced<E>()
    ensures var fails: Completion<E> := Completion(1, Err(7));
            var run := [Call, Turn(0, false, 0.0), Stop, FetchEnds([fails])];
            && Exec(Init<E>(), None, run[..3]).Some?
            && Exec(Init<E>(), None, run[..3]).value.sub.err == Some(WasShutDown)
            && Exec(Init<E>(), None, run).Some?
            && Exec(Init<E>(), None, run).value.sub.err == Some(FetchFailed(7))
  {
    var fails: Completion<E> := Completion(1, Err(7));
    var a := [Call, Turn(0, false, 0.0), Stop, FetchEnds([fails])];
    var s0 := Init<E>();
    var s1 := Step(s0, None, a[0]);
    var s2 := Step(s1, None, a[1]);
    var s3 := Step(s2, None, a[2]);
    ExecSnoc(s0, None, a[..0], a[..1], a[0]);
    ExecSnoc(s0, None, a[..1], a[..2], a[1]);
    ExecSnoc(s0, None, a[..2], a[..3], a[2]);
    assert Asked([fails]) == [1] == SplitSizes(1, None);
    assert Gather([fails]) == Err(7);
    ExecSnoc(s0, None, a[..3], a, a[3]);
    assert s3.sub.err == Some(WasShutDown);
  }

  lemma ExecSnoc<E>(s: Sys<E>, opts: Option<Options>, run: seq<Action<E>>, longer: seq<Action<E>>, a: Action<E>)
    requires longer == run + [a]
    requires Exec(s, opts, run).Some? && Enabled(Exec(s, opts, run).value, opts, a)
    ensures Exec(s, opts, longer) == Some(Step(Exec(s, opts, run).value, opts, a))
  {
    assert longer[..|longer|-1] == run;
  }

  // ---- bounded memory ----------------------------------------------------------------------------

  /** No driver call of the run returned more messages than it was asked for. */
  ghost predicate HonestRun<E>(run: seq<Action<E>>) {
    forall i :: 0 <= i < |run| && run[i].FetchEnds? ==> Honest(run[i].calls)
  }

  /** The amortised invariant: running size plus twenty times the queue at the last measurement. */
  ghost predicate Budget<E>(s: Sys<E>, opts: Option<Options>) {
    if OneByOne(opts) then
      s.sub.running == 1.0 && |s.sub.q| <= if s.fetch.Some? then 0 else 1
    else
      && s.sub.running + 20.0 * s.base as real <= POTENTIAL
      && s.sub.count + |s.sub.q| == s.base + s.gained
      && s.gained <= (if s.fetch.Some? then 0 else 3000)
      && (s.sub.start.None? ==> s.fetch.None? && s.base == s.gained == 0 && s.sub.running == 1.0)
  }

  lemma BudgetStep<E>(s: Sys<E>, opts: Option<Options>, a: Action<E>)
    requires Inv(s) && Budget(s, opts) && Enabled(s, opts, a)
    requires a.FetchEnds? ==> Honest(a.calls)
    ensures Budget(Step(s, opts, a), opts)
  {
    hide TurnStep, Inv, Honest;
    match a
    case Turn(r, done, now) =>
      if s.sub.err.None? && !done && NeedsFetch(s.sub) {
        FetchBudget(s, opts, r, now);
      } else {
        NoFetchBudget(s, opts, r, done, now);
      }
    case FetchEnds(calls) => ArrivalBudget(s, opts, calls);
    case _ =>
  }

  lemma NoFetchBudget<E>(s: Sys<E>, opts: Option<Options>, r: nat, done: bool, now: real)
    requires Budget(s, opts) && r < |s.receivers|
    requires s.sub.err.Some? || done || !NeedsFetch(s.sub)
    ensures Budget(TurnStep(s, opts, r, done, now), opts)
  {
  }

  lemma ArrivalBudget<E>(s: Sys<E>, opts: Option<Options>, calls: seq<Completion<E>>)
    requires Inv(s) && Budget(s, opts) && Enabled(s, opts, FetchEnds(calls)) && Honest(calls)
    ensures Budget(Step(s, opts, FetchEnds(calls)), opts)
  {
    FetchBound(s.fetch.value, opts, calls);
    if OneByOne(opts) {
      OneByOneSplit(s.fetch.value, opts);
    }
    hide SplitSizes, TurnStep, Gather, Honest, Asked;
  }

  lemma OneByOneSplit(n: int, opts: Option<Options>)
    requires OneByOne(opts) && n >= 0
    ensures Sum(SplitSizes(n, opts)) <= 1
  {
    var o := WithDefaults(opts);
    if n >= o.minBatchSize {
      SplitClosedForm(n, opts);
      assert |SplitSizes(n, opts)| <= 1;
    }
  }

  lemma FetchBudget<E>(s: Sys<E>, opts: Option<Options>, r: nat, now: real)
    requires Inv(s) && Budget(s, opts) && r < |s.receivers| && s.receivers[r].Top?
    requires s.sub.err.None? && NeedsFetch(s.sub)
    ensures Budget(TurnStep(s, opts, r, false, now), opts)
  {
    if !OneByOne(opts) {
      if s.sub.start.Some? {
        PotentialStep(s.sub.running, s.base, s.gained, s.sub.count, |s.sub.q|, now - s.sub.start.value);
      }
      hide Adjust, Ideal, Request;
      var t := TurnStep(s, opts, r, false, now);
      assert t.sub.start.Some? && t.base == |s.sub.q| && t.gained == 0;
    }
  }

  lemma {:induction false} RunBudget<E>(s: Sys<E>, opts: Option<Options>, run: seq<Action<E>>)
    requires Inv(s) && Budget(s, opts) && Exec(s, opts, run).Some? && HonestRun(run)
    ensures Budget(Exec(s, opts, run).value, opts)
  {
    hide Inv, Budget, Step, Enabled, Honest;
    if run != [] {
      RunBudget(s, opts, run[..|run|-1]);
      RunKeeps(s, opts, run[..|run|-1]);
      BudgetStep(Exec(s, opts, run[..|run|-1]).value, opts, run[|run|-1]);
    }
  }

  /** Bounded memory: with honest drivers neither the queue nor the running size ever passes a
      constant, however long the run. */
  lemma MemoryBound<E>(opts: Option<Options>, run: seq<Action<E>>)
    requires Exec(Init<E>(), opts, run).Some? && HonestRun(run)
    ensures var s := Exec(Init<E>(), opts, run).value;
            |s.sub.q| <= 147000 && s.sub.running <= POTENTIAL
  {
    assert Inv(Init<E>()) && Budget(Init<E>(), opts);
    RunBudget(Init<E>(), opts, run);
    var s := Exec(Init<E>(), opts, run).value;
    RunKeeps(Init<E>(), opts, run);
    if !OneByOne(opts) {
      assert 20.0 * s.base as real <= POTENTIAL;
      assert s.base <= 144000;
    }
  }

  /** At each measurement running + 20·queue does not grow once running has reached 240000, and is at
      most the constant otherwise. */
  lemma PotentialDoesNotGrow<E>(opts: Option<Options>, run: seq<Action<E>>, r: nat, now: real)
    requires Exec(Init<E>(), opts, run).Some? && HonestRun(run) && !OneByOne(opts)
    requires var s := Exec(Init<E>(), opts, run).value;
             && r < |s.receivers| && s.receivers[r].Top?
             && s.sub.err.None? && s.sub.start.Some? && NeedsFetch(s.sub)
    ensures var s := Exec(Init<E>(), opts, run).value;
            var t := Step(s, opts, Turn(r, false, now));
            var after := t.sub.running + 20.0 * t.base as real;
            && t.base == |s.sub.q|
            && if s.sub.running >= 240000.0 then after <= s.sub.running + 20.0 * s.base as real
               else after <= POTENTIAL
  {
    assert Inv(Init<E>()) && Budget(Init<E>(), opts);
    RunBudget(Init<E>(), opts, run);
    RunKeeps(Init<E>(), opts, run);
    MeasuredPotential(Exec(Init<E>(), opts, run).value, opts, r, now);
  }

  lemma MeasuredPotential<E>(s: Sys<E>, opts: Option<Options>, r: nat, now: real)
    requires Inv(s) && Budget(s, opts) && !OneByOne(opts) && r < |s.receivers| && s.receivers[r].Top?
    requires s.sub.err.None? && s.sub.start.Some? && NeedsFetch(s.sub)
    ensures var t := Step(s, opts, Turn(r, false, now));
            var after := t.sub.running + 20.0 * t.base as real;
            && t.base == |s.sub.q|
            && if s.sub.running >= 240000.0 then after <= s.sub.running + 20.0 * s.base as real
               else after <= POTENTIAL
  {
    PotentialStep(s.sub.running, s.base, s.gained, s.sub.count, |s.sub.q|, now - s.sub.start.value);
    hide Adjust, Ideal, Request;
    assert Step(s, opts, Turn(r, false, now)).sub.running ==
           Adjust(s.sub.running, Ideal(s.sub.count, now - s.sub.start.value));
  }

  // ---- a minimum batch size starves the subscription ----------------------------------------------

  /** Nothing has ever arrived and every request is for one message. */
  ghost predicate Starved<E>(s: Sys<E>) {
    && s.sub.q == [] && s.fetched == [] && s.delivered == []
    && 0.0 < s.sub.running <= 1.0 && s.sub.count == 0
    && (s.fetch.Some? ==> s.fetch.value == 1)
  }

  lemma StarvedStep<E>(s: Sys<E>, opts: Option<Options>, a: Action<E>)
    requires WithDefaults(opts).minBatchSize >= 2
    requires Inv(s) && Starved(s) && Enabled(s, opts, a)
    ensures Starved(Step(s, opts, a))
  {
    match a
    case Turn(r, done, now) => StarvedTurn(s, opts, r, done, now);
    case FetchEnds(calls) =>
      assert SplitSizes(1, opts) == [];
      NoCalls(calls);
    case _ =>
  }

  lemma StarvedTurn<E>(s: Sys<E>, opts: Option<Options>, r: nat, done: bool, now: real)
    requires Inv(s) && Starved(s) && r < |s.receivers|
    ensures Starved(TurnStep(s, opts, r, done, now))
  {
    StarvedUpdate(s.sub.(waitc := Some(|s.closes|)), opts, now);
    hide Update;
  }

  lemma StarvedUpdate<E>(s: Sub<E, nat>, opts: Option<Options>, now: real)
    requires 0.0 < s.running <= 1.0 && s.count == 0
    ensures var (t, n) := Update(s, opts, now);
            && n == 1 && 0.0 < t.running <= 1.0
            && t == s.(running := t.running, start := t.start)
  {
    if s.start.Some? {
      IdleRate(now - s.start.value);
    }
    hide Ideal;
  }

  lemma IdleRate(elapsed: real)
    ensures Ideal(0, elapsed) == 0.0
  {
  }

  lemma {:induction false} RunStarved<E>(s: Sys<E>, opts: Option<Options>, run: seq<Action<E>>)
    requires WithDefaults(opts).minBatchSize >= 2
    requires Inv(s) && Starved(s) && Exec(s, opts, run).Some?
    ensures Starved(Exec(s, opts, run).value)
  {
    hide Inv, Starved, Step, Enabled;
    if run != [] {
      RunStarved(s, opts, run[..|run|-1]);
      RunKeeps(s, opts, run[..|run|-1]);
      StarvedStep(Exec(s, opts, run[..|run|-1]).value, opts, run[|run|-1]);
    }
  }

  /** A fetch makes a driver call exactly when the minimum batch size is 1.  With a larger minimum the
      size never leaves 1, Split of 1 is empty, and no event is ever delivered. */
  lemma FetchesNeedMinimumOne<E>(opts: Option<Options>, run: seq<Action<E>>)
    requires Exec(Init<E>(), opts, run).Some?
    ensures var s := Exec(Init<E>(), opts, run).value;
            var min := WithDefaults(opts).minBatchSize;
            && (s.fetch.Some? ==> (SplitSizes(s.fetch.value, opts) != [] <==> min == 1))
            && (min >= 2 ==> s.delivered == [] && s.fetched == [])
  {
    assert Inv(Init<E>());
    RunKeeps(Init<E>(), opts, run);
    var s := Exec(Init<E>(), opts, run).value;
    if WithDefaults(opts).minBatchSize >= 2 {
      RunStarved(Init<E>(), opts, run);
    } else if s.fetch.Some? {
      SplitBound(s.fetch.value, opts);
    }
  }
}
