/**
  The delivery subscription: a local queue refilled by at most one background fetch.  Its fields are
  guarded by one mutex, so each method is one critical section; the goroutines' interleavings are in
  SubscriptionSystem.
 */
module Subscription {
  import opened Wrappers
  import opened Batches
  import opened Controller

  /** The permanent error: shut down, or the error a fetch failed with. */
  datatype SubError = WasShutDown | FetchFailed(code: int)

  /** The guarded fields.  `waitc` is the channel of the outstanding fetch; `start` is the time of the
      last throughput measurement, absent before the first. */
  datatype Sub<E, C> = Sub(
    q: seq<E>,
    err: Option<SubError>,
    waitc: Option<C>,
    running: real,
    start: Option<real>,
    count: nat)

  /** How one pass of the Receive loop ends. */
  datatype Outcome<E, C> = Failed(err: SubError) | Cancelled | Received(event: E) | Wait(waitc: Option<C>)

  datatype Passed<E, C> = Passed(sub: Sub<E, C>, fetch: Option<int>, outcome: Outcome<E, C>)

  function Initial<E, C>(): Sub<E, C> {
    Sub([], None, None, INITIAL_BATCH_SIZE, None, 0)
  }

  /** One message at a time by one handler: the size is never adapted. */
  predicate OneByOne(opts: Option<Options>) {
    opts.Some? && opts.value.maxBatchSize == 1 && opts.value.maxHandlers == 1
  }

  function Update<E, C>(s: Sub<E, C>, opts: Option<Options>, now: real): (r: (Sub<E, C>, int)) {
    if OneByOne(opts) then (s, 1)
    else
      var running := if s.start.None? then s.running
                     else Adjust(s.running, Ideal(s.count, now - s.start.value));
      (s.(running := running, start := Some(now), count := 0), Request(running))
  }

  /** An update in numbers: half way from the old size to two seconds' worth at the measured rate, but no
      more than twice and no less than three quarters of the old size; the measurement starts anew, and
      the request is the new size, at most 3000, rounded up. */
  lemma UpdateIs<E, C>(s: Sub<E, C>, opts: Option<Options>, now: real, rate: real)
    requires s.start.Some? ==>
               rate * (if now - s.start.value < 0.1 then 0.1 else now - s.start.value) == s.count as real
    ensures var (t, n) := Update(s, opts, now);
            if opts.Some? && opts.value.maxBatchSize == 1 && opts.value.maxHandlers == 1 then t == s && n == 1
            else
              && t == s.(running := t.running, start := Some(now), count := 0)
              && t.running == (if s.start.None? then s.running else Clamp((s.running + 2.0 * rate) / 2.0, s.running))
              && n as real - 1.0 < (if t.running < 3000.0 then t.running else 3000.0) <= n as real
  {
    if s.start.Some? {
      IdealIsTwoSeconds(s.count, now - s.start.value, rate);
    }
    hide Ideal;
    RequestIsCeiling(Update(s, opts, now).0.running);
    hide Request;
  }

  function Clamp(next: real, before: real): real {
    if next > 2.0 * before then 2.0 * before else if next < 0.75 * before then 0.75 * before else next
  }

  predicate NeedsFetch<E, C>(s: Sub<E, C>) {
    s.waitc.None? && |s.q| as real <= s.running * PREFETCH_RATIO
  }

  /** One pass from the top of the Receive loop: `done` says the caller's context is done, and `made`
      is the channel made if a fetch is started. */
  function Pass<E, C>(s: Sub<E, C>, opts: Option<Options>, done: bool, now: real, made: Option<C>): Passed<E, C> {
    if s.err.Some? then Passed(s, None, Failed(s.err.value))
    else if done then Passed(s, None, Cancelled)
    else
      var (t, fetch) :=
        if NeedsFetch(s) then
          var (u, n) := Update(s.(waitc := made), opts, now);
          (u, Some(n))
        else (s, None);
      if t.q != [] then Passed(t.(q := t.q[1..], count := t.count + 1), fetch, Received(t.q[0]))
      else Passed(t, fetch, Wait(t.waitc))
  }

  /** The end of the background fetch. */
  function Complete<E, C>(s: Sub<E, C>, result: Result<seq<E>, int>): Sub<E, C> {
    match result
    case Err(code) => s.(err := Some(FetchFailed(code)), waitc := None)
    case Ok(msgs) => s.(q := s.q + msgs, waitc := None)
  }

  /** Closed to wake every receiver that waits on it. */
  class WaitChan {
    var closed: bool

    constructor ()
      ensures !closed
    {
      closed := false;
    }

    /** Closing twice panics; the caller shows that it does not. */
    method Close()
      requires !closed
      modifies this
      ensures closed
    {
      closed := true;
    }
  }

  class DeliverySubscription<E> {
    const recvBatchOpts: Option<Options>
    var q: seq<E>
    var err: Option<SubError>
    var waitc: WaitChan?
    var runningBatchSize: real
    var throughputStart: Option<real>
    var throughputCount: nat

    constructor (opts: Option<Options>)
      ensures State() == Initial() && recvBatchOpts == opts
    {
      recvBatchOpts := opts;
      q, err, waitc := [], None, null;
      runningBatchSize, throughputStart, throughputCount := INITIAL_BATCH_SIZE, None, 0;
    }

    function Waiting(): Option<WaitChan>
      reads this
    {
      if waitc == null then None else var c: WaitChan := waitc; Some(c)
    }

    function State(): Sub<E, WaitChan>
      reads this
    {
      Sub(q, err, Waiting(), runningBatchSize, throughputStart, throughputCount)
    }

    method UpdateBatchSize(now: real) returns (n: int)
      modifies this
      ensures (State(), n) == Update(old(State()), recvBatchOpts, now)
    {
      if recvBatchOpts.Some? && recvBatchOpts.value.maxBatchSize == 1 && recvBatchOpts.value.maxHandlers == 1 {
        return 1;
      }
      if throughputStart.Some? {
        var elapsed := now - throughputStart.value;
        if elapsed < MIN_ELAPSED {
          elapsed := MIN_ELAPSED;
        }
        var msgsPerSec := throughputCount as real / elapsed;
        var idealBatchSize := DESIRED_QUEUE_SECONDS * msgsPerSec;
        var newBatchSize := runningBatchSize * (1.0 - DECAY) + idealBatchSize * DECAY;
        var max, min := runningBatchSize * MAX_GROWTH, runningBatchSize * MAX_SHRINK;
        if newBatchSize > max {
          runningBatchSize := max;
        } else if newBatchSize < min {
          runningBatchSize := min;
        } else {
          runningBatchSize := newBatchSize;
        }
      }
      throughputStart := Some(now);
      throughputCount := 0;
      return Ceil(if runningBatchSize < MAX_BATCH then runningBatchSize else MAX_BATCH);
    }

    /** One pass of the Receive loop, up to its return or to the point where it waits unlocked. */
    method ReceivePass(done: bool, now: real) returns (fetch: Option<int>, outcome: Outcome<E, WaitChan>)
      modifies this
      ensures fetch.Some? ==> waitc != null && fresh(waitc) && !waitc.closed
      ensures Passed(State(), fetch, outcome) ==
              Pass(old(State()), recvBatchOpts, done, now, if fetch.Some? then State().waitc else None)
    {
      fetch := None;
      if err.Some? {
        return fetch, Failed(err.value);
      }
      if done {
        return fetch, Cancelled;
      }
      if waitc == null && |q| as real <= runningBatchSize * PREFETCH_RATIO {
        waitc := new WaitChan();
        var batchSize := UpdateBatchSize(now);
        fetch := Some(batchSize);
      }
      if |q| > 0 {
        var m := q[0];
        q := q[1..];
        throughputCount := throughputCount + 1;
        return fetch, Received(m);
      }
      return fetch, Wait(Waiting());
    }

    /** What the fetch goroutine does once it has its result. */
    method CompleteFetch(result: Result<seq<E>, int>)
      requires waitc != null && !waitc.closed
      modifies this, waitc
      ensures State() == Complete(old(State()), result)
      ensures old(waitc).closed
    {
      match result {
        case Err(code) => err := Some(FetchFailed(code));
        case Ok(msgs) =>
          if |msgs| > 0 {
            q := q + msgs;
          }
      }
      waitc.Close();
      waitc := null;
    }

    /** The critical section of Shutdown; `again` says it had been called before. */
    method Shutdown() returns (again: bool)
      modifies this
      ensures again == (old(err) == Some(WasShutDown))
      ensures State() == old(State()).(err := Some(WasShutDown))
    {
      if err == Some(WasShutDown) {
        return true;
      }
      err := Some(WasShutDown);
      return false;
    }

    /** `driver` answers the k-th call, made for so many messages, after its retries; the calls complete
        in `order`. */
    method GetNextBatch(nMessages: int, driver: (nat, int) -> Result<seq<E>, int>, order: seq<nat>)
      returns (r: Result<seq<E>, int>)
      requires IsOrder(order, |SplitSizes(nMessages, recvBatchOpts)|)
      ensures var cs := Completions(SplitSizes(nMessages, recvBatchOpts), driver, order);
              r == Gather(cs) && multiset(Asked(cs)) == multiset(SplitSizes(nMessages, recvBatchOpts))
    {
      var batches := Split(nMessages, recvBatchOpts);
      ghost var cs := Completions(batches, driver, order);
      var msgs: seq<E> := [];
      var firstErr: Option<int> := None;
      for i := 0 to |order|
        invariant Gather(cs[..i]) == if firstErr.Some? then Err(firstErr.value) else Ok(msgs)
      {
        assert cs[..i+1][..i] == cs[..i];
        OrderInRange(order, |batches|, i);
        match driver(order[i], batches[order[i]]) {
          case Err(code) =>
            if firstErr.None? {
              firstErr := Some(code);
            }
          case Ok(ms) => msgs := msgs + ms;
        }
      }
      assert cs[..|order|] == cs;
      EveryBatchAsked(batches, driver, order);
      return if firstErr.Some? then Err(firstErr.value) else Ok(msgs);
    }
  }

  /** The numbers below n, each once, in any order. */
  predicate IsOrder(order: seq<nat>, n: nat) {
    multiset(order) == multiset(Upto(n))
  }

  function Upto(n: nat): (u: seq<nat>)
    ensures |u| == n && forall i :: 0 <= i < n ==> u[i] == i
  {
    seq(n, i => i)
  }

  lemma OrderInRange(order: seq<nat>, n: nat, i: nat)
    requires IsOrder(order, n) && i < |order|
    ensures order[i] < n
  {
    assert order[i] in multiset(Upto(n));
  }

  /** One driver call: how many messages it was asked for and how it ended, after retries. */
  datatype Completion<E> = Completion(asked: int, result: Result<seq<E>, int>)

  /** The calls for the batches, in the order they complete. */
  function Completions<E>(batches: seq<int>, driver: (nat, int) -> Result<seq<E>, int>, order: seq<nat>)
    : (cs: seq<Completion<E>>)
    requires IsOrder(order, |batches|)
    ensures |cs| == |order|
  {
    seq(|order|, i requires 0 <= i < |order| =>
      OrderInRange(order, |batches|, i);
      Completion(batches[order[i]], driver(order[i], batches[order[i]])))
  }

  function Asked<E>(cs: seq<Completion<E>>): seq<int> {
    seq(|cs|, i requires 0 <= i < |cs| => cs[i].asked)
  }

  /** The first error, or all messages in completion order. */
  function Gather<E>(cs: seq<Completion<E>>): Result<seq<E>, int> {
    if cs == [] then Ok([])
    else
      var before, last := Gather(cs[..|cs|-1]), cs[|cs|-1].result;
      if before.Err? then before
      else if last.Err? then Err(last.error)
      else Ok(before.value + last.value)
  }

  /** The messages of the calls that succeeded, in order. */
  function Messages<E>(cs: seq<Completion<E>>): seq<E> {
    if cs == [] then []
    else (if cs[0].result.Ok? then cs[0].result.value else []) + Messages(cs[1..])
  }

  lemma {:induction false} MessagesSnoc<E>(cs: seq<Completion<E>>, c: Completion<E>)
    ensures Messages(cs + [c]) == Messages(cs) + if c.result.Ok? then c.result.value else []
  {
    if cs == [] {
      assert [c][1..] == [];
    } else {
      assert (cs + [c])[1..] == cs[1..] + [c];
      MessagesSnoc(cs[1..], c);
    }
  }

  /** A fetch succeeds exactly when all its calls do, with all their messages; otherwise it fails with
      the error of the call that failed first. */
  lemma {:induction false} GatherIs<E>(cs: seq<Completion<E>>)
    ensures Gather(cs).Ok? <==> forall i :: 0 <= i < |cs| ==> cs[i].result.Ok?
    ensures Gather(cs).Ok? ==> Gather(cs).value == Messages(cs)
    ensures Gather(cs).Err? ==>
      exists i :: 0 <= i < |cs| && cs[i].result == Err(Gather(cs).error) &&
        forall j :: 0 <= j < i ==> cs[j].result.Ok?
  {
    if cs != [] {
      var before, last := cs[..|cs|-1], cs[|cs|-1];
      GatherIs(before);
      assert cs == before + [last];
      MessagesSnoc(before, last);
      if Gather(before).Err? {
        var i :| 0 <= i < |before| && before[i].result == Err(Gather(before).error) &&
                 forall j :: 0 <= j < i ==> before[j].result.Ok?;
        assert cs[i] == before[i];
      } else {
        assert forall i :: 0 <= i < |before| ==> cs[i] == before[i];
      }
    }
  }

  /** Whatever the order, the calls ask for exactly the batches. */
  lemma {:induction false} EveryBatchAsked<E>(batches: seq<int>, driver: (nat, int) -> Result<seq<E>, int>,
                                              order: seq<nat>)
    requires IsOrder(order, |batches|)
    ensures multiset(Asked(Completions(batches, driver, order))) == multiset(batches)
  {
    forall i | 0 <= i < |order| ensures order[i] < |batches| {
      OrderInRange(order, |batches|, i);
    }
    assert Asked(Completions(batches, driver, order)) == Pick(batches, order);
    assert Pick(batches, Upto(|batches|)) == batches;
    PickReordered(batches, order, Upto(|batches|));
  }

  function Pick(s: seq<int>, places: seq<nat>): seq<int>
    requires forall i :: 0 <= i < |places| ==> places[i] < |s|
  {
    seq(|places|, i requires 0 <= i < |places| => s[places[i]])
  }

  /** A place of a's first element in a reordering of a, and what is left without it. */
  lemma Elsewhere<T>(a: seq<T>, b: seq<T>) returns (i: nat)
    requires a != [] && multiset(a) == multiset(b)
    ensures i < |b| && b[i] == a[0] && multiset(a[1..]) == multiset(b[..i] + b[i+1..])
  {
    assert a[0] in multiset(b);
    i :| 0 <= i < |b| && b[i] == a[0];
    Without(a, 0);
    Without(b, i);
    assert a[..0] + a[1..] == a[1..];
  }

  lemma Without<T>(s: seq<T>, i: nat)
    requires i < |s|
    ensures multiset(s[..i] + s[i+1..]) == multiset(s) - multiset{s[i]}
  {
    assert s == s[..i] + [s[i]] + s[i+1..];
  }

  lemma {:induction false} PickReordered(s: seq<int>, a: seq<nat>, b: seq<nat>)
    requires forall i :: 0 <= i < |a| ==> a[i] < |s|
    requires forall i :: 0 <= i < |b| ==> b[i] < |s|
    requires multiset(a) == multiset(b)
    ensures multiset(Pick(s, a)) == multiset(Pick(s, b))
  {
    if a == [] {
      assert |b| == |multiset(b)| == 0;
    } else {
      var i := Elsewhere(a, b);
      var fewer := b[..i] + b[i+1..];
      PickReordered(s, a[1..], fewer);
      assert Pick(s, a) == [s[a[0]]] + Pick(s, a[1..]);
      assert Pick(s, b) == Pick(s, b[..i]) + [s[b[i]]] + Pick(s, b[i+1..]);
      assert Pick(s, fewer) == Pick(s, b[..i]) + Pick(s, b[i+1..]);
    }
  }

  /** The assumption about drivers: no call returns more messages than it was asked for. */
  ghost predicate Honest<E>(cs: seq<Completion<E>>) {
    forall i :: 0 <= i < |cs| && cs[i].result.Ok? ==> |cs[i].result.value| <= cs[i].asked
  }

  /** With honest drivers a fetch brings in no more messages than were requested, in whatever order
      its calls complete. */
  lemma FetchBound<E>(n: int, opts: Option<Options>, cs: seq<Completion<E>>)
    requires n >= 0 && Honest(cs) && multiset(Asked(cs)) == multiset(SplitSizes(n, opts))
    ensures Gather(cs).Ok? ==> |Gather(cs).value| <= Sum(SplitSizes(n, opts)) <= n
  {
    SplitBound(n, opts);
    GatherBound(cs);
    SumOfMultiset(Asked(cs), SplitSizes(n, opts));
  }

  lemma {:induction false} GatherBound<E>(cs: seq<Completion<E>>)
    requires Honest(cs)
    ensures Gather(cs).Ok? ==> |Gather(cs).value| <= Sum(Asked(cs))
  {
    if cs != [] {
      var before := cs[..|cs|-1];
      GatherBound(before);
      assert Asked(cs) == Asked(before) + [cs[|cs|-1].asked];
      SumSnoc(Asked(before), cs[|cs|-1].asked);
    }
  }

  /** A sum does not depend on the order. */
  lemma {:induction false} SumOfMultiset(a: seq<int>, b: seq<int>)
    requires multiset(a) == multiset(b)
    ensures Sum(a) == Sum(b)
  {
    if a == [] {
      assert |b| == |multiset(b)| == 0;
    } else {
      var i := Elsewhere(a, b);
      SumRemove(b, i);
      SumOfMultiset(a[1..], b[..i] + b[i+1..]);
    }
  }

  lemma {:induction false} SumRemove(s: seq<int>, i: nat)
    requires i < |s|
    ensures Sum(s) == s[i] + Sum(s[..i] + s[i+1..])
  {
    if i == 0 {
      assert s[..0] + s[1..] == s[1..];
    } else {
      SumRemove(s[1..], i - 1);
      assert s[1..][..i-1] + s[1..][i..] == (s[..i] + s[i+1..])[1..];
    }
  }
}
