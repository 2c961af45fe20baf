/**
  The batcher under concurrency: every interleaving of adds, handler goroutines, receivers and
  shutdown.  Each step is one atomic action of the code: a critical section of the mutex, one
  channel operation, the return of a handler call, or the wait-group decrement.
 */
module BatcherSystem {
  import opened Wrappers
  import opened Batches
  import opened Batcher

  /** Where a handler goroutine is: in the handler call, sending results and then taking the next
      batch, between the mutex and wg.Done, or finished. */
  datatype Phase = Calling(call: nat) | Replying(call: nat) | Exiting | Gone

  /** One handler call and its history: the batch, where it starts among the accepted items, the
      goroutine making it, the error it returned, and how many waiters have been sent that error. */
  datatype Call<T> = Call(batch: seq<Waiter<T, nat>>, start: nat, owner: nat, result: Option<int>, replied: nat)

  /** A channel of capacity 1: what it holds and everything ever sent on it. */
  datatype Chan = Chan(buf: seq<Reply>, sent: seq<Reply>)

  /** Channels are numbered in the order AddNoWait makes them; `accepted` and `calls` are history. */
  datatype Sys<T> = Sys(
    core: Core<T, nat>,
    gos: seq<Phase>,
    chans: seq<Chan>,
    accepted: seq<Waiter<T, nat>>,
    calls: seq<Call<T>>)

  datatype Action<T> =
    | DoAdd(item: T)
    | Return(g: nat, err: int)
    | Send(g: nat)
    | Take(g: nat)
    | Done(g: nat)
    | DoShutdown
    | Receive(c: nat)

  function Init<T>(): Sys<T> {
    Sys(Core([], 0, false), [], [], [], [])
  }

  /** A goroutine starts (or continues with) the call for a batch just taken off the queue. */
  function Dispatch<T>(s: Sys<T>, g: nat, batch: seq<Waiter<T, nat>>): Sys<T>
    requires g <= |s.gos| && |batch| + |s.core.pending| <= |s.accepted|
  {
    var phase := Calling(|s.calls|);
    s.(gos := if g == |s.gos| then s.gos + [phase] else s.gos[g := phase],
       calls := s.calls + [Call(batch, |s.accepted| - |s.core.pending| - |batch|, g, None, 0)])
  }

  predicate InCall<T>(s: Sys<T>, g: nat) {
    && g < |s.gos|
    && (s.gos[g].Calling? || s.gos[g].Replying?)
    && s.gos[g].call < |s.calls|
  }

  predicate Enabled<T>(s: Sys<T>, a: Action<T>) {
    match a
    case DoAdd(_) => |s.core.pending| <= |s.accepted|
    case Return(g, _) => InCall(s, g) && s.gos[g].Calling?
    case Send(g) =>
      && InCall(s, g) && s.gos[g].Replying?
      && var call := s.calls[s.gos[g].call];
      && call.replied < |call.batch| && call.result.Some?
      && call.batch[call.replied].errc < |s.chans|
      && |s.chans[call.batch[call.replied].errc].buf| < 1
    case Take(g) =>
      && InCall(s, g) && s.gos[g].Replying?
      && s.calls[s.gos[g].call].replied == |s.calls[s.gos[g].call].batch|
      && s.core.nHandlers > 0 && |s.core.pending| <= |s.accepted|
    case Done(g) => g < |s.gos| && s.gos[g].Exiting?
    case DoShutdown => true
    case Receive(c) => c < |s.chans| && s.chans[c].buf != []
  }

  function Step<T>(cfg: Config<T>, s: Sys<T>, a: Action<T>): Sys<T>
    requires Enabled(s, a)
  {
    match a
    case DoAdd(item) =>
      var w := Waiter(item, |s.chans|);
      var r := Add(cfg, s.core, w);
      if r.refused.Some? then
        var reply := [Refused(r.refused.value)];
        s.(chans := s.chans + [Chan(reply, reply)])
      else
        var t := s.(core := r.core, chans := s.chans + [Chan([], [])], accepted := s.accepted + [w]);
        if r.batch.Some? then Dispatch(t, |t.gos|, r.batch.value) else t
    case Return(g, err) =>
      var c := s.gos[g].call;
      s.(gos := s.gos[g := Replying(c)], calls := s.calls[c := s.calls[c].(result := Some(err))])
    case Send(g) =>
      var c := s.gos[g].call;
      var call := s.calls[c];
      var id := call.batch[call.replied].errc;
      var reply := [Answer(c, call.result.value)];
      s.(chans := s.chans[id := Chan(s.chans[id].buf + reply, s.chans[id].sent + reply)],
         calls := s.calls[c := call.(replied := call.replied + 1)])
    case Take(g) =>
      var (core, batch) := TakeNext(cfg, s.core);
      if batch.Some? then Dispatch(s.(core := core), g, batch.value)
      else s.(core := core, gos := s.gos[g := Exiting])
    case Done(g) => s.(gos := s.gos[g := Gone])
    case DoShutdown => s.(core := s.core.(shutdown := true))
    case Receive(c) => s.(chans := s.chans[c := s.chans[c].(buf := [])])
  }

  /** The state after a run from s, if every action was possible in its turn. */
  function Exec<T>(cfg: Config<T>, s: Sys<T>, run: seq<Action<T>>): Option<Sys<T>> {
    if run == [] then Some(s)
    else
      var before := Exec(cfg, s, run[..|run|-1]);
      if before.Some? && Enabled(before.value, run[|run|-1])
      then Some(Step(cfg, before.value, run[|run|-1]))
      else None
  }

  // ---- the invariant -----------------------------------------------------------------------

  /** Accepted waiters have increasing, existing channels; the pending ones are the last of them. */
  ghost predicate Queue<T>(s: Sys<T>) {
    && |s.core.pending| <= |s.accepted|
    && s.core.pending == s.accepted[|s.accepted| - |s.core.pending|..]
    && (forall i :: 0 <= i < |s.accepted| ==> s.accepted[i].errc < |s.chans|)
    && (forall i, j :: 0 <= i < j < |s.accepted| ==> s.accepted[i].errc < s.accepted[j].errc)
  }

  /** Each call's batch is a nonempty stretch of the accepted items; stretches follow each other and
      stop where the pending items start. */
  ghost predicate Stretches<T>(s: Sys<T>) {
    && (forall c :: 0 <= c < |s.calls| ==>
          && s.calls[c].batch != []
          && s.calls[c].start + |s.calls[c].batch| + |s.core.pending| <= |s.accepted|
          && s.calls[c].batch == s.accepted[s.calls[c].start..][..|s.calls[c].batch|])
    && (forall c, d :: 0 <= c < d < |s.calls| ==>
          s.calls[c].start + |s.calls[c].batch| <= s.calls[d].start)
  }

  /** A goroutine in a call owns it, and a call whose owner has left it is completely answered. */
  ghost predicate Owners<T>(s: Sys<T>) {
    && (forall g :: 0 <= g < |s.gos| && (s.gos[g].Calling? || s.gos[g].Replying?) ==>
          && s.gos[g].call < |s.calls|
          && s.calls[s.gos[g].call].owner == g
          && (s.gos[g].Calling? <==> s.calls[s.gos[g].call].result == None))
    && (forall c :: 0 <= c < |s.calls| ==>
          && s.calls[c].replied <= |s.calls[c].batch|
          && (s.calls[c].result == None ==> s.calls[c].replied == 0)
          && (|| Owned(s, c)
              || (s.calls[c].result.Some? && s.calls[c].replied == |s.calls[c].batch|)))
  }

  ghost predicate Owned<T>(s: Sys<T>, c: nat)
    requires c < |s.calls|
  {
    var g := s.calls[c].owner;
    g < |s.gos| && (s.gos[g] == Calling(c) || s.gos[g] == Replying(c))
  }

  ghost function Expected<T>(call: Call<T>, c: nat, i: nat): seq<Reply> {
    if i < call.replied && call.result.Some? then [Answer(c, call.result.value)] else []
  }

  /** What was sent on each channel: nothing yet, or one reply; a waiter's reply is its own call's. */
  ghost predicate Replies<T>(s: Sys<T>) {
    && (forall id :: 0 <= id < |s.chans| ==>
          |s.chans[id].sent| <= 1 && (s.chans[id].buf == [] || s.chans[id].buf == s.chans[id].sent))
    && (forall c, i :: 0 <= c < |s.calls| && 0 <= i < |s.calls[c].batch| ==>
          && s.calls[c].batch[i].errc < |s.chans|
          && s.chans[s.calls[c].batch[i].errc].sent == Expected(s.calls[c], c, i))
    && (forall i :: 0 <= i < |s.core.pending| ==>
          s.core.pending[i].errc < |s.chans| && s.chans[s.core.pending[i].errc].sent == [])
  }

  function Active(gos: seq<Phase>): nat {
    if gos == [] then 0
    else Active(gos[..|gos|-1]) + if Counted(gos[|gos|-1]) then 1 else 0
  }

  predicate Counted(p: Phase) {
    p.Calling? || p.Replying?
  }

  /** nHandlers counts the goroutines in a call; while one more is allowed, no full batch waits. */
  ghost predicate Busy<T>(cfg: Config<T>, s: Sys<T>) {
    && s.core.nHandlers == Active(s.gos) <= cfg.opts.maxHandlers
    && (s.core.nHandlers < cfg.opts.maxHandlers ==> |s.core.pending| < cfg.opts.minBatchSize)
  }

  /** AddNoWait's size check: no accepted item is over the byte limit on its own. */
  ghost predicate Fits<T>(cfg: Config<T>, s: Sys<T>) {
    cfg.opts.maxBatchByteSize > 0 ==>
      forall i :: 0 <= i < |s.core.pending| ==>
        ItemSize(cfg, s.core.pending[i].item) <= cfg.opts.maxBatchByteSize
  }

  function Dispatched<T>(calls: seq<Call<T>>): seq<Waiter<T, nat>> {
    if calls == [] then [] else Dispatched(calls[..|calls|-1]) + calls[|calls|-1].batch
  }

  /** Dispatched batches in dispatch order, then the pending items, are the accepted items in order. */
  ghost predicate Fifo<T>(s: Sys<T>) {
    Dispatched(s.calls) + s.core.pending == s.accepted
  }

  ghost predicate Inv<T>(cfg: Config<T>, s: Sys<T>) {
    Queue(s) && Stretches(s) && Owners(s) && Replies(s) && Busy(cfg, s) && Fits(cfg, s) && Fifo(s)
  }

  predicate Positive<T>(cfg: Config<T>) {
    cfg.opts.maxHandlers >= 1 && cfg.opts.minBatchSize >= 1
  }

  // ---- counting goroutines --------------------------------------------------------------------

  lemma {:induction false} ActiveUpdate(gos: seq<Phase>, g: nat, p: Phase)
    requires g < |gos|
    ensures Active(gos[g := p]) ==
            Active(gos) - (if Counted(gos[g]) then 1 else 0) + if Counted(p) then 1 else 0
  {
    var n := |gos| - 1;
    if g < n {
      ActiveUpdate(gos[..n], g, p);
      assert gos[g := p][..n] == gos[..n][g := p];
    } else {
      assert gos[g := p][..n] == gos[..n];
    }
  }

  lemma ActiveAppend(gos: seq<Phase>, p: Phase)
    ensures Active(gos + [p]) == Active(gos) + if Counted(p) then 1 else 0
  {
    assert (gos + [p])[..|gos|] == gos;
  }

  lemma {:induction false} ActivePositive(gos: seq<Phase>, g: nat)
    requires g < |gos| && Counted(gos[g])
    ensures Active(gos) > 0
  {
    if g < |gos| - 1 {
      ActivePositive(gos[..|gos|-1], g);
    }
  }

  // ---- every step keeps it -----------------------------------------------------------------

  /** A batch taken from a queue with enough items is nonempty, and shortens it by its length. */
  lemma NextFacts<T>(cfg: Config<T>, pending: seq<Waiter<T, nat>>)
    requires Positive(cfg) && |pending| >= cfg.opts.minBatchSize
    requires cfg.opts.maxBatchByteSize > 0 ==> ItemSize(cfg, pending[0].item) <= cfg.opts.maxBatchByteSize
    ensures var b := Next(cfg, pending);
            b.Some? && b.value != [] && |b.value| <= |pending| && b.value == pending[..|b.value|]
  {
    BatchNonempty(cfg, pending);
  }

  /** Dispatching the first items of the queue keeps the history predicates. */
  lemma DispatchKeeps<T>(s: Sys<T>, g: nat, n: nat, t: Sys<T>)
    requires Queue(s) && Stretches(s) && Owners(s) && Replies(s) && Fifo(s)
    requires 0 < n <= |s.core.pending| && g <= |s.gos|
    requires g < |s.gos| ==> Released(s, g)
    requires t.core.pending == s.core.pending[n..]
    requires t == Dispatch(s.(core := t.core), g, s.core.pending[..n])
    ensures Queue(t) && Stretches(t) && Owners(t) && Replies(t) && Fifo(t)
  {
    assert |s.core.pending| <= |s.accepted|;
    hide Queue, Stretches, Owners, Replies, Fifo;
    DispatchQueue(s, g, n, t);
    DispatchOwners(s, g, n, t);
    DispatchReplies(s, g, n, t);
    DispatchFifo(s, g, n, t);
  }

  lemma DispatchFifo<T>(s: Sys<T>, g: nat, n: nat, t: Sys<T>)
    requires Fifo(s)
    requires 0 < n <= |s.core.pending| <= |s.accepted| && g <= |s.gos|
    requires t.core.pending == s.core.pending[n..]
    requires t == Dispatch(s.(core := t.core), g, s.core.pending[..n])
    ensures Fifo(t)
  {
    var batch, rest := s.core.pending[..n], s.core.pending[n..];
    assert t.calls[..|s.calls|] == s.calls;
    assert Dispatched(t.calls) == Dispatched(s.calls) + batch;
    assert Dispatched(s.calls) + batch + rest == Dispatched(s.calls) + (batch + rest);
  }

  /** g has sent all the results of its call, so it may leave it. */
  ghost predicate Released<T>(s: Sys<T>, g: nat)
    requires g < |s.gos|
  {
    && s.gos[g].Replying? && s.gos[g].call < |s.calls|
    && s.calls[s.gos[g].call].replied == |s.calls[s.gos[g].call].batch|
  }

  lemma DispatchQueue<T>(s: Sys<T>, g: nat, n: nat, t: Sys<T>)
    requires Queue(s) && Stretches(s)
    requires 0 < n <= |s.core.pending| && g <= |s.gos|
    requires t.core.pending == s.core.pending[n..]
    requires t == Dispatch(s.(core := t.core), g, s.core.pending[..n])
    ensures Queue(t) && Stretches(t)
  {
    var k := |s.calls|;
    assert t.calls[k].batch == t.accepted[t.calls[k].start..][..n];
  }

  lemma DispatchOwners<T>(s: Sys<T>, g: nat, n: nat, t: Sys<T>)
    requires Owners(s)
    requires 0 < n <= |s.core.pending| <= |s.accepted| && g <= |s.gos|
    requires g < |s.gos| ==> Released(s, g)
    requires t.core.pending == s.core.pending[n..]
    requires t == Dispatch(s.(core := t.core), g, s.core.pending[..n])
    ensures Owners(t)
  {
    forall c | 0 <= c < |s.calls|
      ensures Owned(t, c) || (s.calls[c].result.Some? && s.calls[c].replied == |s.calls[c].batch|)
    {
      assert t.calls[c] == s.calls[c];
    }
    assert Owned(t, |s.calls|);
  }

  lemma DispatchReplies<T>(s: Sys<T>, g: nat, n: nat, t: Sys<T>)
    requires Replies(s)
    requires 0 < n <= |s.core.pending| <= |s.accepted| && g <= |s.gos|
    requires t.core.pending == s.core.pending[n..]
    requires t == Dispatch(s.(core := t.core), g, s.core.pending[..n])
    ensures Replies(t)
  {
    forall c, i | 0 <= c < |t.calls| && 0 <= i < |t.calls[c].batch|
      ensures t.calls[c].batch[i].errc < |t.chans|
      ensures t.chans[t.calls[c].batch[i].errc].sent == Expected(t.calls[c], c, i)
    {
      if c == |s.calls| {
        assert t.calls[c].batch[i] == s.core.pending[i];
      } else {
        assert t.calls[c] == s.calls[c];
      }
    }
  }

  lemma AddKeeps<T>(cfg: Config<T>, s: Sys<T>, item: T)
    requires Positive(cfg) && Inv(cfg, s)
    ensures Inv(cfg, Step(cfg, s, DoAdd(item)))
  {
    assert Enabled(s, DoAdd(item));
    assert s.core.nHandlers <= cfg.opts.maxHandlers;
    hide Queue, Stretches, Owners, Replies, Fifo, Busy, Fits, Step, Active;
    var w: Waiter<T, nat> := Waiter(item, |s.chans|);
    if s.core.shutdown || 0 < cfg.opts.maxBatchByteSize < ItemSize(cfg, item) {
      RefusedKeeps(cfg, s, item);
    } else {
      EnqueueKeeps(s, w, Enqueued(s, w));
      EnqueueFits(cfg, s, w);
      if s.core.nHandlers < cfg.opts.maxHandlers && |s.core.pending| + 1 >= cfg.opts.minBatchSize {
        StartKeeps(cfg, s, w, Step(cfg, s, DoAdd(item)));
      } else {
        QueueOnly(cfg, s, w);
      }
    }
  }

  lemma RefusedKeeps<T>(cfg: Config<T>, s: Sys<T>, item: T)
    requires Inv(cfg, s) && Enabled(s, DoAdd(item))
    requires s.core.shutdown || 0 < cfg.opts.maxBatchByteSize < ItemSize(cfg, item)
    ensures Inv(cfg, Step(cfg, s, DoAdd(item)))
  {
    hide Queue, Stretches, Owners, Replies, Fifo;
    var w: Waiter<T, nat> := Waiter(item, |s.chans|);
    var t := Step(cfg, s, DoAdd(item));
    RefuseKeeps(s, t, [Refused(Add(cfg, s.core, w).refused.value)]);
    FifoFrame(s, t);
  }

  lemma EnqueueFits<T>(cfg: Config<T>, s: Sys<T>, w: Waiter<T, nat>)
    requires Fits(cfg, s) && !(0 < cfg.opts.maxBatchByteSize < ItemSize(cfg, w.item))
    ensures Fits(cfg, Enqueued(s, w))
  {
  }

  lemma QueueOnly<T>(cfg: Config<T>, s: Sys<T>, w: Waiter<T, nat>)
    requires |s.core.pending| <= |s.accepted| && w.errc == |s.chans| && Busy(cfg, s)
    requires !s.core.shutdown && !(0 < cfg.opts.maxBatchByteSize < ItemSize(cfg, w.item))
    requires s.core.nHandlers >= cfg.opts.maxHandlers || |s.core.pending| + 1 < cfg.opts.minBatchSize
    ensures Step(cfg, s, DoAdd(w.item)) == Enqueued(s, w) && Busy(cfg, Enqueued(s, w))
  {
  }

  function Enqueued<T>(s: Sys<T>, w: Waiter<T, nat>): Sys<T> {
    s.(core := s.core.(pending := s.core.pending + [w]),
       chans := s.chans + [Chan([], [])], accepted := s.accepted + [w])
  }

  /** An add that starts a handler. */
  lemma StartKeeps<T>(cfg: Config<T>, s: Sys<T>, w: Waiter<T, nat>, t: Sys<T>)
    requires Queue(Enqueued(s, w)) && Stretches(Enqueued(s, w)) && Owners(Enqueued(s, w))
    requires Replies(Enqueued(s, w)) && Fifo(Enqueued(s, w)) && Fits(cfg, Enqueued(s, w))
    requires Positive(cfg) && Busy(cfg, s) && s.core.nHandlers < cfg.opts.maxHandlers
    requires |s.core.pending| + 1 >= cfg.opts.minBatchSize && !s.core.shutdown
    requires w == Waiter(w.item, |s.chans|) && !(0 < cfg.opts.maxBatchByteSize < ItemSize(cfg, w.item))
    requires t == Step(cfg, s, DoAdd(w.item))
    ensures Inv(cfg, t)
  {
    hide Queue, Stretches, Owners, Replies, Fifo, BatchLen;
    var q := Enqueued(s, w);
    var n := |Next(cfg, q.core.pending).value|;
    NextFacts(cfg, q.core.pending);
    ActiveAppend(s.gos, Calling(|s.calls|));
    DispatchKeeps(q, |q.gos|, n, t);
  }

  lemma FifoFrame<T>(s: Sys<T>, t: Sys<T>)
    requires Fifo(s) && t.core == s.core && t.calls == s.calls && t.accepted == s.accepted
    ensures Fifo(t)
  {
  }

  lemma EnqueueKeeps<T>(s: Sys<T>, w: Waiter<T, nat>, q: Sys<T>)
    requires Queue(s) && Stretches(s) && Owners(s) && Replies(s) && Fifo(s) && w.errc == |s.chans|
    requires q == Enqueued(s, w)
    ensures Queue(q) && Stretches(q) && Owners(q) && Replies(q) && Fifo(q)
  {
    EnqueueStretches(s, w, q);
    OwnersFrame(s, q);
    EnqueueReplies(s, w, q);
    assert Dispatched(q.calls) + q.core.pending == Dispatched(s.calls) + s.core.pending + [w];
  }

  lemma EnqueueStretches<T>(s: Sys<T>, w: Waiter<T, nat>, q: Sys<T>)
    requires Queue(s) && Stretches(s) && w.errc == |s.chans|
    requires q == Enqueued(s, w)
    ensures Queue(q) && Stretches(q)
  {
    EnqueueQueue(s, w, q);
    hide Queue;
    assert q.core.pending == s.core.pending + [w] && q.accepted == s.accepted + [w];
    forall c | 0 <= c < |s.calls|
      ensures q.calls[c].batch == q.accepted[q.calls[c].start..][..|q.calls[c].batch|]
    {
      SliceKept(s.accepted, w, s.calls[c].start, |s.calls[c].batch|);
    }
  }

  lemma EnqueueQueue<T>(s: Sys<T>, w: Waiter<T, nat>, q: Sys<T>)
    requires Queue(s) && w.errc == |s.chans|
    requires q == Enqueued(s, w)
    ensures Queue(q)
  {
  }

  lemma SliceKept<T>(a: seq<T>, x: T, start: nat, n: nat)
    requires start + n <= |a|
    ensures (a + [x])[start..][..n] == a[start..][..n]
  {
    assert (a + [x])[start..] == a[start..] + [x];
  }

  lemma EnqueueReplies<T>(s: Sys<T>, w: Waiter<T, nat>, q: Sys<T>)
    requires Replies(s) && w.errc == |s.chans|
    requires q == Enqueued(s, w)
    ensures Replies(q)
  {
  }

  lemma OwnersFrame<T>(s: Sys<T>, t: Sys<T>)
    requires Owners(s) && t.gos == s.gos && t.calls == s.calls
    ensures Owners(t)
  {
    assert forall c :: 0 <= c < |s.calls| && Owned(s, c) ==> Owned(t, c);
  }

  lemma RepliesFrame<T>(s: Sys<T>, t: Sys<T>)
    requires Replies(s) && t.core.pending == s.core.pending && t.chans == s.chans && t.calls == s.calls
    ensures Replies(t)
  {
  }

  lemma RefuseKeeps<T>(s: Sys<T>, t: Sys<T>, reply: seq<Reply>)
    requires Queue(s) && Stretches(s) && Owners(s) && Replies(s) && |reply| == 1
    requires t == s.(chans := s.chans + [Chan(reply, reply)])
    ensures Queue(t) && Stretches(t) && Owners(t) && Replies(t)
  {
    hide Owners, Owned;
    OwnersFrame(s, t);
  }

  lemma ReturnKeeps<T>(cfg: Config<T>, s: Sys<T>, g: nat, err: int)
    requires Inv(cfg, s) && Enabled(s, Return(g, err))
    ensures Inv(cfg, Step(cfg, s, Return(g, err)))
  {
    var c := s.gos[g].call;
    var t := Step(cfg, s, Return(g, err));
    ActiveUpdate(s.gos, g, Replying(c));
    assert Busy(cfg, t) && Fits(cfg, t);
    hide Queue, Stretches, Owners, Replies, Busy, Fits, Active;
    SameBatches(s.calls, t.calls);
    SameStretches(s, t);
    ReturnOwners(cfg, s, g, err, t);
    ReturnReplies(cfg, s, g, err, t);
  }

  lemma SameStretches<T>(s: Sys<T>, t: Sys<T>)
    requires Queue(s) && Stretches(s)
    requires t.core == s.core && t.accepted == s.accepted && |t.chans| == |s.chans| && |t.calls| == |s.calls|
    requires forall c :: 0 <= c < |s.calls| ==>
               t.calls[c].batch == s.calls[c].batch && t.calls[c].start == s.calls[c].start
    ensures Queue(t) && Stretches(t)
  {
  }

  lemma ReturnOwners<T>(cfg: Config<T>, s: Sys<T>, g: nat, err: int, t: Sys<T>)
    requires Owners(s) && Enabled(s, Return(g, err)) && t == Step(cfg, s, Return(g, err))
    ensures Owners(t)
  {
    assert forall d :: 0 <= d < |s.calls| && Owned(s, d) ==> Owned(t, d);
  }

  lemma ReturnReplies<T>(cfg: Config<T>, s: Sys<T>, g: nat, err: int, t: Sys<T>)
    requires Owners(s) && Replies(s) && Enabled(s, Return(g, err)) && t == Step(cfg, s, Return(g, err))
    ensures Replies(t)
  {
    forall d, i | 0 <= d < |t.calls| && 0 <= i < |t.calls[d].batch|
      ensures Expected(t.calls[d], d, i) == Expected(s.calls[d], d, i)
    {
    }
  }

  /** Dispatched depends on the batches alone. */
  lemma {:induction false} SameBatches<T>(a: seq<Call<T>>, b: seq<Call<T>>)
    requires |a| == |b| && forall c :: 0 <= c < |a| ==> a[c].batch == b[c].batch
    ensures Dispatched(a) == Dispatched(b)
  {
    if a != [] {
      SameBatches(a[..|a|-1], b[..|b|-1]);
    }
  }

  /** Two places in dispatched batches with the same channel are the same place. */
  lemma OnePlace<T>(s: Sys<T>, c: nat, i: nat, d: nat, j: nat)
    requires Queue(s) && Stretches(s)
    requires c < |s.calls| && i < |s.calls[c].batch| && d < |s.calls| && j < |s.calls[d].batch|
    requires s.calls[c].batch[i].errc == s.calls[d].batch[j].errc
    ensures c == d && i == j
  {
    var x, y := s.calls[c].start + i, s.calls[d].start + j;
    assert s.calls[c].batch[i] == s.accepted[x];
    assert s.calls[d].batch[j] == s.accepted[y];
    assert x == y;
  }

  lemma NotPending<T>(s: Sys<T>, c: nat, i: nat, k: nat)
    requires Queue(s) && Stretches(s)
    requires c < |s.calls| && i < |s.calls[c].batch| && k < |s.core.pending|
    ensures s.calls[c].batch[i].errc != s.core.pending[k].errc
  {
    var x, y := s.calls[c].start + i, |s.accepted| - |s.core.pending| + k;
    assert s.calls[c].batch[i] == s.accepted[x];
    assert s.core.pending[k] == s.accepted[y];
  }

  /** In every state of the invariant a goroutine that still has results to send can send. */
  lemma SendEnabled<T>(s: Sys<T>, g: nat)
    requires Owners(s) && Replies(s)
    requires InCall(s, g) && s.gos[g].Replying?
    requires s.calls[s.gos[g].call].replied < |s.calls[s.gos[g].call].batch|
    ensures Enabled(s, Send(g))
  {
    var c := s.gos[g].call;
    assert s.chans[s.calls[c].batch[s.calls[c].replied].errc].sent == Expected(s.calls[c], c, s.calls[c].replied);
  }

  lemma SendKeeps<T>(cfg: Config<T>, s: Sys<T>, g: nat)
    requires Inv(cfg, s) && Enabled(s, Send(g))
    ensures Inv(cfg, Step(cfg, s, Send(g)))
  {
    var t := Step(cfg, s, Send(g));
    assert Busy(cfg, t) && Fits(cfg, t);
    hide Queue, Stretches, Owners, Replies, Busy, Fits, Active;
    SameBatches(s.calls, t.calls);
    SameStretches(s, t);
    SendOwners(cfg, s, g, t);
    SendReplies(cfg, s, g, t);
  }

  lemma SendOwners<T>(cfg: Config<T>, s: Sys<T>, g: nat, t: Sys<T>)
    requires Owners(s) && Enabled(s, Send(g)) && t == Step(cfg, s, Send(g))
    ensures Owners(t)
  {
    assert forall d :: 0 <= d < |s.calls| && Owned(s, d) ==> Owned(t, d);
  }

  lemma SendReplies<T>(cfg: Config<T>, s: Sys<T>, g: nat, t: Sys<T>)
    requires Queue(s) && Stretches(s) && Replies(s) && Enabled(s, Send(g)) && t == Step(cfg, s, Send(g))
    ensures Replies(t)
  {
    var c := s.gos[g].call;
    var k := s.calls[c].replied;
    var id := s.calls[c].batch[k].errc;
    assert s.chans[id].sent == Expected(s.calls[c], c, k);
    forall d, j | 0 <= d < |t.calls| && 0 <= j < |t.calls[d].batch|
      ensures t.chans[t.calls[d].batch[j].errc].sent == Expected(t.calls[d], d, j)
    {
      assert t.calls[d].batch == s.calls[d].batch;
      if s.calls[d].batch[j].errc == id {
        OnePlace(s, c, k, d, j);
      }
    }
    forall j | 0 <= j < |t.core.pending| ensures t.chans[t.core.pending[j].errc].sent == [] {
      NotPending(s, c, k, j);
    }
  }

  lemma TakeKeeps<T>(cfg: Config<T>, s: Sys<T>, g: nat)
    requires Positive(cfg) && Inv(cfg, s) && Enabled(s, Take(g))
    ensures Inv(cfg, Step(cfg, s, Take(g)))
  {
    hide Queue, Stretches, Owners, Replies, Fifo, Busy, Fits, Step;
    if |s.core.pending| < cfg.opts.minBatchSize {
      TakeNone(cfg, s, g);
    } else {
      TakeSome(cfg, s, g);
    }
  }

  lemma TakeNone<T>(cfg: Config<T>, s: Sys<T>, g: nat)
    requires Inv(cfg, s) && Enabled(s, Take(g)) && |s.core.pending| < cfg.opts.minBatchSize
    ensures Inv(cfg, Step(cfg, s, Take(g)))
  {
    var t := Step(cfg, s, Take(g));
    ActiveUpdate(s.gos, g, Exiting);
    assert Busy(cfg, t) && Fits(cfg, t);
    hide Queue, Stretches, Owners, Replies, Fifo, Busy, Fits, Active;
    LeaveKeeps(s, g, Exiting, t);
    QueueFrame(s, t);
    RepliesFrame(s, t);
  }

  lemma TakeSome<T>(cfg: Config<T>, s: Sys<T>, g: nat)
    requires Positive(cfg) && Inv(cfg, s) && Enabled(s, Take(g)) && |s.core.pending| >= cfg.opts.minBatchSize
    ensures Inv(cfg, Step(cfg, s, Take(g)))
  {
    hide Queue, Stretches, Owners, Replies, Fifo, BatchLen;
    var t := Step(cfg, s, Take(g));
    var n := |Next(cfg, s.core.pending).value|;
    NextFacts(cfg, s.core.pending);
    ActiveUpdate(s.gos, g, Calling(|s.calls|));
    assert Busy(cfg, t) && Fits(cfg, t);
    hide Busy, Fits, Active;
    DispatchKeeps(s, g, n, t);
  }

  lemma QueueFrame<T>(s: Sys<T>, t: Sys<T>)
    requires Queue(s) && Stretches(s) && Fifo(s)
    requires t.core.pending == s.core.pending && t.accepted == s.accepted && t.calls == s.calls
    requires |t.chans| == |s.chans|
    ensures Queue(t) && Stretches(t) && Fifo(t)
  {
  }

  /** A goroutine that has sent all its results, or is exiting, may move on. */
  lemma LeaveKeeps<T>(s: Sys<T>, g: nat, p: Phase, t: Sys<T>)
    requires Owners(s) && g < |s.gos| && (Released(s, g) || s.gos[g].Exiting?)
    requires t == s.(core := t.core, gos := s.gos[g := p]) && !Counted(p)
    ensures Owners(t)
  {
    forall c | 0 <= c < |s.calls|
      ensures Owned(t, c) || (s.calls[c].result.Some? && s.calls[c].replied == |s.calls[c].batch|)
    {
      assert t.calls[c] == s.calls[c];
    }
  }

  lemma DoneKeeps<T>(cfg: Config<T>, s: Sys<T>, g: nat)
    requires Inv(cfg, s) && Enabled(s, Done(g))
    ensures Inv(cfg, Step(cfg, s, Done(g)))
  {
    var t := Step(cfg, s, Done(g));
    hide Queue, Stretches, Owners, Replies, Fifo;
    ActiveUpdate(s.gos, g, Gone);
    LeaveKeeps(s, g, Gone, t);
    QueueFrame(s, t);
    RepliesFrame(s, t);
  }

  lemma QuietKeeps<T>(cfg: Config<T>, s: Sys<T>, a: Action<T>)
    requires Inv(cfg, s) && Enabled(s, a) && (a.DoShutdown? || a.Receive?)
    ensures Inv(cfg, Step(cfg, s, a))
  {
    hide Queue, Stretches, Owners, Replies, Fifo, Busy, Fits, Step, Enabled;
    var t := Step(cfg, s, a);
    QuietFrame(cfg, s, a, t);
    OwnersFrame(s, t);
    QueueFrame(s, t);
    QuietReplies(cfg, s, a, t);
    BusyFrame(cfg, s, t);
  }

  lemma QuietFrame<T>(cfg: Config<T>, s: Sys<T>, a: Action<T>, t: Sys<T>)
    requires Enabled(s, a) && (a.DoShutdown? || a.Receive?) && t == Step(cfg, s, a)
    ensures t.gos == s.gos && t.calls == s.calls && t.accepted == s.accepted && |t.chans| == |s.chans|
    ensures t.core.pending == s.core.pending && t.core.nHandlers == s.core.nHandlers
  {
  }

  lemma BusyFrame<T>(cfg: Config<T>, s: Sys<T>, t: Sys<T>)
    requires Busy(cfg, s) && Fits(cfg, s)
    requires t.gos == s.gos && t.core.pending == s.core.pending && t.core.nHandlers == s.core.nHandlers
    ensures Busy(cfg, t) && Fits(cfg, t)
  {
    hide Active;
  }

  lemma QuietReplies<T>(cfg: Config<T>, s: Sys<T>, a: Action<T>, t: Sys<T>)
    requires Replies(s) && Enabled(s, a) && (a.DoShutdown? || a.Receive?) && t == Step(cfg, s, a)
    ensures Replies(t)
  {
  }

  lemma StepKeeps<T>(cfg: Config<T>, s: Sys<T>, a: Action<T>)
    requires Positive(cfg) && Inv(cfg, s) && Enabled(s, a)
    ensures Inv(cfg, Step(cfg, s, a))
  {
    hide Step, Enabled, Inv;
    match a
    case DoAdd(item) => AddKeeps(cfg, s, item);
    case Return(g, err) => ReturnKeeps(cfg, s, g, err);
    case Send(g) => SendKeeps(cfg, s, g);
    case Take(g) => TakeKeeps(cfg, s, g);
    case Done(g) => DoneKeeps(cfg, s, g);
    case DoShutdown => QuietKeeps(cfg, s, a);
    case Receive(_) => QuietKeeps(cfg, s, a);
  }

  /** Every state of every run satisfies the invariant. */
  lemma {:induction false} RunKeeps<T>(cfg: Config<T>, s: Sys<T>, run: seq<Action<T>>)
    requires Positive(cfg) && Inv(cfg, s) && Exec(cfg, s, run).Some?
    ensures Inv(cfg, Exec(cfg, s, run).value)
  {
    hide Inv, Step, Enabled;
    if run != [] {
      RunKeeps(cfg, s, run[..|run|-1]);
      StepKeeps(cfg, Exec(cfg, s, run[..|run|-1]).value, run[|run|-1]);
    }
  }

  lemma Reached<T>(cfg: Config<T>, run: seq<Action<T>>)
    requires Positive(cfg) && Exec(cfg, Init<T>(), run).Some?
    ensures Inv(cfg, Exec(cfg, Init<T>(), run).value)
  {
    assert Inv(cfg, Init<T>());
    RunKeeps(cfg, Init<T>(), run);
  }

  // ---- results about every run ----------------------------------------------------------------

  /** First in, first out, nothing lost or repeated: in every state of every run the dispatched
      batches, in dispatch order, followed by the pending items are the accepted items in order. */
  lemma FirstInFirstOut<T>(cfg: Config<T>, run: seq<Action<T>>)
    requires Positive(cfg) && Exec(cfg, Init<T>(), run).Some?
    ensures var s := Exec(cfg, Init<T>(), run).value;
            Dispatched(s.calls) + s.core.pending == s.accepted
  {
    Reached(cfg, run);
  }

  /** Exactly once: on a dispatched waiter's channel, nothing has been sent before its own call's
      turn, and afterwards exactly one reply, with that call's error; on a pending waiter's, nothing. */
  lemma RepliedOnce<T>(cfg: Config<T>, run: seq<Action<T>>, c: nat, i: nat)
    requires Positive(cfg) && Exec(cfg, Init<T>(), run).Some?
    ensures var s := Exec(cfg, Init<T>(), run).value;
            && (c < |s.calls| && i < |s.calls[c].batch| ==>
                  var call := s.calls[c];
                  && call.batch[i].errc < |s.chans|
                  && s.chans[call.batch[i].errc].sent ==
                     if i < call.replied && call.result.Some? then [Answer(c, call.result.value)] else [])
            && (i < |s.core.pending| ==>
                  s.core.pending[i].errc < |s.chans| && s.chans[s.core.pending[i].errc].sent == [])
  {
    Reached(cfg, run);
  }

  /** The capacity-1 channel is enough: a handler with results left to send is never blocked. */
  lemma SendNeverBlocks<T>(cfg: Config<T>, run: seq<Action<T>>, g: nat)
    requires Positive(cfg) && Exec(cfg, Init<T>(), run).Some?
    requires var s := Exec(cfg, Init<T>(), run).value;
             && g < |s.gos| && s.gos[g].Replying? && s.gos[g].call < |s.calls|
             && s.calls[s.gos[g].call].replied < |s.calls[s.gos[g].call].batch|
    ensures Enabled(Exec(cfg, Init<T>(), run).value, Send(g))
  {
    Reached(cfg, run);
    SendEnabled(Exec(cfg, Init<T>(), run).value, g);
  }

  /** No stalled work: handlers never exceed the limit, and whenever one more could run there are
      too few pending items for a batch. */
  lemma NoStalledWork<T>(cfg: Config<T>, run: seq<Action<T>>)
    requires Positive(cfg) && Exec(cfg, Init<T>(), run).Some?
    ensures var s := Exec(cfg, Init<T>(), run).value;
            && s.core.nHandlers <= cfg.opts.maxHandlers
            && (s.core.nHandlers < cfg.opts.maxHandlers ==> |s.core.pending| < cfg.opts.minBatchSize)
  {
    Reached(cfg, run);
  }

  // ---- shutdown --------------------------------------------------------------------------------

  /** The wait group is back at zero. */
  predicate AllGone<T>(s: Sys<T>) {
    forall g :: 0 <= g < |s.gos| ==> s.gos[g] == Gone
  }

  lemma {:induction false} GoneIsIdle(gos: seq<Phase>)
    requires forall g :: 0 <= g < |gos| ==> gos[g] == Gone
    ensures Active(gos) == 0
  {
    if gos != [] {
      GoneIsIdle(gos[..|gos|-1]);
    }
  }

  /** When Shutdown can return, every dispatched item has been answered with its own call's error,
      and fewer than MinBatchSize items were never handled: none under the default of 1. */
  lemma ShutdownReturns<T>(cfg: Config<T>, run: seq<Action<T>>)
    requires Positive(cfg) && Exec(cfg, Init<T>(), run).Some?
    requires AllGone(Exec(cfg, Init<T>(), run).value)
    ensures var s := Exec(cfg, Init<T>(), run).value;
            && s.core.nHandlers == 0
            && |s.core.pending| < cfg.opts.minBatchSize
            && (cfg.opts.minBatchSize == 1 ==> Dispatched(s.calls) == s.accepted)
            && forall c, i :: 0 <= c < |s.calls| && 0 <= i < |s.calls[c].batch| ==>
                 && s.calls[c].batch[i].errc < |s.chans| && s.calls[c].result.Some?
                 && s.chans[s.calls[c].batch[i].errc].sent == [Answer(c, s.calls[c].result.value)]
  {
    var s := Exec(cfg, Init<T>(), run).value;
    Reached(cfg, run);
    GoneIsIdle(s.gos);
    forall c | 0 <= c < |s.calls|
      ensures s.calls[c].result.Some? && s.calls[c].replied == |s.calls[c].batch|
    {
      assert !Owned(s, c);
    }
    if cfg.opts.minBatchSize == 1 {
      assert Dispatched(s.calls) + [] == Dispatched(s.calls);
    }
  }

  /** How much a goroutine has left to do before it needs a new batch, or is gone. */
  function Weight<T>(s: Sys<T>, g: nat): nat
    requires g < |s.gos|
  {
    match s.gos[g]
    case Calling(c) => if c < |s.calls| then |s.calls[c].batch| + 3 else 0
    case Replying(c) =>
      if c < |s.calls| && s.calls[c].replied <= |s.calls[c].batch|
      then |s.calls[c].batch| - s.calls[c].replied + 2 else 0
    case Exiting => 1
    case Gone => 0
  }

  function Total(w: seq<nat>): nat {
    if w == [] then 0 else Total(w[..|w|-1]) + w[|w|-1]
  }

  function Weights<T>(s: Sys<T>): seq<nat> {
    seq(|s.gos|, g requires 0 <= g < |s.gos| => Weight(s, g))
  }

  /** Work left once no more items are accepted: three per pending item, and the goroutines' own. */
  function Measure<T>(s: Sys<T>): nat {
    3 * |s.core.pending| + Total(Weights(s))
  }

  lemma {:induction false} TotalUpdate(w: seq<nat>, g: nat, v: nat)
    requires g < |w|
    ensures Total(w[g := v]) == Total(w) - w[g] + v
  {
    var n := |w| - 1;
    if g < n {
      TotalUpdate(w[..n], g, v);
      assert w[g := v][..n] == w[..n][g := v];
    } else {
      assert w[g := v][..n] == w[..n];
    }
  }

  /** The steps of handler goroutines. */
  predicate IsWork<T>(a: Action<T>) {
    a.Return? || a.Send? || a.Take? || a.Done?
  }

  function WorkIn<T>(run: seq<Action<T>>): nat {
    if run == [] then 0
    else WorkIn(run[..|run|-1]) + if IsWork(run[|run|-1]) then 1 else 0
  }

  function Worker<T>(a: Action<T>): nat
    requires IsWork(a)
  {
    match a
    case Return(g, _) => g
    case Send(g) => g
    case Take(g) => g
    case Done(g) => g
  }

  /** A handler step changes the weight of its own goroutine only. */
  lemma WorkWeights<T>(cfg: Config<T>, s: Sys<T>, a: Action<T>)
    requires Positive(cfg) && Inv(cfg, s) && Enabled(s, a) && IsWork(a)
    ensures var t, g := Step(cfg, s, a), Worker(a);
            && g < |s.gos| && |t.gos| == |s.gos|
            && Weights(t) == Weights(s)[g := Weight(t, g)]
  {
    hide Replies, Fifo, Busy, Fits, Stretches, BatchLen;
    var t, g := Step(cfg, s, a), Worker(a);
    forall h | 0 <= h < |s.gos| && h != g ensures Weight(t, h) == Weight(s, h) {
      if s.gos[h].Calling? || s.gos[h].Replying? {
        assert s.calls[s.gos[h].call].owner == h;
      }
    }
  }

  /** Once adds are refused, every handler step uses up some of the measure. */
  lemma WorkDecreases<T>(cfg: Config<T>, s: Sys<T>, a: Action<T>)
    requires Positive(cfg) && Inv(cfg, s) && Enabled(s, a) && IsWork(a)
    ensures Measure(Step(cfg, s, a)) < Measure(s)
  {
    var t, g := Step(cfg, s, a), Worker(a);
    WorkWeights(cfg, s, a);
    hide Weights, Queue, Stretches, Replies, Fifo, BatchLen;
    TotalUpdate(Weights(s), g, Weight(t, g));
    if a.Take? && |s.core.pending| >= cfg.opts.minBatchSize {
      NextFacts(cfg, s.core.pending);
    }
  }

  lemma IdleKeeps<T>(cfg: Config<T>, s: Sys<T>, a: Action<T>)
    requires s.core.shutdown && Enabled(s, a) && !IsWork(a)
    ensures Measure(Step(cfg, s, a)) == Measure(s) && Step(cfg, s, a).core.shutdown
  {
    assert Weights(Step(cfg, s, a)) == Weights(s);
  }

  /** After shutdown the handlers together take at most Measure steps, whatever else happens. */
  lemma {:induction false} DrainBound<T>(cfg: Config<T>, s: Sys<T>, run: seq<Action<T>>)
    requires Positive(cfg) && Inv(cfg, s) && s.core.shutdown && Exec(cfg, s, run).Some?
    ensures var t := Exec(cfg, s, run).value;
            t.core.shutdown && WorkIn(run) + Measure(t) <= Measure(s)
  {
    hide Inv, Step, Enabled, Measure;
    if run != [] {
      var before, a := run[..|run|-1], run[|run|-1];
      DrainBound(cfg, s, before);
      RunKeeps(cfg, s, before);
      var t := Exec(cfg, s, before).value;
      if IsWork(a) {
        WorkDecreases(cfg, t, a);
        WorkKeepsShutdown(cfg, t, a);
      } else {
        IdleKeeps(cfg, t, a);
      }
    }
  }

  lemma WorkKeepsShutdown<T>(cfg: Config<T>, s: Sys<T>, a: Action<T>)
    requires Enabled(s, a) && s.core.shutdown
    ensures Step(cfg, s, a).core.shutdown
  {
  }

  /** A step a goroutine that is not gone can take now. */
  lemma NextStep<T>(cfg: Config<T>, s: Sys<T>, g: nat) returns (a: Action<T>)
    requires Inv(cfg, s) && g < |s.gos| && s.gos[g] != Gone
    ensures IsWork(a) && Worker(a) == g && Enabled(s, a)
  {
    match s.gos[g] {
      case Calling(_) => a := Return(g, 0);
      case Replying(c) =>
        if s.calls[c].replied < |s.calls[c].batch| {
          SendEnabled(s, g);
          a := Send(g);
        } else {
          ActivePositive(s.gos, g);
          a := Take(g);
        }
      case Exiting => a := Done(g);
    }
  }

  /** No handler is ever stuck: each one that is not gone has a step it can take now. */
  lemma HandlerProgress<T>(cfg: Config<T>, run: seq<Action<T>>, g: nat)
    requires Positive(cfg) && Exec(cfg, Init<T>(), run).Some?
    requires var s := Exec(cfg, Init<T>(), run).value; g < |s.gos| && s.gos[g] != Gone
    ensures var s := Exec(cfg, Init<T>(), run).value;
            exists a: Action<T> :: IsWork(a) && Worker(a) == g && Enabled(s, a)
  {
    hide Inv, Enabled;
    Reached(cfg, run);
    var a := NextStep(cfg, Exec(cfg, Init<T>(), run).value, g);
  }

  lemma GoneIsStuck<T>(s: Sys<T>, a: Action<T>)
    requires AllGone(s) && IsWork(a)
    ensures !Enabled(s, a)
  {
  }

  /** No handler can move exactly when all handlers are gone. */
  lemma StuckIsGone<T>(cfg: Config<T>, run: seq<Action<T>>)
    requires Positive(cfg) && Exec(cfg, Init<T>(), run).Some?
    ensures var s := Exec(cfg, Init<T>(), run).value;
            AllGone(s) <==> forall a: Action<T> :: IsWork(a) ==> !Enabled(s, a)
  {
    hide Inv, Enabled, Exec;
    var s := Exec(cfg, Init<T>(), run).value;
    if AllGone(s) {
      forall a: Action<T> | IsWork(a) ensures !Enabled(s, a) {
        GoneIsStuck(s, a);
      }
    } else {
      var g: nat :| g < |s.gos| && s.gos[g] != Gone;
      HandlerProgress(cfg, run, g);
    }
  }

  lemma {:induction false} ExecCons<T>(cfg: Config<T>, s: Sys<T>, a: Action<T>, run: seq<Action<T>>)
    requires Enabled(s, a)
    ensures Exec(cfg, s, [a] + run) == Exec(cfg, Step(cfg, s, a), run)
  {
    hide Enabled, Step;
    var all := [a] + run;
    if run == [] {
      assert all[..0] == [];
      assert Exec(cfg, s, all[..0]) == Some(s);
    } else {
      assert all[..|all|-1] == [a] + run[..|run|-1];
      ExecCons(cfg, s, a, run[..|run|-1]);
    }
  }

  lemma {:induction false} Finish<T>(cfg: Config<T>, s: Sys<T>) returns (run: seq<Action<T>>)
    requires Positive(cfg) && Inv(cfg, s) && s.core.shutdown
    ensures Exec(cfg, s, run).Some? && AllGone(Exec(cfg, s, run).value)
    ensures |run| <= Measure(s) && forall i :: 0 <= i < |run| ==> IsWork(run[i])
    decreases Measure(s)
  {
    hide Inv, Step, Enabled, Measure;
    if AllGone(s) {
      return [];
    }
    var g: nat :| g < |s.gos| && s.gos[g] != Gone;
    var a := NextStep(cfg, s, g);
    StepKeeps(cfg, s, a);
    WorkDecreases(cfg, s, a);
    WorkKeepsShutdown(cfg, s, a);
    var rest := Finish(cfg, Step(cfg, s, a));
    ExecCons(cfg, s, a, rest);
    run := [a] + rest;
  }

  /** Shutdown can always return: from every reachable state after shutdown, handler steps alone, no more
      than the measure, lead to all handlers gone.  With DrainBound and StuckIsGone: every
      continuation in which handlers keep moving gets there. */
  lemma DrainFinishes<T>(cfg: Config<T>, run: seq<Action<T>>) returns (more: seq<Action<T>>)
    requires Positive(cfg) && Exec(cfg, Init<T>(), run).Some? && Exec(cfg, Init<T>(), run).value.core.shutdown
    ensures var s := Exec(cfg, Init<T>(), run).value;
            && Exec(cfg, s, more).Some? && AllGone(Exec(cfg, s, more).value)
            && |more| <= Measure(s) && forall i :: 0 <= i < |more| ==> IsWork(more[i])
  {
    Reached(cfg, run);
    more := Finish(cfg, Exec(cfg, Init<T>(), run).value);
  }

  // ---- the limits on batches -----------------------------------------------------------------------

  /** Every dispatched batch is within the item limit and the byte limit. */
  ghost predicate Capped<T>(cfg: Config<T>, s: Sys<T>) {
    forall c :: 0 <= c < |s.calls| ==> Allowed(cfg, s.calls[c].batch)
  }

  lemma StepCapped<T>(cfg: Config<T>, s: Sys<T>, a: Action<T>)
    requires Capped(cfg, s) && Enabled(s, a)
    ensures Capped(cfg, Step(cfg, s, a))
  {
    hide Allowed;
    match a
    case DoAdd(item) => NextAllowed(cfg, s.core.pending + [Waiter(item, |s.chans|)]);
    case Take(_) => NextAllowed(cfg, s.core.pending);
    case _ =>
  }

  lemma NextAllowed<T>(cfg: Config<T>, pending: seq<Waiter<T, nat>>)
    ensures var b := Next(cfg, pending); b.Some? ==> Allowed(cfg, b.value)
  {
    BatchIsLongest(cfg, pending, BatchLen(cfg, pending));
  }

  lemma {:induction false} RunCapped<T>(cfg: Config<T>, s: Sys<T>, run: seq<Action<T>>)
    requires Capped(cfg, s) && Exec(cfg, s, run).Some?
    ensures Capped(cfg, Exec(cfg, s, run).value)
  {
    hide Capped, Step, Enabled;
    if run != [] {
      RunCapped(cfg, s, run[..|run|-1]);
      StepCapped(cfg, Exec(cfg, s, run[..|run|-1]).value, run[|run|-1]);
    }
  }

  /** No handler call of any run is given more than the limits allow, or nothing. */
  lemma BatchesWithinLimits<T>(cfg: Config<T>, run: seq<Action<T>>, c: nat)
    requires Positive(cfg) && Exec(cfg, Init<T>(), run).Some? && c < |Exec(cfg, Init<T>(), run).value.calls|
    ensures var batch := Exec(cfg, Init<T>(), run).value.calls[c].batch;
            && batch != []
            && (cfg.opts.maxBatchSize > 0 ==> |batch| <= cfg.opts.maxBatchSize)
            && (cfg.opts.maxBatchByteSize > 0 ==> Bytes(cfg, batch) <= cfg.opts.maxBatchByteSize)
  {
    Reached(cfg, run);
    RunCapped(cfg, Init<T>(), run);
  }
}
