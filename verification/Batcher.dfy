/**
  The batcher object.  Its mutable fields are guarded by one mutex, so each method here is one
  critical section; `Core` is their value, and the interleavings are in BatcherSystem.
 */
module Batcher {
  import opened Wrappers
  import opened Batches

  datatype Refusal = ShutDown | TooLarge

  /** What is sent on a waiter's channel: a refusal, or the error value its handler call returned
      (0 stands for nil). */
  datatype Reply = Refused(why: Refusal) | Answer(call: nat, err: int)

  datatype Core<T, C> = Core(pending: seq<Waiter<T, C>>, nHandlers: nat, shutdown: bool)

  /** The effect of one AddNoWait: refused, or queued and possibly the batch of a new handler. */
  datatype Added<T, C> = Added(core: Core<T, C>, refused: Option<Refusal>, batch: Option<seq<Waiter<T, C>>>)

  function Add<T, C>(cfg: Config<T>, core: Core<T, C>, w: Waiter<T, C>): Added<T, C> {
    if core.shutdown then Added(core, Some(ShutDown), None)
    else if 0 < cfg.opts.maxBatchByteSize < ItemSize(cfg, w.item) then Added(core, Some(TooLarge), None)
    else
      var pending := core.pending + [w];
      var batch := Next(cfg, pending);
      if core.nHandlers < cfg.opts.maxHandlers && batch.Some? then
        Added(core.(pending := pending[|batch.value|..], nHandlers := core.nHandlers + 1), None, batch)
      else Added(core.(pending := pending), None, None)
  }

  /** The end of a handler's turn: it takes the next batch or stops being counted. */
  function TakeNext<T, C>(cfg: Config<T>, core: Core<T, C>): (r: (Core<T, C>, Option<seq<Waiter<T, C>>>))
    requires core.nHandlers > 0
  {
    var batch := Next(cfg, core.pending);
    if batch.Some? then (core.(pending := core.pending[|batch.value|..]), batch)
    else (core.(nHandlers := core.nHandlers - 1), None)
  }

  /** A channel of capacity 1. */
  class ErrChan {
    var buf: seq<Reply>

    constructor ()
      ensures buf == []
    {
      buf := [];
    }

    /** Sending blocks while the buffer is full; callers show that it never is. */
    method Send(r: Reply)
      requires |buf| < 1
      modifies this
      ensures buf == old(buf) + [r]
    {
      buf := buf + [r];
    }
  }

  ghost predicate Distinct<T>(batch: seq<Waiter<T, ErrChan>>) {
    forall i, j :: 0 <= i < j < |batch| ==> batch[i].errc != batch[j].errc
  }

  ghost function Channels<T>(batch: seq<Waiter<T, ErrChan>>): set<ErrChan> {
    set i | 0 <= i < |batch| :: batch[i].errc
  }

  class Batcher<!T(!new)> {
    const opts: Options
    const byteSizeFn: Option<T -> nat>
    var pending: seq<Waiter<T, ErrChan>>
    var nHandlers: nat
    var shutdown: bool

    /** New accepts a byte-size function and does not keep it. */
    constructor New(opts: Option<Options>, byteSizeFn: Option<T -> nat>)
      ensures Cfg() == Config(WithDefaults(opts), None)
      ensures State() == Core([], 0, false)
    {
      this.opts := WithDefaults(opts);
      this.byteSizeFn := None;
      pending, nHandlers, shutdown := [], 0, false;
    }

    function Cfg(): Config<T> {
      Config(opts, byteSizeFn)
    }

    function State(): Core<T, ErrChan>
      reads this
    {
      Core(pending, nHandlers, shutdown)
    }

    /** The batch to process, taken off the front of the pending items. */
    method NextBatch() returns (batch: Option<seq<Waiter<T, ErrChan>>>)
      modifies this`pending
      ensures batch == Next(Cfg(), old(pending))
      ensures pending == old(pending)[if batch.Some? then |batch.value| else 0..]
    {
      if |pending| < opts.minBatchSize {
        return None;
      }
      if opts.maxBatchByteSize == 0 && (opts.maxBatchSize == 0 || |pending| <= opts.maxBatchSize) {
        SendItAll(Cfg(), pending);
        var all := pending;
        pending := [];
        assert all[..|all|] == all;
        return Some(all);
      }
      var taken: seq<Waiter<T, ErrChan>> := [];
      var batchByteSize := 0;
      var i := 0;
      while i < |pending|
        invariant 0 <= i <= |pending| && pending == old(pending)
        invariant taken == pending[..i] && batchByteSize == Bytes(Cfg(), taken)
        invariant Allowed(Cfg(), taken)
        invariant Extend(Cfg(), pending, i) == BatchLen(Cfg(), pending)
      {
        var msg := pending[i];
        var itemByteSize := 0;
        if byteSizeFn.Some? {
          itemByteSize := byteSizeFn.value(msg.item);
        }
        BytesSnoc(Cfg(), taken, msg);
        assert pending[..i+1] == taken + [msg];
        var reachedMaxSize := opts.maxBatchSize > 0 && |taken| + 1 > opts.maxBatchSize;
        var reachedMaxByteSize := opts.maxBatchByteSize > 0 && batchByteSize + itemByteSize > opts.maxBatchByteSize;
        if reachedMaxSize || reachedMaxByteSize {
          break;
        }
        taken := taken + [msg];
        batchByteSize := batchByteSize + itemByteSize;
        i := i + 1;
      }
      pending := pending[|taken|..];
      return Some(taken);
    }

    /** One AddNoWait.  The batch, if any, is what the goroutine it starts will handle. */
    method AddNoWait(item: T) returns (c: ErrChan, batch: Option<seq<Waiter<T, ErrChan>>>)
      modifies this
      ensures fresh(c)
      ensures var r := Add(Cfg(), old(State()), Waiter(item, c));
              && State() == r.core && batch == r.batch
              && c.buf == if r.refused.Some? then [Refused(r.refused.value)] else []
    {
      c := new ErrChan();
      batch := None;
      if shutdown {
        c.Send(Refused(ShutDown));
        return;
      }
      if opts.maxBatchByteSize > 0 {
        if byteSizeFn.Some? {
          if byteSizeFn.value(item) > opts.maxBatchByteSize {
            c.Send(Refused(TooLarge));
            return;
          }
        }
      }
      pending := pending + [Waiter(item, c)];
      if nHandlers < opts.maxHandlers {
        batch := NextBatch();
        if batch.Some? {
          nHandlers := nHandlers + 1;
        }
      }
    }

    /** The part of callHandler that follows one handler call: send its error to every waiter of the
        batch, then, atomically, take the next batch or stop. */
    method FinishBatch(batch: seq<Waiter<T, ErrChan>>, call: nat, err: int)
      returns (next: Option<seq<Waiter<T, ErrChan>>>)
      requires nHandlers > 0 && Distinct(batch)
      requires forall i :: 0 <= i < |batch| ==> batch[i].errc.buf == []
      modifies this, Channels(batch)
      ensures forall i :: 0 <= i < |batch| ==> batch[i].errc.buf == [Answer(call, err)]
      ensures var r := TakeNext(Cfg(), old(State())); State() == r.0 && next == r.1
    {
      for i := 0 to |batch|
        invariant State() == old(State())
        invariant forall j :: 0 <= j < i ==> batch[j].errc.buf == [Answer(call, err)]
        invariant forall j :: i <= j < |batch| ==> batch[j].errc.buf == []
      {
        assert batch[i].errc in Channels(batch);
        batch[i].errc.Send(Answer(call, err));
      }
      next := NextBatch();
      if next.None? {
        nHandlers := nHandlers - 1;
      }
    }

    /** The critical section of Shutdown; waiting for the handlers is a step of BatcherSystem. */
    method Shutdown()
      modifies this
      ensures State() == old(State()).(shutdown := true)
    {
      shutdown := true;
    }
  }

  lemma BytesSnoc<T, C>(cfg: Config<T>, batch: seq<Waiter<T, C>>, w: Waiter<T, C>)
    ensures Bytes(cfg, batch + [w]) == Bytes(cfg, batch) + ItemSize(cfg, w.item)
  {
    assert (batch + [w])[..|batch + [w]| - 1] == batch;
  }
}
