/**
  What single steps of the batcher do, in every state, and what becomes of every add.
 */
module BatcherOutcomes {
  import opened Wrappers
  import opened Batches
  import opened Batcher
  import opened BatcherSystem

  // ---- what a step does ----------------------------------------------------------------------------

  /** The queue of t is what is left of `pending` after a new last call took its longest prefix within
      the limits. */
  ghost predicate TookLongest<T>(cfg: Config<T>, s: Sys<T>, t: Sys<T>, g: nat, pending: seq<Waiter<T, nat>>) {
    && |t.calls| == |s.calls| + 1 && t.calls[..|s.calls|] == s.calls
    && var call := t.calls[|s.calls|];
    && call.owner == g && call.result == None && call.replied == 0
    && g < |t.gos| && t.gos[g] == Calling(|s.calls|)
    && call.batch + t.core.pending == pending
    && forall k :: 0 <= k <= |pending| ==> (Allowed(cfg, pending[..k]) <==> k <= |call.batch|)
  }

  /** An add in every state: refused because of the shutdown, refused because the item alone is over the
      byte limit, or accepted at the end of the queue.  An accepted one starts a new handler exactly
      when one more is allowed and enough items are pending. */
  lemma AddIs<T>(cfg: Config<T>, s: Sys<T>, item: T)
    requires Enabled(s, DoAdd(item))
    ensures var t := Step(cfg, s, DoAdd(item));
            var w: Waiter<T, nat> := Waiter(item, |s.chans|);
            var large := cfg.opts.maxBatchByteSize > 0 && cfg.size.Some? &&
                         cfg.size.value(item) > cfg.opts.maxBatchByteSize;
            if s.core.shutdown || large then
              var reply := [Refused(if s.core.shutdown then ShutDown else TooLarge)];
              t == s.(chans := s.chans + [Chan(reply, reply)])
            else
              && t.accepted == s.accepted + [w] && t.chans == s.chans + [Chan([], [])]
              && t.core.shutdown == s.core.shutdown
              && if s.core.nHandlers < cfg.opts.maxHandlers && |s.core.pending| + 1 >= cfg.opts.minBatchSize then
                   && TookLongest(cfg, s, t, |s.gos|, s.core.pending + [w])
                   && t.core.nHandlers == s.core.nHandlers + 1 && |t.gos| == |s.gos| + 1
                 else t.core == s.core.(pending := s.core.pending + [w]) && t.calls == s.calls && t.gos == s.gos
  {
    var w: Waiter<T, nat> := Waiter(item, |s.chans|);
    NextTaken(cfg, s.core.pending + [w]);
    hide BatchLen, Allowed;
  }

  /** A handler that has sent its results takes the next batch if enough items are pending, and leaves
      otherwise. */
  lemma TakeIs<T>(cfg: Config<T>, s: Sys<T>, g: nat)
    requires Enabled(s, Take(g))
    ensures var t := Step(cfg, s, Take(g));
            && t.accepted == s.accepted && t.chans == s.chans && t.core.shutdown == s.core.shutdown
            && if |s.core.pending| >= cfg.opts.minBatchSize then
                 TookLongest(cfg, s, t, g, s.core.pending) && t.core.nHandlers == s.core.nHandlers
               else
                 && t.core == s.core.(nHandlers := s.core.nHandlers - 1)
                 && t.calls == s.calls && t.gos == s.gos[g := Exiting]
  {
    NextTaken(cfg, s.core.pending);
    hide BatchLen, Allowed;
  }

  /** What a handler call returns is its result. */
  lemma ReturnIs<T>(cfg: Config<T>, s: Sys<T>, g: nat, err: int)
    requires Enabled(s, Return(g, err))
    ensures var t, c := Step(cfg, s, Return(g, err)), s.gos[g].call;
            && t == s.(gos := t.gos, calls := t.calls) && |t.calls| == |s.calls| && |t.gos| == |s.gos|
            && t.gos[g] == Replying(c) && t.calls[c] == s.calls[c].(result := Some(err))
            && (forall h :: 0 <= h < |s.gos| && h != g ==> t.gos[h] == s.gos[h])
            && (forall d :: 0 <= d < |s.calls| && d != c ==> t.calls[d] == s.calls[d])
  {
  }

  /** Sending puts exactly the call's result on the channel of the next waiter of its batch. */
  lemma SendIs<T>(cfg: Config<T>, s: Sys<T>, g: nat)
    requires Enabled(s, Send(g))
    ensures var t, c := Step(cfg, s, Send(g)), s.gos[g].call;
            var call := s.calls[c];
            var id := call.batch[call.replied].errc;
            && t == s.(chans := t.chans, calls := t.calls) && |t.chans| == |s.chans| && |t.calls| == |s.calls|
            && t.chans[id].buf == [Answer(c, call.result.value)]
            && t.chans[id].sent == s.chans[id].sent + [Answer(c, call.result.value)]
            && t.calls[c] == call.(replied := call.replied + 1)
            && (forall i :: 0 <= i < |s.chans| && i != id ==> t.chans[i] == s.chans[i])
            && (forall d :: 0 <= d < |s.calls| && d != c ==> t.calls[d] == s.calls[d])
  {
  }

  lemma NextTaken<T>(cfg: Config<T>, pending: seq<Waiter<T, nat>>)
    ensures var b := Next(cfg, pending);
            && (b.Some? <==> |pending| >= cfg.opts.minBatchSize)
            && (b.Some? ==>
                  && |b.value| <= |pending| && b.value + pending[|b.value|..] == pending
                  && forall k :: 0 <= k <= |pending| ==> (Allowed(cfg, pending[..k]) <==> k <= |b.value|))
  {
    hide Next, Allowed;
    NextIs(cfg, pending, 0);
    forall k | 0 <= k <= |pending|
      ensures Next(cfg, pending).Some? ==> (Allowed(cfg, pending[..k]) <==> k <= |Next(cfg, pending).value|)
    {
      NextIs(cfg, pending, k);
    }
  }

  // ---- refusals --------------------------------------------------------------------------------------

  ghost predicate IsAccepted<T>(s: Sys<T>, id: nat) {
    exists i :: 0 <= i < |s.accepted| && s.accepted[i].errc == id
  }

  ghost predicate IsRefused<T>(s: Sys<T>, id: nat)
    requires id < |s.chans|
  {
    s.chans[id].sent == [Refused(ShutDown)] || s.chans[id].sent == [Refused(TooLarge)]
  }

  /** Every channel belongs to an accepted item or holds its refusal. */
  ghost predicate Accounted<T>(s: Sys<T>) {
    forall id :: 0 <= id < |s.chans| ==> IsAccepted(s, id) || IsRefused(s, id)
  }

  lemma StepAccounted<T>(cfg: Config<T>, s: Sys<T>, a: Action<T>)
    requires Inv(cfg, s) && Accounted(s) && Enabled(s, a)
    ensures Accounted(Step(cfg, s, a))
  {
    var t := Step(cfg, s, a);
    forall id | 0 <= id < |t.chans| ensures IsAccepted(t, id) || IsRefused(t, id) {
      match a
      case DoAdd(item) => AddAccounted(cfg, s, item, id);
      case Send(g) => SendAccounted(cfg, s, g, id);
      case _ => OtherAccounted(cfg, s, a, id);
    }
  }

  lemma AddAccounted<T>(cfg: Config<T>, s: Sys<T>, item: T, id: nat)
    requires Accounted(s) && Enabled(s, DoAdd(item)) && id < |Step(cfg, s, DoAdd(item)).chans|
    ensures var t := Step(cfg, s, DoAdd(item)); IsAccepted(t, id) || IsRefused(t, id)
  {
    var t := Step(cfg, s, DoAdd(item));
    AddIs(cfg, s, item);
    hide Step, TookLongest;
    if id < |s.chans| {
      if IsAccepted(s, id) {
        var i :| 0 <= i < |s.accepted| && s.accepted[i].errc == id;
        assert t.accepted[i].errc == id;
      }
    } else if |t.accepted| > |s.accepted| {
      assert t.accepted[|s.accepted|].errc == id;
    }
  }

  lemma SendAccounted<T>(cfg: Config<T>, s: Sys<T>, g: nat, id: nat)
    requires Inv(cfg, s) && Accounted(s) && Enabled(s, Send(g)) && id < |s.chans|
    ensures var t := Step(cfg, s, Send(g)); |t.chans| == |s.chans| && (IsAccepted(t, id) || IsRefused(t, id))
  {
    var t := Step(cfg, s, Send(g));
    var call := s.calls[s.gos[g].call];
    DispatchedIsAccepted(cfg, s, s.gos[g].call, call.replied);
    hide Inv;
    if IsAccepted(s, id) {
      var i :| 0 <= i < |s.accepted| && s.accepted[i].errc == id;
      assert t.accepted[i].errc == id;
    }
  }

  lemma DispatchedIsAccepted<T>(cfg: Config<T>, s: Sys<T>, c: nat, i: nat)
    requires Inv(cfg, s) && c < |s.calls| && i < |s.calls[c].batch|
    ensures IsAccepted(s, s.calls[c].batch[i].errc)
  {
    assert s.calls[c].batch[i] == s.accepted[s.calls[c].start + i];
  }

  lemma OtherAccounted<T>(cfg: Config<T>, s: Sys<T>, a: Action<T>, id: nat)
    requires Accounted(s) && Enabled(s, a) && !a.DoAdd? && !a.Send? && id < |s.chans|
    ensures var t := Step(cfg, s, a); |t.chans| == |s.chans| && (IsAccepted(t, id) || IsRefused(t, id))
  {
    var t := Step(cfg, s, a);
    if IsAccepted(s, id) {
      var i :| 0 <= i < |s.accepted| && s.accepted[i].errc == id;
      assert t.accepted[i].errc == id;
    }
  }

  lemma {:induction false} RunAccounted<T>(cfg: Config<T>, s: Sys<T>, run: seq<Action<T>>)
    requires Positive(cfg) && Inv(cfg, s) && Accounted(s) && Exec(cfg, s, run).Some?
    ensures Accounted(Exec(cfg, s, run).value)
  {
    hide Inv, Accounted, Step, Enabled;
    if run != [] {
      RunAccounted(cfg, s, run[..|run|-1]);
      RunKeeps(cfg, s, run[..|run|-1]);
      StepAccounted(cfg, Exec(cfg, s, run[..|run|-1]).value, run[|run|-1]);
    }
  }

  /** Nothing else ever happens to an add: in every reachable state each channel is that of exactly one
      accepted item, or it was sent exactly its refusal; with RepliedOnce, never both. */
  lemma EveryAddAccounted<T>(cfg: Config<T>, run: seq<Action<T>>, id: nat)
    requires Positive(cfg) && Exec(cfg, Init<T>(), run).Some?
    requires id < |Exec(cfg, Init<T>(), run).value.chans|
    ensures var s := Exec(cfg, Init<T>(), run).value;
            && (IsAccepted(s, id) <==> !IsRefused(s, id))
            && forall i, j :: 0 <= i < j < |s.accepted| ==> s.accepted[i].errc != s.accepted[j].errc
  {
    hide Inv, IsAccepted, IsRefused;
    var s := Exec(cfg, Init<T>(), run).value;
    assert Inv(cfg, Init<T>()) by { Reached(cfg, []); }
    Reached(cfg, run);
    RunAccounted(cfg, Init<T>(), run);
    OneOrTheOther(cfg, s, id);
    OwnChannels(cfg, s);
  }

  lemma OneOrTheOther<T>(cfg: Config<T>, s: Sys<T>, id: nat)
    requires Inv(cfg, s) && Accounted(s) && id < |s.chans|
    ensures IsAccepted(s, id) <==> !IsRefused(s, id)
  {
    hide Inv, IsRefused;
    if IsAccepted(s, id) {
      var i :| 0 <= i < |s.accepted| && s.accepted[i].errc == id;
      AcceptedNotRefused(cfg, s, i);
    }
  }

  lemma OwnChannels<T>(cfg: Config<T>, s: Sys<T>)
    requires Inv(cfg, s)
    ensures forall i, j :: 0 <= i < j < |s.accepted| ==> s.accepted[i].errc != s.accepted[j].errc
  {
    hide Stretches, Owners, Replies, Busy, Fits, Fifo;
  }

  lemma AcceptedNotRefused<T>(cfg: Config<T>, s: Sys<T>, i: nat)
    requires Inv(cfg, s) && i < |s.accepted|
    ensures s.accepted[i].errc < |s.chans| && !IsRefused(s, s.accepted[i].errc)
  {
    hide Queue, Stretches, Owners, Busy, Fits, Replies;
    var n := |Dispatched(s.calls)|;
    assert s.accepted == Dispatched(s.calls) + s.core.pending;
    if i >= n {
      PendingNotRefused(s, i - n);
    } else {
      var c, k := FindDispatched(s.calls, i);
      DispatchedNotRefused(s, c, k);
    }
  }

  lemma PendingNotRefused<T>(s: Sys<T>, k: nat)
    requires Replies(s) && k < |s.core.pending|
    ensures s.core.pending[k].errc < |s.chans| && !IsRefused(s, s.core.pending[k].errc)
  {
  }

  lemma DispatchedNotRefused<T>(s: Sys<T>, c: nat, k: nat)
    requires Replies(s) && c < |s.calls| && k < |s.calls[c].batch|
    ensures s.calls[c].batch[k].errc < |s.chans| && !IsRefused(s, s.calls[c].batch[k].errc)
  {
    assert s.chans[s.calls[c].batch[k].errc].sent == Expected(s.calls[c], c, k);
  }

  lemma {:induction false} FindDispatched<T>(calls: seq<Call<T>>, i: nat) returns (c: nat, k: nat)
    requires i < |Dispatched(calls)|
    ensures c < |calls| && k < |calls[c].batch| && calls[c].batch[k] == Dispatched(calls)[i]
  {
    var n := |calls| - 1;
    var before := Dispatched(calls[..n]);
    if i < |before| {
      c, k := FindDispatched(calls[..n], i);
    } else {
      c, k := n, i - |before|;
    }
  }
}
