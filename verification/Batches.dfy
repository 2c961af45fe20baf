/**
  How the batcher sizes batches: Split, and the prefix of the pending items that nextBatch takes.
 */
module Batches {
  import opened Wrappers

  /** Zero means: one handler, a minimum of one item, no item limit, no byte limit. */
  datatype Options = Options(maxHandlers: nat, minBatchSize: nat, maxBatchSize: nat, maxBatchByteSize: nat)

  function WithDefaults(opts: Option<Options>): (o: Options)
    ensures o.maxHandlers >= 1 && o.minBatchSize >= 1
    ensures opts.None? ==> o == Options(1, 1, 0, 0)
    ensures opts.Some? && opts.value.maxHandlers > 0 ==> o.maxHandlers == opts.value.maxHandlers
    ensures opts.Some? && opts.value.minBatchSize > 0 ==> o.minBatchSize == opts.value.minBatchSize
    ensures opts.Some? ==>
      o.maxBatchSize == opts.value.maxBatchSize && o.maxBatchByteSize == opts.value.maxBatchByteSize
  {
    var o := if opts.Some? then opts.value else Options(0, 0, 0, 0);
    o.(maxHandlers := if o.maxHandlers == 0 then 1 else o.maxHandlers,
       minBatchSize := if o.minBatchSize == 0 then 1 else o.minBatchSize)
  }

  function Min(a: int, b: int): int {
    if a <= b then a else b
  }

  function Sum(s: seq<int>): int {
    if s == [] then 0 else s[0] + Sum(s[1..])
  }

  // ---- Split -------------------------------------------------------------------------------

  /** The batches cut from n items while `handlers` are still available. */
  function SplitFrom(n: nat, o: Options, handlers: nat): seq<int>
    requires o.minBatchSize >= 1 && o.maxBatchSize >= 1
    decreases handlers
  {
    if n < o.minBatchSize || handlers == 0 then []
    else
      var b := Min(o.maxBatchSize, n);
      [b] + SplitFrom(n - b, o, handlers - 1)
  }

  function SplitSizes(n: int, opts: Option<Options>): seq<int> {
    var o := WithDefaults(opts);
    if n < o.minBatchSize then []
    else if o.maxBatchSize == 0 then [n]
    else SplitFrom(n, o, o.maxHandlers)
  }

  method Split(n: int, opts: Option<Options>) returns (batches: seq<int>)
    ensures batches == SplitSizes(n, opts)
  {
    var o := WithDefaults(opts);
    if n < o.minBatchSize {
      return [];
    }
    if o.maxBatchSize == 0 {
      return [n];
    }
    batches := [];
    var left := n;
    while left >= o.minBatchSize && |batches| < o.maxHandlers
      invariant left >= 0 && |batches| <= o.maxHandlers
      invariant SplitFrom(n, o, o.maxHandlers) == batches + SplitFrom(left, o, o.maxHandlers - |batches|)
    {
      var b := o.maxBatchSize;
      if b > left {
        b := left;
      }
      batches := batches + [b];
      left := left - b;
    }
  }

  /** The least number of steps of m that reach a. */
  function CeilDiv(a: int, m: int): (c: nat)
    requires m > 0
    ensures a > 0 ==> c > 0 && (c - 1) * m < a <= c * m
  {
    if a <= 0 then 0
    else
      var c := CeilDiv(a - m, m);
      assert (1 + c) * m == m + c * m;
      1 + c
  }

  lemma {:induction false} SplitFromClosedForm(n: nat, o: Options, handlers: nat)
    requires o.minBatchSize >= 1 && o.maxBatchSize >= 1 && n >= o.minBatchSize
    ensures var b, m := SplitFrom(n, o, handlers), o.maxBatchSize;
            && |b| == Min(handlers, CeilDiv(n - o.minBatchSize + 1, m))
            && (forall i :: 0 <= i < |b| - 1 ==> b[i] == m)
            && Sum(b) == Min(n, |b| * m)
    decreases handlers
  {
    var m := o.maxBatchSize;
    if handlers > 0 {
      var b := Min(m, n);
      var more := SplitFrom(n - b, o, handlers - 1);
      SumCons(b, more);
      if n - b >= o.minBatchSize {
        SplitFromClosedForm(n - b, o, handlers - 1);
        Distribute(|more|, m);
      } else {
        assert more == [];
      }
    }
  }

  lemma SumCons(b: int, more: seq<int>)
    ensures Sum([b] + more) == b + Sum(more)
  {
  }

  lemma Distribute(k: nat, m: int)
    ensures (1 + k) * m == m + k * m
  {
  }

  /** Split in closed form: below the minimum nothing; without an item limit one batch; otherwise as
      many full batches as the handlers and the minimum allow, only the last one possibly short. */
  lemma SplitClosedForm(n: int, opts: Option<Options>)
    ensures var o, b := WithDefaults(opts), SplitSizes(n, opts);
            var m := o.maxBatchSize;
            if n < o.minBatchSize then b == []
            else if m == 0 then b == [n]
            else
              && |b| == Min(o.maxHandlers, CeilDiv(n - o.minBatchSize + 1, m)) >= 1
              && (forall i :: 0 <= i < |b| - 1 ==> b[i] == m)
              && Sum(b) == Min(n, |b| * m)
  {
    var o := WithDefaults(opts);
    if n >= o.minBatchSize && o.maxBatchSize > 0 {
      SplitFromClosedForm(n, o, o.maxHandlers);
    }
  }

  /** No split asks for more than n items in all, and every batch asks for at least one. */
  lemma SplitBound(n: int, opts: Option<Options>)
    requires n >= 0
    ensures 0 <= Sum(SplitSizes(n, opts)) <= n
    ensures forall i :: 0 <= i < |SplitSizes(n, opts)| ==> SplitSizes(n, opts)[i] >= 1
    ensures SplitSizes(n, opts) == [] <==> n < WithDefaults(opts).minBatchSize
  {
    var o := WithDefaults(opts);
    if n >= o.minBatchSize {
      if o.maxBatchSize == 0 {
        assert Sum([n]) == n + Sum([]);
      } else {
        SplitFromBound(n, o, o.maxHandlers);
      }
    }
  }

  lemma {:induction false} SplitFromBound(n: nat, o: Options, handlers: nat)
    requires o.minBatchSize >= 1 && o.maxBatchSize >= 1
    ensures var b := SplitFrom(n, o, handlers);
            0 <= Sum(b) <= n && forall i :: 0 <= i < |b| ==> b[i] >= 1
    decreases handlers
  {
    if handlers > 0 && n >= o.minBatchSize {
      SplitFromBound(n - Min(o.maxBatchSize, n), o, handlers - 1);
    }
  }

  // ---- nextBatch ---------------------------------------------------------------------------

  /** An item and the channel its result goes to. */
  datatype Waiter<T, C> = Waiter(item: T, errc: C)

  /** The options and the byte-size function, which may be missing. */
  datatype Config<!T> = Config(opts: Options, size: Option<T -> nat>)

  function ItemSize<T>(cfg: Config<T>, item: T): nat {
    if cfg.size.Some? then cfg.size.value(item) else 0
  }

  function Bytes<T, C>(cfg: Config<T>, batch: seq<Waiter<T, C>>): nat {
    if batch == [] then 0
    else Bytes(cfg, batch[..|batch|-1]) + ItemSize(cfg, batch[|batch|-1].item)
  }

  /** Within the item limit and the byte limit. */
  predicate Allowed<T, C>(cfg: Config<T>, batch: seq<Waiter<T, C>>) {
    && (cfg.opts.maxBatchSize > 0 ==> |batch| <= cfg.opts.maxBatchSize)
    && (cfg.opts.maxBatchByteSize > 0 ==> Bytes(cfg, batch) <= cfg.opts.maxBatchByteSize)
  }

  function Sizes<T, C>(size: T -> nat, batch: seq<Waiter<T, C>>): seq<int> {
    seq(|batch|, i requires 0 <= i < |batch| => size(batch[i].item))
  }

  lemma {:induction false} BytesIsSum<T, C>(cfg: Config<T>, batch: seq<Waiter<T, C>>)
    ensures Bytes(cfg, batch) == if cfg.size.None? then 0 else Sum(Sizes(cfg.size.value, batch))
  {
    if batch != [] {
      var before, last := batch[..|batch|-1], batch[|batch|-1];
      BytesIsSum(cfg, before);
      if cfg.size.Some? {
        assert Sizes(cfg.size.value, batch) == Sizes(cfg.size.value, before) + [cfg.size.value(last.item)];
        SumSnoc(Sizes(cfg.size.value, before), cfg.size.value(last.item));
      }
    }
  }

  lemma {:induction false} SumSnoc(s: seq<int>, x: int)
    ensures Sum(s + [x]) == Sum(s) + x
  {
    if s != [] {
      assert (s + [x])[1..] == s[1..] + [x];
      SumSnoc(s[1..], x);
    }
  }

  /** What the limits say: no more items than the item limit, no more bytes in all than the byte limit,
      zero meaning no limit; bytes count only when there is a size function. */
  lemma AllowedIs<T, C>(cfg: Config<T>, batch: seq<Waiter<T, C>>)
    ensures Allowed(cfg, batch) <==>
            && (cfg.opts.maxBatchSize == 0 || |batch| <= cfg.opts.maxBatchSize)
            && (cfg.opts.maxBatchByteSize == 0 || cfg.size.None?
                || Sum(Sizes(cfg.size.value, batch)) <= cfg.opts.maxBatchByteSize)
  {
    BytesIsSum(cfg, batch);
  }

  /** Extends a prefix of length k while the limits allow. */
  function Extend<T, C>(cfg: Config<T>, pending: seq<Waiter<T, C>>, k: nat): (n: nat)
    requires k <= |pending|
    ensures k <= n <= |pending|
    decreases |pending| - k
  {
    if k < |pending| && Allowed(cfg, pending[..k+1]) then Extend(cfg, pending, k + 1) else k
  }

  function BatchLen<T, C>(cfg: Config<T>, pending: seq<Waiter<T, C>>): (n: nat)
    ensures n <= |pending|
  {
    Extend(cfg, pending, 0)
  }

  function Next<T, C>(cfg: Config<T>, pending: seq<Waiter<T, C>>): Option<seq<Waiter<T, C>>> {
    if |pending| < cfg.opts.minBatchSize then None else Some(pending[..BatchLen(cfg, pending)])
  }

  lemma AllowedPrefix<T, C>(cfg: Config<T>, pending: seq<Waiter<T, C>>, j: nat, k: nat)
    requires j <= k <= |pending| && Allowed(cfg, pending[..k])
    ensures Allowed(cfg, pending[..j])
    decreases k - j
  {
    if j < k {
      assert pending[..k][..k-1] == pending[..k-1];
      AllowedPrefix(cfg, pending, j, k - 1);
    }
  }

  lemma {:induction false} ExtendIsLongest<T, C>(cfg: Config<T>, pending: seq<Waiter<T, C>>, k: nat)
    requires k <= |pending| && Allowed(cfg, pending[..k])
    ensures var n := Extend(cfg, pending, k);
            Allowed(cfg, pending[..n]) && (n < |pending| ==> !Allowed(cfg, pending[..n+1]))
    decreases |pending| - k
  {
    if k < |pending| && Allowed(cfg, pending[..k+1]) {
      ExtendIsLongest(cfg, pending, k + 1);
    }
  }

  /** nextBatch takes the longest prefix both limits allow: a prefix is within the limits exactly when
      it is no longer than the one taken. */
  lemma BatchIsLongest<T, C>(cfg: Config<T>, pending: seq<Waiter<T, C>>, k: nat)
    requires k <= |pending|
    ensures Allowed(cfg, pending[..k]) <==> k <= BatchLen(cfg, pending)
  {
    var n := BatchLen(cfg, pending);
    ExtendIsLongest(cfg, pending, 0);
    if k <= n {
      AllowedPrefix(cfg, pending, k, n);
    } else if Allowed(cfg, pending[..k]) {
      AllowedPrefix(cfg, pending, n + 1, k);
    }
  }

  /** There is a batch exactly when the minimum number of items is pending; it is a prefix of them, and a
      prefix is within the limits exactly when it is no longer. */
  lemma NextIs<T, C>(cfg: Config<T>, pending: seq<Waiter<T, C>>, k: nat)
    ensures var b := Next(cfg, pending);
            && (b.Some? <==> |pending| >= cfg.opts.minBatchSize)
            && (b.Some? ==>
                  && |b.value| <= |pending| && b.value == pending[..|b.value|]
                  && (k <= |pending| ==> (Allowed(cfg, pending[..k]) <==> k <= |b.value|)))
  {
    if k <= |pending| {
      BatchIsLongest(cfg, pending, k);
    }
  }

  /** A batch is empty only when its first item alone is over the byte limit. */
  lemma BatchNonempty<T, C>(cfg: Config<T>, pending: seq<Waiter<T, C>>)
    requires pending != []
    ensures BatchLen(cfg, pending) == 0 <==>
            0 < cfg.opts.maxBatchByteSize < ItemSize(cfg, pending[0].item)
  {
    var first := pending[..1];
    assert first[..|first|-1] == [] && first[0] == pending[0];
    assert Bytes(cfg, first) == ItemSize(cfg, pending[0].item);
    BatchIsLongest(cfg, pending, 1);
  }

  lemma {:induction false} NoSizes<T, C>(cfg: Config<T>, batch: seq<Waiter<T, C>>)
    requires cfg.size == None
    ensures Bytes(cfg, batch) == 0
  {
    if batch != [] {
      NoSizes(cfg, batch[..|batch|-1]);
    }
  }

  /** Without a byte-size function the byte limit has no effect at all. */
  lemma ByteLimitNeedsSizes<T, C>(cfg: Config<T>, pending: seq<Waiter<T, C>>)
    requires cfg.size == None
    ensures var max := cfg.opts.maxBatchSize;
            BatchLen(cfg, pending) == if max == 0 then |pending| else Min(max, |pending|)
  {
    var max := cfg.opts.maxBatchSize;
    var n := if max == 0 then |pending| else Min(max, |pending|);
    NoSizes(cfg, pending[..n]);
    BatchIsLongest(cfg, pending, n);
    if n < |pending| {
      BatchIsLongest(cfg, pending, n + 1);
    }
  }

  /** For example: with a limit of one byte, an item of two bytes goes out. */
  lemma ByteLimitIgnored()
    ensures var opts, batch := Options(1, 1, 0, 1), [Waiter(2, ())];
            && Next<nat, ()>(Config(opts, None), batch) == Some(batch)
            && Bytes<nat, ()>(Config(opts, Some((item: nat) => item)), batch) > opts.maxBatchByteSize
  {
    var opts, batch := Options(1, 1, 0, 1), [Waiter(2, ())];
    ByteLimitNeedsSizes<nat, ()>(Config(opts, None), batch);
    assert batch[..0] == [] && batch[..1] == batch;
  }

  /** The minimum is not a minimum for batches: from enough pending items a batch has that many exactly
      when that many are within the limits. */
  lemma MinimumHolds<T, C>(cfg: Config<T>, pending: seq<Waiter<T, C>>)
    requires |pending| >= cfg.opts.minBatchSize
    ensures BatchLen(cfg, pending) >= cfg.opts.minBatchSize <==> Allowed(cfg, pending[..cfg.opts.minBatchSize])
  {
    BatchIsLongest(cfg, pending, cfg.opts.minBatchSize);
  }

  /** The shortcut: with no byte limit and no more items than the item limit, everything goes. */
  lemma SendItAll<T, C>(cfg: Config<T>, pending: seq<Waiter<T, C>>)
    requires cfg.opts.maxBatchByteSize == 0
    requires cfg.opts.maxBatchSize == 0 || |pending| <= cfg.opts.maxBatchSize
    ensures BatchLen(cfg, pending) == |pending|
  {
    BatchIsLongest(cfg, pending, |pending|);
  }
}
