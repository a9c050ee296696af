/**
 * The batch loop of `run_once`, apart from what it does with each item: the
 * items are cut into consecutive batches of `size`, one request is made per
 * batch, and one output is appended per item, computed from the reply to the
 * request of its batch.
 *
 * `ask(b, batch)` stands for the request of the `b`-th batch, and
 * `emit(item, reply, k, j)` for the output of the item at position `k` of its
 * batch and position `j` overall (the number of the clock read that stamps
 * it). Both are parameters, so what is proved here holds for any request and
 * any per-item output.
 */
module Batching {

  function Min(a: int, b: int): int
  {
    if a < b then a else b
  }

  /** Where the `b`-th batch starts: after `b` batches of `size` items. */
  function BatchStart(size: nat, b: nat): nat
  {
    if b == 0 then 0 else BatchStart(size, b - 1) + size
  }

  /** The `b`-th batch starts at item `b * size`. */
  lemma {:induction false} BatchStartIsProduct(size: nat, b: nat)
    ensures BatchStart(size, b) == b * size
  {
    if b > 0 {
      BatchStartIsProduct(size, b - 1);
      assert b * size == (b - 1) * size + size;
    }
  }

  /** The `b`-th batch: the slice of `size` items from its start, or of all that are left when fewer are. */
  function Batch<S>(items: seq<S>, size: nat, b: nat): (batch: seq<S>)
    requires size > 0 && BatchStart(size, b) <= |items|
    ensures |batch| <= size
    ensures BatchStart(size, b) + size <= |items| ==> |batch| == size
    ensures BatchStart(size, b) + size > |items| ==> |batch| == |items| - BatchStart(size, b)
  {
    var start := BatchStart(size, b);
    items[start .. Min(start + size, |items|)]
  }

  /** The batch holding item `j`: the number of whole batches before it. */
  function BatchOf(size: nat, j: nat): (b: nat)
    requires size > 0
    ensures BatchStart(size, b) <= j < BatchStart(size, b) + size
    decreases j
  {
    if j < size then 0 else BatchOf(size, j - size) + 1
  }

  /** An item inside the `b`-th batch belongs to no other batch. */
  lemma {:induction false} BatchOfUnique(size: nat, b: nat, j: nat)
    requires size > 0 && BatchStart(size, b) <= j < BatchStart(size, b) + size
    ensures BatchOf(size, j) == b
    decreases j
  {
    if b > 0 {
      BatchOfUnique(size, b - 1, j - size);
    }
  }

  /** The position of item `j` within its batch. */
  function PositionAt(size: nat, j: nat): (k: nat)
    requires size > 0
    ensures k < size
  {
    j - BatchStart(size, BatchOf(size, j))
  }

  /** Item `j` is in batch `j / size`, at position `j % size` of it. */
  lemma BatchOfIsDivision(size: nat, j: nat)
    requires size > 0
    ensures BatchOf(size, j) == j / size
    ensures PositionAt(size, j) == j % size
  {
    var b := BatchOf(size, j);
    BatchStartIsProduct(size, b);
    DivUnique(j, size, b, j - BatchStart(size, b));
  }

  /** Euclidean division has one quotient and one remainder. */
  lemma DivUnique(j: int, size: int, q: int, r: int)
    requires size > 0 && 0 <= r < size && j == q * size + r
    ensures j / size == q && j % size == r
  {
    var q', r' := j / size, j % size;
    assert j == q' * size + r' && 0 <= r' < size;
    assert (q - q') * size == r' - r;
    if q > q' {
      MulAtLeast(q - q', size);
    } else if q < q' {
      MulAtLeast(q' - q, size);
    }
  }

  lemma {:induction false} MulAtLeast(d: int, size: int)
    requires d >= 1 && size > 0
    ensures d * size >= size
    decreases d
  {
    if d > 1 {
      MulAtLeast(d - 1, size);
      assert d * size == (d - 1) * size + size;
    }
  }

  /** The reply to the request of the `b`-th batch. */
  function BatchReply<S, R>(ask: (nat, seq<S>) -> R, items: seq<S>, size: nat, b: nat): R
    requires size > 0 && BatchStart(size, b) <= |items|
  {
    ask(b, Batch(items, size, b))
  }

  /** The reply to the request of the batch holding item `j`. */
  function ReplyAt<S, R>(ask: (nat, seq<S>) -> R, items: seq<S>, size: nat, j: nat): R
    requires size > 0 && j < |items|
  {
    BatchReply(ask, items, size, BatchOf(size, j))
  }

  /** The output of item `j`: from the reply to its batch, at its position there. */
  function Expected<S, R, T>(emit: (S, R, nat, nat) -> T, ask: (nat, seq<S>) -> R, items: seq<S>, size: nat, j: nat): T
    requires size > 0 && j < |items|
  {
    emit(items[j], ReplyAt(ask, items, size, j), PositionAt(size, j), j)
  }

  /** Item `j` of the `b`-th batch is that batch's item `j - BatchStart(size, b)`, answered by its reply. */
  lemma BatchExpected<S, R, T>(emit: (S, R, nat, nat) -> T, ask: (nat, seq<S>) -> R, items: seq<S>, size: nat, b: nat, j: nat)
    requires size > 0 && BatchStart(size, b) <= j < Min(BatchStart(size, b) + size, |items|)
    ensures var k := j - BatchStart(size, b);
      Expected(emit, ask, items, size, j) == emit(Batch(items, size, b)[k], BatchReply(ask, items, size, b), k, j)
  {
    BatchOfUnique(size, b, j);
  }

  /** The outputs of one batch given its reply, its first item being item `base` overall. */
  function BatchOutputs<S, R, T>(emit: (S, R, nat, nat) -> T, batch: seq<S>, reply: R, base: nat): (outs: seq<T>)
    ensures |outs| == |batch|
  {
    if batch == [] then []
    else
      var n := |batch| - 1;
      BatchOutputs(emit, batch[..n], reply, base) + [emit(batch[n], reply, n, base + n)]
  }

  /** The outputs of one more item of a batch extend the outputs of those before it. */
  lemma BatchOutputsStep<S, R, T>(emit: (S, R, nat, nat) -> T, batch: seq<S>, reply: R, base: nat, idx: nat)
    requires idx < |batch|
    ensures BatchOutputs(emit, batch[..idx + 1], reply, base)
      == BatchOutputs(emit, batch[..idx], reply, base) + [emit(batch[idx], reply, idx, base + idx)]
  {
    assert batch[..idx + 1][..idx] == batch[..idx];
  }

  /** Output `k` of a batch is the output of its `k`-th item. */
  lemma {:induction false} BatchOutputsAt<S, R, T>(emit: (S, R, nat, nat) -> T, batch: seq<S>, reply: R, base: nat, k: nat)
    requires k < |batch|
    ensures BatchOutputs(emit, batch, reply, base)[k] == emit(batch[k], reply, k, base + k)
  {
    var n := |batch| - 1;
    if k < n {
      BatchOutputsAt(emit, batch[..n], reply, base, k);
      assert batch[..n][k] == batch[k];
    }
  }

  /** The outputs of the batches from the `b`-th on, in the order the batch loop appends them; none past the end. */
  function ReconciledFrom<S, R, T>(emit: (S, R, nat, nat) -> T, ask: (nat, seq<S>) -> R, items: seq<S>, size: nat, b: nat)
    : (out: seq<T>)
    requires size > 0
    ensures BatchStart(size, b) <= |items| ==> |out| == |items| - BatchStart(size, b)
    ensures BatchStart(size, b) >= |items| ==> out == []
    decreases |items| - BatchStart(size, b)
  {
    var start := BatchStart(size, b);
    if start >= |items| then []
    else
      BatchOutputs(emit, Batch(items, size, b), BatchReply(ask, items, size, b), start)
        + ReconciledFrom(emit, ask, items, size, b + 1)
  }

  /** The outputs from batch `b` on are those of batch `b`, then those from batch `b + 1` on. */
  lemma ReconciledFromStep<S, R, T>(emit: (S, R, nat, nat) -> T, ask: (nat, seq<S>) -> R, items: seq<S>, size: nat, b: nat, i: nat)
    requires size > 0 && i == BatchStart(size, b) && i < |items|
    ensures BatchStart(size, b + 1) == i + size
    ensures var batch := items[i .. Min(i + size, |items|)];
      ReconciledFrom(emit, ask, items, size, b)
        == BatchOutputs(emit, batch, ask(b, batch), i) + ReconciledFrom(emit, ask, items, size, b + 1)
  {
    assert Batch(items, size, b) == items[i .. Min(i + size, |items|)];
  }

  /** The outputs of a whole run, batch after batch. */
  function Reconciled<S, R, T>(emit: (S, R, nat, nat) -> T, ask: (nat, seq<S>) -> R, items: seq<S>, size: nat): (out: seq<T>)
    requires size > 0
    ensures |out| == |items|
  {
    ReconciledFrom(emit, ask, items, size, 0)
  }

  /** The first outputs from batch `b` on are those of batch `b`. */
  lemma ReconciledFromHead<S, R, T>(emit: (S, R, nat, nat) -> T, ask: (nat, seq<S>) -> R, items: seq<S>, size: nat, b: nat, k: nat)
    requires size > 0 && BatchStart(size, b) < |items| && k < |Batch(items, size, b)|
    ensures ReconciledFrom(emit, ask, items, size, b)[k]
      == BatchOutputs(emit, Batch(items, size, b), BatchReply(ask, items, size, b), BatchStart(size, b))[k]
  {
    var outs := BatchOutputs(emit, Batch(items, size, b), BatchReply(ask, items, size, b), BatchStart(size, b));
    var rest := ReconciledFrom(emit, ask, items, size, b + 1);
    assert ReconciledFrom(emit, ask, items, size, b) == outs + rest;
  }

  /** Past batch `b`, the outputs from batch `b` on are those from batch `b + 1` on. */
  lemma ReconciledFromTail<S, R, T>(emit: (S, R, nat, nat) -> T, ask: (nat, seq<S>) -> R, items: seq<S>, size: nat, b: nat, j: nat)
    requires size > 0 && BatchStart(size, b) + size <= j < |items|
    ensures BatchStart(size, b + 1) == BatchStart(size, b) + size
    ensures ReconciledFrom(emit, ask, items, size, b)[j - BatchStart(size, b)]
      == ReconciledFrom(emit, ask, items, size, b + 1)[j - BatchStart(size, b + 1)]
  {
    var start := BatchStart(size, b);
    var outs := BatchOutputs(emit, Batch(items, size, b), BatchReply(ask, items, size, b), start);
    var rest := ReconciledFrom(emit, ask, items, size, b + 1);
    assert ReconciledFrom(emit, ask, items, size, b) == outs + rest;
    assert |outs| == size;
  }

  /** Within batch `b`, the output at item `j` is the one it expects from that batch. */
  lemma ReconciledFromInBatch<S, R, T>(emit: (S, R, nat, nat) -> T, ask: (nat, seq<S>) -> R, items: seq<S>, size: nat, b: nat, j: nat)
    requires size > 0 && BatchStart(size, b) <= j < Min(BatchStart(size, b) + size, |items|)
    ensures ReconciledFrom(emit, ask, items, size, b)[j - BatchStart(size, b)] == Expected(emit, ask, items, size, j)
  {
    var start := BatchStart(size, b);
    var k := j - start;
    ReconciledFromHead(emit, ask, items, size, b, k);
    BatchOutputsAt(emit, Batch(items, size, b), BatchReply(ask, items, size, b), start, k);
    BatchExpected(emit, ask, items, size, b, j);
  }

  /** From batch `b` on, the output at item `j` is the one it expects from its own batch. */
  lemma {:induction false} ReconciledFromAt<S, R, T>(emit: (S, R, nat, nat) -> T, ask: (nat, seq<S>) -> R, items: seq<S>, size: nat,
                                                     b: nat, j: nat)
    requires size > 0 && BatchStart(size, b) <= j < |items|
    ensures ReconciledFrom(emit, ask, items, size, b)[j - BatchStart(size, b)] == Expected(emit, ask, items, size, j)
    decreases |items| - BatchStart(size, b)
  {
    var start := BatchStart(size, b);
    if j < start + size {
      ReconciledFromInBatch(emit, ask, items, size, b, j);
    } else {
      ReconciledFromTail(emit, ask, items, size, b, j);
      ReconciledFromAt(emit, ask, items, size, b + 1, j);
    }
  }

  /** The output of a run at item `j`: from the reply to its batch, at its position there. */
  lemma ReconciledAt<S, R, T>(emit: (S, R, nat, nat) -> T, ask: (nat, seq<S>) -> R, items: seq<S>, size: nat, j: nat)
    requires size > 0 && j < |items|
    ensures Reconciled(emit, ask, items, size)[j] == Expected(emit, ask, items, size, j)
  {
    assert BatchStart(size, 0) == 0;
    ReconciledFromAt(emit, ask, items, size, 0, j);
  }

  /** The batches laid end to end from batch `b` on. */
  function BatchesFrom<S>(items: seq<S>, size: nat, b: nat): seq<S>
    requires size > 0
    decreases |items| - BatchStart(size, b)
  {
    if BatchStart(size, b) >= |items| then [] else Batch(items, size, b) + BatchesFrom(items, size, b + 1)
  }

  /** The batches are consecutive slices: laid end to end they give back every item, in order. */
  lemma {:induction false} BatchesTile<S>(items: seq<S>, size: nat, b: nat)
    requires size > 0 && BatchStart(size, b) <= |items|
    ensures BatchesFrom(items, size, b) == items[BatchStart(size, b)..]
    decreases |items| - BatchStart(size, b)
  {
    var start := BatchStart(size, b);
    if start < |items| {
      if start + size < |items| {
        BatchesTile(items, size, b + 1);
        assert items[start..] == items[start .. start + size] + items[start + size..];
      } else {
        assert BatchesFrom(items, size, b + 1) == [];
      }
    }
  }

  /**
   * A batch's reply reaches only that batch's outputs: two requests that
   * answer every other batch alike give the same output for every item
   * outside it.
   */
  lemma BatchIsolated<S, R, T>(emit: (S, R, nat, nat) -> T, ask1: (nat, seq<S>) -> R, ask2: (nat, seq<S>) -> R,
                               items: seq<S>, size: nat, b: nat, j: nat)
    requires size > 0 && j < |items| && j / size != b
    requires forall c: nat, batch: seq<S> :: c != b ==> ask1(c, batch) == ask2(c, batch)
    ensures Reconciled(emit, ask1, items, size)[j] == Reconciled(emit, ask2, items, size)[j]
  {
    ReconciledAt(emit, ask1, items, size, j);
    ReconciledAt(emit, ask2, items, size, j);
    BatchOfIsDivision(size, j);
  }
}
