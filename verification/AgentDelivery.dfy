/**
 Delivery of the local queue: one flush sends the longest prefix that fits the
 byte limit, and a drain repeats flushes while batches are full.
 */
module AgentDelivery {

  datatype Item = Item(id: string, payloadLength: nat)

  /** Estimated size of one event in a batch request. */
  function Estimate(i: Item): (bytes: nat)
    ensures 3 * (bytes - 1024) <= 4 * i.payloadLength < 3 * (bytes - 1024) + 3
  {
    i.payloadLength * 4 / 3 + 1024
  }

  function TotalEstimate(items: seq<Item>): nat {
    if items == [] then 0 else TotalEstimate(items[..|items| - 1]) + Estimate(items[|items| - 1])
  }

  lemma {:induction false} TotalOfPrefix(items: seq<Item>, j: nat, k: nat)
    requires j <= k <= |items|
    ensures TotalEstimate(items[..j]) <= TotalEstimate(items[..k])
  {
    if j < k {
      assert items[..k][..k - 1] == items[..k - 1];
      TotalOfPrefix(items, j, k - 1);
    }
  }

  /** `k` items fit and one more would not. */
  ghost predicate LongestFit(items: seq<Item>, maximumBytes: nat, k: nat) {
    && k <= |items|
    && TotalEstimate(items[..k]) <= maximumBytes
    && (k < |items| ==> TotalEstimate(items[..k + 1]) > maximumBytes)
  }

  lemma LongestFitIsUnique(items: seq<Item>, maximumBytes: nat, j: nat, k: nat)
    requires LongestFit(items, maximumBytes, j) && LongestFit(items, maximumBytes, k)
    ensures j == k
  {
    if j < k {
      TotalOfPrefix(items, j + 1, k);
    } else if k < j {
      TotalOfPrefix(items, k + 1, j);
    }
  }

  datatype Selection = Selected(count: nat) | Oversized(item: Item)

  /** Chooses the batch; an item that can never fit, found right behind the batch, is an error. */
  method SelectBatch(items: seq<Item>, maximumBytes: nat) returns (s: Selection)
    ensures s.Selected? ==>
              && LongestFit(items, maximumBytes, s.count)
              && (items != [] ==> s.count > 0)
              && (s.count < |items| ==> Estimate(items[s.count]) <= maximumBytes)
    ensures s.Oversized? ==> exists k: nat :: LongestFit(items, maximumBytes, k) && k < |items| && items[k] == s.item
                                         && Estimate(items[k]) > maximumBytes
  {
    var estimated := 0;
    for k := 0 to |items|
      invariant estimated == TotalEstimate(items[..k]) <= maximumBytes
    {
      var estimate := Estimate(items[k]);
      assert items[..k + 1][..k] == items[..k];
      if estimate > maximumBytes {
        assert LongestFit(items, maximumBytes, k);
        return Oversized(items[k]);
      }
      if k > 0 && estimated + estimate > maximumBytes {
        return Selected(k);
      }
      assert items[..0] == [];
      estimated := estimated + estimate;
    }
    return Selected(|items|);
  }

  datatype FlushResult = Sent(count: nat) | FlushFailed

  /** What the gateway and the disk do during one flush. */
  datatype Circumstances = Circumstances(accepted: bool, acked: nat)

  /** The first `removed` items have left the queue and the server has the first `taken`. */
  ghost predicate Cut(was: seq<Item>, had: seq<Item>, removed: nat, taken: nat, items: seq<Item>, accepted: seq<Item>) {
    removed <= taken <= |was| && items == was[removed..] && accepted == had + was[..taken]
  }

  /** What left the queue, at least `from` items, was accepted by the server, and perhaps some more. */
  ghost predicate Interrupted(was: seq<Item>, had: seq<Item>, from: nat, items: seq<Item>, accepted: seq<Item>) {
    exists removed: nat, taken: nat :: from <= removed && Cut(was, had, removed, taken, items, accepted)
  }

  lemma CutLater(was: seq<Item>, had: seq<Item>, from: nat, removed: nat, taken: nat, items: seq<Item>, accepted: seq<Item>)
    requires from <= |was| && Cut(was[from..], had + was[..from], removed, taken, items, accepted)
    ensures Cut(was, had, from + removed, from + taken, items, accepted)
  {
    assert was[from..][removed..] == was[from + removed..];
    assert was[..from] + was[from..][..taken] == was[..from + taken];
  }

  lemma InterruptedLater(was: seq<Item>, had: seq<Item>, from: nat, items: seq<Item>, accepted: seq<Item>)
    requires from <= |was| && Interrupted(was[from..], had + was[..from], 0, items, accepted)
    ensures Interrupted(was, had, from, items, accepted)
  {
    var removed: nat, taken: nat :| Cut(was[from..], had + was[..from], removed, taken, items, accepted);
    CutLater(was, had, from, removed, taken, items, accepted);
  }

  /**
   One flush of `k` items, the longest prefix of the front that fits: nothing
   moves when an item behind them can never fit or the server refuses; otherwise
   they are accepted and leave as far as they are acknowledged.
   */
  ghost predicate Flushed(was: seq<Item>, had: seq<Item>, front: seq<Item>, maximumBytes: nat, k: nat, now: Circumstances,
                          r: FlushResult, items: seq<Item>, accepted: seq<Item>) {
    && LongestFit(front, maximumBytes, k) && k <= |was|
    && if (k < |front| && Estimate(front[k]) > maximumBytes) || (k > 0 && !now.accepted) then
         r == FlushFailed && items == was && accepted == had
       else
         && accepted == had + was[..k]
         && if now.acked < k then r == FlushFailed && items == was[now.acked..] else r == Sent(k) && items == was[k..]
  }

  /** Every round is accepted and acknowledged in full, and no item is too large for a batch. */
  ghost predicate AllWell(items: seq<Item>, batchSize: nat, maximumBytes: nat, rounds: seq<Circumstances>) {
    && (forall i :: 0 <= i < |rounds| ==> rounds[i].accepted && rounds[i].acked >= batchSize)
    && forall i :: i in items ==> Estimate(i) <= maximumBytes
  }

  /** A flush fails only for an item that is too large, or because the server or the disk refused. */
  lemma FailureHasCause(was: seq<Item>, had: seq<Item>, batchSize: nat, maximumBytes: nat, rounds: seq<Circumstances>, from: nat, i: nat,
                        k: nat, items: seq<Item>, accepted: seq<Item>)
    requires i < |rounds| && from <= |was|
    requires Flushed(was[from..], had, Front(was[from..], batchSize), maximumBytes, k, rounds[i], FlushFailed, items, accepted)
    ensures !AllWell(was, batchSize, maximumBytes, rounds)
  {
    var front := Front(was[from..], batchSize);
    assert k < |front| ==> front[k] == was[from + k] && was[from + k] in was;
  }

  lemma OneMoreBatch(batchSize: nat, i: nat)
    ensures batchSize * (i + 1) == batchSize * i + batchSize
  {
  }

  class LocalQueue {
    var items: seq<Item>   // in file name order
    var accepted: seq<Item>  // what the server has taken, in order

    constructor (items: seq<Item>)
      ensures this.items == items && accepted == []
    {
      this.items, this.accepted := items, [];
    }

    /** Nothing disappears: what left the queue was accepted, and the rest is still in order. */
    method Flush(batchSize: nat, maximumBytes: nat, now: Circumstances) returns (r: FlushResult)
      requires batchSize > 0
      modifies this
      ensures r.Sent? ==>
                && r.count <= batchSize && r.count <= |old(items)|
                && items == old(items)[r.count..]
                && accepted == old(accepted) + old(items)[..r.count]
                && LongestFit(Front(old(items), batchSize), maximumBytes, r.count)
                && (old(items) != [] ==> r.count > 0)
      ensures r.FlushFailed? ==> Interrupted(old(items), old(accepted), 0, items, accepted)
      ensures exists k: nat :: Flushed(old(items), old(accepted), Front(old(items), batchSize), maximumBytes, k, now, r, items, accepted)
    {
      var peeked := Front(items, batchSize);
      var selection := SelectBatch(peeked, maximumBytes);
      ghost var was, had := items, accepted;
      if selection.Oversized? {
        assert Cut(was, had, 0, 0, items, accepted);
        ghost var k: nat :| LongestFit(peeked, maximumBytes, k) && k < |peeked| && Estimate(peeked[k]) > maximumBytes;
        assert Flushed(was, had, peeked, maximumBytes, k, now, FlushFailed, items, accepted);
        return FlushFailed;
      }
      var n := selection.count;
      assert peeked[..n] == items[..n];
      if n == 0 || !now.accepted {
        assert Cut(was, had, 0, 0, items, accepted);
        r := if n == 0 then Sent(0) else FlushFailed;
        assert Flushed(was, had, peeked, maximumBytes, n, now, r, items, accepted);
        return;
      }
      accepted := accepted + items[..n];
      if now.acked < n {
        items := items[now.acked..];
        assert Cut(was, had, now.acked, n, items, accepted);
        assert Flushed(was, had, peeked, maximumBytes, n, now, FlushFailed, items, accepted);
        return FlushFailed;
      }
      items := items[n..];
      assert Flushed(was, had, peeked, maximumBytes, n, now, Sent(n), items, accepted);
      return Sent(n);
    }

    /**
     Flushes until a batch is short, the budget is spent or a flush fails. A
     short last batch means an empty queue only if the byte limit did not cut it.
     */
    method Drain(batchSize: nat, maximumBytes: nat, rounds: seq<Circumstances>) returns (delivered: nat, failed: bool, lastSent: nat)
      requires batchSize > 0
      modifies this
      ensures delivered <= |old(items)|
      ensures !failed ==> items == old(items)[delivered..] && accepted == old(accepted) + old(items)[..delivered]
      ensures failed ==> Interrupted(old(items), old(accepted), delivered, items, accepted)
      ensures !failed && lastSent < batchSize ==>
                && lastSent <= delivered
                && LongestFit(Front(old(items)[delivered - lastSent..], batchSize), maximumBytes, lastSent)
                && (items == [] <==>
                      TotalEstimate(Front(old(items)[delivered - lastSent..], batchSize)) <= maximumBytes)
      ensures !failed && lastSent >= batchSize ==> delivered == batchSize * |rounds|
      ensures AllWell(old(items), batchSize, maximumBytes, rounds) ==> !failed
      ensures failed ==> lastSent == 0
    {
      hide TotalEstimate, LongestFit, Front, Interrupted, AllWell, Flushed;
      delivered, failed, lastSent := 0, false, batchSize;
      ghost var was, had := items, accepted;
      assert items == was[0..] && accepted == had + was[..0];
      for i := 0 to |rounds|
        invariant delivered == batchSize * i <= |old(items)| && lastSent == batchSize
        invariant items == was[delivered..] && accepted == had + was[..delivered]
      {
        ghost var before := items;
        var r := Flush(batchSize, maximumBytes, rounds[i]);
        if r.FlushFailed? {
          ghost var k: nat :| Flushed(before, had + was[..delivered], Front(before, batchSize), maximumBytes, k, rounds[i], r, items, accepted);
          FailureHasCause(was, had + was[..delivered], batchSize, maximumBytes, rounds, delivered, i, k, items, accepted);
          InterruptedLater(was, had, delivered, items, accepted);
          return delivered, true, 0;
        }
        OneMoreBatch(batchSize, i);
        assert before[r.count..] == was[delivered + r.count..];
        assert had + was[..delivered] + before[..r.count] == had + was[..delivered + r.count];
        delivered := delivered + r.count;
        lastSent := r.count;
        if r.count < batchSize {
          assert before == old(items)[delivered - lastSent..];
          ShortBatchDrainsExactly(before, batchSize, maximumBytes, r.count);
          return;
        }
      }
    }
  }

  function Front(items: seq<Item>, n: nat): seq<Item> {
    if |items| <= n then items else items[..n]
  }

  /** A short batch empties the queue exactly when the byte limit did not cut it. */
  lemma ShortBatchDrainsExactly(items: seq<Item>, batchSize: nat, maximumBytes: nat, k: nat)
    requires LongestFit(Front(items, batchSize), maximumBytes, k) && k < batchSize
    ensures items[k..] == [] <==> TotalEstimate(Front(items, batchSize)) <= maximumBytes
  {
    var peeked := Front(items, batchSize);
    assert peeked[..|peeked|] == peeked;
    if k < |peeked| {
      TotalOfPrefix(peeked, k + 1, |peeked|);
    }
  }

  /** Two items of which the byte limit admits one: the batch is short and an item is left. */
  lemma ShortBatchCanLeaveItems(a: Item, b: Item)
    ensures var items, maximumBytes := [a, b], Estimate(a);
            && LongestFit(Front(items, 3), maximumBytes, 1) && 1 < 3
            && items[1..] == [b]
  {
    var items := [a, b];
    assert items[..0] == [] && items[..1] == [a] && [a][..0] == [];
    assert TotalEstimate([a]) == TotalEstimate([]) + Estimate(a);
    assert items[..2] == items && items[..2][..1] == [a];
    assert TotalEstimate(items) == TotalEstimate([a]) + Estimate(b);
  }
}
