// gateway/src/adapters/recursive.ts: the variables the workers of queryUpstreams share, proved
// against the steps of WorkerPool.
module UpstreamPools {
  import opened Bytes
  import opened WorkerPool

  // The variables the workers share. What a worker awaits is a parameter.
  class UpstreamPool<R> {
    var next: nat
    var workers: seq<Worker>
    var out: seq<Option<R>>
    var owner: seq<nat>

    ghost function Contents(): Pool<R>
      reads this
    {
      Pool(next, workers, out, owner)
    }

    constructor (n: nat, maxConcurrency: int)
      ensures Contents() == Start<R>(n, maxConcurrency)
    {
      next, owner := 0, [];
      workers := seq(Concurrency(maxConcurrency, n), i => Ready);
      out := seq(n, i => None);
    }

    // const idx = next++, and the test that ends the worker.
    method ClaimNext(w: nat, ghost results: nat -> R)
      requires Enabled(Contents(), Claim(w))
      modifies this
      ensures Contents() == Apply(old(Contents()), Claim(w), results)
    {
      var idx := next;
      next := next + 1;
      if idx >= |out| {
        workers := workers[w := Finished];
      } else {
        workers := workers[w := Busy(idx)];
        owner := owner + [w];
      }
    }

    // The awaited result arrives.
    method Store(w: nat, result: R, ghost results: nat -> R)
      requires Enabled(Contents(), Settle(w)) && result == results(workers[w].idx)
      modifies this
      ensures Contents() == Apply(old(Contents()), Settle(w), results)
    {
      out := out[workers[w].idx := Some(result)];
      workers := workers[w := Ready];
    }
  }
}
