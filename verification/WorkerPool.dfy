// gateway/src/adapters/recursive.ts: queryUpstreams. A step is what one worker does between two
// awaits: claim the next index, or store the result it waited for. Any interleaving is a run.
module WorkerPool {
  import opened Bytes

  datatype Worker = Ready | Busy(idx: nat) | Finished

  // owner[i] is the worker that claimed index i.
  datatype Pool<R> = Pool(next: nat, workers: seq<Worker>, out: seq<Option<R>>, owner: seq<nat>)

  datatype Step = Claim(worker: nat) | Settle(worker: nat)

  // Math.max(1, Math.min(maxConcurrency, urls.length))
  function Concurrency(maxConcurrency: int, n: nat): (r: nat)
    ensures r >= 1
  {
    var m := if maxConcurrency < n then maxConcurrency else n;
    if m < 1 then 1 else m
  }

  function Start<R>(n: nat, maxConcurrency: int): Pool<R> {
    Pool(0, seq(Concurrency(maxConcurrency, n), i => Ready), seq(n, i => None), [])
  }

  predicate Enabled<R>(p: Pool<R>, s: Step) {
    s.worker < |p.workers|
    && match s case Claim(w) => p.workers[w] == Ready case Settle(w) => p.workers[w].Busy? && p.workers[w].idx < |p.out|
  }

  // results(i) is what queryOneUpstream gives for urls[i].
  function Apply<R>(p: Pool<R>, s: Step, results: nat -> R): Pool<R>
    requires Enabled(p, s)
  {
    match s
    case Claim(w) =>
      if p.next >= |p.out| then p.(next := p.next + 1, workers := p.workers[w := Finished])
      else p.(next := p.next + 1, workers := p.workers[w := Busy(p.next)], owner := p.owner + [w])
    case Settle(w) =>
      var idx := p.workers[w].idx;
      p.(out := p.out[idx := Some(results(idx))], workers := p.workers[w := Ready])
  }

  predicate ValidRun<R>(p: Pool<R>, run: seq<Step>, results: nat -> R)
    decreases |run|
  {
    run == [] || (Enabled(p, run[0]) && ValidRun(Apply(p, run[0], results), run[1..], results))
  }

  function RunAll<R>(p: Pool<R>, run: seq<Step>, results: nat -> R): Pool<R>
    requires ValidRun(p, run, results)
    decreases |run|
  {
    if run == [] then p else RunAll(Apply(p, run[0], results), run[1..], results)
  }

  // Every claimed index has its result or is being fetched by the worker that claimed it; no
  // other index has a result, and no worker fetches for another.
  ghost predicate Inv<R>(p: Pool<R>, n: nat, limit: nat, results: nat -> R) {
    && |p.out| == n && |p.workers| == limit
    && |p.owner| == (if p.next < n then p.next else n)
    && (forall i :: 0 <= i < |p.owner| ==> p.owner[i] < limit)
    && (forall i :: 0 <= i < n ==>
          if p.out[i].Some? then i < |p.owner| && p.out[i] == Some(results(i))
          else i < |p.owner| ==> p.workers[p.owner[i]] == Busy(i))
    && (forall w :: 0 <= w < limit && p.workers[w].Busy? ==>
          p.workers[w].idx < |p.owner| && p.owner[p.workers[w].idx] == w && p.out[p.workers[w].idx] == None)
    && (forall w :: 0 <= w < limit && p.workers[w].Finished? ==> p.next > n)
  }

  lemma StepKeepsInv<R>(p: Pool<R>, s: Step, n: nat, limit: nat, results: nat -> R)
    requires Inv(p, n, limit, results) && Enabled(p, s)
    ensures Inv(Apply(p, s, results), n, limit, results)
    ensures p.owner <= Apply(p, s, results).owner
  {
    var q := Apply(p, s, results);
    if s.Claim? && p.next < n {
      assert q.owner == p.owner + [s.worker];
    }
  }

  lemma {:induction false} RunKeepsInv<R>(p: Pool<R>, run: seq<Step>, n: nat, limit: nat, results: nat -> R)
    requires Inv(p, n, limit, results) && ValidRun(p, run, results)
    ensures Inv(RunAll(p, run, results), n, limit, results)
    ensures p.owner <= RunAll(p, run, results).owner
    decreases |run|
  {
    if run != [] {
      StepKeepsInv(p, run[0], n, limit, results);
      RunKeepsInv(Apply(p, run[0], results), run[1..], n, limit, results);
    }
  }

  // Indices being fetched: each by one worker, so never more than there are workers.
  function InFlight<R>(p: Pool<R>): set<nat> {
    set w | 0 <= w < |p.workers| && p.workers[w].Busy? :: p.workers[w].idx
  }

  lemma {:induction false} FewInFlight<R>(p: Pool<R>)
    ensures |InFlight(p)| <= |p.workers|
    decreases |p.workers|
  {
    if p.workers != [] {
      var m := |p.workers| - 1;
      var q := p.(workers := p.workers[..m]);
      FewInFlight(q);
      var last := if p.workers[m].Busy? then {p.workers[m].idx} else {};
      assert InFlight(p) == InFlight(q) + last;
    } else {
      assert InFlight(p) == {};
    }
  }

  // Promise.all has settled: every worker left its loop.
  predicate Joined<R>(p: Pool<R>) {
    forall w :: 0 <= w < |p.workers| ==> p.workers[w] == Finished
  }

  // As many workers as configured, but no more than urls and at least one.
  lemma ConcurrencyExactly(maxConcurrency: int, n: nat)
    ensures var k := Concurrency(maxConcurrency, n);
            && (k == maxConcurrency <==> 1 <= maxConcurrency <= n || (maxConcurrency == 1 && n == 0))
            && (1 <= n <= maxConcurrency ==> k == n) && (maxConcurrency < 1 || n == 0 ==> k == 1)
            && |Start<nat>(n, maxConcurrency).workers| == k && |Start<nat>(n, maxConcurrency).out| == n
  {
  }

  // In every interleaving: an index once claimed keeps its one claimant, only that claimant
  // fetches it, at most the limit are in flight, and at the join out[i] is the result for
  // urls[i], for every i.
  lemma {:induction false} EveryInterleaving<R>(n: nat, maxConcurrency: int, run: seq<Step>, more: seq<Step>,
                                                results: nat -> R)
    requires ValidRun(Start<R>(n, maxConcurrency), run, results)
    requires ValidRun(RunAll(Start<R>(n, maxConcurrency), run, results), more, results)
    ensures var p := RunAll(Start<R>(n, maxConcurrency), run, results);
            && |InFlight(p)| <= Concurrency(maxConcurrency, n)
            && OwnersFetch(p)
            && p.owner <= RunAll(p, more, results).owner
            && (Joined(p) ==> p.out == seq(n, i requires 0 <= i < n => Some(results(i))) && |p.owner| == n)
  {
    var start := Start<R>(n, maxConcurrency);
    var p := RunAll(start, run, results);
    var limit := Concurrency(maxConcurrency, n);
    assert Inv(start, n, limit, results);
    RunKeepsInv(start, run, n, limit, results);
    RunKeepsInv(p, more, n, limit, results);
    FewInFlight(p);
    if Joined(p) {
      assert p.workers[0] == Finished;
    }
  }

  ghost predicate OwnersFetch<R>(p: Pool<R>) {
    forall w :: 0 <= w < |p.workers| && p.workers[w].Busy? ==>
      p.workers[w].idx < |p.owner| && p.owner[p.workers[w].idx] == w
  }

  // What is left to do: every step uses some of it up, so every run reaches the join.
  function Work(w: Worker): nat {
    match w case Ready => 1 case Busy(_) => 2 case Finished => 0
  }

  function TotalWork(ws: seq<Worker>): nat {
    if ws == [] then 0 else Work(ws[0]) + TotalWork(ws[1..])
  }

  function Remaining<R>(p: Pool<R>): nat {
    2 * (if p.next < |p.out| then |p.out| - p.next else 0) + TotalWork(p.workers)
  }

  lemma {:induction false} WorkUpdate(ws: seq<Worker>, i: nat, w: Worker)
    requires i < |ws|
    ensures TotalWork(ws[i := w]) == TotalWork(ws) - Work(ws[i]) + Work(w)
  {
    if i == 0 {
      assert ws[i := w][1..] == ws[1..];
    } else {
      WorkUpdate(ws[1..], i - 1, w);
      assert ws[i := w][1..] == ws[1..][i - 1 := w];
    }
  }

  lemma StepUsesWork<R>(p: Pool<R>, s: Step, results: nat -> R)
    requires Enabled(p, s)
    ensures Remaining(Apply(p, s, results)) < Remaining(p)
  {
    match s
    case Claim(w) =>
      WorkUpdate(p.workers, w, Finished);
      WorkUpdate(p.workers, w, Busy(p.next));
    case Settle(w) =>
      WorkUpdate(p.workers, w, Ready);
  }

  lemma StuckOnlyWhenJoined<R>(p: Pool<R>, n: nat, limit: nat, results: nat -> R)
    requires Inv(p, n, limit, results) && !Joined(p)
    ensures exists s :: Enabled(p, s)
  {
    var w :| 0 <= w < |p.workers| && p.workers[w] != Finished;
    assert Enabled(p, if p.workers[w] == Ready then Claim(w) else Settle(w));
  }
}
