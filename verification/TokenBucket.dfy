// services/traffic-oracle/src/rate_limit.ts: the token-bucket limiter. Levels are reals.
module TokenBucket {

  datatype Bucket = Bucket(tokens: real, lastRefillMs: int)
  datatype Limits = Limits(capacity: real, refillPerSec: real)
  type Buckets = map<string, Bucket>

  function Max(a: real, b: real): real { if a < b then b else a }
  function Min(a: real, b: real): real { if a < b then a else b }

  function Of(bs: Buckets, key: string, now: int, l: Limits): Bucket {
    if key in bs then bs[key] else Bucket(l.capacity, now)
  }

  // What a key may take at a time, before anything is taken.
  function Level(bs: Buckets, key: string, now: int, l: Limits): real {
    var b := Of(bs, key, now, l);
    Min(l.capacity, b.tokens + Max(0.0, (now - b.lastRefillMs) as real / 1000.0) * l.refillPerSec)
  }

  predicate Allows(bs: Buckets, key: string, now: int, l: Limits) {
    Level(bs, key, now, l) >= 1.0
  }

  function After(bs: Buckets, key: string, now: int, l: Limits): Buckets {
    var level := Level(bs, key, now, l);
    bs[key := Bucket(if Allows(bs, key, now, l) then level - 1.0 else level, now)]
  }

  class TokenBucketLimiter {
    var buckets: Buckets
    const limits: Limits

    constructor (capacity: real, refillPerSec: real)
      ensures buckets == map[] && limits == Limits(capacity, refillPerSec)
    {
      buckets := map[];
      limits := Limits(capacity, refillPerSec);
    }

    method Allow(key: string, now: int) returns (ok: bool)
      modifies this
      ensures ok == Allows(old(buckets), key, now, limits)
      ensures buckets == After(old(buckets), key, now, limits)
    {
      var bucket := if key in buckets then buckets[key] else Bucket(limits.capacity, now);
      var elapsedSec := Max(0.0, (now - bucket.lastRefillMs) as real / 1000.0);
      bucket := bucket.(tokens := Min(limits.capacity, bucket.tokens + elapsedSec * limits.refillPerSec));
      bucket := bucket.(lastRefillMs := now);
      if bucket.tokens < 1.0 {
        buckets := buckets[key := bucket];
        return false;
      }
      bucket := bucket.(tokens := bucket.tokens - 1.0);
      buckets := buckets[key := bucket];
      return true;
    }
  }

  // ---------- runs ----------

  datatype Call = Call(key: string, now: int)

  function RunAll(bs: Buckets, calls: seq<Call>, l: Limits): Buckets
    decreases |calls|
  {
    if calls == [] then bs else RunAll(After(bs, calls[0].key, calls[0].now, l), calls[1..], l)
  }

  // The answers one key receives in a run.
  function Answers(bs: Buckets, calls: seq<Call>, key: string, l: Limits): seq<bool>
    decreases |calls|
  {
    if calls == [] then []
    else
      var c := calls[0];
      (if c.key == key then [Allows(bs, key, c.now, l)] else [])
      + Answers(After(bs, c.key, c.now, l), calls[1..], key, l)
  }

  function Count(answers: seq<bool>): nat {
    if answers == [] then 0 else (if answers[0] then 1 else 0) + Count(answers[1..])
  }

  predicate NonDecreasing(calls: seq<Call>) {
    forall i, j :: 0 <= i < j < |calls| ==> calls[i].now <= calls[j].now
  }

  predicate Sane(l: Limits) {
    l.capacity >= 0.0 && l.refillPerSec >= 0.0
  }

  // A bucket never holds less than nothing and was last filled no later than t.
  predicate Settled(bs: Buckets, t: int) {
    forall k :: k in bs ==> bs[k].tokens >= 0.0 && bs[k].lastRefillMs <= t
  }

  function Refill(from: int, to: int, l: Limits): real {
    l.refillPerSec * (to - from) as real / 1000.0
  }

  lemma RefillAdds(a: int, b: int, c: int, l: Limits)
    requires a <= b <= c && l.refillPerSec >= 0.0
    ensures Refill(a, b, l) + Refill(b, c, l) == Refill(a, c, l) && Refill(a, b, l) >= 0.0 && Refill(b, c, l) >= 0.0
  {
    var r, x, y := l.refillPerSec, (b - a) as real, (c - b) as real;
    assert (c - a) as real == x + y;
    assert r * (x + y) == r * x + r * y;
    assert r * x >= 0.0 && r * y >= 0.0;
  }

  lemma LevelNow(bs: Buckets, key: string, now: int, l: Limits)
    requires Sane(l) && Settled(bs, now)
    ensures var b := Of(bs, key, now, l);
            Level(bs, key, now, l) == Min(l.capacity, b.tokens + Refill(b.lastRefillMs, now, l))
    ensures 0.0 <= Level(bs, key, now, l) <= l.capacity
  {
    var b := Of(bs, key, now, l);
    var x := (now - b.lastRefillMs) as real;
    assert x >= 0.0 && Max(0.0, x / 1000.0) == x / 1000.0;
    assert x / 1000.0 * l.refillPerSec == l.refillPerSec * x / 1000.0;
    assert l.refillPerSec * x >= 0.0;
  }

  lemma LevelGrows(bs: Buckets, key: string, t: int, u: int, l: Limits)
    requires Sane(l) && Settled(bs, t) && t <= u
    ensures Level(bs, key, u, l) <= Level(bs, key, t, l) + Refill(t, u, l)
  {
    LevelNow(bs, key, t, l);
    assert Settled(bs, u);
    LevelNow(bs, key, u, l);
    if key in bs {
      RefillAdds(bs[key].lastRefillMs, t, u, l);
    } else {
      RefillAdds(t, t, u, l);
    }
  }

  lemma AfterSettled(bs: Buckets, key: string, now: int, l: Limits)
    requires Sane(l) && Settled(bs, now)
    ensures Settled(After(bs, key, now, l), now)
    ensures Level(After(bs, key, now, l), key, now, l)
         == Level(bs, key, now, l) - (if Allows(bs, key, now, l) then 1.0 else 0.0)
  {
    LevelNow(bs, key, now, l);
    LevelNow(After(bs, key, now, l), key, now, l);
  }

  lemma {:induction false} LevelBoundsAllowed(bs: Buckets, calls: seq<Call>, key: string, l: Limits)
    requires Sane(l) && calls != [] && NonDecreasing(calls) && Settled(bs, calls[0].now)
    ensures Count(Answers(bs, calls, key, l)) as real
         <= Level(bs, key, calls[0].now, l) + Refill(calls[0].now, calls[|calls| - 1].now, l)
    decreases |calls|
  {
    var c, rest := calls[0], calls[1..];
    var next := After(bs, c.key, c.now, l);
    AfterSettled(bs, c.key, c.now, l);
    LevelNow(bs, key, c.now, l);
    LevelNow(next, key, c.now, l);
    assert c.key != key ==> Level(next, key, c.now, l) == Level(bs, key, c.now, l);
    if rest == [] {
      RefillAdds(c.now, c.now, c.now, l);
      assert Answers(next, rest, key, l) == [];
      assert Answers(bs, calls, key, l) == if c.key == key then [Allows(bs, key, c.now, l)] else [];
    } else {
      var t := rest[0].now;
      LevelBoundsAllowed(next, rest, key, l);
      LevelGrows(next, key, c.now, t, l);
      RefillAdds(c.now, t, calls[|calls| - 1].now, l);
      CountHead(bs, calls, key, l);
    }
  }

  lemma CountHead(bs: Buckets, calls: seq<Call>, key: string, l: Limits)
    requires calls != []
    ensures var c := calls[0];
            Count(Answers(bs, calls, key, l))
            == (if c.key == key && Allows(bs, key, c.now, l) then 1 else 0)
               + Count(Answers(After(bs, c.key, c.now, l), calls[1..], key, l))
  {
    var rest := Answers(After(bs, calls[0].key, calls[0].now, l), calls[1..], key, l);
    if calls[0].key == key {
      var a := Allows(bs, key, calls[0].now, l);
      assert ([a] + rest)[1..] == rest;
    } else {
      assert [] + rest == rest;
    }
  }

  lemma {:induction false} RunSettled(bs: Buckets, calls: seq<Call>, t: int, l: Limits)
    requires Sane(l) && NonDecreasing(calls)
    requires calls == [] ==> Settled(bs, t)
    requires calls != [] ==> Settled(bs, calls[0].now) && calls[|calls| - 1].now <= t
    ensures Settled(RunAll(bs, calls, l), t)
    decreases |calls|
  {
    if calls != [] {
      AfterSettled(bs, calls[0].key, calls[0].now, l);
      RunSettled(After(bs, calls[0].key, calls[0].now, l), calls[1..], t, l);
    }
  }

  lemma NothingSettled(t: int)
    ensures Settled(map[], t)
  {
  }

  // In any stretch of a run with a clock that does not go back, one key is allowed at most
  // the capacity plus what the stretch refills.
  lemma WindowBound(calls: seq<Call>, i: nat, j: nat, key: string, l: Limits)
    requires Sane(l) && NonDecreasing(calls) && i < j <= |calls|
    ensures Count(Answers(RunAll(map[], calls[..i], l), calls[i..j], key, l)) as real
         <= l.capacity + Refill(calls[i].now, calls[j - 1].now, l)
  {
    hide RunAll, Answers, Count, Level, Refill, Settled;
    var bs := RunAll(map[], calls[..i], l);
    NothingSettled(calls[i].now);
    NothingSettled(calls[0].now);
    RunSettled(map[], calls[..i], calls[i].now, l);
    LevelBoundsAllowed(bs, calls[i..j], key, l);
    LevelNow(bs, key, calls[i].now, l);
  }

  function OnlyKey(calls: seq<Call>, key: string): (r: seq<Call>)
    ensures forall c :: c in r ==> c in calls && c.key == key
  {
    if calls == [] then [] else (if calls[0].key == key then [calls[0]] else []) + OnlyKey(calls[1..], key)
  }

  predicate SameBucket(bs: Buckets, cs: Buckets, key: string) {
    (key in bs <==> key in cs) && (key in bs ==> bs[key] == cs[key])
  }

  // What a key is answered depends on nothing but its own bucket and its own calls.
  lemma {:induction false} KeysAreIndependent(bs: Buckets, cs: Buckets, calls: seq<Call>, key: string, l: Limits)
    requires SameBucket(bs, cs, key)
    ensures Answers(bs, calls, key, l) == Answers(cs, OnlyKey(calls, key), key, l)
    decreases |calls|
  {
    if calls != [] {
      var c := calls[0];
      var next := After(bs, c.key, c.now, l);
      var own := OnlyKey(calls[1..], key);
      if c.key == key {
        KeysAreIndependent(next, After(cs, key, c.now, l), calls[1..], key, l);
        assert ([c] + own)[1..] == own;
      } else {
        KeysAreIndependent(next, cs, calls[1..], key, l);
        assert [] + own == own;
        assert [] + Answers(next, calls[1..], key, l) == Answers(next, calls[1..], key, l);
      }
    }
  }

  // ---------- any clock ----------

  // The milliseconds by which the clock went forward between consecutive calls.
  function Forward(own: seq<Call>): (r: int)
    ensures r >= 0
  {
    if |own| < 2 then 0
    else (if own[1].now > own[0].now then own[1].now - own[0].now else 0) + Forward(own[1..])
  }

  predicate NotNegative(bs: Buckets) {
    forall k :: k in bs ==> bs[k].tokens >= 0.0
  }

  lemma StaysNotNegative(bs: Buckets, key: string, now: int, l: Limits)
    requires Sane(l) && NotNegative(bs)
    ensures NotNegative(After(bs, key, now, l)) && 0.0 <= Level(bs, key, now, l) <= l.capacity
  {
    var x := (now - Of(bs, key, now, l).lastRefillMs) as real / 1000.0;
    assert Max(0.0, x) * l.refillPerSec >= 0.0;
  }

  lemma {:induction false} RunNotNegative(bs: Buckets, calls: seq<Call>, l: Limits)
    requires Sane(l) && NotNegative(bs)
    ensures NotNegative(RunAll(bs, calls, l))
    decreases |calls|
  {
    if calls != [] {
      StaysNotNegative(bs, calls[0].key, calls[0].now, l);
      RunNotNegative(After(bs, calls[0].key, calls[0].now, l), calls[1..], l);
    }
  }

  // Whatever the clock does, a key's next level is what it was left with plus at most the
  // forward step.
  lemma NextLevel(bs: Buckets, key: string, t: int, u: int, l: Limits)
    requires Sane(l) && NotNegative(bs)
    ensures Level(After(bs, key, t, l), key, u, l)
         <= Level(bs, key, t, l) - (if Allows(bs, key, t, l) then 1.0 else 0.0)
            + Refill(0, if u > t then u - t else 0, l)
  {
    StaysNotNegative(bs, key, t, l);
    var x := (u - t) as real;
    assert x / 1000.0 * l.refillPerSec == l.refillPerSec * x / 1000.0;
    assert Refill(0, 0, l) == 0.0;
  }

  lemma {:induction false} OwnBoundsAllowed(bs: Buckets, own: seq<Call>, key: string, l: Limits)
    requires Sane(l) && NotNegative(bs) && own != [] && forall c :: c in own ==> c.key == key
    ensures Count(Answers(bs, own, key, l)) as real <= Level(bs, key, own[0].now, l) + Refill(0, Forward(own), l)
    decreases |own|
  {
    hide Level, Refill;
    var c, rest := own[0], own[1..];
    assert c in own;
    var next := After(bs, key, c.now, l);
    StaysNotNegative(bs, key, c.now, l);
    CountHead(bs, own, key, l);
    if rest == [] {
      OneCall(bs, key, c.now, l);
    } else {
      OwnBoundsAllowed(next, rest, key, l);
      NextLevel(bs, key, c.now, rest[0].now, l);
      var step := if rest[0].now > c.now then rest[0].now - c.now else 0;
      RefillSplits(step, Forward(rest), l);
    }
  }

  lemma OneCall(bs: Buckets, key: string, now: int, l: Limits)
    requires Sane(l) && NotNegative(bs)
    ensures (if Allows(bs, key, now, l) then 1.0 else 0.0) <= Level(bs, key, now, l) + Refill(0, 0, l)
  {
    StaysNotNegative(bs, key, now, l);
    assert Refill(0, 0, l) == 0.0;
  }

  lemma RefillSplits(a: int, b: int, l: Limits)
    ensures Refill(0, a + b, l) == Refill(0, a, l) + Refill(0, b, l)
  {
    var r, x, y := l.refillPerSec, a as real, b as real;
    assert (a + b) as real == x + y;
    assert r * (x + y) == r * x + r * y;
  }

  // Whatever the clock does: in any stretch of a run a key is allowed at most the capacity plus
  // what the forward steps between its own calls refill.
  lemma AnyClockBound(calls: seq<Call>, i: nat, j: nat, key: string, l: Limits)
    requires Sane(l) && i <= j <= |calls|
    ensures Count(Answers(RunAll(map[], calls[..i], l), calls[i..j], key, l)) as real
         <= l.capacity + Refill(0, Forward(OnlyKey(calls[i..j], key)), l)
  {
    var bs, own := RunAll(map[], calls[..i], l), OnlyKey(calls[i..j], key);
    RunNotNegative(map[], calls[..i], l);
    KeysAreIndependent(bs, bs, calls[i..j], key, l);
    if own == [] {
      assert Refill(0, 0, l) == 0.0;
    } else {
      StaysNotNegative(bs, key, own[0].now, l);
      OwnBoundsAllowed(bs, own, key, l);
    }
  }

  // The bound by the length of the stretch, for all limits, stretches and keys.
  ghost predicate WindowsBounded(calls: seq<Call>) {
    forall i: nat, j: nat, key: string, l: Limits :: Sane(l) && i < j <= |calls| ==>
      Count(Answers(RunAll(map[], calls[..i], l), calls[i..j], key, l)) as real
      <= l.capacity + Refill(calls[i].now, calls[j - 1].now, l)
  }

  predicate AllHold(bs: Buckets, n: real) {
    forall k :: k in bs ==> bs[k].tokens >= n
  }

  // A bucket loses at most one token a call.
  lemma {:induction false} TokensLeft(bs: Buckets, calls: seq<Call>, n: real, l: Limits)
    requires Sane(l) && l.capacity >= n >= |calls| as real && AllHold(bs, n)
    ensures AllHold(RunAll(bs, calls, l), n - |calls| as real)
    decreases |calls|
  {
    if calls != [] {
      var c := calls[0];
      LevelAtLeast(bs, c.key, c.now, n, l);
      assert |calls| as real == |calls[1..]| as real + 1.0;
      TokensLeft(After(bs, c.key, c.now, l), calls[1..], n - 1.0, l);
      assert n - |calls| as real == n - 1.0 - |calls[1..]| as real;
    }
  }

  lemma LevelAtLeast(bs: Buckets, key: string, now: int, n: real, l: Limits)
    requires Sane(l) && l.capacity >= n && AllHold(bs, n)
    ensures Level(bs, key, now, l) >= n
  {
    var x := (now - Of(bs, key, now, l).lastRefillMs) as real / 1000.0;
    assert Max(0.0, x) * l.refillPerSec >= 0.0;
  }

  // Over one step back, with room for every call and a fast refill, the length of the stretch
  // promises less than the one call that is allowed.
  lemma StepBackBreaksBound(calls: seq<Call>, p: nat)
    requires p + 1 < |calls| && calls[p].now > calls[p + 1].now
    ensures var l := Limits(|calls| as real, 1000.0 * |calls| as real);
            && Sane(l)
            && Count(Answers(RunAll(map[], calls[..p], l), calls[p..p + 2], calls[p].key, l)) as real
               > l.capacity + Refill(calls[p].now, calls[p + 1].now, l)
  {
    hide Level;
    var n := |calls| as real;
    var l := Limits(n, 1000.0 * n);
    var bs, key := RunAll(map[], calls[..p], l), calls[p].key;
    TokensLeft(map[], calls[..p], n, l);
    LevelAtLeast(bs, key, calls[p].now, n - p as real, l);
    CountHead(bs, calls[p..p + 2], key, l);
    NegativeRefill(n, (calls[p + 1].now - calls[p].now) as real);
  }

  lemma NegativeRefill(n: real, x: real)
    requires n > 0.0 && x <= -1.0
    ensures n + 1000.0 * n * x / 1000.0 <= 0.0
  {
    assert n * x <= n * -1.0;
    assert 1000.0 * n * x / 1000.0 == n * x;
  }

  lemma {:induction false} StepsUp(calls: seq<Call>, i: nat, j: nat)
    requires i <= j < |calls| && forall p: nat :: p + 1 < |calls| ==> calls[p].now <= calls[p + 1].now
    ensures calls[i].now <= calls[j].now
    decreases j
  {
    if i < j {
      StepsUp(calls, i, j - 1);
      assert calls[j - 1].now <= calls[j - 1 + 1].now;
    }
  }

  // The length of a stretch bounds what is allowed in it exactly when the clock never goes back.
  lemma WindowsBoundedExactly(calls: seq<Call>)
    ensures WindowsBounded(calls) <==> NonDecreasing(calls)
  {
    hide Refill, Answers, RunAll, Count, Sane;
    if NonDecreasing(calls) {
      forall i: nat, j: nat, key: string, l: Limits | Sane(l) && i < j <= |calls|
        ensures Count(Answers(RunAll(map[], calls[..i], l), calls[i..j], key, l)) as real
             <= l.capacity + Refill(calls[i].now, calls[j - 1].now, l)
      {
        WindowBound(calls, i, j, key, l);
      }
    } else if forall p: nat :: p + 1 < |calls| ==> calls[p].now <= calls[p + 1].now {
      forall i, j | 0 <= i < j < |calls| ensures calls[i].now <= calls[j].now {
        StepsUp(calls, i, j);
      }
    } else {
      var p: nat :| p + 1 < |calls| && calls[p].now > calls[p + 1].now;
      StepBackBreaksBound(calls, p);
    }
  }

  // Consecutive calls of the key at least 1000 / refillPerSec milliseconds apart.
  predicate Spaced(own: seq<Call>, l: Limits) {
    forall i :: 0 <= i < |own| - 1 ==> (own[i + 1].now - own[i].now) as real * l.refillPerSec >= 1000.0
  }

  lemma {:induction false} SpacedOwnCalls(bs: Buckets, own: seq<Call>, key: string, l: Limits)
    requires l.capacity >= 1.0 && l.refillPerSec > 0.0
    requires (forall c :: c in own ==> c.key == key) && Spaced(own, l)
    requires own != [] ==> Allows(bs, key, own[0].now, l)
    ensures forall a :: a in Answers(bs, own, key, l) ==> a
    decreases |own|
  {
    if own != [] {
      hide Level;
      var next := After(bs, key, own[0].now, l);
      assert own[0] in own;
      if |own| > 1 {
        assert (own[1].now - own[0].now) as real * l.refillPerSec >= 1000.0;
        RefilledInTime(bs, key, own[0].now, own[1].now, l);
      }
      SpacedRest(own, l);
      SpacedOwnCalls(next, own[1..], key, l);
    }
  }

  lemma SpacedRest(own: seq<Call>, l: Limits)
    requires own != [] && Spaced(own, l)
    ensures Spaced(own[1..], l)
  {
    forall i | 0 <= i < |own[1..]| - 1
      ensures (own[1..][i + 1].now - own[1..][i].now) as real * l.refillPerSec >= 1000.0
    {
      assert own[1..][i] == own[i + 1];
    }
  }

  lemma RefilledInTime(bs: Buckets, key: string, t: int, u: int, l: Limits)
    requires l.capacity >= 1.0 && l.refillPerSec > 0.0
    requires Allows(bs, key, t, l) && (u - t) as real * l.refillPerSec >= 1000.0
    ensures Allows(After(bs, key, t, l), key, u, l)
  {
    GapFills((u - t) as real, l);
  }

  lemma GapFills(gap: real, l: Limits)
    requires l.refillPerSec > 0.0 && gap * l.refillPerSec >= 1000.0
    ensures Max(0.0, gap / 1000.0) * l.refillPerSec >= 1.0
  {
    GapPositive(gap, l.refillPerSec);
    assert gap / 1000.0 * l.refillPerSec == gap * l.refillPerSec / 1000.0;
  }

  lemma GapPositive(gap: real, rate: real)
    requires rate > 0.0
    ensures gap * rate > 0.0 ==> gap > 0.0
  {
  }

  // With room for one token, a caller that keeps the spacing is never refused, whatever the
  // other keys do.
  lemma SpacedCallerNeverRefused(calls: seq<Call>, key: string, l: Limits)
    requires l.capacity >= 1.0 && l.refillPerSec > 0.0 && Spaced(OnlyKey(calls, key), l)
    ensures forall a :: a in Answers(map[], calls, key, l) ==> a
  {
    var own := OnlyKey(calls, key);
    KeysAreIndependent(map[], map[], calls, key, l);
    SpacedOwnCalls(map[], own, key, l);
  }

  // ---------- who is allowed, exactly ----------

  // From the m-th call on, what was allowed and one more fit into the start level and what the
  // clock's forward steps refilled since.
  predicate RoomFor(answers: seq<bool>, own: seq<Call>, m: nat, n: nat, start: real, l: Limits)
    requires m <= n < |answers| == |own|
  {
    Count(answers[m..n]) as real + 1.0 <= start + Refill(0, Forward(own[m..n + 1]), l)
  }

  lemma {:induction false} OneAnswerEach(bs: Buckets, own: seq<Call>, key: string, l: Limits)
    requires forall c :: c in own ==> c.key == key
    ensures |Answers(bs, own, key, l)| == |own|
    ensures own != [] ==>
              var c := own[0];
              Answers(bs, own, key, l)
              == [Allows(bs, key, c.now, l)] + Answers(After(bs, key, c.now, l), own[1..], key, l)
    decreases |own|
  {
    if own != [] {
      assert own[0] in own;
      OneAnswerEach(After(bs, key, own[0].now, l), own[1..], key, l);
    }
  }

  lemma LevelOfNext(bs: Buckets, key: string, t: int, u: int, l: Limits)
    ensures Level(After(bs, key, t, l), key, u, l)
         == Min(l.capacity, Level(bs, key, t, l) - (if Allows(bs, key, t, l) then 1.0 else 0.0)
                            + Refill(0, if u > t then u - t else 0, l))
  {
    var x := (u - t) as real;
    assert x / 1000.0 * l.refillPerSec == l.refillPerSec * x / 1000.0;
    assert Refill(0, 0, l) == 0.0;
  }

  lemma RoomAhead(answers: seq<bool>, own: seq<Call>, n: nat, start: real, l: Limits)
    requires 1 <= n < |answers| == |own|
    ensures var step := if own[1].now > own[0].now then own[1].now - own[0].now else 0;
            RoomFor(answers, own, 0, n, start, l)
            <==> RoomFor(answers[1..], own[1..], 0, n - 1,
                         start - (if answers[0] then 1.0 else 0.0) + Refill(0, step, l), l)
  {
    var step := if own[1].now > own[0].now then own[1].now - own[0].now else 0;
    var front := own[0..n + 1];
    assert front[1..] == own[1..][0..n];
    assert answers[0..n][1..] == answers[1..][0..n - 1];
    RefillSplits(step, Forward(front[1..]), l);
    hide Refill;
  }

  lemma RoomShifted(answers: seq<bool>, own: seq<Call>, m: nat, n: nat, start: real, l: Limits)
    requires 1 <= m <= n < |answers| == |own|
    ensures RoomFor(answers, own, m, n, start, l) <==> RoomFor(answers[1..], own[1..], m - 1, n - 1, start, l)
  {
    assert own[1..][m - 1..n] == own[m..n + 1] && answers[1..][m - 1..n - 1] == answers[m..n];
    hide Forward, Count, Refill;
  }

  lemma {:induction false} AllowedFrom(bs: Buckets, own: seq<Call>, key: string, n: nat, l: Limits)
    requires n < |own| && forall c :: c in own ==> c.key == key
    ensures var a := Answers(bs, own, key, l);
            && |a| == |own|
            && (a[n] <==> RoomFor(a, own, 0, n, Level(bs, key, own[0].now, l), l)
                          && forall m: nat :: 1 <= m <= n ==> RoomFor(a, own, m, n, l.capacity, l))
    decreases |own|
  {
    OneAnswerEach(bs, own, key, l);
    var a, c := Answers(bs, own, key, l), own[0];
    if n == 0 {
      assert Refill(0, 0, l) == 0.0;
      assert a[0..0] == [] && |own[0..1]| == 1;
    } else {
      hide RoomFor, Level, Refill, Answers, After, Allows;
      var next := After(bs, key, c.now, l);
      AllowedFrom(next, own[1..], key, n - 1, l);
      assert a[1..] == Answers(next, own[1..], key, l);
      LevelOfNext(bs, key, c.now, own[1].now, l);
      RoomAhead(a, own, n, Level(bs, key, c.now, l), l);
      var step := if own[1].now > c.now then own[1].now - c.now else 0;
      var left := Level(bs, key, c.now, l) - (if a[0] then 1.0 else 0.0) + Refill(0, step, l);
      RoomForLess(a[1..], own[1..], n - 1, l.capacity, left, l);
      forall m: nat | 1 <= m <= n
        ensures RoomFor(a, own, m, n, l.capacity, l)
           <==> RoomFor(a[1..], own[1..], m - 1, n - 1, l.capacity, l)
      {
        RoomShifted(a, own, m, n, l.capacity, l);
      }
      assert a[n] == a[1..][n - 1];
      AllShifted(a, own, n - 1, n, l);
    }
  }

  lemma RoomForLess(answers: seq<bool>, own: seq<Call>, n: nat, x: real, y: real, l: Limits)
    requires n < |answers| == |own|
    ensures RoomFor(answers, own, 0, n, Min(x, y), l)
       <==> RoomFor(answers, own, 0, n, x, l) && RoomFor(answers, own, 0, n, y, l)
  {
    hide Forward, Count, Refill;
  }

  lemma AllShifted(a: seq<bool>, own: seq<Call>, k: nat, n: nat, l: Limits)
    requires 1 <= n < |a| == |own| && k + 1 == n
    ensures (forall m: nat :: 1 <= m <= n ==> RoomFor(a, own, m, n, l.capacity, l))
       <==> RoomFor(a[1..], own[1..], 0, k, l.capacity, l)
            && forall m: nat :: 1 <= m <= k ==> RoomFor(a[1..], own[1..], m, k, l.capacity, l)
  {
    hide RoomFor;
    forall m: nat | 1 <= m <= n
      ensures RoomFor(a, own, m, n, l.capacity, l) <==> RoomFor(a[1..], own[1..], m - 1, k, l.capacity, l)
    {
      RoomShifted(a, own, m, n, l.capacity, l);
    }
    if forall m: nat :: 1 <= m <= n ==> RoomFor(a, own, m, n, l.capacity, l) {
      forall m: nat | m <= k ensures RoomFor(a[1..], own[1..], m, k, l.capacity, l) {
        assert RoomFor(a, own, m + 1, n, l.capacity, l);
      }
    }
  }

  // A key's call is allowed exactly when, counted back from it to any earlier call of the key,
  // what was allowed and this one fit into the capacity and what was refilled: for all limits,
  // all clocks, and whatever the other keys do.
  lemma AllowedExactly(calls: seq<Call>, key: string, n: nat, l: Limits)
    requires n < |OnlyKey(calls, key)|
    ensures var a, own := Answers(map[], calls, key, l), OnlyKey(calls, key);
            && |a| == |own|
            && (a[n] <==> forall m: nat :: m <= n ==> RoomFor(a, own, m, n, l.capacity, l))
  {
    var own := OnlyKey(calls, key);
    KeysAreIndependent(map[], map[], calls, key, l);
    AllowedFrom(map[], own, key, n, l);
    assert Level(map[], key, own[0].now, l) == l.capacity;
    hide RoomFor, Level;
  }
}
