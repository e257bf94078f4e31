// gateway/src/adapters/recursive.ts: the TTL cache of createRecursiveAdapter. A step is one
// asker's synchronous part, or the settlement of one refresh with everything that awaits it.
module Cache {
  import opened Sorting
  import opened Bytes
  import opened Quorum
  import opened Names

  // The cfg fields as given, where zero means "not set" to the || defaults, and the name
  // normalizer shared by the adapters.
  datatype Config = Config(staleMaxS: int, prefetchFraction: real, cacheMaxEntries: int, normalize: string -> string)

  function StaleMax(c: Config): (r: nat) {
    Max(0, if c.staleMaxS == 0 then 1800 else c.staleMaxS)
  }

  function MaxEntries(c: Config): (r: nat)
    ensures r >= 1
  {
    Max(1, if c.cacheMaxEntries == 0 then 50000 else c.cacheMaxEntries)
  }

  function Threshold(c: Config, ttlS: int): (r: int) {
    Max(5, (ttlS as real * (if c.prefetchFraction == 0.0 then 0.1 else c.prefetchFraction)).Floor)
  }

  datatype Audit = Audit(url: string, rttMs: int, status: Status, answersCount: nat)
  datatype Payload = Payload(answers: seq<DnsRecord>, status: Status, confidence: Confidence, rrsetHash: string,
                             upstreamsUsed: seq<Audit>, chosenUrl: string, chosenRttMs: int)
  datatype Entry = Entry(qname: string, qtype: string, payload: Payload, ttlS: int,
                         fetchedAt: int, expiresAt: int, staleUntil: int)

  // What queryUpstreams and selectBest gave a refresh.
  datatype Refreshed = Refreshed(upstreams: seq<Upstream>, selection: Selection)

  function AuditOf(u: Upstream): Audit {
    Audit(u.url, u.rttMs, u.status, |u.answers|)
  }

  function PayloadOf(r: Refreshed): Payload {
    var s := r.selection;
    Payload(if s.status == NOERROR then s.chosen.answers else [], s.status, s.confidence, s.chosen.rrsetHash,
            Map(r.upstreams, AuditOf), s.chosen.url, s.chosen.rttMs)
  }

  function NewEntry(c: Config, qname: string, qtype: string, r: Refreshed, now: int): Entry {
    var ttl := r.selection.ttlS;
    Entry(qname, qtype, PayloadOf(r), ttl, now, now + ttl, now + ttl + StaleMax(c))
  }

  // ---------- the Map, in insertion order ----------

  datatype Slot = Slot(key: string, entry: Entry)

  function Lookup(cache: seq<Slot>, k: string): Option<Entry> {
    if cache == [] then None
    else if cache[0].key == k then Some(cache[0].entry)
    else Lookup(cache[1..], k)
  }

  // A key that is already there keeps its place.
  function Put(cache: seq<Slot>, k: string, e: Entry): seq<Slot> {
    if cache == [] then [Slot(k, e)]
    else if cache[0].key == k then [Slot(k, e)] + cache[1..]
    else [cache[0]] + Put(cache[1..], k, e)
  }

  function OtherThan(k: string): Slot -> bool {
    (s: Slot) => s.key != k
  }

  function Delete(cache: seq<Slot>, k: string): seq<Slot> {
    Filter(cache, OtherThan(k))
  }

  function DeleteAll(cache: seq<Slot>, slots: seq<Slot>): seq<Slot>
    decreases |slots|
  {
    if slots == [] then cache
    else Delete(DeleteAll(cache, slots[..|slots| - 1]), slots[|slots| - 1].key)
  }

  function Older(): (Slot, Slot) -> bool {
    (a: Slot, b: Slot) => a.entry.fetchedAt <= b.entry.fetchedAt
  }

  function Evict(cache: seq<Slot>, max: nat): seq<Slot> {
    if |cache| <= max then cache else DeleteAll(cache, Sort(cache, Older())[..|cache| - max])
  }

  ghost predicate Distinct(cache: seq<Slot>) {
    forall i, j :: 0 <= i < j < |cache| ==> cache[i].key != cache[j].key
  }

  // Every other slot has another key.
  lemma OthersDiffer(cache: seq<Slot>, i: nat)
    requires Distinct(cache) && i < |cache|
    ensures forall x :: x in cache[..i] || x in cache[i + 1..] ==> x.key != cache[i].key
  {
    forall j | 0 <= j < |cache| && j != i ensures cache[j].key != cache[i].key {
      assert j < i ==> cache[j].key != cache[i].key;
    }
  }

  lemma SameKey(cache: seq<Slot>, a: Slot, b: Slot)
    requires Distinct(cache) && a in cache && b in cache && a.key == b.key
    ensures a == b
  {
    var i :| 0 <= i < |cache| && cache[i] == a;
    OthersDiffer(cache, i);
    assert cache == cache[..i] + [a] + cache[i + 1..];
  }

  lemma {:induction false} LookupMember(cache: seq<Slot>, k: string, e: Entry)
    requires Distinct(cache)
    ensures Lookup(cache, k) == Some(e) <==> Slot(k, e) in cache
  {
    if cache != [] {
      assert cache == [cache[0]] + cache[1..];
      OthersDiffer(cache, 0);
      LookupMember(cache[1..], k, e);
    }
  }

  lemma ConsDistinct(s: Slot, rest: seq<Slot>)
    requires Distinct(rest) && forall x :: x in rest ==> x.key != s.key
    ensures Distinct([s] + rest)
  {
    var r := [s] + rest;
    forall i, j | 0 <= i < j < |r| ensures r[i].key != r[j].key {
      assert r[j] == rest[j - 1] && r[j] in rest;
    }
  }

  lemma {:induction false} PutMember(cache: seq<Slot>, k: string, e: Entry)
    requires Distinct(cache)
    ensures Distinct(Put(cache, k, e))
    ensures forall s :: s in Put(cache, k, e) <==> s == Slot(k, e) || (s in cache && s.key != k)
  {
    if cache != [] {
      var head, rest := cache[0], cache[1..];
      assert cache == [head] + rest;
      OthersDiffer(cache, 0);
      if head.key == k {
        ConsDistinct(Slot(k, e), rest);
      } else {
        PutMember(rest, k, e);
        ConsDistinct(head, Put(rest, k, e));
      }
    }
  }

  // A key that was there changes nothing else; one that was not comes last.
  lemma {:induction false} PutShape(cache: seq<Slot>, k: string, e: Entry)
    ensures Lookup(cache, k).None? ==> Put(cache, k, e) == cache + [Slot(k, e)]
    ensures Lookup(cache, k).Some? ==> |Put(cache, k, e)| == |cache|
  {
    if cache != [] {
      assert cache == [cache[0]] + cache[1..];
      PutShape(cache[1..], k, e);
    }
  }

  lemma {:induction false} DeleteMember(cache: seq<Slot>, s: Slot)
    requires Distinct(cache)
    ensures Distinct(Delete(cache, s.key))
    ensures forall x :: x in Delete(cache, s.key) <==> x in cache && x.key != s.key
    ensures s in cache ==> |Delete(cache, s.key)| == |cache| - 1
    ensures (forall x :: x in cache ==> x.key != s.key) ==> Delete(cache, s.key) == cache
  {
    if cache != [] {
      var head, rest := cache[0], cache[1..];
      assert cache == [head] + rest;
      OthersDiffer(cache, 0);
      DeleteMember(rest, s);
      if head.key != s.key {
        ConsDistinct(head, Delete(rest, s.key));
      }
    }
  }

  lemma {:induction false} DeleteAllMember(cache: seq<Slot>, slots: seq<Slot>)
    requires Distinct(cache) && Distinct(slots) && forall s :: s in slots ==> s in cache
    ensures Distinct(DeleteAll(cache, slots))
    ensures forall x :: x in DeleteAll(cache, slots) <==> x in cache && x !in slots
    ensures |DeleteAll(cache, slots)| == |cache| - |slots|
    decreases |slots|
  {
    if slots != [] {
      var m := |slots| - 1;
      var front, last := slots[..m], slots[m];
      assert slots == front + [last];
      DeleteAllMember(cache, front);
      OthersDiffer(slots, m);
      DeleteMember(DeleteAll(cache, front), last);
      forall x | x in cache && x.key == last.key ensures x == last {
        SameKey(cache, x, last);
      }
    }
  }

  lemma OlderIsPreorder()
    ensures TotalPreorder(Older())
  {
  }

  lemma OnceInMultiset(a: seq<Slot>, x: Slot)
    requires Distinct(a) && x in a
    ensures multiset(a)[x] == 1
  {
    var i :| 0 <= i < |a| && a[i] == x;
    OthersDiffer(a, i);
    var before, after := a[..i], a[i + 1..];
    assert a == before + [x] + after;
    assert x !in multiset(before) && x !in multiset(after);
  }

  lemma TwiceInMultiset(b: seq<Slot>, i: nat, j: nat)
    requires i < j < |b|
    ensures b[i] == b[j] ==> multiset(b)[b[i]] >= 2
  {
    assert b == b[..j] + [b[j]] + b[j + 1..];
    assert b[i] in b[..j];
    assert multiset(b[..j])[b[i]] >= 1;
  }

  lemma PermutedDistinct(a: seq<Slot>, b: seq<Slot>)
    requires multiset(a) == multiset(b) && Distinct(a)
    ensures Distinct(b)
  {
    MembersOf(a, b);
    forall i, j | 0 <= i < j < |b| ensures b[i].key != b[j].key {
      TwiceInMultiset(b, i, j);
      OnceInMultiset(a, b[i]);
      DifferentSlots(a, b[i], b[j]);
    }
  }

  lemma DifferentSlots(cache: seq<Slot>, a: Slot, b: Slot)
    requires Distinct(cache) && a in cache && b in cache && a != b
    ensures a.key != b.key
  {
    if a.key == b.key {
      SameKey(cache, a, b);
    }
  }

  // The k oldest, in the order they go.
  lemma OldestFirst(cache: seq<Slot>, k: nat)
    requires Distinct(cache) && k <= |cache|
    ensures var gone := Sort(cache, Older())[..k];
            && Distinct(gone)
            && (forall d :: d in gone ==> d in cache)
            && (forall d, s :: d in gone && s in cache && s !in gone ==> d.entry.fetchedAt <= s.entry.fetchedAt)
  {
    hide Sort;
    var items := Sort(cache, Older());
    MembersOf(items, cache);
    SortedDistinct(cache);
    forall d, s | d in items[..k] && s in cache && s !in items[..k] ensures d.entry.fetchedAt <= s.entry.fetchedAt {
      FrontIsOlder(cache, k, d, s);
    }
  }

  lemma FrontIsOlder(cache: seq<Slot>, k: nat, d: Slot, s: Slot)
    requires k <= |cache|
    requires d in Sort(cache, Older())[..k] && s in cache && s !in Sort(cache, Older())[..k]
    ensures d.entry.fetchedAt <= s.entry.fetchedAt
  {
    hide Sort;
    var items := Sort(cache, Older());
    OlderIsPreorder();
    SortSorted(cache, Older());
    MembersOf(items, cache);
    assert items == items[..k] + items[k..];
    var i :| 0 <= i < k && items[i] == d;
    var j :| 0 <= j < |items| - k && items[k..][j] == s;
    assert items[k + j] == s;
    assert Older()(items[i], items[k + j]);
  }

  // Eviction leaves exactly what fits, and nothing it drops is younger than what it keeps.
  lemma EvictionKeepsYoungest(cache: seq<Slot>, max: nat)
    requires Distinct(cache)
    ensures var r := Evict(cache, max);
            && Distinct(r)
            && |r| == (if |cache| <= max then |cache| else max)
            && (forall s :: s in r ==> s in cache)
            && (forall s, d :: s in r && d in cache && d !in r ==> d.entry.fetchedAt <= s.entry.fetchedAt)
  {
    if |cache| > max {
      var k := |cache| - max;
      OldestFirst(cache, k);
      DeleteAllMember(cache, Sort(cache, Older())[..k]);
    }
  }

  lemma {:induction false} SortAppend(s: seq<Slot>, x: Slot)
    requires forall y :: y in s ==> y.entry.fetchedAt <= x.entry.fetchedAt
    ensures Sort(s + [x], Older()) == Sort(s, Older()) + [x]
  {
    if s == [] {
      assert s + [x] == [x];
      assert Sort([x], Older()) == Insert(x, Sort([x][1..], Older()), Older());
      assert [x][1..] == [];
    } else {
      assert (s + [x])[1..] == s[1..] + [x];
      SortAppend(s[1..], x);
      InsertBefore(s[0], Sort(s[1..], Older()), x);
    }
  }

  lemma {:induction false} InsertBefore(y: Slot, t: seq<Slot>, x: Slot)
    requires y.entry.fetchedAt <= x.entry.fetchedAt
    ensures Insert(y, t + [x], Older()) == Insert(y, t, Older()) + [x]
  {
    if t == [] {
      assert t + [x] == [x];
      assert Insert(y, [x], Older()) == [y] + [x];
    } else {
      assert (t + [x])[1..] == t[1..] + [x];
      if Older()(y, t[0]) {
        assert [y] + (t + [x]) == ([y] + t) + [x];
      } else {
        InsertBefore(y, t[1..], x);
      }
    }
  }

  // From a cache within its bound, and with nothing younger in it, a refreshed key survives
  // its own eviction.
  lemma RefreshedSurvives(cache: seq<Slot>, k: string, e: Entry, max: nat)
    requires Distinct(cache) && 1 <= max && |cache| <= max
    requires forall s :: s in cache ==> s.entry.fetchedAt <= e.fetchedAt
    ensures Slot(k, e) in Evict(Put(cache, k, e), max)
  {
    hide Sort, Put, DeleteAll, Insert, Distinct, Lookup, Older;
    var x := Slot(k, e);
    PutMember(cache, k, e);
    PutShape(cache, k, e);
    if |Put(cache, k, e)| > max {
      hide Evict;
      SortAppend(cache, x);
      LastSurvives(cache + [x], x, max);
    }
  }

  lemma LastSurvives(put: seq<Slot>, x: Slot, max: nat)
    requires Distinct(put) && |put| == max + 1 >= 2 && x in put
    requires Sort(put, Older())[max] == x
    ensures x in Evict(put, max)
  {
    hide Sort, DeleteAll, Insert, Distinct;
    OldestFirst(put, 1);
    SortedDistinct(put);
    LastIsNotFirst(Sort(put, Older()));
    DeleteAllMember(put, Sort(put, Older())[..1]);
  }

  lemma LastIsNotFirst(items: seq<Slot>)
    requires Distinct(items) && |items| >= 2
    ensures items[|items| - 1] !in items[..1]
  {
  }

  lemma SortedDistinct(cache: seq<Slot>)
    requires Distinct(cache)
    ensures Distinct(Sort(cache, Older()))
  {
    PermutedDistinct(cache, Sort(cache, Older()));
  }

  // ---------- one adapter ----------

  // A refresh under way. A prefetch falls back on the entry that was cached when it began.
  datatype Flight = Prefetch(qname: string, qtype: string, existing: Entry) | Foreground(qname: string, qtype: string)

  // An asker awaiting the refresh of its key, with what it found in the cache.
  datatype Waiter = Waiter(id: nat, key: string, qname: string, qtype: string, existing: Option<Entry>, asked: int)

  datatype State = State(cache: seq<Slot>, inFlight: map<string, Flight>, waiting: seq<Waiter>)

  datatype Source = FromCache | FromUpstream | Stale
  datatype Answer =
    | Resolved(name: string, qtype: string, payload: Payload, ttlS: int, source: Source)
    | UpstreamFailed
    | UnsupportedQtype

  datatype Reply = Reply(id: nat, answer: Answer)

  datatype Event =
    | Ask(id: nat, name: string, qtype: string, now: int)
    | Settle(key: string, now: int, outcome: Outcome<Refreshed>)

  datatype Stepped = Stepped(state: State, replies: seq<Reply>)

  function Upper(s: string): (r: string) {
    seq(|s|, i requires 0 <= i < |s| => if 'a' <= s[i] <= 'z' then (s[i] as int - 32) as char else s[i])
  }

  predicate Supported(qtype: string) {
    Upper(qtype) == "A" || Upper(qtype) == "AAAA"
  }

  // The name is normalized by resolveRecursive and once more by key.
  function KeyOf(c: Config, name: string, qtype: string): string {
    c.normalize(c.normalize(name)) + ":" + Upper(qtype)
  }

  predicate Fresh(existing: Option<Entry>, now: int) {
    existing.Some? && now < existing.value.expiresAt
  }

  function AskStep(c: Config, s: State, e: Event): Stepped
    requires e.Ask?
  {
    if !Supported(e.qtype) then Stepped(s, [Reply(e.id, UnsupportedQtype)])
    else
      var qname, q := c.normalize(e.name), Upper(e.qtype);
      var k := KeyOf(c, e.name, e.qtype);
      var existing := Lookup(s.cache, k);
      if Fresh(existing, e.now) then
        var entry := existing.value;
        var left := entry.expiresAt - e.now;
        var early := left < Threshold(c, entry.ttlS) && k !in s.inFlight;
        Stepped(if early then s.(inFlight := s.inFlight[k := Prefetch(qname, q, entry)]) else s,
                [Reply(e.id, Resolved(qname, q, entry.payload, left, FromCache))])
      else
        Stepped(s.(inFlight := if k in s.inFlight then s.inFlight else s.inFlight[k := Foreground(qname, q)],
                   waiting := s.waiting + [Waiter(e.id, k, qname, q, existing, e.now)]), [])
  }

  // What one waiter gets when the refresh it awaits settles.
  function AnswerTo(f: Flight, w: Waiter, e: Event): Answer
    requires e.Settle?
  {
    match e.outcome
    case Ok(r) => Resolved(f.qname, f.qtype, PayloadOf(r), r.selection.ttlS, FromUpstream)
    case Throws =>
      match f
      case Prefetch(qname, qtype, x) => Resolved(qname, qtype, x.payload, Max(0, x.expiresAt - e.now), Stale)
      case Foreground(_, _) =>
        if w.existing.Some? && w.asked <= w.existing.value.staleUntil then
          var x := w.existing.value;
          Resolved(w.qname, w.qtype, x.payload, Max(0, x.expiresAt - w.asked), Stale)
        else UpstreamFailed
  }

  function Awaits(k: string): Waiter -> bool {
    (w: Waiter) => w.key == k
  }

  function AwaitsOther(k: string): Waiter -> bool {
    (w: Waiter) => w.key != k
  }

  function ReplyTo(f: Flight, e: Event): Waiter -> Reply
    requires e.Settle?
  {
    (w: Waiter) => Reply(w.id, AnswerTo(f, w, e))
  }

  function Refresh(c: Config, cache: seq<Slot>, k: string, f: Flight, r: Refreshed, now: int): seq<Slot> {
    Evict(Put(cache, k, NewEntry(c, f.qname, f.qtype, r, now)), MaxEntries(c))
  }

  function SettleStep(c: Config, s: State, e: Event): Stepped
    requires e.Settle? && e.key in s.inFlight
  {
    var f := s.inFlight[e.key];
    Stepped(State(if e.outcome.Ok? then Refresh(c, s.cache, e.key, f, e.outcome.value, e.now) else s.cache,
                  s.inFlight - {e.key}, Filter(s.waiting, AwaitsOther(e.key))),
            Map(Filter(s.waiting, Awaits(e.key)), ReplyTo(f, e)))
  }

  // ---------- runs from an empty cache ----------

  predicate Enabled(s: State, e: Event) {
    e.Settle? ==> e.key in s.inFlight
  }

  function Step(c: Config, s: State, e: Event): Stepped
    requires Enabled(s, e)
  {
    if e.Ask? then AskStep(c, s, e) else SettleStep(c, s, e)
  }

  // Refreshes settle only while under way, and the clock never goes back.
  predicate ValidRun(c: Config, es: seq<Event>)
    decreases |es|, 0
  {
    es == [] ||
    var m := |es| - 1;
    ValidRun(c, es[..m]) && Enabled(After(c, es[..m]), es[m]) && (m == 0 || es[m - 1].now <= es[m].now)
  }

  function After(c: Config, es: seq<Event>): State
    requires ValidRun(c, es)
    decreases |es|, 1
  {
    if es == [] then State([], map[], [])
    else Step(c, After(c, es[..|es| - 1]), es[|es| - 1]).state
  }

  // The entry made by the last successful refresh of k.
  function LastRefresh(c: Config, es: seq<Event>, k: string): Option<Entry>
    requires ValidRun(c, es)
    decreases |es|
  {
    if es == [] then None
    else
      var m := |es| - 1;
      var s, e := After(c, es[..m]), es[m];
      if e.Settle? && e.key == k && e.outcome.Ok? then
        Some(NewEntry(c, s.inFlight[k].qname, s.inFlight[k].qtype, e.outcome.value, e.now))
      else LastRefresh(c, es[..m], k)
  }

  lemma {:induction false} PrefixValid(c: Config, es: seq<Event>, j: nat)
    requires ValidRun(c, es) && j <= |es|
    ensures ValidRun(c, es[..j])
    decreases |es|
  {
    if j < |es| {
      var m := |es| - 1;
      PrefixValid(c, es[..m], j);
      assert es[..m][..j] == es[..j];
    } else {
      assert es[..j] == es;
    }
  }

  // es[j] asks for key k.
  predicate Asks(c: Config, e: Event, k: string) {
    e.Ask? && Supported(e.qtype) && KeyOf(c, e.name, e.qtype) == k
  }

  // What the cache held for k when es[j] came.
  function Held(c: Config, es: seq<Event>, j: nat, k: string): Option<Entry>
    requires ValidRun(c, es) && j < |es|
  {
    PrefixValid(c, es, j);
    Lookup(After(c, es[..j]).cache, k)
  }

  // The flight of k at the time es[j] came.
  function PendingAt(c: Config, es: seq<Event>, j: nat, k: string): Option<Flight>
    requires ValidRun(c, es) && j < |es|
  {
    PrefixValid(c, es, j);
    var fs := After(c, es[..j]).inFlight;
    if k in fs then Some(fs[k]) else None
  }

  // No refresh of k settles from es[j] on.
  predicate NotSettledSince(es: seq<Event>, j: nat, k: string) {
    forall n :: j <= n < |es| ==> !(es[n].Settle? && es[n].key == k)
  }

  // es[j] started the flight f of k, which is still under way.
  ghost predicate FlightBegan(c: Config, es: seq<Event>, j: nat, k: string, f: Flight)
    requires ValidRun(c, es) && j < |es|
  {
    && Asks(c, es[j], k) && f.qname == c.normalize(es[j].name) && f.qtype == Upper(es[j].qtype)
    && PendingAt(c, es, j, k) == None && NotSettledSince(es, j, k)
    && (f.Prefetch? ==> Held(c, es, j, k) == Some(f.existing) && es[j].now < f.existing.expiresAt)
  }

  // es[j] is the ask of w, which is still waiting.
  ghost predicate WaiterCame(c: Config, es: seq<Event>, j: nat, w: Waiter)
    requires ValidRun(c, es) && j < |es|
  {
    && Asks(c, es[j], w.key) && es[j].id == w.id && es[j].now == w.asked
    && w.qname == c.normalize(es[j].name) && w.qtype == Upper(es[j].qtype)
    && w.existing == Held(c, es, j, w.key) && !Fresh(w.existing, w.asked) && NotSettledSince(es, j, w.key)
  }

  predicate WellTimed(c: Config, x: Entry) {
    x.expiresAt == x.fetchedAt + x.ttlS && x.staleUntil == x.expiresAt + StaleMax(c)
  }

  ghost predicate CacheSound(c: Config, es: seq<Event>)
    requires ValidRun(c, es)
  {
    var cache := After(c, es).cache;
    && Distinct(cache) && |cache| <= MaxEntries(c)
    && forall x :: x in cache ==>
         && LastRefresh(c, es, x.key) == Some(x.entry) && WellTimed(c, x.entry)
         && es != [] && x.entry.fetchedAt <= es[|es| - 1].now
  }

  ghost predicate FlightsSound(c: Config, es: seq<Event>)
    requires ValidRun(c, es)
  {
    var s := After(c, es);
    forall k :: k in s.inFlight ==> exists j :: 0 <= j < |es| && FlightBegan(c, es, j, k, s.inFlight[k])
  }

  ghost predicate WaitersSound(c: Config, es: seq<Event>)
    requires ValidRun(c, es)
  {
    var s := After(c, es);
    forall w :: w in s.waiting ==> w.key in s.inFlight && exists j :: 0 <= j < |es| && WaiterCame(c, es, j, w)
  }

  lemma CacheStaysSound(c: Config, es: seq<Event>)
    requires ValidRun(c, es) && es != [] && CacheSound(c, es[..|es| - 1])
    ensures CacheSound(c, es)
  {
    var m := |es| - 1;
    hide Lookup, Refresh, Threshold, Filter, PayloadOf, Distinct;
    var s, e := After(c, es[..m]), es[m];
    assert m > 0 ==> es[..m][m - 1] == es[m - 1];
    if e.Settle? && e.outcome.Ok? {
      RefreshedMembers(c, s.cache, e.key, s.inFlight[e.key], e.outcome.value, e.now);
    }
  }

  lemma RefreshedMembers(c: Config, cache: seq<Slot>, k: string, f: Flight, r: Refreshed, now: int)
    requires Distinct(cache)
    ensures var x := NewEntry(c, f.qname, f.qtype, r, now);
            var after := Refresh(c, cache, k, f, r, now);
            && Distinct(after) && |after| <= MaxEntries(c)
            && forall s :: s in after ==> s == Slot(k, x) || (s in cache && s.key != k)
  {
    hide Put, Evict, PayloadOf, Distinct;
    var x := NewEntry(c, f.qname, f.qtype, r, now);
    PutMember(cache, k, x);
    EvictionKeepsYoungest(Put(cache, k, x), MaxEntries(c));
  }

  lemma HeldBefore(c: Config, es: seq<Event>, j: nat, k: string)
    requires ValidRun(c, es) && j < |es| - 1
    ensures ValidRun(c, es[..|es| - 1]) && Held(c, es, j, k) == Held(c, es[..|es| - 1], j, k)
    ensures PendingAt(c, es, j, k) == PendingAt(c, es[..|es| - 1], j, k)
  {
    assert es[..|es| - 1][..j] == es[..j];
  }

  lemma NewFlightBegan(c: Config, es: seq<Event>, k: string)
    requires ValidRun(c, es) && es != []
    requires k in After(c, es).inFlight && k !in After(c, es[..|es| - 1]).inFlight
    ensures FlightBegan(c, es, |es| - 1, k, After(c, es).inFlight[k])
  {
    hide Lookup, LastRefresh, Threshold, Filter, KeyOf;
  }

  lemma OldFlightStays(c: Config, es: seq<Event>, j: nat, k: string)
    requires ValidRun(c, es) && j < |es| - 1
    requires k in After(c, es).inFlight && k in After(c, es[..|es| - 1]).inFlight
    requires FlightBegan(c, es[..|es| - 1], j, k, After(c, es[..|es| - 1]).inFlight[k])
    ensures FlightBegan(c, es, j, k, After(c, es).inFlight[k])
  {
    hide FlightBegan, After, Step;
    OneStepOfFlights(c, es, k);
    FlightBeganBefore(c, es, j, k, After(c, es).inFlight[k]);
  }

  lemma FlightBeganBefore(c: Config, es: seq<Event>, j: nat, k: string, f: Flight)
    requires ValidRun(c, es) && j < |es| - 1 && FlightBegan(c, es[..|es| - 1], j, k, f)
    requires !(es[|es| - 1].Settle? && es[|es| - 1].key == k)
    ensures FlightBegan(c, es, j, k, f)
  {
    hide Held, PendingAt, KeyOf, Upper, After, ValidRun;
    HeldBefore(c, es, j, k);
    assert es[..|es| - 1][j] == es[j];
  }

  // A flight that is under way stays as it is until its key settles.
  lemma OneStepOfFlights(c: Config, es: seq<Event>, k: string)
    requires ValidRun(c, es) && es != [] && k in After(c, es[..|es| - 1]).inFlight
    ensures var e := es[|es| - 1];
            && (k in After(c, es).inFlight <==> !(e.Settle? && e.key == k))
            && (k in After(c, es).inFlight ==> After(c, es).inFlight[k] == After(c, es[..|es| - 1]).inFlight[k])
  {
    hide Lookup, LastRefresh, Threshold, Filter, KeyOf;
  }

  lemma FlightsStaySound(c: Config, es: seq<Event>)
    requires ValidRun(c, es) && es != [] && FlightsSound(c, es[..|es| - 1])
    ensures FlightsSound(c, es)
  {
    hide FlightBegan, Step;
    var m := |es| - 1;
    forall k | k in After(c, es).inFlight
      ensures exists j :: 0 <= j < |es| && FlightBegan(c, es, j, k, After(c, es).inFlight[k])
    {
      if k in After(c, es[..m]).inFlight {
        var j :| 0 <= j < m && FlightBegan(c, es[..m], j, k, After(c, es[..m]).inFlight[k]);
        OldFlightStays(c, es, j, k);
      } else {
        NewFlightBegan(c, es, k);
      }
    }
  }

  lemma NewWaiterCame(c: Config, es: seq<Event>, w: Waiter)
    requires ValidRun(c, es) && es != []
    requires w in After(c, es).waiting && w !in After(c, es[..|es| - 1]).waiting
    ensures WaiterCame(c, es, |es| - 1, w) && w.key in After(c, es).inFlight
  {
    hide Lookup, LastRefresh, Threshold, Filter, KeyOf;
    var s := After(c, es[..|es| - 1]);
    assert es[|es| - 1].Ask?;
    assert forall v :: v in s.waiting + [w] ==> v in s.waiting || v == w;
  }

  lemma OldWaiterStays(c: Config, es: seq<Event>, w: Waiter)
    requires ValidRun(c, es) && es != []
    requires w in After(c, es).waiting && w in After(c, es[..|es| - 1]).waiting
    requires w.key in After(c, es[..|es| - 1]).inFlight
    ensures w.key in After(c, es).inFlight && !(es[|es| - 1].Settle? && es[|es| - 1].key == w.key)
  {
    hide Lookup, LastRefresh, Threshold, KeyOf, Put, Evict;
  }

  lemma WaiterCameLater(c: Config, es: seq<Event>, j: nat, w: Waiter)
    requires ValidRun(c, es) && j < |es| - 1 && WaiterCame(c, es[..|es| - 1], j, w)
    requires !(es[|es| - 1].Settle? && es[|es| - 1].key == w.key)
    ensures WaiterCame(c, es, j, w)
  {
    hide Held, PendingAt, KeyOf, Upper, After, ValidRun, Fresh;
    HeldBefore(c, es, j, w.key);
    assert es[..|es| - 1][j] == es[j];
  }

  lemma WaitersStaySound(c: Config, es: seq<Event>)
    requires ValidRun(c, es) && es != [] && WaitersSound(c, es[..|es| - 1])
    ensures WaitersSound(c, es)
  {
    hide WaiterCame, AskStep, SettleStep;
    var m := |es| - 1;
    forall w | w in After(c, es).waiting
      ensures w.key in After(c, es).inFlight && exists j :: 0 <= j < |es| && WaiterCame(c, es, j, w)
    {
      if w in After(c, es[..m]).waiting {
        OldWaiterStays(c, es, w);
        var j :| 0 <= j < m && WaiterCame(c, es[..m], j, w);
        WaiterCameLater(c, es, j, w);
      } else {
        NewWaiterCame(c, es, w);
      }
    }
  }

  // In every run: one slot a key, never more than the bound, every slot the last successful
  // refresh of its key; every refresh under way was started by an ask of its key, a prefetch on
  // a fresh entry; and nobody waits for a refresh that is not under way, so no asker is
  // forgotten.
  lemma {:induction false} RunSound(c: Config, es: seq<Event>)
    requires ValidRun(c, es)
    ensures CacheSound(c, es) && FlightsSound(c, es) && WaitersSound(c, es)
    decreases |es|
  {
    if es != [] {
      RunSound(c, es[..|es| - 1]);
      CacheStaysSound(c, es);
      FlightsStaySound(c, es);
      WaitersStaySound(c, es);
    }
  }

  // ---------- flights and the askers that join them ----------

  lemma PrefixOfPrefix(es: seq<Event>, m: nat, j: nat)
    requires j <= m <= |es|
    ensures es[..m][..j] == es[..j]
  {
  }

  // Until its key settles, a flight is kept.
  lemma {:induction false} FlightKept(c: Config, es: seq<Event>, j: nat, k: string)
    requires ValidRun(c, es) && j <= |es| && NotSettledSince(es, j, k)
    requires ValidRun(c, es[..j]) && k in After(c, es[..j]).inFlight
    ensures k in After(c, es).inFlight && After(c, es).inFlight[k] == After(c, es[..j]).inFlight[k]
    decreases |es|
  {
    hide Step;
    PrefixValid(c, es, j);
    if j == |es| {
      assert es[..j] == es;
    } else {
      var m := |es| - 1;
      PrefixOfPrefix(es, m, j);
      FlightKept(c, es[..m], j, k);
      OneStepOfFlights(c, es, k);
    }
  }

  // And so is the newest refresh of the key.
  lemma {:induction false} NewestKept(c: Config, es: seq<Event>, j: nat, k: string)
    requires ValidRun(c, es) && j <= |es| && NotSettledSince(es, j, k)
    ensures ValidRun(c, es[..j]) && LastRefresh(c, es, k) == LastRefresh(c, es[..j], k)
    decreases |es|
  {
    hide Step, After;
    PrefixValid(c, es, j);
    if j == |es| {
      assert es[..j] == es;
    } else {
      PrefixOfPrefix(es, |es| - 1, j);
      NewestKept(c, es[..|es| - 1], j, k);
    }
  }

  // The flight a waiter awaits is the one its own ask found, or started.
  lemma WaiterJoins(c: Config, es: seq<Event>, j: nat, w: Waiter)
    requires ValidRun(c, es) && j < |es| && WaiterCame(c, es, j, w)
    ensures var fs, f := After(c, es).inFlight, PendingAt(c, es, j, w.key);
            w.key in fs && fs[w.key] == if f.Some? then f.value else Foreground(w.qname, w.qtype)
  {
    hide Step, Lookup, Fresh, KeyOf, Upper;
    PrefixValid(c, es, j + 1);
    PrefixOfPrefix(es, j + 1, j);
    assert es[..j + 1][j] == es[j];
    AskJoins(c, es[..j + 1], w);
    FlightKept(c, es, j + 1, w.key);
  }

  lemma AskJoins(c: Config, es: seq<Event>, w: Waiter)
    requires ValidRun(c, es) && es != [] && WaiterCame(c, es, |es| - 1, w)
    ensures var fs, f := After(c, es).inFlight, PendingAt(c, es, |es| - 1, w.key);
            w.key in fs && fs[w.key] == if f.Some? then f.value else Foreground(w.qname, w.qtype)
  {
    hide Lookup, LastRefresh, Threshold;
  }

  // ---------- where every answer comes from ----------

  // x is the newest successful refresh of k in the run so far.
  ghost predicate Newest(c: Config, es: seq<Event>, k: string, x: Entry, now: int)
    requires ValidRun(c, es)
  {
    LastRefresh(c, es, k) == Some(x) && WellTimed(c, x) && x.fetchedAt <= now
  }

  // es[j] asked for k and x was then the newest successful refresh of k.
  ghost predicate FoundAt(c: Config, es: seq<Event>, j: nat, k: string, x: Entry)
    requires ValidRun(c, es)
  {
    j < |es| && Asks(c, es[j], k) && (PrefixValid(c, es, j); Newest(c, es[..j], k, x, es[j].now))
  }

  // es[j] is the ask that is now answered for k under this id.
  predicate AskedBy(c: Config, es: seq<Event>, j: nat, k: string, id: nat) {
    j < |es| && Asks(c, es[j], k) && es[j].id == id && NotSettledSince(es, j, k)
  }

  predicate Named(c: Config, e: Event, a: Answer)
    requires e.Ask? && a.Resolved?
  {
    a.name == c.normalize(e.name) && a.qtype == Upper(e.qtype)
  }

  // Fresh from upstream, under the name that started the refresh.
  ghost predicate FromRefresh(c: Config, es: seq<Event>, i: nat, j: nat, k: string, rep: Reply)
    requires ValidRun(c, es) && rep.answer.Resolved?
  {
    && AskedBy(c, es, j, k, rep.id) && i <= j && Asks(c, es[i], k) && Named(c, es[i], rep.answer)
    && PendingAt(c, es, i, k) == None && NotSettledSince(es, i, k)
  }

  // The error path: the asker's own entry, expired when it asked but not past staleUntil.
  ghost predicate StaleOnError(c: Config, es: seq<Event>, j: nat, k: string, x: Entry, rep: Reply)
    requires ValidRun(c, es) && rep.answer.Resolved?
  {
    && AskedBy(c, es, j, k, rep.id) && FoundAt(c, es, j, k, x) && Held(c, es, j, k) == Some(x)
    && Named(c, es[j], rep.answer) && x.expiresAt <= es[j].now <= x.staleUntil
    && rep.answer.payload == x.payload && rep.answer.ttlS == 0
  }

  // A failed prefetch: es[i] began it on an entry then fresh, es[j] joined it after that entry
  // had expired or been evicted.
  ghost predicate StaleOnPrefetch(c: Config, es: seq<Event>, i: nat, j: nat, k: string, x: Entry, now: int, rep: Reply)
    requires ValidRun(c, es) && rep.answer.Resolved?
  {
    && AskedBy(c, es, j, k, rep.id) && i < j && FoundAt(c, es, i, k, x) && es[i].now < x.expiresAt
    && Named(c, es[i], rep.answer)
    && PendingAt(c, es, j, k) == Some(Prefetch(rep.answer.name, rep.answer.qtype, x))
    && (Held(c, es, j, k) == None || (Held(c, es, j, k) == Some(x) && x.expiresAt <= es[j].now))
    && rep.answer.payload == x.payload && rep.answer.ttlS == Max(0, x.expiresAt - now)
  }

  // What an asker found may still be served on the error path.
  ghost predicate UsableAt(c: Config, es: seq<Event>, j: nat, k: string)
    requires ValidRun(c, es) && j < |es|
  {
    Held(c, es, j, k).Some? && es[j].now <= Held(c, es, j, k).value.staleUntil
  }

  ghost predicate PrefetchPendingAt(c: Config, es: seq<Event>, j: nat, k: string)
    requires ValidRun(c, es) && j < |es|
  {
    PendingAt(c, es, j, k).Some? && PendingAt(c, es, j, k).value.Prefetch?
  }

  ghost predicate FailedFor(c: Config, es: seq<Event>, j: nat, k: string, id: nat)
    requires ValidRun(c, es)
  {
    AskedBy(c, es, j, k, id) && !UsableAt(c, es, j, k) && !PrefetchPendingAt(c, es, j, k)
  }

  // rep, given when e comes after es, is accounted for.
  ghost predicate Accounted(c: Config, es: seq<Event>, e: Event, rep: Reply)
    requires ValidRun(c, es)
  {
    match rep.answer
    case UnsupportedQtype => e.Ask? && rep.id == e.id && !Supported(e.qtype)
    case UpstreamFailed => e.Settle? && e.outcome.Throws? && exists j :: FailedFor(c, es, j, e.key, rep.id)
    case Resolved(_, _, payload, ttlS, source) =>
      match source
      case FromCache =>
        && e.Ask? && rep.id == e.id && Named(c, e, rep.answer)
        && exists x :: Newest(c, es, KeyOf(c, e.name, e.qtype), x, e.now)
                       && e.now < x.fetchedAt + x.ttlS && payload == x.payload && ttlS == x.fetchedAt + x.ttlS - e.now
      case FromUpstream =>
        && e.Settle? && e.outcome.Ok? && payload == PayloadOf(e.outcome.value) && ttlS == e.outcome.value.selection.ttlS
        && exists i, j :: FromRefresh(c, es, i, j, e.key, rep)
      case Stale =>
        && e.Settle? && e.outcome.Throws?
        && ((exists j, x :: StaleOnError(c, es, j, e.key, x, rep))
            || (exists i, j, x :: StaleOnPrefetch(c, es, i, j, e.key, x, e.now, rep)))
  }

  lemma CachedIsNewest(c: Config, es: seq<Event>, k: string, now: int)
    requires ValidRun(c, es) && Lookup(After(c, es).cache, k).Some?
    requires es != [] ==> es[|es| - 1].now <= now
    ensures Newest(c, es, k, Lookup(After(c, es).cache, k).value, now)
  {
    hide Lookup, LastRefresh, AskStep, SettleStep, After, ValidRun, WellTimed;
    RunSound(c, es);
    var x := Lookup(After(c, es).cache, k).value;
    LookupMember(After(c, es).cache, k, x);
    assert Slot(k, x) in After(c, es).cache;
  }

  lemma HeldIsNewest(c: Config, es: seq<Event>, j: nat, k: string)
    requires ValidRun(c, es) && j < |es| && Asks(c, es[j], k) && Held(c, es, j, k).Some?
    ensures FoundAt(c, es, j, k, Held(c, es, j, k).value)
  {
    hide Lookup, LastRefresh, AskStep, SettleStep, KeyOf, Upper, After, ValidRun, Newest;
    PrefixValid(c, es, j);
    LastOfPrefix(es, j);
    ClockMoves(c, es, j);
    CachedIsNewest(c, es[..j], k, es[j].now);
  }

  lemma LastOfPrefix(es: seq<Event>, j: nat)
    requires j <= |es|
    ensures j > 0 ==> es[..j][|es[..j]| - 1] == es[j - 1]
  {
  }

  lemma ClockMoves(c: Config, es: seq<Event>, j: nat)
    requires ValidRun(c, es) && j < |es|
    ensures j > 0 ==> es[j - 1].now <= es[j].now
  {
    PrefixValid(c, es, j + 1);
    assert es[..j + 1][j] == es[j];
    assert j > 0 ==> es[..j + 1][j - 1] == es[j - 1];
  }

  lemma CacheAnswerAccounted(c: Config, es: seq<Event>, e: Event, rep: Reply)
    requires ValidRun(c, es) && e.Ask? && (es != [] ==> es[|es| - 1].now <= e.now)
    requires rep in AskStep(c, After(c, es), e).replies
    ensures Accounted(c, es, e, rep)
  {
    hide Lookup, LastRefresh, After, ValidRun, KeyOf, Upper, Threshold;
    var k := KeyOf(c, e.name, e.qtype);
    if Supported(e.qtype) && Lookup(After(c, es).cache, k).Some? {
      CachedIsNewest(c, es, k, e.now);
    }
  }

  lemma FilterFrom<T>(s: seq<T>, p: T -> bool, f: T -> Reply, rep: Reply) returns (x: T)
    requires rep in Map(Filter(s, p), f)
    ensures x in s && p(x) && f(x) == rep
  {
    var i :| 0 <= i < |Filter(s, p)| && Map(Filter(s, p), f)[i] == rep;
    x := Filter(s, p)[i];
  }

  // A prefetch was begun before any of its waiters came, and none of them found anything newer.
  lemma PrefetchJoined(c: Config, es: seq<Event>, i: nat, j: nat, w: Waiter, f: Flight)
    requires ValidRun(c, es) && i < |es| && j < |es| && WaiterCame(c, es, j, w)
    requires f.Prefetch? && FlightBegan(c, es, i, w.key, f)
    ensures i < j && FoundAt(c, es, i, w.key, f.existing)
    ensures Held(c, es, j, w.key) == None || Held(c, es, j, w.key) == Some(f.existing)
  {
    hide Lookup, LastRefresh, AskStep, SettleStep, KeyOf, Upper, After, ValidRun;
    HeldIsNewest(c, es, i, w.key);
    if j < i {
      PrefixValid(c, es, i);
      PrefixOfPrefix(es, i, j);
      StillWaiting(c, es, i, j, w);
      WaiterJoins(c, es[..i], j, w);
    }
    if i < j && Held(c, es, j, w.key).Some? {
      HeldIsNewest(c, es, j, w.key);
      PrefixValid(c, es, j);
      PrefixOfPrefix(es, j, i);
      NewestKept(c, es[..j], i, w.key);
    }
  }

  lemma StillWaiting(c: Config, es: seq<Event>, m: nat, j: nat, w: Waiter)
    requires ValidRun(c, es) && j < m <= |es| && WaiterCame(c, es, j, w)
    ensures ValidRun(c, es[..m]) && WaiterCame(c, es[..m], j, w)
  {
    hide Lookup, LastRefresh, KeyOf, Upper, After, ValidRun, Fresh;
    PrefixValid(c, es, m);
    PrefixOfPrefix(es, m, j);
  }

  lemma WaiterAccounted(c: Config, es: seq<Event>, e: Event, j: nat, i: nat, w: Waiter)
    requires ValidRun(c, es) && e.Settle? && e.key == w.key && e.key in After(c, es).inFlight
    requires j < |es| && WaiterCame(c, es, j, w)
    requires i < |es| && FlightBegan(c, es, i, e.key, After(c, es).inFlight[e.key])
    ensures Accounted(c, es, e, Reply(w.id, AnswerTo(After(c, es).inFlight[e.key], w, e)))
  {
    hide Lookup, After, KeyOf, Upper, PayloadOf, LastRefresh, Newest;
    var f := After(c, es).inFlight[e.key];
    var rep := Reply(w.id, AnswerTo(f, w, e));
    WaiterJoins(c, es, j, w);
    if e.outcome.Ok? {
      BegunBefore(c, es, i, j, w, f);
      assert FromRefresh(c, es, i, j, e.key, rep);
    } else if f.Prefetch? {
      PrefetchJoined(c, es, i, j, w, f);
      assert StaleOnPrefetch(c, es, i, j, e.key, f.existing, e.now, rep);
    } else if w.existing.Some? && w.asked <= w.existing.value.staleUntil {
      HeldIsNewest(c, es, j, e.key);
      assert StaleOnError(c, es, j, e.key, w.existing.value, rep);
    } else {
      assert FailedFor(c, es, j, e.key, rep.id);
    }
  }

  lemma BegunBefore(c: Config, es: seq<Event>, i: nat, j: nat, w: Waiter, f: Flight)
    requires ValidRun(c, es) && i < |es| && j < |es| && WaiterCame(c, es, j, w) && FlightBegan(c, es, i, w.key, f)
    ensures i <= j
  {
    hide Lookup, LastRefresh, AskStep, SettleStep, KeyOf, Upper, After, ValidRun;
    if j < i {
      StillWaiting(c, es, i, j, w);
      WaiterJoins(c, es[..i], j, w);
    }
  }

  // Every answer given in a run is accounted for. A "cache" answer is the newest successful
  // refresh of the asker's key, still within its time to live, with exactly what is left of it,
  // under the asker's name. An "upstream" answer is what the refresh the asker awaited gave,
  // under the name that started it. A "stale" answer on the error path is what the asker
  // itself found, expired but not past staleUntil; after a failed prefetch it is the entry the
  // prefetch began on, fresh then, and the asker found that entry expired, or nothing. The error
  // reaches only an asker that found nothing usable and no prefetch pending.
  lemma EveryAnswerAccounted(c: Config, es: seq<Event>, e: Event, rep: Reply)
    requires ValidRun(c, es) && Enabled(After(c, es), e) && (es != [] ==> es[|es| - 1].now <= e.now)
    requires rep in Step(c, After(c, es), e).replies
    ensures Accounted(c, es, e, rep)
  {
    hide AnswerTo, Accounted, WaiterCame, FlightBegan, CacheSound;
    var s := After(c, es);
    if e.Ask? {
      CacheAnswerAccounted(c, es, e, rep);
    } else {
      var f := s.inFlight[e.key];
      var w := FilterFrom(s.waiting, Awaits(e.key), ReplyTo(f, e), rep);
      RunSound(c, es);
      var j :| 0 <= j < |es| && WaiterCame(c, es, j, w);
      var i :| 0 <= i < |es| && FlightBegan(c, es, i, e.key, f);
      WaiterAccounted(c, es, e, j, i, w);
    }
  }

  lemma {:induction false} FilterKeeps<T(!new)>(s: seq<T>, p: T -> bool, x: T)
    requires x in s && p(x)
    ensures x in Filter(s, p)
  {
    if s[0] != x {
      assert x in s[1..];
      FilterKeeps(s[1..], p, x);
    }
  }

  // When a refresh fails, an asker that awaits it is answered with an entry exactly when what it
  // found was not past staleUntil, or a prefetch was pending when it came. So past staleUntil
  // it is answered exactly when a prefetch was pending.
  lemma FailureAnswersExactly(c: Config, es: seq<Event>, e: Event, j: nat, w: Waiter)
    requires ValidRun(c, es) && e.Settle? && e.outcome.Throws? && e.key == w.key
    requires j < |es| && WaiterCame(c, es, j, w) && w in After(c, es).waiting
    ensures e.key in After(c, es).inFlight
    ensures var rep := Reply(w.id, AnswerTo(After(c, es).inFlight[e.key], w, e));
            && rep in SettleStep(c, After(c, es), e).replies
            && (rep.answer.Resolved? <==> UsableAt(c, es, j, e.key) || PrefetchPendingAt(c, es, j, e.key))
  {
    hide After, Lookup, KeyOf, Upper, Filter, Map;
    WaiterJoins(c, es, j, w);
    var s := After(c, es);
    FilterKeeps(s.waiting, Awaits(e.key), w);
    ReplyAmong(Filter(s.waiting, Awaits(e.key)), ReplyTo(s.inFlight[e.key], e), w);
  }

  lemma ReplyAmong(ws: seq<Waiter>, f: Waiter -> Reply, w: Waiter)
    requires w in ws
    ensures f(w) in Map(ws, f)
  {
    var i :| 0 <= i < |ws| && ws[i] == w;
    assert Map(ws, f)[i] == f(w);
  }

  // ---------- every answer goes back to what the upstreams gave ----------

  // es[n] settled the refresh of k with r.
  predicate SettledWith(es: seq<Event>, n: nat, k: string, r: Refreshed) {
    n < |es| && es[n].Settle? && es[n].key == k && es[n].outcome == Ok(r)
  }

  // No refresh of k succeeds from es[n] on.
  predicate NotRefreshedSince(es: seq<Event>, n: nat, k: string) {
    forall m :: n <= m < |es| ==> !(es[m].Settle? && es[m].key == k && es[m].outcome.Ok?)
  }

  // p says what r selected and which upstreams were asked.
  predicate Describes(p: Payload, r: Refreshed) {
    var s := r.selection;
    && p.answers == (if s.status == NXDOMAIN then [] else if s.status == NOERROR then s.chosen.answers else [])
    && p.status == s.status && p.confidence == s.confidence && p.rrsetHash == s.chosen.rrsetHash
    && p.chosenUrl == s.chosen.url && p.chosenRttMs == s.chosen.rttMs
    && |p.upstreamsUsed| == |r.upstreams|
    && forall i :: 0 <= i < |r.upstreams| ==>
         var a, u := p.upstreamsUsed[i], r.upstreams[i];
         a.url == u.url && a.rttMs == u.rttMs && a.status == u.status && a.answersCount == |u.answers|
  }

  // x is what a refresh that settled at this time with r leaves in the cache.
  predicate EntryOf(c: Config, x: Entry, r: Refreshed, at: int) {
    && Describes(x.payload, r) && x.ttlS == r.selection.ttlS
    && x.fetchedAt == at && x.expiresAt == at + r.selection.ttlS
    && x.staleUntil == x.expiresAt + (if c.staleMaxS == 0 then 1800 else if c.staleMaxS < 0 then 0 else c.staleMaxS)
  }

  lemma {:induction false} LastRefreshSettled(c: Config, es: seq<Event>, k: string) returns (n: nat, r: Refreshed)
    requires ValidRun(c, es) && LastRefresh(c, es, k).Some?
    ensures SettledWith(es, n, k, r) && NotRefreshedSince(es, n + 1, k)
    ensures EntryOf(c, LastRefresh(c, es, k).value, r, es[n].now)
    decreases |es|
  {
    hide Step;
    var m := |es| - 1;
    if es[m].Settle? && es[m].key == k && es[m].outcome.Ok? {
      n, r := m, es[m].outcome.value;
    } else {
      n, r := LastRefreshSettled(c, es[..m], k);
    }
  }

  // So it is for everything the cache holds.
  lemma SlotSettled(c: Config, es: seq<Event>, x: Slot) returns (n: nat, r: Refreshed)
    requires ValidRun(c, es) && x in After(c, es).cache
    ensures SettledWith(es, n, x.key, r) && NotRefreshedSince(es, n + 1, x.key) && EntryOf(c, x.entry, r, es[n].now)
  {
    hide LastRefresh, After, EntryOf;
    RunSound(c, es);
    n, r := LastRefreshSettled(c, es, x.key);
  }

  lemma {:induction false} ClockInOrder(c: Config, es: seq<Event>, j: nat)
    requires ValidRun(c, es) && j < |es|
    ensures es[j].now <= es[|es| - 1].now
    decreases |es|
  {
    hide Enabled, After;
    var m := |es| - 1;
    if j < m {
      ClockInOrder(c, es[..m], j);
    }
  }

  // What an asker found goes back to a settlement before it asked.
  lemma FoundSettled(c: Config, es: seq<Event>, j: nat, k: string, x: Entry) returns (n: nat, r: Refreshed)
    requires ValidRun(c, es) && FoundAt(c, es, j, k, x)
    ensures n < j && SettledWith(es, n, k, r) && EntryOf(c, x, r, es[n].now)
    ensures NotRefreshedSince(es[..j], n + 1, k)
  {
    hide LastRefresh, EntryOf, After, KeyOf, Upper;
    PrefixValid(c, es, j);
    n, r := LastRefreshSettled(c, es[..j], k);
  }

  // Every resolved answer of a run goes back to a successful settlement of its key and says what
  // was selected there: at once, from the newest one still fresh, or from an older one after a
  // failure; and it carries what is left of that time to live.
  lemma AnswerSettled(c: Config, es: seq<Event>, e: Event, rep: Reply) returns (n: nat, k: string, r: Refreshed)
    requires ValidRun(c, es) && Enabled(After(c, es), e) && (es != [] ==> es[|es| - 1].now <= e.now)
    requires rep in Step(c, After(c, es), e).replies && rep.answer.Resolved?
    ensures SettledWith(es + [e], n, k, r) && Describes(rep.answer.payload, r)
    ensures if e.Ask? then Asks(c, e, k) else e.key == k
    ensures var left := (es + [e])[n].now + r.selection.ttlS - e.now;
            match rep.answer.source
            case FromUpstream => n == |es| && rep.answer.ttlS == r.selection.ttlS
            case FromCache => e.Ask? && NotRefreshedSince(es, n + 1, k) && rep.answer.ttlS == left && left > 0
            case Stale => e.Settle? && e.outcome.Throws? && rep.answer.ttlS == if left < 0 then 0 else left
  {
    hide Describes, Step, FoundAt, AskedBy, After, LastRefresh, FromRefresh, KeyOf, Upper, EntryOf;
    EveryAnswerAccounted(c, es, e, rep);
    var run := es + [e];
    match rep.answer.source
    case FromUpstream =>
      n, k, r := |es|, e.key, e.outcome.value;
      PayloadDescribes(r);
    case FromCache =>
      AnswersSupported(c, es, e, rep);
      k := KeyOf(c, e.name, e.qtype);
      var x: Entry :| Newest(c, es, k, x, e.now) && e.now < x.fetchedAt + x.ttlS
                      && rep.answer.payload == x.payload && rep.answer.ttlS == x.fetchedAt + x.ttlS - e.now;
      n, r := LastRefreshSettled(c, es, k);
      EntryTimes(c, x, r, es[n].now);
      assert run[n] == es[n];
    case Stale =>
      k := e.key;
      if exists j, x :: StaleOnError(c, es, j, k, x, rep) {
        var j: nat, x: Entry :| StaleOnError(c, es, j, k, x, rep);
        n, r := FoundSettled(c, es, j, k, x);
        EntryTimes(c, x, r, es[n].now);
        JIsAsked(c, es, j, k, rep.id);
        ClockInOrder(c, es, j);
      } else {
        var i: nat, j: nat, x: Entry :| StaleOnPrefetch(c, es, i, j, k, x, e.now, rep);
        n, r := FoundSettled(c, es, i, k, x);
        EntryTimes(c, x, r, es[n].now);
      }
      assert run[n] == es[n];
  }

  lemma JIsAsked(c: Config, es: seq<Event>, j: nat, k: string, id: nat)
    requires AskedBy(c, es, j, k, id)
    ensures j < |es|
  {
  }

  lemma AnswersSupported(c: Config, es: seq<Event>, e: Event, rep: Reply)
    requires ValidRun(c, es) && e.Ask? && rep in Step(c, After(c, es), e).replies && rep.answer.Resolved?
    ensures Asks(c, e, KeyOf(c, e.name, e.qtype))
  {
    hide Lookup, After, KeyOf, Upper, Threshold;
  }

  lemma EntryTimes(c: Config, x: Entry, r: Refreshed, at: int)
    requires EntryOf(c, x, r, at)
    ensures Describes(x.payload, r) && x.ttlS == r.selection.ttlS && x.fetchedAt == at && x.expiresAt == at + x.ttlS
  {
  }

  lemma PayloadDescribes(r: Refreshed)
    ensures Describes(PayloadOf(r), r)
  {
  }

  // A refresh of a key that has none under way starts with the first ask that finds nothing fresh,
  // or finds less than five seconds or the prefetch fraction, 0.1 by default, of the time to live
  // left; other flights are not touched.
  lemma FlightStartsExactly(c: Config, es: seq<Event>, e: Event, k: string)
    requires ValidRun(c, es) && Asks(c, e, k) && k !in After(c, es).inFlight
    ensures var s, t := After(c, es), Step(c, After(c, es), e).state;
            var x, fraction := Lookup(s.cache, k), if c.prefetchFraction == 0.0 then 0.1 else c.prefetchFraction;
            && (k in t.inFlight <==>
                  x == None || x.value.expiresAt - e.now < 5
                  || (x.value.expiresAt - e.now + 1) as real <= x.value.ttlS as real * fraction)
            && (k in t.inFlight ==> (t.inFlight[k].Prefetch? <==> x.Some? && e.now < x.value.expiresAt))
            && t.inFlight - {k} == s.inFlight
  {
    hide Lookup, After, KeyOf, Upper;
    var x := Lookup(After(c, es).cache, k);
    if x.Some? {
      var y := x.value.ttlS as real * (if c.prefetchFraction == 0.0 then 0.1 else c.prefetchFraction);
      BelowFloor(x.value.expiresAt - e.now, y);
    }
  }

  lemma BelowFloor(n: int, y: real)
    ensures n < y.Floor <==> (n + 1) as real <= y
  {
  }

  // The query types served are A and AAAA in any letter case.
  lemma UnsupportedExactly(c: Config, es: seq<Event>, e: Event)
    requires ValidRun(c, es) && e.Ask?
    ensures Step(c, After(c, es), e).replies == [Reply(e.id, UnsupportedQtype)] <==>
              !(|e.qtype| in {1, 4} && forall i :: 0 <= i < |e.qtype| ==> e.qtype[i] in {'A', 'a'})
  {
    hide Lookup, After, KeyOf, Threshold;
    var q := Upper(e.qtype);
    assert q == "A" <==> |q| == 1 && q[0] == 'A';
    assert q == "AAAA" <==> |q| == 4 && q[0] == q[1] == q[2] == q[3] == 'A';
  }

  // The cache never holds more than the configured number of entries, 50000 by default, and a
  // refresh drops none before that.
  lemma CacheBounded(c: Config, es: seq<Event>, e: Event)
    requires ValidRun(c, es) && Enabled(After(c, es), e)
    ensures var n := if c.cacheMaxEntries == 0 then 50000 else if c.cacheMaxEntries < 1 then 1 else c.cacheMaxEntries;
            var cache, next := After(c, es).cache, Step(c, After(c, es), e).state.cache;
            && |cache| <= n
            && (e.Settle? && e.outcome.Ok? ==>
                  var held := |cache| + if Lookup(cache, e.key) == None then 1 else 0;
                  |next| == if held <= n then held else n)
            && (e.Ask? || e.outcome.Throws? ==> next == cache)
  {
    hide After, Lookup, Put, Evict, PayloadOf;
    RunSound(c, es);
    var s := After(c, es);
    if e.Settle? && e.outcome.Ok? {
      var f := s.inFlight[e.key];
      var x := NewEntry(c, f.qname, f.qtype, e.outcome.value, e.now);
      PutMember(s.cache, e.key, x);
      PutShape(s.cache, e.key, x);
      EvictionKeepsYoungest(Put(s.cache, e.key, x), MaxEntries(c));
    }
  }

  // ---------- nobody is answered twice or not at all ----------

  function Asked(es: seq<Event>): nat {
    if es == [] then 0 else Asked(es[..|es| - 1]) + (if es[|es| - 1].Ask? then 1 else 0)
  }

  function Answered(c: Config, es: seq<Event>): nat
    requires ValidRun(c, es)
    decreases |es|
  {
    if es == [] then 0
    else Answered(c, es[..|es| - 1]) + |Step(c, After(c, es[..|es| - 1]), es[|es| - 1]).replies|
  }

  lemma {:induction false} SplitWaiting(ws: seq<Waiter>, k: string)
    ensures |Filter(ws, Awaits(k))| + |Filter(ws, AwaitsOther(k))| == |ws|
  {
    if ws != [] {
      SplitWaiting(ws[1..], k);
    }
  }

  lemma {:induction false} AnsweredOnce(c: Config, es: seq<Event>)
    requires ValidRun(c, es)
    ensures Asked(es) == Answered(c, es) + |After(c, es).waiting|
    decreases |es|
  {
    if es != [] {
      var m := |es| - 1;
      AnsweredOnce(c, es[..m]);
      if es[m].Settle? {
        SplitWaiting(After(c, es[..m]).waiting, es[m].key);
      }
    }
  }

  // ---------- refreshed keys stay ----------

  // Right after a successful refresh its key is cached, whatever was evicted to make room.
  lemma RefreshStays(c: Config, es: seq<Event>)
    requires ValidRun(c, es) && es != []
    requires es[|es| - 1].Settle? && es[|es| - 1].outcome.Ok?
    ensures var k := es[|es| - 1].key;
            Lookup(After(c, es).cache, k).Some? && Lookup(After(c, es).cache, k) == LastRefresh(c, es, k)
  {
    hide Lookup, Put, Evict, PayloadOf;
    var m := |es| - 1;
    var s, e := After(c, es[..m]), es[m];
    var x := NewEntry(c, s.inFlight[e.key].qname, s.inFlight[e.key].qtype, e.outcome.value, e.now);
    RunSound(c, es[..m]);
    RunSound(c, es);
    assert m > 0 ==> es[..m][m - 1].now <= e.now;
    RefreshedSurvives(s.cache, e.key, x, MaxEntries(c));
    LookupMember(After(c, es).cache, e.key, x);
  }

  function RefreshedKeys(es: seq<Event>): set<string> {
    set i | 0 <= i < |es| && es[i].Settle? && es[i].outcome.Ok? :: es[i].key
  }

  function Keys(cache: seq<Slot>): set<string> {
    set s | s in cache :: s.key
  }

  lemma {:induction false} KeysCount(cache: seq<Slot>)
    requires Distinct(cache)
    ensures |Keys(cache)| == |cache|
  {
    if cache == [] {
      assert Keys(cache) == {};
    } else {
      OthersDiffer(cache, 0);
      KeysCount(cache[1..]);
      assert cache == [cache[0]] + cache[1..];
      assert Keys(cache) == {cache[0].key} + Keys(cache[1..]);
      assert cache[0].key !in Keys(cache[1..]);
    }
  }

  lemma RefreshedKeysGrow(es: seq<Event>)
    requires es != []
    ensures var e := es[|es| - 1];
            RefreshedKeys(es) == RefreshedKeys(es[..|es| - 1]) + (if e.Settle? && e.outcome.Ok? then {e.key} else {})
  {
    var m := |es| - 1;
    assert es == es[..m] + [es[m]];
    var front := es[..m];
    forall k | k in RefreshedKeys(front) ensures k in RefreshedKeys(es) {
      var i :| 0 <= i < m && front[i].Settle? && front[i].outcome.Ok? && front[i].key == k;
      assert es[i].key == k;
    }
  }

  // As long as no more keys than fit were ever refreshed, the cache is exactly the map from
  // keys to their last successful refresh.
  lemma {:induction false} CacheIsLastRefresh(c: Config, es: seq<Event>, k: string)
    requires ValidRun(c, es) && |RefreshedKeys(es)| <= MaxEntries(c)
    ensures Keys(After(c, es).cache) == RefreshedKeys(es)
    ensures Lookup(After(c, es).cache, k) == LastRefresh(c, es, k)
    decreases |es|
  {
    hide Lookup, Refresh, PayloadOf, Threshold, CacheSound, KeyOf, NewEntry;
    if es == [] {
      EmptyLookup(k);
    } else {
      var m := |es| - 1;
      var s, e := After(c, es[..m]), es[m];
      RefreshedKeysGrow(es);
      SmallerFits(RefreshedKeys(es[..m]), RefreshedKeys(es), MaxEntries(c));
      CacheIsLastRefresh(c, es[..m], k);
      if e.Settle? && e.outcome.Ok? {
        RunDistinct(c, es[..m]);
        NothingEvicted(c, s.cache, e.key, s.inFlight[e.key], e.outcome.value, e.now, k);
      }
    }
  }

  lemma RunDistinct(c: Config, es: seq<Event>)
    requires ValidRun(c, es)
    ensures Distinct(After(c, es).cache)
  {
    RunSound(c, es);
  }

  // While everything fits, a refresh is a plain update of the map.
  lemma NothingEvicted(c: Config, cache: seq<Slot>, key: string, f: Flight, r: Refreshed, now: int, k: string)
    requires Distinct(cache) && |Keys(cache) + {key}| <= MaxEntries(c)
    ensures Keys(Refresh(c, cache, key, f, r, now)) == Keys(cache) + {key}
    ensures Lookup(Refresh(c, cache, key, f, r, now), k)
         == if k == key then Some(NewEntry(c, f.qname, f.qtype, r, now)) else Lookup(cache, k)
  {
    hide Lookup, Put, PayloadOf, Keys;
    var x := NewEntry(c, f.qname, f.qtype, r, now);
    PutKeys(cache, key, x);
    PutMember(cache, key, x);
    KeysCount(Put(cache, key, x));
    PutLookup(cache, key, x, k);
  }

  lemma SmallerFits(a: set<string>, b: set<string>, max: nat)
    requires a <= b && |b| <= max
    ensures |a| <= max
  {
    assert b == a + (b - a);
  }

  lemma EmptyLookup(k: string)
    ensures Lookup([], k) == None
  {
  }

  lemma PutKeys(cache: seq<Slot>, k: string, x: Entry)
    requires Distinct(cache)
    ensures Keys(Put(cache, k, x)) == Keys(cache) + {k}
  {
    PutMember(cache, k, x);
    var put := Put(cache, k, x);
    assert Slot(k, x) in put;
    forall s | s in cache ensures s.key in Keys(put) {
      assert s.key != k ==> s in put;
    }
  }

  lemma {:induction false} PutLookup(cache: seq<Slot>, k: string, x: Entry, j: string)
    ensures Lookup(Put(cache, k, x), j) == if j == k then Some(x) else Lookup(cache, j)
  {
    if cache != [] {
      PutLookup(cache[1..], k, x, j);
    }
  }

  // ---------- short runs ----------

  lemma OneMore(c: Config, es: seq<Event>, e: Event, s: State)
    requires ValidRun(c, es) && After(c, es) == s && Enabled(s, e) && (es == [] || es[|es| - 1].now <= e.now)
    ensures ValidRun(c, es + [e]) && After(c, es + [e]) == Step(c, s, e).state
  {
    hide Step;
    var t := es + [e];
    assert t[..|t| - 1] == es && t[|t| - 1] == e;
  }

  lemma Nothing(c: Config)
    ensures ValidRun(c, []) && After(c, []) == State([], map[], [])
  {
  }

  lemma FilterOne(w: Waiter, p: Waiter -> bool)
    ensures Filter([w], p) == if p(w) then [w] else []
  {
    FilterCons(w, [], p);
    assert [w] + [] == [w];
  }

  // A name asked for at time 0 and fetched at once.
  lemma FetchedAtOnce(c: Config, name: string, r: Refreshed)
    ensures var k, q := KeyOf(c, name, "A"), c.normalize(name);
            var asked, settled := Ask(0, name, "A", 0), Settle(k, 0, Ok(r));
            && ValidRun(c, [asked, settled])
            && After(c, [asked, settled]) == State([Slot(k, NewEntry(c, q, "A", r, 0))], map[], [])
  {
    hide PayloadOf, After, ValidRun;
    var k, q := KeyOf(c, name, "A"), c.normalize(name);
    var asked, settled := Ask(0, name, "A", 0), Settle(k, 0, Ok(r));
    var w := Waiter(0, k, q, "A", None, 0);
    var s := State([], map[k := Foreground(q, "A")], [w]);
    Nothing(c);
    OneMore(c, [], asked, State([], map[], []));
    assert [] + [asked] == [asked];
    assert Step(c, State([], map[], []), asked).state == s by { assert Upper("A") == "A"; hide KeyOf; }
    OneMore(c, [asked], settled, s);
    assert [asked] + [settled] == [asked, settled];
    FilterOne(w, AwaitsOther(k));
  }

  // ---------- whose answers a key stands for ----------

  // Distinct normalized names and types never share a cache key.
  lemma KeyInjective(c: Config, name: string, qtype: string, name': string, qtype': string)
    requires Supported(qtype) && Supported(qtype')
    requires KeyOf(c, name, qtype) == KeyOf(c, name', qtype')
    ensures Upper(qtype) == Upper(qtype') && c.normalize(c.normalize(name)) == c.normalize(c.normalize(name'))
  {
    var n, n' := c.normalize(c.normalize(name)), c.normalize(c.normalize(name'));
    TextInjective(n, Upper(qtype), n', Upper(qtype'));
  }

  lemma TextInjective(n: string, q: string, n': string, q': string)
    requires q in {"A", "AAAA"} && q' in {"A", "AAAA"} && n + ":" + q == n' + ":" + q'
    ensures n == n' && q == q'
  {
    var t, t' := n + ":" + q, n' + ":" + q';
    assert t[|n|] == ':' && t'[|n'|] == ':';
    assert |q| == 1 ==> t[|t| - 2] == ':';
    assert |q'| == 1 ==> t'[|t'| - 2] == ':';
    assert |q| == 4 ==> t[|t| - 2] == q[2];
    assert |q'| == 4 ==> t'[|t'| - 2] == q'[2];
    assert |q| == |q'|;
    assert n == t[..|n|] && n' == t'[..|n'|];
    assert q == t[|n| + 1..] && q' == t'[|n'| + 1..];
  }

  predicate NameOf(c: Config, k: string, qname: string, qtype: string) {
    && qtype in {"A", "AAAA"} && k == c.normalize(qname) + ":" + qtype
  }

  ghost predicate Idempotent(f: string -> string) {
    forall s :: f(f(s)) == f(s)
  }

  // qname is what some ask of the run asks the upstreams for.
  ghost predicate AskedName(c: Config, es: seq<Event>, qname: string) {
    exists i :: 0 <= i < |es| && es[i].Ask? && qname == c.normalize(es[i].name)
  }

  lemma FlightNamed(c: Config, es: seq<Event>, k: string)
    requires ValidRun(c, es) && k in After(c, es).inFlight
    ensures var f := After(c, es).inFlight[k]; NameOf(c, k, f.qname, f.qtype) && AskedName(c, es, f.qname)
  {
    hide Held, PendingAt, After, ValidRun, CacheSound, WaitersSound;
    RunSound(c, es);
    var i :| 0 <= i < |es| && FlightBegan(c, es, i, k, After(c, es).inFlight[k]);
  }

  lemma AskedNameLater(c: Config, es: seq<Event>, qname: string)
    requires es != [] && AskedName(c, es[..|es| - 1], qname)
    ensures AskedName(c, es, qname)
  {
    var i :| 0 <= i < |es| - 1 && es[..|es| - 1][i].Ask? && qname == c.normalize(es[..|es| - 1][i].name);
    assert es[i].Ask?;
  }

  lemma {:induction false} LastRefreshNamed(c: Config, es: seq<Event>, k: string)
    requires ValidRun(c, es) && LastRefresh(c, es, k).Some?
    ensures var x := LastRefresh(c, es, k).value; NameOf(c, k, x.qname, x.qtype) && AskedName(c, es, x.qname)
    decreases |es|
  {
    hide AskedName, Step, NameOf;
    var m := |es| - 1;
    var e := es[m];
    if e.Settle? && e.key == k && e.outcome.Ok? {
      FlightNamed(c, es[..m], k);
    } else {
      LastRefreshNamed(c, es[..m], k);
    }
    AskedNameLater(c, es, LastRefresh(c, es, k).value.qname);
  }

  // What is found for an asker was fetched for its own type, for a name that was asked for, and
  // for the asker's own name if the normalizer is idempotent.
  lemma FoundIsAskedFor(c: Config, es: seq<Event>, j: nat, k: string, x: Entry)
    requires ValidRun(c, es) && FoundAt(c, es, j, k, x)
    ensures x.qtype == Upper(es[j].qtype) && AskedName(c, es[..j], x.qname)
    ensures c.normalize(x.qname) == c.normalize(c.normalize(es[j].name))
    ensures Idempotent(c.normalize) ==> x.qname == c.normalize(es[j].name)
  {
    PrefixValid(c, es, j);
    LastRefreshNamed(c, es[..j], k);
    TextInjective(c.normalize(x.qname), x.qtype, c.normalize(c.normalize(es[j].name)), Upper(es[j].qtype));
  }

  // Two lookups share a key exactly when their types agree and the names they are queried under
  // are one core with two of the tails that CoreOf allows.
  lemma SharedKeysExactly(c: Config, name: string, qtype: string, name': string, qtype': string)
    requires NormalizesPlain(c.normalize) && Plain(name) && Plain(name') && Supported(qtype) && Supported(qtype')
    ensures KeyOf(c, name, qtype) == KeyOf(c, name', qtype')
       <==> Upper(qtype) == Upper(qtype') && OneCore(c.normalize(name), c.normalize(name'))
  {
    NormIsPlain(name);
    NormIsPlain(name');
    SameCoreExactly(name, name');
    hide Norm;
    if KeyOf(c, name, qtype) == KeyOf(c, name', qtype') {
      KeyInjective(c, name, qtype, name', qtype');
    }
  }

  // Two names that are queried apart and share one key: one with two dots, one with a blank.
  lemma DoubledDotSharesKey(c: Config)
    requires NormalizesPlain(c.normalize)
    ensures !Idempotent(c.normalize)
    ensures c.normalize("a..") != c.normalize("a.") && KeyOf(c, "a..", "A") == KeyOf(c, "a.", "A")
  {
    assert Norm("a..") == "a." && Norm("a.") == "a" && Norm("a") == "a";
    assert c.normalize(c.normalize("a..")) != c.normalize("a..");
  }

  lemma BlankBeforeDotSharesKey(c: Config)
    requires NormalizesPlain(c.normalize)
    ensures c.normalize("a .") == "a " && c.normalize("a") == "a"
    ensures KeyOf(c, "a .", "A") == KeyOf(c, "a", "A") == "a:A"
  {
    assert "a "[..1] == "a" && "a ."[..2] == "a ";
    assert Trim("a ") == Trim("a") == "a";
    assert Norm("a .") == "a " && Norm("a ") == "a" && Norm("a") == "a";
  }

  // When they share a key, who asks for the one after the other was fetched finds the other's
  // entry.
  lemma SharedKeyMisleads(c: Config, name: string, name': string, r: Refreshed)
    requires KeyOf(c, name, "A") == KeyOf(c, name', "A")
    ensures var k := KeyOf(c, name, "A");
            var es := [Ask(0, name, "A", 0), Settle(k, 0, Ok(r)), Ask(1, name', "A", 0)];
            ValidRun(c, es) && FoundAt(c, es, 2, k, NewEntry(c, c.normalize(name), "A", r, 0))
  {
    hide After, ValidRun, KeyOf, PayloadOf, LastRefresh, WellTimed;
    var k, e := KeyOf(c, name, "A"), Ask(1, name', "A", 0);
    var run := [Ask(0, name, "A", 0), Settle(k, 0, Ok(r))];
    var x := NewEntry(c, c.normalize(name), "A", r, 0);
    FetchedAtOnce(c, name, r);
    CachedIsNewest(c, run, k, 0);
    OneMore(c, run, e, State([Slot(k, x)], map[], []));
    var es := [Ask(0, name, "A", 0), Settle(k, 0, Ok(r)), e];
    assert es == run + [e] && es[..2] == run;
    assert Upper("A") == "A";
  }

  ghost predicate AsksOnly(es: seq<Event>, names: iset<string>) {
    forall n :: 0 <= n < |es| && es[n].Ask? ==> es[n].name in names
  }

  // Whatever is found in a run over these names was fetched for the asker's own name.
  ghost predicate OwnNameAlways(c: Config, names: iset<string>) {
    forall es: seq<Event>, j: nat, k: string, x: Entry ::
      ValidRun(c, es) && AsksOnly(es, names) && FoundAt(c, es, j, k, x) ==> x.qname == c.normalize(es[j].name)
  }

  // No two of these names are queried apart and have one core.
  ghost predicate CoresApart(names: iset<string>) {
    forall s: string, t: string :: s in names && t in names && OneCore(Norm(s), Norm(t)) ==> Norm(s) == Norm(t)
  }

  lemma FoundOwnNameExactly(c: Config, names: iset<string>)
    requires NormalizesPlain(c.normalize) && forall s :: s in names ==> Plain(s)
    ensures OwnNameAlways(c, names) <==> CoresApart(names)
  {
    hide Norm, OneCore, Newest, ValidRun, KeyOf;
    if CoresApart(names) {
      forall es: seq<Event>, j: nat, k: string, x: Entry
        | ValidRun(c, es) && AsksOnly(es, names) && FoundAt(c, es, j, k, x)
        ensures x.qname == c.normalize(es[j].name)
      {
        FoundOfOneCore(c, es, j, k, x, names);
      }
    }
    if OwnNameAlways(c, names) {
      forall s: string, t: string | s in names && t in names && OneCore(Norm(s), Norm(t)) ensures Norm(s) == Norm(t) {
        NamesKeptApart(c, names, s, t);
      }
    }
  }

  lemma FoundOfOneCore(c: Config, es: seq<Event>, j: nat, k: string, x: Entry, names: iset<string>)
    requires NormalizesPlain(c.normalize) && forall s :: s in names ==> Plain(s)
    requires ValidRun(c, es) && AsksOnly(es, names) && FoundAt(c, es, j, k, x)
    ensures es[j].Ask? && es[j].name in names
    ensures exists i :: 0 <= i < j && es[i].Ask? && x.qname == Norm(es[i].name) && es[i].name in names
                        && OneCore(Norm(es[i].name), Norm(es[j].name))
  {
    hide Newest, Upper, KeyOf, Norm, OneCore, LastRefresh;
    FoundIsAskedFor(c, es, j, k, x);
    var i :| 0 <= i < |es[..j]| && es[..j][i].Ask? && x.qname == c.normalize(es[..j][i].name);
    var s, t := es[i].name, es[j].name;
    NormIsPlain(s);
    NormIsPlain(t);
    SameCoreExactly(s, t);
  }

  lemma NamesKeptApart(c: Config, names: iset<string>, s: string, t: string)
    requires NormalizesPlain(c.normalize) && Plain(s) && Plain(t)
    requires OwnNameAlways(c, names) && s in names && t in names && OneCore(Norm(s), Norm(t))
    ensures Norm(s) == Norm(t)
  {
    hide Norm, OneCore, FoundAt, ValidRun, KeyOf, PayloadOf;
    var r: Refreshed :| true;
    SharedKeysExactly(c, s, "A", t, "A");
    SharedKeyMisleads(c, s, t, r);
  }

  // As long as no name that was asked for ends in a dot behind a dot or a blank, what is found was
  // fetched for the asker's own name.
  lemma FoundOwnName(c: Config, es: seq<Event>, j: nat, k: string, x: Entry)
    requires NormalizesPlain(c.normalize) && ValidRun(c, es) && FoundAt(c, es, j, k, x)
    requires forall n :: 0 <= n <= j && es[n].Ask? ==> Plain(es[n].name) && !DotBehind(es[n].name)
    ensures x.qname == c.normalize(es[j].name)
  {
    hide Newest, Upper, KeyOf, NameOf, Norm, DotBehind;
    FoundIsAskedFor(c, es, j, k, x);
    var i :| 0 <= i < |es[..j]| && es[..j][i].Ask? && x.qname == c.normalize(es[..j][i].name);
    var s, t := es[i].name, es[j].name;
    NormTwiceExactly(s);
    NormTwiceExactly(t);
    NormIsPlain(s);
    NormIsPlain(t);
  }

  // ---------- staleUntil does not bound every stale answer ----------

  lemma UpperA(c: Config)
    requires c.normalize("a") == "a"
    ensures Upper("A") == "A" && KeyOf(c, "a", "A") == "a:A"
  {
  }

  // With a time to live below the prefetch threshold, the next asker starts a prefetch.
  lemma PrefetchStarts(c: Config, x: Entry, now: int)
    requires c.normalize("a") == "a" && now < x.expiresAt < now + 5
    ensures AskStep(c, State([Slot("a:A", x)], map[], []), Ask(1, "a", "A", now)).state
         == State([Slot("a:A", x)], map["a:A" := Prefetch("a", "A", x)], [])
  {
    UpperA(c);
  }

  // One that comes after the entry expired joins it.
  lemma LateAskerJoins(c: Config, x: Entry, now: int)
    requires c.normalize("a") == "a" && x.expiresAt <= now
    ensures var s := State([Slot("a:A", x)], map["a:A" := Prefetch("a", "A", x)], []);
            AskStep(c, s, Ask(2, "a", "A", now)).state == s.(waiting := [Waiter(2, "a:A", "a", "A", Some(x), now)])
  {
    UpperA(c);
  }

  lemma PrefetchFails(c: Config, x: Entry, now: int)
    requires x.expiresAt <= now
    ensures var s := State([Slot("a:A", x)], map["a:A" := Prefetch("a", "A", x)],
                           [Waiter(2, "a:A", "a", "A", Some(x), now)]);
            SettleStep(c, s, Settle("a:A", now, Throws)).replies == [Reply(2, Resolved("a", "A", x.payload, 0, Stale))]
  {
    FilterOne(Waiter(2, "a:A", "a", "A", Some(x), now), Awaits("a:A"));
  }

  // An asker that comes after staleUntil while a prefetch is pending is told the stale entry
  // when the prefetch fails, not the error: the concrete run.
  lemma PendingPrefetchOutlivesStaleUntil(c: Config, r: Refreshed) returns (es: seq<Event>, x: Entry)
    requires c.normalize("a") == "a" && r.selection.ttlS == 4
    ensures ValidRun(c, es + [Settle("a:A", x.staleUntil + 1, Throws)])
    ensures |es| == 4 && ValidRun(c, es) && es[3] == Ask(2, "a", "A", x.staleUntil + 1)
    ensures x in (set s | s in After(c, es).cache :: s.entry)
    ensures Step(c, After(c, es), Settle("a:A", x.staleUntil + 1, Throws)).replies
         == [Reply(2, Resolved("a", "A", x.payload, 0, Stale))]
  {
    hide PayloadOf, After, ValidRun, AskStep, SettleStep;
    x := NewEntry(c, "a", "A", r, 0);
    var late := x.staleUntil + 1;
    var es2, e2, e3 := [Ask(0, "a", "A", 0), Settle("a:A", 0, Ok(r))], Ask(1, "a", "A", 0), Ask(2, "a", "A", late);
    FetchedAtOnce(c, "a", r);
    UpperA(c);
    var s2 := State([Slot("a:A", x)], map[], []);
    PrefetchStarts(c, x, 0);
    OneMore(c, es2, e2, s2);
    LateAskerJoins(c, x, late);
    var s3 := s2.(inFlight := map["a:A" := Prefetch("a", "A", x)]);
    OneMore(c, es2 + [e2], e3, s3);
    es := es2 + [e2] + [e3];
    var s4 := s3.(waiting := [Waiter(2, "a:A", "a", "A", Some(x), late)]);
    OneMore(c, es, Settle("a:A", late, Throws), s4);
    PrefetchFails(c, x, late);
    assert Slot("a:A", x) in After(c, es).cache;
  }
}
