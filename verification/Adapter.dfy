// gateway/src/adapters/recursive.ts: the state of createRecursiveAdapter and the closures that
// update it, proved against the steps of Cache.
module Adapter {
  import opened Sorting
  import opened Bytes
  import opened Cache

  class RecursiveAdapter {
    const config: Config
    var cache: seq<Slot>
    var inFlight: map<string, Flight>
    var waiting: seq<Waiter>

    ghost function Contents(): State
      reads this
    {
      State(cache, inFlight, waiting)
    }

    constructor (config: Config)
      ensures Contents() == State([], map[], [])
      ensures this.config == config
    {
      this.config := config;
      cache, inFlight, waiting := [], map[], [];
    }

    method EvictIfNeeded()
      modifies this`cache
      ensures cache == Evict(old(cache), MaxEntries(config))
    {
      var maxEntries := MaxEntries(config);
      if |cache| <= maxEntries {
        return;
      }
      var items := Sort(cache, Older());
      for i := 0 to |items| - maxEntries
        invariant cache == DeleteAll(old(cache), items[..i])
      {
        cache := Delete(cache, items[i].key);
        assert items[..i + 1] == items[..i] + [items[i]];
      }
    }

    // resolveRecursive up to its first await: an answer at once, or a place among the waiting.
    method ResolveRecursive(id: nat, name: string, qtype: string, now: int) returns (replies: seq<Reply>)
      modifies this
      ensures Stepped(Contents(), replies) == AskStep(config, old(Contents()), Ask(id, name, qtype, now))
    {
      var q := Upper(qtype);
      if q != "A" && q != "AAAA" {
        return [Reply(id, UnsupportedQtype)];
      }
      var qname := config.normalize(name);
      var k := KeyOf(config, name, qtype);
      var existing := Lookup(cache, k);
      if existing.Some? && now < existing.value.expiresAt {
        var left := existing.value.expiresAt - now;
        if left < Threshold(config, existing.value.ttlS) && k !in inFlight {
          inFlight := inFlight[k := Prefetch(qname, q, existing.value)];
        }
        return [Reply(id, Resolved(qname, q, existing.value.payload, left, FromCache))];
      }
      if k !in inFlight {
        inFlight := inFlight[k := Foreground(qname, q)];
      }
      waiting := waiting + [Waiter(id, k, qname, q, existing, now)];
      return [];
    }

    // The rest of refresh, the finally that ends the flight, and the continuations awaiting it.
    method RefreshSettled(k: string, now: int, outcome: Outcome<Refreshed>) returns (replies: seq<Reply>)
      requires k in inFlight
      modifies this
      ensures Stepped(Contents(), replies) == SettleStep(config, old(Contents()), Settle(k, now, outcome))
    {
      var flight := inFlight[k];
      if outcome.Ok? {
        cache := Put(cache, k, NewEntry(config, flight.qname, flight.qtype, outcome.value, now));
        EvictIfNeeded();
      }
      inFlight := inFlight - {k};
      replies := Map(Filter(waiting, Awaits(k)), ReplyTo(flight, Settle(k, now, outcome)));
      waiting := Filter(waiting, AwaitsOther(k));
    }
  }
}
