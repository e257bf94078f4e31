// The rate limits of coordinator/src/routes/comments.ts and routes/receipts.ts, over whole runs:
// who is refused, counted in requests.
module RateLimits {
  import opened Bytes
  import opened Ledger
  import opened Credits
  import opened CreditRuns
  import opened Names

  // For each event of a run, when it counts against one limit; None where it does not.
  type Hits = seq<Option<int>>

  // The position of the hit that opened the window of the last hit.
  function Opening(h: Hits): (o: Option<nat>)
    ensures o.Some? ==> o.value < |h| && h[o.value].Some?
  {
    if h == [] then None
    else
      var m := |h| - 1;
      var o := Opening(h[..m]);
      if h[m].None? || (o.Some? && h[m].value - h[o.value].value <= 60_000) then o else Some(m)
  }

  // How many hits there are from a position on.
  function Count(h: Hits, from: nat): nat {
    if |h| <= from then 0 else Count(h[..|h| - 1], from) + if h[|h| - 1].Some? then 1 else 0
  }

  // How many the window of the last hit holds.
  function InWindow(h: Hits): nat {
    var o := Opening(h);
    if o.Some? then Count(h, o.value) else 0
  }

  // The window opens with a hit that comes more than a minute after the one that opened the window
  // before, or with the first; all later ones come within a minute of it.
  lemma {:induction false} OpeningMeans(h: Hits)
    ensures Opening(h) == None <==> forall i :: 0 <= i < |h| ==> h[i] == None
    ensures var o := Opening(h);
            o.Some? ==>
              && (forall i :: o.value < i < |h| && h[i].Some? ==> h[i].value - h[o.value].value <= 60_000)
              && var before := Opening(h[..o.value]);
              before.Some? ==> h[o.value].value - h[before.value].value > 60_000
  {
    if h != [] {
      var m := |h| - 1;
      OpeningMeans(h[..m]);
      var o := Opening(h);
      if o.Some? && o.value < m {
        assert h[..m][..o.value] == h[..o.value];
      }
    }
  }

  // A hit more than a minute after the opening one starts a new count; any other goes on counting.
  lemma NextCount(h: Hits, now: int)
    ensures var o := Opening(h);
            InWindow(h + [Some(now)]) == if o.Some? && now - h[o.value].value <= 60_000 then InWindow(h) + 1 else 1
    ensures var o := Opening(h);
            Opening(h + [Some(now)]) == if o.Some? && now - h[o.value].value <= 60_000 then o else Some(|h|)
  {
    var t := h + [Some(now)];
    assert t[..|h|] == h;
    assert Count(h, |h|) == 0;
  }

  ghost predicate Tells(rates: Rates, key: string, h: Hits) {
    var o := Opening(h);
    && (key in rates <==> o.Some?)
    && (o.Some? ==> rates[key] == Rate(InWindow(h), h[o.value].value))
  }

  lemma HitPushed(rates: Rates, key: string, h: Hits, now: int)
    requires Tells(rates, key, h)
    ensures var r := RateStep(rates, key, now);
            r.count == InWindow(h + [Some(now)]) && Tells(rates[key := r], key, h + [Some(now)])
  {
    var t := h + [Some(now)];
    assert t[..|h|] == h;
    var o := Opening(t);
    if o == Some(|h|) {
      assert Count(h, |h|) == 0;
    }
  }

  lemma NoneCounts(rates: Rates, key: string, h: Hits)
    requires Tells(rates, key, h)
    ensures Tells(rates, key, h + [None])
  {
    var t := h + [None];
    assert t[..|h|] == h;
  }

  // ---------- what counts ----------

  predicate WellFormed(q: HoldRequest) {
    Trim(q.wallet) != "" && Trim(q.siteId) != "" && Trim(q.postId) != "" && q.amount > 0.0
  }

  // A well-formed hold counts against its wallet.
  function WalletHit(e: Event, wallet: string): Option<int> {
    if e.HoldAsked? && WellFormed(e.q) && Trim(e.q.wallet) == wallet then Some(e.now) else None
  }

  function WalletHits(es: seq<Event>, wallet: string): (h: Hits)
    ensures |h| == |es|
  {
    if es == [] then []
    else WalletHits(es[..|es| - 1], wallet) + [WalletHit(es[|es| - 1], wallet)]
  }

  // The last event asks for a hold that its wallet's limit lets pass: its window holds no more
  // than that many.
  predicate PassesWallet(c: Config, es: seq<Event>)
    requires es != []
  {
    var e := es[|es| - 1];
    e.HoldAsked? && WellFormed(e.q) && InWindow(WalletHits(es, Trim(e.q.wallet))) <= c.maxPerMinuteWallet
  }

  // Only such a hold counts against its site.
  function SiteHits(c: Config, es: seq<Event>, site: string): (h: Hits)
    ensures |h| == |es|
  {
    if es == [] then []
    else
      var e := es[|es| - 1];
      SiteHits(c, es[..|es| - 1], site)
      + [if PassesWallet(c, es) && Trim(e.q.siteId) == site then Some(e.now) else None]
  }

  // A receipt of a known node counts unless it is on record when it comes.
  function NodeHit(s: Books, e: Event, node: string): Option<int> {
    if e.ReceiptCame? && e.valid && e.receipt.receiptId !in s.intake.receipts && e.receipt.wallet == node
    then Some(e.now) else None
  }

  function NodeHits(c: Config, es: seq<Event>, node: string): (h: Hits)
    requires ValidRun(c, es)
    ensures |h| == |es|
  {
    if es == [] then []
    else
      var m := |es| - 1;
      NodeHits(c, es[..m], node) + [NodeHit(After(c, es[..m]), es[m], node)]
  }

  // ---------- the counters tell exactly that ----------

  lemma NothingTold(key: string)
    ensures Tells(map[], key, [])
  {
  }

  lemma OthersTold(rates: Rates, key: string, other: string, r: Rate, h: Hits)
    requires Tells(rates, key, h) && other != key
    ensures Tells(rates[other := r], key, h)
  {
    hide Opening, InWindow;
  }

  // What a step does to the three maps.
  lemma HoldRates(c: Config, s: Books, e: Event)
    requires e.HoldAsked? && Enabled(s, e)
    ensures var w, site, t, t' := Trim(e.q.wallet), Trim(e.q.siteId), s.traffic, CreditRuns.Step(c, s, e).traffic;
            var r, v := RateStep(t.walletRate, w, e.now), RateStep(t.siteRate, site, e.now);
            && t'.walletRate == (if WellFormed(e.q) then t.walletRate[w := r] else t.walletRate)
            && t'.siteRate == (if WellFormed(e.q) && r.count <= c.maxPerMinuteWallet then t.siteRate[site := v]
                               else t.siteRate)
            && t'.nodeRate == t.nodeRate
  {
    hide RateStep, Trim;
  }

  lemma OtherRates(c: Config, s: Books, e: Event)
    requires Enabled(s, e) && !e.HoldAsked?
    ensures var t, t' := s.traffic, CreditRuns.Step(c, s, e).traffic;
            && t'.walletRate == t.walletRate && t'.siteRate == t.siteRate
            && t'.nodeRate ==
               if e.ReceiptCame? && e.valid && e.receipt.receiptId !in s.intake.receipts
               then t.nodeRate[e.receipt.wallet := RateStep(t.nodeRate, e.receipt.wallet, e.now)]
               else t.nodeRate
  {
    hide RateStep, Trim, Verdict, FinalizeError, Decide, Cap, Bonus, Forfeit, PayBonus;
  }

  lemma {:induction false} WalletsTold(c: Config, es: seq<Event>, wallet: string)
    requires ValidRun(c, es)
    ensures Tells(After(c, es).traffic.walletRate, wallet, WalletHits(es, wallet))
    decreases |es|
  {
    hide Tells, CreditRuns.Step, RateStep, Trim, WellFormed;
    NothingTold(wallet);
    if es != [] {
      var m := |es| - 1;
      var s, e, h := After(c, es[..m]), es[m], WalletHits(es[..m], wallet);
      WalletsTold(c, es[..m], wallet);
      NoneCounts(s.traffic.walletRate, wallet, h);
      if e.HoldAsked? {
        HoldRates(c, s, e);
        var w := Trim(e.q.wallet);
        HitPushed(s.traffic.walletRate, wallet, h, e.now);
        if w != wallet {
          OthersTold(s.traffic.walletRate, wallet, w, RateStep(s.traffic.walletRate, w, e.now), h + [None]);
        }
      } else {
        OtherRates(c, s, e);
      }
    }
  }

  // The count a hold request is compared with.
  lemma WalletCount(c: Config, es: seq<Event>, e: Event)
    requires ValidRun(c, es) && e.HoldAsked? && WellFormed(e.q)
    ensures RateStep(After(c, es).traffic.walletRate, Trim(e.q.wallet), e.now).count
         == InWindow(WalletHits(es + [e], Trim(e.q.wallet)))
  {
    hide Tells, Trim, InWindow, RateStep, After;
    var w := Trim(e.q.wallet);
    WalletsTold(c, es, w);
    HitPushed(After(c, es).traffic.walletRate, w, WalletHits(es, w), e.now);
    assert (es + [e])[..|es|] == es;
  }

  lemma {:induction false} SitesTold(c: Config, es: seq<Event>, site: string)
    requires ValidRun(c, es)
    ensures Tells(After(c, es).traffic.siteRate, site, SiteHits(c, es, site))
    decreases |es|
  {
    hide Tells, CreditRuns.Step, RateStep, Trim, WellFormed, InWindow, WalletHits;
    NothingTold(site);
    if es != [] {
      var m := |es| - 1;
      var s, e, h := After(c, es[..m]), es[m], SiteHits(c, es[..m], site);
      SitesTold(c, es[..m], site);
      NoneCounts(s.traffic.siteRate, site, h);
      if e.HoldAsked? {
        HoldRates(c, s, e);
        assert es[..m] + [e] == es;
        if WellFormed(e.q) {
          WalletCount(c, es[..m], e);
        }
        var v := Trim(e.q.siteId);
        HitPushed(s.traffic.siteRate, site, h, e.now);
        if v != site {
          OthersTold(s.traffic.siteRate, site, v, RateStep(s.traffic.siteRate, v, e.now), h + [None]);
        }
      } else {
        OtherRates(c, s, e);
      }
    }
  }

  lemma {:induction false} NodesTold(c: Config, es: seq<Event>, node: string)
    requires ValidRun(c, es)
    ensures Tells(After(c, es).traffic.nodeRate, node, NodeHits(c, es, node))
    decreases |es|
  {
    hide Tells, CreditRuns.Step, RateStep, InWindow;
    NothingTold(node);
    if es != [] {
      var m := |es| - 1;
      var s, e, h := After(c, es[..m]), es[m], NodeHits(c, es[..m], node);
      NodesTold(c, es[..m], node);
      NoneCounts(s.traffic.nodeRate, node, h);
      if e.HoldAsked? {
        HoldRates(c, s, e);
      } else {
        OtherRates(c, s, e);
        HitPushed(s.traffic.nodeRate, node, h, e.now);
        if e.ReceiptCame? && e.receipt.wallet != node {
          var w := e.receipt.wallet;
          OthersTold(s.traffic.nodeRate, node, w, RateStep(s.traffic.nodeRate, w, e.now), h + [None]);
        }
      }
    }
  }

  // ---------- who is refused ----------

  // In every run a well-formed hold is refused for its rate exactly when the window of its wallet
  // holds more of them than allowed, or that of its site more that passed their wallet's limit;
  // it then moves no credits.
  lemma HoldLimitedExactly(c: Config, es: seq<Event>, e: Event)
    requires ValidRun(c, es) && e.HoldAsked? && Enabled(After(c, es), e)
    ensures var run, w, site := es + [e], Trim(e.q.wallet), Trim(e.q.siteId);
            var r := CreateHold(c, After(c, es), e.q, e.ticket, e.now);
            && (r.error == Some(InvalidRequest) <==> !WellFormed(e.q))
            && (r.error == Some(RateLimited) <==>
                  WellFormed(e.q) && (InWindow(WalletHits(run, w)) > c.maxPerMinuteWallet
                                      || InWindow(SiteHits(c, run, site)) > c.maxPerMinuteSite))
            && (r.error in {Some(InvalidRequest), Some(RateLimited)} ==> r.books.money == After(c, es).money)
  {
    hide Tells, Trim, InWindow, RateStep, After, WalletHits, ValidRun, PlaceHold;
    var s, run, w, site := After(c, es), es + [e], Trim(e.q.wallet), Trim(e.q.siteId);
    PlacedErrors(c, s.(traffic := LimitRates(c, s.traffic, w, site, e.now).traffic),
                 HoldRequest(w, site, Trim(e.q.postId), e.q.amount), e.ticket, e.now);
    if WellFormed(e.q) {
      WalletCount(c, es, e);
      SitesTold(c, es, site);
      assert run[..|es|] == es;
      HitPushed(s.traffic.siteRate, site, SiteHits(c, es, site), e.now);
    }
  }

  lemma PlacedErrors(c: Config, s: Books, q: HoldRequest, ticket: string, now: int)
    ensures PlaceHold(c, s, q, ticket, now).error in {None, Some(CooldownActive), Some(InsufficientCredits)}
  {
  }

  // The same for receipts of a node: one on record is let through uncounted.
  lemma ReceiptLimitedExactly(c: Config, es: seq<Event>, e: Event)
    requires ValidRun(c, es) && e.ReceiptCame? && Enabled(After(c, es), e)
    requires ValidRun(c, es + [e])
    ensures var r := BeginReceipt(c, After(c, es), e.id, e.receipt, e.valid, e.now);
            && (r.error == Some(ReceiptRefused) <==> !e.valid)
            && (r.error == Some(RateLimited) <==>
                  e.valid && e.receipt.receiptId !in After(c, es).intake.receipts
                  && InWindow(NodeHits(c, es + [e], e.receipt.wallet)) > c.maxPerMinute)
            && r.books.money == After(c, es).money && (r.error.Some? ==> r.books.intake == After(c, es).intake)
  {
    hide Tells, InWindow, RateStep, After, ValidRun;
    var node := e.receipt.wallet;
    NodesTold(c, es, node);
    assert (es + [e])[..|es|] == es;
    HitPushed(After(c, es).traffic.nodeRate, node, NodeHits(c, es, node), e.now);
  }

  // The holds of a wallet from a position on that its limit let pass.
  function Passed(c: Config, es: seq<Event>, wallet: string, from: nat): nat {
    if |es| <= from then 0
    else
      Passed(c, es[..|es| - 1], wallet, from)
      + if WalletHit(es[|es| - 1], wallet).Some? && PassesWallet(c, es) then 1 else 0
  }

  // Of all holds in one window of a wallet, no more than the limit pass.
  lemma {:induction false} AtMostPass(c: Config, es: seq<Event>, wallet: string)
    ensures var h := WalletHits(es, wallet);
            var o := Opening(h);
            o.Some? ==> Passed(c, es, wallet, o.value) <= InWindow(h)
                        && (Passed(c, es, wallet, o.value) > 0 ==>
                              Passed(c, es, wallet, o.value) <= c.maxPerMinuteWallet)
  {
    hide Trim, WellFormed;
    if es != [] {
      var m := |es| - 1;
      var h := WalletHits(es[..m], wallet);
      AtMostPass(c, es[..m], wallet);
      if WalletHit(es[m], wallet).Some? {
        NextCount(h, es[m].now);
      } else {
        SkipsNone(h);
      }
    }
  }

  lemma SkipsNone(h: Hits)
    ensures Opening(h + [None]) == Opening(h) && InWindow(h + [None]) == InWindow(h)
  {
    var t := h + [None];
    assert t[..|h|] == h;
  }
}
