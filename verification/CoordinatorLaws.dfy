// What the coordinator answers and changes, request by request, on the amounts, texts and times
// of the requests themselves.
module CoordinatorLaws {
  import opened Bytes
  import opened Ledger
  import opened Credits
  import opened CreditRuns
  import opened RateLimits
  import opened Names

  // ---------- asking for a hold ----------

  // When the wallet's last hold was placed.
  function LastPlaced(c: Config, es: seq<Event>, wallet: string): Option<int>
    requires ValidRun(c, es)
  {
    if es == [] then None
    else
      var m := |es| - 1;
      var s, e := After(c, es[..m]), es[m];
      if e.HoldAsked? && Trim(e.q.wallet) == wallet && CreateHold(c, s, e.q, e.ticket, e.now).error == None
      then Some(e.now) else LastPlaced(c, es[..m], wallet)
  }

  lemma CooldownStep(c: Config, s: Books, e: Event)
    requires Enabled(s, e)
    ensures CreditRuns.Step(c, s, e).traffic.walletCooldown ==
              if e.HoldAsked? && CreateHold(c, s, e.q, e.ticket, e.now).error == None
              then s.traffic.walletCooldown[Trim(e.q.wallet) := e.now] else s.traffic.walletCooldown
  {
    hide RateStep, Trim, Verdict, FinalizeError, Decide, Cap, Bonus, Forfeit, PayBonus;
  }

  lemma {:induction false} CooldownTold(c: Config, es: seq<Event>, wallet: string)
    requires ValidRun(c, es)
    ensures var m, last := After(c, es).traffic.walletCooldown, LastPlaced(c, es, wallet);
            (if wallet in m then Some(m[wallet]) else None) == last
    decreases |es|
  {
    hide CreditRuns.Step, Trim, CreateHold;
    if es != [] {
      CooldownTold(c, es[..|es| - 1], wallet);
      CooldownStep(c, After(c, es[..|es| - 1]), es[|es| - 1]);
    }
  }

  // The windows of the wallet and the site hold no more requests than allowed, this one included.
  predicate WithinRates(c: Config, run: seq<Event>, q: HoldRequest) {
    && InWindow(WalletHits(run, Trim(q.wallet))) <= c.maxPerMinuteWallet
    && InWindow(SiteHits(c, run, Trim(q.siteId))) <= c.maxPerMinuteSite
  }

  // In every run: a hold is placed if and only if the request is well-formed, within both rates,
  // past the cooldown of the wallet's last hold and covered by its balance; the first of these
  // that fails is the answer. It moves its amount out of the wallet and nothing else.
  lemma HoldPlacedExactly(c: Config, es: seq<Event>, e: Event)
    requires ValidRun(c, es) && e.HoldAsked? && Enabled(After(c, es), e)
    ensures var s, w, last := After(c, es), Trim(e.q.wallet), LastPlaced(c, es, Trim(e.q.wallet));
            var r := CreateHold(c, s, e.q, e.ticket, e.now);
            var let := WellFormed(e.q) && WithinRates(c, es + [e], e.q);
            var cool := e.now - (if last.Some? then last.value else 0) >= c.walletCooldownMs;
            && (r.error == Some(CooldownActive) <==> let && !cool)
            && (r.error == Some(InsufficientCredits) <==> let && cool && Balance(s.money.credits, w) < e.q.amount)
            && (r.error == None <==> let && cool && Balance(s.money.credits, w) >= e.q.amount)
            && (r.error.Some? ==> r.books.money == s.money)
            && (r.error == None ==>
                  && r.books.money.pools == s.money.pools && r.books.money.treasury == s.money.treasury
                  && Balance(r.books.money.credits, w) == Balance(s.money.credits, w) - e.q.amount
                  && (forall v :: v != w ==> Balance(r.books.money.credits, v) == Balance(s.money.credits, v))
                  && r.books.money.holds == s.money.holds[e.ticket :=
                       Hold(w, Trim(e.q.siteId), Trim(e.q.postId), e.q.amount, Held, e.now, e.now + c.holdTtlMs, "")])
  {
    hide Trim, RateStep, After, ValidRun, InWindow, WalletHits, SiteHits;
    HoldLimitedExactly(c, es, e);
    CooldownTold(c, es, Trim(e.q.wallet));
    hide LastPlaced;
  }

  // ---------- the holds there are ----------

  predicate SameHold(a: Hold, b: Hold) {
    && a.wallet == b.wallet && a.postId == b.postId && a.amount == b.amount
    && a.createdAt == b.createdAt && a.expiresAt == b.expiresAt
  }

  predicate PlacedBy(c: Config, e: Event, ticket: string, h: Hold) {
    && e.HoldAsked? && e.ticket == ticket && h.wallet == Trim(e.q.wallet) && h.postId == Trim(e.q.postId)
    && h.amount == e.q.amount && h.createdAt == e.now && h.expiresAt == e.now + c.holdTtlMs
  }

  lemma HoldsStep(c: Config, s: Books, e: Event, t: string)
    requires Enabled(s, e) && t in CreditRuns.Step(c, s, e).money.holds
    ensures var h := CreditRuns.Step(c, s, e).money.holds[t];
            PlacedBy(c, e, t, h) || (t in s.money.holds && SameHold(h, s.money.holds[t]))
  {
    hide Trim, Verdict, Cap, Bonus, RateStep, Balance, Split;
    if e.FinalizeAsked? && Decided(s, e.r, e.now) {
      RulingCloses(c, s, e.r, e.now);
      hide Finalize;
    }
  }

  // Every hold of a run goes back to the request that placed it, with its wallet, its amount and
  // its term.
  lemma {:induction false} HoldGoesBack(c: Config, es: seq<Event>, t: string) returns (n: nat)
    requires ValidRun(c, es) && t in After(c, es).money.holds
    ensures n < |es| && PlacedBy(c, es[n], t, After(c, es).money.holds[t])
    decreases |es|
  {
    hide CreditRuns.Step, Trim;
    var m := |es| - 1;
    HoldsStep(c, After(c, es[..m]), es[m], t);
    if PlacedBy(c, es[m], t, After(c, es).money.holds[t]) {
      n := m;
    } else {
      n := HoldGoesBack(c, es[..m], t);
    }
  }

  // ---------- submitting ----------

  // The ticket named, blanks around it aside, is known and its term has not passed.
  predicate Live(m: Money, ticketId: string, now: int) {
    Trim(ticketId) != "" && Trim(ticketId) in m.holds && now <= m.holds[Trim(ticketId)].expiresAt
  }

  lemma SubmitExactly(m: Money, ticketId: string, commentHash: string, now: int)
    ensures var t, error := Trim(ticketId), SubmitError(m, ticketId, commentHash, now);
            var after := SubmitHold(m, ticketId, commentHash, now);
            && (error == None <==> Trim(commentHash) != "" && Live(m, ticketId, now))
            && (error == Some(InvalidRequest) <==> t == "" || Trim(commentHash) == "")
            && (error == Some(TicketNotFound) <==> t != "" && Trim(commentHash) != "" && t !in m.holds)
            && (error.Some? ==> after == m)
            && (error == None ==>
                  && after == m.(holds := after.holds) && after.holds.Keys == m.holds.Keys
                  && (forall u :: u in m.holds && u != t ==> after.holds[u] == m.holds[u])
                  && SameHold(after.holds[t], m.holds[t]) && after.holds[t].siteId == m.holds[t].siteId
                  && after.holds[t].status == Submitted && after.holds[t].commentHash == Trim(commentHash))
  {
    hide Trim;
  }

  // ---------- ruling ----------

  lemma RulingErrorsExactly(m: Money, ticketId: string, result: string, now: int)
    ensures var t, word, error := Trim(ticketId), Trim(result), FinalizeError(m, ticketId, result, now);
            && (error == None <==> word in {"approved", "spam", "trash"} && Live(m, ticketId, now))
            && (error == Some(InvalidRequest) <==> t == "" || word == "")
            && (error == Some(TicketNotFound) <==> t != "" && word != "" && t !in m.holds)
            && (error == Some(TicketExpired) <==> t != "" && word != "" && t in m.holds && m.holds[t].expiresAt < now)
            && (error == Some(InvalidResult) <==>
                  word != "" && Live(m, ticketId, now) && word !in {"approved", "spam", "trash"})
  {
    hide Trim;
  }

  // The share of a forfeited amount that goes to the site's pool: a half unless configured.
  function Fraction(c: Config): real {
    match c.forfeitSplit
    case None => 0.5
    case Some(f) => if f <= 0.0 then 0.0 else if f >= 1.0 then 1.0 else f
  }

  // How many times its amount an approved hold is worth.
  function Factor(c: Config, multiplier: real): real {
    if multiplier <= 1.0 || c.bonusMax <= 1.0 then 1.0
    else if multiplier <= c.bonusMax then multiplier
    else c.bonusMax
  }

  function Extra(c: Config, amount: real, multiplier: real): real {
    amount * Factor(c, multiplier) - amount
  }

  // An approval gives the wallet the amount, and the pool's bonus on top if the pool has it and
  // the bonus cap of the day allows it.
  lemma ApprovalPaysExactly(c: Config, s: Books, r: Ruling, now: int)
    requires FinalizeError(s.money, r.ticketId, r.result, now) == None && r.result == "approved"
    requires s.money.holds[Trim(r.ticketId)].amount > 0.0
    ensures var h, f := s.money.holds[Trim(r.ticketId)], Finalize(c, s, r, now);
            var site := if r.siteId == "" then h.siteId else r.siteId;
            var m, n, bonus := s.money, f.books.money, Extra(c, h.amount, r.multiplier);
            var given := Used(s.awards.bonus, h.wallet, Day(now));
            var paid := if given + bonus <= c.bonusCap && bonus <= Balance(m.pools, site) then bonus else 0.0;
            && Balance(n.credits, h.wallet) == Balance(m.credits, h.wallet) + h.amount + paid
            && Balance(n.pools, site) == Balance(m.pools, site) - paid && n.treasury == m.treasury
            && (f.error == None <==> bonus == 0.0 || given + bonus <= c.bonusCap)
            && (f.error.Some? ==> f.error == Some(BonusCapExceeded))
            && n.holds[Trim(r.ticketId)].status == Approved
  {
    hide Trim, PayOut, Extra, Used, Finalize, Verdict, Day;
    FinalizeApproved(c, s, r, now);
    var refunded := Refunded(s.money, r);
    var h := refunded.holds[Trim(r.ticketId)];
    PayOutApproved(c, s.(money := refunded), h, r.multiplier, now);
  }

  // After finalizeHold has approved the ticket and the handler has set the site.
  function Refunded(m: Money, r: Ruling): Money
    requires Trim(r.ticketId) in m.holds
  {
    var h := Ruled(m, r);
    m.(credits := m.credits[h.wallet := Balance(m.credits, h.wallet) + h.amount],
       holds := m.holds[Trim(r.ticketId) := h.(status := Approved)])
  }

  lemma FinalizeApproved(c: Config, s: Books, r: Ruling, now: int)
    requires FinalizeError(s.money, r.ticketId, r.result, now) == None && r.result == "approved"
    ensures var m := Refunded(s.money, r);
            Finalize(c, s, r, now)
            == PayOut(c, s.(money := m), m.holds[Trim(r.ticketId)], Some(Approved), r.multiplier, now)
  {
    hide Trim, PayOut, Balance;
    VerdictIsTrimmed(r.result);
    var t, h := Trim(r.ticketId), Ruled(s.money, r).(status := Approved);
    assert s.money.holds[t := s.money.holds[t].(status := Approved)][t := h] == s.money.holds[t := h];
  }

  lemma PayOutApproved(c: Config, s: Books, h: Hold, multiplier: real, now: int)
    requires h.amount > 0.0
    ensures var f := PayOut(c, s, h, Some(Approved), multiplier, now);
            var m, n, bonus := s.money, f.books.money, Extra(c, h.amount, multiplier);
            var given := Used(s.awards.bonus, h.wallet, Day(now));
            var paid := if given + bonus <= c.bonusCap && bonus <= Balance(m.pools, h.siteId) then bonus else 0.0;
            && Balance(n.credits, h.wallet) == Balance(m.credits, h.wallet) + paid
            && Balance(n.pools, h.siteId) == Balance(m.pools, h.siteId) - paid
            && n.treasury == m.treasury && n.holds == m.holds
            && (f.error == None <==> bonus == 0.0 || given + bonus <= c.bonusCap)
            && (f.error.Some? ==> f.error == Some(BonusCapExceeded))
  {
    BonusIsFactor(c, h.amount, multiplier);
    hide Bonus, Extra, Used;
  }

  lemma BonusIsFactor(c: Config, amount: real, multiplier: real)
    requires amount > 0.0
    ensures Bonus(c, amount, multiplier) == Extra(c, amount, multiplier) >= 0.0
    ensures Verdict("approved") == Some(Approved)
  {
    var k := Factor(c, multiplier);
    assert amount * (k - 1.0) == amount * k - amount;
    assert k >= 1.0 ==> amount * (k - 1.0) >= 0.0;
  }

  // A verdict of spam or trash as it comes divides the amount between the pool and the treasury.
  lemma ForfeitGoesExactly(c: Config, s: Books, r: Ruling, now: int)
    requires FinalizeError(s.money, r.ticketId, r.result, now) == None && r.result in {"spam", "trash"}
    ensures var h, f := s.money.holds[Trim(r.ticketId)], Finalize(c, s, r, now);
            var site := if r.siteId == "" then h.siteId else r.siteId;
            var m, n := s.money, f.books.money;
            && f.error == None && n.credits == m.credits
            && Balance(n.pools, site) == Balance(m.pools, site) + h.amount * Fraction(c)
            && n.treasury == m.treasury + (h.amount - h.amount * Fraction(c))
            && n.holds[Trim(r.ticketId)].status == if r.result == "spam" then Spam else Trash
  {
    hide Trim, PayOut;
    VerdictIsTrimmed(r.result);
    var t := Trim(r.ticketId);
    var h := Ruled(s.money, r).(status := if r.result == "spam" then Spam else Trash);
    assert s.money.holds[t := s.money.holds[t].(status := h.status)][t := h] == s.money.holds[t := h];
    PayOutForfeit(c, s.(money := s.money.(holds := s.money.holds[t := h])), h, h.status, r.multiplier, now);
  }

  lemma PayOutForfeit(c: Config, s: Books, h: Hold, verdict: HoldStatus, multiplier: real, now: int)
    requires verdict in {Spam, Trash}
    ensures var f := PayOut(c, s, h, Some(verdict), multiplier, now);
            var m, n := s.money, f.books.money;
            && f.error == None && n.credits == m.credits && n.holds == m.holds
            && Balance(n.pools, h.siteId) == Balance(m.pools, h.siteId) + h.amount * Fraction(c)
            && n.treasury == m.treasury + (h.amount - h.amount * Fraction(c))
  {
    assert PoolShare(c, h.amount) == h.amount * Fraction(c);
    hide PoolShare, Fraction;
  }

  // ---------- receipts, node receipts, spending ----------

  function PayOf(c: Config, kind: Kind): real {
    if kind == Serve then c.serveCredits
    else if kind == Verify then c.verifyCredits
    else if kind == Store then c.storeCredits
    else 0.0
  }

  // What a receipt leaves when it comes: a pending request that remembers the balance, unless it
  // is refused.
  lemma ReceiptTakenExactly(c: Config, s: Books, id: nat, r: Receipt, valid: bool, now: int)
    ensures var f := BeginReceipt(c, s, id, r, valid, now);
            && f.books.money == s.money && f.books.awards == s.awards && f.books.intake.receipts == s.intake.receipts
            && (f.error == None ==>
                  f.books.intake.pending
                  == s.intake.pending[id := Pending(r.wallet, r.kind, r.receiptId, Balance(s.money.credits, r.wallet))])
            && (f.error.Some? ==> f.books.intake == s.intake)
            && (valid && r.receiptId in s.intake.receipts ==> f.error == None && f.books.traffic == s.traffic)
  {
    hide RateStep, Balance;
  }

  // What the end of its request changes: paid by its kind within the day's cap and then on record;
  // over the cap, the wallet is back at the remembered balance and the record is gone.
  lemma ReceiptPaysExactly(c: Config, s: Books, id: nat, accepted: bool, now: int)
    requires id in s.intake.pending
    ensures var p, f := s.intake.pending[id], FinishReceipt(c, s, id, accepted, now);
            var pay := PayOf(c, p.kind);
            var within := Used(s.awards.credit, p.wallet, Day(now)) + pay <= c.dailyCap;
            && f.books.intake.pending == s.intake.pending - {id}
            && f.error == (if !accepted then Some(ReceiptRefused) else if within then None else Some(CreditCapExceeded))
            && f.books.intake.receipts
               == (if !accepted then s.intake.receipts
                   else if within then s.intake.receipts + {p.receiptId}
                   else s.intake.receipts - {p.receiptId})
            && Balance(f.books.money.credits, p.wallet)
               == (if !accepted then Balance(s.money.credits, p.wallet)
                   else if within then Balance(s.money.credits, p.wallet) + pay
                   else p.before)
            && (forall w :: w != p.wallet ==> Balance(f.books.money.credits, w) == Balance(s.money.credits, w))
            && f.books.money == s.money.(credits := f.books.money.credits)
  {
  }

  lemma NodeReceiptPaysExactly(c: Config, s: Books, site: string, now: int)
    ensures var f := NodeReceipt(c, s, site, now);
            var within := Used(s.awards.pool, site, Day(now)) + 1.0 <= c.poolCap;
            && f.error == (if within then None else Some(PoolCapExceeded))
            && Balance(f.books.money.pools, site) == Balance(s.money.pools, site) + (if within then 1.0 else 0.0)
            && (forall p :: p != site ==> Balance(f.books.money.pools, p) == Balance(s.money.pools, p))
            && f.books.money == s.money.(pools := f.books.money.pools)
  {
  }

  lemma SpendExactly(m: Money, wallet: string, amount: real)
    ensures var error, after := SpendError(m, wallet, amount), Spend(m, wallet, amount);
            && (error == Some(InvalidRequest) <==> amount <= 0.0)
            && (error == Some(InsufficientCredits) <==> 0.0 < amount && Balance(m.credits, wallet) < amount)
            && (error == None <==> 0.0 < amount <= Balance(m.credits, wallet))
            && Balance(after.credits, wallet) == Balance(m.credits, wallet) - (if error == None then amount else 0.0)
            && (forall w :: w != wallet ==> Balance(after.credits, w) == Balance(m.credits, w))
            && after == m.(credits := after.credits)
  {
  }

  // In every run a charge is allowed exactly when what its key was given that day, since its last
  // charge of another day, leaves room for it under the cap.
  lemma AllowedExactly(a: Award, c: Config, es: seq<Event>, x: Charge)
    requires ValidRun(c, es) && SaneConfig(c)
    ensures Allowed(a, c, After(c, es), x)
       <==> GivenSince(AskedIn(a, c, es), CapOf(a, c), x.key, x.day) + x.delta <= CapOf(a, c)
    ensures Used(WindowsOf(a, After(c, es)), x.key, x.day) == GivenSince(AskedIn(a, c, es), CapOf(a, c), x.key, x.day)
  {
    hide Cap, Used, After, ValidRun, Awarded, AskedIn;
    WindowsFollow(a, c, es, x.key, x.day);
    CapExactly(AskedIn(a, c, es), CapOf(a, c), x);
  }

  // Two moments are on one day exactly when no multiple of 24 hours lies between them.
  lemma DayExactly(t: int, u: int)
    requires t <= u
    ensures Day(t) == Day(u) <==> forall k: int :: !(t < 86_400_000 * k <= u)
  {
    var d := Day(t);
    assert 86_400_000 * d <= t < 86_400_000 * (d + 1);
    if Day(u) > d {
      assert t < 86_400_000 * Day(u) <= u;
    }
    forall k: int | t < 86_400_000 * k <= u ensures Day(u) > d {
      assert k > d;
    }
  }
}
