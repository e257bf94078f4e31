// Whole runs of the coordinator: conservation of credits with its exact exceptions, balances
// that never go below zero, and awards that never exceed their daily caps.
module CreditRuns {
  import opened Bytes
  import opened Ledger
  import opened Credits
  import opened Names

  datatype Event =
    | HoldAsked(q: HoldRequest, ticket: string, now: int)
    | SubmitAsked(ticketId: string, commentHash: string, now: int)
    | FinalizeAsked(r: Ruling, now: int)
    | ReceiptCame(id: nat, receipt: Receipt, valid: bool, now: int)
    | ReceiptDone(id: nat, accepted: bool, now: int)
    | NodeReceiptCame(site: string, now: int)
    | SpendAsked(wallet: string, amount: real, now: int)

  // Random ticket ids and request identities are fresh; a request ends once.
  predicate Enabled(s: Books, e: Event) {
    match e
    case HoldAsked(_, ticket, _) => ticket !in s.money.holds
    case ReceiptCame(id, _, _, _) => id !in s.intake.pending
    case ReceiptDone(id, _, _) => id in s.intake.pending
    case _ => true
  }

  function Step(c: Config, s: Books, e: Event): Books
    requires Enabled(s, e)
  {
    match e
    case HoldAsked(q, ticket, now) => CreateHold(c, s, q, ticket, now).books
    case SubmitAsked(ticketId, hash, now) => s.(money := SubmitHold(s.money, ticketId, hash, now))
    case FinalizeAsked(r, now) => Finalize(c, s, r, now).books
    case ReceiptCame(id, r, valid, now) => BeginReceipt(c, s, id, r, valid, now).books
    case ReceiptDone(id, accepted, now) => FinishReceipt(c, s, id, accepted, now).books
    case NodeReceiptCame(site, now) => NodeReceipt(c, s, site, now).books
    case SpendAsked(wallet, amount, _) => s.(money := Spend(s.money, wallet, amount))
  }

  // ---------- what there is ----------

  predicate Open(h: Hold) {
    h.status == Held || h.status == Submitted
  }

  function Share(h: Hold): real {
    if Open(h) then h.amount else 0.0
  }

  function OpenAmounts(holds: map<string, Hold>): Amounts {
    map t | t in holds :: Share(holds[t])
  }

  // Wallets, open holds, site pools and the treasury.
  ghost function Total(m: Money): real {
    Sum(m.credits) + Sum(OpenAmounts(m.holds)) + Sum(m.pools) + m.treasury
  }

  lemma OpenUpdate(holds: map<string, Hold>, t: string, h: Hold)
    ensures Sum(OpenAmounts(holds[t := h]))
         == Sum(OpenAmounts(holds)) - (if t in holds then Share(holds[t]) else 0.0) + Share(h)
  {
    hide Sum;
    assert OpenAmounts(holds[t := h]) == OpenAmounts(holds)[t := Share(h)];
    SumUpdate(OpenAmounts(holds), t, Share(h));
  }

  // ---------- awards ----------

  datatype Award = Daily | PoolGrant | BonusPay

  function CapOf(a: Award, c: Config): real {
    match a case Daily => c.dailyCap case PoolGrant => c.poolCap case BonusPay => c.bonusCap
  }

  function WindowsOf(a: Award, s: Books): Windows {
    match a case Daily => s.awards.credit case PoolGrant => s.awards.pool case BonusPay => s.awards.bonus
  }

  predicate Decided(s: Books, r: Ruling, now: int) {
    FinalizeError(s.money, r.ticketId, r.result, now).None?
  }

  function BonusOf(c: Config, s: Books, r: Ruling, now: int): Option<Charge> {
    if Decided(s, r, now) && Verdict(r.result) == Some(Approved)
       && Bonus(c, Ruled(s.money, r).amount, r.multiplier) > 0.0
    then Some(Charge(Ruled(s.money, r).wallet, Day(now), Bonus(c, Ruled(s.money, r).amount, r.multiplier)))
    else None
  }

  // The award an event asks the cap function for, if any.
  function Asked(a: Award, c: Config, s: Books, e: Event): Option<Charge>
    requires Enabled(s, e)
  {
    match a
    case Daily =>
      if e.ReceiptDone? && e.accepted then
        var p := s.intake.pending[e.id];
        Some(Charge(p.wallet, Day(e.now), CreditDelta(c, p.kind)))
      else None
    case PoolGrant => if e.NodeReceiptCame? then Some(Charge(e.site, Day(e.now), 1.0)) else None
    case BonusPay => if e.FinalizeAsked? then BonusOf(c, s, e.r, e.now) else None
  }

  predicate Allowed(a: Award, c: Config, s: Books, x: Charge) {
    Cap(WindowsOf(a, s), x.key, x.day, x.delta, CapOf(a, c)).ok
  }

  // What is paid of it: a bonus only if the site's pool can bear it.
  function Paid(a: Award, c: Config, s: Books, e: Event): real
    requires Enabled(s, e)
  {
    match Asked(a, c, s, e)
    case None => 0.0
    case Some(x) =>
      if Allowed(a, c, s, x) && (a == BonusPay ==> Balance(s.money.pools, Ruled(s.money, e.r).siteId) >= x.delta)
      then x.delta else 0.0
  }

  function Minted(c: Config, s: Books, e: Event): real
    requires Enabled(s, e)
  {
    Paid(Daily, c, s, e) + Paid(PoolGrant, c, s, e)
  }

  function Spent(s: Books, e: Event): real {
    if e.SpendAsked? && SpendError(s.money, e.wallet, e.amount).None? then e.amount else 0.0
  }

  // ---------- conservation, step by step ----------

  predicate Reopens(s: Books, e: Event) {
    && e.SubmitAsked? && SubmitError(s.money, e.ticketId, e.commentHash, e.now).None?
    && !Open(s.money.holds[Trim(e.ticketId)])
  }

  // The result has blanks around it: finalizeHold sees a verdict, the handler none.
  predicate Padded(r: Ruling) {
    Verdict(r.result).None?
  }

  predicate RulesAgain(s: Books, e: Event) {
    && e.FinalizeAsked? && Decided(s, e.r, e.now) && !Open(s.money.holds[Trim(e.r.ticketId)])
    && (Padded(e.r) ==> Verdict(Trim(e.r.result)) == Some(Approved))
  }

  predicate LosesForfeit(s: Books, e: Event) {
    && e.FinalizeAsked? && Decided(s, e.r, e.now) && Open(s.money.holds[Trim(e.r.ticketId)])
    && Padded(e.r) && Verdict(Trim(e.r.result)) != Some(Approved)
  }

  // Refused by the cap after the balance moved while the signature was checked.
  predicate RollsBackOthers(c: Config, s: Books, e: Event)
    requires Enabled(s, e)
  {
    && e.ReceiptDone? && e.accepted && !Allowed(Daily, c, s, Asked(Daily, c, s, e).value)
    && s.intake.pending[e.id].before != Balance(s.money.credits, s.intake.pending[e.id].wallet)
  }

  // The events that create or destroy credits.
  predicate Leaks(c: Config, s: Books, e: Event)
    requires Enabled(s, e)
  {
    Reopens(s, e) || RulesAgain(s, e) || LosesForfeit(s, e) || RollsBackOthers(c, s, e)
  }

  function Drift(c: Config, s: Books, e: Event): real
    requires Enabled(s, e)
  {
    if Reopens(s, e) then s.money.holds[Trim(e.ticketId)].amount
    else if RulesAgain(s, e) then s.money.holds[Trim(e.r.ticketId)].amount
    else if LosesForfeit(s, e) then -s.money.holds[Trim(e.r.ticketId)].amount
    else if RollsBackOthers(c, s, e) then
      s.intake.pending[e.id].before - Balance(s.money.credits, s.intake.pending[e.id].wallet)
    else 0.0
  }

  lemma HoldTotal(c: Config, s: Books, q: HoldRequest, ticket: string, now: int)
    requires ticket !in s.money.holds
    ensures Total(CreateHold(c, s, q, ticket, now).books.money) == Total(s.money)
  {
    hide Trim, LimitRates, PlaceHold, Sum, OpenAmounts, Total;
    var t := HoldRequest(Trim(q.wallet), Trim(q.siteId), Trim(q.postId), q.amount);
    PlaceTotal(c, s.(traffic := LimitRates(c, s.traffic, t.wallet, t.siteId, now).traffic), t, ticket, now);
  }

  lemma PlaceTotal(c: Config, s: Books, t: HoldRequest, ticket: string, now: int)
    requires ticket !in s.money.holds
    ensures Total(PlaceHold(c, s, t, ticket, now).books.money) == Total(s.money)
  {
    hide Sum, OpenAmounts;
    SumUpdate(s.money.credits, t.wallet, Balance(s.money.credits, t.wallet) - t.amount);
    OpenUpdate(s.money.holds, ticket, Hold(t.wallet, t.siteId, t.postId, t.amount, Held, now, now + c.holdTtlMs, ""));
  }

  lemma SubmitTotal(c: Config, s: Books, e: Event)
    requires e.SubmitAsked?
    ensures Total(SubmitHold(s.money, e.ticketId, e.commentHash, e.now)) == Total(s.money) + Drift(c, s, e)
  {
    hide Trim, Sum, OpenAmounts;
    var ticket := Trim(e.ticketId);
    if SubmitError(s.money, e.ticketId, e.commentHash, e.now).None? {
      var hold := s.money.holds[ticket];
      OpenUpdate(s.money.holds, ticket, hold.(commentHash := Trim(e.commentHash), status := Submitted));
    }
  }

  lemma DecideTotal(m: Money, ticket: string, verdict: HoldStatus)
    requires ticket in m.holds && verdict in {Approved, Spam, Trash}
    ensures var h := m.holds[ticket];
            Total(Decide(m, ticket, verdict)) == Total(m) - Share(h) + (if verdict == Approved then h.amount else 0.0)
  {
    hide Sum, OpenAmounts;
    var h := m.holds[ticket];
    SumUpdate(m.credits, h.wallet, Balance(m.credits, h.wallet) + h.amount);
    OpenUpdate(m.holds, ticket, h.(status := verdict));
  }

  lemma PayBonusTotal(m: Money, wallet: string, site: string, bonus: real)
    ensures Total(PayBonus(m, wallet, site, bonus)) == Total(m)
  {
    hide Sum, OpenAmounts;
    SumUpdate(m.pools, site, Balance(m.pools, site) - bonus);
    SumUpdate(m.credits, wallet, Balance(m.credits, wallet) + bonus);
  }

  lemma ForfeitTotal(c: Config, m: Money, site: string, amount: real)
    ensures Total(Forfeit(c, m, site, amount)) == Total(m) + amount
  {
    hide Sum, OpenAmounts, PoolShare;
    SumUpdate(m.pools, site, Balance(m.pools, site) + PoolShare(c, amount));
  }

  lemma PayOutTotal(c: Config, s: Books, hold: Hold, verdict: Option<HoldStatus>, multiplier: real, now: int)
    ensures Total(PayOut(c, s, hold, verdict, multiplier, now).books.money)
         == Total(s.money) + (if verdict.Some? && verdict != Some(Approved) then hold.amount else 0.0)
  {
    hide Bonus, Cap, Total, PayBonus, Forfeit;
    PayBonusTotal(s.money, hold.wallet, hold.siteId, Bonus(c, hold.amount, multiplier));
    ForfeitTotal(c, s.money, hold.siteId, hold.amount);
  }

  lemma FinalizeTotal(c: Config, s: Books, e: Event)
    requires e.FinalizeAsked?
    ensures Total(Finalize(c, s, e.r, e.now).books.money) == Total(s.money) + Drift(c, s, e)
  {
    hide Trim, Verdict, PayOut, Sum, OpenAmounts, Decide;
    var r := e.r;
    if Decided(s, r, e.now) {
      var ticket := Trim(r.ticketId);
      var decided := Decide(s.money, ticket, Verdict(Trim(r.result)).value);
      DecideTotal(s.money, ticket, Verdict(Trim(r.result)).value);
      DecideCloses(s.money, ticket, Verdict(Trim(r.result)).value);
      var hold := Ruled(decided, r);
      OpenUpdate(decided.holds, ticket, hold);
      var ruled := decided.(holds := decided.holds[ticket := hold]);
      PayOutTotal(c, s.(money := ruled), hold, Verdict(r.result), r.multiplier, e.now);
      VerdictIsTrimmed(r.result);
    }
  }

  lemma DecideCloses(m: Money, ticket: string, verdict: HoldStatus)
    requires ticket in m.holds && verdict in {Approved, Spam, Trash}
    ensures var d := Decide(m, ticket, verdict);
            ticket in d.holds && d.holds[ticket] == m.holds[ticket].(status := verdict) && !Open(d.holds[ticket])
  {
  }

  lemma ReceiptTotal(c: Config, s: Books, e: Event)
    requires Enabled(s, e) && e.ReceiptDone?
    ensures Total(FinishReceipt(c, s, e.id, e.accepted, e.now).books.money)
         == Total(s.money) + Paid(Daily, c, s, e) + Drift(c, s, e)
  {
    hide Cap, CreditDelta, Sum, OpenAmounts;
    var p := s.intake.pending[e.id];
    var credits := s.money.credits;
    OtherIsFree(c);
    SumUpdate(credits, p.wallet, Balance(credits, p.wallet) + CreditDelta(c, p.kind));
    SumUpdate(Credited(c, credits, p), p.wallet, p.before);
  }

  lemma OtherIsFree(c: Config)
    ensures CreditDelta(c, Other) == 0.0
  {
  }

  lemma NodeTotal(c: Config, s: Books, e: Event)
    requires e.NodeReceiptCame?
    ensures Total(NodeReceipt(c, s, e.site, e.now).books.money) == Total(s.money) + Paid(PoolGrant, c, s, e)
  {
    hide Cap, Sum, OpenAmounts;
    SumUpdate(s.money.pools, e.site, Balance(s.money.pools, e.site) + 1.0);
  }

  lemma SpendTotal(s: Books, e: Event)
    requires e.SpendAsked?
    ensures Total(Spend(s.money, e.wallet, e.amount)) == Total(s.money) - Spent(s, e)
  {
    hide Sum, OpenAmounts;
    SumUpdate(s.money.credits, e.wallet, Balance(s.money.credits, e.wallet) - e.amount);
  }

  lemma CameTotal(c: Config, s: Books, id: nat, r: Receipt, valid: bool, now: int)
    ensures BeginReceipt(c, s, id, r, valid, now).books.money == s.money
  {
  }

  // What one event does to the total, exactly.
  lemma StepTotal(c: Config, s: Books, e: Event)
    requires Enabled(s, e)
    ensures Total(Step(c, s, e).money) == Total(s.money) + Minted(c, s, e) - Spent(s, e) + Drift(c, s, e)
  {
    hide Trim, Total, Verdict, Finalize, CreateHold, FinishReceipt, BeginReceipt, SubmitHold, NodeReceipt, Spend,
      FinalizeError, Cap, Bonus, SubmitError, SpendError;
    match e
    case HoldAsked(q, ticket, now) => HoldTotal(c, s, q, ticket, now);
    case SubmitAsked(_, _, _) => SubmitTotal(c, s, e);
    case FinalizeAsked(_, _) => FinalizeTotal(c, s, e);
    case ReceiptCame(id, r, valid, now) => CameTotal(c, s, id, r, valid, now);
    case ReceiptDone(_, _, _) => ReceiptTotal(c, s, e);
    case NodeReceiptCame(_, _) => NodeTotal(c, s, e);
    case SpendAsked(_, _, _) => SpendTotal(s, e);
  }

  predicate HoldsPositive(m: Money) {
    forall t :: t in m.holds ==> m.holds[t].amount > 0.0
  }

  // An event conserves credits exactly when it is none of the four kinds.
  lemma ConservesExactly(c: Config, s: Books, e: Event)
    requires Enabled(s, e) && HoldsPositive(s.money)
    ensures Total(Step(c, s, e).money) == Total(s.money) + Minted(c, s, e) - Spent(s, e) <==> !Leaks(c, s, e)
  {
    hide Trim, Total, Step, Verdict, Minted, Spent;
    StepTotal(c, s, e);
  }

  // ---------- runs from empty books ----------

  predicate ValidRun(c: Config, es: seq<Event>)
    decreases |es|, 0
  {
    es == [] || (ValidRun(c, es[..|es| - 1]) && Enabled(After(c, es[..|es| - 1]), es[|es| - 1]))
  }

  function After(c: Config, es: seq<Event>): Books
    requires ValidRun(c, es)
    decreases |es|, 1
  {
    if es == [] then EMPTY else Step(c, After(c, es[..|es| - 1]), es[|es| - 1])
  }

  function TotalMinted(c: Config, es: seq<Event>): real
    requires ValidRun(c, es)
    decreases |es|
  {
    if es == [] then 0.0
    else TotalMinted(c, es[..|es| - 1]) + Minted(c, After(c, es[..|es| - 1]), es[|es| - 1])
  }

  function TotalSpent(c: Config, es: seq<Event>): real
    requires ValidRun(c, es)
    decreases |es|
  {
    if es == [] then 0.0
    else TotalSpent(c, es[..|es| - 1]) + Spent(After(c, es[..|es| - 1]), es[|es| - 1])
  }

  function TotalDrift(c: Config, es: seq<Event>): real
    requires ValidRun(c, es)
    decreases |es|
  {
    if es == [] then 0.0
    else TotalDrift(c, es[..|es| - 1]) + Drift(c, After(c, es[..|es| - 1]), es[|es| - 1])
  }

  predicate NeverLeaks(c: Config, es: seq<Event>)
    requires ValidRun(c, es)
    decreases |es|
  {
    es == [] || (NeverLeaks(c, es[..|es| - 1]) && !Leaks(c, After(c, es[..|es| - 1]), es[|es| - 1]))
  }

  // In every run: wallets, open holds, pools and treasury are what was minted less what was
  // spent, but for the drift of the four leaking kinds of event.
  lemma {:induction false} RunTotal(c: Config, es: seq<Event>)
    requires ValidRun(c, es)
    ensures Total(After(c, es).money) == TotalMinted(c, es) - TotalSpent(c, es) + TotalDrift(c, es)
    ensures NeverLeaks(c, es) ==> TotalDrift(c, es) == 0.0
    decreases |es|
  {
    hide Step, Minted, Spent, Total, Trim;
    if es == [] {
      EmptyTotal();
    } else {
      RunTotal(c, es[..|es| - 1]);
      StepTotal(c, After(c, es[..|es| - 1]), es[|es| - 1]);
    }
  }

  lemma EmptyTotal()
    ensures Total(EMPTY.money) == 0.0
  {
    assert OpenAmounts(map[]) == map[];
  }

  // Nothing is created or destroyed in a run without them.
  lemma Conservation(c: Config, es: seq<Event>)
    requires ValidRun(c, es) && NeverLeaks(c, es)
    ensures Total(After(c, es).money) == TotalMinted(c, es) - TotalSpent(c, es)
  {
    RunTotal(c, es);
  }

  // ---------- nothing goes below zero ----------

  predicate SaneConfig(c: Config) {
    c.serveCredits >= 0.0 && c.verifyCredits >= 0.0 && c.storeCredits >= 0.0
  }

  predicate Solvent(s: Books) {
    && NonNegative(s.money.credits) && NonNegative(s.money.pools) && s.money.treasury >= 0.0
    && forall id :: id in s.intake.pending ==> s.intake.pending[id].before >= 0.0
  }

  lemma FinalizeSolvent(c: Config, s: Books, r: Ruling, now: int)
    requires Solvent(s) && HoldsPositive(s.money)
    ensures Solvent(Finalize(c, s, r, now).books) && HoldsPositive(Finalize(c, s, r, now).books.money)
  {
    hide Trim, Verdict, PayOut, Cap;
    if Decided(s, r, now) {
      var ticket := Trim(r.ticketId);
      var decided := Decide(s.money, ticket, Verdict(Trim(r.result)).value);
      var hold := Ruled(decided, r);
      var ruled := decided.(holds := decided.holds[ticket := hold]);
      PayOutSolvent(c, s.(money := ruled), hold, Verdict(r.result), r.multiplier, now);
    }
  }

  lemma PayOutSolvent(c: Config, s: Books, hold: Hold, verdict: Option<HoldStatus>, multiplier: real, now: int)
    requires Solvent(s) && HoldsPositive(s.money) && hold.amount > 0.0
    ensures var b := PayOut(c, s, hold, verdict, multiplier, now).books; Solvent(b) && HoldsPositive(b.money)
  {
    hide Cap, Bonus;
    SharesPositive(c, hold.amount);
  }

  lemma SharesPositive(c: Config, amount: real)
    requires amount > 0.0
    ensures 0.0 <= PoolShare(c, amount) <= amount
  {
    var f := Split(c);
    assert 0.0 <= f <= 1.0;
    assert amount * f >= 0.0 && amount * (1.0 - f) >= 0.0;
  }

  lemma HoldSolvent(c: Config, s: Books, q: HoldRequest, ticket: string, now: int)
    requires Solvent(s) && HoldsPositive(s.money)
    ensures var b := CreateHold(c, s, q, ticket, now).books; Solvent(b) && HoldsPositive(b.money)
  {
    hide Trim, LimitRates, PlaceHold;
    var t := HoldRequest(Trim(q.wallet), Trim(q.siteId), Trim(q.postId), q.amount);
    if t.amount > 0.0 {
      PlaceSolvent(c, s.(traffic := LimitRates(c, s.traffic, t.wallet, t.siteId, now).traffic), t, ticket, now);
    }
  }

  lemma PlaceSolvent(c: Config, s: Books, t: HoldRequest, ticket: string, now: int)
    requires Solvent(s) && HoldsPositive(s.money) && t.amount > 0.0
    ensures var b := PlaceHold(c, s, t, ticket, now).books; Solvent(b) && HoldsPositive(b.money)
  {
  }

  lemma ReceiptSolvent(c: Config, s: Books, id: nat, accepted: bool, now: int)
    requires Solvent(s) && SaneConfig(c) && id in s.intake.pending
    ensures Solvent(FinishReceipt(c, s, id, accepted, now).books)
    ensures FinishReceipt(c, s, id, accepted, now).books.money.holds == s.money.holds
  {
    hide Cap, CreditDelta, Credited;
    var p := s.intake.pending[id];
    CreditedNonNegative(c, s.money.credits, p);
  }

  lemma CreditedNonNegative(c: Config, credits: Amounts, p: Pending)
    requires NonNegative(credits) && SaneConfig(c)
    ensures NonNegative(Credited(c, credits, p))
  {
  }

  lemma StepSolvent(c: Config, s: Books, e: Event)
    requires Enabled(s, e) && Solvent(s) && HoldsPositive(s.money) && SaneConfig(c)
    ensures Solvent(Step(c, s, e)) && HoldsPositive(Step(c, s, e).money)
  {
    hide Trim, Verdict, Finalize, CreateHold, FinishReceipt, Cap;
    match e
    case HoldAsked(q, ticket, now) => HoldSolvent(c, s, q, ticket, now);
    case FinalizeAsked(r, now) => FinalizeSolvent(c, s, r, now);
    case ReceiptDone(id, accepted, now) => ReceiptSolvent(c, s, id, accepted, now);
    case ReceiptCame(id, r, valid, now) => CameSolvent(c, s, id, r, valid, now);
    case _ =>
  }

  lemma CameSolvent(c: Config, s: Books, id: nat, r: Receipt, valid: bool, now: int)
    requires Solvent(s)
    ensures Solvent(BeginReceipt(c, s, id, r, valid, now).books)
    ensures BeginReceipt(c, s, id, r, valid, now).books.money == s.money
  {
  }

  // In every run, leaks included, no balance, pool or treasury is ever negative.
  lemma {:induction false} RunSolvent(c: Config, es: seq<Event>)
    requires ValidRun(c, es) && SaneConfig(c)
    ensures Solvent(After(c, es)) && HoldsPositive(After(c, es).money)
    decreases |es|
  {
    hide Step;
    if es != [] {
      RunSolvent(c, es[..|es| - 1]);
      StepSolvent(c, After(c, es[..|es| - 1]), es[|es| - 1]);
    }
  }

  // ---------- no day's awards exceed their cap ----------

  // The awards asked for in a run, in order.
  function AskedIn(a: Award, c: Config, es: seq<Event>): seq<Charge>
    requires ValidRun(c, es)
    decreases |es|
  {
    if es == [] then []
    else
      AskedIn(a, c, es[..|es| - 1])
      + match Asked(a, c, After(c, es[..|es| - 1]), es[|es| - 1]) case None => [] case Some(x) => [x]
  }

  // What a wallet or a site was paid on one day.
  function PaidOn(a: Award, c: Config, es: seq<Event>, key: string, day: int): real
    requires ValidRun(c, es)
    decreases |es|
  {
    if es == [] then 0.0
    else
      var s, e := After(c, es[..|es| - 1]), es[|es| - 1];
      PaidOn(a, c, es[..|es| - 1], key, day)
      + match Asked(a, c, s, e)
        case None => 0.0
        case Some(x) => if x.key == key && x.day == day then Paid(a, c, s, e) else 0.0
  }

  predicate DaysNonDecreasing(es: seq<Event>) {
    forall i, j :: 0 <= i < j < |es| ==> Day(es[i].now) <= Day(es[j].now)
  }

  lemma WindowsStep(a: Award, c: Config, s: Books, e: Event)
    requires Enabled(s, e)
    ensures WindowsOf(a, Step(c, s, e)) == match Asked(a, c, s, e)
              case None => WindowsOf(a, s)
              case Some(x) => Cap(WindowsOf(a, s), x.key, x.day, x.delta, CapOf(a, c)).windows
  {
    hide Cap, Trim, Bonus, CreditDelta, LimitRates, RateStep, Verdict;
    if e.FinalizeAsked? {
      FinalizeWindows(c, s, e.r, e.now);
    }
  }

  lemma FinalizeWindows(c: Config, s: Books, r: Ruling, now: int)
    ensures var w := Finalize(c, s, r, now).books.awards;
            && w.credit == s.awards.credit && w.pool == s.awards.pool
            && w.bonus == match BonusOf(c, s, r, now)
                 case None => s.awards.bonus
                 case Some(x) => Cap(s.awards.bonus, x.key, x.day, x.delta, c.bonusCap).windows
  {
    hide Cap, Trim, Bonus;
  }

  lemma AskedIsDated(a: Award, c: Config, s: Books, e: Event)
    requires Enabled(s, e) && Asked(a, c, s, e).Some?
    ensures Asked(a, c, s, e).value.day == Day(e.now)
    ensures SaneConfig(c) ==> Asked(a, c, s, e).value.delta >= 0.0
    ensures var x, paid := Asked(a, c, s, e).value, Paid(a, c, s, e);
            && (paid == 0.0 || (Allowed(a, c, s, x) && paid == x.delta))
            && (a != BonusPay && Allowed(a, c, s, x) ==> paid == x.delta)
  {
    hide Cap, Trim, Bonus;
  }

  lemma AppendCharge(charges: seq<Charge>, x: Charge, cap: real, key: string, day: int)
    ensures var ws := CapAll(map[], charges, cap);
            && CapAll(map[], charges + [x], cap) == Cap(ws, x.key, x.day, x.delta, cap).windows
            && Awarded(charges + [x], cap, key, day) == Awarded(charges, cap, key, day)
                 + (if x.key == key && x.day == day && Cap(ws, x.key, x.day, x.delta, cap).ok then x.delta else 0.0)
  {
    hide Cap;
    assert (charges + [x])[..|charges|] == charges;
  }

  lemma {:induction false} AskedNonNegative(a: Award, c: Config, es: seq<Event>)
    requires ValidRun(c, es) && SaneConfig(c)
    ensures NoNegativeCharge(AskedIn(a, c, es))
    decreases |es|
  {
    hide Cap, Step, Asked, Paid, Day;
    if es != [] {
      var m := |es| - 1;
      AskedNonNegative(a, c, es[..m]);
      if Asked(a, c, After(c, es[..m]), es[m]).Some? {
        AskedIsDated(a, c, After(c, es[..m]), es[m]);
      }
    }
  }

  lemma {:induction false} AskedInOrder(a: Award, c: Config, es: seq<Event>)
    requires ValidRun(c, es) && DaysNonDecreasing(es)
    ensures DaysGoOn(AskedIn(a, c, es))
    ensures forall x :: x in AskedIn(a, c, es) ==> es != [] && x.day <= Day(es[|es| - 1].now)
    decreases |es|
  {
    hide Cap, Step, Asked, Paid, Day;
    if es != [] {
      var m := |es| - 1;
      var s, e := After(c, es[..m]), es[m];
      AskedInOrder(a, c, es[..m]);
      assert m > 0 ==> Day(es[m - 1].now) <= Day(e.now);
      if Asked(a, c, s, e).Some? {
        AskedIsDated(a, c, s, e);
        InOrderPush(AskedIn(a, c, es[..m]), Asked(a, c, s, e).value);
      }
    }
  }

  lemma InOrderPush(charges: seq<Charge>, x: Charge)
    requires DaysGoOn(charges) && forall y :: y in charges ==> y.day <= x.day
    ensures DaysGoOn(charges + [x])
  {
  }

  // The coordinator's windows are those of the awards asked for, and what it paid is no more
  // than those windows allowed.
  lemma {:induction false} WindowsFollow(a: Award, c: Config, es: seq<Event>, key: string, day: int)
    requires ValidRun(c, es) && SaneConfig(c)
    ensures var charges := AskedIn(a, c, es);
            && CapAll(map[], charges, CapOf(a, c)) == WindowsOf(a, After(c, es))
            && PaidOn(a, c, es, key, day) <= Awarded(charges, CapOf(a, c), key, day)
            && (a != BonusPay ==> PaidOn(a, c, es, key, day) == Awarded(charges, CapOf(a, c), key, day))
    decreases |es|
  {
    hide Cap, Step, Asked, Paid, Day, Awarded, CapAll;
    if es == [] {
      NothingAsked(CapOf(a, c), key, day);
    } else {
      var m := |es| - 1;
      var s, e := After(c, es[..m]), es[m];
      WindowsFollow(a, c, es[..m], key, day);
      WindowsStep(a, c, s, e);
      if Asked(a, c, s, e).Some? {
        AskedIsDated(a, c, s, e);
        AppendCharge(AskedIn(a, c, es[..m]), Asked(a, c, s, e).value, CapOf(a, c), key, day);
      } else {
        assert AskedIn(a, c, es) == AskedIn(a, c, es[..m]);
      }
    }
  }

  lemma NothingAsked(cap: real, key: string, day: int)
    ensures CapAll(map[], [], cap) == map[] && Awarded([], cap, key, day) == 0.0
  {
  }

  // Whatever happens in a run in which the days of one wallet's or site's awards do not come
  // back, it gets no more than the cap on any day: the daily cap by receipts, the pool cap by
  // node receipts, the bonus cap by bonuses.
  lemma AwardsWithinCaps(a: Award, c: Config, es: seq<Event>, key: string, day: int)
    requires ValidRun(c, es) && SaneConfig(c) && NoDayReturns(AskedIn(a, c, es), key)
    ensures PaidOn(a, c, es, key, day) <= AtLeastZero(CapOf(a, c))
  {
    WindowsFollow(a, c, es, key, day);
    AskedNonNegative(a, c, es);
    AwardsCapped(AskedIn(a, c, es), CapOf(a, c), key, day);
  }

  // So it is in particular when the clock never goes back over midnight.
  lemma ClockInOrderSuffices(a: Award, c: Config, es: seq<Event>, key: string)
    requires ValidRun(c, es) && DaysNonDecreasing(es)
    ensures NoDayReturns(AskedIn(a, c, es), key)
  {
    AskedInOrder(a, c, es);
    DaysInOrderDoNotReturn(AskedIn(a, c, es), key);
  }

  // ---------- what finalising moves ----------

  // A ruling on a ticket moves its amount where it belongs and nothing else: back to the
  // wallet, with any bonus out of the site's pool, or into the pool and the treasury.
  lemma RulingMoves(c: Config, s: Books, r: Ruling, now: int)
    requires Decided(s, r, now) && !Padded(r)
    ensures var h := Ruled(s.money, r);
            var m := Finalize(c, s, r, now).books.money;
            var bonus := Paid(BonusPay, c, s, FinalizeAsked(r, now));
            var approved := Verdict(r.result) == Some(Approved);
            && Balance(m.credits, h.wallet) - Balance(s.money.credits, h.wallet)
               == (if approved then h.amount + bonus else 0.0)
            && Balance(m.pools, h.siteId) - Balance(s.money.pools, h.siteId) + (m.treasury - s.money.treasury)
               == (if approved then -bonus else h.amount)
            && (approved ==> m.treasury == s.money.treasury)
  {
    hide Trim, Cap, Bonus, PoolShare;
    VerdictIsTrimmed(r.result);
  }

  lemma RulingLeaves(c: Config, s: Books, r: Ruling, now: int)
    requires Decided(s, r, now) && !Padded(r)
    ensures var h := Ruled(s.money, r);
            var m := Finalize(c, s, r, now).books.money;
            && (forall w :: w != h.wallet ==> Balance(m.credits, w) == Balance(s.money.credits, w))
            && (forall p :: p != h.siteId ==> Balance(m.pools, p) == Balance(s.money.pools, p))
  {
    hide Trim, Cap, Bonus, PoolShare, Verdict;
  }

  // Of the holds only the ticket's changes, and it is closed with the verdict.
  lemma RulingCloses(c: Config, s: Books, r: Ruling, now: int)
    requires Decided(s, r, now)
    ensures var m := Finalize(c, s, r, now).books.money;
            && m.holds == s.money.holds[Trim(r.ticketId) := Ruled(s.money, r).(status := Verdict(Trim(r.result)).value)]
            && !Open(m.holds[Trim(r.ticketId)])
  {
    hide Trim, Cap, Bonus, PoolShare, Verdict, PayOut;
    var ticket := Trim(r.ticketId);
    var decided := Decide(s.money, ticket, Verdict(Trim(r.result)).value);
    var hold := Ruled(decided, r);
    var ruled := decided.(holds := decided.holds[ticket := hold]);
    PayOutKeepsHolds(c, s.(money := ruled), hold, Verdict(r.result), r.multiplier, now);
  }

  lemma PayOutKeepsHolds(c: Config, s: Books, hold: Hold, verdict: Option<HoldStatus>, multiplier: real, now: int)
    ensures PayOut(c, s, hold, verdict, multiplier, now).books.money.holds == s.money.holds
  {
    hide Cap, Bonus, PoolShare;
  }

  // ---------- the leaks are real ----------

  lemma OneMore(c: Config, es: seq<Event>, e: Event, s: Books)
    requires ValidRun(c, es) && After(c, es) == s && Enabled(s, e)
    ensures ValidRun(c, es + [e]) && After(c, es + [e]) == Step(c, s, e)
    ensures TotalMinted(c, es + [e]) == TotalMinted(c, es) + Minted(c, s, e)
  {
    hide Step, Minted, Enabled;
    assert (es + [e])[..|es|] == es;
  }

  const SAMPLE := Config(1000, 10, 10, 1.0, 0, 1.0, 1.0, 1.0, 10, 100.0, 100.0, 100.0, Some(0.5))

  function SampleHold(status: HoldStatus): Hold {
    Hold("w", "s", "p", 1.0, status, 0, 1000, "")
  }

  lemma SampleTrims()
    ensures Trim("w") == "w" && Trim("s") == "s" && Trim("p") == "p" && Trim("t") == "t"
    ensures Trim("approved") == "approved"
  {
    VerdictIsTrimmed("approved");
  }

  const SAMPLE_CAME := ReceiptCame(0, Receipt("w", Store, "r"), true, 0)

  lemma SampleCredited(s: Books)
    requires s == Step(SAMPLE, Step(SAMPLE, EMPTY, SAMPLE_CAME), ReceiptDone(0, true, 0))
    ensures s.money == Money(map["w" := 1.0], map[], map[], 0.0) && s.traffic.walletCooldown == map[]
    ensures s.traffic.walletRate == map[] && s.traffic.siteRate == map[]
    ensures s.awards.bonus == map[] && s.awards.credit == map["w" := Window(0, 1.0)]
    ensures s.intake == Intake({"r"}, map[])
    ensures Minted(SAMPLE, Step(SAMPLE, EMPTY, SAMPLE_CAME), ReceiptDone(0, true, 0)) == 1.0
  {
  }

  lemma SampleHeld(s: Books)
    requires s.money == Money(map["w" := 1.0], map[], map[], 0.0) && s.traffic.walletCooldown == map[]
    requires s.traffic.walletRate == map[] && s.traffic.siteRate == map[]
    ensures Step(SAMPLE, s, HoldAsked(HoldRequest("w", "s", "p", 1.0), "t", 0)).money
         == Money(map["w" := 0.0], map["t" := SampleHold(Held)], map[], 0.0)
  {
    hide Trim;
    SampleTrims();
  }

  lemma SampleApproved(s: Books, balance: real, status: HoldStatus)
    requires s.money == Money(map["w" := balance], map["t" := SampleHold(status)], map[], 0.0)
    ensures var e := FinalizeAsked(Ruling("t", "approved", 1.0, ""), 0);
            Step(SAMPLE, s, e).money == Money(map["w" := balance + 1.0], map["t" := SampleHold(Approved)], map[], 0.0)
            && Minted(SAMPLE, s, e) == 0.0
  {
    hide Trim;
    SampleTrims();
  }

  // One receipt, one hold, and its approval reported twice: a wallet that earned 1 holds 2.
  lemma ApprovedTwiceMints() returns (es: seq<Event>)
    ensures ValidRun(SAMPLE, es) && |es| == 5 && es[3] == es[4]
    ensures After(SAMPLE, es).money.credits == map["w" := 2.0] && TotalMinted(SAMPLE, es) == 1.0
  {
    hide Step, Minted, ValidRun, After, TotalMinted;
    var came, done := SAMPLE_CAME, ReceiptDone(0, true, 0);
    var hold := HoldAsked(HoldRequest("w", "s", "p", 1.0), "t", 0);
    var rule := FinalizeAsked(Ruling("t", "approved", 1.0, ""), 0);
    Begins();
    var s0, s1 := EMPTY, Step(SAMPLE, EMPTY, came);
    OneMore(SAMPLE, [], came, s0);
    assert [] + [came] == [came] && [came] + [done] == [came, done];
    CameWaits();
    OneMore(SAMPLE, [came], done, s1);
    var s2 := Step(SAMPLE, s1, done);
    SampleCredited(s2);
    OneMore(SAMPLE, [came, done], hold, s2);
    HoldMintsNothing(s2, hold);
    var s3 := Step(SAMPLE, s2, hold);
    SampleHeld(s2);
    assert [came, done] + [hold] == [came, done, hold];
    OneMore(SAMPLE, [came, done, hold], rule, s3);
    SampleApproved(s3, 0.0, Held);
    var s4 := Step(SAMPLE, s3, rule);
    assert [came, done, hold] + [rule] == [came, done, hold, rule];
    OneMore(SAMPLE, [came, done, hold, rule], rule, s4);
    SampleApproved(s4, 1.0, Approved);
    es := [came, done, hold, rule] + [rule];
  }

  lemma Begins()
    ensures ValidRun(SAMPLE, []) && After(SAMPLE, []) == EMPTY && TotalMinted(SAMPLE, []) == 0.0
  {
  }

  lemma CameWaits()
    ensures var e := SAMPLE_CAME;
            0 in Step(SAMPLE, EMPTY, e).intake.pending && Minted(SAMPLE, EMPTY, e) == 0.0
  {
  }

  lemma HoldMintsNothing(s: Books, e: Event)
    requires e.HoldAsked? && Enabled(s, e)
    ensures Minted(SAMPLE, s, e) == 0.0
  {
  }

  // A verdict with a blank in front makes the forfeited amount of any open ticket vanish.
  lemma PaddedSpamVanishes(c: Config, s: Books, ticket: string, now: int)
    requires Trim(ticket) != "" && Trim(ticket) in s.money.holds
    requires Open(s.money.holds[Trim(ticket)]) && s.money.holds[Trim(ticket)].expiresAt >= now
    ensures var m := Finalize(c, s, Ruling(ticket, " spam", 1.0, ""), now).books.money;
            Total(m) == Total(s.money) - s.money.holds[Trim(ticket)].amount
  {
    hide Total, Finalize;
    var e := FinalizeAsked(Ruling(ticket, " spam", 1.0, ""), now);
    PaddedSpam();
    assert LosesForfeit(s, e) && !RulesAgain(s, e);
    FinalizeTotal(c, s, e);
  }

  lemma PaddedSpam()
    ensures Trim(" spam") == "spam" && Verdict(" spam") == None && Verdict("spam") == Some(Spam)
  {
    VerdictIsTrimmed("spam");
    assert " spam"[1..] == "spam";
  }

  // ---------- receipts that come again ----------

  // e completes a request for the receipt: everything checks out and the cap allows it.
  predicate Completes(c: Config, s: Books, e: Event, receiptId: string)
    requires Enabled(s, e)
  {
    && e.ReceiptDone? && e.accepted && s.intake.pending[e.id].receiptId == receiptId
    && Allowed(Daily, c, s, Asked(Daily, c, s, e).value)
  }

  function Completions(c: Config, es: seq<Event>, receiptId: string): nat
    requires ValidRun(c, es)
    decreases |es|
  {
    if es == [] then 0
    else
      Completions(c, es[..|es| - 1], receiptId)
      + (if Completes(c, After(c, es[..|es| - 1]), es[|es| - 1], receiptId) then 1 else 0)
  }

  // What was paid for one receipt.
  function PaidFor(c: Config, es: seq<Event>, receiptId: string): real
    requires ValidRun(c, es)
    decreases |es|
  {
    if es == [] then 0.0
    else
      var s, e := After(c, es[..|es| - 1]), es[|es| - 1];
      PaidFor(c, es[..|es| - 1], receiptId)
      + (if e.ReceiptDone? && s.intake.pending[e.id].receiptId == receiptId then Paid(Daily, c, s, e) else 0.0)
  }

  // A receipt id is the hash of the receipt, so it stands for one kind.
  predicate OneKind(es: seq<Event>, receiptId: string, kind: Kind) {
    forall i :: 0 <= i < |es| && es[i].ReceiptCame? && es[i].receipt.receiptId == receiptId ==>
      es[i].receipt.kind == kind
  }

  predicate PendingOfKind(s: Books, receiptId: string, kind: Kind) {
    forall id :: id in s.intake.pending && s.intake.pending[id].receiptId == receiptId ==>
      s.intake.pending[id].kind == kind
  }

  lemma {:induction false} PendingKeepKind(c: Config, es: seq<Event>, receiptId: string, kind: Kind)
    requires ValidRun(c, es) && OneKind(es, receiptId, kind)
    ensures PendingOfKind(After(c, es), receiptId, kind)
    decreases |es|
  {
    if es != [] {
      PendingKeepKind(c, es[..|es| - 1], receiptId, kind);
      StepKeepsKind(c, After(c, es[..|es| - 1]), es[|es| - 1], receiptId, kind);
    }
  }

  lemma StepKeepsKind(c: Config, s: Books, e: Event, receiptId: string, kind: Kind)
    requires Enabled(s, e) && PendingOfKind(s, receiptId, kind)
    requires e.ReceiptCame? && e.receipt.receiptId == receiptId ==> e.receipt.kind == kind
    ensures PendingOfKind(Step(c, s, e), receiptId, kind)
  {
    hide CreateHold, Finalize, SubmitHold, Spend, Cap, RateStep, Balance, CreditDelta, Credited;
    match e
    case HoldAsked(q, ticket, now) => HoldKeepsIntake(c, s, q, ticket, now);
    case FinalizeAsked(r, now) => FinalizeKeepsIntake(c, s, r, now);
    case ReceiptCame(id, r, valid, now) => CameAddsOne(c, s, id, r, valid, now);
    case _ =>
  }

  lemma CameAddsOne(c: Config, s: Books, id: nat, r: Receipt, valid: bool, now: int)
    ensures var p := BeginReceipt(c, s, id, r, valid, now).books.intake.pending;
            forall i :: i in p ==> (i == id && p[i].receiptId == r.receiptId && p[i].kind == r.kind)
                                   || (i in s.intake.pending && p[i] == s.intake.pending[i])
  {
    hide RateStep, Balance;
  }

  lemma HoldKeepsIntake(c: Config, s: Books, q: HoldRequest, ticket: string, now: int)
    ensures CreateHold(c, s, q, ticket, now).books.intake == s.intake
  {
    hide Trim, LimitRates;
  }

  lemma FinalizeKeepsIntake(c: Config, s: Books, r: Ruling, now: int)
    ensures Finalize(c, s, r, now).books.intake == s.intake
  {
    hide Trim, Verdict, Decide, Bonus, Cap, Forfeit, PayBonus;
  }

  // What a receipt was paid is its amount times its accepted completions within the cap,
  // however often it came: it is paid at most once exactly when there is at most one.
  lemma {:induction false} ReceiptPaidExactly(c: Config, es: seq<Event>, receiptId: string, kind: Kind)
    requires ValidRun(c, es) && OneKind(es, receiptId, kind)
    ensures PaidFor(c, es, receiptId) == CreditDelta(c, kind) * Completions(c, es, receiptId) as real
    ensures CreditDelta(c, kind) > 0.0 ==>
              (PaidFor(c, es, receiptId) <= CreditDelta(c, kind) <==> Completions(c, es, receiptId) <= 1)
    decreases |es|
  {
    hide CreditDelta, Step, Cap, Completes, Paid;
    if es != [] {
      var m := |es| - 1;
      ReceiptPaidExactly(c, es[..m], receiptId, kind);
      PendingKeepKind(c, es[..m], receiptId, kind);
      CompletionPays(c, After(c, es[..m]), es[m], receiptId, kind);
      OneMoreTime(CreditDelta(c, kind), Completions(c, es[..m], receiptId));
    }
    AtMostOnce(CreditDelta(c, kind), Completions(c, es, receiptId));
  }

  lemma CompletionPays(c: Config, s: Books, e: Event, receiptId: string, kind: Kind)
    requires Enabled(s, e) && PendingOfKind(s, receiptId, kind)
    ensures (if e.ReceiptDone? && s.intake.pending[e.id].receiptId == receiptId then Paid(Daily, c, s, e) else 0.0)
         == (if Completes(c, s, e, receiptId) then CreditDelta(c, kind) else 0.0)
  {
    hide CreditDelta, Cap;
  }

  lemma OneMoreTime(delta: real, n: nat)
    ensures delta * (n + 1) as real == delta * n as real + delta
  {
  }

  lemma AtMostOnce(delta: real, n: nat)
    ensures delta > 0.0 ==> (delta * n as real <= delta <==> n <= 1)
  {
    if delta > 0.0 && n > 1 {
      assert delta * (n as real - 1.0) > 0.0;
    }
  }

  // What a completion does, other than to the record, does not depend on which receipts were
  // recorded before.
  lemma RecordIsIgnored(c: Config, s: Books, seen: set<string>, id: nat, accepted: bool, now: int)
    requires id in s.intake.pending
    ensures var f := FinishReceipt(c, s, id, accepted, now);
            var s' := s.(intake := s.intake.(receipts := seen));
            var f' := FinishReceipt(c, s', id, accepted, now);
            && f'.books.money == f.books.money && f'.books.awards == f.books.awards
            && f'.books.traffic == f.books.traffic && f'.books.intake.pending == f.books.intake.pending
            && f'.error == f.error
  {
    hide Cap;
  }

  // A known receipt is not even counted against the rate limit, and pays again.
  lemma ReplayPaysAgain(c: Config, s: Books, id: nat, r: Receipt, now: int)
    requires id !in s.intake.pending && r.receiptId in s.intake.receipts
    requires Allowed(Daily, c, s, Charge(r.wallet, Day(now), CreditDelta(c, r.kind)))
    ensures var s1 := BeginReceipt(c, s, id, r, true, now);
            && s1.error.None? && s1.books.traffic == s.traffic
            && var s2 := FinishReceipt(c, s1.books, id, true, now);
            && s2.error.None?
            && Balance(s2.books.money.credits, r.wallet) == Balance(s.money.credits, r.wallet) + CreditDelta(c, r.kind)
  {
    hide Cap;
  }

  // One receipt sent twice earns twice: the concrete run.
  lemma ReceiptEarnsTwice() returns (es: seq<Event>)
    ensures ValidRun(SAMPLE, es) && |es| == 4
    ensures es[0].ReceiptCame? && es[2].ReceiptCame? && es[0].receipt == es[2].receipt
    ensures Balance(After(SAMPLE, es).money.credits, "w") == 2.0 && Completions(SAMPLE, es, "r") == 2
    ensures PaidFor(SAMPLE, es, "r") == 2.0
  {
    hide Step, ValidRun, After, Completions, PaidFor, TotalMinted, Minted;
    var came, done := SAMPLE_CAME, ReceiptDone(0, true, 0);
    Begins();
    OneMore(SAMPLE, [], came, EMPTY);
    var s1 := Step(SAMPLE, EMPTY, came);
    FirstTime(s1);
    assert [] + [came] == [came];
    OneMore(SAMPLE, [came], done, s1);
    var s2 := Step(SAMPLE, s1, done);
    assert [came] + [done] == [came, done];
    SampleCredited(s2);
    SecondTime(s2);
    OneMore(SAMPLE, [came, done], came, s2);
    var s3 := Step(SAMPLE, s2, came);
    assert [came, done] + [came] == [came, done, came];
    OneMore(SAMPLE, [came, done, came], done, s3);
    es := [came, done, came] + [done];
    assert OneKind(es, "r", Store);
    CompletionsPush(SAMPLE, [], came, "r");
    CompletionsPush(SAMPLE, [came], done, "r");
    CompletionsPush(SAMPLE, [came, done], came, "r");
    CompletionsPush(SAMPLE, [came, done, came], done, "r");
    ReceiptPaidExactly(SAMPLE, es, "r", Store);
  }

  lemma CompletionsPush(c: Config, es: seq<Event>, e: Event, receiptId: string)
    requires ValidRun(c, es + [e])
    ensures ValidRun(c, es) && Enabled(After(c, es), e)
    ensures Completions(c, es + [e], receiptId)
         == Completions(c, es, receiptId) + (if Completes(c, After(c, es), e, receiptId) then 1 else 0)
    ensures es == [] ==> Completions(c, es, receiptId) == 0
  {
    hide Step, Completes;
    assert (es + [e])[..|es|] == es;
  }

  lemma FirstTime(s1: Books)
    requires s1 == Step(SAMPLE, EMPTY, SAMPLE_CAME)
    ensures 0 in s1.intake.pending && Completes(SAMPLE, s1, ReceiptDone(0, true, 0), "r")
  {
  }

  lemma SecondTime(s2: Books)
    requires s2.money.credits == map["w" := 1.0] && s2.intake == Intake({"r"}, map[])
    requires s2.awards.credit == map["w" := Window(0, 1.0)]
    ensures var s3 := Step(SAMPLE, s2, SAMPLE_CAME);
            && 0 in s3.intake.pending && Completes(SAMPLE, s3, ReceiptDone(0, true, 0), "r")
            && Balance(Step(SAMPLE, s3, ReceiptDone(0, true, 0)).money.credits, "w") == 2.0
  {
    ReplayPaysAgain(SAMPLE, s2, 0, Receipt("w", Store, "r"), 0);
    hide RateStep;
  }

  // ---------- bonuses that are charged or refused ----------

  // An approval charges the bonus to the wallet's window and pays nothing exactly when the cap
  // allows it and the site's pool holds less.
  lemma ChargedUnpaidExactly(c: Config, s: Books, r: Ruling, now: int)
    requires BonusOf(c, s, r, now).Some?
    ensures var x, h := BonusOf(c, s, r, now).value, Ruled(s.money, r);
            var b := Finalize(c, s, r, now).books;
            var day := Day(now);
            var charged := Used(b.awards.bonus, h.wallet, day) == Used(s.awards.bonus, h.wallet, day) + x.delta;
            var unpaid := Balance(b.money.pools, h.siteId) == Balance(s.money.pools, h.siteId);
            charged && unpaid <==> Allowed(BonusPay, c, s, x) && Balance(s.money.pools, h.siteId) < x.delta
  {
    hide Trim, Bonus, Verdict;
    CapCharges(s.awards.bonus, Ruled(s.money, r).wallet, Day(now), BonusOf(c, s, r, now).value.delta, c.bonusCap);
    hide Cap, Used;
  }

  lemma CapCharges(ws: Windows, key: string, day: int, delta: real, cap: real)
    requires delta > 0.0
    ensures var r := Cap(ws, key, day, delta, cap);
            Used(r.windows, key, day) == Used(ws, key, day) + (if r.ok then delta else 0.0)
  {
  }

  // An approval is answered with an error although the amount was refunded exactly when the
  // bonus cap refuses.
  lemma RefusedAfterRefundExactly(c: Config, s: Books, r: Ruling, now: int)
    requires BonusOf(c, s, r, now).Some?
    ensures var x, h := BonusOf(c, s, r, now).value, Ruled(s.money, r);
            var f := Finalize(c, s, r, now);
            var refund := Balance(f.books.money.credits, h.wallet) - Balance(s.money.credits, h.wallet);
            && refund >= h.amount
            && (f.error.Some? <==> !Allowed(BonusPay, c, s, x))
            && (f.error.Some? ==> f.error == Some(BonusCapExceeded) && refund == h.amount)
  {
    hide Trim, Bonus, Verdict, Cap;
    VerdictIsTrimmed(r.result);
  }

  // Both happen to the ticket of the sample run: a bonus of 1 on an empty pool, within and over
  // the bonus cap.
  lemma SampleBonuses(s: Books, bonusCap: real)
    requires s.money == Money(map["w" := 0.0], map["t" := SampleHold(Held)], map[], 0.0) && s.awards.bonus == map[]
    ensures var c := SAMPLE.(bonusMax := 2.0, bonusCap := bonusCap);
            var f := Finalize(c, s, Ruling("t", "approved", 2.0, ""), 0);
            && f.books.money == Money(map["w" := 1.0], map["t" := SampleHold(Approved)], map[], 0.0)
            && (bonusCap >= 1.0 ==> f.error.None? && f.books.awards.bonus == map["w" := Window(0, 1.0)])
            && (bonusCap < 1.0 ==> f.error == Some(BonusCapExceeded) && f.books.awards.bonus == map[])
  {
    hide Trim;
    SampleTrims();
  }
}
