// The comment-credit flow of the coordinator: coordinator/src/routes/comments.ts,
// routes/receipts.ts, routes/credits.ts and the handlers of coordinator/src/server.ts. Requests
// are taken past authentication; a step runs without an await, so /receipts takes two.
module Credits {
  import opened Bytes
  import opened Ledger
  import opened Names

  datatype HoldStatus = Held | Submitted | Approved | Spam | Trash

  datatype Hold = Hold(wallet: string, siteId: string, postId: string, amount: real, status: HoldStatus,
                       createdAt: int, expiresAt: int, commentHash: string)

  datatype Rate = Rate(count: int, windowStart: int)
  type Rates = map<string, Rate>

  datatype Kind = Serve | Verify | Store | Other

  // A /receipts request between its first await and its end.
  datatype Pending = Pending(wallet: string, kind: Kind, receiptId: string, before: real)

  datatype Money = Money(credits: Amounts, holds: map<string, Hold>, pools: Amounts, treasury: real)
  datatype Awards = Awards(credit: Windows, pool: Windows, bonus: Windows)
  datatype Traffic = Traffic(walletRate: Rates, siteRate: Rates, nodeRate: Rates, walletCooldown: map<string, int>)
  datatype Intake = Intake(receipts: set<string>, pending: map<nat, Pending>)

  datatype Books = Books(money: Money, awards: Awards, traffic: Traffic, intake: Intake)

  const EMPTY := Books(Money(map[], map[], map[], 0.0), Awards(map[], map[], map[]),
                       Traffic(map[], map[], map[], map[]), Intake({}, map[]))

  // forfeitSplit is None when POOL_FORFEIT_SPLIT is not a finite number.
  datatype Config = Config(
    holdTtlMs: int, maxPerMinuteWallet: int, maxPerMinuteSite: int, bonusMax: real, walletCooldownMs: int,
    serveCredits: real, verifyCredits: real, storeCredits: real, maxPerMinute: int,
    dailyCap: real, poolCap: real, bonusCap: real, forfeitSplit: Option<real>)

  datatype Error =
    | InvalidRequest | RateLimited | CooldownActive | InsufficientCredits | TicketNotFound | TicketExpired
    | InvalidResult | BonusCapExceeded | PoolCapExceeded | CreditCapExceeded | ReceiptRefused

  datatype Stepped = Stepped(books: Books, error: Option<Error>)

  function Day(now: int): int {
    now / 86_400_000
  }

  // ---------- texts ----------

  // The comparison with "approved", "spam" and "trash".
  function Verdict(s: string): (r: Option<HoldStatus>)
    ensures r.Some? ==> r.value in {Approved, Spam, Trash}
  {
    if s == "approved" then Some(Approved)
    else if s == "spam" then Some(Spam)
    else if s == "trash" then Some(Trash)
    else None
  }

  lemma VerdictIsTrimmed(s: string)
    ensures Verdict(s).Some? ==> Trim(s) == s
  {
  }

  // ---------- routes/comments.ts ----------

  function RateStep(m: Rates, key: string, now: int): Rate {
    var r := if key in m then m[key] else Rate(0, now);
    var r' := if now - r.windowStart > 60_000 then Rate(0, now) else r;
    Rate(r'.count + 1, r'.windowStart)
  }

  datatype HoldRequest = HoldRequest(wallet: string, siteId: string, postId: string, amount: real)

  datatype Limited = Limited(traffic: Traffic, error: Option<Error>)

  // Both rates count the request, the site's only when the wallet's let it pass.
  function LimitRates(c: Config, t: Traffic, wallet: string, site: string, now: int): Limited {
    var w, v := RateStep(t.walletRate, wallet, now), RateStep(t.siteRate, site, now);
    var t1 := t.(walletRate := t.walletRate[wallet := w]);
    if w.count > c.maxPerMinuteWallet then Limited(t1, Some(RateLimited))
    else
      Limited(t1.(siteRate := t.siteRate[site := v]), if v.count > c.maxPerMinuteSite then Some(RateLimited) else None)
  }

  function PlaceHold(c: Config, s: Books, q: HoldRequest, ticket: string, now: int): Stepped {
    var m, cooldown := s.money, s.traffic.walletCooldown;
    if now - (if q.wallet in cooldown then cooldown[q.wallet] else 0) < c.walletCooldownMs then
      Stepped(s, Some(CooldownActive))
    else if Balance(m.credits, q.wallet) < q.amount then Stepped(s, Some(InsufficientCredits))
    else
      var hold := Hold(q.wallet, q.siteId, q.postId, q.amount, Held, now, now + c.holdTtlMs, "");
      Stepped(s.(money := m.(credits := m.credits[q.wallet := Balance(m.credits, q.wallet) - q.amount],
                             holds := m.holds[ticket := hold]),
                 traffic := s.traffic.(walletCooldown := cooldown[q.wallet := now])), None)
  }

  // The random ticket id is a parameter.
  function CreateHold(c: Config, s: Books, q: HoldRequest, ticket: string, now: int): Stepped {
    var t := HoldRequest(Trim(q.wallet), Trim(q.siteId), Trim(q.postId), q.amount);
    if t.wallet == "" || t.siteId == "" || t.postId == "" || t.amount <= 0.0 then Stepped(s, Some(InvalidRequest))
    else
      var limited := LimitRates(c, s.traffic, t.wallet, t.siteId, now);
      var s1 := s.(traffic := limited.traffic);
      if limited.error.Some? then Stepped(s1, limited.error) else PlaceHold(c, s1, t, ticket, now)
  }

  function SubmitError(m: Money, ticketId: string, commentHash: string, now: int): Option<Error> {
    var ticket := Trim(ticketId);
    if ticket == "" || Trim(commentHash) == "" then Some(InvalidRequest)
    else if ticket !in m.holds then Some(TicketNotFound)
    else if m.holds[ticket].expiresAt < now then Some(TicketExpired)
    else None
  }

  function SubmitHold(m: Money, ticketId: string, commentHash: string, now: int): Money {
    if SubmitError(m, ticketId, commentHash, now).Some? then m
    else
      var ticket := Trim(ticketId);
      m.(holds := m.holds[ticket := m.holds[ticket].(commentHash := Trim(commentHash), status := Submitted)])
  }

  function FinalizeError(m: Money, ticketId: string, result: string, now: int): Option<Error> {
    var ticket := Trim(ticketId);
    if ticket == "" || Trim(result) == "" then Some(InvalidRequest)
    else if ticket !in m.holds then Some(TicketNotFound)
    else if m.holds[ticket].expiresAt < now then Some(TicketExpired)
    else if Verdict(Trim(result)).None? then Some(InvalidResult)
    else None
  }

  // finalizeHold past its checks.
  function Decide(m: Money, ticket: string, verdict: HoldStatus): Money
    requires ticket in m.holds
  {
    var hold := m.holds[ticket];
    m.(credits := if verdict != Approved then m.credits
                  else m.credits[hold.wallet := Balance(m.credits, hold.wallet) + hold.amount],
       holds := m.holds[ticket := hold.(status := verdict)])
  }

  // ---------- POST /comments/finalize ----------

  function Bonus(c: Config, amount: real, multiplier: real): real {
    var m := if multiplier < c.bonusMax then multiplier else c.bonusMax;
    if m > 1.0 then amount * (m - 1.0) else 0.0
  }

  function PayBonus(m: Money, wallet: string, site: string, bonus: real): Money {
    if Balance(m.pools, site) < bonus then m
    else m.(pools := m.pools[site := Balance(m.pools, site) - bonus],
            credits := m.credits[wallet := Balance(m.credits, wallet) + bonus])
  }

  function Split(c: Config): real {
    var f := if c.forfeitSplit.Some? then c.forfeitSplit.value else 0.5;
    if f < 0.0 then 0.0 else if f > 1.0 then 1.0 else f
  }

  function PoolShare(c: Config, amount: real): real {
    amount * Split(c)
  }

  function Forfeit(c: Config, m: Money, site: string, amount: real): Money {
    m.(pools := m.pools[site := Balance(m.pools, site) + PoolShare(c, amount)],
       treasury := m.treasury + (amount - PoolShare(c, amount)))
  }

  // The handler's two blocks on the result: a bonus is charged to the wallet's window first,
  // and paid if the pool can bear it.
  function PayOut(c: Config, s: Books, hold: Hold, verdict: Option<HoldStatus>, multiplier: real, now: int): Stepped {
    match verdict
    case None => Stepped(s, None)
    case Some(v) =>
      if v != Approved then Stepped(s.(money := Forfeit(c, s.money, hold.siteId, hold.amount)), None)
      else
        var bonus := Bonus(c, hold.amount, multiplier);
        if bonus <= 0.0 then Stepped(s, None)
        else
          var capped := Cap(s.awards.bonus, hold.wallet, Day(now), bonus, c.bonusCap);
          Stepped(Books(if capped.ok then PayBonus(s.money, hold.wallet, hold.siteId, bonus) else s.money,
                        s.awards.(bonus := capped.windows), s.traffic, s.intake),
                  if capped.ok then None else Some(BonusCapExceeded))
  }

  datatype Ruling = Ruling(ticketId: string, result: string, multiplier: real, siteId: string)

  // The hold a ruling decides, with the site the request names.
  function Ruled(m: Money, r: Ruling): Hold
    requires Trim(r.ticketId) in m.holds
  {
    var h := m.holds[Trim(r.ticketId)];
    if r.siteId != "" then h.(siteId := r.siteId) else h
  }

  // finalizeHold trims the result; the handler compares it as it came.
  function Finalize(c: Config, s: Books, r: Ruling, now: int): Stepped {
    var error := FinalizeError(s.money, r.ticketId, r.result, now);
    if error.Some? then Stepped(s, error)
    else
      var ticket := Trim(r.ticketId);
      var decided := Decide(s.money, ticket, Verdict(Trim(r.result)).value);
      var hold := Ruled(decided, r);
      var ruled := decided.(holds := decided.holds[ticket := hold]);
      PayOut(c, s.(money := ruled), hold, Verdict(r.result), r.multiplier, now)
  }

  // ---------- POST /receipts, /node/receipts, /credits/spend ----------

  datatype Receipt = Receipt(wallet: string, kind: Kind, receiptId: string)

  // Up to the first await; valid says that the shape is right and the node is known.
  function BeginReceipt(c: Config, s: Books, id: nat, r: Receipt, valid: bool, now: int): Stepped {
    var p := Pending(r.wallet, r.kind, r.receiptId, Balance(s.money.credits, r.wallet));
    var waiting := s.intake.(pending := s.intake.pending[id := p]);
    var rate := RateStep(s.traffic.nodeRate, r.wallet, now);
    var counted := s.traffic.(nodeRate := s.traffic.nodeRate[r.wallet := rate]);
    if !valid then Stepped(s, Some(ReceiptRefused))
    else if r.receiptId in s.intake.receipts then Stepped(s.(intake := waiting), None)
    else if rate.count > c.maxPerMinute then Stepped(s.(traffic := counted), Some(RateLimited))
    else Stepped(s.(traffic := counted, intake := waiting), None)
  }

  function CreditDelta(c: Config, kind: Kind): real {
    match kind
    case Serve => c.serveCredits
    case Verify => c.verifyCredits
    case Store => c.storeCredits
    case Other => 0.0
  }

  function Credited(c: Config, credits: Amounts, p: Pending): Amounts {
    if p.kind == Other then credits else credits[p.wallet := Balance(credits, p.wallet) + CreditDelta(c, p.kind)]
  }

  // The rest of the request; accepted says that signatures and challenge check out. A receipt
  // seen before is credited again. Over the cap, the balance goes back to what it was when the
  // request came.
  function FinishReceipt(c: Config, s: Books, id: nat, accepted: bool, now: int): Stepped
    requires id in s.intake.pending
  {
    var p := s.intake.pending[id];
    var pending := s.intake.pending - {id};
    if !accepted then Stepped(s.(intake := s.intake.(pending := pending)), Some(ReceiptRefused))
    else
      var capped := Cap(s.awards.credit, p.wallet, Day(now), CreditDelta(c, p.kind), c.dailyCap);
      var credited := Credited(c, s.money.credits, p);
      Stepped(Books(s.money.(credits := if capped.ok then credited else credited[p.wallet := p.before]),
                    s.awards.(credit := capped.windows), s.traffic,
                    Intake(if capped.ok then s.intake.receipts + {p.receiptId} else s.intake.receipts - {p.receiptId},
                           pending)),
              if capped.ok then None else Some(CreditCapExceeded))
  }

  function NodeReceipt(c: Config, s: Books, site: string, now: int): Stepped {
    var capped := Cap(s.awards.pool, site, Day(now), 1.0, c.poolCap);
    var m := s.money;
    Stepped(s.(money := if capped.ok then m.(pools := m.pools[site := Balance(m.pools, site) + 1.0]) else m,
               awards := s.awards.(pool := capped.windows)),
            if capped.ok then None else Some(PoolCapExceeded))
  }

  function SpendError(m: Money, wallet: string, amount: real): Option<Error> {
    if amount <= 0.0 then Some(InvalidRequest)
    else if Balance(m.credits, wallet) < amount then Some(InsufficientCredits)
    else None
  }

  function Spend(m: Money, wallet: string, amount: real): Money {
    if SpendError(m, wallet, amount).Some? then m
    else m.(credits := m.credits[wallet := Balance(m.credits, wallet) - amount])
  }

  // ---------- the coordinator's own maps, updated in place ----------

  class Coordinator {
    const config: Config
    var credits: Amounts
    var holds: map<string, Hold>
    var pools: Amounts
    var treasury: real
    var creditWindows: Windows
    var poolWindows: Windows
    var bonusWindows: Windows
    var walletRate: Rates
    var siteRate: Rates
    var nodeRate: Rates
    var walletCooldown: map<string, int>
    var receipts: set<string>
    var pending: map<nat, Pending>

    ghost function Contents(): Books
      reads this
    {
      Books(MoneyNow(), Awards(creditWindows, poolWindows, bonusWindows),
            Traffic(walletRate, siteRate, nodeRate, walletCooldown), Intake(receipts, pending))
    }

    ghost function MoneyNow(): Money
      reads this
    {
      Money(credits, holds, pools, treasury)
    }

    constructor (config: Config)
      ensures Contents() == EMPTY && this.config == config
    {
      this.config := config;
      credits, holds, pools, treasury := map[], map[], map[], 0.0;
      creditWindows, poolWindows, bonusWindows := map[], map[], map[];
      walletRate, siteRate, nodeRate, walletCooldown := map[], map[], map[], map[];
      receipts, pending := {}, map[];
    }

    method ApplyRateLimits(wallet: string, site: string, now: int) returns (error: Option<Error>)
      modifies this`walletRate, this`siteRate
      ensures var t := Limited(Traffic(walletRate, siteRate, nodeRate, walletCooldown), error);
              t == LimitRates(config, old(Contents()).traffic, wallet, site, now)
    {
      walletRate := walletRate[wallet := RateStep(walletRate, wallet, now)];
      if walletRate[wallet].count > config.maxPerMinuteWallet {
        return Some(RateLimited);
      }
      siteRate := siteRate[site := RateStep(siteRate, site, now)];
      if siteRate[site].count > config.maxPerMinuteSite {
        return Some(RateLimited);
      }
      return None;
    }

    method CommentHold(q: HoldRequest, ticket: string, now: int) returns (error: Option<Error>)
      modifies this
      ensures Stepped(Contents(), error) == CreateHold(config, old(Contents()), q, ticket, now)
    {
      hide Trim, LimitRates, PlaceHold;
      var t := HoldRequest(Trim(q.wallet), Trim(q.siteId), Trim(q.postId), q.amount);
      if t.wallet == "" || t.siteId == "" || t.postId == "" || t.amount <= 0.0 {
        return Some(InvalidRequest);
      }
      error := ApplyRateLimits(t.wallet, t.siteId, now);
      if error.Some? {
        return;
      }
      error := TakeCredits(t, ticket, now);
    }

    // createHold past its rate limits.
    method TakeCredits(t: HoldRequest, ticket: string, now: int) returns (error: Option<Error>)
      modifies this`credits, this`walletCooldown, this`holds
      ensures Stepped(Contents(), error) == PlaceHold(config, old(Contents()), t, ticket, now)
    {
      var last := if t.wallet in walletCooldown then walletCooldown[t.wallet] else 0;
      if now - last < config.walletCooldownMs {
        return Some(CooldownActive);
      }
      var balance := Balance(credits, t.wallet);
      if balance < t.amount {
        return Some(InsufficientCredits);
      }
      credits := credits[t.wallet := balance - t.amount];
      walletCooldown := walletCooldown[t.wallet := now];
      holds := holds[ticket := Hold(t.wallet, t.siteId, t.postId, t.amount, Held, now, now + config.holdTtlMs, "")];
      return None;
    }

    method CommentSubmit(ticketId: string, commentHash: string, now: int) returns (error: Option<Error>)
      modifies this`holds
      ensures error == SubmitError(old(MoneyNow()), ticketId, commentHash, now)
      ensures MoneyNow() == SubmitHold(old(MoneyNow()), ticketId, commentHash, now)
    {
      var ticket, hash := Trim(ticketId), Trim(commentHash);
      if ticket == "" || hash == "" {
        return Some(InvalidRequest);
      }
      if ticket !in holds {
        return Some(TicketNotFound);
      }
      var hold := holds[ticket];
      if hold.expiresAt < now {
        return Some(TicketExpired);
      }
      hold := hold.(commentHash := hash, status := Submitted);
      holds := holds[ticket := hold];
      return None;
    }

    method ApplyBonusCap(wallet: string, delta: real, now: int) returns (ok: bool)
      modifies this`bonusWindows
      ensures Capped(bonusWindows, ok) == Cap(old(bonusWindows), wallet, Day(now), delta, config.bonusCap)
    {
      var entry := if wallet in bonusWindows then bonusWindows[wallet] else Window(Day(now), 0.0);
      if entry.day != Day(now) {
        entry := Window(Day(now), 0.0);
      }
      if wallet in bonusWindows {
        bonusWindows := bonusWindows[wallet := entry];
      }
      if entry.used + delta > config.bonusCap {
        return false;
      }
      bonusWindows := bonusWindows[wallet := entry.(used := entry.used + delta)];
      return true;
    }

    method ApplyDailyCap(wallet: string, delta: real, now: int) returns (ok: bool)
      modifies this`creditWindows
      ensures Capped(creditWindows, ok) == Cap(old(creditWindows), wallet, Day(now), delta, config.dailyCap)
    {
      var entry := if wallet in creditWindows then creditWindows[wallet] else Window(Day(now), 0.0);
      if entry.day != Day(now) {
        entry := Window(Day(now), 0.0);
      }
      if wallet in creditWindows {
        creditWindows := creditWindows[wallet := entry];
      }
      if entry.used + delta > config.dailyCap {
        return false;
      }
      creditWindows := creditWindows[wallet := entry.(used := entry.used + delta)];
      return true;
    }

    method ApplyPoolCap(site: string, delta: real, now: int) returns (ok: bool)
      modifies this`poolWindows
      ensures Capped(poolWindows, ok) == Cap(old(poolWindows), site, Day(now), delta, config.poolCap)
    {
      var entry := if site in poolWindows then poolWindows[site] else Window(Day(now), 0.0);
      if entry.day != Day(now) {
        entry := Window(Day(now), 0.0);
      }
      if site in poolWindows {
        poolWindows := poolWindows[site := entry];
      }
      if entry.used + delta > config.poolCap {
        return false;
      }
      poolWindows := poolWindows[site := entry.(used := entry.used + delta)];
      return true;
    }

    method FinalizeHold(ticketId: string, result: string, now: int) returns (error: Option<Error>, ticket: string)
      modifies this`credits, this`holds
      ensures ticket == Trim(ticketId)
      ensures error == FinalizeError(old(MoneyNow()), ticketId, result, now)
      ensures error.Some? ==> MoneyNow() == old(MoneyNow())
      ensures error.None? ==> MoneyNow() == Decide(old(MoneyNow()), ticket, Verdict(Trim(result)).value)
    {
      hide Trim, Verdict, Balance;
      ticket := Trim(ticketId);
      var verdict := Trim(result);
      if ticket == "" || verdict == "" {
        return Some(InvalidRequest), ticket;
      }
      if ticket !in holds {
        return Some(TicketNotFound), ticket;
      }
      var hold := holds[ticket];
      if hold.expiresAt < now {
        return Some(TicketExpired), ticket;
      }
      var status := Verdict(verdict);
      if status == None {
        return Some(InvalidResult), ticket;
      }
      if status == Some(Approved) {
        credits := credits[hold.wallet := Balance(credits, hold.wallet) + hold.amount];
      }
      hold := hold.(status := status.value);
      holds := holds[ticket := hold];
      return None, ticket;
    }

    method CommentFinalize(r: Ruling, now: int) returns (error: Option<Error>)
      modifies this
      ensures Stepped(Contents(), error) == Finalize(config, old(Contents()), r, now)
    {
      hide Trim, Verdict, PayOut;
      var refused, ticket := FinalizeHold(r.ticketId, r.result, now);
      if refused.Some? {
        return refused;
      }
      var hold := holds[ticket];
      if r.siteId != "" {
        hold := hold.(siteId := r.siteId);
      }
      holds := holds[ticket := hold];
      error := MoveCredits(hold, r.result, r.multiplier, now);
    }

    method PayFromPool(wallet: string, site: string, bonus: real)
      modifies this`credits, this`pools
      ensures MoneyNow() == PayBonus(old(MoneyNow()), wallet, site, bonus)
    {
      var pool := Balance(pools, site);
      if pool >= bonus {
        pools := pools[site := pool - bonus];
        var current := Balance(credits, wallet);
        credits := credits[wallet := current + bonus];
      }
    }

    method ShareForfeit(site: string, amount: real)
      modifies this`pools, this`treasury
      ensures MoneyNow() == Forfeit(config, old(MoneyNow()), site, amount)
    {
      hide Split;
      var poolShare := amount * Split(config);
      assert poolShare == PoolShare(config, amount);
      var poolBalance := Balance(pools, site);
      pools := pools[site := poolBalance + poolShare];
      treasury := treasury + (amount - poolShare);
    }

    // The handler's two blocks on the result.
    method MoveCredits(hold: Hold, result: string, multiplier: real, now: int) returns (error: Option<Error>)
      modifies this`credits, this`pools, this`treasury, this`bonusWindows
      ensures Stepped(Contents(), error) == PayOut(config, old(Contents()), hold, Verdict(result), multiplier, now)
    {
      hide Bonus, Cap, PayBonus, Forfeit;
      if Verdict(result) == Some(Approved) {
        var bonus := Bonus(config, hold.amount, multiplier);
        if bonus > 0.0 {
          var ok := ApplyBonusCap(hold.wallet, bonus, now);
          if !ok {
            return Some(BonusCapExceeded);
          }
          PayFromPool(hold.wallet, hold.siteId, bonus);
        }
      }
      if Verdict(result) == Some(Spam) || Verdict(result) == Some(Trash) {
        ShareForfeit(hold.siteId, hold.amount);
      }
      return None;
    }

    method ReceiptArrives(id: nat, r: Receipt, valid: bool, now: int) returns (error: Option<Error>)
      modifies this
      ensures Stepped(Contents(), error) == BeginReceipt(config, old(Contents()), id, r, valid, now)
    {
      var before := Balance(credits, r.wallet);
      if !valid {
        return Some(ReceiptRefused);
      }
      if r.receiptId !in receipts {
        nodeRate := nodeRate[r.wallet := RateStep(nodeRate, r.wallet, now)];
        if nodeRate[r.wallet].count > config.maxPerMinute {
          return Some(RateLimited);
        }
      }
      pending := pending[id := Pending(r.wallet, r.kind, r.receiptId, before)];
      return None;
    }

    method CreditAndRecord(p: Pending)
      modifies this`credits, this`receipts
      ensures credits == Credited(config, old(credits), p) && receipts == old(receipts) + {p.receiptId}
    {
      if p.kind != Other {
        credits := credits[p.wallet := Balance(credits, p.wallet) + CreditDelta(config, p.kind)];
      }
      receipts := receipts + {p.receiptId};
    }

    method ReceiptChecked(id: nat, accepted: bool, now: int) returns (error: Option<Error>)
      requires id in pending
      modifies this
      ensures Stepped(Contents(), error) == FinishReceipt(config, old(Contents()), id, accepted, now)
    {
      hide Balance, Cap, CreditDelta, Credited;
      var p := pending[id];
      pending := pending - {id};
      if !accepted {
        return Some(ReceiptRefused);
      }
      CreditAndRecord(p);
      var ok := ApplyDailyCap(p.wallet, CreditDelta(config, p.kind), now);
      if !ok {
        credits := credits[p.wallet := p.before];
        receipts := receipts - {p.receiptId};
        assert receipts == old(receipts) - {p.receiptId};
        return Some(CreditCapExceeded);
      }
      return None;
    }

    method NodeReceiptVerified(site: string, now: int) returns (error: Option<Error>)
      modifies this
      ensures Stepped(Contents(), error) == NodeReceipt(config, old(Contents()), site, now)
    {
      var ok := ApplyPoolCap(site, 1.0, now);
      if !ok {
        return Some(PoolCapExceeded);
      }
      pools := pools[site := Balance(pools, site) + 1.0];
      return None;
    }

    method SpendCredits(wallet: string, amount: real) returns (error: Option<Error>)
      modifies this`credits
      ensures error == SpendError(old(MoneyNow()), wallet, amount)
      ensures MoneyNow() == Spend(old(MoneyNow()), wallet, amount)
    {
      if amount <= 0.0 {
        return Some(InvalidRequest);
      }
      var current := Balance(credits, wallet);
      if current < amount {
        return Some(InsufficientCredits);
      }
      credits := credits[wallet := current - amount];
      return None;
    }
  }
}
