// packages/attack-mode/src/index.ts: the attack-mode state machine and its runs.
module AttackMode {
  import opened Bytes

  datatype Mode = NORMAL | SUSPICIOUS | UNDER_ATTACK | ISOLATED | RECOVERY

  // A JavaScript number: a percentage may be NaN or infinite.
  datatype Percent = Finite(value: real) | NotFinite

  // Optional fields are None when absent.
  datatype Signals = Signals(rpcFailPct: Option<Percent>, rpcDisagreement: bool, invalidReceiptPct: Option<Percent>,
                             receiptSampleSize: Option<int>, canonicalFlipCount: Option<int>,
                             ipfsFailPct: Option<Percent>, gatewayErrorPct: Option<Percent>, now: int)

  datatype Thresholds = Thresholds(rpcFailPctSuspicious: real, invalidReceiptPctUnderAttack: real,
                                   invalidReceiptMinSample: int, canonicalFlipLimit: int, recoveryStableSecs: int)

  datatype Reason = RpcDisagreement | RpcFail | InvalidReceipts | CanonicalFlips | IpfsFail | GatewayErrors

  // memory.lastStableUnix
  type Memory = Option<int>

  datatype Decision = Decision(nextMode: Mode, score: int, reasons: seq<Reason>, memory: Memory)

  datatype Policy = Policy(minRpcQuorum: int, requireStakeForReceipts: bool, maxReceiptsPerWalletPerMin: int,
                           maxWritesPerWalletPerHour: int, freezeWrites: bool, ttlClampS: int)

  function PolicyForMode(mode: Mode): Policy {
    match mode
    case NORMAL => Policy(1, false, 120, 30, false, 0)
    case SUSPICIOUS => Policy(2, false, 60, 10, false, 300)
    case UNDER_ATTACK => Policy(3, true, 20, 0, true, 60)
    case ISOLATED => Policy(2, true, 10, 0, true, 60)
    case RECOVERY => Policy(2, false, 60, 10, false, 300)
  }

  function OrElse<T>(x: Option<T>, d: T): T {
    if x.Some? then x.value else d
  }

  function ClampPct(p: Percent): real {
    match p
    case NotFinite => 0.0
    case Finite(v) => if v < 0.0 then 0.0 else if v > 100.0 then 100.0 else v
  }

  predicate RpcFailing(s: Signals, th: Thresholds) {
    ClampPct(OrElse(s.rpcFailPct, Finite(0.0))) > th.rpcFailPctSuspicious
  }

  predicate ReceiptsInvalid(s: Signals, th: Thresholds) {
    OrElse(s.receiptSampleSize, 0) >= th.invalidReceiptMinSample
    && ClampPct(OrElse(s.invalidReceiptPct, Finite(0.0))) > th.invalidReceiptPctUnderAttack
  }

  predicate Flipping(s: Signals, th: Thresholds) {
    OrElse(s.canonicalFlipCount, 0) > th.canonicalFlipLimit
  }

  predicate IpfsFailing(s: Signals) { ClampPct(OrElse(s.ipfsFailPct, Finite(0.0))) > 50.0 }
  predicate GatewayFailing(s: Signals) { ClampPct(OrElse(s.gatewayErrorPct, Finite(0.0))) > 20.0 }

  function Weight(on: bool, w: int): int { if on then w else 0 }

  function Score(s: Signals, th: Thresholds): int {
    if s.rpcDisagreement then 100
    else
      var sum := Weight(RpcFailing(s, th), 30) + Weight(ReceiptsInvalid(s, th), 70) + Weight(Flipping(s, th), 40)
                 + Weight(IpfsFailing(s), 10) + Weight(GatewayFailing(s), 10);
      if sum > 100 then 100 else sum
  }

  function Reasons(s: Signals, th: Thresholds): seq<Reason> {
    if s.rpcDisagreement then [RpcDisagreement]
    else
      (if RpcFailing(s, th) then [RpcFail] else []) + (if ReceiptsInvalid(s, th) then [InvalidReceipts] else [])
      + (if Flipping(s, th) then [CanonicalFlips] else []) + (if IpfsFailing(s) then [IpfsFail] else [])
      + (if GatewayFailing(s) then [GatewayErrors] else [])
  }

  predicate ZeroScore(s: Signals, th: Thresholds) {
    Score(s, th) == 0
  }

  // !memory.lastStableUnix: absent, or the number 0.
  predicate Remembers(m: Memory) {
    m.Some? && m.value != 0
  }

  // A zero-score evaluation at least recoveryStableSecs after the remembered one.
  predicate StableLongEnough(s: Signals, th: Thresholds, m: Memory) {
    ZeroScore(s, th) && Remembers(m) && s.now - m.value >= th.recoveryStableSecs
  }

  function ByScore(score: int, calm: Mode): Mode {
    if score >= 60 then UNDER_ATTACK else if score >= 20 then SUSPICIOUS else calm
  }

  function NextMode(prev: Mode, s: Signals, th: Thresholds, m: Memory): Mode {
    if s.rpcDisagreement then ISOLATED
    else
      match prev
      case UNDER_ATTACK =>
        if StableLongEnough(s, th, m) then NORMAL else if ZeroScore(s, th) then RECOVERY else UNDER_ATTACK
      case ISOLATED =>
        if StableLongEnough(s, th, m) then NORMAL else if ZeroScore(s, th) then RECOVERY else ISOLATED
      case RECOVERY => if StableLongEnough(s, th, m) then NORMAL else ByScore(Score(s, th), RECOVERY)
      case _ => ByScore(Score(s, th), NORMAL)
  }

  function NextMemory(s: Signals, th: Thresholds, m: Memory): Memory {
    if s.rpcDisagreement then None else if ZeroScore(s, th) then Some(s.now) else m
  }

  function Decide(prev: Mode, s: Signals, th: Thresholds, m: Memory): Decision {
    Decision(NextMode(prev, s, th, m), Score(s, th), Reasons(s, th), NextMemory(s, th, m))
  }

  method EvaluateAttackMode(prev: Mode, s: Signals, th: Thresholds, memory: Memory) returns (d: Decision)
    ensures d == Decide(prev, s, th, memory)
  {
    var reasons: seq<Reason> := [];
    if s.rpcDisagreement {
      reasons := reasons + [RpcDisagreement];
      return Decision(ISOLATED, 100, reasons, None);
    }
    hide ClampPct, OrElse;
    var score := 0;
    if ClampPct(OrElse(s.rpcFailPct, Finite(0.0))) > th.rpcFailPctSuspicious {
      score, reasons := score + 30, reasons + [RpcFail];
    }
    ghost var r1 := reasons;
    assert score == Weight(RpcFailing(s, th), 30) && r1 == if RpcFailing(s, th) then [RpcFail] else [];
    var invalidPct := ClampPct(OrElse(s.invalidReceiptPct, Finite(0.0)));
    var sample := OrElse(s.receiptSampleSize, 0);
    if sample >= th.invalidReceiptMinSample && invalidPct > th.invalidReceiptPctUnderAttack {
      score, reasons := score + 70, reasons + [InvalidReceipts];
    }
    ghost var r2, c2 := reasons, score;
    assert c2 == Weight(RpcFailing(s, th), 30) + Weight(ReceiptsInvalid(s, th), 70);
    assert r2 == r1 + if ReceiptsInvalid(s, th) then [InvalidReceipts] else [];
    if OrElse(s.canonicalFlipCount, 0) > th.canonicalFlipLimit {
      score, reasons := score + 40, reasons + [CanonicalFlips];
    }
    ghost var r3, c3 := reasons, score;
    assert c3 == c2 + Weight(Flipping(s, th), 40);
    assert r3 == r2 + if Flipping(s, th) then [CanonicalFlips] else [];
    if ClampPct(OrElse(s.ipfsFailPct, Finite(0.0))) > 50.0 {
      score, reasons := score + 10, reasons + [IpfsFail];
    }
    ghost var r4, c4 := reasons, score;
    assert c4 == c3 + Weight(IpfsFailing(s), 10);
    assert r4 == r3 + if IpfsFailing(s) then [IpfsFail] else [];
    if ClampPct(OrElse(s.gatewayErrorPct, Finite(0.0))) > 20.0 {
      score, reasons := score + 10, reasons + [GatewayErrors];
    }
    assert score == c4 + Weight(GatewayFailing(s), 10);
    assert reasons == r4 + if GatewayFailing(s) then [GatewayErrors] else [];
    score := if score > 100 then 100 else score;
    assert score == Score(s, th);
    assert reasons == Reasons(s, th);
    hide Score, Reasons, RpcFailing, ReceiptsInvalid, Flipping, IpfsFailing, GatewayFailing, Weight;
    var isStable := score == 0;
    var lastStableUnix := if isStable then Some(s.now) else memory;
    var stableFor := if isStable && Remembers(memory) then s.now - memory.value else 0;
    var next := prev;
    if score >= 60 {
      next := UNDER_ATTACK;
    } else if score >= 20 {
      next := SUSPICIOUS;
    } else {
      next := NORMAL;
    }
    if prev == UNDER_ATTACK || prev == ISOLATED {
      if isStable {
        if !Remembers(memory) {
          next := RECOVERY;
        } else if stableFor >= th.recoveryStableSecs {
          next := NORMAL;
        } else {
          next := RECOVERY;
        }
      } else {
        next := if prev == ISOLATED then ISOLATED else UNDER_ATTACK;
      }
    } else if prev == RECOVERY {
      if isStable && Remembers(memory) && stableFor >= th.recoveryStableSecs {
        next := NORMAL;
      } else if score >= 60 {
        next := UNDER_ATTACK;
      } else if score >= 20 {
        next := SUSPICIOUS;
      } else {
        next := RECOVERY;
      }
    }
    return Decision(next, score, reasons, lastStableUnix);
  }

  // ---------- one evaluation, on the signals themselves ----------

  // A percentage counts within 0 and 100; absent or not finite, it counts as 0.
  predicate Over(p: Option<Percent>, limit: real) {
    limit < 0.0 || (limit < 100.0 && p.Some? && p.value.Finite? && p.value.value > limit)
  }

  predicate TooManyInvalid(s: Signals, th: Thresholds) {
    && Over(s.invalidReceiptPct, th.invalidReceiptPctUnderAttack)
    && match s.receiptSampleSize
       case Some(n) => n >= th.invalidReceiptMinSample
       case None => 0 >= th.invalidReceiptMinSample
  }

  predicate TooManyFlips(s: Signals, th: Thresholds) {
    match s.canonicalFlipCount case Some(n) => n > th.canonicalFlipLimit case None => 0 > th.canonicalFlipLimit
  }

  predicate RpcOver(s: Signals, th: Thresholds) { Over(s.rpcFailPct, th.rpcFailPctSuspicious) }

  // Nothing is over its limit.
  predicate AllQuiet(s: Signals, th: Thresholds) {
    && !RpcOver(s, th) && !TooManyInvalid(s, th) && !TooManyFlips(s, th)
    && !Over(s.ipfsFailPct, 50.0) && !Over(s.gatewayErrorPct, 20.0)
  }

  // Enough for UNDER_ATTACK, and enough for SUSPICIOUS.
  predicate Grave(s: Signals, th: Thresholds) {
    || TooManyInvalid(s, th)
    || (TooManyFlips(s, th) && (RpcOver(s, th) || (Over(s.ipfsFailPct, 50.0) && Over(s.gatewayErrorPct, 20.0))))
  }

  predicate Noticeable(s: Signals, th: Thresholds) {
    RpcOver(s, th) || TooManyFlips(s, th) || (Over(s.ipfsFailPct, 50.0) && Over(s.gatewayErrorPct, 20.0))
  }

  lemma SignalsOver(s: Signals, th: Thresholds)
    ensures RpcFailing(s, th) == RpcOver(s, th) && ReceiptsInvalid(s, th) == TooManyInvalid(s, th)
    ensures Flipping(s, th) == TooManyFlips(s, th)
    ensures IpfsFailing(s) == Over(s.ipfsFailPct, 50.0) && GatewayFailing(s) == Over(s.gatewayErrorPct, 20.0)
  {
  }

  lemma ScoreBands(s: Signals, th: Thresholds)
    requires !s.rpcDisagreement
    ensures Score(s, th) >= 60 <==> Grave(s, th)
    ensures Score(s, th) >= 20 <==> Grave(s, th) || Noticeable(s, th)
    ensures Score(s, th) == 0 <==> AllQuiet(s, th)
  {
    SignalsOver(s, th);
    hide RpcFailing, ReceiptsInvalid, Flipping, IpfsFailing, GatewayFailing;
    hide Over, RpcOver, TooManyInvalid, TooManyFlips;
  }

  // From NORMAL and SUSPICIOUS the signals alone decide.
  lemma WayInExactly(prev: Mode, s: Signals, th: Thresholds, m: Memory)
    requires prev in {NORMAL, SUSPICIOUS} && !s.rpcDisagreement
    ensures Decide(prev, s, th, m).nextMode ==
              if Grave(s, th) then UNDER_ATTACK else if Noticeable(s, th) then SUSPICIOUS else NORMAL
  {
    ScoreBands(s, th);
    hide Score, Grave, Noticeable, AllQuiet;
  }

  // The severe modes: quiet for long enough is NORMAL, quiet is RECOVERY, anything else stays
  // where it is, except that RECOVERY follows the signals.
  lemma WayOutExactly(prev: Mode, s: Signals, th: Thresholds, m: Memory)
    requires prev in {UNDER_ATTACK, ISOLATED, RECOVERY} && !s.rpcDisagreement
    ensures Decide(prev, s, th, m).nextMode ==
              if AllQuiet(s, th) then
                if m.Some? && m.value != 0 && s.now - m.value >= th.recoveryStableSecs then NORMAL else RECOVERY
              else if prev != RECOVERY then prev
              else if Grave(s, th) then UNDER_ATTACK else if Noticeable(s, th) then SUSPICIOUS else RECOVERY
  {
    ScoreBands(s, th);
    hide Score, Grave, Noticeable, AllQuiet;
  }

  // A disagreement isolates and forgets, whatever else is reported.
  lemma DisagreementExactly(prev: Mode, s: Signals, th: Thresholds, m: Memory)
    ensures s.rpcDisagreement ==> Decide(prev, s, th, m) == Decision(ISOLATED, 100, [RpcDisagreement], None)
    ensures !s.rpcDisagreement ==> Decide(prev, s, th, m).memory == if AllQuiet(s, th) then Some(s.now) else m
  {
    if !s.rpcDisagreement {
      ScoreBands(s, th);
      hide Score, AllQuiet;
    }
  }

  predicate Fires(reason: Reason, s: Signals, th: Thresholds) {
    match reason
    case RpcDisagreement => s.rpcDisagreement
    case RpcFail => RpcOver(s, th)
    case InvalidReceipts => TooManyInvalid(s, th)
    case CanonicalFlips => TooManyFlips(s, th)
    case IpfsFail => Over(s.ipfsFailPct, 50.0)
    case GatewayErrors => Over(s.gatewayErrorPct, 20.0)
  }

  const ALL_REASONS := [RpcDisagreement, RpcFail, InvalidReceipts, CanonicalFlips, IpfsFail, GatewayErrors]

  function Points(reason: Reason): nat {
    match reason
    case RpcDisagreement => 100
    case RpcFail => 30
    case InvalidReceipts => 70
    case CanonicalFlips => 40
    case IpfsFail => 10
    case GatewayErrors => 10
  }

  function Total(reasons: seq<Reason>): nat {
    if reasons == [] then 0 else Points(reasons[0]) + Total(reasons[1..])
  }

  // Its place among all reasons.
  function Rank(reason: Reason): (k: nat)
    ensures k < 6 && ALL_REASONS[k] == reason
  {
    match reason
    case RpcDisagreement => 0
    case RpcFail => 1
    case InvalidReceipts => 2
    case CanonicalFlips => 3
    case IpfsFail => 4
    case GatewayErrors => 5
  }

  // Those of the first reasons behind a disagreement that fire.
  function Firing(s: Signals, th: Thresholds, n: nat): seq<Reason>
    requires n < 6
  {
    if n == 0 then []
    else Firing(s, th, n - 1) + if Fires(ALL_REASONS[n], s, th) then [ALL_REASONS[n]] else []
  }

  function FiringPoints(s: Signals, th: Thresholds, n: nat): nat
    requires n < 6
  {
    if n == 0 then 0
    else FiringPoints(s, th, n - 1) + if Fires(ALL_REASONS[n], s, th) then Points(ALL_REASONS[n]) else 0
  }

  // at says which of the first n reasons these are.
  ghost predicate InReasonOrder(reasons: seq<Reason>, at: seq<nat>, n: nat) {
    && |at| == |reasons| && n <= 6
    && (forall i :: 0 <= i < |at| ==> at[i] < n && reasons[i] == ALL_REASONS[at[i]])
    && (forall i, j :: 0 <= i < j < |at| ==> at[i] < at[j])
  }

  lemma OrderPush(reasons: seq<Reason>, at: seq<nat>, n: nat)
    requires n < 6 && InReasonOrder(reasons, at, n)
    ensures InReasonOrder(reasons, at, n + 1) && InReasonOrder(reasons + [ALL_REASONS[n]], at + [n], n + 1)
  {
  }

  lemma {:induction false} FiringInOrder(s: Signals, th: Thresholds, n: nat) returns (at: seq<nat>)
    requires n < 6
    ensures InReasonOrder(Firing(s, th, n), at, n + 1)
  {
    hide Fires;
    if n == 0 {
      at := [];
    } else {
      hide InReasonOrder;
      at := FiringInOrder(s, th, n - 1);
      OrderPush(Firing(s, th, n - 1), at, n);
      assert Firing(s, th, n - 1) + [] == Firing(s, th, n - 1);
      at := if Fires(ALL_REASONS[n], s, th) then at + [n] else at;
    }
  }

  lemma {:induction false} FiringMembers(s: Signals, th: Thresholds, n: nat)
    requires n < 6
    ensures forall q :: q in Firing(s, th, n) <==> 1 <= Rank(q) <= n && Fires(q, s, th)
  {
    hide Fires;
    if n > 0 {
      FiringMembers(s, th, n - 1);
      forall q ensures q in Firing(s, th, n) <==> 1 <= Rank(q) <= n && Fires(q, s, th) {
        assert Rank(q) == n <==> q == ALL_REASONS[n];
      }
    }
  }

  lemma {:induction false} FiringTotal(s: Signals, th: Thresholds, n: nat)
    requires n < 6
    ensures Total(Firing(s, th, n)) == FiringPoints(s, th, n)
  {
    hide Fires, Points;
    if n > 0 {
      FiringTotal(s, th, n - 1);
      TotalPush(Firing(s, th, n - 1), ALL_REASONS[n]);
      assert Firing(s, th, n - 1) + [] == Firing(s, th, n - 1);
    }
  }

  lemma FiringIsReported(s: Signals, th: Thresholds)
    requires !s.rpcDisagreement
    ensures Firing(s, th, 5) == Reasons(s, th)
  {
    SignalsOver(s, th);
    hide RpcFailing, ReceiptsInvalid, Flipping, IpfsFailing, GatewayFailing;
    hide Over, RpcOver, TooManyInvalid, TooManyFlips;
    assert Firing(s, th, 1) == if RpcFailing(s, th) then [RpcFail] else [];
    assert Firing(s, th, 2) == Firing(s, th, 1) + if ReceiptsInvalid(s, th) then [InvalidReceipts] else [];
    assert Firing(s, th, 3) == Firing(s, th, 2) + if Flipping(s, th) then [CanonicalFlips] else [];
    assert Firing(s, th, 4) == Firing(s, th, 3) + if IpfsFailing(s) then [IpfsFail] else [];
  }

  lemma PointsAreScore(s: Signals, th: Thresholds)
    requires !s.rpcDisagreement
    ensures Score(s, th) == if FiringPoints(s, th, 5) > 100 then 100 else FiringPoints(s, th, 5)
  {
    SignalsOver(s, th);
    hide RpcFailing, ReceiptsInvalid, Flipping, IpfsFailing, GatewayFailing;
    hide Over, RpcOver, TooManyInvalid, TooManyFlips;
    assert FiringPoints(s, th, 1) == Weight(RpcFailing(s, th), 30);
    assert FiringPoints(s, th, 2) == FiringPoints(s, th, 1) + Weight(ReceiptsInvalid(s, th), 70);
    assert FiringPoints(s, th, 3) == FiringPoints(s, th, 2) + Weight(Flipping(s, th), 40);
    assert FiringPoints(s, th, 4) == FiringPoints(s, th, 3) + Weight(IpfsFailing(s), 10);
  }

  // The reasons are the signals over their limits, each once and in a fixed order, a disagreement
  // hiding all others; the score is what they weigh together, up to 100.
  lemma ReasonsExactly(prev: Mode, s: Signals, th: Thresholds, m: Memory) returns (at: seq<nat>)
    ensures var d := Decide(prev, s, th, m);
            && (forall q :: q in d.reasons <==> Fires(q, s, th) && (s.rpcDisagreement ==> q == RpcDisagreement))
            && InReasonOrder(d.reasons, at, 6) && d.score == if Total(d.reasons) > 100 then 100 else Total(d.reasons)
  {
    hide Over, RpcOver, TooManyInvalid, TooManyFlips, NextMode, NextMemory;
    if s.rpcDisagreement {
      at := [0];
      assert Total([]) == 0;
      assert Total([RpcDisagreement]) == 100;
    } else {
      at := FiringInOrder(s, th, 5);
      FiringMembers(s, th, 5);
      FiringTotal(s, th, 5);
      FiringIsReported(s, th);
      PointsAreScore(s, th);
      hide Reasons, Score, Total, Firing, FiringPoints, InReasonOrder;
    }
  }

  lemma {:induction false} TotalPush(reasons: seq<Reason>, q: Reason)
    ensures Total(reasons + [q]) == Total(reasons) + Points(q)
  {
    if reasons != [] {
      TotalPush(reasons[1..], q);
      assert (reasons + [q])[1..] == reasons[1..] + [q];
    }
  }

  // Writes are frozen in two modes; NORMAL is the laxest mode in everything.
  lemma PoliciesTighten(mode: Mode)
    ensures var p, n := PolicyForMode(mode), PolicyForMode(NORMAL);
            && (p.freezeWrites <==> mode in {UNDER_ATTACK, ISOLATED}) && (p.requireStakeForReceipts <==> p.freezeWrites)
            && (p.maxWritesPerWalletPerHour == 0 <==> p.freezeWrites)
            && (mode != NORMAL ==>
                  && p.minRpcQuorum > n.minRpcQuorum && p.maxReceiptsPerWalletPerMin < n.maxReceiptsPerWalletPerMin
                  && p.maxWritesPerWalletPerHour < n.maxWritesPerWalletPerHour && p.ttlClampS > 0 == n.ttlClampS)
  {
  }

  // ---------- runs ----------

  datatype State = State(mode: Mode, memory: Memory)

  function Step(st: State, s: Signals, th: Thresholds): State {
    State(NextMode(st.mode, s, th, st.memory), NextMemory(s, th, st.memory))
  }

  // The state after the first n evaluations of a run.
  function StateAt(start: State, run: seq<Signals>, th: Thresholds, n: nat): State
    requires n <= |run|
  {
    if n == 0 then start else Step(StateAt(start, run, th, n - 1), run[n - 1], th)
  }

  predicate Frozen(st: State) {
    PolicyForMode(st.mode).freezeWrites
  }

  // In every run, from every state, an evaluation with grave signals leaves writes frozen.
  lemma GraveFreezes(start: State, run: seq<Signals>, th: Thresholds, j: nat)
    requires j < |run| && (run[j].rpcDisagreement || Grave(run[j], th))
    ensures Frozen(StateAt(start, run, th, j + 1))
  {
    var st := StateAt(start, run, th, j);
    if !run[j].rpcDisagreement {
      ScoreBands(run[j], th);
      hide Score, Grave, AllQuiet, Noticeable;
    }
  }

  predicate NoZeroScore(run: seq<Signals>, th: Thresholds, i: nat, j: nat)
    requires j <= |run|
  {
    forall k :: i <= k < j ==> !ZeroScore(run[k], th)
  }

  lemma {:induction false} IsolatedUntilZero(start: State, run: seq<Signals>, th: Thresholds, i: nat, j: nat)
    requires i < j <= |run| && run[i].rpcDisagreement && NoZeroScore(run, th, i + 1, j)
    ensures StateAt(start, run, th, j) == State(ISOLATED, None)
    decreases j
  {
    if j > i + 1 {
      IsolatedUntilZero(start, run, th, i, j - 1);
      assert !ZeroScore(run[j - 1], th);
    }
  }

  // After a disagreement writes stay frozen until the first zero-score evaluation, which always
  // leads to RECOVERY and lifts the freeze.
  lemma FrozenUntilFirstZero(start: State, run: seq<Signals>, th: Thresholds, i: nat, j: nat)
    requires i < j <= |run| && run[i].rpcDisagreement && NoZeroScore(run, th, i + 1, j)
    ensures Frozen(StateAt(start, run, th, j))
    ensures j < |run| && ZeroScore(run[j], th) ==>
              StateAt(start, run, th, j + 1).mode == RECOVERY && !Frozen(StateAt(start, run, th, j + 1))
  {
    IsolatedUntilZero(start, run, th, i, j);
  }

  // The last zero-score evaluation from position i on, before position j.
  function LastZero(run: seq<Signals>, th: Thresholds, i: nat, j: nat): (r: Option<nat>)
    requires j <= |run|
    ensures r.Some? ==> i <= r.value < j && ZeroScore(run[r.value], th) && NoZeroScore(run, th, r.value + 1, j)
    ensures r.None? ==> NoZeroScore(run, th, i, j)
    decreases j
  {
    if j <= i then None
    else if ZeroScore(run[j - 1], th) then Some(j - 1)
    else LastZero(run, th, i, j - 1)
  }

  predicate NoDisagreement(run: seq<Signals>, i: nat, j: nat)
    requires j <= |run|
  {
    forall k :: i <= k < j ==> !run[k].rpcDisagreement
  }

  // The memory is the time of the last zero-score evaluation since memory was last empty.
  lemma {:induction false} MemoryIsLastZero(start: State, run: seq<Signals>, th: Thresholds, i: nat, j: nat)
    requires i <= j <= |run| && NoDisagreement(run, i, j) && StateAt(start, run, th, i).memory == None
    ensures var z := LastZero(run, th, i, j);
            StateAt(start, run, th, j).memory == if z.Some? then Some(run[z.value].now) else None
    decreases j
  {
    if j > i {
      MemoryIsLastZero(start, run, th, i, j - 1);
    }
  }

  // Two zero-score evaluations in [i, j), none between them, at least recoveryStableSecs apart.
  ghost predicate FarApart(run: seq<Signals>, th: Thresholds, i: nat, j: nat)
    requires j <= |run|
  {
    exists p, q :: i <= p < q < j && ZeroScore(run[p], th) && ZeroScore(run[q], th) && NoZeroScore(run, th, p + 1, q)
                   && run[q].now - run[p].now >= th.recoveryStableSecs
  }

  ghost predicate Visits(start: State, run: seq<Signals>, th: Thresholds, i: nat, j: nat, mode: Mode)
    requires j <= |run|
  {
    exists k :: i <= k <= j && StateAt(start, run, th, k).mode == mode
  }

  lemma StableStepIsFarApart(start: State, run: seq<Signals>, th: Thresholds, i: nat, j: nat)
    requires i <= j < |run| && NoDisagreement(run, i, j) && StateAt(start, run, th, i).memory == None
    requires StableLongEnough(run[j], th, StateAt(start, run, th, j).memory)
    ensures FarApart(run, th, i, j + 1)
  {
    MemoryIsLastZero(start, run, th, i, j);
    var p := LastZero(run, th, i, j).value;
    assert i <= p < j < j + 1 && ZeroScore(run[p], th) && ZeroScore(run[j], th) && NoZeroScore(run, th, p + 1, j);
  }

  lemma VisitsShrink(start: State, run: seq<Signals>, th: Thresholds, i: nat, j: nat, mode: Mode)
    requires i <= j <= |run| && !Visits(start, run, th, i, j, mode)
    ensures StateAt(start, run, th, j).mode != mode
    ensures j > i ==> !Visits(start, run, th, i, j - 1, mode)
  {
    hide StateAt;
  }

  lemma FarApartShrinks(run: seq<Signals>, th: Thresholds, i: nat, j: nat)
    requires 0 < j <= |run| && !FarApart(run, th, i, j)
    ensures !FarApart(run, th, i, j - 1)
  {
    hide ZeroScore, NoZeroScore;
  }

  lemma DisagreementIsolates(st: State, s: Signals, th: Thresholds)
    requires s.rpcDisagreement
    ensures Step(st, s, th) == State(ISOLATED, None)
  {
  }

  lemma AfterDisagreement(start: State, run: seq<Signals>, th: Thresholds, i: nat)
    requires i < |run| && run[i].rpcDisagreement
    ensures StateAt(start, run, th, i + 1).memory == None
  {
    DisagreementIsolates(StateAt(start, run, th, i), run[i], th);
  }

  // From a mode that is not calm, one step leads to NORMAL only over the stability test.
  lemma StaysUncalm(st: State, s: Signals, th: Thresholds)
    ensures Severe(st.mode) && !StableLongEnough(s, th, st.memory) ==>
              Step(st, s, th).mode in {ISOLATED, UNDER_ATTACK, RECOVERY, SUSPICIOUS}
  {
    hide Score, ZeroScore, StableLongEnough;
  }

  lemma {:induction false} CalmNeedsReason(start: State, run: seq<Signals>, th: Thresholds, i: nat, n: nat)
    requires i < n <= |run| && run[i].rpcDisagreement && NoDisagreement(run, i + 1, n)
    requires !Visits(start, run, th, i + 1, n, SUSPICIOUS) && !FarApart(run, th, i + 1, n)
    ensures StateAt(start, run, th, n).mode in {ISOLATED, UNDER_ATTACK, RECOVERY}
    decreases n
  {
    hide Visits, FarApart, NextMode, StableLongEnough, NextMemory;
    VisitsShrink(start, run, th, i + 1, n, SUSPICIOUS);
    if n == i + 1 {
      DisagreementIsolates(StateAt(start, run, th, i), run[i], th);
    } else {
      FarApartShrinks(run, th, i + 1, n);
      StaysUncalm(StateAt(start, run, th, n - 1), run[n - 1], th);
      AfterDisagreement(start, run, th, i);
      CalmNeedsReason(start, run, th, i, n - 1);
      if StableLongEnough(run[n - 1], th, StateAt(start, run, th, n - 1).memory) {
        StableStepIsFarApart(start, run, th, i + 1, n - 1);
      }
    }
  }

  // From a disagreement back to NORMAL, without a further one, a run passes through SUSPICIOUS
  // or holds two successive zero-score evaluations at least recoveryStableSecs apart.
  lemma NormalAfterDisagreement(start: State, run: seq<Signals>, th: Thresholds, i: nat, n: nat)
    requires i < n <= |run| && run[i].rpcDisagreement && NoDisagreement(run, i + 1, n)
    requires StateAt(start, run, th, n).mode == NORMAL
    ensures Visits(start, run, th, i + 1, n, SUSPICIOUS) || FarApart(run, th, i + 1, n)
  {
    if !Visits(start, run, th, i + 1, n, SUSPICIOUS) && !FarApart(run, th, i + 1, n) {
      CalmNeedsReason(start, run, th, i, n);
    }
  }

  // The position behind the last disagreement before j: where the memory was last emptied.
  function SinceDisagreement(run: seq<Signals>, j: nat): (i: nat)
    requires j <= |run|
    ensures i <= j && NoDisagreement(run, i, j) && (i > 0 ==> run[i - 1].rpcDisagreement)
  {
    if j == 0 || run[j - 1].rpcDisagreement then j else SinceDisagreement(run, j - 1)
  }

  // The modes that are left only over the stability test.
  predicate Severe(mode: Mode) {
    mode in {UNDER_ATTACK, ISOLATED, RECOVERY}
  }

  // A severe mode steps to NORMAL exactly when this evaluation and the last zero-score one since
  // the last disagreement are both zero-score and recoveryStableSecs apart, and the remembered
  // time is not the number 0.
  lemma RecoveryEndsExactly(run: seq<Signals>, th: Thresholds, mode: Mode, j: nat)
    requires j < |run| && Severe(StateAt(State(mode, None), run, th, j).mode)
    ensures var z := LastZero(run, th, SinceDisagreement(run, j), j);
            StateAt(State(mode, None), run, th, j + 1).mode == NORMAL
            <==> ZeroScore(run[j], th) && z.Some? && run[z.value].now != 0
                 && run[j].now - run[z.value].now >= th.recoveryStableSecs
  {
    var i := SinceDisagreement(run, j);
    MemoryIsLastZero(State(mode, None), run, th, i, j);
  }

  // If successive zero-score evaluations always come closer together than recoveryStableSecs,
  // no severe mode ever steps to NORMAL, however long everything stays quiet.
  lemma FrequentChecksNeverRecover(run: seq<Signals>, th: Thresholds, mode: Mode, j: nat)
    requires j < |run| && !FarApart(run, th, 0, |run|)
    requires Severe(StateAt(State(mode, None), run, th, j).mode)
    ensures StateAt(State(mode, None), run, th, j + 1).mode != NORMAL
  {
    var i := SinceDisagreement(run, j);
    RecoveryEndsExactly(run, th, mode, j);
  }

  // Every evaluation in [i, j] was zero-score.
  predicate Continuous(run: seq<Signals>, th: Thresholds, i: nat, j: nat)
    requires j < |run|
  {
    forall k :: i <= k <= j ==> ZeroScore(run[k], th)
  }

  // A step from a severe mode to NORMAL rests on a remembered zero-score evaluation. The score
  // was zero all along from there exactly when that is the evaluation just before.
  lemma StabilityContinuousExactly(run: seq<Signals>, th: Thresholds, mode: Mode, j: nat)
    requires j < |run| && Severe(StateAt(State(mode, None), run, th, j).mode)
    requires StateAt(State(mode, None), run, th, j + 1).mode == NORMAL
    ensures var z := LastZero(run, th, SinceDisagreement(run, j), j);
            z.Some? && (Continuous(run, th, z.value, j) <==> z == Some(j - 1))
  {
    RecoveryEndsExactly(run, th, mode, j);
    var z := LastZero(run, th, SinceDisagreement(run, j), j).value;
    if z < j - 1 {
      assert !ZeroScore(run[z + 1], th);
    }
  }

  // The evaluations of the last recoveryStableSecs, this one included, were zero-score.
  predicate StableForSecs(run: seq<Signals>, th: Thresholds, j: nat)
    requires j < |run|
  {
    forall k :: 0 <= k <= j && run[k].now > run[j].now - th.recoveryStableSecs ==> ZeroScore(run[k], th)
  }

  // What the name of the threshold promises holds of such a step, under a clock that does not
  // go back, exactly when everything evaluated since the remembered zero score is older than
  // recoveryStableSecs.
  lemma StableForSecsExactly(run: seq<Signals>, th: Thresholds, mode: Mode, j: nat)
    requires j < |run| && Severe(StateAt(State(mode, None), run, th, j).mode)
    requires StateAt(State(mode, None), run, th, j + 1).mode == NORMAL
    requires forall i, k :: 0 <= i <= k < |run| ==> run[i].now <= run[k].now
    ensures var z := LastZero(run, th, SinceDisagreement(run, j), j);
            z.Some?
            && (StableForSecs(run, th, j)
                <==> forall k :: z.value < k < j ==> run[k].now <= run[j].now - th.recoveryStableSecs)
  {
    RecoveryEndsExactly(run, th, mode, j);
    var z := LastZero(run, th, SinceDisagreement(run, j), j).value;
    forall k | z < k < j ensures !ZeroScore(run[k], th) {
      assert NoZeroScore(run, th, z + 1, j);
    }
  }

  function Quiet(now: int): Signals {
    Signals(None, false, None, None, None, None, None, now)
  }

  function Attack(now: int): Signals {
    Signals(None, false, Some(Finite(50.0)), Some(1000), None, None, None, now)
  }

  // "Stable for recoveryStableSecs" is not what is enforced: with the default thresholds an
  // attack seen between two quiet evaluations does not keep the mode from NORMAL.
  lemma AttackBetweenQuietEvaluations(m: Memory)
    ensures var th := Thresholds(30.0, 5.0, 500, 2, 600);
            var run := [Quiet(0).(rpcDisagreement := true), Quiet(1), Attack(2), Quiet(601)];
            && StateAt(State(NORMAL, m), run, th, 3).mode == UNDER_ATTACK
            && StateAt(State(NORMAL, m), run, th, 4).mode == NORMAL
  {
    var th := Thresholds(30.0, 5.0, 500, 2, 600);
    var run := [Quiet(0).(rpcDisagreement := true), Quiet(1), Attack(2), Quiet(601)];
    var st := State(NORMAL, m);
    assert StateAt(st, run, th, 1) == State(ISOLATED, None);
    assert StateAt(st, run, th, 2) == State(RECOVERY, Some(1));
    assert StateAt(st, run, th, 3) == State(UNDER_ATTACK, Some(1));
  }
}
