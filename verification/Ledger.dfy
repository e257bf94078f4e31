// Maps from accounts to amounts and their sum, and the per-day award windows of
// coordinator/src/server.ts.
module Ledger {
  import opened Bytes

  type Amounts = map<string, real>

  // map.get(k) || 0
  function Balance(m: Amounts, k: string): real {
    if k in m then m[k] else 0.0
  }

  ghost function Sum(m: Amounts): real
    decreases |m|
  {
    if m == map[] then 0.0
    else
      var k :| k in m;
      m[k] + Sum(m - {k})
  }

  // The sum does not depend on which account is counted first.
  lemma {:induction false} SumWithout(m: Amounts, k: string)
    requires k in m
    ensures Sum(m) == m[k] + Sum(m - {k})
    decreases |m|
  {
    var j :| j in m && Sum(m) == m[j] + Sum(m - {j});
    if j != k {
      SumWithout(m - {j}, k);
      SumWithout(m - {k}, j);
      assert m - {j} - {k} == m - {k} - {j};
    }
  }

  lemma SumUpdate(m: Amounts, k: string, v: real)
    ensures Sum(m[k := v]) == Sum(m) - Balance(m, k) + v
  {
    var n := m[k := v];
    SumWithout(n, k);
    assert n - {k} == m - {k};
    if k in m {
      SumWithout(m, k);
    } else {
      assert m - {k} == m;
    }
  }

  predicate NonNegative(m: Amounts) {
    forall k :: k in m ==> m[k] >= 0.0
  }

  // ---------- award windows ----------

  datatype Window = Window(day: int, used: real)
  type Windows = map<string, Window>

  datatype Capped = Capped(windows: Windows, ok: bool)

  function Used(ws: Windows, key: string, day: int): real {
    if key in ws && ws[key].day == day then ws[key].used else 0.0
  }

  // A window of another day starts again at nothing, even when the award is then refused; a
  // window that did not exist is stored only with an award.
  function Cap(ws: Windows, key: string, day: int, delta: real, cap: real): Capped {
    var used := Used(ws, key, day);
    if used + delta > cap then Capped(if key in ws then ws[key := Window(day, used)] else ws, false)
    else Capped(ws[key := Window(day, used + delta)], true)
  }

  datatype Charge = Charge(key: string, day: int, delta: real)

  function CapAll(ws: Windows, charges: seq<Charge>, cap: real): Windows {
    if charges == [] then ws
    else
      var m := |charges| - 1;
      var c := charges[m];
      Cap(CapAll(ws, charges[..m], cap), c.key, c.day, c.delta, cap).windows
  }

  // What was awarded to one key on one day.
  function Awarded(charges: seq<Charge>, cap: real, key: string, day: int): real {
    if charges == [] then 0.0
    else
      var m := |charges| - 1;
      var c := charges[m];
      Awarded(charges[..m], cap, key, day)
      + (if c.key == key && c.day == day && Cap(CapAll(map[], charges[..m], cap), c.key, c.day, c.delta, cap).ok
         then c.delta else 0.0)
  }

  // What the key was given on this day since its last charge on another day: a charge that would
  // lift that over the cap is not given.
  function GivenSince(charges: seq<Charge>, cap: real, key: string, day: int): real {
    if charges == [] then 0.0
    else
      var x := charges[|charges| - 1];
      var before := GivenSince(charges[..|charges| - 1], cap, key, day);
      if x.key != key then before
      else if x.day != day then 0.0
      else if before + x.delta <= cap then before + x.delta
      else before
  }

  // The windows hold exactly that, so it decides the next charge.
  lemma {:induction false} CapExactly(charges: seq<Charge>, cap: real, x: Charge)
    ensures Used(CapAll(map[], charges, cap), x.key, x.day) == GivenSince(charges, cap, x.key, x.day)
    ensures Cap(CapAll(map[], charges, cap), x.key, x.day, x.delta, cap).ok
       <==> GivenSince(charges, cap, x.key, x.day) + x.delta <= cap
  {
    if charges != [] {
      CapExactly(charges[..|charges| - 1], cap, x);
    }
  }

  predicate NoNegativeCharge(charges: seq<Charge>) {
    forall i :: 0 <= i < |charges| ==> charges[i].delta >= 0.0
  }

  function AtLeastZero(cap: real): real {
    if cap < 0.0 then 0.0 else cap
  }

  // The key is charged on one day, then on another, then on the first again.
  predicate Returns(charges: seq<Charge>, key: string, i: nat, j: nat, k: nat) {
    && i < j < k < |charges| && charges[i].key == charges[j].key == charges[k].key == key
    && charges[i].day == charges[k].day != charges[j].day
  }

  ghost predicate NoDayReturns(charges: seq<Charge>, key: string) {
    forall i: nat, j: nat, k: nat :: !Returns(charges, key, i, j, k)
  }

  // The key's last charge.
  function LastOf(charges: seq<Charge>, key: string): (r: Option<nat>)
    ensures r.Some? ==> r.value < |charges| && charges[r.value].key == key
    ensures forall i :: (if r.Some? then r.value + 1 else 0) <= i < |charges| ==> charges[i].key != key
  {
    if charges == [] then None
    else if charges[|charges| - 1].key == key then Some(|charges| - 1)
    else LastOf(charges[..|charges| - 1], key)
  }

  // Nothing is awarded on a day without a charge of the key.
  lemma {:induction false} NoChargeNoAward(charges: seq<Charge>, cap: real, key: string, day: int)
    requires forall i :: 0 <= i < |charges| ==> charges[i].key != key || charges[i].day != day
    ensures Awarded(charges, cap, key, day) == 0.0
  {
    if charges != [] {
      var front := charges[..|charges| - 1];
      forall i | 0 <= i < |front| ensures front[i].key != key || front[i].day != day {
        assert front[i] == charges[i];
      }
      NoChargeNoAward(front, cap, key, day);
    }
  }

  lemma ReturnsLater(charges: seq<Charge>, key: string)
    requires charges != [] && NoDayReturns(charges, key)
    ensures NoDayReturns(charges[..|charges| - 1], key)
  {
    var front := charges[..|charges| - 1];
    forall i: nat, j: nat, k: nat ensures !Returns(front, key, i, j, k) {
      assert Returns(front, key, i, j, k) ==> Returns(charges, key, i, j, k);
    }
  }

  // The window of a key is that of its last charge and holds what was awarded on its day.
  ghost predicate WindowTells(charges: seq<Charge>, cap: real, key: string) {
    var ws := CapAll(map[], charges, cap);
    if key in ws then
      && LastOf(charges, key).Some? && ws[key].day == charges[LastOf(charges, key).value].day
      && Awarded(charges, cap, key, ws[key].day) == ws[key].used && 0.0 <= ws[key].used <= AtLeastZero(cap)
    else
      forall d :: Awarded(charges, cap, key, d) == 0.0
  }

  // A day the last charge was not on, and that is charged now, was never charged before.
  lemma NewDayIsNew(charges: seq<Charge>, cap: real, key: string)
    requires charges != [] && NoDayReturns(charges, key)
    ensures var m := |charges| - 1;
            var l := LastOf(charges[..m], key);
            charges[m].key == key && l.Some? && charges[l.value].day != charges[m].day ==>
              Awarded(charges[..m], cap, key, charges[m].day) == 0.0
  {
    var m := |charges| - 1;
    var front := charges[..m];
    var l := LastOf(front, key);
    if charges[m].key == key && l.Some? && charges[l.value].day != charges[m].day {
      forall i | 0 <= i < |front| ensures front[i].key != key || front[i].day != charges[m].day {
        assert front[l.value] == charges[l.value] && front[i] == charges[i];
        assert !Returns(charges, key, i, l.value, m);
      }
      NoChargeNoAward(front, cap, key, charges[m].day);
    }
  }

  lemma {:induction false} AwardsStayCapped(charges: seq<Charge>, cap: real, key: string, day: int)
    requires NoDayReturns(charges, key) && NoNegativeCharge(charges)
    ensures WindowTells(charges, cap, key) && Awarded(charges, cap, key, day) <= AtLeastZero(cap)
  {
    if charges != [] {
      var m := |charges| - 1;
      ReturnsLater(charges, key);
      AwardsStayCapped(charges[..m], cap, key, day);
      AwardsStayCapped(charges[..m], cap, key, charges[m].day);
      NewDayIsNew(charges, cap, key);
      CapStep(charges, cap, key, day);
    }
  }

  lemma CapStep(charges: seq<Charge>, cap: real, key: string, day: int)
    requires charges != [] && WindowTells(charges[..|charges| - 1], cap, key) && NoNegativeCharge(charges)
    requires Awarded(charges[..|charges| - 1], cap, key, day) <= AtLeastZero(cap)
    requires var m := |charges| - 1;
             var l := LastOf(charges[..m], key);
             charges[m].key == key && l.Some? && charges[l.value].day != charges[m].day ==>
               Awarded(charges[..m], cap, key, charges[m].day) == 0.0
    ensures WindowTells(charges, cap, key) && Awarded(charges, cap, key, day) <= AtLeastZero(cap)
  {
  }

  // On no day does a key get more than the cap, as long as none of the key's own days comes
  // back after another.
  lemma AwardsCapped(charges: seq<Charge>, cap: real, key: string, day: int)
    requires NoDayReturns(charges, key) && NoNegativeCharge(charges)
    ensures Awarded(charges, cap, key, day) <= AtLeastZero(cap)
  {
    AwardsStayCapped(charges, cap, key, day);
  }

  // The same keys on the same days, whatever the amounts.
  predicate SameTimes(a: seq<Charge>, b: seq<Charge>) {
    |a| == |b| && forall i :: 0 <= i < |a| ==> a[i].key == b[i].key && a[i].day == b[i].day
  }

  // The whole cap at i and at k, nothing elsewhere.
  function Spiked(charges: seq<Charge>, i: nat, k: nat, cap: real): (r: seq<Charge>)
    ensures SameTimes(r, charges)
  {
    seq(|charges|, n requires 0 <= n < |charges| => charges[n].(delta := if n == i || n == k then cap else 0.0))
  }

  // What the first m charges leave: the first spike is awarded, the day between clears the
  // window, the second spike is awarded on the same day again.
  ghost predicate SpikesSoFar(sp: seq<Charge>, key: string, i: nat, j: nat, k: nat, cap: real, day: int, m: nat)
    requires m <= |sp|
  {
    var ws, a := CapAll(map[], sp[..m], cap), Awarded(sp[..m], cap, key, day);
    && a == (if m <= i then 0.0 else if m <= k then cap else cap + cap)
    && (i < m ==> key in ws)
    && (m <= i || j < m <= k ==> key in ws ==> ws[key].used == 0.0)
    && (i < m <= j ==> ws[key].used == 0.0 || (ws[key].day == day && ws[key].used == cap))
  }

  lemma SpikeStep(charges: seq<Charge>, key: string, i: nat, j: nat, k: nat, cap: real, m: nat)
    requires Returns(charges, key, i, j, k) && cap > 0.0 && m < |charges|
    requires SpikesSoFar(Spiked(charges, i, k, cap), key, i, j, k, cap, charges[i].day, m)
    ensures SpikesSoFar(Spiked(charges, i, k, cap), key, i, j, k, cap, charges[i].day, m + 1)
  {
    var sp := Spiked(charges, i, k, cap);
    assert sp[..m + 1][..m] == sp[..m] && sp[..m + 1][m] == sp[m];
  }

  lemma {:induction false} SpikesPass(charges: seq<Charge>, key: string, i: nat, j: nat, k: nat, cap: real, m: nat)
    requires Returns(charges, key, i, j, k) && cap > 0.0 && m <= |charges|
    ensures SpikesSoFar(Spiked(charges, i, k, cap), key, i, j, k, cap, charges[i].day, m)
  {
    if m > 0 {
      SpikesPass(charges, key, i, j, k, cap, m - 1);
      SpikeStep(charges, key, i, j, k, cap, m - 1);
    }
  }

  // A day that comes back starts again at nothing: for every cap, twice the cap is awarded.
  lemma ReturningDayBreaksCap(charges: seq<Charge>, key: string, i: nat, j: nat, k: nat, cap: real)
    requires Returns(charges, key, i, j, k) && cap > 0.0
    ensures var sp := Spiked(charges, i, k, cap);
            NoNegativeCharge(sp) && SameTimes(sp, charges) && Awarded(sp, cap, key, charges[i].day) == cap + cap
  {
    var sp := Spiked(charges, i, k, cap);
    SpikesPass(charges, key, i, j, k, cap, |charges|);
    assert sp[..|charges|] == sp;
  }

  // Whatever is charged at these times, no cap is exceeded for the key on any day.
  ghost predicate CapsHold(charges: seq<Charge>, key: string) {
    forall other: seq<Charge>, cap: real, day: int :: SameTimes(other, charges) && NoNegativeCharge(other) ==>
      Awarded(other, cap, key, day) <= AtLeastZero(cap)
  }

  // Exactly when none of the key's days comes back.
  lemma CapsHoldExactly(charges: seq<Charge>, key: string)
    ensures CapsHold(charges, key) <==> NoDayReturns(charges, key)
  {
    hide Awarded, AtLeastZero;
    if NoDayReturns(charges, key) {
      forall other: seq<Charge>, cap: real, day: int | SameTimes(other, charges) && NoNegativeCharge(other)
        ensures Awarded(other, cap, key, day) <= AtLeastZero(cap)
      {
        TimesReturnAlike(other, charges, key);
        AwardsCapped(other, cap, key, day);
      }
    } else {
      var i: nat, j: nat, k: nat :| Returns(charges, key, i, j, k);
      ReturningDayBreaksCap(charges, key, i, j, k, 1.0);
      assert !(Awarded(Spiked(charges, i, k, 1.0), 1.0, key, charges[i].day) <= AtLeastZero(1.0)) by {
        OneAtLeastZero();
      }
    }
  }

  lemma OneAtLeastZero()
    ensures AtLeastZero(1.0) == 1.0
  {
  }

  lemma TimesReturnAlike(a: seq<Charge>, b: seq<Charge>, key: string)
    requires SameTimes(a, b) && NoDayReturns(b, key)
    ensures NoDayReturns(a, key)
  {
    forall i: nat, j: nat, k: nat ensures !Returns(a, key, i, j, k) {
      assert Returns(a, key, i, j, k) ==> Returns(b, key, i, j, k);
    }
  }

  predicate DaysGoOn(charges: seq<Charge>) {
    forall i, j :: 0 <= i < j < |charges| ==> charges[i].day <= charges[j].day
  }

  // Days that never go back are more than enough.
  lemma DaysInOrderDoNotReturn(charges: seq<Charge>, key: string)
    requires DaysGoOn(charges)
    ensures NoDayReturns(charges, key)
  {
  }
}
