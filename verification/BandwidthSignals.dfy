// What each report does to the estimate, in the report's own numbers.
module BandwidthSignals {
  import opened Numbers
  import opened Bandwidth
  import opened BandwidthRuns

  // The smallest delay seen, in microseconds, and the excess over it in milliseconds, three tenths of
  // which enter the average.
  lemma SmoothedDelay(e: Estimator, r: Report)
    ensures var f := OnReport(e, r); var p50 := 1000 * r.p50Ms;
      && f.rtProp == (if e.rtProp == 0 then p50 else Min(e.rtProp, p50))
      && 10.0 * f.delay == 7.0 * e.delay + 3.0 * ((p50 - f.rtProp) as real / 1000.0)
  {
    hide Congested, Recovered, Factor, Lowered, Raised;
  }

  // A signal of congestion of at least this strength. While the sender is short of tokens itself, only
  // congestion marks are believed.
  ghost predicate Signal(r: Report, strength: real)
  {
    r.ce >= strength || (!r.pacerLimited && (r.late >= strength || r.loss >= strength))
  }

  // Late packets or losses above 2 %, a queue of more than 20 ms, or congestion marks above 1 %.
  ghost predicate Overloaded(r: Report, delay: real)
  {
    r.ce > 0.01 || (!r.pacerLimited && (r.late > 0.02 || r.loss > 0.02 || delay > 20.0))
  }

  // The estimate goes down in these reports and in no others.
  lemma LowersExactly(e: Estimator, r: Report)
    requires Inv(e) && e.btl > 12500
    ensures var f := OnReport(e, r);
      && (f.congested <==> Overloaded(r, f.delay))
      && (f.btl < e.btl <==> !r.inWindow && r.sustainedOverload && Overloaded(r, f.delay))
  {
    hide Recovered, Factor, Lowered, Raised, NextDelay, NextRtProp;
    RaisedBounds(e.btl, e.seed, r);
    LoweredBounds(e.btl, r);
  }

  // By a tenth, a quarter, 35 % or half, as the strongest signal reaches 0, 5, 20 or 50 %, and never
  // below the floor.
  lemma LoweredBy(e: Estimator, r: Report)
    requires !r.inWindow && r.sustainedOverload && Overloaded(r, OnReport(e, r).delay)
    ensures var f := OnReport(e, r);
      var percent := if Signal(r, 0.5) then 50 else if Signal(r, 0.2) then 65 else if Signal(r, 0.05) then 75 else 90;
      && f.btl == Max(e.btl * percent / 100, 12500)
      && f.step == 0 && f.extra == 0
  {
    hide Recovered, Raised, NextDelay, NextRtProp, Lowered;
    Percent(e.btl, 50, 0.5);
    Percent(e.btl, 65, 0.65);
    Percent(e.btl, 75, 0.75);
    Percent(e.btl, 90, 0.9);
  }

  lemma Percent(n: nat, percent: nat, x: real)
    requires x == percent as real / 100.0 && percent <= 100
    ensures Lowered(n, x) == Max(n * percent / 100, 12500)
  {
    var q, m := n * percent / 100, n * percent;
    assert 100 * q <= m < 100 * q + 100;
    assert n as real * percent as real == m as real;
    assert n as real * x == m as real / 100.0;
  }

  // Without overload and outside a window: while short of tokens, or with little delay, lateness and loss.
  ghost predicate Clear(r: Report, delay: real)
  {
    && !r.inWindow && !Overloaded(r, delay)
    && (r.pacerLimited || (delay < 10.0 && r.late < 0.005 && r.loss < 0.005))
  }

  // Two steps of a half up, to the seed at most, and to 1.2 times the received rate unless the estimate is
  // above that already; then a pause. The first step asks for two more parities, unless marks are seen.
  lemma RaisedBy(e: Estimator, r: Report)
    requires Inv(e)
    ensures var f := OnReport(e, r);
      var half := Min(e.btl * 3 / 2, e.seed);
      var bound := if r.recvRate > 0.0 && !r.pacerLimited then Max(e.btl, (r.recvRate * 1.2).Floor) else half;
      Clear(r, f.delay) ==>
        && f.btl == (if e.step < 2 then Max(Min(half, bound), 12500) else e.btl)
        && f.step == (if e.step < 2 then e.step + 1 else 0)
        && f.extra == (if e.step == 0 then (if r.ce < 0.01 then 2 else 0) else if e.step == 1 then 0 else e.extra)
  {
    hide Factor, Lowered, NextDelay, NextRtProp, Raised;
    RaisedFloor(e.btl, e.seed, r);
  }

  lemma RaisedFloor(btl: nat, seed: nat, r: Report)
    ensures var half := Min(btl * 3 / 2, seed);
      var bound := if r.recvRate > 0.0 && !r.pacerLimited then Max(btl, (r.recvRate * 1.2).Floor) else half;
      Raised(btl, seed, r) == Max(Min(half, bound), 12500)
  {
    assert (btl as real * 1.5).Floor == btl * 3 / 2 by {
      var q := btl * 3 / 2;
      assert 2 * q <= 3 * btl < 2 * q + 2;
    }
    if Capped(r) {
      FloorOfMax(btl as real, r.recvRate * 1.2);
      FloorOfMin(seed as real, MaxReal(btl as real, r.recvRate * 1.2));
      FloorOfMin(btl as real * 1.5, MinReal(seed as real, MaxReal(btl as real, r.recvRate * 1.2)));
    } else {
      FloorOfMin(btl as real * 1.5, seed as real);
    }
  }

  lemma FloorOfMin(x: real, y: real)
    ensures MinReal(x, y).Floor == Min(x.Floor, y.Floor)
  {}

  lemma FloorOfMax(x: real, y: real)
    ensures MaxReal(x, y).Floor == Max(x.Floor, y.Floor)
  {}

  // Every other report leaves the estimate alone.
  lemma LeftAlone(e: Estimator, r: Report)
    ensures var f := OnReport(e, r);
      && f.seed == e.seed && f.calibrated == e.calibrated && !f.stalled
      && (!Clear(r, f.delay) && !(!r.inWindow && r.sustainedOverload && Overloaded(r, f.delay)) ==>
           f.btl == e.btl && f.step == e.step && f.extra == e.extra)
  {
    hide Factor, Lowered, NextDelay, NextRtProp, Raised;
  }

  // The first timeout of a stall halves the estimate, and the first probe caps it at its bytes per second.
  lemma OtherEvents(e: Estimator, probe: nat)
    ensures var f := OnTimeout(e); f.stalled && f.btl == if e.stalled then e.btl else Max(e.btl / 2, 12500)
    ensures var f := Calibrate(e, probe);
      && f.btl == (if e.calibrated || probe == 0 then e.btl else Min(e.btl, Max(probe / 8, 1)))
      && f.calibrated == (e.calibrated || probe > 0)
  {
    HalvedBounds(e.btl);
  }
}
