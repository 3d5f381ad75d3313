/**
 * The per-strike rules of one monitoring cycle: the at-the-money strike
 * (`find_atm_strike`), the signed percent change (`percent_change`), the
 * call/put imbalance and the compound trigger of `check_alerts`.
 */
module Rules {
  import opened Wrappers
  import opened Chain
  import opened Sorting
  import Selection

  /** Thresholds and window half-width, read once from the environment at start-up. */
  datatype Config = Config(changeThreshold: real, ratioThreshold: real, strikeRange: int)

  /** The values used when the environment sets nothing: 400%, 2x, ATM +/- 6 strikes. */
  const DefaultConfig := Config(400.0, 2.0, 6)

  // ---------------------------------------------------------------------------
  // At-the-money strike (find_atm_strike)
  // ---------------------------------------------------------------------------

  /** `abs(strike - spot)`. */
  function Distance(strike: int, spot: real): real {
    if strike as real >= spot then strike as real - spot else spot - strike as real
  }

  /** `min(strikes, key=lambda x: abs(x - spot))`: a nearest strike, the first one on ties. */
  function FindAtmStrike(spot: real, strikes: seq<int>): (atm: int)
    requires |strikes| > 0
    ensures atm in strikes
    ensures forall x :: x in strikes ==> Distance(atm, spot) <= Distance(x, spot)
    ensures exists i :: 0 <= i < |strikes| && strikes[i] == atm &&
              forall j :: 0 <= j < i ==> Distance(atm, spot) < Distance(strikes[j], spot)
  {
    strikes[Selection.FirstMinIndex(strikes, x => Distance(x, spot))]
  }

  /** Over ascending strikes (the caller sorts the keys) a tie goes to the lower strike. */
  lemma AtmTieGoesLower(spot: real, strikes: seq<int>)
    requires |strikes| > 0 && StrictlyIncreasing(strikes)
    ensures forall x :: x in strikes && Distance(x, spot) == Distance(FindAtmStrike(spot, strikes), spot) ==>
              FindAtmStrike(spot, strikes) <= x
  {
    var i := Selection.FirstMinIndex(strikes, x => Distance(x, spot));
    var atm := strikes[i];
    forall x | x in strikes && Distance(x, spot) == Distance(atm, spot)
      ensures atm <= x
    {
      var j :| 0 <= j < |strikes| && strikes[j] == x;
      assert !((x => Distance(x, spot))(strikes[i]) < (x => Distance(x, spot))(strikes[j]));
      IndexOrder(strikes, i, j);
    }
  }

  /** Strikes 24800..24950 with spot 24865: 24850 is 15 away, 24900 is 35 away. */
  lemma AtmExample()
    ensures FindAtmStrike(24865.0, [24800, 24850, 24900, 24950]) == 24850
  {
    var strikes := [24800, 24850, 24900, 24950];
    var atm := FindAtmStrike(24865.0, strikes);
    assert Distance(atm, 24865.0) <= Distance(strikes[1], 24865.0) == 15.0;
    assert atm == 24800 || atm == 24850 || atm == 24900 || atm == 24950;
  }

  // ---------------------------------------------------------------------------
  // Percent change (percent_change)
  // ---------------------------------------------------------------------------

  /** `percent_change`'s three outcomes: None, `inf`, or a finite float. */
  datatype Change = NoPrevious | Infinite | Finite(pct: real)

  /** The signed change from `prev` to `curr`, in percent of `prev`. */
  function PercentChange(prev: Option<int>, curr: int): (c: Change)
    ensures c.NoPrevious? <==> prev.None?
    ensures c.Infinite? <==> prev == Some(0)
    ensures c.Finite? ==> prev.Some? && prev.value != 0
                          && c.pct * (prev.value as real) == ((curr - prev.value) as real) * 100.0
  {
    match prev
    case None => NoPrevious
    case Some(p) =>
      if p == 0 then Infinite
      else
        var pct := ((curr - p) as real / p as real) * 100.0;
        assert pct * (p as real) == ((curr - p) as real) * 100.0;
        Finite(pct)
  }

  /** `pct is not None and pct >= threshold`; `inf` meets every threshold. */
  predicate Meets(c: Change, threshold: real) {
    match c
    case NoPrevious => false
    case Infinite => true
    case Finite(pct) => pct >= threshold
  }

  /**
   * The threshold test without division: `prev` is known and the rise from it
   * is at least `threshold` percent of it; any value counts when `prev` is 0.
   */
  predicate JumpsBy(prev: Option<int>, curr: int, threshold: real) {
    prev.Some? && (prev.value == 0 || ((curr - prev.value) as real) * 100.0 >= threshold * (prev.value as real))
  }

  lemma MeetsIffJumps(prev: Option<int>, curr: int, threshold: real)
    requires prev.Some? ==> prev.value >= 0
    ensures Meets(PercentChange(prev, curr), threshold) <==> JumpsBy(prev, curr, threshold)
  {
    if prev.Some? && prev.value > 0 {
      var p := prev.value as real;
      var pct := PercentChange(prev, curr).pct;
      assert pct * p == ((curr - prev.value) as real) * 100.0;
      if pct >= threshold {
        assert pct * p >= threshold * p;
      } else {
        assert pct * p < threshold * p;
      }
    }
  }

  /** A fall (or no change) from a positive previous value never meets a positive threshold. */
  lemma DecreaseNeverMeets(prev: int, curr: int, threshold: real)
    requires prev > 0 && curr <= prev && threshold > 0.0
    ensures PercentChange(Some(prev), curr).Finite?
    ensures PercentChange(Some(prev), curr).pct <= 0.0
    ensures !Meets(PercentChange(Some(prev), curr), threshold)
  {
    var pct := PercentChange(Some(prev), curr).pct;
    assert pct * (prev as real) <= 0.0;
    assert pct == (pct * (prev as real)) / (prev as real);
  }

  // ---------------------------------------------------------------------------
  // Imbalance and the compound trigger (check_alerts)
  // ---------------------------------------------------------------------------

  /** The open interest `check_alerts` reads for a leg: `.get(side, 0)`. */
  function CurrentOi(q: Quote, side: Side): int {
    QuoteSide(q, side).GetOr(0)
  }

  /** `max(ce, pe) / min(ce, pe) >= threshold`, false unless both legs are positive. */
  predicate RatioOk(ce: int, pe: int, threshold: real) {
    if ce > 0 && pe > 0 then
      var larger := if ce >= pe then ce else pe;
      var smaller := if ce >= pe then pe else ce;
      (larger as real) / (smaller as real) >= threshold
    else false
  }

  /** The imbalance test without division. */
  predicate ImbalancedBy(ce: int, pe: int, threshold: real) {
    && ce > 0 && pe > 0
    && (ce >= pe ==> ce as real >= threshold * (pe as real))
    && (pe > ce ==> pe as real >= threshold * (ce as real))
  }

  lemma RatioIffImbalanced(ce: int, pe: int, threshold: real)
    ensures RatioOk(ce, pe, threshold) <==> ImbalancedBy(ce, pe, threshold)
  {
    if ce > 0 && pe > 0 {
      var larger := if ce >= pe then ce else pe;
      var smaller := if ce >= pe then pe else ce;
      var r := (larger as real) / (smaller as real);
      assert r * (smaller as real) == larger as real;
      if r >= threshold {
        assert r * (smaller as real) >= threshold * (smaller as real);
      } else {
        assert r * (smaller as real) < threshold * (smaller as real);
      }
    }
  }

  /** The side an alert is attributed to, or None when the strike does not alert. */
  function TriggerSide(ce: int, pe: int, cePrev: Option<int>, pePrev: Option<int>, cfg: Config): Option<Side> {
    var ceTrigger := Meets(PercentChange(cePrev, ce), cfg.changeThreshold);
    var peTrigger := Meets(PercentChange(pePrev, pe), cfg.changeThreshold);
    if (ceTrigger || peTrigger) && RatioOk(ce, pe, cfg.ratioThreshold) then
      Some(if ceTrigger then CE else PE)
    else None
  }

  /** The structured content of one alert: what the alert text reports. */
  datatype Alert = Alert(strike: int, side: Side, ceOi: int, peOi: int, prevOi: int, change: Change)

  /** The alert a strike raises, given its current legs and the stored previous ones. */
  function AlertAt(strike: int, ce: int, pe: int, cePrev: Option<int>, pePrev: Option<int>, cfg: Config): Option<Alert> {
    match TriggerSide(ce, pe, cePrev, pePrev, cfg)
    case None => None
    case Some(side) =>
      var prev := if side == CE then cePrev else pePrev;
      var curr := if side == CE then ce else pe;
      Some(Alert(strike, side, ce, pe, prev.value, PercentChange(prev, curr)))
  }

  /**
   * The compound rule: a strike alerts iff some leg rose by the threshold from
   * a stored value and the two current legs are positive and imbalanced by the
   * ratio; the call leg takes precedence; the alert reports the triggering leg.
   */
  lemma AlertRule(strike: int, ce: int, pe: int, cePrev: Option<int>, pePrev: Option<int>, cfg: Config)
    requires cePrev.Some? ==> cePrev.value >= 0
    requires pePrev.Some? ==> pePrev.value >= 0
    ensures AlertAt(strike, ce, pe, cePrev, pePrev, cfg).Some? <==>
              && (JumpsBy(cePrev, ce, cfg.changeThreshold) || JumpsBy(pePrev, pe, cfg.changeThreshold))
              && ImbalancedBy(ce, pe, cfg.ratioThreshold)
    ensures AlertAt(strike, ce, pe, cePrev, pePrev, cfg).Some? ==>
              var a := AlertAt(strike, ce, pe, cePrev, pePrev, cfg).value;
              && a.strike == strike && a.ceOi == ce && a.peOi == pe
              && a.side == (if JumpsBy(cePrev, ce, cfg.changeThreshold) then CE else PE)
              && Some(a.prevOi) == (if a.side == CE then cePrev else pePrev)
              && a.change == PercentChange(if a.side == CE then cePrev else pePrev, if a.side == CE then ce else pe)
  {
    MeetsIffJumps(cePrev, ce, cfg.changeThreshold);
    MeetsIffJumps(pePrev, pe, cfg.changeThreshold);
    RatioIffImbalanced(ce, pe, cfg.ratioThreshold);
  }

  /** A leg with no stored previous value cannot be the trigger. */
  lemma NoPreviousNeverTriggers(strike: int, ce: int, pe: int, cePrev: Option<int>, pePrev: Option<int>, cfg: Config)
    ensures var r := AlertAt(strike, ce, pe, cePrev, pePrev, cfg);
      r.Some? ==> (if r.value.side == CE then cePrev.Some? else pePrev.Some?)
    ensures cePrev.None? && pePrev.None? ==> AlertAt(strike, ce, pe, cePrev, pePrev, cfg).None?
  {
  }

  /** A strike whose current CE or PE open interest is not positive never alerts, even on an infinite change. */
  lemma ZeroLegNeverAlerts(strike: int, ce: int, pe: int, cePrev: Option<int>, pePrev: Option<int>, cfg: Config)
    requires ce <= 0 || pe <= 0
    ensures AlertAt(strike, ce, pe, cePrev, pePrev, cfg).None?
  {
  }

  /**
   * At the default thresholds: CE rising 100 -> 600 (500%) and PE falling
   * 500 -> 200 with CE 3x PE alerts on the call side.
   */
  lemma DefaultThresholdExample()
    ensures AlertAt(24850, 600, 200, Some(100), Some(500), DefaultConfig)
         == Some(Alert(24850, CE, 600, 200, 100, Finite(500.0)))
  {
    assert PercentChange(Some(100), 600) == Finite(500.0);
    assert RatioOk(600, 200, 2.0);
  }
}
