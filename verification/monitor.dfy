/**
 * One monitoring cycle (`check_alerts` and the guard chain of one pass of
 * `main_loop`) over the `oi_data` table of previously stored open interest,
 * kept in memory as a map from (strike, leg) to the last stored value.
 */
module Monitor {
  import opened Wrappers
  import opened Chain
  import opened Rules
  import opened Sorting
  import Market

  /** The rows of `oi_data`: `(strike, option_type) -> last_oi`. */
  type Table = map<(int, Side), int>

  /** `get_previous_oi`: the stored value, or None when there is no row. */
  function Lookup(t: Table, strike: int, side: Side): Option<int> {
    if (strike, side) in t then Some(t[(strike, side)]) else None
  }

  /** `set_previous_oi` followed by `get_previous_oi`: the upsert is read back, every other row is untouched. */
  lemma StoreThenLookup(t: Table, strike: int, side: Side, oi: int, k: int, s: Side)
    ensures Lookup(t[(strike, side) := oi], k, s) == if (k, s) == (strike, side) then Some(oi) else Lookup(t, k, s)
  {
  }

  // ---------------------------------------------------------------------------
  // The monitored window
  // ---------------------------------------------------------------------------

  /** `[atm + i * step for i in range(-range, range + 1)]`. */
  function Monitored(atm: int, step: int, range: int): (ms: seq<int>)
    ensures |ms| == if range < 0 then 0 else 2 * range + 1
    ensures range >= 0 ==> ms[range] == atm
  {
    var n := if range < 0 then 0 else 2 * range + 1;
    seq(n, j requires 0 <= j < n => atm + (j - range) * step)
  }

  /** Neighbouring strikes of the window are one step apart. */
  lemma MonitoredSpacing(atm: int, step: int, range: int)
    ensures forall j :: 0 <= j < |Monitored(atm, step, range)| - 1 ==>
              Monitored(atm, step, range)[j + 1] == Monitored(atm, step, range)[j] + step
  {
  }

  /** With a positive step the window is strictly ascending. */
  lemma MonitoredAscending(atm: int, step: int, range: int)
    requires step > 0
    ensures StrictlyIncreasing(Monitored(atm, step, range))
  {
    MonitoredSpacing(atm, step, range);
    StepsAscend(Monitored(atm, step, range), step);
  }

  /** The window holds exactly the strikes `atm + i * step` for `-range <= i <= range`. */
  lemma MonitoredMembers(atm: int, step: int, range: int)
    ensures forall i :: -range <= i <= range ==> atm + i * step in Monitored(atm, step, range)
    ensures forall k :: k in Monitored(atm, step, range) ==> exists i :: -range <= i <= range && k == atm + i * step
  {
    var ms := Monitored(atm, step, range);
    forall i | -range <= i <= range ensures atm + i * step in ms {
      MonitoredAt(atm, step, range, i);
    }
    forall k | k in ms ensures exists i :: -range <= i <= range && k == atm + i * step {
      var j :| 0 <= j < |ms| && ms[j] == k;
      MonitoredAt(atm, step, range, j - range);
      assert j - range + range == j;
    }
  }

  lemma MonitoredAt(atm: int, step: int, range: int, i: int)
    requires -range <= i <= range
    ensures Monitored(atm, step, range)[i + range] == atm + i * step
  {
  }

  /** A list that rises by a positive step between neighbours is strictly ascending. */
  lemma {:induction false} StepsAscend(ms: seq<int>, step: int)
    requires step > 0 && forall j :: 0 <= j < |ms| - 1 ==> ms[j + 1] == ms[j] + step
    ensures StrictlyIncreasing(ms)
    decreases |ms|
  {
    if |ms| >= 2 {
      var init := ms[..|ms| - 1];
      StepsAscend(init, step);
      forall p, q | 0 <= p < q < |ms| ensures ms[p] < ms[q] {
        if q < |ms| - 1 {
          assert init[p] < init[q];
        } else if p < q - 1 {
          assert init[p] < init[q - 1];
        }
      }
    }
  }

  // ---------------------------------------------------------------------------
  // One strike, and the whole window, as values
  // ---------------------------------------------------------------------------

  /** A strike `check_alerts` does not skip: present in the map, and not both legs 0. */
  predicate Refreshed(strikes: map<int, Quote>, k: int) {
    k in strikes && !(CurrentOi(strikes[k], CE) == 0 && CurrentOi(strikes[k], PE) == 0)
  }

  /** The alerts strike `k` raises against the table `t`: none or one. */
  function AlertsAt(t: Table, strikes: map<int, Quote>, k: int, cfg: Config): seq<Alert>
    requires k in strikes
  {
    var found := AlertAt(k, CurrentOi(strikes[k], CE), CurrentOi(strikes[k], PE), Lookup(t, k, CE), Lookup(t, k, PE), cfg);
    if found.Some? then [found.value] else []
  }

  /** The table and the alerts raised so far in a cycle. */
  datatype Cycle = Cycle(table: Table, alerts: seq<Alert>)

  /** One pass of the loop body of `check_alerts` over strike `k`. */
  function Visit(c: Cycle, strikes: map<int, Quote>, k: int, cfg: Config): (r: Cycle)
    ensures |r.alerts| <= |c.alerts| + 1
  {
    if !Refreshed(strikes, k) then c
    else
      var ce, pe := CurrentOi(strikes[k], CE), CurrentOi(strikes[k], PE);
      Cycle(c.table[(k, CE) := ce][(k, PE) := pe], c.alerts + AlertsAt(c.table, strikes, k, cfg))
  }

  /** The loop of `check_alerts` over the strikes `ms`, in order. */
  function Scan(c: Cycle, strikes: map<int, Quote>, ms: seq<int>, cfg: Config): Cycle
    decreases |ms|
  {
    if ms == [] then c
    else Visit(Scan(c, strikes, ms[..|ms| - 1], cfg), strikes, ms[|ms| - 1], cfg)
  }

  /** The reference reading of a cycle: every strike of `ms` judged against the table as it was before the cycle. */
  function Evaluate(t: Table, strikes: map<int, Quote>, ms: seq<int>, cfg: Config): (alerts: seq<Alert>)
    ensures |alerts| <= |ms|
    decreases |ms|
  {
    if ms == [] then []
    else
      var k := ms[|ms| - 1];
      Evaluate(t, strikes, ms[..|ms| - 1], cfg) + (if Refreshed(strikes, k) then AlertsAt(t, strikes, k, cfg) else [])
  }

  /**
   * The table after a scan: a strike of `ms` that was not skipped stores its
   * current legs (a missing leg as 0); every other row keeps its value.
   */
  lemma {:induction false} ScanTable(c: Cycle, strikes: map<int, Quote>, ms: seq<int>, cfg: Config, k: int, side: Side)
    ensures Lookup(Scan(c, strikes, ms, cfg).table, k, side) ==
              if k in ms && Refreshed(strikes, k) then Some(CurrentOi(strikes[k], side)) else Lookup(c.table, k, side)
    decreases |ms|
  {
    if ms != [] {
      var init := ms[..|ms| - 1];
      ScanTable(c, strikes, init, cfg, k, side);
      assert ms == init + [ms[|ms| - 1]];
    }
  }

  /** A scan never removes rows. */
  lemma {:induction false} ScanKeepsRows(c: Cycle, strikes: map<int, Quote>, ms: seq<int>, cfg: Config)
    ensures c.table.Keys <= Scan(c, strikes, ms, cfg).table.Keys
    decreases |ms|
  {
    if ms != [] {
      ScanKeepsRows(c, strikes, ms[..|ms| - 1], cfg);
    }
  }

  /**
   * When no strike repeats (as with a positive step), the alerts a scan adds are
   * exactly those of the reference reading against the table before the cycle:
   * the writes made while scanning never feed back into the same cycle.
   */
  lemma {:induction false} ScanAlerts(c: Cycle, strikes: map<int, Quote>, ms: seq<int>, cfg: Config)
    requires StrictlyIncreasing(ms)
    ensures Scan(c, strikes, ms, cfg).alerts == c.alerts + Evaluate(c.table, strikes, ms, cfg)
    decreases |ms|
  {
    if ms != [] {
      var init, k := ms[..|ms| - 1], ms[|ms| - 1];
      ScanAlerts(c, strikes, init, cfg);
      var before := Scan(c, strikes, init, cfg);
      if Refreshed(strikes, k) {
        assert k !in init;
        ScanTable(c, strikes, init, cfg, k, CE);
        ScanTable(c, strikes, init, cfg, k, PE);
        assert AlertsAt(before.table, strikes, k, cfg) == AlertsAt(c.table, strikes, k, cfg);
      }
    }
  }

  /**
   * What the reference reading contains: an alert for a strike of `ms` that was
   * not skipped and whose rule fires, at most one per strike, in window order.
   */
  lemma {:induction false} EvaluateAlerts(t: Table, strikes: map<int, Quote>, ms: seq<int>, cfg: Config)
    ensures |Evaluate(t, strikes, ms, cfg)| <= |ms|
    ensures forall a :: a in Evaluate(t, strikes, ms, cfg) <==>
              a.strike in ms && Refreshed(strikes, a.strike) && AlertsAt(t, strikes, a.strike, cfg) == [a]
    ensures StrictlyIncreasing(ms) ==> forall i, j :: 0 <= i < j < |Evaluate(t, strikes, ms, cfg)| ==>
              Evaluate(t, strikes, ms, cfg)[i].strike < Evaluate(t, strikes, ms, cfg)[j].strike
    decreases |ms|
  {
    if ms != [] {
      var init, k := ms[..|ms| - 1], ms[|ms| - 1];
      EvaluateAlerts(t, strikes, init, cfg);
      assert ms == init + [k];
      var before := Evaluate(t, strikes, init, cfg);
      var all := Evaluate(t, strikes, ms, cfg);
      forall a | a in all ensures a.strike in ms && Refreshed(strikes, a.strike) && AlertsAt(t, strikes, a.strike, cfg) == [a] {
        if a !in before { AlertNamesStrike(t, strikes, k, cfg); }
      }
      forall a: Alert | a.strike in ms && Refreshed(strikes, a.strike) && AlertsAt(t, strikes, a.strike, cfg) == [a]
        ensures a in all
      {
        if a.strike != k { assert a.strike in init; }
      }
      if StrictlyIncreasing(ms) && Refreshed(strikes, k) && |AlertsAt(t, strikes, k, cfg)| == 1 {
        AlertNamesStrike(t, strikes, k, cfg);
        forall i | 0 <= i < |before| ensures before[i].strike < k {
          assert before[i] in before;
          var p :| 0 <= p < |init| && init[p] == before[i].strike;
        }
      }
    }
  }

  /**
   * The rule over a whole window: a strike of the window with a quote alerts
   * in the reference reading iff one of its legs rose by the change threshold
   * from a stored value and its current legs are positive and imbalanced by
   * the ratio threshold.
   */
  lemma WindowAlertRule(t: Table, strikes: map<int, Quote>, ms: seq<int>, cfg: Config, k: int)
    requires NonNegativeTable(t) && k in ms && k in strikes
    ensures (exists a :: a in Evaluate(t, strikes, ms, cfg) && a.strike == k) <==>
              var ce, pe := CurrentOi(strikes[k], CE), CurrentOi(strikes[k], PE);
              && (JumpsBy(Lookup(t, k, CE), ce, cfg.changeThreshold) || JumpsBy(Lookup(t, k, PE), pe, cfg.changeThreshold))
              && ImbalancedBy(ce, pe, cfg.ratioThreshold)
  {
    var ce, pe := CurrentOi(strikes[k], CE), CurrentOi(strikes[k], PE);
    AlertRule(k, ce, pe, Lookup(t, k, CE), Lookup(t, k, PE), cfg);
    EvaluateAlerts(t, strikes, ms, cfg);
    var found := AlertAt(k, ce, pe, Lookup(t, k, CE), Lookup(t, k, PE), cfg);
    if found.Some? {
      assert Refreshed(strikes, k);
      assert found.value in Evaluate(t, strikes, ms, cfg);
    }
  }

  /** The alert a strike raises names that strike. */
  lemma AlertNamesStrike(t: Table, strikes: map<int, Quote>, k: int, cfg: Config)
    requires k in strikes
    ensures forall a :: a in AlertsAt(t, strikes, k, cfg) ==> a.strike == k
  {
  }

  /** Stored open interest is never negative. */
  predicate NonNegativeTable(t: Table) {
    forall key :: key in t ==> t[key] >= 0
  }

  /** Open interest reported by the exchange is never negative. */
  predicate NonNegativeQuotes(strikes: map<int, Quote>) {
    forall k, side :: k in strikes ==> CurrentOi(strikes[k], side) >= 0
  }

  /** A scan over non-negative quotes keeps the table non-negative, so the rule of `Rules.AlertRule` applies in every cycle. */
  lemma {:induction false} ScanKeepsNonNegative(c: Cycle, strikes: map<int, Quote>, ms: seq<int>, cfg: Config)
    requires NonNegativeTable(c.table) && NonNegativeQuotes(strikes)
    ensures NonNegativeTable(Scan(c, strikes, ms, cfg).table)
    decreases |ms|
  {
    if ms != [] {
      ScanKeepsNonNegative(c, strikes, ms[..|ms| - 1], cfg);
    }
  }

  // ---------------------------------------------------------------------------
  // The monitor: the table in place, and the methods that change it
  // ---------------------------------------------------------------------------

  /** How one pass of `main_loop` ends. */
  datatype Outcome =
    | OutsideHours
    | NoData
    | NoSpot
    | NoStrikes
    | Checked(spot: real, atm: int, step: Option<int>, alerts: seq<Alert>)

  class OiMonitor {
    const config: Config
    var table: Table

    /** The monitor as it starts: `init_db` keeps whatever rows the database already holds. */
    constructor(config: Config, stored: Table)
      ensures this.config == config && table == stored
    {
      this.config := config;
      table := stored;
    }

    /** `get_previous_oi`. */
    function PreviousOi(strike: int, side: Side): Option<int>
      reads this
    {
      Lookup(table, strike, side)
    }

    /** `set_previous_oi`: insert or overwrite one row. */
    method SetPreviousOi(strike: int, side: Side, oi: int)
      modifies this
      ensures table == old(table)[(strike, side) := oi]
    {
      table := table[(strike, side) := oi];
    }

    /** `check_alerts`: judge every monitored strike against the stored values, then store the current ones. */
    method CheckAlerts(strikes: map<int, Quote>, atm: int, step: Option<int>) returns (alerts: seq<Alert>)
      modifies this
      ensures step.None? ==> alerts == [] && table == old(table)
      ensures step.Some? ==>
        Cycle(table, alerts) == Scan(Cycle(old(table), []), strikes, Monitored(atm, step.value, config.strikeRange), config)
      ensures step.Some? && step.value > 0 ==>
        alerts == Evaluate(old(table), strikes, Monitored(atm, step.value, config.strikeRange), config)
      ensures step.Some? ==>
        forall k, side ::
          Lookup(table, k, side) ==
            if k in Monitored(atm, step.value, config.strikeRange) && Refreshed(strikes, k)
            then Some(CurrentOi(strikes[k], side)) else Lookup(old(table), k, side)
    {
      alerts := [];
      if step.None? {
        return;
      }
      var ms := Monitored(atm, step.value, config.strikeRange);
      for i := 0 to |ms|
        invariant Cycle(table, alerts) == Scan(Cycle(old(table), []), strikes, ms[..i], config)
      {
        assert ms[..i + 1][..i] == ms[..i];
        var strike := ms[i];
        if strike !in strikes {
          continue;
        }
        var ceOi := CurrentOi(strikes[strike], CE);
        var peOi := CurrentOi(strikes[strike], PE);
        if ceOi == 0 && peOi == 0 {
          continue;
        }
        var cePrev := PreviousOi(strike, CE);
        var pePrev := PreviousOi(strike, PE);
        var ceChange := PercentChange(cePrev, ceOi);
        var peChange := PercentChange(pePrev, peOi);
        var ceTrigger := Meets(ceChange, config.changeThreshold);
        var peTrigger := Meets(peChange, config.changeThreshold);
        var ratioOk := RatioOk(ceOi, peOi, config.ratioThreshold);
        if (ceTrigger || peTrigger) && ratioOk {
          var side, prevOi, change;
          if ceTrigger {
            side, prevOi, change := CE, cePrev.value, ceChange;
          } else {
            side, prevOi, change := PE, pePrev.value, peChange;
          }
          alerts := alerts + [Alert(strike, side, ceOi, peOi, prevOi, change)];
        }
        SetPreviousOi(strike, CE, ceOi);
        SetPreviousOi(strike, PE, peOi);
      }
      assert ms[..|ms|] == ms;
      var final := Scan(Cycle(old(table), []), strikes, ms, config);
      assert table == final.table;
      forall k, side
        ensures Lookup(table, k, side) ==
                  if k in ms && Refreshed(strikes, k) then Some(CurrentOi(strikes[k], side)) else Lookup(old(table), k, side)
      {
        ScanTable(Cycle(old(table), []), strikes, ms, config, k, side);
      }
      if step.value > 0 {
        MonitoredAscending(atm, step.value, config.strikeRange);
        ScanAlerts(Cycle(old(table), []), strikes, ms, config);
      }
    }

    /**
     * One pass of `main_loop` at the UTC instant `utc`, given what the fetch
     * returned (None for a failed or empty fetch): the guards in order, then
     * the strike map, the ascending strikes, the ATM strike and `check_alerts`.
     */
    method RunCycle(utc: int, data: Option<Document>) returns (outcome: Outcome)
      modifies this
      ensures !Market.IsMarketHoursIst(utc) ==> outcome == OutsideHours
      ensures Market.IsMarketHoursIst(utc) && data.None? ==> outcome == NoData
      ensures Market.IsMarketHoursIst(utc) && data.Some? && data.value.spot.None? ==> outcome == NoSpot
      ensures Market.IsMarketHoursIst(utc) && data.Some? && data.value.spot.Some? && StrikeMap(data.value.entries) == map[] ==>
                outcome == NoStrikes
      ensures Market.IsMarketHoursIst(utc) && data.Some? && data.value.spot.Some? && StrikeMap(data.value.entries) != map[] ==>
                outcome.Checked?
      ensures !outcome.Checked? ==> table == old(table)
      ensures outcome.Checked? ==>
        && Market.IsMarketHoursIst(utc) && data.Some? && data.value.spot == Some(outcome.spot)
        && StrikeMap(data.value.entries) != map[]
        && outcome.atm == FindAtmStrike(outcome.spot, SetToSorted(StrikeMap(data.value.entries).Keys))
        && outcome.step == StrikeStep(data.value.entries)
        && (outcome.step.None? ==> outcome.alerts == [] && table == old(table))
        && (outcome.step.Some? ==>
              Cycle(table, outcome.alerts) ==
              Scan(Cycle(old(table), []), StrikeMap(data.value.entries),
                   Monitored(outcome.atm, outcome.step.value, config.strikeRange), config))
    {
      if !Market.IsMarketHoursIst(utc) {
        return OutsideHours;
      }
      if data.None? {
        return NoData;
      }
      var doc := data.value;
      var step := StrikeStep(doc.entries);
      if doc.spot.None? {
        return NoSpot;
      }
      var spot := doc.spot.value;
      var strikes := BuildStrikeMap(doc.entries);
      var allStrikes := SetToSorted(strikes.Keys);
      if |allStrikes| == 0 {
        assert strikes.Keys == {};
        return NoStrikes;
      }
      var atm := FindAtmStrike(spot, allStrikes);
      var alerts := CheckAlerts(strikes, atm, step);
      outcome := Checked(spot, atm, step, alerts);
    }
  }

  /** The step of any document is positive, so a checked cycle's alerts are those of the reference reading. */
  lemma StepIsPositive(entries: seq<Entry>)
    ensures StrikeStep(entries).Some? ==> StrikeStep(entries).value > 0
  {
    var lo, hi := StrikeStepSpec(entries);
  }
}
