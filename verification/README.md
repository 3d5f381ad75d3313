# NIFTY open-interest monitor: a verified model

This project models the core of a small monitor for options on the NIFTY
index. Once a minute during trading hours, the monitor:

- fetches the option chain;
- normalises it into a strike step and a map from each strike to the open
  interest (OI) of its call (CE) and put (PE) legs;
- picks the at-the-money (ATM) strike;
- for every strike within `STRIKE_RANGE` steps of ATM, compares the current OI
  with the value last stored for that strike and leg;
- raises an alert when a leg jumped by at least the change threshold and the
  two legs are imbalanced by at least the ratio threshold;
- stores the current values of the strikes it examined.

A helper script picks the current weekly expiry from the list the exchange
publishes.

Modules:

- `Wrappers`: `Option`.
- `Selection`: Python's `min`/`max` with a key (first element wins ties).
- `Sorting`: `sorted(set(...))` over integers.
- `Chain`: `get_spot_price_and_step`, `build_strike_map`.
- `Rules`: `find_atm_strike`, `percent_change`, the ratio test, the compound
  trigger and the alert record.
- `Market`: `is_market_hours_ist`.
- `Monitor`: the `oi_data` table, `check_alerts`, and one pass of `main_loop`.
  The class `OiMonitor` holds the table as a mutable map field. `CheckAlerts`
  is a loop proved against the fold `Scan`. A separate reference reading,
  `Evaluate`, judges every strike against the table as it was before the cycle.
- `Expiry`: `choose_current_expiry_from_data`.

Numbers:

- OI, strikes and gaps are unbounded integers.
- Spot, percent change, ratio and thresholds are exact reals.
- `inf` is a separate constructor of `Change`.
- The current instant is a parameter: microseconds since the Unix epoch, in UTC.
- Dates are day numbers, and `strptime` is a parameter `parse` that may fail.

How the code compares and what it stores:

- Each cycle compares against the value last stored for that strike and
  leg. That value was written by the most recent cycle that examined the
  strike, which may be cycles, days or process runs earlier, since the table
  persists. Rows of strikes outside the window, missing from the map, or with
  both legs 0 are left as they were. There is no once-a-day baseline and no
  capture window.
- The percent change is signed, `(curr - prev) / prev * 100`, not absolute.
  A fall never meets a positive threshold.
- `percent_change` returns `inf` whenever the stored value is 0, including
  when the current value is also 0.

Behaviour of the code that the model keeps:

- `check_alerts` reads a missing leg as 0. Its `is not None` guards on the
  update are therefore always true. Both legs of every examined strike are
  stored, a missing leg as 0. The next cycle then sees an infinite change on
  that leg if it reappears (`Monitor.OiMonitor.CheckAlerts`, last ensures).
- A strike is examined when it is in the strike map and its two legs are not
  both 0. Only strikes in the monitored window are touched. Because the step
  is always positive (`Monitor.StepIsPositive`), no strike repeats within a
  window. So the alerts of a cycle are exactly those judged against the
  previous cycle's table (`Monitor.ScanAlerts`).
- The strike step counts every entry with a `strikePrice`, including entries
  with no OI. The strike map keeps only entries that report at least one leg.
  A later entry for a strike overwrites only the legs it reports.
- `main_loop` treats a failed fetch and an empty document the same way
  (`if not data`). The model's `None` document stands for both. A document
  without `records` has no spot, so its cycle ends with `NoSpot`.
- `spot` appears in the alert text only. The ATM strike fixes the centre of
  the monitored window. So `CheckAlerts` takes the strike map, the ATM strike
  and the step, and not `spot`.

## Model

| member | source | states |
|---|---|---|
| Chain.StrikesOf | nifty_oi_monitor.py:210 | a value is collected iff some entry carries it as `strikePrice`; at most one per entry |
| Chain.Gaps | nifty_oi_monitor.py:214-215 | one gap per neighbouring pair, each the distance from one neighbour to the next; over a strictly ascending list (the sorted distinct strikes) every gap is positive |
| Sorting.SetToSorted | nifty_oi_monitor.py:214 | the result is strictly ascending, has as many elements as the set, and holds exactly its members |
| Chain.LeastGapAt | nifty_oi_monitor.py:213-216 | in an ascending list the least gap lies between two neighbours with nothing in between, and no two elements are closer |
| Chain.LeastGapOf | nifty_oi_monitor.py:215-216 | a least gap exists iff the list has at least two elements; `Chain.LeastGapAt` states where it lies and that it is least |
| Chain.StrikeStep | nifty_oi_monitor.py:207-218 | the step of `get_spot_price_and_step`; its contract is `Chain.StrikeStepSpec` |
| Chain.StrikeStepSpec | nifty_oi_monitor.py:207-218 | the step is None iff the entries carry at most one distinct strike; otherwise it is positive, it is the gap between two neighbouring distinct strikes, and no two distinct strikes are closer |
| Monitor.StepIsPositive | nifty_oi_monitor.py:212-216 | a step that exists is positive |
| Chain.Merge | nifty_oi_monitor.py:229-244 | one entry of the `build_strike_map` loop: `setdefault`, then overwrite the reported legs; `Chain.StrikeMapLastWriter` states the result |
| Chain.StrikeMap | nifty_oi_monitor.py:221-246 | the strike map of the entries in document order; its contract is `Chain.StrikeMapKeys` and `Chain.StrikeMapLastWriter` |
| Chain.StrikeMapKeys | nifty_oi_monitor.py:229-244 | a strike is a key of the map iff some entry has that `strikePrice` and reports at least one leg |
| Chain.StrikeMapLastWriter | nifty_oi_monitor.py:237-244 | a leg of a key is absent iff no entry for that strike reports it; otherwise it holds the value of an entry for that strike, and no later entry for that strike reports that leg |
| Chain.BuildStrikeMap | nifty_oi_monitor.py:221-246 | the `setdefault` loop builds exactly the map `StrikeMap` describes |
| Selection.FirstMinIndex | nifty_oi_monitor.py:250 | `min` with a key returns an element whose key is least, and every earlier element has a strictly greater key |
| Selection.FirstMaxIndex | test_expiry_helper.py:31 | `max` with a key returns an element whose key is greatest, and every earlier element has a strictly smaller key |
| Rules.FindAtmStrike | nifty_oi_monitor.py:249-250 | the ATM strike is one of the strikes, no strike is nearer to spot, and every strike listed before its first occurrence is strictly farther |
| Rules.AtmTieGoesLower | nifty_oi_monitor.py:249-250 | over ascending strikes, a strike as near as the ATM strike is not below it: ties go to the lower strike |
| Rules.AtmExample | nifty_oi_monitor.py:249-250 | spot 24865 over 24800..24950 gives 24850 |
| Rules.PercentChange | nifty_oi_monitor.py:253-258 | None iff nothing is stored; infinite iff 0 is stored; otherwise the change times the stored value equals 100 times the difference |
| Rules.Meets | nifty_oi_monitor.py:292-293 | the per-leg trigger test; `Rules.MeetsIffJumps` states it without division |
| Rules.MeetsIffJumps | nifty_oi_monitor.py:289-293 | for a non-negative stored value, a leg triggers iff a value is stored and either it is 0 or the rise is at least the threshold percent of it |
| Rules.DecreaseNeverMeets | nifty_oi_monitor.py:258 | from a positive stored value, a fall or no change is a non-positive percent and never meets a positive threshold |
| Rules.CurrentOi | nifty_oi_monitor.py:279-280 | a missing leg reads as 0; `Monitor.ScanTable` states that it is what is stored |
| Rules.RatioOk | nifty_oi_monitor.py:298-306 | the ratio test; `Rules.RatioIffImbalanced` states it without division |
| Rules.RatioIffImbalanced | nifty_oi_monitor.py:298-306 | the ratio test holds iff both legs are positive and the larger is at least the threshold times the smaller |
| Rules.TriggerSide | nifty_oi_monitor.py:289-315 | the side the alert is attributed to, or none; `Rules.AlertRule` states when it exists and which side it is |
| Rules.AlertAt | nifty_oi_monitor.py:289-317 | the alert one strike raises; its contract is `Rules.AlertRule` |
| Rules.AlertRule | nifty_oi_monitor.py:289-317 | a strike alerts iff some leg jumped by the threshold from a stored value and both current legs are positive and imbalanced by the ratio; the alert names the strike and both legs; its side is CE whenever CE jumped, else PE; it carries that side's stored value and change |
| Rules.NoPreviousNeverTriggers | nifty_oi_monitor.py:289-293 | the side of an alert always has a stored value; with nothing stored on either side there is no alert |
| Rules.ZeroLegNeverAlerts | nifty_oi_monitor.py:298-301 | a strike whose CE or PE OI is not positive never alerts, even on an infinite change |
| Rules.DefaultThresholdExample | nifty_oi_monitor.py:23-24 | at 400% and 2x: CE 100 to 600 with PE 500 to 200 alerts on CE with a 500% change |
| Market.ClockAt | nifty_oi_monitor.py:82-86 | the weekday is in 0..6 and the time of day is within one day |
| Market.InSession | nifty_oi_monitor.py:85-93 | the IST wall-clock test: a weekday and a time from 09:15 to 15:30 inclusive; `Market.SessionBoundaries` states its ends |
| Market.IsMarketHoursIst | nifty_oi_monitor.py:77-93 | the gate at a UTC instant, read on the IST clock; `Market.SessionInUtc` states it in UTC terms and `Market.WeeklyRepeat` its period |
| Market.SessionInUtc | nifty_oi_monitor.py:77-93 | in market hours iff the UTC weekday is Monday to Friday and the UTC time is 03:45 to 10:00, both ends inclusive |
| Market.WeeklyRepeat | nifty_oi_monitor.py:82-87 | the IST wall clock, and so the gate, repeats every seven days |
| Market.SessionBoundaries | nifty_oi_monitor.py:85-93 | 09:15 and 15:30 are in session exactly on weekdays; one microsecond outside either end never is |
| Market.MondayAndSaturday | nifty_oi_monitor.py:77-93 | 03:45 UTC on Monday 2024-01-01 is Monday 09:15 IST, in session; the same time on the Saturday is not |
| Monitor.Lookup | nifty_oi_monitor.py:116-125 | the stored value of a row, or none; `Monitor.StoreThenLookup` states how it reads back an upsert |
| Monitor.OiMonitor.PreviousOi | nifty_oi_monitor.py:116-125 | `get_previous_oi` on the monitor's table, through `Monitor.Lookup` |
| Monitor.StoreThenLookup | nifty_oi_monitor.py:116-139 | reading a row back after an upsert gives the stored value; every other row is unchanged |
| Monitor.OiMonitor.constructor | nifty_oi_monitor.py:100-113 | the monitor starts with the rows already in the table |
| Monitor.OiMonitor.SetPreviousOi | nifty_oi_monitor.py:128-139 | the table gains or overwrites exactly one row |
| Monitor.Monitored | nifty_oi_monitor.py:270-273 | the window has 2*range+1 strikes (none for a negative range), with ATM at its centre |
| Monitor.MonitoredSpacing | nifty_oi_monitor.py:270-273 | neighbouring strikes in the window are one step apart |
| Monitor.MonitoredAscending | nifty_oi_monitor.py:270-273 | with a positive step the window is strictly ascending |
| Monitor.MonitoredMembers | nifty_oi_monitor.py:270-273 | the window holds exactly the strikes atm + i*step for -range <= i <= range |
| Monitor.Refreshed | nifty_oi_monitor.py:276-283 | a strike is examined iff it is in the strike map and its legs are not both 0 |
| Monitor.Visit | nifty_oi_monitor.py:276-354 | one loop pass of `check_alerts` adds at most one alert; `Monitor.ScanTable` and `Monitor.ScanAlerts` state what it stores and raises |
| Monitor.Scan | nifty_oi_monitor.py:275-354 | the loop of `check_alerts` over the window; `Monitor.ScanTable`, `Monitor.ScanAlerts` and `Monitor.ScanKeepsRows` state what it does |
| Monitor.Evaluate | nifty_oi_monitor.py:275-317 | at most one alert per window strike; `Monitor.EvaluateAlerts` and `Monitor.WindowAlertRule` state which |
| Monitor.ScanTable | nifty_oi_monitor.py:350-354 | after a scan, an examined strike stores its current legs (a missing leg as 0); every other row keeps its value |
| Monitor.ScanKeepsRows | nifty_oi_monitor.py:350-354 | a scan never removes a row |
| Monitor.ScanKeepsNonNegative | nifty_oi_monitor.py:350-354 | with non-negative quotes, a non-negative table stays non-negative |
| Monitor.ScanAlerts | nifty_oi_monitor.py:275-317 | when no strike repeats, a scan's alerts are exactly the reference reading against the table from before the cycle |
| Monitor.EvaluateAlerts | nifty_oi_monitor.py:275-317 | an alert is in the reading iff its strike is in the window, is examined, and raises exactly it; at most one per strike; strikes ascend with the window |
| Monitor.WindowAlertRule | nifty_oi_monitor.py:275-317 | a window strike with a quote alerts iff one of its legs jumped by the threshold from a stored value and both legs are positive and imbalanced by the ratio |
| Monitor.OiMonitor.CheckAlerts | nifty_oi_monitor.py:265-354 | no step: no alerts and the table is unchanged; otherwise the table and alerts are those of `Scan`, the alerts equal the reference reading, and every row is either the current leg of an examined window strike or unchanged |
| Monitor.OiMonitor.RunCycle | nifty_oi_monitor.py:362-389 | the guards in order: outside hours, no data, no spot, no strikes each end the pass with the table unchanged; a pass in hours with a document, a spot and a non-empty strike map always reaches `check_alerts`; then the ATM strike is taken over the sorted strike-map keys, the step is the chain's, and the table and alerts are those of `CheckAlerts` |
| Expiry.Parsed | test_expiry_helper.py:16-23 | every parsed pair holds the date its label parses to, every listed label that parses is in the list, and the list is no longer than the input |
| Expiry.ParsedFromList | test_expiry_helper.py:16-23 | every parsed pair's label is one of the listed labels |
| Expiry.Future | test_expiry_helper.py:28 | a pair is kept iff it is dated today or later |
| Expiry.CurrentExpiry | test_expiry_helper.py:4-38 | the rule the helper implements; its contract is the `Expiry` lemmas below |
| Expiry.ChooseCurrentExpiry | test_expiry_helper.py:4-38 | the parse loop and the choice return what `CurrentExpiry` describes |
| Expiry.NoneIffNothingParses | test_expiry_helper.py:8-26 | there is no choice iff the list is missing, empty, or has no label that parses |
| Expiry.ChoiceIsListed | test_expiry_helper.py:17-38 | any choice is a listed label that parses |
| Expiry.EarliestOrigin | test_expiry_helper.py:35-36 | the first future pair of least date comes from a label before which every upcoming label is strictly later |
| Expiry.EarliestUpcoming | test_expiry_helper.py:28-38 | when a label is upcoming, the choice is upcoming, no upcoming label is earlier, and every upcoming label listed before it is strictly later |
| Expiry.TodayCounts | test_expiry_helper.py:28 | if a label is dated today, the choice is dated today |
| Expiry.LatestOrigin | test_expiry_helper.py:30-33 | the first latest parsed pair comes from a label before which every parsed label is strictly earlier |
| Expiry.FallbackChoice | test_expiry_helper.py:30-33 | with parsed pairs but none in the future, the choice is the label of the first pair of greatest date |
| Expiry.LatestFallback | test_expiry_helper.py:30-33 | when labels parse but none is upcoming, the choice is in the past, no parsed label is later, and every parsed label listed before it is strictly earlier |
| Expiry.ParsedOfParseable | test_expiry_helper.py:16-23 | dropping the labels that do not parse leaves the parsed list unchanged |
| Expiry.UnparsableIgnored | test_expiry_helper.py:16-26 | labels that fail to parse never influence the choice |

## Left out

- HTTP fetching, the session and its headers (`fetch_option_chain`): network I/O. The fetched document is a parameter, `None` for a failed fetch.
- Email and WhatsApp delivery, `notify_alert` and the Twilio client: external services. An alert is returned as a record.
- The alert text (`:.2f` formatting, thousands separators, timestamps, the absolute difference and the larger side): presentation only. The record carries strike, side, both legs, the stored value and the change.
- SQLite connections and the `last_updated` column: the table is an in-memory map with the same lookup and upsert meaning.
- Reading the configuration from the environment: thresholds and range are a `Config` value. `Rules.DefaultConfig` holds the defaults.
- The endless `while True` loop and `time.sleep`: `Monitor.OiMonitor.RunCycle` models one pass.
- The system clock: `Market.IsMarketHoursIst` takes the UTC instant as a parameter.
- `strptime`: `Expiry` takes `parse` as a parameter.
- Floating point: OI is an integer, the rest exact reals. Float rounding in the percent and ratio tests is not modelled.
- JSON values of unexpected types are not modelled. Examples: a `null` or non-integer `strikePrice`, a non-numeric `openInterest`, or a non-list `expiryDates`.
- Expiry.ChooseCurrentExpiry: models `future.sort(key=...)` followed by `future[0]` as picking the first element of least date. This is what a stable sort puts first. The in-place sort is not modelled.
- Expiry.ChooseCurrentExpiry: the expiry labels are of a generic type. The rule only compares them and hands them to `parse`, so nothing of the strings themselves is modelled.
- The expiry helper's own fetching and its command-line entry point: network I/O.
