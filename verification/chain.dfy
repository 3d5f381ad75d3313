/**
 * Chain normalisation: the strike step and the strike map derived from one
 * option-chain document (`get_spot_price_and_step`, `build_strike_map`).
 */
module Chain {
  import opened Wrappers
  import Selection
  import opened Sorting

  /**
   * One row of `records.data`: its `strikePrice` (absent when the key is
   * missing) and the `openInterest` of its CE and PE legs (absent when the leg
   * or its `openInterest` is missing).
   */
  datatype Entry = Entry(strikePrice: Option<int>, ceOi: Option<int>, peOi: Option<int>)

  /** The fetched document: `records.underlyingValue` and `records.data`. */
  datatype Document = Document(spot: Option<real>, entries: seq<Entry>)

  /** The two legs of a strike: call (CE) and put (PE). */
  datatype Side = CE | PE

  /** What the strike map holds per strike: the open interest of each leg that was reported. */
  datatype Quote = Quote(ce: Option<int>, pe: Option<int>)

  function EntrySide(e: Entry, side: Side): Option<int> {
    if side == CE then e.ceOi else e.peOi
  }

  function QuoteSide(q: Quote, side: Side): Option<int> {
    if side == CE then q.ce else q.pe
  }

  // ---------------------------------------------------------------------------
  // Strike step (get_spot_price_and_step)
  // ---------------------------------------------------------------------------

  /** The strike prices of the entries that carry one, in document order. */
  function StrikesOf(entries: seq<Entry>): (ks: seq<int>)
    ensures |ks| <= |entries|
    ensures forall k :: k in ks <==> exists i :: 0 <= i < |entries| && entries[i].strikePrice == Some(k)
    decreases |entries|
  {
    if entries == [] then []
    else
      var rest := StrikesOf(entries[..|entries| - 1]);
      match entries[|entries| - 1].strikePrice
      case Some(k) => rest + [k]
      case None => rest
  }

  /** Differences between neighbours: `[j - i for i, j in zip(s[:-1], s[1:])]`. */
  function Gaps(s: seq<int>): (g: seq<int>)
    ensures |g| == if |s| < 2 then 0 else |s| - 1
    ensures forall i :: 0 <= i < |g| ==> s[i] + g[i] == s[i + 1]
    ensures StrictlyIncreasing(s) ==> forall i :: 0 <= i < |g| ==> g[i] > 0
  {
    if |s| < 2 then [] else seq(|s| - 1, i requires 0 <= i < |s| - 1 => s[i + 1] - s[i])
  }

  /** A gap as the key Python's `min` compares. */
  function GapKey(g: int): real { g as real }

  /** The least gap between neighbours of an ascending list, if it has two elements. */
  function LeastGapOf(sorted: seq<int>): (g: Option<int>)
    ensures g.Some? <==> |sorted| >= 2
  {
    var gaps := Gaps(sorted);
    if gaps == [] then None else Some(gaps[Selection.FirstMinIndex(gaps, GapKey)])
  }

  /** The distinct strike prices the entries carry: `set(strike_prices)`. */
  function StrikeSet(entries: seq<Entry>): (strikes: set<int>)
    ensures forall k :: k in strikes <==> k in StrikesOf(entries)
  {
    set k | k in StrikesOf(entries)
  }

  /**
   * The strike step: the least gap between consecutive distinct strikes, or
   * None when fewer than two entries carry a strike or all of them carry the same one.
   */
  function StrikeStep(entries: seq<Entry>): Option<int> {
    if |StrikesOf(entries)| >= 2 then LeastGapOf(SetToSorted(StrikeSet(entries))) else None
  }

  /** Where the least gap of an ascending list sits, and that no two elements are closer. */
  lemma LeastGapAt(sorted: seq<int>) returns (i: nat)
    requires StrictlyIncreasing(sorted) && |sorted| >= 2
    ensures i + 1 < |sorted| && LeastGapOf(sorted) == Some(sorted[i + 1] - sorted[i])
    ensures sorted[i] < sorted[i + 1]
    ensures forall c :: c in sorted ==> !(sorted[i] < c < sorted[i + 1])
    ensures forall a, b :: a in sorted && b in sorted && a < b ==> sorted[i + 1] - sorted[i] <= b - a
  {
    var gaps := Gaps(sorted);
    i := Selection.FirstMinIndex(gaps, GapKey);
    forall c | c in sorted
      ensures !(sorted[i] < c < sorted[i + 1])
    {
      var j :| 0 <= j < |sorted| && sorted[j] == c;
      IndexOrder(sorted, i, j);
      IndexOrder(sorted, i + 1, j);
    }
    forall a, b | a in sorted && b in sorted && a < b
      ensures gaps[i] <= b - a
    {
      var p :| 0 <= p < |sorted| && sorted[p] == a;
      var q :| 0 <= q < |sorted| && sorted[q] == b;
      IndexOrder(sorted, p, q);
      assert GapKey(gaps[i]) <= GapKey(gaps[p]);
      IndexOrder(sorted, p + 1, q);
    }
  }

  /** With fewer than two elements in an ascending list, all its elements are equal. */
  lemma ShortSortedAllEqual(sorted: seq<int>)
    requires |sorted| < 2
    ensures forall a, b :: a in sorted && b in sorted ==> a == b
  {
  }

  /**
   * The step is None exactly when the entries carry at most one distinct strike;
   * otherwise it is positive, is the gap between two neighbouring strikes `lo`
   * and `hi`, and no two distinct strikes are closer.
   */
  lemma StrikeStepSpec(entries: seq<Entry>) returns (lo: int, hi: int)
    ensures StrikeStep(entries).None? <==> forall a, b :: a in StrikeSet(entries) && b in StrikeSet(entries) ==> a == b
    ensures StrikeStep(entries).Some? ==>
      && lo in StrikeSet(entries) && hi in StrikeSet(entries)
      && StrikeStep(entries).value == hi - lo > 0
      && (forall c :: c in StrikeSet(entries) ==> !(lo < c < hi))
      && (forall a, b :: a in StrikeSet(entries) && b in StrikeSet(entries) && a < b ==> hi - lo <= b - a)
  {
    var ks, strikes := StrikesOf(entries), StrikeSet(entries);
    lo, hi := 0, 0;
    if |ks| >= 2 {
      var sorted := SetToSorted(strikes);
      if |sorted| >= 2 {
        var i := LeastGapAt(sorted);
        lo, hi := sorted[i], sorted[i + 1];
      } else {
        ShortSortedAllEqual(sorted);
      }
    } else {
      ShortSortedAllEqual(ks);
    }
  }

  // ---------------------------------------------------------------------------
  // Strike map (build_strike_map)
  // ---------------------------------------------------------------------------

  /** Whether an entry contributes to the strike map under strike `k`. */
  predicate Carries(e: Entry, k: int) {
    e.strikePrice == Some(k) && (e.ceOi.Some? || e.peOi.Some?)
  }

  /** One step of the loop: `setdefault`, then overwrite the legs this entry reports. */
  function Merge(m: map<int, Quote>, e: Entry): map<int, Quote> {
    match e.strikePrice
    case None => m
    case Some(k) =>
      if e.ceOi.None? && e.peOi.None? then m
      else
        var q := if k in m then m[k] else Quote(None, None);
        m[k := Quote(if e.ceOi.Some? then e.ceOi else q.ce, if e.peOi.Some? then e.peOi else q.pe)]
  }

  /** The strike map of a list of entries, merged in document order. */
  function StrikeMap(entries: seq<Entry>): map<int, Quote>
    decreases |entries|
  {
    if entries == [] then map[]
    else Merge(StrikeMap(entries[..|entries| - 1]), entries[|entries| - 1])
  }

  lemma {:induction false} StrikeMapKeys(entries: seq<Entry>, k: int)
    ensures k in StrikeMap(entries) <==> exists i :: 0 <= i < |entries| && Carries(entries[i], k)
    decreases |entries|
  {
    if entries != [] {
      var init := entries[..|entries| - 1];
      StrikeMapKeys(init, k);
      forall i | 0 <= i < |init| ensures init[i] == entries[i] { }
    }
  }

  lemma {:induction false} StrikeMapLastWriter(entries: seq<Entry>, k: int, side: Side)
    requires k in StrikeMap(entries)
    ensures QuoteSide(StrikeMap(entries)[k], side).None? <==>
              forall i :: 0 <= i < |entries| && entries[i].strikePrice == Some(k) ==> EntrySide(entries[i], side).None?
    ensures QuoteSide(StrikeMap(entries)[k], side).Some? ==>
              exists i :: 0 <= i < |entries| && entries[i].strikePrice == Some(k)
                && EntrySide(entries[i], side) == QuoteSide(StrikeMap(entries)[k], side)
                && forall j :: i < j < |entries| && entries[j].strikePrice == Some(k) ==> EntrySide(entries[j], side).None?
    decreases |entries|
  {
    var n := |entries|;
    var init := entries[..n - 1];
    var last := entries[n - 1];
    assert forall i :: 0 <= i < n - 1 ==> init[i] == entries[i];
    var v := QuoteSide(StrikeMap(entries)[k], side);
    if k in StrikeMap(init) {
      StrikeMapLastWriter(init, k, side);
      if Carries(last, k) && EntrySide(last, side).Some? {
        assert v == EntrySide(last, side);
      } else {
        assert v == QuoteSide(StrikeMap(init)[k], side);
        if v.Some? {
          var i :| 0 <= i < n - 1 && init[i].strikePrice == Some(k)
            && EntrySide(init[i], side) == v
            && forall j :: i < j < n - 1 && init[j].strikePrice == Some(k) ==> EntrySide(init[j], side).None?;
          assert EntrySide(entries[i], side) == v;
        }
      }
    } else {
      StrikeMapKeys(init, k);
      assert Carries(last, k);
      assert v == EntrySide(last, side);
      forall i | 0 <= i < n - 1 && entries[i].strikePrice == Some(k)
        ensures EntrySide(entries[i], side).None?
      {
        assert !Carries(init[i], k);
      }
    }
  }

  /** `build_strike_map`: fills the map entry by entry. */
  method BuildStrikeMap(entries: seq<Entry>) returns (strikes: map<int, Quote>)
    ensures strikes == StrikeMap(entries)
  {
    strikes := map[];
    for i := 0 to |entries|
      invariant strikes == StrikeMap(entries[..i])
    {
      assert entries[..i + 1][..i] == entries[..i];
      var item := entries[i];
      if item.strikePrice.None? {
        continue;
      }
      var strike := item.strikePrice.value;
      if item.ceOi.Some? || item.peOi.Some? {
        if strike !in strikes {
          strikes := strikes[strike := Quote(None, None)];
        }
        if item.ceOi.Some? {
          strikes := strikes[strike := strikes[strike].(ce := item.ceOi)];
        }
        if item.peOi.Some? {
          strikes := strikes[strike := strikes[strike].(pe := item.peOi)];
        }
      }
    }
    assert entries[..|entries|] == entries;
  }
}
