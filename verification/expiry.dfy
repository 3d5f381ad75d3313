/**
 * The weekly-expiry choice (`choose_current_expiry_from_data`): among the
 * expiry labels the exchange lists, the earliest one dated today or later,
 * otherwise the latest one. Dates are day numbers. The labels are strings in
 * the source; here they are of any type `S`, because the rule only compares
 * them for equality and reads them through `parse`, the stand-in for
 * `strptime(s, "%d-%b-%Y")`, a partial parser from labels to dates.
 */
module Expiry {
  import opened Wrappers
  import Selection

  /** A calendar date as a day number; later dates are larger. */
  type Date = int

  /** A parsed entry, `(d, s)`: the date and the S it was parsed from. */
  type Dated<S> = (Date, S)

  /** The key both `max(parsed, key=...)` and `future.sort(key=...)` compare: the date. */
  function DateKey<S(==,!new)>(p: Dated<S>): real { p.0 as real }

  /** What the parse loop appends to `parsed`: every entry that parses, in input order. */
  function Parsed<S(==,!new)>(xs: seq<S>, parse: S -> Option<Date>): (ps: seq<Dated<S>>)
    ensures |ps| <= |xs|
    ensures forall p :: p in ps ==> parse(p.1) == Some(p.0)
    ensures forall i :: 0 <= i < |xs| && parse(xs[i]).Some? ==> (parse(xs[i]).value, xs[i]) in ps
    decreases |xs|
  {
    if xs == [] then []
    else
      var ps := Parsed(xs[..|xs| - 1], parse);
      var s := xs[|xs| - 1];
      match parse(s)
      case Some(d) => ps + [(d, s)]
      case None => ps
  }

  /** Every parsed pair comes from a listed label. */
  lemma {:induction false} ParsedFromList<S(!new)>(xs: seq<S>, parse: S -> Option<Date>)
    ensures forall p :: p in Parsed(xs, parse) ==> p.1 in xs
    decreases |xs|
  {
    if xs != [] {
      var init := xs[..|xs| - 1];
      ParsedFromList(init, parse);
      forall p | p in Parsed(init, parse) ensures p.1 in xs {
        var q :| 0 <= q < |init| && init[q] == p.1;
        assert xs[q] == p.1;
      }
    }
  }

  /** `[(d, s) for (d, s) in parsed if d >= today]`. */
  function Future<S(==,!new)>(parsed: seq<Dated<S>>, today: Date): (fs: seq<Dated<S>>)
    ensures forall p :: p in fs <==> p in parsed && p.0 >= today
    decreases |parsed|
  {
    if parsed == [] then []
    else
      var p := parsed[|parsed| - 1];
      Future(parsed[..|parsed| - 1], today) + (if p.0 >= today then [p] else [])
  }

  /**
   * The rule: nothing when the list is missing, empty or wholly unparsable;
   * otherwise the first future entry of least date (what a stable sort puts
   * first), or, when nothing is in the future, the first entry of greatest date.
   */
  function CurrentExpiry<S(==,!new)>(expiryDates: Option<seq<S>>, today: Date, parse: S -> Option<Date>): Option<S> {
    var xs := expiryDates.GetOr([]);
    if xs == [] then None
    else
      var parsed := Parsed(xs, parse);
      if parsed == [] then None
      else
        var future := Future(parsed, today);
        if future == [] then Some(parsed[Selection.FirstMaxIndex(parsed, DateKey)].1)
        else Some(future[Selection.FirstMinIndex(future, DateKey)].1)
  }

  /** `choose_current_expiry_from_data`, with its parse loop. */
  method ChooseCurrentExpiry<S(==,!new)>(expiryDates: Option<seq<S>>, today: Date, parse: S -> Option<Date>)
    returns (chosen: Option<S>)
    ensures chosen == CurrentExpiry(expiryDates, today, parse)
  {
    var expiryList := expiryDates.GetOr([]);
    if expiryList == [] {
      return None;
    }
    var parsed: seq<Dated<S>> := [];
    for i := 0 to |expiryList|
      invariant parsed == Parsed(expiryList[..i], parse)
    {
      assert expiryList[..i + 1][..i] == expiryList[..i];
      var s := expiryList[i];
      var d := parse(s);
      if d.Some? {
        parsed := parsed + [(d.value, s)];
      }
    }
    assert expiryList[..|expiryList|] == expiryList;
    if parsed == [] {
      return None;
    }
    var future := Future(parsed, today);
    if future == [] {
      var latest := parsed[Selection.FirstMaxIndex(parsed, DateKey)];
      return Some(latest.1);
    }
    var first := future[Selection.FirstMinIndex(future, DateKey)];
    chosen := Some(first.1);
  }

  // ---------------------------------------------------------------------------
  // Properties of the rule
  // ---------------------------------------------------------------------------

  /** Whether `s` parses to a date on or after `today`. */
  predicate Upcoming<S(==,!new)>(s: S, today: Date, parse: S -> Option<Date>) {
    parse(s).Some? && parse(s).value >= today
  }

  /** There is nothing to choose when no entry parses, and only then. */
  lemma NoneIffNothingParses<S(!new)>(expiryDates: Option<seq<S>>, today: Date, parse: S -> Option<Date>)
    ensures CurrentExpiry(expiryDates, today, parse).None? <==>
              forall s :: s in expiryDates.GetOr([]) ==> parse(s).None?
  {
    var xs := expiryDates.GetOr([]);
    ParsedFromList(xs, parse);
    if Parsed(xs, parse) != [] {
      assert Parsed(xs, parse)[0] in Parsed(xs, parse);
    }
    if exists s :: s in xs && parse(s).Some? {
      var s :| s in xs && parse(s).Some?;
      assert (parse(s).value, s) in Parsed(xs, parse);
    }
  }

  /** Any choice is one of the listed Ss, and one that parses. */
  lemma ChoiceIsListed<S(!new)>(expiryDates: Option<seq<S>>, today: Date, parse: S -> Option<Date>)
    ensures CurrentExpiry(expiryDates, today, parse).Some? ==>
              var s := CurrentExpiry(expiryDates, today, parse).value;
              s in expiryDates.GetOr([]) && parse(s).Some?
  {
    var xs := expiryDates.GetOr([]);
    var parsed := Parsed(xs, parse);
    if xs != [] && parsed != [] {
      var future := Future(parsed, today);
      ParsedFromList(xs, parse);
      if future != [] {
        assert future[Selection.FirstMinIndex(future, DateKey)] in parsed;
      }
    }
  }

  /** An upcoming entry of the input is among the future entries. */
  lemma UpcomingInFuture<S(!new)>(xs: seq<S>, today: Date, parse: S -> Option<Date>, j: nat)
    requires j < |xs| && Upcoming(xs[j], today, parse)
    ensures (parse(xs[j]).value, xs[j]) in Future(Parsed(xs, parse), today)
  {
  }

  /** With no entry on or after `today`, nothing is in the future. */
  lemma {:induction false} NoFuture<S(!new)>(ps: seq<Dated<S>>, today: Date)
    requires forall p :: p in ps ==> p.0 < today
    ensures Future(ps, today) == []
    decreases |ps|
  {
    if ps != [] {
      assert ps[|ps| - 1] in ps;
      NoFuture(ps[..|ps| - 1], today);
    }
  }

  lemma FutureAppend<S(!new)>(ps: seq<Dated<S>>, p: Dated<S>, today: Date)
    ensures Future(ps + [p], today) == Future(ps, today) + (if p.0 >= today then [p] else [])
  {
    assert (ps + [p])[..|ps|] == ps;
  }

  /** The first least future entry of `xs` is the S at position `i`, and every upcoming entry before `i` is strictly later. */
  predicate EarliestAt<S(==,!new)>(xs: seq<S>, today: Date, parse: S -> Option<Date>, i: nat)
    requires Future(Parsed(xs, parse), today) != []
  {
    var fs := Future(Parsed(xs, parse), today);
    var best := fs[Selection.FirstMinIndex(fs, DateKey)];
    && i < |xs| && xs[i] == best.1 && parse(xs[i]) == Some(best.0)
    && forall j :: 0 <= j < i && Upcoming(xs[j], today, parse) ==> best.0 < parse(xs[j]).value
  }

  /** Where the first least future entry comes from in the input. */
  lemma {:induction false} EarliestOrigin<S(!new)>(xs: seq<S>, today: Date, parse: S -> Option<Date>) returns (i: nat)
    requires Future(Parsed(xs, parse), today) != []
    ensures EarliestAt(xs, today, parse, i)
    decreases |xs|
  {
    var n := |xs|;
    var init, x := xs[..n - 1], xs[n - 1];
    var fs0 := Future(Parsed(init, parse), today);
    if !Upcoming(x, today, parse) {
      EarliestSkip(xs, today, parse);
      i := EarliestOrigin(init, today, parse);
      EarliestKeep(xs, today, parse, i);
    } else if fs0 == [] {
      i := n - 1;
      EarliestFirst(xs, today, parse);
    } else {
      var i0 := EarliestOrigin(init, today, parse);
      var k0 := Selection.FirstMinIndex(fs0, DateKey);
      if parse(x).value < fs0[k0].0 {
        i := n - 1;
        EarliestReplace(xs, today, parse);
      } else {
        i := i0;
        EarliestExtend(xs, today, parse, i);
      }
    }
  }

  /** An entry that is not upcoming leaves the future entries as they were. */
  lemma EarliestSkip<S(!new)>(xs: seq<S>, today: Date, parse: S -> Option<Date>)
    requires |xs| > 0 && !Upcoming(xs[|xs| - 1], today, parse)
    ensures Future(Parsed(xs, parse), today) == Future(Parsed(xs[..|xs| - 1], parse), today)
  {
    var x := xs[|xs| - 1];
    if parse(x).Some? { FutureAppend(Parsed(xs[..|xs| - 1], parse), (parse(x).value, x), today); }
  }

  /** An origin found in the input without its last entry is an origin in the whole input, when the future entries are the same. */
  lemma EarliestKeep<S(!new)>(xs: seq<S>, today: Date, parse: S -> Option<Date>, i: nat)
    requires |xs| > 0 && Future(Parsed(xs, parse), today) == Future(Parsed(xs[..|xs| - 1], parse), today) != []
    requires EarliestAt(xs[..|xs| - 1], today, parse, i)
    ensures EarliestAt(xs, today, parse, i)
  {
    var init := xs[..|xs| - 1];
    assert xs[i] == init[i];
    assert forall j :: 0 <= j < i ==> xs[j] == init[j];
  }

  /** Every upcoming entry before the last is a future entry of the input without its last entry. */
  lemma UpcomingBeforeLast<S(!new)>(xs: seq<S>, today: Date, parse: S -> Option<Date>)
    requires |xs| > 0
    ensures forall j :: 0 <= j < |xs| - 1 && Upcoming(xs[j], today, parse) ==>
              (parse(xs[j]).value, xs[j]) in Future(Parsed(xs[..|xs| - 1], parse), today)
  {
    var init := xs[..|xs| - 1];
    forall j | 0 <= j < |xs| - 1 && Upcoming(xs[j], today, parse)
      ensures (parse(xs[j]).value, xs[j]) in Future(Parsed(init, parse), today)
    {
      UpcomingInFuture(init, today, parse, j);
    }
  }

  /** The last entry is the first upcoming one. */
  lemma EarliestFirst<S(!new)>(xs: seq<S>, today: Date, parse: S -> Option<Date>)
    requires |xs| > 0 && Upcoming(xs[|xs| - 1], today, parse)
    requires Future(Parsed(xs[..|xs| - 1], parse), today) == []
    ensures Future(Parsed(xs, parse), today) != []
    ensures EarliestAt(xs, today, parse, |xs| - 1)
  {
    var x := xs[|xs| - 1];
    FutureAppend(Parsed(xs[..|xs| - 1], parse), (parse(x).value, x), today);
    UpcomingBeforeLast(xs, today, parse);
  }

  /** The last entry is upcoming and strictly earlier than every earlier upcoming one. */
  lemma EarliestReplace<S(!new)>(xs: seq<S>, today: Date, parse: S -> Option<Date>)
    requires |xs| > 0 && Upcoming(xs[|xs| - 1], today, parse)
    requires var fs0 := Future(Parsed(xs[..|xs| - 1], parse), today);
             fs0 != [] && parse(xs[|xs| - 1]).value < fs0[Selection.FirstMinIndex(fs0, DateKey)].0
    ensures Future(Parsed(xs, parse), today) != []
    ensures EarliestAt(xs, today, parse, |xs| - 1)
  {
    var x := xs[|xs| - 1];
    var e := (parse(x).value, x);
    var fs0 := Future(Parsed(xs[..|xs| - 1], parse), today);
    var fs := Future(Parsed(xs, parse), today);
    FutureAppend(Parsed(xs[..|xs| - 1], parse), e, today);
    assert fs[..|fs0|] == fs0;
    UpcomingBeforeLast(xs, today, parse);
    Selection.MinBelowMembers(fs0, DateKey);
  }

  /** The last entry is upcoming but not strictly earlier: the earlier origin stands. */
  lemma EarliestExtend<S(!new)>(xs: seq<S>, today: Date, parse: S -> Option<Date>, i: nat)
    requires |xs| > 0 && Upcoming(xs[|xs| - 1], today, parse)
    requires var fs0 := Future(Parsed(xs[..|xs| - 1], parse), today);
             fs0 != [] && fs0[Selection.FirstMinIndex(fs0, DateKey)].0 <= parse(xs[|xs| - 1]).value
    requires EarliestAt(xs[..|xs| - 1], today, parse, i)
    ensures Future(Parsed(xs, parse), today) != []
    ensures EarliestAt(xs, today, parse, i)
  {
    var init, x := xs[..|xs| - 1], xs[|xs| - 1];
    var fs0 := Future(Parsed(init, parse), today);
    var e := (parse(x).value, x);
    assert Parsed(xs, parse) == Parsed(init, parse) + [e];
    FutureAppend(Parsed(init, parse), e, today);
    var fs := fs0 + [e];
    assert fs[..|fs0|] == fs0;
    var k0 := Selection.FirstMinIndex(fs0, DateKey);
    assert Selection.FirstMinIndex(fs, DateKey) == k0;
    assert fs[k0] == fs0[k0];
    assert xs[i] == init[i];
    assert forall j :: 0 <= j < i ==> xs[j] == init[j];
  }

  /**
   * When some entry is upcoming, the choice is the entry at position `i`: it
   * is upcoming, no upcoming entry is earlier, and every upcoming entry before
   * position `i` is strictly later (ties go to the first listed).
   */
  lemma EarliestUpcoming<S(!new)>(xs: seq<S>, today: Date, parse: S -> Option<Date>) returns (i: nat)
    requires exists j :: 0 <= j < |xs| && Upcoming(xs[j], today, parse)
    ensures i < |xs| && CurrentExpiry(Some(xs), today, parse) == Some(xs[i])
    ensures Upcoming(xs[i], today, parse)
    ensures forall j :: 0 <= j < |xs| && Upcoming(xs[j], today, parse) ==> parse(xs[i]).value <= parse(xs[j]).value
    ensures forall j :: 0 <= j < i && Upcoming(xs[j], today, parse) ==> parse(xs[i]).value < parse(xs[j]).value
  {
    var j0 :| 0 <= j0 < |xs| && Upcoming(xs[j0], today, parse);
    UpcomingInFuture(xs, today, parse, j0);
    var fs := Future(Parsed(xs, parse), today);
    assert fs[0] in Parsed(xs, parse);
    i := EarliestOrigin(xs, today, parse);
    assert EarliestAt(xs, today, parse, i);
    Selection.MinBelowMembers(fs, DateKey);
    forall j | 0 <= j < |xs| && Upcoming(xs[j], today, parse)
      ensures parse(xs[i]).value <= parse(xs[j]).value
    {
      UpcomingInFuture(xs, today, parse, j);
    }
  }

  /** Today's own expiry counts as current: if one is listed, the choice is dated today. */
  lemma TodayCounts<S(!new)>(xs: seq<S>, today: Date, parse: S -> Option<Date>, j: nat)
    requires j < |xs| && parse(xs[j]) == Some(today)
    ensures CurrentExpiry(Some(xs), today, parse).Some?
    ensures parse(CurrentExpiry(Some(xs), today, parse).value) == Some(today)
  {
    var i := EarliestUpcoming(xs, today, parse);
  }

  /** The first latest parsed entry of `xs` is the S at position `i`, and every parsed entry before `i` is strictly earlier. */
  predicate LatestAt<S(==,!new)>(xs: seq<S>, parse: S -> Option<Date>, i: nat)
    requires Parsed(xs, parse) != []
  {
    var ps := Parsed(xs, parse);
    var best := ps[Selection.FirstMaxIndex(ps, DateKey)];
    && i < |xs| && xs[i] == best.1 && parse(xs[i]) == Some(best.0)
    && forall j :: 0 <= j < i && parse(xs[j]).Some? ==> parse(xs[j]).value < best.0
  }

  /** Where the first latest parsed entry comes from in the input. */
  lemma {:induction false} LatestOrigin<S(!new)>(xs: seq<S>, parse: S -> Option<Date>) returns (i: nat)
    requires Parsed(xs, parse) != []
    ensures LatestAt(xs, parse, i)
    decreases |xs|
  {
    var n := |xs|;
    var init, x := xs[..n - 1], xs[n - 1];
    var ps0 := Parsed(init, parse);
    if parse(x).None? {
      i := LatestOrigin(init, parse);
      LatestKeep(xs, parse, i);
    } else if ps0 == [] {
      i := n - 1;
      LatestFirst(xs, parse);
    } else {
      var i0 := LatestOrigin(init, parse);
      var k0 := Selection.FirstMaxIndex(ps0, DateKey);
      if ps0[k0].0 < parse(x).value {
        i := n - 1;
        LatestReplace(xs, parse);
      } else {
        i := i0;
        LatestExtend(xs, parse, i);
      }
    }
  }

  /** An entry that does not parse leaves the origin as it was. */
  lemma LatestKeep<S(!new)>(xs: seq<S>, parse: S -> Option<Date>, i: nat)
    requires |xs| > 0 && parse(xs[|xs| - 1]).None? && Parsed(xs[..|xs| - 1], parse) != []
    requires LatestAt(xs[..|xs| - 1], parse, i)
    ensures Parsed(xs, parse) != []
    ensures LatestAt(xs, parse, i)
  {
    var init := xs[..|xs| - 1];
    assert Parsed(xs, parse) == Parsed(init, parse);
    assert xs[i] == init[i];
    assert forall j :: 0 <= j < i ==> xs[j] == init[j];
  }

  /** Every parsed entry before the last is a parsed entry of the input without its last entry. */
  lemma ParsedBeforeLast<S(!new)>(xs: seq<S>, parse: S -> Option<Date>)
    requires |xs| > 0
    ensures forall j :: 0 <= j < |xs| - 1 && parse(xs[j]).Some? ==>
              (parse(xs[j]).value, xs[j]) in Parsed(xs[..|xs| - 1], parse)
  {
    var init := xs[..|xs| - 1];
    forall j | 0 <= j < |xs| - 1 && parse(xs[j]).Some?
      ensures (parse(xs[j]).value, xs[j]) in Parsed(init, parse)
    {
      assert init[j] == xs[j];
    }
  }

  /** The last entry is the first that parses. */
  lemma LatestFirst<S(!new)>(xs: seq<S>, parse: S -> Option<Date>)
    requires |xs| > 0 && parse(xs[|xs| - 1]).Some? && Parsed(xs[..|xs| - 1], parse) == []
    ensures Parsed(xs, parse) != []
    ensures LatestAt(xs, parse, |xs| - 1)
  {
    var x := xs[|xs| - 1];
    assert Parsed(xs, parse) == [(parse(x).value, x)];
    ParsedBeforeLast(xs, parse);
  }

  /** The last entry parses to a date strictly later than every earlier parsed one. */
  lemma LatestReplace<S(!new)>(xs: seq<S>, parse: S -> Option<Date>)
    requires |xs| > 0 && parse(xs[|xs| - 1]).Some?
    requires var ps0 := Parsed(xs[..|xs| - 1], parse);
             ps0 != [] && ps0[Selection.FirstMaxIndex(ps0, DateKey)].0 < parse(xs[|xs| - 1]).value
    ensures Parsed(xs, parse) != []
    ensures LatestAt(xs, parse, |xs| - 1)
  {
    var x := xs[|xs| - 1];
    var e := (parse(x).value, x);
    var ps0 := Parsed(xs[..|xs| - 1], parse);
    var ps := Parsed(xs, parse);
    assert ps == ps0 + [e];
    assert ps[..|ps0|] == ps0;
    ParsedBeforeLast(xs, parse);
    Selection.MaxAboveMembers(ps0, DateKey);
  }

  /** The last entry parses to a date no later than the earlier latest: the earlier origin stands. */
  lemma LatestExtend<S(!new)>(xs: seq<S>, parse: S -> Option<Date>, i: nat)
    requires |xs| > 0 && parse(xs[|xs| - 1]).Some?
    requires var ps0 := Parsed(xs[..|xs| - 1], parse);
             ps0 != [] && parse(xs[|xs| - 1]).value <= ps0[Selection.FirstMaxIndex(ps0, DateKey)].0
    requires LatestAt(xs[..|xs| - 1], parse, i)
    ensures Parsed(xs, parse) != []
    ensures LatestAt(xs, parse, i)
  {
    var init, x := xs[..|xs| - 1], xs[|xs| - 1];
    var ps0 := Parsed(init, parse);
    var ps := Parsed(xs, parse);
    assert ps == ps0 + [(parse(x).value, x)];
    assert ps[..|ps0|] == ps0;
    var k0 := Selection.FirstMaxIndex(ps0, DateKey);
    assert Selection.FirstMaxIndex(ps, DateKey) == k0;
    assert ps[k0] == ps0[k0];
    assert xs[i] == init[i];
    assert forall j :: 0 <= j < i ==> xs[j] == init[j];
  }

  /**
   * When entries parse but none is upcoming, the choice is the entry at
   * position `i`: no parsed entry is later, and every parsed entry before
   * position `i` is strictly earlier (ties go to the first listed).
   */
  lemma LatestFallback<S(!new)>(xs: seq<S>, today: Date, parse: S -> Option<Date>) returns (i: nat)
    requires exists j :: 0 <= j < |xs| && parse(xs[j]).Some?
    requires forall j :: 0 <= j < |xs| ==> !Upcoming(xs[j], today, parse)
    ensures i < |xs| && CurrentExpiry(Some(xs), today, parse) == Some(xs[i])
    ensures parse(xs[i]).Some? && parse(xs[i]).value < today
    ensures forall j :: 0 <= j < |xs| && parse(xs[j]).Some? ==> parse(xs[j]).value <= parse(xs[i]).value
    ensures forall j :: 0 <= j < i && parse(xs[j]).Some? ==> parse(xs[j]).value < parse(xs[i]).value
  {
    var j0 :| 0 <= j0 < |xs| && parse(xs[j0]).Some?;
    SomethingParses(xs, parse, j0);
    NothingUpcoming(xs, today, parse);
    FallbackChoice(xs, today, parse);
    i := LatestOrigin(xs, parse);
    LatestIsLatest(xs, parse, i);
    assert !Upcoming(xs[i], today, parse);
  }

  /** A list with a label that parses has a parsed entry. */
  lemma SomethingParses<S(!new)>(xs: seq<S>, parse: S -> Option<Date>, j: nat)
    requires j < |xs| && parse(xs[j]).Some?
    ensures Parsed(xs, parse) != []
  {
    assert (parse(xs[j]).value, xs[j]) in Parsed(xs, parse);
  }

  /** With parsed entries but none in the future, the choice is the first latest one. */
  lemma FallbackChoice<S(!new)>(xs: seq<S>, today: Date, parse: S -> Option<Date>)
    requires Parsed(xs, parse) != [] && Future(Parsed(xs, parse), today) == []
    ensures var ps := Parsed(xs, parse);
            CurrentExpiry(Some(xs), today, parse) == Some(ps[Selection.FirstMaxIndex(ps, DateKey)].1)
  {
  }

  /** With no entry upcoming, no parsed entry is in the future. */
  lemma NothingUpcoming<S(!new)>(xs: seq<S>, today: Date, parse: S -> Option<Date>)
    requires forall j :: 0 <= j < |xs| ==> !Upcoming(xs[j], today, parse)
    ensures Future(Parsed(xs, parse), today) == []
  {
    var parsed := Parsed(xs, parse);
    ParsedFromList(xs, parse);
    forall p | p in parsed ensures p.0 < today {
      var q :| 0 <= q < |xs| && xs[q] == p.1;
    }
    NoFuture(parsed, today);
  }

  /** The origin of the first latest entry is dated no earlier than any parsed entry. */
  lemma LatestIsLatest<S(!new)>(xs: seq<S>, parse: S -> Option<Date>, i: nat)
    requires Parsed(xs, parse) != [] && LatestAt(xs, parse, i)
    ensures forall j :: 0 <= j < |xs| && parse(xs[j]).Some? ==> parse(xs[j]).value <= parse(xs[i]).value
  {
    var parsed := Parsed(xs, parse);
    Selection.MaxAboveMembers(parsed, DateKey);
    forall j | 0 <= j < |xs| && parse(xs[j]).Some?
      ensures parse(xs[j]).value <= parse(xs[i]).value
    {
      assert (parse(xs[j]).value, xs[j]) in parsed;
    }
  }

  /** The entries of `xs` that parse, in order. */
  function Parseable<S(==,!new)>(xs: seq<S>, parse: S -> Option<Date>): (ys: seq<S>)
    ensures forall s :: s in ys <==> s in xs && parse(s).Some?
    decreases |xs|
  {
    if xs == [] then []
    else
      var s := xs[|xs| - 1];
      Parseable(xs[..|xs| - 1], parse) + (if parse(s).Some? then [s] else [])
  }

  lemma {:induction false} ParsedOfParseable<S(!new)>(xs: seq<S>, parse: S -> Option<Date>)
    ensures Parsed(Parseable(xs, parse), parse) == Parsed(xs, parse)
    decreases |xs|
  {
    if xs != [] {
      var init, s := xs[..|xs| - 1], xs[|xs| - 1];
      var ys0 := Parseable(init, parse);
      ParsedOfParseable(init, parse);
      if parse(s).Some? {
        var ys := ys0 + [s];
        assert ys[..|ys| - 1] == ys0;
        assert Parsed(ys, parse) == Parsed(ys0, parse) + [(parse(s).value, s)];
      } else {
        assert Parseable(xs, parse) == ys0;
      }
    }
  }

  /** Entries that fail to parse never influence the choice. */
  lemma UnparsableIgnored<S(!new)>(xs: seq<S>, today: Date, parse: S -> Option<Date>)
    ensures CurrentExpiry(Some(xs), today, parse) == CurrentExpiry(Some(Parseable(xs, parse)), today, parse)
  {
    ParsedOfParseable(xs, parse);
    if xs == [] {
      assert Parseable(xs, parse) == [];
    }
  }
}
