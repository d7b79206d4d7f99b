/**
 * The rollup of `update_team_year_index` as pure specification functions:
 * the two groupings (lines 53-59), the counters of one event's awards
 * (lines 102-127), the contribution of one event to the year and overall
 * scopes (lines 89-127), and the year and overall totals. The lemmas state
 * what the nested loops promise: out-of-season events count for nothing,
 * the overall counters are the sum of the year counters whatever order the
 * years are visited in, the event-type counts add up to the number of
 * in-season events, and every scope is sparse and keeps its win counters in
 * agreement with its composite counters.
 */
module Rollup {
  import opened Records
  import opened Naming
  import opened Tally

  // ----- grouping -----

  /** `awards_by_event.get(key, [])`: the awards of one event, in input order. */
  function AwardsOf(awards: seq<Award>, key: string): (r: seq<Award>)
    ensures forall a :: a in r ==> a.eventKey == key
  {
    if awards == [] then []
    else
      var last := awards[|awards| - 1];
      var rest := AwardsOf(awards[..|awards| - 1], key);
      if last.eventKey == key then rest + [last] else rest
  }

  /** `events_by_year[year]`: the events of one year, in input order. */
  function YearEvents(events: seq<Event>, year: nat): (r: seq<Event>)
    ensures forall e :: e in r ==> e.year == year
  {
    if events == [] then []
    else
      var last := events[|events| - 1];
      var rest := YearEvents(events[..|events| - 1], year);
      if last.year == year then rest + [last] else rest
  }

  /** A non-empty sequence is its prefix followed by its last element. */
  lemma SplitLast<T>(s: seq<T>)
    requires s != []
    ensures s == s[..|s| - 1] + [s[|s| - 1]]
  {
  }

  /** The keys of `events_by_year`. */
  function EventYears(events: seq<Event>): set<nat>
  {
    set e | e in events :: e.year
  }

  /** The keys of `awards_by_event`. */
  function AwardEventKeys(awards: seq<Award>): set<string>
  {
    set a | a in awards :: a.eventKey
  }

  lemma EventYearsSnoc(pre: seq<Event>, e: Event)
    ensures EventYears(pre + [e]) == EventYears(pre) + {e.year}
  {
    assert e in pre + [e];
    forall x | x in pre ensures x in pre + [e] { }
  }

  lemma AwardEventKeysSnoc(pre: seq<Award>, a: Award)
    ensures AwardEventKeys(pre + [a]) == AwardEventKeys(pre) + {a.eventKey}
  {
    assert a in pre + [a];
    forall x | x in pre ensures x in pre + [a] { }
  }

  /** A year no event falls in has no events (the default of `events_by_year`). */
  lemma {:induction false} YearEventsAbsent(events: seq<Event>, year: nat)
    requires year !in EventYears(events)
    ensures YearEvents(events, year) == []
  {
    if events != [] {
      var n := |events| - 1;
      assert events[n] in events;
      assert EventYears(events[..n]) <= EventYears(events) by {
        forall e | e in events[..n] ensures e in events { }
      }
      YearEventsAbsent(events[..n], year);
    }
  }

  /** An event with no awards gets the empty list (the default of line 100). */
  lemma {:induction false} AwardsOfAbsent(awards: seq<Award>, key: string)
    requires key !in AwardEventKeys(awards)
    ensures AwardsOf(awards, key) == []
  {
    if awards != [] {
      var n := |awards| - 1;
      assert awards[n] in awards;
      assert AwardEventKeys(awards[..n]) <= AwardEventKeys(awards) by {
        forall a | a in awards[..n] ensures a in awards { }
      }
      AwardsOfAbsent(awards[..n], key);
    }
  }

  /** Every award lands in the bucket of its own event, as often as it occurs, and in no other. */
  lemma {:induction false} AwardsOfExactlyOnce(awards: seq<Award>, key: string, a: Award)
    ensures multiset(AwardsOf(awards, key))[a] == if a.eventKey == key then multiset(awards)[a] else 0
  {
    if awards != [] {
      var n := |awards| - 1;
      AwardsOfExactlyOnce(awards[..n], key, a);
      SplitLast(awards);
    }
  }

  /** Every event lands in the bucket of its own year, as often as it occurs, and in no other. */
  lemma {:induction false} YearEventsExactlyOnce(events: seq<Event>, year: nat, e: Event)
    ensures multiset(YearEvents(events, year))[e] == if e.year == year then multiset(events)[e] else 0
  {
    if events != [] {
      var n := |events| - 1;
      YearEventsExactlyOnce(events[..n], year, e);
      SplitLast(events);
    }
  }

  // ----- counting -----

  /** The counters of one event scope after its awards are counted (lines 99-127). */
  function AwardsTally(cfg: Config, awards: seq<Award>): (r: Tally)
    ensures r.eventTypes == map[]
  {
    if awards == [] then Zero()
    else CountAward(cfg, AwardsTally(cfg, awards[..|awards| - 1]), awards[|awards| - 1])
  }

  /** What one event adds to its year and to the overall scope (lines 89-127). */
  function Contribution(cfg: Config, awards: seq<Award>, e: Event): (r: Tally)
    ensures !InSeason(cfg, e) ==> r == Zero()
    ensures InSeason(cfg, e) ==> r.eventTypes == map[e.eventType := 1]
  {
    if InSeason(cfg, e) then CountEventType(AwardsTally(cfg, AwardsOf(awards, e.key)), e.eventType)
    else Zero()
  }

  /** The per-event contributions, as a function value. */
  function ContributionOf(cfg: Config, awards: seq<Award>): Event -> Tally
  {
    e => Contribution(cfg, awards, e)
  }

  /** The counters accumulated over a list of events, each adding `f(e)`. */
  function SumOver(f: Event -> Tally, events: seq<Event>): Tally
  {
    if events == [] then Zero()
    else Add(SumOver(f, events[..|events| - 1]), f(events[|events| - 1]))
  }

  /** The counters accumulated over a list of events. */
  function SumTally(cfg: Config, awards: seq<Award>, events: seq<Event>): Tally
  {
    SumOver(ContributionOf(cfg, awards), events)
  }

  /** The year scope: the counters over `events_by_year[year]`. */
  function YearTally(cfg: Config, events: seq<Event>, awards: seq<Award>, year: nat): Tally
  {
    SumTally(cfg, awards, YearEvents(events, year))
  }

  /** The overall scope, stated independently of the year grouping: the counters over all events. */
  function OverallTally(cfg: Config, events: seq<Event>, awards: seq<Award>): Tally
  {
    SumTally(cfg, awards, events)
  }

  /** The sums over the years of `years`, added up. */
  function SumYearsOver(f: Event -> Tally, events: seq<Event>, years: seq<nat>): Tally
  {
    if years == [] then Zero()
    else Add(SumYearsOver(f, events, years[..|years| - 1]), SumOver(f, YearEvents(events, years[|years| - 1])))
  }

  /** The year scopes of `years`, added up. */
  function SumYears(cfg: Config, events: seq<Event>, awards: seq<Award>, years: seq<nat>): Tally
  {
    SumYearsOver(ContributionOf(cfg, awards), events, years)
  }

  function InSeasonEvents(cfg: Config, events: seq<Event>): (r: seq<Event>)
    ensures forall e :: e in r ==> e in events && InSeason(cfg, e)
  {
    if events == [] then []
    else
      var last := events[|events| - 1];
      var rest := InSeasonEvents(cfg, events[..|events| - 1]);
      if InSeason(cfg, last) then rest + [last] else rest
  }

  /** The events whose year is one of `years`, in input order. */
  function EventsInYears(events: seq<Event>, years: set<nat>): (r: seq<Event>)
  {
    if events == [] then []
    else
      var last := events[|events| - 1];
      var rest := EventsInYears(events[..|events| - 1], years);
      if last.year in years then rest + [last] else rest
  }

  /** The years of a list, as a set. */
  function Elems(years: seq<nat>): set<nat>
  {
    set y | y in years
  }

  predicate NoDuplicates(years: seq<nat>)
  {
    forall i, j :: 0 <= i < j < |years| ==> years[i] != years[j]
  }

  /** Appending a year not yet listed keeps the list free of duplicates. */
  lemma NoDuplicatesSnoc(years: seq<nat>, y: nat)
    requires NoDuplicates(years) && y !in Elems(years)
    ensures NoDuplicates(years + [y]) && Elems(years + [y]) == Elems(years) + {y}
  {
    assert forall i :: 0 <= i < |years| ==> years[i] in Elems(years);
  }

  // ----- the season filter -----

  /**
   * Dropping the out-of-season events changes no counter at all, even when
   * those events have awards.
   */
  lemma {:induction false} SeasonFilter(cfg: Config, awards: seq<Award>, events: seq<Event>)
    ensures SumTally(cfg, awards, events) == SumTally(cfg, awards, InSeasonEvents(cfg, events))
  {
    if events != [] {
      var n := |events| - 1;
      var pre, last := events[..n], events[n];
      SeasonFilter(cfg, awards, pre);
      var kept := InSeasonEvents(cfg, pre);
      var sum := SumTally(cfg, awards, pre);
      assert SumTally(cfg, awards, events) == Add(sum, Contribution(cfg, awards, last));
      if InSeason(cfg, last) {
        var all := kept + [last];
        assert InSeasonEvents(cfg, events) == all;
        assert all[..|kept|] == kept && all[|kept|] == last;
        assert SumTally(cfg, awards, all) == Add(SumTally(cfg, awards, kept), Contribution(cfg, awards, last));
      } else {
        assert InSeasonEvents(cfg, events) == kept;
        AddZero(sum);
      }
    }
  }

  // ----- overall from years -----

  lemma {:induction false} SumOverSnoc(f: Event -> Tally, events: seq<Event>, e: Event)
    ensures SumOver(f, events + [e]) == Add(SumOver(f, events), f(e))
  {
    assert (events + [e])[..|events|] == events;
  }

  lemma SumTallySnoc(cfg: Config, awards: seq<Award>, events: seq<Event>, e: Event)
    ensures SumTally(cfg, awards, events + [e]) == Add(SumTally(cfg, awards, events), Contribution(cfg, awards, e))
  {
    SumOverSnoc(ContributionOf(cfg, awards), events, e);
  }

  lemma SumTallyLast(cfg: Config, awards: seq<Award>, events: seq<Event>)
    requires events != []
    ensures SumTally(cfg, awards, events)
         == Add(SumTally(cfg, awards, events[..|events| - 1]), Contribution(cfg, awards, events[|events| - 1]))
  {
  }

  lemma ExistsSnoc(pre: seq<Event>, last: Event, p: Event -> bool)
    ensures (exists e :: e in pre + [last] && p(e)) <==> (exists e :: e in pre && p(e)) || p(last)
  {
    if p(last) {
      assert last in pre + [last];
    }
    forall e | e in pre + [last] && p(e) && e != last ensures e in pre { }
  }

  lemma {:induction false} YearEventsSnoc(pre: seq<Event>, last: Event, year: nat)
    ensures YearEvents(pre + [last], year)
         == if last.year == year then YearEvents(pre, year) + [last] else YearEvents(pre, year)
  {
    assert (pre + [last])[..|pre|] == pre;
  }

  lemma InsertYear(years: set<nat>, year: nat)
    ensures forall y :: y in years + {year} <==> y in years || y == year
  {
  }

  /** Adding one more year to a set of years adds that year's sum. */
  lemma {:induction false} PartitionYears(f: Event -> Tally, events: seq<Event>, years: set<nat>, year: nat)
    requires year !in years
    ensures SumOver(f, EventsInYears(events, years + {year}))
         == Add(SumOver(f, EventsInYears(events, years)), SumOver(f, YearEvents(events, year)))
  {
    if events == [] {
      AddZero(Zero());
    } else {
      PartitionYears(f, events[..|events| - 1], years, year);
      InsertYear(years, year);
      PartitionStep(f, events, years, year, years + {year});
    }
  }

  /** The sum over the events of some years, split off at the last event. */
  lemma SumInYearsLast(f: Event -> Tally, events: seq<Event>, years: set<nat>)
    requires events != []
    ensures SumOver(f, EventsInYears(events, years))
         == if events[|events| - 1].year in years
            then Add(SumOver(f, EventsInYears(events[..|events| - 1], years)), f(events[|events| - 1]))
            else SumOver(f, EventsInYears(events[..|events| - 1], years))
  {
    SumOverSnoc(f, EventsInYears(events[..|events| - 1], years), events[|events| - 1]);
  }

  /** The sum over the events of one year, split off at the last event. */
  lemma SumInYearLast(f: Event -> Tally, events: seq<Event>, year: nat)
    requires events != []
    ensures SumOver(f, YearEvents(events, year))
         == if events[|events| - 1].year == year
            then Add(SumOver(f, YearEvents(events[..|events| - 1], year)), f(events[|events| - 1]))
            else SumOver(f, YearEvents(events[..|events| - 1], year))
  {
    SumOverSnoc(f, YearEvents(events[..|events| - 1], year), events[|events| - 1]);
  }

  lemma PartitionStep(f: Event -> Tally, events: seq<Event>, years: set<nat>, year: nat, both: set<nat>)
    requires events != [] && year !in years
    requires forall y :: y in both <==> y in years || y == year
    requires SumOver(f, EventsInYears(events[..|events| - 1], both))
          == Add(SumOver(f, EventsInYears(events[..|events| - 1], years)), SumOver(f, YearEvents(events[..|events| - 1], year)))
    ensures SumOver(f, EventsInYears(events, both))
         == Add(SumOver(f, EventsInYears(events, years)), SumOver(f, YearEvents(events, year)))
  {
    var pre, last := events[..|events| - 1], events[|events| - 1];
    SumInYearsLast(f, events, years);
    SumInYearLast(f, events, year);
    SumInYearsLast(f, events, both);
    SplitStep(SumOver(f, EventsInYears(pre, years)), SumOver(f, YearEvents(pre, year)),
              SumOver(f, EventsInYears(pre, both)), f(last), last.year in years, last.year == year);
  }

  /** Adding `c` to the total adds it to whichever part it belongs to. */
  lemma SplitStep(a: Tally, b: Tally, ab: Tally, c: Tally, inA: bool, inB: bool)
    requires !(inA && inB)
    requires ab == Add(a, b)
    ensures (if inA || inB then Add(ab, c) else ab)
         == Add(if inA then Add(a, c) else a, if inB then Add(b, c) else b)
  {
    if inA {
      AddSwap(a, b, c);
    } else if inB {
      AddAssoc(a, b, c);
    }
  }

  /** Selecting every year of the events selects all of them. */
  lemma {:induction false} EventsInAllYears(events: seq<Event>, years: set<nat>)
    requires EventYears(events) <= years
    ensures EventsInYears(events, years) == events
  {
    if events != [] {
      var n := |events| - 1;
      assert EventYears(events[..n]) <= EventYears(events) by {
        forall e | e in events[..n] ensures e in events { }
      }
      EventsInAllYears(events[..n], years);
      SplitLast(events);
    }
  }

  lemma {:induction false} EmptySelection(events: seq<Event>)
    ensures EventsInYears(events, {}) == []
  {
    if events != [] {
      EmptySelection(events[..|events| - 1]);
    }
  }

  /** The year sums of distinct years add up to the sum over all their events. */
  lemma {:induction false} SumYearsIsSelection(f: Event -> Tally, events: seq<Event>, years: seq<nat>)
    requires NoDuplicates(years)
    ensures SumYearsOver(f, events, years) == SumOver(f, EventsInYears(events, Elems(years)))
  {
    if years == [] {
      assert Elems(years) == {};
      EmptySelection(events);
    } else {
      var n := |years| - 1;
      var pre, y := years[..n], years[n];
      assert y !in Elems(pre) by {
        forall i | 0 <= i < n ensures pre[i] != y { }
      }
      assert Elems(years) == Elems(pre) + {y} by {
        SplitLast(years);
      }
      assert NoDuplicates(pre);
      assert SumYearsOver(f, events, years) == Add(SumYearsOver(f, events, pre), SumOver(f, YearEvents(events, y)));
      SumYearsIsSelection(f, events, pre);
      PartitionYears(f, events, Elems(pre), y);
    }
  }

  /**
   * The overall counters are the sum of the year counters, over any
   * duplicate-free enumeration of the years the events fall in: the order in
   * which `events_by_year.items()` yields the years does not matter.
   */
  lemma OverallIsSumOfYears(cfg: Config, events: seq<Event>, awards: seq<Award>, years: seq<nat>)
    requires NoDuplicates(years)
    requires EventYears(events) <= Elems(years)
    ensures OverallTally(cfg, events, awards) == SumYears(cfg, events, awards, years)
  {
    SumYearsIsSelection(ContributionOf(cfg, awards), events, years);
    EventsInAllYears(events, Elems(years));
  }

  // ----- invariants of every scope -----

  lemma {:induction false} AwardsTallyInvariants(cfg: Config, awards: seq<Award>)
    ensures SparseTally(AwardsTally(cfg, awards))
    ensures WinsAgree(cfg, AwardsTally(cfg, awards))
    ensures AwardsTally(cfg, awards).eventTypes == map[]
  {
    if awards != [] {
      var n := |awards| - 1;
      AwardsTallyInvariants(cfg, awards[..n]);
      SparseSteps(cfg, AwardsTally(cfg, awards[..n]), Zero(), awards[n], 0);
      WinsAgreeCountAward(cfg, AwardsTally(cfg, awards[..n]), awards[n]);
    }
  }

  /**
   * Every scope built from events is sparse (each stored count is at least
   * one) and its win counters agree with its composite counters.
   */
  lemma {:induction false} SumTallyInvariants(cfg: Config, awards: seq<Award>, events: seq<Event>)
    ensures SparseTally(SumTally(cfg, awards, events))
    ensures WinsAgree(cfg, SumTally(cfg, awards, events))
  {
    if events != [] {
      var n := |events| - 1;
      SumTallyInvariants(cfg, awards, events[..n]);
      var prev, c := SumTally(cfg, awards, events[..n]), Contribution(cfg, awards, events[n]);
      AwardsTallyInvariants(cfg, AwardsOf(awards, events[n].key));
      var t := AwardsTally(cfg, AwardsOf(awards, events[n].key));
      SparseSteps(cfg, t, Zero(), Award("", 0, 0), events[n].eventType);
      WinsAgreeCountEventType(cfg, t, events[n].eventType);
      SparseSteps(cfg, prev, c, Award("", 0, 0), 0);
      WinsAgreeAdd(cfg, prev, c);
    }
  }

  /** The event-type counts of a scope add up to the number of its in-season events. */
  lemma {:induction false} EventTypeTotal(cfg: Config, awards: seq<Award>, events: seq<Event>)
    ensures SumValues(SumTally(cfg, awards, events).eventTypes) == |InSeasonEvents(cfg, events)|
  {
    if events == [] {
      assert SumValues(Zero().eventTypes) == 0;
    } else {
      var n := |events| - 1;
      EventTypeTotal(cfg, awards, events[..n]);
      var prev, c := SumTally(cfg, awards, events[..n]), Contribution(cfg, awards, events[n]);
      SumValuesMerge(prev.eventTypes, c.eventTypes);
      if InSeason(cfg, events[n]) {
        AwardsTallyInvariants(cfg, AwardsOf(awards, events[n].key));
        var none: map<nat, nat> := map[];
        SumValuesInc(none, events[n].eventType);
        assert SumValues(none) == 0;
      } else {
        assert SumValues(c.eventTypes) == 0;
      }
    }
  }

  /** An in-season event of a type is among `pre + [last]` when it is among `pre` or is `last`. */
  lemma EventOfTypeSnoc(cfg: Config, pre: seq<Event>, last: Event, eventType: nat)
    ensures (exists e :: e in pre + [last] && InSeason(cfg, e) && e.eventType == eventType)
        <==> (exists e :: e in pre && InSeason(cfg, e) && e.eventType == eventType)
             || (InSeason(cfg, last) && last.eventType == eventType)
  {
    if InSeason(cfg, last) && last.eventType == eventType {
      assert last in pre + [last];
    }
    forall e | e in pre ensures e in pre + [last] {
    }
  }

  /** An event-type field occurs in a scope exactly when an in-season event of that type does. */
  lemma {:induction false} EventTypeOccurs(cfg: Config, awards: seq<Award>, events: seq<Event>, eventType: nat)
    ensures eventType in SumTally(cfg, awards, events).eventTypes
        <==> exists e :: e in events && InSeason(cfg, e) && e.eventType == eventType
  {
    if events != [] {
      var n := |events| - 1;
      var pre, last := events[..n], events[n];
      SplitLast(events);
      EventOfTypeSnoc(cfg, pre, last, eventType);
      SumTallySnoc(cfg, awards, pre, last);
      AwardsTallyInvariants(cfg, AwardsOf(awards, last.key));
      EventTypeOccurs(cfg, awards, pre, eventType);
    }
  }

  /** An award-type field occurs in an event scope exactly when an award of that type does. */
  lemma {:induction false} AwardTypeOccurs(cfg: Config, awards: seq<Award>, awardType: nat)
    ensures awardType in AwardsTally(cfg, awards).awardTypes
        <==> exists a :: a in awards && a.awardType == awardType
  {
    if awards != [] {
      var n := |awards| - 1;
      AwardTypeOccurs(cfg, awards[..n], awardType);
      SplitLast(awards);
    }
  }

  /**
   * A composite field occurs in an event scope exactly when an award with
   * that event type and award type does.
   */
  lemma {:induction false} CompositeOccurs(cfg: Config, awards: seq<Award>, eventType: nat, awardType: nat)
    ensures CompositeKey(eventType, awardType) in AwardsTally(cfg, awards).eventAwardTypes
        <==> exists a :: a in awards && a.eventType == eventType && a.awardType == awardType
  {
    if awards != [] {
      var n := |awards| - 1;
      CompositeOccurs(cfg, awards[..n], eventType, awardType);
      CompositeKeyInjective(awards[n].eventType, awards[n].awardType, eventType, awardType);
      SplitLast(awards);
    }
  }

  /**
   * An award type occurs in a year or overall scope exactly when it occurs
   * in the scope of one of its in-season events.
   */
  lemma {:induction false} ScopeAwardTypesFromEvents(cfg: Config, awards: seq<Award>, events: seq<Event>, awardType: nat)
    ensures awardType in SumTally(cfg, awards, events).awardTypes
        <==> exists e :: e in events && InSeason(cfg, e) && awardType in AwardsTally(cfg, AwardsOf(awards, e.key)).awardTypes
  {
    if events != [] {
      var n := |events| - 1;
      var pre, last := events[..n], events[n];
      SplitLast(events);
      ExistsSnoc(pre, last, e => InSeason(cfg, e) && awardType in AwardsTally(cfg, AwardsOf(awards, e.key)).awardTypes);
      SumTallySnoc(cfg, awards, pre, last);
      ScopeAwardTypesFromEvents(cfg, awards, pre, awardType);
    }
  }

  /**
   * A composite key occurs in a year or overall scope exactly when it occurs
   * in the scope of one of its in-season events.
   */
  lemma {:induction false} ScopeCompositesFromEvents(cfg: Config, awards: seq<Award>, events: seq<Event>, key: string)
    ensures key in SumTally(cfg, awards, events).eventAwardTypes
        <==> exists e :: e in events && InSeason(cfg, e) && key in AwardsTally(cfg, AwardsOf(awards, e.key)).eventAwardTypes
  {
    if events != [] {
      var n := |events| - 1;
      var pre, last := events[..n], events[n];
      SplitLast(events);
      ExistsSnoc(pre, last, e => InSeason(cfg, e) && key in AwardsTally(cfg, AwardsOf(awards, e.key)).eventAwardTypes);
      SumTallySnoc(cfg, awards, pre, last);
      ScopeCompositesFromEvents(cfg, awards, pre, key);
    }
  }

  // ----- what the counters count -----

  /** The number of awards of a list that pass `p`. */
  function CountIf(awards: seq<Award>, p: Award -> bool): (r: nat)
    ensures r <= |awards|
  {
    if awards == [] then 0
    else CountIf(awards[..|awards| - 1], p) + (if p(awards[|awards| - 1]) then 1 else 0)
  }

  /** The award tests of lines 104, 109, 115, 121-122 and 121+125. */
  function OfType(awardType: nat): Award -> bool
  {
    (x: Award) => x.awardType == awardType
  }

  function OfPair(eventType: nat, awardType: nat): Award -> bool
  {
    (x: Award) => x.eventType == eventType && x.awardType == awardType
  }

  function BlueBannerAward(cfg: Config): Award -> bool
  {
    (x: Award) => x.awardType in cfg.blueBanner
  }

  function DivisionWin(cfg: Config): Award -> bool
  {
    (x: Award) => x.awardType == cfg.winner && x.eventType == cfg.cmpDivision
  }

  /** Reached only through the `elif`, so never when CMP_FINALS equals CMP_DIVISION. */
  function FinalsWin(cfg: Config): Award -> bool
  {
    (x: Award) => x.awardType == cfg.winner && x.eventType == cfg.cmpFinals && x.eventType != cfg.cmpDivision
  }

  lemma {:induction false} CountIfAppend(xs: seq<Award>, ys: seq<Award>, p: Award -> bool)
    ensures CountIf(xs + ys, p) == CountIf(xs, p) + CountIf(ys, p)
    decreases |ys|
  {
    if ys != [] {
      var n := |ys| - 1;
      CountIfAppend(xs, ys[..n], p);
      assert (xs + ys)[..|xs + ys| - 1] == xs + ys[..n];
    } else {
      assert xs + ys == xs;
    }
  }

  /**
   * The counters of an event scope count its awards: per award type, per
   * (event type, award type) pair, blue-banner awards, WINNER awards at
   * CMP_DIVISION events and WINNER awards at CMP_FINALS events (the `elif`
   * of line 125, which never fires when CMP_FINALS equals CMP_DIVISION).
   */
  lemma AwardsTallyCounts(cfg: Config, awards: seq<Award>, awardType: nat, eventType: nat)
    ensures Get(AwardsTally(cfg, awards).awardTypes, awardType) == CountIf(awards, OfType(awardType))
    ensures Get(AwardsTally(cfg, awards).eventAwardTypes, CompositeKey(eventType, awardType))
         == CountIf(awards, OfPair(eventType, awardType))
    ensures AwardsTally(cfg, awards).bb == CountIf(awards, BlueBannerAward(cfg))
    ensures AwardsTally(cfg, awards).divwin
         == CountIf(awards, DivisionWin(cfg))
    ensures AwardsTally(cfg, awards).cmpwin
         == CountIf(awards, FinalsWin(cfg))
  {
    AwardsTallyKeyCounts(cfg, awards, awardType, eventType);
    AwardsTallyFixedCounts(cfg, awards);
  }

  /** The award-type and composite counters of an event scope. */
  lemma {:induction false} AwardsTallyKeyCounts(cfg: Config, awards: seq<Award>, awardType: nat, eventType: nat)
    ensures Get(AwardsTally(cfg, awards).awardTypes, awardType) == CountIf(awards, OfType(awardType))
    ensures Get(AwardsTally(cfg, awards).eventAwardTypes, CompositeKey(eventType, awardType))
         == CountIf(awards, OfPair(eventType, awardType))
  {
    if awards != [] {
      var n := |awards| - 1;
      var prev, a := AwardsTally(cfg, awards[..n]), awards[n];
      AwardsTallyKeyCounts(cfg, awards[..n], awardType, eventType);
      IncGet(prev.awardTypes, a.awardType, awardType);
      IncGet(prev.eventAwardTypes, CompositeKey(a.eventType, a.awardType), CompositeKey(eventType, awardType));
      CompositeKeyInjective(a.eventType, a.awardType, eventType, awardType);
    }
  }

  /** The blue-banner and win counters of an event scope. */
  lemma {:induction false} AwardsTallyFixedCounts(cfg: Config, awards: seq<Award>)
    ensures AwardsTally(cfg, awards).bb == CountIf(awards, BlueBannerAward(cfg))
    ensures AwardsTally(cfg, awards).divwin == CountIf(awards, DivisionWin(cfg))
    ensures AwardsTally(cfg, awards).cmpwin == CountIf(awards, FinalsWin(cfg))
  {
    if awards != [] {
      AwardsTallyFixedCounts(cfg, awards[..|awards| - 1]);
    }
  }

  /** The awards an event has counted: its awards when it is in season, none otherwise. */
  function CountedAwards(cfg: Config, awards: seq<Award>, e: Event): seq<Award>
  {
    if InSeason(cfg, e) then AwardsOf(awards, e.key) else []
  }

  /** The awards a year or overall scope counts: those of its in-season events, event by event. */
  function ScopeAwards(cfg: Config, awards: seq<Award>, events: seq<Event>): seq<Award>
  {
    if events == [] then []
    else ScopeAwards(cfg, awards, events[..|events| - 1]) + CountedAwards(cfg, awards, events[|events| - 1])
  }

  /** The number of in-season events of a list with the given type. */
  function CountOfType(cfg: Config, events: seq<Event>, eventType: nat): (r: nat)
    ensures r <= |events|
  {
    if events == [] then 0
    else
      var last := events[|events| - 1];
      CountOfType(cfg, events[..|events| - 1], eventType)
        + (if InSeason(cfg, last) && last.eventType == eventType then 1 else 0)
  }

  /** What one event adds to each counter of its year and of the overall scope. */
  lemma ContributionCounts(cfg: Config, awards: seq<Award>, e: Event, awardType: nat, eventType: nat)
    ensures Get(Contribution(cfg, awards, e).awardTypes, awardType)
         == CountIf(CountedAwards(cfg, awards, e), OfType(awardType))
    ensures Get(Contribution(cfg, awards, e).eventAwardTypes, CompositeKey(eventType, awardType))
         == CountIf(CountedAwards(cfg, awards, e), OfPair(eventType, awardType))
    ensures Contribution(cfg, awards, e).bb == CountIf(CountedAwards(cfg, awards, e), BlueBannerAward(cfg))
    ensures Contribution(cfg, awards, e).divwin == CountIf(CountedAwards(cfg, awards, e), DivisionWin(cfg))
    ensures Contribution(cfg, awards, e).cmpwin == CountIf(CountedAwards(cfg, awards, e), FinalsWin(cfg))
    ensures Get(Contribution(cfg, awards, e).eventTypes, eventType)
         == if InSeason(cfg, e) && e.eventType == eventType then 1 else 0
  {
    if InSeason(cfg, e) {
      AwardsTallyCounts(cfg, AwardsOf(awards, e.key), awardType, eventType);
    }
  }

  /**
   * A counter that adds up when scopes merge, and that each event raises by
   * the number of its counted awards passing `p`, counts over a whole scope
   * the scope's awards that pass `p`.
   */
  lemma {:induction false} ScopeCount(cfg: Config, awards: seq<Award>, events: seq<Event>, read: Tally -> nat, p: Award -> bool)
    requires forall x, y :: read(Add(x, y)) == read(x) + read(y)
    requires forall e :: read(Contribution(cfg, awards, e)) == CountIf(CountedAwards(cfg, awards, e), p)
    ensures read(SumTally(cfg, awards, events)) == CountIf(ScopeAwards(cfg, awards, events), p)
  {
    if events == [] {
      AddZero(Zero());
    } else {
      var n := |events| - 1;
      ScopeCount(cfg, awards, events[..n], read, p);
      SumTallyLast(cfg, awards, events);
      CountIfAppend(ScopeAwards(cfg, awards, events[..n]), CountedAwards(cfg, awards, events[n]), p);
    }
  }

  lemma ScopeAwardTypeCount(cfg: Config, awards: seq<Award>, events: seq<Event>, awardType: nat)
    ensures Get(SumTally(cfg, awards, events).awardTypes, awardType)
         == CountIf(ScopeAwards(cfg, awards, events), OfType(awardType))
  {
    var read := (t: Tally) => Get(t.awardTypes, awardType);
    forall x, y ensures read(Add(x, y)) == read(x) + read(y) {
      MergeGet(x.awardTypes, y.awardTypes, awardType);
    }
    forall e ensures read(Contribution(cfg, awards, e)) == CountIf(CountedAwards(cfg, awards, e), OfType(awardType)) {
      ContributionCounts(cfg, awards, e, awardType, 0);
    }
    ScopeCount(cfg, awards, events, read, OfType(awardType));
  }

  lemma ScopePairCount(cfg: Config, awards: seq<Award>, events: seq<Event>, eventType: nat, awardType: nat)
    ensures Get(SumTally(cfg, awards, events).eventAwardTypes, CompositeKey(eventType, awardType))
         == CountIf(ScopeAwards(cfg, awards, events), OfPair(eventType, awardType))
  {
    var key := CompositeKey(eventType, awardType);
    var read := (t: Tally) => Get(t.eventAwardTypes, key);
    forall x, y ensures read(Add(x, y)) == read(x) + read(y) {
      MergeGet(x.eventAwardTypes, y.eventAwardTypes, key);
    }
    forall e ensures read(Contribution(cfg, awards, e)) == CountIf(CountedAwards(cfg, awards, e), OfPair(eventType, awardType)) {
      ContributionCounts(cfg, awards, e, awardType, eventType);
    }
    ScopeCount(cfg, awards, events, read, OfPair(eventType, awardType));
  }

  lemma ScopeFixedCounts(cfg: Config, awards: seq<Award>, events: seq<Event>)
    ensures SumTally(cfg, awards, events).bb == CountIf(ScopeAwards(cfg, awards, events), BlueBannerAward(cfg))
    ensures SumTally(cfg, awards, events).divwin == CountIf(ScopeAwards(cfg, awards, events), DivisionWin(cfg))
    ensures SumTally(cfg, awards, events).cmpwin == CountIf(ScopeAwards(cfg, awards, events), FinalsWin(cfg))
  {
    forall e ensures Contribution(cfg, awards, e).bb == CountIf(CountedAwards(cfg, awards, e), BlueBannerAward(cfg))
                  && Contribution(cfg, awards, e).divwin == CountIf(CountedAwards(cfg, awards, e), DivisionWin(cfg))
                  && Contribution(cfg, awards, e).cmpwin == CountIf(CountedAwards(cfg, awards, e), FinalsWin(cfg)) {
      ContributionCounts(cfg, awards, e, 0, 0);
    }
    ScopeCount(cfg, awards, events, (t: Tally) => t.bb, BlueBannerAward(cfg));
    ScopeCount(cfg, awards, events, (t: Tally) => t.divwin, DivisionWin(cfg));
    ScopeCount(cfg, awards, events, (t: Tally) => t.cmpwin, FinalsWin(cfg));
  }

  /** The event-type counters of a scope count its in-season events of each type. */
  lemma {:induction false} ScopeEventTypeCount(cfg: Config, awards: seq<Award>, events: seq<Event>, eventType: nat)
    ensures Get(SumTally(cfg, awards, events).eventTypes, eventType) == CountOfType(cfg, events, eventType)
  {
    if events != [] {
      var n := |events| - 1;
      var prev, c := SumTally(cfg, awards, events[..n]), Contribution(cfg, awards, events[n]);
      ScopeEventTypeCount(cfg, awards, events[..n], eventType);
      SumTallyLast(cfg, awards, events);
      ContributionCounts(cfg, awards, events[n], 0, eventType);
      MergeGet(prev.eventTypes, c.eventTypes, eventType);
    }
  }

  /**
   * The counters of a year or overall scope count the awards of its
   * in-season events, and its event-type counters count those events.
   */
  lemma SumTallyCounts(cfg: Config, awards: seq<Award>, events: seq<Event>, awardType: nat, eventType: nat)
    ensures Get(SumTally(cfg, awards, events).awardTypes, awardType)
         == CountIf(ScopeAwards(cfg, awards, events), OfType(awardType))
    ensures Get(SumTally(cfg, awards, events).eventAwardTypes, CompositeKey(eventType, awardType))
         == CountIf(ScopeAwards(cfg, awards, events), OfPair(eventType, awardType))
    ensures SumTally(cfg, awards, events).bb == CountIf(ScopeAwards(cfg, awards, events), BlueBannerAward(cfg))
    ensures SumTally(cfg, awards, events).divwin == CountIf(ScopeAwards(cfg, awards, events), DivisionWin(cfg))
    ensures SumTally(cfg, awards, events).cmpwin == CountIf(ScopeAwards(cfg, awards, events), FinalsWin(cfg))
    ensures Get(SumTally(cfg, awards, events).eventTypes, eventType) == CountOfType(cfg, events, eventType)
  {
    ScopeAwardTypeCount(cfg, awards, events, awardType);
    ScopePairCount(cfg, awards, events, eventType, awardType);
    ScopeFixedCounts(cfg, awards, events);
    ScopeEventTypeCount(cfg, awards, events, eventType);
  }
}
