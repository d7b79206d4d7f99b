/**
 * `SearchHelper.update_team_year_index` (helpers/search_helper.py, lines
 * 49-178) as an imperative method: the two groupings, the nested loops over
 * years, events and awards that update the overall, year and event
 * counters in place, and the puts, which are appended to `puts` in the
 * order they happen. The method is proved against `ExpectedPuts`, whose
 * properties are the lemmas of the Rollup and Documents modules.
 */
module SearchHelper {
  import opened Records
  import opened Naming
  import opened Tally
  import opened Rollup
  import opened Documents

  // ----- sequence steps used by the loops -----

  lemma AppendAssoc<T>(a: seq<T>, b: seq<T>, c: seq<T>)
    ensures a + (b + c) == a + b + c
  {
  }

  lemma TakeAll<T>(s: seq<T>)
    ensures s[..|s|] == s
  {
  }

  lemma TakeSnoc<T>(s: seq<T>, k: nat)
    requires k < |s|
    ensures s[..k + 1] == s[..k] + [s[k]]
  {
  }

  /**
   * Lines 53-55: the events of each year, in input order. `order` lists
   * the keys of `events_by_year` once each; the dictionary's iteration
   * order is not fixed, so only that it lists every year once is promised.
   */
  method GroupEventsByYear(events: seq<Event>) returns (byYear: map<nat, seq<Event>>, order: seq<nat>)
    ensures GroupedEvents(events, byYear)
    ensures NoDuplicates(order) && Elems(order) == EventYears(events)
    ensures forall i :: 0 <= i < |order| ==> order[i] in byYear
  {
    byYear, order := map[], [];
    var i := 0;
    while i < |events|
      invariant 0 <= i <= |events|
      invariant GroupedEvents(events[..i], byYear)
      invariant NoDuplicates(order) && Elems(order) == byYear.Keys
    {
      var e := events[i];
      if e.year in byYear {
        GroupedEventsAppend(events, i, byYear);
        byYear := byYear[e.year := byYear[e.year] + [e]];
      } else {
        GroupedEventsNew(events, i, byYear);
        byYear := byYear[e.year := [e]];
        NoDuplicatesSnoc(order, e.year);
        order := order + [e.year];
      }
      i := i + 1;
    }
    TakeAll(events);
  }

  /** `events_by_year` as built by lines 53-55: each year of an event, with its events in input order. */
  ghost predicate GroupedEvents(events: seq<Event>, byYear: map<nat, seq<Event>>)
  {
    byYear.Keys == EventYears(events)
    && forall y :: y in byYear ==> byYear[y] == YearEvents(events, y)
  }

  /** The next event is appended to its year's list, which already exists. */
  lemma GroupedEventsAppend(events: seq<Event>, i: nat, byYear: map<nat, seq<Event>>)
    requires i < |events| && GroupedEvents(events[..i], byYear)
    requires events[i].year in byYear
    ensures GroupedEvents(events[..i + 1], byYear[events[i].year := byYear[events[i].year] + [events[i]]])
  {
    GroupedEventsStep(events, i);
  }

  /** The next event is the first of its year, which gets a new list. */
  lemma GroupedEventsNew(events: seq<Event>, i: nat, byYear: map<nat, seq<Event>>)
    requires i < |events| && GroupedEvents(events[..i], byYear)
    requires events[i].year !in byYear
    ensures GroupedEvents(events[..i + 1], byYear[events[i].year := [events[i]]])
  {
    GroupedEventsStep(events, i);
    YearEventsAbsent(events[..i], events[i].year);
  }

  lemma GroupedEventsStep(events: seq<Event>, i: nat)
    requires i < |events|
    ensures EventYears(events[..i + 1]) == EventYears(events[..i]) + {events[i].year}
    ensures forall y :: YearEvents(events[..i + 1], y)
                     == if events[i].year == y then YearEvents(events[..i], y) + [events[i]] else YearEvents(events[..i], y)
  {
    TakeSnoc(events, i);
    forall y ensures YearEvents(events[..i + 1], y)
                     == if events[i].year == y then YearEvents(events[..i], y) + [events[i]] else YearEvents(events[..i], y) {
      YearEventsSnoc(events[..i], events[i], y);
    }
    EventYearsSnoc(events[..i], events[i]);
  }

  /** Lines 57-59: the awards of each event, in input order. */
  method GroupAwardsByEvent(awards: seq<Award>) returns (byEvent: map<string, seq<Award>>)
    ensures GroupedAwards(awards, byEvent)
  {
    byEvent := map[];
    var i := 0;
    while i < |awards|
      invariant 0 <= i <= |awards|
      invariant GroupedAwards(awards[..i], byEvent)
    {
      var a := awards[i];
      if a.eventKey in byEvent {
        GroupedAwardsAppend(awards, i, byEvent);
        byEvent := byEvent[a.eventKey := byEvent[a.eventKey] + [a]];
      } else {
        GroupedAwardsNew(awards, i, byEvent);
        byEvent := byEvent[a.eventKey := [a]];
      }
      i := i + 1;
    }
    TakeAll(awards);
  }

  /** `awards_by_event` as built by lines 57-59: each event key of an award, with its awards in input order. */
  ghost predicate GroupedAwards(awards: seq<Award>, byEvent: map<string, seq<Award>>)
  {
    byEvent.Keys == AwardEventKeys(awards)
    && forall k :: k in byEvent ==> byEvent[k] == AwardsOf(awards, k)
  }

  /** The next award is appended to its event's list, which already exists. */
  lemma GroupedAwardsAppend(awards: seq<Award>, i: nat, byEvent: map<string, seq<Award>>)
    requires i < |awards| && GroupedAwards(awards[..i], byEvent)
    requires awards[i].eventKey in byEvent
    ensures GroupedAwards(awards[..i + 1], byEvent[awards[i].eventKey := byEvent[awards[i].eventKey] + [awards[i]]])
  {
    GroupedAwardsStep(awards, i);
  }

  /** The next award is the first of its event, which gets a new list. */
  lemma GroupedAwardsNew(awards: seq<Award>, i: nat, byEvent: map<string, seq<Award>>)
    requires i < |awards| && GroupedAwards(awards[..i], byEvent)
    requires awards[i].eventKey !in byEvent
    ensures GroupedAwards(awards[..i + 1], byEvent[awards[i].eventKey := [awards[i]]])
  {
    GroupedAwardsStep(awards, i);
    AwardsOfAbsent(awards[..i], awards[i].eventKey);
  }

  lemma GroupedAwardsStep(awards: seq<Award>, i: nat)
    requires i < |awards|
    ensures AwardEventKeys(awards[..i + 1]) == AwardEventKeys(awards[..i]) + {awards[i].eventKey}
    ensures forall k :: AwardsOf(awards[..i + 1], k)
                     == if awards[i].eventKey == k then AwardsOf(awards[..i], k) + [awards[i]] else AwardsOf(awards[..i], k)
  {
    TakeSnoc(awards, i);
    assert awards[..i + 1][..i] == awards[..i];
    AwardEventKeysSnoc(awards[..i], awards[i]);
  }

  /** Counting an event's type before or after adding it to a base scope comes to the same. */
  lemma EventTypeMove(base: Tally, t: Tally, eventType: nat)
    ensures Add(CountEventType(base, eventType), t) == Add(base, CountEventType(t, eventType))
  {
    AddComm(CountEventType(base, eventType), t);
    CountEventTypeShift(t, base, eventType);
    AddComm(t, base);
    CountEventTypeShift(base, t, eventType);
  }

  /**
   * Lines 99-127: counts the awards of one event into the overall, year
   * and event scopes. Each scope gains exactly the event's award counters.
   */
  method CountEventAwards(cfg: Config, eventAwards: seq<Award>, overallIn: Tally, yearIn: Tally)
    returns (overall: Tally, yearTally: Tally, eventTally: Tally)
    ensures eventTally == AwardsTally(cfg, eventAwards)
    ensures overall == Add(overallIn, eventTally)
    ensures yearTally == Add(yearIn, eventTally)
  {
    overall, yearTally, eventTally := overallIn, yearIn, Zero();
    AddZero(overallIn);
    AddZero(yearIn);
    var a := 0;
    while a < |eventAwards|
      invariant 0 <= a <= |eventAwards|
      invariant eventTally == AwardsTally(cfg, eventAwards[..a])
      invariant overall == Add(overallIn, eventTally)
      invariant yearTally == Add(yearIn, eventTally)
    {
      var award := eventAwards[a];
      TakeSnoc(eventAwards, a);
      CountAwardShift(cfg, overallIn, eventTally, award);
      CountAwardShift(cfg, yearIn, eventTally, award);
      overall := CountAward(cfg, overall, award);
      yearTally := CountAward(cfg, yearTally, award);
      eventTally := CountAward(cfg, eventTally, award);
      a := a + 1;
    }
    TakeAll(eventAwards);
  }

  /**
   * Lines 93-141 for one in-season event: counts its type and its awards
   * into the overall and year scopes and builds its document.
   */
  method IndexEvent(cfg: Config, team: Team, awards: seq<Award>, awardsByEvent: map<string, seq<Award>>,
                    yearFields: Fields, event: Event, overallIn: Tally, yearIn: Tally)
    returns (doc: Document, overall: Tally, yearTally: Tally)
    requires InSeason(cfg, event)
    requires yearFields == BaseFields(team) + map[YearName := Number(event.year)]
    requires GroupedAwards(awards, awardsByEvent)
    ensures doc == EventDoc(cfg, team, awards, event)
    ensures overall == Add(overallIn, Contribution(cfg, awards, event))
    ensures yearTally == Add(yearIn, Contribution(cfg, awards, event))
  {
    overall := CountEventType(overallIn, event.eventType);
    yearTally := CountEventType(yearIn, event.eventType);

    var eventFields := yearFields + map[EventKeyName := Atom(event.key)];
    var eventAwards := if event.key in awardsByEvent then awardsByEvent[event.key] else [];
    if event.key !in awardsByEvent {
      AwardsOfAbsent(awards, event.key);
    }
    var eventTally;
    overall, yearTally, eventTally := CountEventAwards(cfg, eventAwards, overall, yearTally);
    EventTypeMove(overallIn, eventTally, event.eventType);
    EventTypeMove(yearIn, eventTally, event.eventType);

    eventFields := eventFields + EventCounterFields(eventTally);
    doc := Document(TeamEventIndex, EventDocId(team.key, event.key), eventFields);
  }

  /**
   * Lines 80-160 for one year: visits the year's events, puts one document
   * per in-season event, then the year's document, and adds the year's
   * counters to the overall scope.
   */
  method IndexYear(cfg: Config, team: Team, awards: seq<Award>, awardsByEvent: map<string, seq<Award>>,
                   overallFields: Fields, year: nat, yearEvents: seq<Event>, overallIn: Tally)
    returns (docs: seq<Document>, overall: Tally)
    requires overallFields == BaseFields(team)
    requires GroupedAwards(awards, awardsByEvent)
    requires forall e :: e in yearEvents ==> e.year == year
    ensures docs == EventDocs(cfg, team, awards, yearEvents) + [YearScopeDoc(cfg, team, awards, year, yearEvents)]
    ensures overall == Add(overallIn, SumTally(cfg, awards, yearEvents))
  {
    var yearFields := overallFields + map[YearName := Number(year)];
    var yearTally := Zero();
    overall := overallIn;
    docs := [];
    AddZero(overallIn);
    var j := 0;
    while j < |yearEvents|
      invariant 0 <= j <= |yearEvents|
      invariant docs == EventDocs(cfg, team, awards, yearEvents[..j])
      invariant yearTally == SumTally(cfg, awards, yearEvents[..j])
      invariant overall == Add(overallIn, yearTally)
    {
      var event := yearEvents[j];
      TakeSnoc(yearEvents, j);
      SumTallySnoc(cfg, awards, yearEvents[..j], event);
      if !InSeason(cfg, event) {
        AddZero(yearTally);
        j := j + 1;
        continue;
      }
      assert event.year == year;
      ghost var yearBefore := yearTally;
      var doc;
      doc, overall, yearTally := IndexEvent(cfg, team, awards, awardsByEvent, yearFields, event, overall, yearTally);
      AddAssoc(overallIn, yearBefore, Contribution(cfg, awards, event));
      docs := docs + [doc];
      j := j + 1;
    }
    TakeAll(yearEvents);

    yearFields := yearFields + ScopeCounterFields(yearTally);
    docs := docs + [Document(TeamYearIndex, YearDocId(team.key, year), yearFields)];
  }

  /** Visiting one more year extends the puts by that year's event documents and year document. */
  lemma YearPutsSnoc(cfg: Config, team: Team, events: seq<Event>, awards: seq<Award>, pre: seq<nat>, year: nat)
    ensures YearPuts(cfg, team, events, awards, pre + [year])
         == YearPuts(cfg, team, events, awards, pre)
            + EventDocs(cfg, team, awards, YearEvents(events, year)) + [YearDoc(cfg, team, events, awards, year)]
  {
    assert (pre + [year])[..|pre|] == pre;
  }

  /** Visiting one more year adds that year's counters to the overall scope. */
  lemma SumYearsSnoc(cfg: Config, events: seq<Event>, awards: seq<Award>, pre: seq<nat>, year: nat)
    ensures SumYears(cfg, events, awards, pre + [year])
         == Add(SumYears(cfg, events, awards, pre), SumTally(cfg, awards, YearEvents(events, year)))
  {
    assert (pre + [year])[..|pre|] == pre;
  }

  /** One pass of the year loop extends the puts by the year's event documents and its document. */
  lemma YearStepPuts(cfg: Config, team: Team, events: seq<Event>, awards: seq<Award>, pre: seq<nat>, year: nat,
                     docs: seq<Document>)
    requires docs == EventDocs(cfg, team, awards, YearEvents(events, year))
                     + [YearScopeDoc(cfg, team, awards, year, YearEvents(events, year))]
    ensures YearPuts(cfg, team, events, awards, pre) + docs == YearPuts(cfg, team, events, awards, pre + [year])
  {
    YearPutsSnoc(cfg, team, events, awards, pre, year);
    AppendAssoc(YearPuts(cfg, team, events, awards, pre), EventDocs(cfg, team, awards, YearEvents(events, year)),
                [YearDoc(cfg, team, events, awards, year)]);
  }

  /**
   * Lines 79-160: visits the years in the order `order`, putting each
   * year's event documents and then its document, and accumulates the
   * overall counters.
   */
  method IndexYears(cfg: Config, team: Team, events: seq<Event>, awards: seq<Award>,
                    eventsByYear: map<nat, seq<Event>>, order: seq<nat>, awardsByEvent: map<string, seq<Award>>)
    returns (puts: seq<Document>, overall: Tally)
    requires GroupedEvents(events, eventsByYear)
    requires forall i :: 0 <= i < |order| ==> order[i] in eventsByYear
    requires GroupedAwards(awards, awardsByEvent)
    ensures puts == YearPuts(cfg, team, events, awards, order)
    ensures overall == SumYears(cfg, events, awards, order)
  {
    var overallFields := BaseFields(team);
    overall := Zero();
    puts := [];
    var k := 0;
    while k < |order|
      invariant 0 <= k <= |order|
      invariant puts == YearPuts(cfg, team, events, awards, order[..k])
      invariant overall == SumYears(cfg, events, awards, order[..k])
    {
      var year := order[k];
      TakeSnoc(order, k);
      var yearEvents := eventsByYear[year];
      assert yearEvents == YearEvents(events, year);
      var docs;
      docs, overall := IndexYear(cfg, team, awards, awardsByEvent, overallFields, year, yearEvents, overall);
      YearStepPuts(cfg, team, events, awards, order[..k], year, docs);
      SumYearsSnoc(cfg, events, awards, order[..k], year);
      puts := puts + docs;
      k := k + 1;
    }
    assert k == |order|;
    TakeAll(order);
  }

  /**
   * Lines 49-178. Returns the documents put, in order, and the order in
   * which the years were visited; every year of an event is visited once.
   */
  method UpdateTeamYearIndex(cfg: Config, team: Team, events: seq<Event>, awards: seq<Award>)
    returns (puts: seq<Document>, years: seq<nat>)
    ensures NoDuplicates(years) && Elems(years) == EventYears(events)
    ensures puts == ExpectedPuts(cfg, team, events, awards, years)
  {
    var eventsByYear, order := GroupEventsByYear(events);
    var awardsByEvent := GroupAwardsByEvent(awards);

    var overall;
    puts, overall := IndexYears(cfg, team, events, awards, eventsByYear, order, awardsByEvent);
    OverallIsSumOfYears(cfg, events, awards, order);

    var overallFields := BaseFields(team) + ScopeCounterFields(overall);
    puts := puts + [Document(TeamIndex, OverallDocId(team.key), overallFields)];
    years := order;
  }
}
